/**
 * The ET-312 packet checksum: an 8-bit additive sum, appended as the last
 * byte of every packet that carries data (key exchange, reads, writes).
 */
module ChecksumCodec {
  import opened Bytes

  /** The sum of all bytes as an unbounded integer: the value `accum` reaches before reduction. */
  function Sum(data: seq<uint8>): nat
  {
    if |data| == 0 then 0 else Sum(data[..|data| - 1]) + data[|data| - 1] as int
  }

  /** The checksum of a byte sequence: its sum reduced to one byte. */
  function Checksum(data: seq<uint8>): uint8
  {
    (Sum(data) % 0x100) as uint8
  }

  /** `packet.push(generateChecksum(packet))`: a packet followed by its own checksum. */
  function AppendChecksum(packet: seq<uint8>): (framed: seq<uint8>)
  {
    packet + [Checksum(packet)]
  }

  /**
   * `verifyChecksum`: the last byte must equal the checksum of the bytes before it.
   * An empty packet has no last byte (`undefined` in the source), which never matches.
   */
  predicate VerifyChecksum(data: seq<uint8>)
  {
    |data| > 0 && data[|data| - 1] == Checksum(data[..|data| - 1])
  }

  /**
   * `generateChecksum`: adds the bytes up in an unbounded accumulator and reduces
   * it modulo 256 only if it exceeded 255.
   */
  method GenerateChecksum(data: seq<uint8>) returns (c: uint8)
    ensures c as int == Sum(data) % 0x100
    ensures c == Checksum(data)
    ensures data == [] ==> c == 0
  {
    var accum: int := 0;
    for i := 0 to |data|
      invariant accum == Sum(data[..i])
    {
      assert data[..i + 1][..i] == data[..i];
      accum := accum + data[i] as int;
    }
    assert data[..|data|] == data;
    if accum > 255 {
      accum := accum % 256;
    }
    c := accum as uint8;
  }

  /** Unfolds `Checksum` for the proofs below. */
  lemma ChecksumIsSumMod256(data: seq<uint8>)
    ensures Checksum(data) as int == Sum(data) % 0x100
    ensures data == [] ==> Checksum(data) == 0
  {
  }

  lemma SumAppend(data: seq<uint8>, b: uint8)
    ensures Sum(data + [b]) == Sum(data) + b as int
  {
    assert (data + [b])[..|data|] == data;
  }

  lemma {:induction false} SumConcat(a: seq<uint8>, b: seq<uint8>)
    ensures Sum(a + b) == Sum(a) + Sum(b)
  {
    if b == [] {
      assert a + b == a;
    } else {
      var init, last := b[..|b| - 1], b[|b| - 1];
      assert b == init + [last];
      assert a + b == (a + init) + [last];
      SumAppend(a + init, last);
      SumAppend(init, last);
      SumConcat(a, init);
    }
  }

  /** Euclidean division by 256 has exactly one remainder. */
  lemma ModUnique(a: int, q: int, r: int)
    requires a == 0x100 * q + r && 0 <= r < 0x100
    ensures a % 0x100 == r
  {
  }

  lemma ModAdd(x: nat, y: nat)
    ensures (x % 0x100 + y % 0x100) % 0x100 == (x + y) % 0x100
  {
    var qx, rx := x / 0x100, x % 0x100;
    var qy, ry := y / 0x100, y % 0x100;
    if rx + ry < 0x100 {
      ModUnique(x + y, qx + qy, rx + ry);
      ModUnique(rx + ry, 0, rx + ry);
    } else {
      ModUnique(x + y, qx + qy + 1, rx + ry - 0x100);
      ModUnique(rx + ry, 1, rx + ry - 0x100);
    }
  }

  /** Adding a nonzero amount smaller than 256 in magnitude always changes a value modulo 256. */
  lemma ModShift(s: int, d: int)
    requires -0x100 < d < 0x100 && d != 0
    ensures (s + d) % 0x100 != s % 0x100
  {
    var q, r := s / 0x100, s % 0x100;
    ModUnique(s, q, r);
    if 0 <= r + d < 0x100 {
      ModUnique(s + d, q, r + d);
    } else if r + d >= 0x100 {
      ModUnique(s + d, q + 1, r + d - 0x100);
    } else {
      ModUnique(s + d, q - 1, r + d + 0x100);
    }
  }

  /** Checksums compose: the checksum of a concatenation is the byte sum of the parts' checksums. */
  lemma ChecksumConcat(a: seq<uint8>, b: seq<uint8>)
    ensures Checksum(a + b) as int == (Checksum(a) as int + Checksum(b) as int) % 0x100
  {
    SumConcat(a, b);
    ChecksumIsSumMod256(a + b);
    ChecksumIsSumMod256(a);
    ChecksumIsSumMod256(b);
    ModAdd(Sum(a), Sum(b));
  }

  /** Replacing one byte changes the sum by exactly the difference of the two bytes. */
  lemma {:induction false} SumUpdate(data: seq<uint8>, i: nat, x: uint8)
    requires i < |data|
    ensures Sum(data[i := x]) == Sum(data) - data[i] as int + x as int
  {
    var n := |data|;
    var updated := data[i := x];
    assert updated[..n - 1] == if i == n - 1 then data[..n - 1] else data[..n - 1][i := x];
    if i < n - 1 {
      SumUpdate(data[..n - 1], i, x);
    }
  }

  /** Every packet with its checksum appended verifies. */
  lemma VerifyAcceptsFramed(packet: seq<uint8>)
    ensures VerifyChecksum(AppendChecksum(packet))
  {
    assert AppendChecksum(packet)[..|packet|] == packet;
  }

  /** A trailing byte verifies exactly when it is the checksum of the bytes before it. */
  lemma VerifyTrailingByte(packet: seq<uint8>, last: uint8)
    ensures VerifyChecksum(packet + [last]) <==> last == Checksum(packet)
  {
    assert (packet + [last])[..|packet|] == packet;
  }

  /** The packets that verify are exactly the packets framed by `AppendChecksum`. */
  lemma VerifyIffFramed(data: seq<uint8>)
    ensures VerifyChecksum(data) <==> exists packet :: data == AppendChecksum(packet)
  {
    if VerifyChecksum(data) {
      assert data == AppendChecksum(data[..|data| - 1]);
    }
    if exists packet :: data == AppendChecksum(packet) {
      var packet :| data == AppendChecksum(packet);
      VerifyAcceptsFramed(packet);
    }
  }

  /**
   * Changing any single byte of a framed packet, the checksum byte included,
   * makes it fail verification.
   */
  lemma SingleByteCorruptionDetected(packet: seq<uint8>, i: nat, x: uint8)
    requires i <= |packet|
    requires x != AppendChecksum(packet)[i]
    ensures !VerifyChecksum(AppendChecksum(packet)[i := x])
  {
    var framed := AppendChecksum(packet);
    var n := |packet|;
    if i == n {
      assert framed[i := x] == packet + [x];
      VerifyTrailingByte(packet, x);
    } else {
      var corrupted := packet[i := x];
      assert framed[i := x] == corrupted + [Checksum(packet)];
      VerifyTrailingByte(corrupted, Checksum(packet));
      SumUpdate(packet, i, x);
      ChecksumIsSumMod256(packet);
      ChecksumIsSumMod256(corrupted);
      ModShift(Sum(packet), x as int - packet[i] as int);
      assert Checksum(corrupted) as int != Checksum(packet) as int;
    }
  }
}

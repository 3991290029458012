/**
 * Reply framing of `writeAndExpect`: a fixed-length buffer and a running offset
 * collect the chunks the serial port delivers until exactly the expected number
 * of bytes has been counted; replies longer than one byte must then pass the
 * checksum.
 *
 * Two behaviours of the handler are kept as they are:
 *  - every byte of a chunk is written at the same `offset`, which only then
 *    advances by the chunk's length, so the buffer holds the stream only when
 *    chunks are one byte long;
 *  - a chunk that carries the count past the expected length never satisfies
 *    the `offset === length` test; the next non-empty chunk then writes past the
 *    end of the buffer, which throws and rejects.
 */
module Framing {
  import opened Bytes
  import opened ChecksumCodec

  datatype FrameError =
    | WriteOutOfRange   // `buffer.writeUInt8` at an offset at or past the end of the buffer
    | InvalidChecksum   // `verifyChecksum` threw on a complete reply

  /** The promise of one `writeAndExpect` call. */
  datatype Status = Pending | Resolved(reply: seq<uint8>) | Rejected(error: FrameError)

  /** The handler's state: the reply buffer (its length is the expected length), the offset and the promise. */
  datatype Frame = Frame(buffer: seq<uint8>, offset: nat, status: Status)

  /** The state before any chunk arrives; the buffer's initial contents are taken to be zero. */
  function Start(length: nat): Frame
  {
    Frame(seq(length, _ => 0), 0, Pending)
  }

  /** The promise settled because the expected number of bytes was counted. */
  predicate Completed(s: Status)
  {
    s.Resolved? || s == Rejected(InvalidChecksum)
  }

  /** The handler run on one chunk. A settled promise ignores further chunks. */
  function Step(f: Frame, chunk: seq<uint8>): (g: Frame)
    ensures |g.buffer| == |f.buffer|
  {
    var length := |f.buffer|;
    if !f.status.Pending? then f
    else if |chunk| > 0 && f.offset >= length then f.(status := Rejected(WriteOutOfRange))
    else
      var buffer := if |chunk| > 0 then f.buffer[f.offset := chunk[|chunk| - 1]] else f.buffer;
      var offset := f.offset + |chunk|;
      var status :=
        if offset != length then Pending
        else if length > 1 && !VerifyChecksum(buffer) then Rejected(InvalidChecksum)
        else Resolved(buffer);
      Frame(buffer, offset, status)
  }

  /** The handler run on each chunk in arrival order. */
  function FeedAll(f: Frame, chunks: seq<seq<uint8>>): (g: Frame)
    ensures |g.buffer| == |f.buffer|
    decreases chunks
  {
    if chunks == [] then f else FeedAll(Step(f, chunks[0]), chunks[1..])
  }

  /** The number of bytes the chunks carry. */
  function Total(chunks: seq<seq<uint8>>): nat
  {
    if chunks == [] then 0 else |chunks[0]| + Total(chunks[1..])
  }

  /** The stream `s` delivered one byte per chunk. */
  function Singles(s: seq<uint8>): (chunks: seq<seq<uint8>>)
    ensures |chunks| == |s|
    ensures forall i :: 0 <= i < |s| ==> chunks[i] == [s[i]]
  {
    seq(|s|, i requires 0 <= i < |s| => [s[i]])
  }

  /**
   * What a settled promise says about its buffer: a resolved reply is the whole
   * buffer, complete, and checksummed when longer than one byte; a checksum
   * rejection means the complete buffer failed the checksum.
   */
  ghost predicate Sound(f: Frame)
  {
    (f.status.Resolved? ==>
       f.status.reply == f.buffer && f.offset == |f.buffer| &&
       (|f.buffer| > 1 ==> VerifyChecksum(f.buffer))) &&
    (f.status == Rejected(InvalidChecksum) ==>
       f.offset == |f.buffer| > 1 && !VerifyChecksum(f.buffer))
  }

  /** Once the promise has settled, further chunks change nothing. */
  lemma {:induction false} SettledIsFinal(f: Frame, chunks: seq<seq<uint8>>)
    requires !f.status.Pending?
    ensures FeedAll(f, chunks) == f
  {
    if chunks != [] {
      SettledIsFinal(f, chunks[1..]);
    }
  }

  /** Every handler run keeps the promise consistent with the buffer. */
  lemma {:induction false} FeedAllSound(f: Frame, chunks: seq<seq<uint8>>)
    requires Sound(f)
    ensures Sound(FeedAll(f, chunks))
    decreases chunks
  {
    if chunks != [] {
      FeedAllSound(Step(f, chunks[0]), chunks[1..]);
    }
  }

  lemma TotalPrefix(chunks: seq<seq<uint8>>, k: nat)
    requires 1 <= k <= |chunks|
    ensures chunks[..k][0] == chunks[0] && chunks[..k][1..] == chunks[1..][..k - 1]
    ensures Total(chunks[..k]) == |chunks[0]| + Total(chunks[1..][..k - 1])
  {
    assert chunks[..k][1..] == chunks[1..][..k - 1];
  }

  /**
   * A pending reply completes exactly when the running count of received bytes
   * hits the expected length after some chunk; overshooting it never completes.
   */
  lemma {:induction false} CompletesExactlyAtLength(f: Frame, chunks: seq<seq<uint8>>)
    requires f.status.Pending?
    ensures Completed(FeedAll(f, chunks).status) <==>
      exists k :: 1 <= k <= |chunks| && f.offset + Total(chunks[..k]) == |f.buffer|
    decreases chunks
  {
    if chunks == [] {
      return;
    }
    var c, rest := chunks[0], chunks[1..];
    var g := Step(f, c);
    forall k | 1 <= k <= |chunks|
      ensures Total(chunks[..k]) == |c| + Total(rest[..k - 1])
    {
      TotalPrefix(chunks, k);
    }
    if !g.status.Pending? {
      SettledIsFinal(g, rest);
      if g.status == Rejected(WriteOutOfRange) {
        // the count already reached the length and this chunk adds to it
        assert |c| > 0 && f.offset >= |f.buffer|;
        forall k | 1 <= k <= |chunks|
          ensures f.offset + Total(chunks[..k]) != |f.buffer|
        {
        }
      } else {
        assert f.offset + Total(chunks[..1]) == |f.buffer|;
      }
    } else {
      CompletesExactlyAtLength(g, rest);
      assert g.offset == f.offset + |c| != |f.buffer|;
      if exists k :: 1 <= k <= |chunks| && f.offset + Total(chunks[..k]) == |f.buffer| {
        var k :| 1 <= k <= |chunks| && f.offset + Total(chunks[..k]) == |f.buffer|;
        assert k != 1;
        assert g.offset + Total(rest[..k - 1]) == |f.buffer|;
      }
      if exists j :: 1 <= j <= |rest| && g.offset + Total(rest[..j]) == |f.buffer| {
        var j :| 1 <= j <= |rest| && g.offset + Total(rest[..j]) == |f.buffer|;
        assert f.offset + Total(chunks[..j + 1]) == |f.buffer|;
      }
    }
  }

  /**
   * Chunk `j` is the one whose write runs past the end of the buffer: it carries
   * bytes, the count before it has already reached the length, and no earlier
   * chunk brought the count to exactly the length.
   */
  ghost predicate OverrunsAt(offset: nat, length: nat, chunks: seq<seq<uint8>>, j: int)
  {
    0 <= j < |chunks| && |chunks[j]| > 0 && offset + Total(chunks[..j]) >= length &&
    forall k :: 1 <= k <= j ==> offset + Total(chunks[..k]) != length
  }

  /**
   * A pending reply is rejected for writing past the buffer exactly when some
   * non-empty chunk arrives after the count overshot the length without ever
   * equalling it; the chunk that overshoots is not itself rejected.
   */
  lemma {:induction false} OverrunExactly(f: Frame, chunks: seq<seq<uint8>>)
    requires f.status.Pending?
    ensures FeedAll(f, chunks).status == Rejected(WriteOutOfRange) <==>
      exists j :: OverrunsAt(f.offset, |f.buffer|, chunks, j)
    decreases chunks
  {
    if chunks == [] {
      return;
    }
    var c, rest, n := chunks[0], chunks[1..], |f.buffer|;
    var g := Step(f, c);
    forall k | 1 <= k <= |chunks|
      ensures Total(chunks[..k]) == |c| + Total(rest[..k - 1])
    {
      TotalPrefix(chunks, k);
    }
    assert chunks[..0] == [];
    if g.status == Rejected(WriteOutOfRange) {
      SettledIsFinal(g, rest);
      assert OverrunsAt(f.offset, n, chunks, 0);
    } else if !g.status.Pending? {
      SettledIsFinal(g, rest);
      assert f.offset + Total(chunks[..1]) == n;
      forall j | 0 <= j < |chunks|
        ensures !OverrunsAt(f.offset, n, chunks, j)
      {
      }
    } else {
      OverrunExactly(g, rest);
      if exists j :: OverrunsAt(f.offset, n, chunks, j) {
        var j :| OverrunsAt(f.offset, n, chunks, j);
        assert j != 0;
        forall k | 1 <= k <= j - 1
          ensures g.offset + Total(rest[..k]) != n
        {
          assert f.offset + Total(chunks[..k + 1]) != n;
        }
        assert OverrunsAt(g.offset, n, rest, j - 1);
      }
      if exists j :: OverrunsAt(g.offset, n, rest, j) {
        var j :| OverrunsAt(g.offset, n, rest, j);
        forall k | 1 <= k <= j + 1
          ensures f.offset + Total(chunks[..k]) != n
        {
          if k > 1 {
            assert g.offset + Total(rest[..k - 1]) != n;
          }
        }
        assert chunks[j + 1] == rest[j];
        assert OverrunsAt(f.offset, n, chunks, j + 1);
      }
    }
  }

  /**
   * The reply of one `writeAndExpect(data, length)`: it completes exactly when the
   * received count reaches `length`; a reply of more than one byte resolves only
   * if its checksum verifies and is rejected otherwise; a one-byte reply is never
   * checksum-checked; it fails with a write past the buffer exactly when a later
   * non-empty chunk follows an overshoot.
   */
  lemma ReplyOutcome(length: nat, chunks: seq<seq<uint8>>)
    ensures Completed(FeedAll(Start(length), chunks).status) <==>
      exists k :: 1 <= k <= |chunks| && Total(chunks[..k]) == length
    ensures FeedAll(Start(length), chunks).status.Resolved? ==>
      var reply := FeedAll(Start(length), chunks).status.reply;
      |reply| == length && (length > 1 ==> VerifyChecksum(reply))
    ensures FeedAll(Start(length), chunks).status == Rejected(InvalidChecksum) ==>
      length > 1 && !VerifyChecksum(FeedAll(Start(length), chunks).buffer)
    ensures length <= 1 ==> FeedAll(Start(length), chunks).status != Rejected(InvalidChecksum)
    ensures FeedAll(Start(length), chunks).status == Rejected(WriteOutOfRange) <==>
      exists j :: OverrunsAt(0, length, chunks, j)
  {
    CompletesExactlyAtLength(Start(length), chunks);
    FeedAllSound(Start(length), chunks);
    OverrunExactly(Start(length), chunks);
  }

  /** One single-byte chunk on a pending reply with room left. */
  lemma StepSingle(f: Frame, b: uint8)
    requires f.status.Pending? && f.offset < |f.buffer|
    ensures Step(f, [b]).buffer == f.buffer[f.offset := b]
    ensures Step(f, [b]).offset == f.offset + 1
    ensures f.offset + 1 < |f.buffer| ==> Step(f, [b]).status.Pending?
    ensures f.offset + 1 == |f.buffer| ==> Completed(Step(f, [b]).status)
  {
  }

  lemma FeedAllSingles(f: Frame, s: seq<uint8>)
    requires s != []
    ensures FeedAll(f, Singles(s)) == FeedAll(Step(f, [s[0]]), Singles(s[1..]))
  {
    assert Singles(s)[1..] == Singles(s[1..]);
  }

  /** Single-byte chunks that fit write the stream into the buffer in order. */
  lemma {:induction false} SinglesFill(f: Frame, s: seq<uint8>)
    requires f.status.Pending?
    requires f.offset + |s| <= |f.buffer|
    ensures FeedAll(f, Singles(s)).offset == f.offset + |s|
    ensures FeedAll(f, Singles(s)).buffer ==
      f.buffer[..f.offset] + s + f.buffer[f.offset + |s|..]
    ensures FeedAll(f, Singles(s)).offset < |f.buffer| ==> FeedAll(f, Singles(s)).status.Pending?
    ensures s != [] && f.offset + |s| == |f.buffer| ==> Completed(FeedAll(f, Singles(s)).status)
    decreases s
  {
    if s == [] {
      assert Singles(s) == [];
      assert f.buffer == f.buffer[..f.offset] + s + f.buffer[f.offset..];
    } else {
      FeedAllSingles(f, s);
      StepSingle(f, s[0]);
      var g := Step(f, [s[0]]);
      if g.status.Pending? {
        SinglesFill(g, s[1..]);
        assert g.buffer[..g.offset] + s[1..] + g.buffer[g.offset + |s[1..]|..] ==
               f.buffer[..f.offset] + s + f.buffer[f.offset + |s|..];
      } else {
        assert s[1..] == [];
        SettledIsFinal(g, Singles(s[1..]));
        assert g.buffer == f.buffer[..f.offset] + s + f.buffer[f.offset + |s|..];
      }
    }
  }

  /** Single-byte chunks never carry the offset past the expected length. */
  lemma {:induction false} SinglesStayInBounds(f: Frame, s: seq<uint8>)
    requires f.offset <= |f.buffer|
    ensures FeedAll(f, Singles(s)).offset <= |f.buffer|
    decreases s
  {
    if s != [] {
      FeedAllSingles(f, s);
      SinglesStayInBounds(Step(f, [s[0]]), s[1..]);
    }
  }

  /**
   * A reply delivered one byte per chunk: after any number of bytes the offset is
   * within the buffer and buffer[i] is the i-th byte received; once `length`
   * bytes have arrived the reply is exactly those bytes, checked by checksum when
   * longer than one byte.
   */
  lemma ByteByByteReply(length: nat, s: seq<uint8>)
    ensures FeedAll(Start(length), Singles(s)).offset <= length
    ensures |s| <= length ==>
      FeedAll(Start(length), Singles(s)).offset == |s| &&
      FeedAll(Start(length), Singles(s)).buffer[..|s|] == s
    ensures 0 < |s| == length ==>
      FeedAll(Start(length), Singles(s)).status ==
        if length > 1 && !VerifyChecksum(s) then Rejected(InvalidChecksum) else Resolved(s)
  {
    SinglesStayInBounds(Start(length), s);
    if |s| <= length {
      SinglesFill(Start(length), s);
      FeedAllSound(Start(length), Singles(s));
      var g := FeedAll(Start(length), Singles(s));
      assert g.buffer[..|s|] == s;
      if |s| == length {
        assert g.buffer == s;
      }
    }
  }

  /**
   * A one-byte reply resolves with that byte, unchecked, whether it arrives alone
   * or after an empty chunk. A chunk that carries more than the one expected byte
   * leaves the reply pending for good (only its last byte is stored), and the
   * next non-empty chunk is rejected for writing past the buffer.
   */
  lemma OneByteReply(b: uint8, extra: seq<uint8>, y: uint8)
    ensures FeedAll(Start(1), [[b]]).status == Resolved([b])
    ensures FeedAll(Start(1), [[], [b]]).status == Resolved([b])
    ensures extra != [] ==>
      FeedAll(Start(1), [extra + [b]]) == Frame([b], |extra| + 1, Pending)
    ensures extra != [] ==>
      FeedAll(Start(1), [extra + [b], [y]]).status == Rejected(WriteOutOfRange)
  {
    assert Step(Start(1), []) == Start(1);
    assert [[], [b]][1..] == [[b]];
    var g := Step(Start(1), extra + [b]);
    assert g.buffer == [b];
    if extra != [] {
      assert [extra + [b], [y]][1..] == [[y]];
      assert g.status.Pending? && g.offset >= 1;
      var chunks := [extra + [b], [y]];
      assert chunks[0] == extra + [b] && chunks[1..] == [[y]];
      assert FeedAll(Start(1), chunks) == FeedAll(g, [[y]]);
      assert [[y]][0] == [y] && [[y]][1..] == [];
      assert FeedAll(g, [[y]]) == FeedAll(Step(g, [y]), []);
    }
  }

  /**
   * A reply that arrives as one multi-byte chunk is not what ends up in the
   * buffer: only its last byte is stored, at offset 0. The three-byte key-exchange
   * reply [0x21, 0x42, 0x63], which verifies when it arrives byte by byte, is
   * rejected when it arrives in one chunk.
   */
  lemma WholeChunkReplyRejected()
    ensures FeedAll(Start(3), Singles([0x21, 0x42, 0x63])).status == Resolved([0x21, 0x42, 0x63])
    ensures FeedAll(Start(3), [[0x21, 0x42, 0x63]]).status == Rejected(InvalidChecksum)
  {
    var reply: seq<uint8> := [0x21, 0x42, 0x63];
    assert reply[..2] == [0x21, 0x42] && [0x21 as uint8, 0x42][..1] == [0x21];
    assert [0x21 as uint8][..0] == [];
    assert Sum([0x21 as uint8]) == 0x21;
    assert Sum(reply[..2]) == 0x63;
    ChecksumIsSumMod256(reply[..2]);
    assert VerifyChecksum(reply);
    ByteByByteReply(3, reply);

    var stored: seq<uint8> := [0x63, 0, 0];
    var g := Step(Start(3), reply);
    assert g.buffer == stored;
    assert stored[..2] == [0x63, 0] && [0x63 as uint8, 0][..1] == [0x63];
    assert Sum(stored[..2]) == 0x63;
    ChecksumIsSumMod256(stored[..2]);
    assert !VerifyChecksum(stored);
    assert FeedAll(Start(3), [reply]) == FeedAll(g, []);
  }

  /**
   * Whatever the reply buffer held before, the key-exchange reply [0x21, 0x42, 0x63]
   * in one chunk is never resolved as a key-exchange packet: the chunk's last byte
   * 0x63 lands at offset 0, where the opcode 0x21 is expected.
   */
  lemma WholeChunkKeyReplyNeverAccepted(initial: seq<uint8>)
    requires |initial| == 3
    ensures var s := FeedAll(Frame(initial, 0, Pending), [[0x21, 0x42, 0x63]]).status;
      !(s.Resolved? && s.reply[0] == 0x21)
  {
    var g := Step(Frame(initial, 0, Pending), [0x21, 0x42, 0x63]);
    assert g.buffer[0] == 0x63;
    assert FeedAll(Frame(initial, 0, Pending), [[0x21, 0x42, 0x63]]) == FeedAll(g, []);
  }

  /**
   * One `writeAndExpect` handler: the reply buffer of a fixed length, the running
   * offset and the promise it settles.
   */
  class FrameAssembler {
    const buffer: array<uint8>
    var offset: nat
    var status: Status

    ghost function State(): Frame
      reads this, buffer
    {
      Frame(buffer[..], offset, status)
    }

    /** `new Buffer(length)` and `offset = 0`. */
    constructor (length: nat)
      ensures State() == Start(length)
      ensures fresh(buffer)
    {
      buffer := new uint8[length](_ => 0);
      offset := 0;
      status := Pending;
    }

    /** The `"data"` handler, run on one chunk. */
    method Feed(chunk: seq<uint8>) returns (s: Status)
      modifies this, buffer
      ensures State() == Step(old(State()), chunk)
      ensures s == status
    {
      if !status.Pending? {
        return status;
      }
      // every byte of the chunk is written at the current offset
      var i := 0;
      while i < |chunk|
        invariant 0 <= i <= |chunk|
        invariant offset == old(offset) && status == old(status)
        invariant i == 0 ==> buffer[..] == old(buffer[..])
        invariant i > 0 ==> offset < buffer.Length && buffer[..] == old(buffer[..])[offset := chunk[i - 1]]
      {
        if offset >= buffer.Length {
          status := Rejected(WriteOutOfRange);
          return status;
        }
        buffer[offset] := chunk[i];
        i := i + 1;
      }
      offset := offset + |chunk|;
      if offset == buffer.Length {
        if buffer.Length > 1 && !VerifyChecksum(buffer[..]) {
          status := Rejected(InvalidChecksum);
        } else {
          status := Resolved(buffer[..]);
        }
      }
      s := status;
    }
  }
}

/**
 * The ET-312 protocol engine: command packets, the session key, and the
 * interpretation of each command's reply. Each command takes the reply chunks
 * the serial port would deliver and returns the bytes it writes together with
 * the outcome of its promise.
 */
module Protocol {
  import opened Bytes
  import opened ChecksumCodec
  import opened Cipher
  import opened Framing

  datatype Error =
    | ReplyError(cause: FrameError)   // the reply buffer overflowed or failed its checksum
    | HandshakeFailed                 // the handshake reply was not 0x07
    | NotKeyExchangePacket            // the key-exchange reply did not start with 0x21
    | TooManyBytes                    // a write of more than 8 bytes
    | TooFewBytes                     // a write of no bytes

  /** A command's promise: `Waiting` when the reply never completes. */
  datatype Outcome<T> = Waiting | Ok(value: T) | Failed(error: Error)

  /** The settled state of the reply to a `writeAndExpect(data, length)` that receives `reply`. */
  function Await(length: nat, reply: seq<seq<uint8>>): (s: Status)
    ensures s.Resolved? ==> |s.reply| == length && (length > 1 ==> VerifyChecksum(s.reply))
    ensures length <= 1 ==> s != Rejected(InvalidChecksum)
  {
    ReplyOutcome(length, reply);
    FeedAll(Start(length), reply).status
  }

  /** The key-exchange request: opcode 0x2F, the host key 0, and their checksum; sent in the clear. */
  function KeyExchangePacket(): (p: seq<uint8>)
    ensures p == [0x2F, 0x00, 0x2F]
    ensures VerifyChecksum(p)
  {
    var body: seq<uint8> := [0x2F, 0x00];
    assert body[..1] == [0x2F] && [0x2F as uint8][..0] == [];
    ChecksumIsSumMod256(body);
    VerifyAcceptsFramed(body);
    AppendChecksum(body)
  }

  /** The read request for an address, before ciphering. */
  function ReadPacket(address: uint16): (p: seq<uint8>)
    ensures |p| == 4 && p[0] == 0x3C
    ensures p[1] as int * 0x100 + p[2] as int == address as int
    ensures VerifyChecksum(p)
  {
    HighLowSplit(address);
    VerifyAcceptsFramed([0x3C, High(address), Low(address)]);
    AppendChecksum([0x3C, High(address), Low(address)])
  }

  /**
   * `((0x3 + cmd.length) << 0x4) | 0xd`: the write opcode for a payload of `n`
   * bytes. Shifting left by 4 multiplies by 16 and leaves the low nibble clear, so
   * OR-ing in 0xD adds 13.
   */
  function WriteHeader(n: nat): uint8
    requires 1 <= n <= 8
  {
    ((3 + n) * 0x10 + 0x0D) as uint8
  }

  /** The write opcode carries `n + 3` in its high nibble and 0xD in its low nibble. */
  lemma WriteHeaderNibbles(n: nat)
    requires 1 <= n <= 8
    ensures WriteHeader(n) as int / 0x10 == n + 3 && WriteHeader(n) as int % 0x10 == 0x0D
    ensures 0x4D <= WriteHeader(n) <= 0xBD
  {
  }

  /** The write request for an address and a payload of 1 to 8 bytes, before ciphering. */
  function WritePacket(address: uint16, payload: seq<uint8>): (p: seq<uint8>)
    requires 1 <= |payload| <= 8
    ensures |p| == |payload| + 4
    ensures p[0] as int / 0x10 == |payload| + 3 && p[0] as int % 0x10 == 0x0D
    ensures p[1] as int * 0x100 + p[2] as int == address as int
    ensures p[3..|p| - 1] == payload
    ensures VerifyChecksum(p)
  {
    WriteHeaderNibbles(|payload|);
    HighLowSplit(address);
    var body := [WriteHeader(|payload|), High(address), Low(address)] + payload;
    VerifyAcceptsFramed(body);
    assert AppendChecksum(body)[3..|body|] == payload;
    AppendChecksum(body)
  }

  /** The `resetKey` request: one zero byte written to address 0x4213. */
  lemma ResetKeyPacket()
    ensures WritePacket(0x4213, [0x00]) == [0x4D, 0x42, 0x13, 0x00, 0xA2]
  {
    var body: seq<uint8> := [0x4D, 0x42, 0x13, 0x00];
    WriteHeaderNibbles(1);
    assert WriteHeader(1) == 0x4D && High(0x4213) == 0x42 && Low(0x4213) == 0x13;
    assert [WriteHeader(1), High(0x4213), Low(0x4213)] + [0x00] == body;
    assert body[..3] == [0x4D, 0x42, 0x13];
    assert body[..2] == [0x4D, 0x42];
    assert body[..1] == [0x4D];
    assert Sum(body[..1]) == 0x4D by { assert body[..1][..0] == []; }
    assert Sum(body[..2]) == 0x8F by { assert body[..2][..1] == body[..1]; }
    assert Sum(body[..3]) == 0xA2 by { assert body[..3][..2] == body[..2]; }
    assert Sum(body) == 0xA2;
    ChecksumIsSumMod256(body);
  }

  /** The `readMode` request: a read of address 0x407B. */
  lemma ReadModePacket()
    ensures ReadPacket(0x407B) == [0x3C, 0x40, 0x7B, 0xF7]
  {
    var body: seq<uint8> := [0x3C, 0x40, 0x7B];
    assert High(0x407B) == 0x40 && Low(0x407B) == 0x7B;
    assert ReadPacket(0x407B) == AppendChecksum(body);
    assert body[..2] == [0x3C, 0x40];
    assert body[..1] == [0x3C];
    assert Sum(body[..1]) == 0x3C by { assert body[..1][..0] == []; }
    assert Sum(body[..2]) == 0x7C by { assert body[..2][..1] == body[..1]; }
    assert Sum(body) == 0xF7;
    ChecksumIsSumMod256(body);
  }

  /** A connection to one ET-312; its only state is the session key. */
  class ET312 {
    /** `_key`: `None` until a key exchange succeeds. */
    var key: Option<uint8>

    constructor ()
      ensures key == None
    {
      key := None;
    }

    /**
     * `writeAndExpect`: write `data`, then run the reply handler on every chunk
     * of `reply` until the promise settles.
     */
    method WriteAndExpect(data: seq<uint8>, length: nat, reply: seq<seq<uint8>>)
      returns (written: seq<uint8>, status: Status)
      ensures written == data
      ensures status == Await(length, reply)
    {
      written := data;
      var assembler := new FrameAssembler(length);
      var i := 0;
      while i < |reply|
        invariant 0 <= i <= |reply|
        invariant fresh(assembler.buffer)
        invariant FeedAll(assembler.State(), reply[i..]) == FeedAll(Start(length), reply)
      {
        assert reply[i..][1..] == reply[i + 1..];
        var _ := assembler.Feed(reply[i]);
        i := i + 1;
      }
      status := assembler.status;
    }

    /** `handshake`: send 0x00 in the clear and expect the single byte 0x07. */
    method Handshake(reply: seq<seq<uint8>>) returns (written: seq<uint8>, r: Outcome<()>)
      ensures written == [0x00]
      ensures r.Ok? <==> Await(1, reply) == Resolved([0x07])
      ensures r == Failed(HandshakeFailed) <==> Await(1, reply).Resolved? && Await(1, reply) != Resolved([0x07])
      ensures r.Waiting? <==> Await(1, reply).Pending?
      ensures r.Failed? && r.error != HandshakeFailed ==> r.error == ReplyError(WriteOutOfRange)
    {
      var status;
      written, status := WriteAndExpect([0x00], 1, reply);
      match status
      case Pending =>
        r := Waiting;
      case Rejected(e) =>
        assert Await(1, reply) != Rejected(InvalidChecksum);
        assert e.WriteOutOfRange?;
        r := Failed(ReplyError(e));
      case Resolved(data) =>
        r := if data[0] != 0x07 then Failed(HandshakeFailed) else Ok(());
    }

    /**
     * `keyExchange`: send [0x2F, 0x00, 0x2F] in the clear and expect three
     * checksummed bytes starting with 0x21; the second byte becomes the key.
     */
    method KeyExchange(reply: seq<seq<uint8>>) returns (written: seq<uint8>, r: Outcome<()>)
      modifies this
      ensures written == [0x2F, 0x00, 0x2F]
      ensures r.Ok? <==> Await(3, reply).Resolved? && Await(3, reply).reply[0] == 0x21
      ensures r.Ok? ==> key == Some(Await(3, reply).reply[1])
      ensures !r.Ok? ==> key == old(key)
      ensures r == Failed(NotKeyExchangePacket) <==>
        Await(3, reply).Resolved? && Await(3, reply).reply[0] != 0x21
      ensures r.Waiting? <==> Await(3, reply).Pending?
      ensures r.Failed? && r.error != NotKeyExchangePacket ==> r.error == ReplyError(Await(3, reply).error)
    {
      var status;
      written, status := WriteAndExpect(KeyExchangePacket(), 3, reply);
      match status
      case Pending =>
        r := Waiting;
      case Rejected(e) =>
        r := Failed(ReplyError(e));
      case Resolved(data) =>
        if data[0] != 0x21 {
          r := Failed(NotKeyExchangePacket);
        } else {
          key := Some(data[1]);
          r := Ok(());
        }
    }

    /**
     * `readAddress`: send the ciphered read request and expect three checksummed
     * bytes; the value read is the second.
     */
    method ReadAddress(address: uint16, reply: seq<seq<uint8>>) returns (written: seq<uint8>, r: Outcome<uint8>)
      ensures written == EncryptAll(ReadPacket(address), key)
      ensures r.Ok? <==> Await(3, reply).Resolved?
      ensures r.Ok? ==> r.value == Await(3, reply).reply[1]
      ensures r.Waiting? <==> Await(3, reply).Pending?
      ensures r.Failed? ==> r.error == ReplyError(Await(3, reply).error)
    {
      var status;
      written, status := WriteAndExpect(EncryptAll(ReadPacket(address), key), 3, reply);
      match status
      case Pending =>
        r := Waiting;
      case Rejected(e) =>
        r := Failed(ReplyError(e));
      case Resolved(data) =>
        r := Ok(data[1]);
    }

    /**
     * `writeAddress`: refuse payloads of more than 8 or fewer than 1 bytes before
     * writing anything; otherwise send the ciphered write request and expect a
     * single acknowledgement byte, whatever its value.
     */
    method WriteAddress(address: uint16, payload: seq<uint8>, reply: seq<seq<uint8>>)
      returns (written: seq<uint8>, r: Outcome<()>)
      ensures |payload| > 8 ==> written == [] && r == Failed(TooManyBytes)
      ensures |payload| < 1 ==> written == [] && r == Failed(TooFewBytes)
      ensures 1 <= |payload| <= 8 ==>
        written == EncryptAll(WritePacket(address, payload), key) &&
        (r.Ok? <==> Await(1, reply).Resolved?) &&
        (r.Waiting? <==> Await(1, reply).Pending?) &&
        (r.Failed? ==> r.error == ReplyError(WriteOutOfRange))
    {
      if |payload| > 8 {
        return [], Failed(TooManyBytes);
      }
      if |payload| < 1 {
        return [], Failed(TooFewBytes);
      }
      var status;
      written, status := WriteAndExpect(EncryptAll(WritePacket(address, payload), key), 1, reply);
      match status
      case Pending =>
        r := Waiting;
      case Rejected(e) =>
        assert Await(1, reply) != Rejected(InvalidChecksum);
        assert e.WriteOutOfRange?;
        r := Failed(ReplyError(e));
      case Resolved(_) =>
        r := Ok(());
    }

    /**
     * `resetKey`: write 0 to address 0x4213 so that the device drops its key; the
     * key held here is not cleared.
     */
    method ResetKey(reply: seq<seq<uint8>>) returns (written: seq<uint8>, r: Outcome<()>)
      ensures written == EncryptAll(WritePacket(0x4213, [0x00]), key)
      ensures written == EncryptAll([0x4D, 0x42, 0x13, 0x00, 0xA2], key)
      ensures r.Ok? <==> Await(1, reply).Resolved?
      ensures r.Waiting? <==> Await(1, reply).Pending?
      ensures r.Failed? ==> r.error == ReplyError(WriteOutOfRange)
    {
      ResetKeyPacket();
      written, r := WriteAddress(0x4213, [0x00], reply);
    }

    /** `readMode`: read address 0x407B, where the device keeps its current mode. */
    method ReadMode(reply: seq<seq<uint8>>) returns (written: seq<uint8>, r: Outcome<uint8>)
      ensures written == EncryptAll(ReadPacket(0x407B), key)
      ensures written == EncryptAll([0x3C, 0x40, 0x7B, 0xF7], key)
      ensures r.Ok? <==> Await(3, reply).Resolved?
      ensures r.Ok? ==> r.value == Await(3, reply).reply[1]
      ensures r.Waiting? <==> Await(3, reply).Pending?
      ensures r.Failed? ==> r.error == ReplyError(Await(3, reply).error)
    {
      ReadModePacket();
      written, r := ReadAddress(0x407B, reply);
    }
  }

  /** Handshake and key exchange as a caller drives them, replies arriving one byte per chunk. */
  method SessionStartExample() returns (device: ET312)
    ensures device.key == Some(0x42)
  {
    device := new ET312();
    var written, ok := device.Handshake([[0x07]]);
    OneByteReply(0x07, [], 0);
    assert written == [0x00] && ok.Ok? && device.key == None;

    WholeChunkReplyRejected();
    written, ok := device.KeyExchange(Singles([0x21, 0x42, 0x63]));
    assert written == [0x2F, 0x00, 0x2F] && ok.Ok?;
  }

  /** The session key 0x42 gives the mask 0x17. */
  lemma ExampleMask()
    ensures Mask(Some(0x42)) == 0x17
  {
    assert XorNat(1, 1) == 0;
    assert XorNat(2, 2) == 0;
    assert XorNat(4, 5) == 1;
    assert XorNat(8, 10) == 2;
    assert XorNat(16, 21) == 5;
    assert XorNat(33, 42) == 11;
    assert XorNat(66, 85) == 23;
    assert Mask(Some(0x42)) as int == XorNat(66, 85);
  }

  /** A key-exchange reply delivered as one chunk is never accepted, and the key stays as it was. */
  method WholeChunkKeyExchangeExample(device: ET312)
    modifies device
  {
    var key := device.key;
    WholeChunkKeyReplyNeverAccepted(seq(3, _ => 0));
    var written, ok := device.KeyExchange([[0x21, 0x42, 0x63]]);
    assert !ok.Ok? && device.key == key;
  }

  /**
   * `readMode` XORs every request byte with the session mask (0x17 for key 0x42,
   * by `ExampleMask`); a reply with a bad checksum is rejected.
   */
  method ReadModeExample(device: ET312)
  {
    var reply: seq<uint8> := [0x00, 0x05, 0x00];
    var request: seq<uint8> := [0x3C, 0x40, 0x7B, 0xF7];
    var written, mode := device.ReadMode(Singles(reply));
    forall i | 0 <= i < 4
      ensures written[i] == Xor(request[i], Mask(device.key))
    {
      EncryptByteIsMask(request[i], device.key);
    }
    assert reply[..1] == [0x00] && reply[..2] == [0x00, 0x05];
    assert Sum(reply[..1]) == 0 by { assert reply[..1][..0] == []; }
    assert Sum(reply[..2]) == 0x05 by { assert reply[..2][..1] == reply[..1]; }
    ChecksumIsSumMod256(reply[..2]);
    ByteByByteReply(3, reply);
    assert mode == Failed(ReplyError(InvalidChecksum));
  }

  /** Resetting the key twice writes the same bytes, succeeds both times and keeps the local key. */
  method ResetKeyExample(device: ET312)
  {
    var key := device.key;
    var written, first := device.ResetKey([[0x06]]);
    var again, second := device.ResetKey([[0x06]]);
    OneByteReply(0x06, [], 0);
    assert first.Ok? && second.Ok? && written == again && device.key == key;
  }
}

# ET-312 serial protocol engine, modelled in Dafny

This project models the protocol engine of a driver for the Erostek ET-312
electrostimulation unit (`lib/ET312.js`). The driver talks to the box over a
serial link:

- a **checksum** (an 8-bit additive sum) ends every packet that carries data;
- a **cipher** XORs every byte of read and write requests with the session key
  (0 before key exchange) and 0x55; handshake and key-exchange requests are sent
  in the clear;
- **reply framing** (`writeAndExpect`) gathers the chunks the serial port delivers
  into a reply buffer of known length, and checks the checksum of replies longer
  than one byte;
- **commands**: handshake, key exchange (which sets the session key), reads and
  writes of one address, and the `resetKey` and `readMode` shortcuts.

Files and modules:

| file | module | contents |
|---|---|---|
| `bytes.dfy` | `Bytes` | `uint8`, `uint16`, the high/low address split, bitwise XOR on naturals and its algebra, `Option` |
| `checksum.dfy` | `ChecksumCodec` | `Sum`, `Checksum`, `AppendChecksum`, `VerifyChecksum`, the imperative `GenerateChecksum`, lemmas |
| `cipher.dfy` | `Cipher` | `EncryptByte`, `Mask`, `EncryptAll`, involution lemmas |
| `framing.dfy` | `Framing` | the reply handler as a pure `Step`/`FeedAll` over a `Frame` value, the class `FrameAssembler` (array buffer, offset, promise status) whose `Feed` is proved to be `Step`, and the framing lemmas |
| `et312.dfy` | `Protocol` | request packets, the class `ET312` holding the session key, one method per command, and four client methods that run a session (`SessionStartExample`, `WholeChunkKeyExchangeExample`, `ReadModeExample`, `ResetKeyExample`) |

Each command method takes the reply as a sequence of chunks, the way the
serial port would deliver it. It returns the bytes it writes and the outcome of
its promise: `Ok`, `Failed(error)`, or `Waiting` when the reply never completes
and the promise never settles.

The model keeps these behaviours of the code exactly as written:

- **Chunk writes.** The handler writes every byte of a chunk at the same offset,
  then advances the offset by the chunk's length. The buffer therefore equals the
  received stream only when chunks are one byte long. For the valid key-exchange
  reply `21 42 63` arriving as one chunk, `WholeChunkKeyReplyNeverAccepted` shows
  that the reply is never accepted as a key-exchange packet, whatever the buffer
  held before: its last byte 0x63 lands where the opcode 0x21 is expected.
  `WholeChunkReplyRejected` adds that, from the zeroed buffer of this model, the
  same reply resolves byte by byte but fails its checksum in one chunk.
- **Overshoot.** A chunk that carries the count past the expected length never
  satisfies `offset === length`, so that chunk leaves the reply pending rather
  than failing. The next non-empty chunk writes past the end of the buffer.
  Node's `writeUInt8` throws on that write, and the `catch` at lib/ET312.js:92-94
  rejects (`WriteOutOfRange`). `OverrunExactly` states when this happens.
- **No key before key exchange.** The key starts as `None`, the model of `null`.
  The cipher treats it as 0, because `x ^ null` is `x ^ 0`.
- **No address checks.** The code only splits a 16-bit address into `address >> 8`
  and `address & 0xff`. The ROM/RAM/EEPROM aliasing is done by the device.
- **Local key kept.** `resetKey` does not clear the local key.
- **Unchecked acknowledgement.** A write's one-byte acknowledgement is never
  checksum-checked, and its value is never inspected.
- **Missing guards.** The code has no not-ready guard, no already-pending guard,
  no timeout and no overflow error other than the failing write. The model adds
  none of them.

## Model

| member | source | states |
|---|---|---|
| `ChecksumCodec.GenerateChecksum` | lib/ET312.js:14-23 | the accumulation loop with its late `% 256` returns the byte sum modulo 256, which is `Checksum`; an empty packet gives 0 |
| `ChecksumCodec.SumConcat` | lib/ET312.js:15-18 | the byte sum of a concatenation is the sum of the parts' sums |
| `ChecksumCodec.ChecksumConcat` | lib/ET312.js:14-23 | the checksum of a concatenation is the two checksums added modulo 256 |
| `ChecksumCodec.VerifyAcceptsFramed` | lib/ET312.js:34-39 | every packet followed by its own checksum passes verification |
| `ChecksumCodec.VerifyTrailingByte` | lib/ET312.js:34-39 | a trailing byte passes exactly when it equals the checksum of the bytes before it, so any other last byte fails |
| `ChecksumCodec.VerifyIffFramed` | lib/ET312.js:34-39 | the packets that pass are exactly those of the form packet + [checksum of packet] |
| `ChecksumCodec.SingleByteCorruptionDetected` | lib/ET312.js:34-39 | changing any one byte of a checksummed packet, the checksum included, makes verification fail |
| `Bytes.Xor` | lib/ET312.js:123 | JavaScript's `^` on two bytes is a byte, and each of its eight bits is set exactly when the operands' bits differ |
| `Bytes.HighLowSplit` | lib/ET312.js:184 | `address >> 8` and `address & 0xff` of a 16-bit address recombine to the address: the split loses nothing |
| `Cipher.EncryptAll` | lib/ET312.js:186 | `packet.map(encryptByte)` keeps the length and ciphers each byte at its own position |
| `Cipher.EncryptByteInvolution` | lib/ET312.js:122-124 | ciphering a byte twice with the same key gives the byte back |
| `Cipher.EncryptByteIsMask` | lib/ET312.js:122-124 | `byte ^ key ^ 0x55` is XOR with one per-session mask, `key ^ 0x55` |
| `Cipher.EncryptByteInjective` | lib/ET312.js:122-124 | for one key, distinct bytes are ciphered to distinct bytes |
| `Cipher.NoKeyCipher` | lib/ET312.js:54 | before key exchange the `null` key acts as key 0: the cipher is XOR with 0x55 alone |
| `Cipher.EncryptAllInvolution` | lib/ET312.js:186 | ciphering a whole packet twice with the same key gives the packet back |
| `Framing.FrameAssembler.constructor` | lib/ET312.js:80-87 | a fresh reply buffer of the expected length, offset 0, promise pending |
| `Framing.FrameAssembler.Feed` | lib/ET312.js:88-110 | one run of the data handler on the array buffer is exactly `Step`: the chunk's bytes are written at the one current offset, then the offset advances |
| `Framing.SettledIsFinal` | lib/ET312.js:107-108 | once the promise has settled, further chunks change nothing |
| `Framing.FeedAllSound` | lib/ET312.js:96-107 | at every point a resolved reply is the whole buffer, complete, and checksummed if longer than one byte; a checksum rejection means the complete buffer failed the check |
| `Framing.CompletesExactlyAtLength` | lib/ET312.js:87-96 | a pending reply completes exactly when the running count of received bytes equals the expected length after some chunk; overshooting never completes |
| `Framing.OverrunExactly` | lib/ET312.js:88-96 | a pending reply is rejected for writing past the buffer exactly when a non-empty chunk arrives after the count has reached or passed the length without ever equalling it; the overshooting chunk itself leaves the reply pending |
| `Framing.ReplyOutcome` | lib/ET312.js:87-107 | from a fresh buffer: it completes exactly when the cumulative count hits the length; a reply longer than one byte resolves only if it verifies and is rejected otherwise; a one-byte reply is never rejected for its checksum; it fails with a write past the buffer exactly when a non-empty chunk follows an overshoot |
| `Framing.SinglesFill` | lib/ET312.js:90-91 | one-byte chunks that fit write the stream into the buffer in order, starting at the offset, and the reply stays pending until the buffer is full |
| `Framing.SinglesStayInBounds` | lib/ET312.js:90-96 | with one-byte chunks the offset never exceeds the expected length |
| `Framing.ByteByByteReply` | lib/ET312.js:87-107 | with one-byte chunks, buffer[i] is the i-th byte received and the offset stays within the length; a full reply resolves with exactly the received bytes unless it is longer than one byte and fails the checksum |
| `Framing.OneByteReply` | lib/ET312.js:90-107 | a one-byte reply resolves with its byte, unchecked, alone or after an empty chunk; a chunk that carries more than the one expected byte leaves the reply pending for good, holding only its last byte, and the next non-empty chunk is rejected for writing past the buffer |
| `Framing.WholeChunkKeyReplyNeverAccepted` | lib/ET312.js:90-91 | from any starting buffer, the key-exchange reply 21 42 63 delivered as one chunk never resolves with opcode 0x21 in its first byte |
| `Framing.WholeChunkReplyRejected` | lib/ET312.js:90-91 | from the zeroed starting buffer, the valid reply 21 42 63 resolves byte by byte but is rejected for its checksum when it arrives as one chunk |
| `Protocol.Await` | lib/ET312.js:78-113 | the settled reply to `writeAndExpect(data, length)` has exactly `length` bytes and a valid checksum when longer than one byte; a one-byte reply is never rejected for its checksum |
| `Protocol.KeyExchangePacket` | lib/ET312.js:136-138 | the key-exchange request is `2F 00 2F`, a packet that passes its own checksum |
| `Protocol.ReadPacket` | lib/ET312.js:184-185 | the read request is opcode 0x3C, the big-endian address and a valid checksum, four bytes |
| `Protocol.WriteHeaderNibbles` | lib/ET312.js:223 | the write opcode has high nibble n+3 and low nibble 0xD, so it lies in 0x4D..0xBD |
| `Protocol.WritePacket` | lib/ET312.js:223-227 | the write request is n+4 bytes: the opcode, the big-endian address, the payload in order and a valid checksum over all of them |
| `Protocol.ResetKeyPacket` | lib/ET312.js:243 | the `resetKey` request before ciphering is `4D 42 13 00 A2` |
| `Protocol.ReadModePacket` | lib/ET312.js:252 | the `readMode` request before ciphering is `3C 40 7B F7` |
| `Protocol.ET312.constructor` | lib/ET312.js:53-56 | a new connection holds no key |
| `Protocol.ET312.WriteAndExpect` | lib/ET312.js:78-113 | writes the data unchanged and settles as the handler run over all reply chunks in order does |
| `Protocol.ET312.Handshake` | lib/ET312.js:155-162 | writes `00` in the clear; succeeds exactly when the one-byte reply is 0x07, fails with `HandshakeFailed` on any other byte, waits while no byte has come; the key is untouched |
| `Protocol.ET312.KeyExchange` | lib/ET312.js:134-145 | writes `2F 00 2F` in the clear; succeeds exactly when the three-byte checksummed reply starts with 0x21, and then the key becomes its second byte; on every other outcome the key is unchanged |
| `Protocol.ET312.ReadAddress` | lib/ET312.js:182-189 | writes the read request ciphered with the current key; on a checksummed three-byte reply it returns the second byte; reply failures propagate; the key is untouched |
| `Protocol.ET312.WriteAddress` | lib/ET312.js:215-231 | a payload of more than 8 or of no bytes fails before anything is written; otherwise writes the ciphered write request and succeeds on any one-byte acknowledgement; the key is untouched |
| `Protocol.ET312.ResetKey` | lib/ET312.js:242-244 | is the write of `[00]` to 0x4213: writes `4D 42 13 00 A2` ciphered, succeeds on any acknowledgement, and leaves the local key as it was |
| `Protocol.ET312.ReadMode` | lib/ET312.js:251-253 | is the read of 0x407B: writes `3C 40 7B F7` ciphered and returns the second reply byte |
| `Protocol.ExampleMask` | lib/ET312.js:122-124 | with the session key 0x42 the mask is 0x17 |
| `Protocol.SessionStartExample` | lib/ET312.js:134-162 | handshake answered by 07, then key exchange answered byte by byte by `21 42 63`, leaves the key 0x42 |

`Protocol.WholeChunkKeyExchangeExample`, `Protocol.ReadModeExample` and
`Protocol.ResetKeyExample` are clients of the contracts above. A key exchange
whose reply arrives in one chunk does not succeed and leaves the key as it was. `readMode` writes `3C 40 7B F7` with every byte XORed with the
session mask, and a reply with a bad checksum fails with `InvalidChecksum`. Two
`resetKey` calls write the same bytes, both succeed, and neither changes the
local key.

## Left out

- Serial transport: `this._port.write`, its error callback and the `on`/`removeListener`
  registration of the data handler (lib/ET312.js:81-86, 108, 111) are I/O. The bytes
  written are returned, and the chunks received are a parameter. Write failures are
  not modelled.
- Asynchrony: the `Promise` and the `async.task` coroutines run each command as one
  synchronous step. A promise that never settles is the outcome `Waiting`.
- The rethrow after a checksum rejection (lib/ET312.js:104) and the handler that stays
  attached afterwards are event-emitter runtime behaviour. In the model, every chunk
  after settlement is ignored, which is what the caller observes.
- `new Buffer(length)` contents are a Node allocator detail. The reply buffer starts
  zeroed. `SettledIsFinal`, `FeedAllSound`, `CompletesExactlyAtLength`,
  `OverrunExactly`, `SinglesFill`, `SinglesStayInBounds` and
  `WholeChunkKeyReplyNeverAccepted` hold for any starting buffer. `ReplyOutcome`,
  `ByteByByteReply`, `OneByteReply`, `WholeChunkReplyRejected` and the command
  methods (through `Await`) are stated for the zeroed one.
- Argument types: addresses are taken as 16-bit values and payload entries as bytes.
  JavaScript would accept other numbers, and the code does not check them.
- The driver scripts (index.js, examples/get-mode.js) and the tests of the
  `ET312Serial` wrapper (tests/test-et312.js) are not part of this model.

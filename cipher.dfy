/**
 * The ET-312 command cipher: every byte of a read or write request is XORed with
 * the session key (0 before key exchange) and the constant 0x55. Handshake and
 * key-exchange requests are sent in the clear, and replies are not deciphered.
 */
module Cipher {
  import opened Bytes

  /** The fixed constant mixed into every ciphered byte. */
  const Constant: uint8 := 0x55

  /**
   * The key as the `^` operator sees it: before key exchange the key is `null`,
   * and `x ^ null` is `x ^ 0`.
   */
  function KeyBits(key: Option<uint8>): uint8
  {
    match key
    case None => 0
    case Some(k) => k
  }

  /** `encryptByte`: `byte ^ key ^ 0x55`. */
  function EncryptByte(b: uint8, key: Option<uint8>): uint8
  {
    Xor(Xor(b, KeyBits(key)), Constant)
  }

  /** The per-session mask: the key XORed with the constant. */
  function Mask(key: Option<uint8>): uint8
  {
    Xor(KeyBits(key), Constant)
  }

  /** Ciphering a byte is XOR with the session's mask, the same for every byte. */
  lemma EncryptByteIsMask(b: uint8, key: Option<uint8>)
    ensures EncryptByte(b, key) == Xor(b, Mask(key))
  {
    XorNatAssoc(b as nat, KeyBits(key) as nat, Constant as nat);
  }

  /** `packet.map(this.encryptByte, this)`: cipher every byte of a packet, in order. */
  function EncryptAll(packet: seq<uint8>, key: Option<uint8>): (ciphered: seq<uint8>)
    ensures |ciphered| == |packet|
    ensures forall i :: 0 <= i < |packet| ==> ciphered[i] == EncryptByte(packet[i], key)
  {
    if packet == [] then [] else [EncryptByte(packet[0], key)] + EncryptAll(packet[1..], key)
  }

  /** Ciphering a byte twice with the same key gives the byte back. */
  lemma EncryptByteInvolution(b: uint8, key: Option<uint8>)
    ensures EncryptByte(EncryptByte(b, key), key) == b
  {
    var k, m := KeyBits(key) as nat, Constant as nat;
    var y := XorNat(b as nat, k);
    // ((y ^ m) ^ k) ^ m == ((y ^ m) ^ m) ^ k == y ^ k == b
    XorNatSwap(XorNat(y, m), k, m);
    XorNatCancel(y, m);
    XorNatCancel(b as nat, k);
  }

  /** Ciphering is injective for a fixed key: distinct bytes stay distinct on the wire. */
  lemma EncryptByteInjective(a: uint8, b: uint8, key: Option<uint8>)
    requires EncryptByte(a, key) == EncryptByte(b, key)
    ensures a == b
  {
    EncryptByteInvolution(a, key);
    EncryptByteInvolution(b, key);
  }

  /** Without a key the cipher degenerates to XOR with 0x55 alone. */
  lemma NoKeyCipher(b: uint8)
    ensures EncryptByte(b, None) == Xor(b, 0x55)
    ensures EncryptByte(b, None) == EncryptByte(b, Some(0))
  {
    XorNatZero(b as nat);
  }

  /** Ciphering a whole packet twice with the same key gives the packet back. */
  lemma {:induction false} EncryptAllInvolution(packet: seq<uint8>, key: Option<uint8>)
    ensures EncryptAll(EncryptAll(packet, key), key) == packet
  {
    var twice := EncryptAll(EncryptAll(packet, key), key);
    forall i | 0 <= i < |packet|
      ensures twice[i] == packet[i]
    {
      EncryptByteInvolution(packet[i], key);
    }
  }
}

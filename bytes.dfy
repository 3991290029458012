/** Byte-level vocabulary shared by the ET-312 protocol model. */
module Bytes {

  /** An unsigned 8-bit value, as read by `readUInt8` and carried on the serial link. */
  newtype uint8 = x: int | 0 <= x < 0x100

  /** A 16-bit device address, as the command builders expect it. */
  newtype uint16 = x: int | 0 <= x < 0x1_0000

  /** `address >> 8` for a 16-bit address: the high byte, sent first on the wire. */
  function High(address: uint16): uint8
  {
    (address as int / 0x100) as uint8
  }

  /** `address & 0xff`: the low byte. */
  function Low(address: uint16): uint8
  {
    (address as int % 0x100) as uint8
  }

  /** The two address bytes are the big-endian split of the address, so no address is lost. */
  lemma HighLowSplit(address: uint16)
    ensures High(address) as int * 0x100 + Low(address) as int == address as int
  {
  }

  /**
   * Bitwise exclusive or of two naturals, one binary digit at a time: the lowest
   * bit is set when the operands' lowest bits differ, the rest is the exclusive or
   * of the remaining bits.
   */
  function XorNat(a: nat, b: nat): nat
    decreases a + b
  {
    if a == 0 && b == 0 then 0
    else 2 * XorNat(a / 2, b / 2) + (if a % 2 == b % 2 then 0 else 1)
  }

  function Pow2(k: nat): (p: nat)
    ensures p >= 1
  {
    if k == 0 then 1 else 2 * Pow2(k - 1)
  }

  /** The exclusive or of two k-bit values is a k-bit value. */
  lemma {:induction false} XorNatBelow(a: nat, b: nat, k: nat)
    requires a < Pow2(k) && b < Pow2(k)
    ensures XorNat(a, b) < Pow2(k)
    decreases k
  {
    if !(a == 0 && b == 0) {
      XorNatBelow(a / 2, b / 2, k - 1);
    }
  }

  /** Binary digit `k` of `x`. */
  function Bit(x: nat, k: nat): nat
  {
    (x / Pow2(k)) % 2
  }

  /** Dividing by 2 and then by 2^k is dividing by 2^(k+1). */
  lemma HalveThenDivide(x: nat, k: nat)
    ensures x / Pow2(k + 1) == (x / 2) / Pow2(k)
  {
    var p := Pow2(k);
    var h := x / 2;
    var q, r := h / p, h % p;
    DivisionParts(h, p);
    assert x == 2 * h + x % 2;
    assert x == (2 * p) * q + (2 * r + x % 2) by {
      assert 2 * (p * q) == (2 * p) * q;
    }
    DivisionUnique(x, 2 * p, q, 2 * r + x % 2);
  }

  lemma DivisionParts(a: nat, d: nat)
    requires d > 0
    ensures a == d * (a / d) + a % d && 0 <= a % d < d
  {
  }

  lemma DivisionUnique(a: nat, d: nat, q: int, r: int)
    requires d > 0 && a == d * q + r && 0 <= r < d
    ensures a / d == q
  {
    DivisionParts(a, d);
    var q', r' := a / d, a % d;
    if q' > q {
      assert d * q' >= d * (q + 1) by { MultiplyMonotone(d, q + 1, q'); }
    } else if q' < q {
      assert d * q >= d * (q' + 1) by { MultiplyMonotone(d, q' + 1, q); }
    }
  }

  lemma MultiplyMonotone(d: nat, x: int, y: int)
    requires x <= y
    ensures d * x <= d * y
  {
  }

  /** Each binary digit of an exclusive or is set exactly when the operands' digits differ. */
  lemma {:induction false} XorNatBit(a: nat, b: nat, k: nat)
    ensures Bit(XorNat(a, b), k) == if Bit(a, k) == Bit(b, k) then 0 else 1
    decreases k
  {
    XorNatDigits(a, b);
    if k > 0 {
      HalveThenDivide(XorNat(a, b), k - 1);
      HalveThenDivide(a, k - 1);
      HalveThenDivide(b, k - 1);
      XorNatBit(a / 2, b / 2, k - 1);
    }
  }

  /** Bit `k` of a byte. */
  function ByteBit(x: uint8, k: nat): nat
  {
    Bit(x as nat, k)
  }

  /** `a ^ b` on bytes: each of the eight bits is set exactly when the operands' bits differ. */
  function Xor(a: uint8, b: uint8): (r: uint8)
    ensures forall k :: 0 <= k < 8 ==>
      ByteBit(r, k) == if ByteBit(a, k) == ByteBit(b, k) then 0 else 1
  {
    assert Pow2(8) == 0x100;
    XorNatBelow(a as nat, b as nat, 8);
    var r := XorNat(a as nat, b as nat) as uint8;
    forall k | 0 <= k < 8
      ensures ByteBit(r, k) == if ByteBit(a, k) == ByteBit(b, k) then 0 else 1
    {
      XorNatBit(a as nat, b as nat, k);
    }
    r
  }

  /** Halving and parity of an exclusive or: the bitwise view of `XorNat`. */
  lemma XorNatDigits(a: nat, b: nat)
    ensures XorNat(a, b) / 2 == XorNat(a / 2, b / 2)
    ensures XorNat(a, b) % 2 == if a % 2 == b % 2 then 0 else 1
  {
  }

  /** XOR with zero leaves a value unchanged. */
  lemma {:induction false} XorNatZero(a: nat)
    ensures XorNat(a, 0) == a
  {
    if a != 0 {
      XorNatZero(a / 2);
    }
  }

  /** Two naturals with the same half and the same parity are equal. */
  lemma SameDigits(x: nat, y: nat)
    requires x / 2 == y / 2 && x % 2 == y % 2
    ensures x == y
  {
  }

  /** XORing twice with the same value undoes the first XOR. */
  lemma {:induction false} XorNatCancel(a: nat, b: nat)
    ensures XorNat(XorNat(a, b), b) == a
    decreases a + b
  {
    var c := XorNat(a, b);
    XorNatDigits(a, b);
    XorNatDigits(c, b);
    if !(a == 0 && b == 0) {
      XorNatCancel(a / 2, b / 2);
    }
    SameDigits(XorNat(c, b), a);
  }

  /** The two right operands of a chained XOR can be exchanged. */
  lemma {:induction false} XorNatSwap(a: nat, b: nat, c: nat)
    ensures XorNat(XorNat(a, b), c) == XorNat(XorNat(a, c), b)
    decreases a + b + c
  {
    XorNatDigits(a, b);
    XorNatDigits(a, c);
    XorNatDigits(XorNat(a, b), c);
    XorNatDigits(XorNat(a, c), b);
    if !(a == 0 && b == 0 && c == 0) {
      XorNatSwap(a / 2, b / 2, c / 2);
    }
    SameDigits(XorNat(XorNat(a, b), c), XorNat(XorNat(a, c), b));
  }

  /** Chained XORs can be regrouped. */
  lemma {:induction false} XorNatAssoc(a: nat, b: nat, c: nat)
    ensures XorNat(XorNat(a, b), c) == XorNat(a, XorNat(b, c))
    decreases a + b + c
  {
    XorNatDigits(a, b);
    XorNatDigits(b, c);
    XorNatDigits(XorNat(a, b), c);
    XorNatDigits(a, XorNat(b, c));
    if !(a == 0 && b == 0 && c == 0) {
      XorNatAssoc(a / 2, b / 2, c / 2);
    }
    SameDigits(XorNat(XorNat(a, b), c), XorNat(a, XorNat(b, c)));
  }

  datatype Option<+T> = None | Some(value: T)
}

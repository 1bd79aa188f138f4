/**
  Unsigned 8-bit values (`uint8_t`) and the bitwise exclusive-or the checksum is
  built from. XOR is defined one binary digit at a time over the naturals, and its
  algebra is proved here once so the other modules never reason about bits.
 */
module Bytes {

  /** A `uint8_t`. */
  type byte = x: int | 0 <= x < 256

  /** 2 to the power `k`. */
  function Pow2(k: nat): (p: nat)
  {
    if k == 0 then 1 else 2 * Pow2(k - 1)
  }

  /** Bitwise exclusive-or: the low digits are added modulo 2, the rest recursively. */
  function XorNat(a: nat, b: nat): (r: nat)
    decreases a + b
  {
    if a == 0 then b
    else if b == 0 then a
    else 2 * XorNat(a / 2, b / 2) + (a + b) % 2
  }

  lemma DivModTwo(q: nat, r: nat)
    requires r < 2
    ensures (2 * q + r) % 2 == r && (2 * q + r) / 2 == q
  {
  }

  /** The low binary digit of `a ^ b` is the sum of theirs modulo 2; the rest is the XOR of the rest. */
  lemma XorNatDigits(a: nat, b: nat)
    ensures XorNat(a, b) % 2 == (a + b) % 2
    ensures XorNat(a, b) / 2 == XorNat(a / 2, b / 2)
  {
    if a != 0 && b != 0 {
      DivModTwo(XorNat(a / 2, b / 2), (a + b) % 2);
    }
  }

  /** A natural is determined by its low digit and the rest. */
  lemma SameDigits(x: nat, y: nat)
    requires x % 2 == y % 2 && x / 2 == y / 2
    ensures x == y
  {
  }

  lemma {:induction false} XorNatComm(a: nat, b: nat)
    ensures XorNat(a, b) == XorNat(b, a)
    decreases a + b
  {
    if a != 0 && b != 0 {
      XorNatComm(a / 2, b / 2);
    }
  }

  /** A sum is odd exactly when one of its terms is. */
  lemma SumOdd(a: nat, b: nat)
    ensures ((a + b) % 2 == 1) == ((a % 2 == 1) != (b % 2 == 1))
  {
    var qa, qb := a / 2, b / 2;
    assert a == 2 * qa + a % 2;
    assert b == 2 * qb + b % 2;
    DivModTwo(qa + qb, a % 2 + b % 2 - (if a % 2 + b % 2 == 2 then 2 else 0));
    if a % 2 + b % 2 == 2 {
      assert a + b == 2 * (qa + qb + 1);
    } else {
      assert a + b == 2 * (qa + qb) + (a % 2 + b % 2);
    }
  }

  /** `a ^ b` is odd exactly when one of `a` and `b` is. */
  lemma XorNatOdd(a: nat, b: nat)
    ensures (XorNat(a, b) % 2 == 1) == ((a % 2 == 1) != (b % 2 == 1))
  {
    XorNatDigits(a, b);
    SumOdd(a, b);
  }

  /** The low digit of a three-way XOR does not depend on the grouping. */
  lemma XorNatAssocLow(a: nat, b: nat, c: nat)
    ensures XorNat(XorNat(a, b), c) % 2 == XorNat(a, XorNat(b, c)) % 2
  {
    XorNatOdd(a, b);
    XorNatOdd(b, c);
    XorNatOdd(XorNat(a, b), c);
    XorNatOdd(a, XorNat(b, c));
  }

  /** The remaining digits of a three-way XOR are the three-way XOR of the remaining digits. */
  lemma XorNatAssocHigh(a: nat, b: nat, c: nat)
    ensures XorNat(XorNat(a, b), c) / 2 == XorNat(XorNat(a / 2, b / 2), c / 2)
    ensures XorNat(a, XorNat(b, c)) / 2 == XorNat(a / 2, XorNat(b / 2, c / 2))
  {
    var ab, bc := XorNat(a, b), XorNat(b, c);
    XorNatDigits(a, b);
    XorNatDigits(b, c);
    XorNatDigits(ab, c);
    XorNatDigits(a, bc);
  }

  lemma {:induction false} XorNatAssoc(a: nat, b: nat, c: nat)
    ensures XorNat(XorNat(a, b), c) == XorNat(a, XorNat(b, c))
    decreases a + b + c
  {
    if a + b + c != 0 {
      XorNatAssocLow(a, b, c);
      XorNatAssocHigh(a, b, c);
      XorNatAssoc(a / 2, b / 2, c / 2);
      SameDigits(XorNat(XorNat(a, b), c), XorNat(a, XorNat(b, c)));
    }
  }

  lemma {:induction false} XorNatSelf(a: nat)
    ensures XorNat(a, a) == 0
    decreases a
  {
    if a != 0 {
      XorNatSelf(a / 2);
    }
  }

  /** XOR never sets a digit above the highest digit of its operands. */
  lemma {:induction false} XorNatBelow(a: nat, b: nat, k: nat)
    requires a < Pow2(k) && b < Pow2(k)
    ensures XorNat(a, b) < Pow2(k)
    decreases k
  {
    if a != 0 && b != 0 {
      XorNatBelow(a / 2, b / 2, k - 1);
    }
  }

  /** Binary digit `i` of `x` (0 or 1). */
  function Bit(x: nat, i: nat): (d: nat)
  {
    if i == 0 then x % 2 else Bit(x / 2, i - 1)
  }

  /** XorNat is bitwise XOR: digit `i` of the result is set exactly when it is set in one operand. */
  lemma {:induction false} XorNatBits(a: nat, b: nat, i: nat)
    ensures (Bit(XorNat(a, b), i) == 1) == ((Bit(a, i) == 1) != (Bit(b, i) == 1))
    decreases i
  {
    if i == 0 {
      XorNatOdd(a, b);
    } else {
      XorNatDigits(a, b);
      XorNatBits(a / 2, b / 2, i - 1);
    }
  }

  /** `a ^ b` on two bytes: again a byte, and bitwise exclusive-or on each of the eight bits. */
  function Xor(a: byte, b: byte): (r: byte)
    ensures forall i :: 0 <= i < 8 ==> ((Bit(r, i) == 1) <==> ((Bit(a, i) == 1) != (Bit(b, i) == 1)))
  {
    XorNatBelow(a, b, 8);
    forall i | 0 <= i < 8
      ensures (Bit(XorNat(a, b), i) == 1) <==> ((Bit(a, i) == 1) != (Bit(b, i) == 1))
    {
      XorNatBits(a, b, i);
    }
    XorNat(a, b)
  }

  lemma XorZero(a: byte)
    ensures Xor(a, 0) == a && Xor(0, a) == a
  {
  }

  lemma XorComm(a: byte, b: byte)
    ensures Xor(a, b) == Xor(b, a)
  {
    XorNatComm(a, b);
  }

  lemma XorAssoc(a: byte, b: byte, c: byte)
    ensures Xor(Xor(a, b), c) == Xor(a, Xor(b, c))
  {
    XorNatAssoc(a, b, c);
  }

  lemma XorSelf(a: byte)
    ensures Xor(a, a) == 0
  {
    XorNatSelf(a);
  }

  /** XOR-ing the same byte twice undoes it. */
  lemma XorCancel(a: byte, b: byte)
    ensures Xor(Xor(a, b), b) == a
  {
    XorAssoc(a, b, b);
    XorSelf(b);
    XorZero(a);
  }

  /** `a ^ x == b` has exactly one solution: `x == a ^ b`. */
  lemma XorSolve(a: byte, b: byte, x: byte)
    ensures Xor(a, x) == b <==> x == Xor(a, b)
  {
    if Xor(a, x) == b {
      XorAssoc(a, a, x);
      XorSelf(a);
      XorZero(x);
    } else {
      if x == Xor(a, b) {
        XorAssoc(a, a, b);
        XorSelf(a);
        XorZero(b);
      }
    }
  }

  /** Regrouping four operands: (a ^ b) ^ (c ^ d) == (a ^ c) ^ (b ^ d). */
  lemma XorSwapMiddle(a: byte, b: byte, c: byte, d: byte)
    ensures Xor(Xor(a, b), Xor(c, d)) == Xor(Xor(a, c), Xor(b, d))
  {
    calc {
      Xor(Xor(a, b), Xor(c, d));
      { XorAssoc(a, b, Xor(c, d)); }
      Xor(a, Xor(b, Xor(c, d)));
      { XorAssoc(b, c, d); XorComm(b, c); XorAssoc(c, b, d); }
      Xor(a, Xor(c, Xor(b, d)));
      { XorAssoc(a, c, Xor(b, d)); }
      Xor(Xor(a, c), Xor(b, d));
    }
  }

  /** Two bytes are equal exactly when their XOR is zero. */
  lemma XorZeroIff(x: byte, y: byte)
    ensures Xor(x, y) == 0 <==> x == y
  {
    XorSolve(x, 0, y);
    XorZero(x);
  }

  /** Replacing `x` by `d` in a running XOR: (c ^ x) ^ (x ^ d) == c ^ d. */
  lemma XorReplace(c: byte, x: byte, d: byte)
    ensures Xor(Xor(c, x), Xor(x, d)) == Xor(c, d)
  {
    XorAssoc(c, x, Xor(x, d));
    XorAssoc(x, x, d);
    XorSelf(x);
    XorZero(d);
  }

  /**
    Two three-way XORs sharing their first operand agree exactly when the other
    operands differ by the same amount: id ^ b ^ wb == id ^ a ^ wa iff wa ^ wb == a ^ b.
   */
  lemma XorShift(id: byte, a: byte, b: byte, wa: byte, wb: byte)
    ensures Xor(Xor(id, b), wb) == Xor(Xor(id, a), wa) <==> Xor(wa, wb) == Xor(a, b)
  {
    var l, r := Xor(Xor(id, b), wb), Xor(Xor(id, a), wa);
    XorSwapMiddle(Xor(id, b), wb, Xor(id, a), wa);
    XorSwapMiddle(id, b, id, a);
    XorSelf(id);
    XorZero(Xor(b, a));
    XorComm(b, a);
    XorComm(wb, wa);
    // Xor(l, r) == Xor(Xor(a, b), Xor(wa, wb))
    XorZeroIff(l, r);
    XorZeroIff(Xor(a, b), Xor(wa, wb));
    XorComm(Xor(a, b), Xor(wa, wb));
    XorComm(Xor(wa, wb), Xor(a, b));
  }
}

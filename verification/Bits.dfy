/**
Python's integers are unbounded, and the tools use `^`, `&`, `|`, `<<` and `>>` on them
without masking. This module gives those operators on natural numbers, together with the
one fact everything else rests on: a bitwise operator acts independently on the part of a
number above a bit position and on the part below it.
*/
module Bits {

  function Pow2(k: nat): (p: nat)
    ensures p > 0
  {
    if k == 0 then 1 else 2 * Pow2(k - 1)
  }

  /** `a << k` */
  function Shl(a: nat, k: nat): nat {
    if k == 0 then a else 2 * Shl(a, k - 1)
  }

  /** `a >> k` */
  function Shr(a: nat, k: nat): nat {
    if k == 0 then a else Shr(a / 2, k - 1)
  }

  /** The low `k` bits of `a`. */
  function Low(a: nat, k: nat): (r: nat)
    ensures r < Pow2(k)
  {
    if k == 0 then 0 else 2 * Low(a / 2, k - 1) + a % 2
  }

  datatype BitOp = XorOp | AndOp | OrOp

  /** The operator on single bits. */
  function OnBits(op: BitOp, x: nat, y: nat): (z: nat)
    requires x < 2 && y < 2
    ensures z < 2
  {
    match op
    case XorOp => if x == y then 0 else 1
    case AndOp => if x == 1 && y == 1 then 1 else 0
    case OrOp => if x == 1 || y == 1 then 1 else 0
  }

  /** The operator on whole numbers, bit by bit. */
  function Bitwise(op: BitOp, a: nat, b: nat): nat
    decreases a + b
  {
    if a == 0 && b == 0 then 0
    else 2 * Bitwise(op, a / 2, b / 2) + OnBits(op, a % 2, b % 2)
  }

  function Xor(a: nat, b: nat): nat { Bitwise(XorOp, a, b) }

  function And(a: nat, b: nat): nat { Bitwise(AndOp, a, b) }

  function Or(a: nat, b: nat): nat { Bitwise(OrOp, a, b) }

  // ----- shifting is multiplying and dividing by a power of two

  lemma {:induction false} ShlIsMul(a: nat, k: nat)
    ensures Shl(a, k) == a * Pow2(k)
  {
    if k > 0 {
      ShlIsMul(a, k - 1);
      assert a * (2 * Pow2(k - 1)) == 2 * (a * Pow2(k - 1));
    }
  }

  lemma DivModUnique(x: int, q: int, r: int, d: int)
    requires 0 <= r < d && x == q * d + r
    ensures x / d == q && x % d == r
  {
    var e := x / d - q;
    assert e * d == r - x % d by { assert x == (x / d) * d + x % d; }
    MulGap(e, d);
  }

  lemma MulGap(e: int, d: int)
    requires d > 0
    ensures e >= 1 ==> e * d >= d
    ensures e <= -1 ==> e * d <= -d
  {
  }

  lemma {:induction false} SplitJoin(a: nat, k: nat)
    ensures a == Shl(Shr(a, k), k) + Low(a, k)
  {
    if k > 0 { SplitJoin(a / 2, k - 1); }
  }

  lemma ShrIsDiv(a: nat, k: nat)
    ensures Shr(a, k) == a / Pow2(k)
    ensures Low(a, k) == a % Pow2(k)
  {
    SplitJoin(a, k);
    ShlIsMul(Shr(a, k), k);
    DivModUnique(a, Shr(a, k), Low(a, k), Pow2(k));
  }

  lemma {:induction false} SplitUnique(hi: nat, lo: nat, k: nat)
    requires lo < Pow2(k)
    ensures Shr(Shl(hi, k) + lo, k) == hi && Low(Shl(hi, k) + lo, k) == lo
  {
    if k > 0 { SplitUnique(hi, lo / 2, k - 1); }
  }

  lemma {:induction false} LowSmall(a: nat, k: nat)
    requires a < Pow2(k)
    ensures Low(a, k) == a && Shr(a, k) == 0
  {
    if k > 0 { LowSmall(a / 2, k - 1); }
  }

  lemma {:induction false} ShrShr(a: nat, j: nat, k: nat)
    ensures Shr(Shr(a, j), k) == Shr(a, j + k)
  {
    if j > 0 { ShrShr(a / 2, j - 1, k); }
  }

  lemma {:induction false} ShlShl(a: nat, j: nat, k: nat)
    ensures Shl(Shl(a, j), k) == Shl(a, j + k)
  {
    if k > 0 { ShlShl(a, j, k - 1); }
  }

  lemma {:induction false} ShlAdd(a: nat, b: nat, k: nat)
    ensures Shl(a + b, k) == Shl(a, k) + Shl(b, k)
  {
    if k > 0 { ShlAdd(a, b, k - 1); }
  }

  /** The low `j` bits of the low `k` bits are the low `j` bits. */
  lemma {:induction false} LowLow(a: nat, j: nat, k: nat)
    requires j <= k
    ensures Low(Low(a, k), j) == Low(a, j)
  {
    if j > 0 { LowLow(a / 2, j - 1, k - 1); }
  }

  /** A field of `k` bits at position `j` lies inside the low `j + k` bits. */
  lemma {:induction false} FieldOfLow(a: nat, j: nat, k: nat, w: nat)
    requires j + k <= w
    ensures Low(Shr(Low(a, w), j), k) == Low(Shr(a, j), k)
  {
    if j == 0 {
      LowLow(a, k, w);
    } else {
      FieldOfLow(a / 2, j - 1, k, w - 1);
    }
  }

  lemma {:induction false} Pow2Add(j: nat, k: nat)
    ensures Pow2(j + k) == Shl(Pow2(j), k)
  {
    if k > 0 { Pow2Add(j, k - 1); }
  }

  lemma {:induction false} Pow2Monotone(j: nat, k: nat)
    requires j <= k
    ensures Pow2(j) <= Pow2(k)
  {
    if j < k { Pow2Monotone(j, k - 1); }
  }

  /** Addition carries upwards only. */
  lemma LowAdd(a: nat, b: nat, k: nat)
    ensures Low(a + b, k) == Low(Low(a, k) + Low(b, k), k)
  {
    hide Low, Shl, Shr;
    SplitJoin(a, k);
    SplitJoin(b, k);
    ShlAdd(Shr(a, k), Shr(b, k), k);
    var s := Low(a, k) + Low(b, k);
    var h := Shr(a, k) + Shr(b, k);
    SplitJoin(s, k);
    ShlAdd(h, Shr(s, k), k);
    SplitUnique(h + Shr(s, k), Low(s, k), k);
  }

  // ----- the split law

  lemma BitwiseStep(op: BitOp, a: nat, b: nat)
    ensures Bitwise(op, a, b) == 2 * Bitwise(op, a / 2, b / 2) + OnBits(op, a % 2, b % 2)
  {}

  lemma {:induction false} BitwiseBound(op: BitOp, a: nat, b: nat, k: nat)
    requires a < Pow2(k) && b < Pow2(k)
    ensures Bitwise(op, a, b) < Pow2(k)
  {
    if k > 0 {
      BitwiseBound(op, a / 2, b / 2, k - 1);
      BitwiseStep(op, a, b);
    }
  }

  /** Above bit `k` and below bit `k` the operator acts separately. */
  lemma BitwiseSplit(op: BitOp, a: nat, b: nat, k: nat)
    ensures Shr(Bitwise(op, a, b), k) == Bitwise(op, Shr(a, k), Shr(b, k))
    ensures Low(Bitwise(op, a, b), k) == Bitwise(op, Low(a, k), Low(b, k))
  {
    BitwiseShr(op, a, b, k);
    BitwiseLow(op, a, b, k);
  }

  lemma {:induction false} BitwiseShr(op: BitOp, a: nat, b: nat, k: nat)
    ensures Shr(Bitwise(op, a, b), k) == Bitwise(op, Shr(a, k), Shr(b, k))
  {
    if k > 0 {
      BitwiseShr(op, a / 2, b / 2, k - 1);
      BitwiseStep(op, a, b);
    }
  }

  lemma LowStep(a: nat, k: nat)
    requires k > 0
    ensures Low(a, k) == 2 * Low(a / 2, k - 1) + a % 2
    ensures Low(a, k) / 2 == Low(a / 2, k - 1) && Low(a, k) % 2 == a % 2
  {}

  lemma BitwiseHalves(op: BitOp, a: nat, b: nat)
    ensures Bitwise(op, a, b) / 2 == Bitwise(op, a / 2, b / 2)
    ensures Bitwise(op, a, b) % 2 == OnBits(op, a % 2, b % 2)
  {
    BitwiseStep(op, a, b);
  }

  lemma {:induction false} BitwiseLow(op: BitOp, a: nat, b: nat, k: nat)
    ensures Low(Bitwise(op, a, b), k) == Bitwise(op, Low(a, k), Low(b, k))
  {
    if k > 0 {
      BitwiseLow(op, a / 2, b / 2, k - 1);
      LowStep(a, k);
      LowStep(b, k);
      LowStep(Bitwise(op, a, b), k);
      BitwiseHalves(op, a, b);
      BitwiseStep(op, Low(a, k), Low(b, k));
      hide Bitwise, Low, OnBits;
    }
  }

  /** The same law for numbers given as a high and a low part. */
  lemma BitwiseJoin(op: BitOp, aHi: nat, aLo: nat, bHi: nat, bLo: nat, k: nat)
    requires aLo < Pow2(k) && bLo < Pow2(k)
    ensures Bitwise(op, Shl(aHi, k) + aLo, Shl(bHi, k) + bLo)
         == Shl(Bitwise(op, aHi, bHi), k) + Bitwise(op, aLo, bLo)
  {
    hide Bitwise, Shl, Shr, Low;
    var a, b := Shl(aHi, k) + aLo, Shl(bHi, k) + bLo;
    SplitUnique(aHi, aLo, k);
    SplitUnique(bHi, bLo, k);
    BitwiseSplit(op, a, b, k);
    SplitJoin(Bitwise(op, a, b), k);
  }

  lemma {:induction false} BitwiseComm(op: BitOp, a: nat, b: nat)
    ensures Bitwise(op, a, b) == Bitwise(op, b, a)
    decreases a + b
  {
    if a != 0 || b != 0 { BitwiseComm(op, a / 2, b / 2); }
  }

  // ----- exclusive or

  lemma {:induction false} XorZero(a: nat)
    ensures Xor(a, 0) == a && Xor(0, a) == a
  {
    if a != 0 { XorZero(a / 2); }
  }

  lemma {:induction false} XorSelf(a: nat)
    ensures Xor(a, a) == 0
  {
    if a != 0 { XorSelf(a / 2); }
  }

  lemma XorComm(a: nat, b: nat)
    ensures Xor(a, b) == Xor(b, a)
  {
    BitwiseComm(XorOp, a, b);
  }

  lemma {:induction false} XorAssoc(a: nat, b: nat, c: nat)
    ensures Xor(Xor(a, b), c) == Xor(a, Xor(b, c))
    decreases a + b + c
  {
    if a != 0 || b != 0 || c != 0 {
      XorAssoc(a / 2, b / 2, c / 2);
      BitwiseStep(XorOp, a, b);
      BitwiseStep(XorOp, b, c);
      BitwiseStep(XorOp, Xor(a, b), c);
      BitwiseStep(XorOp, a, Xor(b, c));
    }
  }

  lemma XorCancel(a: nat, b: nat)
    ensures Xor(Xor(a, b), b) == a
  {
    XorAssoc(a, b, b);
    XorSelf(b);
    XorZero(a);
  }

  /** Pairs can be regrouped: (a + b) + (c + d) = (a + c) + (b + d) over GF(2). */
  lemma XorSwapMiddle(a: nat, b: nat, c: nat, d: nat)
    ensures Xor(Xor(a, b), Xor(c, d)) == Xor(Xor(a, c), Xor(b, d))
  {
    XorAssoc(a, b, Xor(c, d));
    XorAssoc(b, c, d);
    XorComm(b, c);
    XorAssoc(c, b, d);
    XorAssoc(a, c, Xor(b, d));
  }

  lemma XorDouble(a: nat, b: nat)
    ensures Xor(2 * a, 2 * b) == 2 * Xor(a, b)
  {
    BitwiseStep(XorOp, 2 * a, 2 * b);
  }

  lemma XorEqual(a: nat, b: nat)
    requires Xor(a, b) == 0
    ensures a == b
  {
    XorCancel(a, b);
    XorZero(b);
  }

  // ----- and, or

  lemma {:induction false} OrZero(a: nat)
    ensures Or(a, 0) == a && Or(0, a) == a
  {
    if a != 0 { OrZero(a / 2); }
  }

  lemma {:induction false} AndZero(a: nat)
    ensures And(a, 0) == 0 && And(0, a) == 0
  {
    if a != 0 { AndZero(a / 2); }
  }

  /** Masking with `k` ones keeps the low `k` bits. */
  lemma {:induction false} AndOnes(a: nat, k: nat)
    ensures And(a, Pow2(k) - 1) == Low(a, k)
  {
    if k == 0 {
      AndZero(a);
    } else {
      AndOnes(a / 2, k - 1);
      BitwiseStep(AndOp, a, Pow2(k) - 1);
    }
  }

  /** `or` and `xor` of parts that do not overlap is their sum. */
  lemma DisjointSum(a: nat, b: nat, k: nat)
    requires b < Pow2(k)
    ensures Or(Shl(a, k), b) == Shl(a, k) + b
    ensures Xor(Shl(a, k), b) == Shl(a, k) + b
  {
    hide Shl, Bitwise;
    ShlZero(k);
    BitwiseJoin(OrOp, a, 0, 0, b, k);
    BitwiseJoin(XorOp, a, 0, 0, b, k);
    OrZero(a);
    OrZero(b);
    XorZero(a);
    XorZero(b);
  }

  lemma {:induction false} ShlZero(k: nat)
    ensures Shl(0, k) == 0
  {
    if k > 0 { ShlZero(k - 1); }
  }

  // ----- single bits

  predicate BitSet(a: nat, i: nat) { Shr(a, i) % 2 == 1 }

  lemma BitSetBitwise(op: BitOp, a: nat, b: nat, i: nat)
    ensures BitSet(Bitwise(op, a, b), i) <==>
      OnBits(op, if BitSet(a, i) then 1 else 0, if BitSet(b, i) then 1 else 0) == 1
  {
    hide Bitwise, Shr;
    BitwiseShr(op, a, b, i);
    BitwiseHalves(op, Shr(a, i), Shr(b, i));
  }

  lemma BitSetXor(a: nat, b: nat, i: nat)
    ensures BitSet(Xor(a, b), i) <==> BitSet(a, i) != BitSet(b, i)
  {
    BitSetBitwise(XorOp, a, b, i);
  }

  lemma BitSetOr(a: nat, b: nat, i: nat)
    ensures BitSet(Or(a, b), i) <==> BitSet(a, i) || BitSet(b, i)
  {
    BitSetBitwise(OrOp, a, b, i);
  }

  lemma {:induction false} BitSetPow2(k: nat, i: nat)
    ensures BitSet(Pow2(k), i) <==> i == k
  {
    if i > 0 {
      if k == 0 {
        LowSmall(0, i - 1);
      } else {
        BitSetPow2(k - 1, i - 1);
      }
    }
  }

  lemma {:induction false} BitSetShl(a: nat, k: nat, i: nat)
    ensures BitSet(Shl(a, k), i) <==> i >= k && BitSet(a, i - k)
  {
    if k > 0 {
      if i > 0 { BitSetShl(a, k - 1, i - 1); }
    }
  }

  lemma BitSetZero(i: nat)
    ensures !BitSet(0, i)
  {
    LowSmall(0, i);
  }

  /** Testing a bit with a mask. */
  lemma {:induction false} AndPow2(a: nat, k: nat)
    ensures And(a, Pow2(k)) == if BitSet(a, k) then Pow2(k) else 0
  {
    BitwiseStep(AndOp, a, Pow2(k));
    if k == 0 {
      AndZero(a / 2);
    } else {
      AndPow2(a / 2, k - 1);
    }
  }

  /** A number is determined by its bits. */
  lemma {:induction false} EqualBits(a: nat, b: nat)
    requires forall i: nat :: BitSet(a, i) == BitSet(b, i)
    ensures a == b
    decreases a + b
  {
    if a != 0 || b != 0 {
      assert BitSet(a, 0) == BitSet(b, 0);
      forall i: nat ensures BitSet(a / 2, i) == BitSet(b / 2, i) {
        assert BitSet(a, i + 1) == BitSet(b, i + 1);
      }
      EqualBits(a / 2, b / 2);
    }
  }
}

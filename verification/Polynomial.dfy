/**
Polynomials over GF(2), written as natural numbers: bit `i` is the coefficient of x^i,
addition is `Xor`, multiplication is the carry-less product.
*/
module Polynomial {
  import opened Bits

  /** `x` if `y` is odd, otherwise zero: the contribution of the lowest bit of `y`. */
  function Partial(x: nat, y: nat): nat {
    if y % 2 == 1 then x else 0
  }

  /** The carry-less product. */
  function Product(x: nat, y: nat): nat {
    if y == 0 then 0 else Xor(Partial(x, y), 2 * Product(x, y / 2))
  }

  // ----- ring laws of the product

  lemma {:induction false} ProductZero(y: nat)
    ensures Product(0, y) == 0
  {
    if y != 0 {
      ProductZero(y / 2);
      XorZero(0);
    }
  }

  lemma ProductOne(x: nat)
    ensures Product(x, 1) == x
  {
    XorZero(x);
  }

  lemma {:induction false} OneProduct(y: nat)
    ensures Product(1, y) == y
  {
    if y != 0 {
      OneProduct(y / 2);
      BitwiseStep(XorOp, Partial(1, y), 2 * (y / 2));
      XorZero(y / 2);
    }
  }

  lemma {:induction false} ProductDoubleLeft(x: nat, y: nat)
    ensures Product(2 * x, y) == 2 * Product(x, y)
  {
    if y != 0 {
      ProductDoubleLeft(x, y / 2);
      XorDouble(Partial(x, y), 2 * Product(x, y / 2));
    }
  }

  lemma {:induction false} ProductXorLeft(x: nat, z: nat, y: nat)
    ensures Product(Xor(x, z), y) == Xor(Product(x, y), Product(z, y))
  {
    if y == 0 {
      XorZero(0);
    } else {
      var a, b := Product(x, y / 2), Product(z, y / 2);
      ProductXorLeft(x, z, y / 2);
      XorDouble(a, b);
      XorZero(0);
      XorSwapMiddle(Partial(x, y), 2 * a, Partial(z, y), 2 * b);
    }
  }

  /** The product by its left argument: this is what makes it commutative. */
  lemma ProductStepLeft(x: nat, y: nat)
    ensures Product(x, y) == Xor(Partial(y, x), 2 * Product(x / 2, y))
  {
    var lo, hi := x % 2, 2 * (x / 2);
    assert Xor(lo, hi) == x by {
      BitwiseStep(XorOp, lo, hi);
      XorZero(x / 2);
    }
    ProductXorLeft(lo, hi, y);
    ProductDoubleLeft(x / 2, y);
    OneProduct(y);
    ProductZero(y);
  }

  lemma {:induction false} ProductComm(x: nat, y: nat)
    ensures Product(x, y) == Product(y, x)
    decreases y
  {
    if y == 0 {
      ProductZero(x);
    } else {
      ProductComm(x, y / 2);
      ProductStepLeft(y, x);
    }
  }

  lemma ProductXorRight(x: nat, y: nat, z: nat)
    ensures Product(x, Xor(y, z)) == Xor(Product(x, y), Product(x, z))
  {
    ProductComm(x, Xor(y, z));
    ProductComm(x, y);
    ProductComm(x, z);
    ProductXorLeft(y, z, x);
  }

  lemma ProductDoubleRight(x: nat, y: nat)
    ensures Product(x, 2 * y) == 2 * Product(x, y)
  {
    ProductComm(x, 2 * y);
    ProductComm(x, y);
    ProductDoubleLeft(y, x);
  }

  lemma {:induction false} ProductAssoc(x: nat, y: nat, z: nat)
    ensures Product(Product(x, y), z) == Product(x, Product(y, z))
    decreases z
  {
    if z != 0 {
      ProductAssoc(x, y, z / 2);
      ProductXorRight(x, Partial(y, z), 2 * Product(y, z / 2));
      ProductDoubleRight(x, Product(y, z / 2));
    }
  }

  lemma {:induction false} ProductShift(x: nat, k: nat)
    ensures Product(x, Pow2(k)) == Shl(x, k) && Product(Pow2(k), x) == Shl(x, k)
  {
    ProductComm(x, Pow2(k));
    if k == 0 {
      ProductOne(x);
    } else {
      ProductShift(x, k - 1);
      ProductDoubleRight(x, Pow2(k - 1));
    }
  }

  // ----- degree

  function Degree(m: nat): (d: nat)
    requires m > 0
    ensures Pow2(d) <= m < Pow2(d + 1)
  {
    if m == 1 then 0 else 1 + Degree(m / 2)
  }

  lemma DegreeUnique(m: nat, d: nat)
    requires Pow2(d) <= m < Pow2(d + 1)
    ensures Degree(m) == d
  {
    if Degree(m) < d {
      Pow2Monotone(Degree(m) + 1, d);
    } else if Degree(m) > d {
      Pow2Monotone(d + 1, Degree(m));
    }
  }

  /** Adding something of lower degree leaves the leading term. */
  lemma XorKeepsTop(a: nat, b: nat, k: nat)
    requires a < Pow2(k) && Pow2(k) <= b < Pow2(k + 1)
    ensures Pow2(k) <= Xor(a, b) < Pow2(k + 1)
  {
    XorSplitTop(b, k);
    BitwiseJoin(XorOp, 0, a, 1, b - Pow2(k), k);
    ShlZero(k);
    XorZero(1);
    BitwiseBound(XorOp, a, b - Pow2(k), k);
  }

  lemma XorSplitTop(b: nat, k: nat)
    requires Pow2(k) <= b < Pow2(k + 1)
    ensures b - Pow2(k) < Pow2(k) && b == Shl(1, k) + (b - Pow2(k))
  {
    ShlIsMul(1, k);
  }

  /** Adding two polynomials of the same degree cancels the leading term. */
  lemma XorDropsTop(a: nat, b: nat, k: nat)
    requires Pow2(k) <= a < Pow2(k + 1) && Pow2(k) <= b < Pow2(k + 1)
    ensures Xor(a, b) < Pow2(k)
  {
    XorSplitTop(a, k);
    XorSplitTop(b, k);
    BitwiseJoin(XorOp, 1, a - Pow2(k), 1, b - Pow2(k), k);
    XorSelf(1);
    ShlZero(k);
    BitwiseBound(XorOp, a - Pow2(k), b - Pow2(k), k);
  }

  /** Degrees add up under the product; in particular there are no zero divisors. */
  lemma {:induction false} DegreeProduct(x: nat, y: nat)
    requires x > 0 && y > 0
    ensures Product(x, y) > 0
    ensures Degree(Product(x, y)) == Degree(x) + Degree(y)
    decreases y
  {
    if y == 1 {
      ProductOne(x);
    } else {
      DegreeProduct(x, y / 2);
      var p := Product(x, y / 2);
      var k := Degree(p) + 1;
      assert Pow2(k) <= 2 * p < Pow2(k + 1);
      Pow2Monotone(Degree(x) + 1, k);
      XorKeepsTop(Partial(x, y), 2 * p, k);
      DegreeUnique(Product(x, y), k);
    }
  }

  // ----- congruence and remainders

  /** `a` and `b` differ by a multiple of `m`. */
  ghost predicate Congruent(a: nat, b: nat, m: nat) {
    exists q :: Xor(a, b) == Product(q, m)
  }

  /** `r` is a remainder of `a` modulo `m`. */
  ghost predicate IsRemainder(r: nat, a: nat, m: nat)
    requires m > 0
  {
    r < Pow2(Degree(m)) && Congruent(a, r, m)
  }

  lemma CongruentRefl(a: nat, m: nat)
    ensures Congruent(a, a, m)
  {
    XorSelf(a);
    ProductZero(m);
    assert Xor(a, a) == Product(0, m);
  }

  lemma CongruentSym(a: nat, b: nat, m: nat)
    requires Congruent(a, b, m)
    ensures Congruent(b, a, m)
  {
    XorComm(a, b);
  }

  /** Congruences may be added. */
  lemma CongruentXor(a: nat, b: nat, c: nat, d: nat, m: nat)
    requires Congruent(a, b, m) && Congruent(c, d, m)
    ensures Congruent(Xor(a, c), Xor(b, d), m)
  {
    var q :| Xor(a, b) == Product(q, m);
    var p :| Xor(c, d) == Product(p, m);
    XorSwapMiddle(a, b, c, d);
    XorSwapMiddle(a, c, b, d);
    ProductXorLeft(q, p, m);
    assert Xor(Xor(a, c), Xor(b, d)) == Product(Xor(q, p), m);
  }

  lemma CongruentTrans(a: nat, b: nat, c: nat, m: nat)
    requires Congruent(a, b, m) && Congruent(b, c, m)
    ensures Congruent(a, c, m)
  {
    CongruentXor(a, b, b, c, m);
    var q :| Xor(Xor(a, b), Xor(b, c)) == Product(q, m);
    XorAssoc(Xor(a, b), b, c);
    XorCancel(a, b);
    assert Xor(a, c) == Product(q, m);
  }

  /** Congruent factors give congruent products. */
  lemma CongruentProduct(a: nat, b: nat, c: nat, m: nat)
    requires Congruent(a, b, m)
    ensures Congruent(Product(a, c), Product(b, c), m)
  {
    var q :| Xor(a, b) == Product(q, m);
    ProductXorLeft(a, b, c);
    ProductAssoc(q, m, c);
    ProductComm(m, c);
    ProductAssoc(q, c, m);
    assert Xor(Product(a, c), Product(b, c)) == Product(Product(q, c), m);
  }

  /** A multiple of `m` of lower degree than `m` is zero, so remainders are unique. */
  lemma RemainderUnique(r: nat, s: nat, a: nat, m: nat)
    requires m > 0 && IsRemainder(r, a, m) && IsRemainder(s, a, m)
    ensures r == s
  {
    hide Product, Bitwise, Degree, Pow2;
    ProductZero(m);
    CongruentSym(a, r, m);
    CongruentTrans(r, a, s, m);
    var q :| Xor(r, s) == Product(q, m);
    BitwiseBound(XorOp, r, s, Degree(m));
    if q > 0 {
      DegreeProduct(q, m);
      Pow2Monotone(Degree(m), Degree(q) + Degree(m));
    }
    ProductZero(m);
    XorEqual(r, s);
  }

  /** Subtracting a shifted copy of `m` is a congruence step. */
  lemma ReduceStep(a: nat, m: nat, k: nat)
    ensures Congruent(a, Xor(a, Shl(m, k)), m)
  {
    var s := Shl(m, k);
    ProductShift(m, k);
    XorComm(a, s);
    XorAssoc(a, a, s);
    XorSelf(a);
    XorZero(s);
    assert Xor(a, Xor(a, s)) == Product(Pow2(k), m);
  }

  lemma {:induction false} ShlDegree(m: nat, k: nat)
    requires m > 0
    ensures Shl(m, k) > 0 && Degree(Shl(m, k)) == Degree(m) + k
  {
    if k > 0 { ShlDegree(m, k - 1); }
  }

  /** The remainder of `a` modulo `m`, by cancelling leading terms. */
  function Remainder(a: nat, m: nat): (r: nat)
    requires m > 0
    ensures IsRemainder(r, a, m)
    decreases a
  {
    if a < Pow2(Degree(m)) then
      CongruentRefl(a, m);
      a
    else
      var d := Degree(a);
      assert d >= Degree(m) by {
        if d < Degree(m) { Pow2Monotone(d + 1, Degree(m)); }
      }
      var k := d - Degree(m);
      ShlDegree(m, k);
      XorDropsTop(a, Shl(m, k), d);
      var b := Xor(a, Shl(m, k));
      ReduceStep(a, m, k);
      CongruentTrans(a, b, Remainder(b, m), m);
      Remainder(b, m)
  }

  /** The remainder is the only representative of its class, and it represents it. */
  lemma RemainderIff(a: nat, b: nat, m: nat)
    requires m > 0
    ensures Congruent(a, b, m) <==> Remainder(a, m) == Remainder(b, m)
  {
    if Congruent(a, b, m) {
      CongruentTrans(a, b, Remainder(b, m), m);
      RemainderUnique(Remainder(a, m), Remainder(b, m), a, m);
    }
    if Remainder(a, m) == Remainder(b, m) {
      CongruentSym(b, Remainder(b, m), m);
      CongruentTrans(a, Remainder(a, m), b, m);
    }
  }

  lemma RemainderXor(a: nat, b: nat, m: nat)
    requires m > 0
    ensures Remainder(Xor(a, b), m) == Xor(Remainder(a, m), Remainder(b, m))
  {
    var r, s := Remainder(a, m), Remainder(b, m);
    CongruentXor(a, r, b, s, m);
    BitwiseBound(XorOp, r, s, Degree(m));
    RemainderUnique(Remainder(Xor(a, b), m), Xor(r, s), Xor(a, b), m);
  }

  lemma RemainderSmall(a: nat, m: nat)
    requires m > 0 && a < Pow2(Degree(m))
    ensures Remainder(a, m) == a
  {}

  /** A factor may be reduced before multiplying. */
  lemma RemainderProduct(a: nat, b: nat, m: nat)
    requires m > 0
    ensures Remainder(Product(Remainder(a, m), b), m) == Remainder(Product(a, b), m)
  {
    CongruentProduct(a, Remainder(a, m), b, m);
    RemainderIff(Product(a, b), Product(Remainder(a, m), b), m);
  }
}

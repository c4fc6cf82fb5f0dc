/**
The field arithmetic of AES-GCM-SIV (tools/rfc8452.py, class Field; section 3 of RFC 8452).
The methods are the loops of the tool; the functions say what they compute.
*/
module Field {
  import opened Bits
  import opened Polynomial

  /** x^128 + x^127 + x^126 + x^121 + 1 */
  const MOD: nat := Pow2(0) + Pow2(121) + Pow2(126) + Pow2(127) + Pow2(128)

  /** x^127 + x^124 + x^121 + x^114 + 1 */
  const INV: nat := Pow2(0) + Pow2(114) + Pow2(121) + Pow2(124) + Pow2(127)

  /** A field element is a polynomial of degree below 128. */
  predicate Element(x: nat) { x < Pow2(128) }

  function Add(x: nat, y: nat): nat { Xor(x, y) }

  function Mul(x: nat, y: nat): nat
  {
    Remainder(Product(x, Low(y, 128)), MOD)
  }

  function Dot(a: nat, b: nat): nat { Mul(Mul(a, b), INV) }

  // ----- the loops

  /** `a ^ m < a` tests whether the leading term of `m` occurs in `a`. */
  lemma XorSmallerIff(a: nat, m: nat, d: nat)
    requires Pow2(d) <= m < Pow2(d + 1) && a < Pow2(d + 1)
    ensures Xor(a, m) < a <==> Pow2(d) <= a
    ensures Xor(a, m) < a ==> Xor(a, m) < Pow2(d)
  {
    if Pow2(d) <= a {
      XorDropsTop(a, m, d);
    } else {
      XorKeepsTop(a, m, d);
    }
  }

  /** One round of the second loop cancels one possible leading term. */
  lemma ReduceRound(a0: nat, a: nat, m: nat, i: nat)
    requires m > 0 && a < Pow2(Degree(m) + i + 1) && Congruent(a0, a, m)
    ensures var a2 := Xor(a, Shl(m, i));
            var b := if a2 < a then a2 else a;
            b < Pow2(Degree(m) + i) && Congruent(a0, b, m)
  {
    ShlDegree(m, i);
    XorSmallerIff(a, Shl(m, i), Degree(m) + i);
    ReduceStep(a, m, i);
    CongruentTrans(a0, a, Xor(a, Shl(m, i)), m);
  }

  /**
  Reduction by shift and subtract. It terminates for every modulus but zero and computes
  the remainder of the polynomial division.
  */
  method ReduceLoop(a0: nat, m: nat) returns (a: nat)
    requires m > 0
    ensures a == Remainder(a0, m)
  {
    hide Pow2, Xor, Congruent, Remainder, Degree;
    a := a0;
    var m2 := m;
    var i: int := 0;
    while m2 < a
      invariant i >= 0 && m2 == Shl(m, i) && m2 > 0
      decreases a - m2
    {
      m2 := 2 * m2;
      i := i + 1;
    }
    ghost var d := Degree(m);
    ShlDegree(m, i);
    assert a < Pow2(d + i + 1);
    CongruentRefl(a0, m);
    while i >= 0
      invariant -1 <= i && a < Pow2(d + i + 1)
      invariant i >= 0 ==> m2 == Shl(m, i)
      invariant Congruent(a0, a, m)
    {
      ReduceRound(a0, a, m, i);
      var a2 := Xor(a, m2);
      if a2 < a {
        a := a2;
      }
      m2 := m2 / 2;
      i := i - 1;
    }
    RemainderUnique(a, Remainder(a0, m), a0, m);
  }

  lemma ProductLastStep(x: nat, y: nat, k: nat)
    ensures Product(x, Low(y, k + 1))
         == if Shr(y, k) % 2 == 1 then Xor(Product(x, Low(y, k)), Shl(x, k)) else Product(x, Low(y, k))
  {
    LowNext(y, k);
    if Shr(y, k) % 2 == 1 {
      ShlIsMul(1, k);
      DisjointSum(1, Low(y, k), k);
      XorComm(Pow2(k), Low(y, k));
      ProductXorRight(x, Low(y, k), Pow2(k));
      ProductShift(x, k);
    }
  }

  lemma {:induction false} LowNext(y: nat, k: nat)
    ensures Low(y, k + 1) == Low(y, k) + (if Shr(y, k) % 2 == 1 then Pow2(k) else 0)
  {
    if k > 0 { LowNext(y / 2, k - 1); }
  }

  /** Schoolbook multiplication over the low 128 bits of `y`, then one reduction. */
  method MulLoop(x: nat, y: nat) returns (r: nat)
    ensures r == Mul(x, y)
  {
    var res := 0;
    for bit := 0 to 128
      invariant res == Product(x, Low(y, bit))
    {
      ProductLastStep(x, y, bit);
      if And(Shr(y, bit), 1) != 0 {
        res := Xor(res, Shl(x, bit));
      }
      assert And(Shr(y, bit), 1) == Shr(y, bit) % 2 by { AndOnes(Shr(y, bit), 1); }
    }
    r := ReduceLoop(res, MOD);
  }

  method DotLoop(a: nat, b: nat) returns (r: nat)
    ensures r == Dot(a, b)
  {
    r := MulLoop(a, b);
    r := MulLoop(r, INV);
  }

  // ----- the constants as sums of distinct powers

  lemma PowPlus(k: nat, rest: nat)
    requires rest < Pow2(k)
    ensures Pow2(k) + rest == Xor(Pow2(k), rest) < Pow2(k + 1)
  {
    ShlIsMul(1, k);
    DisjointSum(1, rest, k);
  }

  function Sparse(i: nat, j: nat, k: nat, l: nat): nat {
    Xor(Pow2(l), Xor(Pow2(k), Xor(Pow2(j), Pow2(i))))
  }

  lemma SparseSum(i: nat, j: nat, k: nat, l: nat)
    requires i < j < k < l
    ensures Sparse(i, j, k, l) == Pow2(i) + Pow2(j) + Pow2(k) + Pow2(l) < Pow2(l + 1)
  {
    Pow2Monotone(i + 1, j);
    PowPlus(j, Pow2(i));
    Pow2Monotone(j + 1, k);
    PowPlus(k, Pow2(j) + Pow2(i));
    Pow2Monotone(k + 1, l);
    PowPlus(l, Pow2(k) + (Pow2(j) + Pow2(i)));
  }

  lemma ModShape()
    ensures MOD == Xor(Pow2(128), Sparse(0, 121, 126, 127))
    ensures Degree(MOD) == 128
  {
    SparseSum(0, 121, 126, 127);
    PowPlus(128, Sparse(0, 121, 126, 127));
    DegreeUnique(MOD, 128);
  }

  lemma InvShape()
    ensures INV == Xor(Pow2(127), Sparse(0, 114, 121, 124))
    ensures Element(INV)
  {
    SparseSum(0, 114, 121, 124);
    Pow2Monotone(125, 127);
    PowPlus(127, Sparse(0, 114, 121, 124));
  }

  // ----- commutative ring

  lemma ElementsAreRemainders(x: nat)
    requires Element(x)
    ensures Remainder(x, MOD) == x && Low(x, 128) == x
  {
    hide Pow2, Remainder, Low, Degree;
    ModShape();
    LowSmall(x, 128);
    RemainderSmall(x, MOD);
  }

  lemma MulElement(x: nat, y: nat)
    ensures Element(Mul(x, y))
  {
    ModShape();
  }

  lemma DotElement(x: nat, y: nat)
    ensures Element(Dot(x, y))
  {
    MulElement(Mul(x, y), INV);
  }

  lemma AddElement(x: nat, y: nat)
    requires Element(x) && Element(y)
    ensures Element(Add(x, y))
  {
    BitwiseBound(XorOp, x, y, 128);
  }

  lemma MulComm(x: nat, y: nat)
    requires Element(x) && Element(y)
    ensures Mul(x, y) == Mul(y, x)
  {
    ElementsAreRemainders(x);
    ElementsAreRemainders(y);
    ProductComm(x, y);
  }

  lemma MulAssoc(x: nat, y: nat, z: nat)
    requires Element(x) && Element(y) && Element(z)
    ensures Mul(Mul(x, y), z) == Mul(x, Mul(y, z))
  {
    ElementsAreRemainders(y);
    ElementsAreRemainders(z);
    MulElement(y, z);
    ElementsAreRemainders(Mul(y, z));
    calc {
      Mul(Mul(x, y), z);
      { RemainderProduct(Product(x, y), z, MOD); }
      Remainder(Product(Product(x, y), z), MOD);
      { ProductAssoc(x, y, z); ProductComm(x, Product(y, z)); }
      Remainder(Product(Product(y, z), x), MOD);
      { RemainderProduct(Product(y, z), x, MOD); }
      Remainder(Product(Mul(y, z), x), MOD);
      { ProductComm(Mul(y, z), x); }
      Mul(x, Mul(y, z));
    }
  }

  lemma MulDistributes(x: nat, y: nat, z: nat)
    requires Element(x) && Element(y) && Element(z)
    ensures Mul(Add(x, y), z) == Add(Mul(x, z), Mul(y, z))
    ensures Mul(z, Add(x, y)) == Add(Mul(z, x), Mul(z, y))
  {
    ElementsAreRemainders(z);
    ProductXorLeft(x, y, z);
    RemainderXor(Product(x, z), Product(y, z), MOD);
    AddElement(x, y);
    MulComm(Add(x, y), z);
    MulComm(x, z);
    MulComm(y, z);
  }

  lemma OneIsElement()
    ensures Element(1)
  {
    Pow2Monotone(1, 128);
  }

  lemma MulOne(x: nat)
    requires Element(x)
    ensures Mul(x, 1) == x
  {
    ElementsAreRemainders(x);
    OneIsElement();
    ElementsAreRemainders(1);
    ProductOne(x);
  }

  // ----- dot

  lemma DotComm(a: nat, b: nat)
    requires Element(a) && Element(b)
    ensures Dot(a, b) == Dot(b, a)
  {
    MulComm(a, b);
  }

  lemma DotDistributes(a: nat, b: nat, c: nat)
    requires Element(a) && Element(b) && Element(c)
    ensures Dot(Add(a, b), c) == Add(Dot(a, c), Dot(b, c))
    ensures Dot(c, Add(a, b)) == Add(Dot(c, a), Dot(c, b))
  {
    InvShape();
    MulElement(a, c);
    MulElement(b, c);
    MulDistributes(a, b, c);
    MulDistributes(Mul(a, c), Mul(b, c), INV);
    AddElement(a, b);
    DotComm(Add(a, b), c);
    DotComm(a, c);
    DotComm(b, c);
  }

  /** Dot is associative too, so powers of the hash key are well defined. */
  lemma DotAssoc(a: nat, b: nat, c: nat)
    requires Element(a) && Element(b) && Element(c)
    ensures Dot(Dot(a, b), c) == Dot(a, Dot(b, c))
  {
    InvShape();
    var ab, bc := Mul(a, b), Mul(b, c);
    MulElement(a, b);
    MulElement(b, c);
    MulElement(ab, INV);
    MulElement(bc, INV);
    calc {
      Mul(Mul(ab, INV), c);
      { MulAssoc(ab, INV, c); MulComm(INV, c); MulAssoc(ab, c, INV); }
      Mul(Mul(ab, c), INV);
      { MulAssoc(a, b, c); }
      Mul(Mul(a, bc), INV);
      { MulAssoc(a, bc, INV); }
      Mul(a, Mul(bc, INV));
    }
  }

  // ----- x^-128

  lemma CoefficientSparse(i: nat, j: nat, k: nat, l: nat, n: nat)
    requires i < j < k < l
    ensures BitSet(Sparse(i, j, k, l), n) <==> n == i || n == j || n == k || n == l
  {
    BitSetPow2(i, n);
    BitSetPow2(j, n);
    BitSetPow2(k, n);
    BitSetPow2(l, n);
    BitSetXor(Pow2(j), Pow2(i), n);
    BitSetXor(Pow2(k), Xor(Pow2(j), Pow2(i)), n);
    BitSetXor(Pow2(l), Xor(Pow2(k), Xor(Pow2(j), Pow2(i))), n);
  }

  /** Squaring is linear in characteristic two. */
  lemma SquareXor(a: nat, b: nat)
    ensures Product(Xor(a, b), Xor(a, b)) == Xor(Product(a, a), Product(b, b))
  {
    var ab := Product(a, b);
    ProductXorLeft(a, b, Xor(a, b));
    ProductXorRight(a, a, b);
    ProductXorRight(b, a, b);
    ProductComm(b, a);
    XorComm(ab, Product(b, b));
    XorSwapMiddle(Product(a, a), ab, Product(b, b), ab);
    XorSelf(ab);
    XorZero(Xor(Product(a, a), Product(b, b)));
  }

  lemma SquarePow2(k: nat)
    ensures Product(Pow2(k), Pow2(k)) == Pow2(k + k)
  {
    ProductShift(Pow2(k), k);
    Pow2Add(k, k);
  }

  lemma SquareSparse(i: nat, j: nat, k: nat, l: nat)
    ensures Product(Sparse(i, j, k, l), Sparse(i, j, k, l)) == Sparse(2 * i, 2 * j, 2 * k, 2 * l)
  {
    hide Product, Pow2, Xor;
    SquarePow2(i);
    SquarePow2(j);
    SquarePow2(k);
    SquarePow2(l);
    SquareXor(Pow2(j), Pow2(i));
    SquareXor(Pow2(k), Xor(Pow2(j), Pow2(i)));
    SquareXor(Pow2(l), Xor(Pow2(k), Xor(Pow2(j), Pow2(i))));
  }

  /** x^128 reduced: it is also the quotient of x^128 * INV by MOD. */
  const X128: nat := Remainder(Pow2(128), MOD)

  lemma X128Shape()
    ensures X128 == Sparse(0, 121, 126, 127)
    ensures Element(X128)
  {
    hide Pow2, Remainder;
    var s := Sparse(0, 121, 126, 127);
    ModShape();
    SparseSum(0, 121, 126, 127);
    ShlIsMul(1, 0);
    ReduceStep(Pow2(128), MOD, 0);
    assert Xor(Pow2(128), MOD) == s by {
      XorAssoc(Pow2(128), Pow2(128), s);
      XorSelf(Pow2(128));
      XorZero(s);
    }
    RemainderUnique(X128, s, Pow2(128), MOD);
  }

  lemma QuotientTimesMod()
    ensures Product(X128, MOD) == Xor(Shl(Sparse(0, 121, 126, 127), 128), Sparse(0, 242, 252, 254))
  {
    hide Pow2, Remainder, Product, Shl, Sparse;
    var s := Sparse(0, 121, 126, 127);
    X128Shape();
    ModShape();
    ProductXorRight(s, Pow2(128), s);
    ProductShift(s, 128);
    SquareSparse(0, 121, 126, 127);
  }

  /** x^255 + x^252 + x^249 + x^242 + x^128 + 1 */
  predicate InPattern(i: nat) {
    i == 0 || i == 128 || i == 242 || i == 249 || i == 252 || i == 255
  }

  lemma LeftCoefficient(v: nat, i: nat)
    requires v == Xor(Pow2(127), Sparse(0, 114, 121, 124))
    ensures BitSet(Xor(Shl(v, 128), Pow2(0)), i) <==> InPattern(i)
  {
    hide Pow2, Sparse, Shl, Product, Remainder, BitSet, Xor;
    BitSetXor(Shl(v, 128), Pow2(0), i);
    BitSetPow2(0, i);
    BitSetShl(v, 128, i);
    if i >= 128 {
      BitSetXor(Pow2(127), Sparse(0, 114, 121, 124), i - 128);
      BitSetPow2(127, i - 128);
      CoefficientSparse(0, 114, 121, 124, i - 128);
    }
  }

  lemma RightCoefficient(i: nat)
    ensures BitSet(Product(X128, MOD), i) <==> InPattern(i)
  {
    QuotientTimesMod();
    hide Pow2, Sparse, Shl, Product, Remainder, BitSet, Xor;
    var s := Sparse(0, 121, 126, 127);
    BitSetXor(Shl(s, 128), Sparse(0, 242, 252, 254), i);
    BitSetShl(s, 128, i);
    CoefficientSparse(0, 242, 252, 254, i);
    if i >= 128 {
      CoefficientSparse(0, 121, 126, 127, i - 128);
    }
  }

  /** x^128 * INV = 1 modulo MOD. */
  lemma InverseCongruence()
    ensures Congruent(Shl(INV, 128), 1, MOD)
  {
    assert Pow2(0) == 1;
    InvShape();
    hide Pow2, Remainder, Product, Shl;
    forall i: nat ensures BitSet(Xor(Shl(INV, 128), 1), i) == BitSet(Product(X128, MOD), i) {
      LeftCoefficient(INV, i);
      RightCoefficient(i);
    }
    EqualBits(Xor(Shl(INV, 128), 1), Product(X128, MOD));
  }

  /** INV is the inverse of x^128. */
  lemma InverseOfX128()
    ensures Mul(INV, X128) == 1
  {
    hide Pow2, Remainder, Product, Shl;
    X128Shape();
    ElementsAreRemainders(X128);
    OneIsElement();
    ElementsAreRemainders(1);
    InverseCongruence();
    RemainderIff(Shl(INV, 128), 1, MOD);
    ProductShift(INV, 128);
    ProductComm(INV, X128);
    RemainderProduct(Pow2(128), INV, MOD);
  }

  /** Multiplying Dot by x^128 gives back the plain product: Dot(a, b) = a * b * x^-128. */
  lemma DotTimesX128(a: nat, b: nat)
    requires Element(a) && Element(b)
    ensures Mul(Dot(a, b), X128) == Mul(a, b)
  {
    MulElement(a, b);
    InvShape();
    X128Shape();
    MulAssoc(Mul(a, b), INV, X128);
    InverseOfX128();
    MulOne(Mul(a, b));
  }

  /** x^128 is neutral for the dot product. */
  lemma DotOne(a: nat)
    requires Element(a)
    ensures Dot(a, X128) == a
  {
    hide Mul, X128, Pow2;
    X128Shape();
    InvShape();
    MulAssoc(a, X128, INV);
    MulComm(X128, INV);
    InverseOfX128();
    MulOne(a);
  }

  lemma DotZero(a: nat)
    requires Element(a)
    ensures Dot(0, a) == 0
  {
    assert Element(0) by { Pow2Monotone(0, 128); }
    hide Dot, Xor, Pow2;
    DotDistributes(0, 0, a);
    XorSelf(Dot(0, a));
    XorSelf(0);
  }
}

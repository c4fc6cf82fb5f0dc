/** Numbers written with digits of a fixed number of bits, most significant digit first. */
module Radix {
  import opened Bits
  import opened Bytes

  function Value(w: nat, s: seq<nat>): nat {
    if s == [] then 0 else Shl(Value(w, s[..|s| - 1]), w) + s[|s| - 1]
  }

  function Digits(w: nat, v: nat, n: nat): (s: seq<nat>)
    ensures |s| == n && forall i :: 0 <= i < n ==> s[i] < Pow2(w)
    decreases n
  {
    if n == 0 then [] else Digits(w, Shr(v, w), n - 1) + [Low(v, w)]
  }

  ghost predicate AreDigits(w: nat, s: seq<nat>) { forall i :: 0 <= i < |s| ==> s[i] < Pow2(w) }

  lemma {:induction false} DigitsOfValue(w: nat, s: seq<nat>)
    requires AreDigits(w, s)
    ensures Digits(w, Value(w, s), |s|) == s
  {
    if s != [] {
      var init, d := s[..|s| - 1], s[|s| - 1];
      DigitsOfValue(w, init);
      SplitUnique(Value(w, init), d, w);
      assert s == init + [d];
    }
  }

  lemma {:induction false} ShrBound(v: nat, j: nat, k: nat)
    ensures v < Pow2(j + k) <==> Shr(v, j) < Pow2(k)
  {
    if j > 0 { ShrBound(v / 2, j - 1, k); }
  }

  lemma {:induction false} ValueOfDigits(w: nat, v: nat, n: nat)
    requires v < Pow2(w * n)
    ensures Value(w, Digits(w, v, n)) == v
    decreases n
  {
    if n > 0 {
      assert w * n == w + w * (n - 1);
      ShrBound(v, w, w * (n - 1));
      ValueOfDigits(w, Shr(v, w), n - 1);
      SplitJoin(v, w);
      hide Shr, Low, Shl, Pow2;
      assert Digits(w, v, n)[..n - 1] == Digits(w, Shr(v, w), n - 1);
    }
  }

  lemma {:induction false} ValueBound(w: nat, s: seq<nat>)
    requires AreDigits(w, s)
    ensures Value(w, s) < Pow2(w * |s|)
  {
    if s != [] {
      var init, d := s[..|s| - 1], s[|s| - 1];
      ValueBound(w, init);
      assert w * |s| == w + w * (|s| - 1);
      SplitUnique(Value(w, init), d, w);
      ShrBound(Value(w, s), w, w * (|s| - 1));
    }
  }

  lemma ValueAppend(w: nat, s: seq<nat>, d: nat)
    ensures Value(w, s + [d]) == Shl(Value(w, s), w) + d
  {
    assert (s + [d])[..|s|] == s;
  }

  lemma Pow2Of8()
    ensures Pow2(8) == 256
  {}

  lemma BytesAreDigits(s: seq<byte>)
    ensures AreDigits(8, s)
  {
    Pow2Of8();
  }

  /** Binary digits are bits, counted from the other end. */
  lemma {:induction false} ValueBit(s: seq<nat>, i: nat)
    requires AreDigits(1, s)
    ensures BitSet(Value(1, s), i) <==> i < |s| && s[|s| - 1 - i] == 1
    decreases |s|
  {
    if s == [] {
      BitSetZero(i);
    } else {
      var init, d := s[..|s| - 1], s[|s| - 1];
      var v := Value(1, init);
      assert Shl(v, 0) == v && Value(1, s) == 2 * v + d;
      assert d < 2;
      hide Value;
      if i > 0 {
        ValueBit(init, i - 1);
        assert Shr(2 * v + d, i) == Shr(v, i - 1);
      }
    }
  }

  lemma {:induction false} DigitBit(v: nat, n: nat, k: nat)
    requires k < n
    ensures Digits(1, v, n)[k] == if BitSet(v, n - 1 - k) then 1 else 0
    decreases n
  {
    assert Shr(v, 1) == v / 2 && Low(v, 1) == v % 2;
    if k < n - 1 { DigitBit(v / 2, n - 1, k); }
  }
}

/**
POLYVAL, in one go and incrementally (tools/rfc8452.py, polyval and PolyvalIUF; section 3
of RFC 8452).
*/
module Polyval {
  import opened Bits
  import opened Bytes
  import opened Field
  import opened Options

  type Block = s: seq<byte> | |s| == 16 witness seq(16, _ => 0)

  /** S_j = dot(S_{j-1} + X_j, H), starting from `s`. */
  function PolyvalFrom(s: nat, h: nat, xs: seq<nat>): nat
    decreases |xs|
  {
    if xs == [] then s else PolyvalFrom(Dot(Add(s, xs[0]), h), h, xs[1..])
  }

  function PolyvalOf(h: nat, xs: seq<nat>): nat { PolyvalFrom(0, h, xs) }

  method PolyvalLoop(h: nat, xs: seq<nat>) returns (s: nat)
    ensures s == PolyvalOf(h, xs)
  {
    hide Dot, Add;
    s := 0;
    for i := 0 to |xs|
      invariant PolyvalFrom(s, h, xs[i..]) == PolyvalOf(h, xs)
    {
      assert xs[i..][1..] == xs[i + 1..];
      s := DotLoop(Add(s, xs[i]), h);
    }
    assert xs[|xs|..] == [];
  }

  // ----- laws of the batch form

  ghost predicate AllElements(xs: seq<nat>) { forall i :: 0 <= i < |xs| ==> Element(xs[i]) }

  lemma {:induction false} PolyvalFromConcat(s: nat, h: nat, xs: seq<nat>, ys: seq<nat>)
    ensures PolyvalFrom(s, h, xs + ys) == PolyvalFrom(PolyvalFrom(s, h, xs), h, ys)
    decreases |xs|
  {
    hide Dot, Add;
    if xs == [] {
      assert xs + ys == ys;
    } else {
      assert (xs + ys)[1..] == xs[1..] + ys;
      PolyvalFromConcat(Dot(Add(s, xs[0]), h), h, xs[1..], ys);
    }
  }

  lemma {:induction false} PolyvalFromElement(s: nat, h: nat, xs: seq<nat>)
    requires Element(s)
    ensures Element(PolyvalFrom(s, h, xs))
    decreases |xs|
  {
    if xs != [] {
      DotElement(Add(s, xs[0]), h);
      PolyvalFromElement(Dot(Add(s, xs[0]), h), h, xs[1..]);
    }
  }

  function XorLists(xs: seq<nat>, ys: seq<nat>): (zs: seq<nat>)
    requires |xs| == |ys|
    ensures |zs| == |xs|
  {
    seq(|xs|, i requires 0 <= i < |xs| => Xor(xs[i], ys[i]))
  }

  /** POLYVAL is linear: the sum of two runs is the run on the sums. */
  lemma {:induction false} PolyvalLinear(s: nat, t: nat, h: nat, xs: seq<nat>, ys: seq<nat>)
    requires |xs| == |ys| && AllElements(xs) && AllElements(ys)
    requires Element(s) && Element(t) && Element(h)
    ensures PolyvalFrom(Xor(s, t), h, XorLists(xs, ys)) == Xor(PolyvalFrom(s, h, xs), PolyvalFrom(t, h, ys))
    decreases |xs|
  {
    hide Dot, Xor, Element;
    if xs != [] {
      var x, y := Add(s, xs[0]), Add(t, ys[0]);
      AddElement(s, xs[0]);
      AddElement(t, ys[0]);
      DotElement(x, h);
      DotElement(y, h);
      XorSwapMiddle(s, t, xs[0], ys[0]);
      DotDistributes(x, y, h);
      assert XorLists(xs, ys)[1..] == XorLists(xs[1..], ys[1..]);
      PolyvalLinear(Dot(x, h), Dot(y, h), h, xs[1..], ys[1..]);
    }
  }

  /** `x` times the `k`-th power of `h`, in the sense of dot. */
  function TimesPower(x: nat, h: nat, k: nat): nat
    decreases k
  {
    if k == 0 then x else TimesPower(Dot(x, h), h, k - 1)
  }

  function Zeros(n: nat): (zs: seq<nat>)
    ensures |zs| == n && forall i :: 0 <= i < n ==> zs[i] == 0
  {
    seq(n, _ => 0)
  }

  lemma {:induction false} PolyvalZeros(s: nat, h: nat, n: nat)
    ensures PolyvalFrom(s, h, Zeros(n)) == TimesPower(s, h, n)
    decreases n
  {
    hide Dot, Xor;
    if n > 0 {
      XorZero(s);
      assert Zeros(n)[1..] == Zeros(n - 1) && Zeros(n)[0] == 0;
      PolyvalZeros(Dot(s, h), h, n - 1);
    }
  }

  /** The state before a run enters the result once, multiplied by one factor `h` per block. */
  lemma PolyvalState(s: nat, h: nat, xs: seq<nat>)
    requires Element(s) && Element(h) && AllElements(xs)
    ensures PolyvalFrom(s, h, xs) == Xor(TimesPower(s, h, |xs|), PolyvalOf(h, xs))
  {
    var zs := Zeros(|xs|);
    assert Element(0);
    XorZero(s);
    forall i | 0 <= i < |xs| ensures XorLists(zs, xs)[i] == xs[i] { XorZero(xs[i]); }
    assert XorLists(zs, xs) == xs;
    PolyvalLinear(s, 0, h, zs, xs);
    PolyvalZeros(s, h, |xs|);
  }

  /** X_1 * H^s + X_2 * H^(s-1) + ... + X_s * H, as section 3 of RFC 8452 defines POLYVAL. */
  function PolyvalSum(h: nat, xs: seq<nat>): nat {
    if xs == [] then 0 else Xor(TimesPower(xs[0], h, |xs|), PolyvalSum(h, xs[1..]))
  }

  lemma {:induction false} PolyvalIsSum(h: nat, xs: seq<nat>)
    requires Element(h) && AllElements(xs)
    ensures PolyvalOf(h, xs) == PolyvalSum(h, xs)
    decreases |xs|
  {
    hide Dot, Xor;
    if xs != [] {
      XorZero(xs[0]);
      DotElement(xs[0], h);
      PolyvalState(Dot(xs[0], h), h, xs[1..]);
      PolyvalIsSum(h, xs[1..]);
    }
  }

  /** Changing one block by `delta` changes the result by `delta` times a power of `h`. */
  lemma PolyvalOneBlock(h: nat, xs: seq<nat>, x: nat, delta: nat, ys: seq<nat>)
    requires Element(h) && Element(x) && Element(delta) && AllElements(xs) && AllElements(ys)
    ensures PolyvalOf(h, xs + [Xor(x, delta)] + ys)
         == Xor(PolyvalOf(h, xs + [x] + ys), TimesPower(delta, h, |ys| + 1))
  {
    var s := PolyvalOf(h, xs);
    PolyvalFromElement(0, h, xs);
    PolyvalThree(h, xs, x, ys);
    PolyvalThree(h, xs, Xor(x, delta), ys);
    XorAssoc(s, x, delta);
    AddElement(s, x);
    DotDistributes(Add(s, x), delta, h);
    var u, d := Dot(Add(s, x), h), Dot(delta, h);
    DotElement(Add(s, x), h);
    DotElement(delta, h);
    var zs := Zeros(|ys|);
    forall i | 0 <= i < |ys| ensures XorLists(ys, zs)[i] == ys[i] { XorZero(ys[i]); }
    assert XorLists(ys, zs) == ys;
    PolyvalLinear(u, d, h, ys, zs);
    PolyvalZeros(d, h, |ys|);
  }

  /** Under a key with an inverse, no power of the key takes a difference away. */
  lemma {:induction false} PowerKeeps(x: nat, h: nat, inverse: nat, n: nat)
    requires Element(x) && Element(h) && Element(inverse) && Dot(h, inverse) == X128
    requires TimesPower(x, h, n) == 0
    ensures x == 0
    decreases n
  {
    hide Dot, X128;
    if n > 0 {
      DotElement(x, h);
      PowerKeeps(Dot(x, h), h, inverse, n - 1);
      DotAssoc(x, h, inverse);
      DotOne(x);
      DotZero(inverse);
    }
  }

  /** So every change of one block is seen. */
  lemma OneBlockSeen(h: nat, inverse: nat, xs: seq<nat>, x: nat, delta: nat, ys: seq<nat>)
    requires Element(h) && Element(inverse) && Dot(h, inverse) == X128
    requires Element(x) && Element(delta) && delta != 0 && AllElements(xs) && AllElements(ys)
    ensures PolyvalOf(h, xs + [Xor(x, delta)] + ys) != PolyvalOf(h, xs + [x] + ys)
  {
    hide Dot, X128, PolyvalOf, TimesPower;
    PolyvalOneBlock(h, xs, x, delta, ys);
    var before, d := PolyvalOf(h, xs + [x] + ys), TimesPower(delta, h, |ys| + 1);
    if Xor(before, d) == before {
      XorCancel(d, before);
      XorComm(d, before);
      XorSelf(before);
      PowerKeeps(delta, h, inverse, |ys| + 1);
    }
  }

  /** A change of block `x` by `delta`, with `xs` before and `ys` after it, that leaves the result as it was. */
  ghost predicate Unseen(h: nat, xs: seq<nat>, x: nat, delta: nat, ys: seq<nat>) {
    && AllElements(xs) && Element(x) && Element(delta) && delta != 0 && AllElements(ys)
    && PolyvalOf(h, xs + [Xor(x, delta)] + ys) == PolyvalOf(h, xs + [x] + ys)
  }

  ghost predicate IsInverse(h: nat, k: nat) { Element(k) && Dot(h, k) == X128 }

  /** For any key: every change of one block is seen exactly if the key has an inverse. */
  lemma AllSeenIff(h: nat)
    requires Element(h)
    ensures (forall xs, x, delta, ys :: !Unseen(h, xs, x, delta, ys)) <==> exists k :: IsInverse(h, k)
  {
    hide Dot, X128, PolyvalOf;
    if k :| IsInverse(h, k) {
      forall xs, x, delta, ys ensures !Unseen(h, xs, x, delta, ys) {
        if Unseen(h, xs, x, delta, ys) { OneBlockSeen(h, k, xs, x, delta, ys); }
      }
    } else {
      InverseOrAnnihilator(h);
      var delta :| Annihilates(delta, h);
      Annihilated(h, delta);
      assert Unseen(h, [], 0, delta, []);
    }
  }

  lemma Annihilated(h: nat, delta: nat)
    requires Element(h) && Annihilates(delta, h)
    ensures PolyvalOf(h, [] + [Xor(0, delta)] + []) == PolyvalOf(h, [] + [0] + []) && Element(0)
  {
    hide Dot, Xor;
    XorZero(delta);
    XorZero(0);
    DotZero(h);
    assert [] + [delta] + [] == [delta] && [] + [0] + [] == [0] && [delta][1..] == [] && [0][1..] == [];
    assert Element(0) by { Pow2Monotone(0, 128); }
  }

  ghost predicate Annihilates(delta: nat, h: nat) { Element(delta) && delta != 0 && Dot(delta, h) == 0 }

  /** A key without an inverse takes some difference away: the elements are finitely many. */
  lemma InverseOrAnnihilator(h: nat)
    requires Element(h)
    ensures (exists k :: IsInverse(h, k)) || (exists delta :: Annihilates(delta, h))
  {
    hide Dot, X128, Pow2;
    var n := Pow2(128);
    forall x | 0 <= x < n ensures 0 <= Dot(x, h) < n { DotElement(x, h); }
    if x, y :| 0 <= x < y < n && Dot(x, h) == Dot(y, h) {
      AddElement(x, y);
      DotDistributes(x, y, h);
      XorSelf(Dot(x, h));
      if Xor(x, y) == 0 { XorEqual(x, y); }
      assert Annihilates(Xor(x, y), h);
    } else {
      X128Shape();
      var k := Reaches(x => Dot(x, h), n, X128);
      DotComm(h, k);
      assert IsInverse(h, k);
    }
  }

  /** A map of the numbers below `n` into themselves that keeps them apart reaches every one of them. */
  lemma Reaches(f: nat -> nat, n: nat, y: nat) returns (x: nat)
    requires forall i :: 0 <= i < n ==> f(i) < n
    requires forall i, j :: 0 <= i < j < n ==> f(i) != f(j)
    requires y < n
    ensures x < n && f(x) == y
  {
    var image := set i | 0 <= i < n :: f(i);
    ImageSize(f, n);
    BelowSize(n);
    if y !in image {
      assert image <= Below(n) - {y};
      Smaller(image, Below(n) - {y});
    }
    x :| 0 <= x < n && f(x) == y;
  }

  function Below(n: nat): set<nat> { if n == 0 then {} else Below(n - 1) + {n - 1} }

  lemma {:induction false} BelowSize(n: nat)
    ensures |Below(n)| == n && forall i: nat :: i in Below(n) <==> i < n
  {
    if n > 0 { BelowSize(n - 1); }
  }

  lemma {:induction false} ImageSize(f: nat -> nat, n: nat)
    requires forall i, j :: 0 <= i < j < n ==> f(i) != f(j)
    ensures |set i | 0 <= i < n :: f(i)| == n
  {
    if n > 0 {
      ImageSize(f, n - 1);
      var before := set i | 0 <= i < n - 1 :: f(i);
      assert f(n - 1) !in before;
      assert (set i | 0 <= i < n :: f(i)) == before + {f(n - 1)};
    }
  }

  lemma {:induction false} Smaller(a: set<nat>, b: set<nat>)
    requires a <= b
    ensures |a| <= |b|
    decreases |a|
  {
    if x :| x in a { Smaller(a - {x}, b - {x}); }
  }

  lemma PolyvalThree(h: nat, xs: seq<nat>, x: nat, ys: seq<nat>)
    ensures PolyvalOf(h, xs + [x] + ys) == PolyvalFrom(Dot(Add(PolyvalOf(h, xs), x), h), h, ys)
  {
    var s := PolyvalOf(h, xs);
    PolyvalFromConcat(0, h, xs + [x], ys);
    PolyvalFromConcat(0, h, xs, [x]);
    assert PolyvalFrom(s, h, [x]) == PolyvalFrom(Dot(Add(s, x), h), h, []);
  }

  // ----- bytes to blocks

  function RightPad(s: seq<byte>): (r: seq<byte>)
    ensures |r| % 16 == 0 && s <= r && |r| < |s| + 16
    ensures forall i :: |s| <= i < |r| ==> r[i] == 0
  {
    s + seq((16 - |s| % 16) % 16, _ => 0)
  }

  method RightPadLoop(s: seq<byte>) returns (r: seq<byte>)
    ensures r == RightPad(s)
  {
    r := s;
    while |r| % 16 != 0
      invariant s <= r <= RightPad(s)
      decreases |RightPad(s)| - |r|
    {
      r := r + [0];
    }
  }

  /** Sixteen bytes at a time, the last block filled up with zeros. */
  function Blocks(s: seq<byte>): seq<Block> {
    if s == [] then []
    else if |s| < 16 then [RightPad(s)]
    else [s[..16]] + Blocks(s[16..])
  }

  function Elements(s: seq<byte>): (xs: seq<nat>)
    ensures |xs| == |Blocks(s)|
  {
    var bs := Blocks(s);
    seq(|bs|, i requires 0 <= i < |bs| => FromLittle(bs[i]))
  }

  /** Element `i` of a text of whole blocks is its sixteen bytes from `16 * i` on, least significant first. */
  lemma {:induction false} ElementAt(s: seq<byte>, i: nat)
    requires |s| % 16 == 0 && 16 * i < |s|
    ensures 16 * i + 16 <= |s| && |Elements(s)| == |s| / 16
    ensures Elements(s)[i] == FromLittle(s[16 * i..16 * i + 16])
  {
    BlockAt(s, i);
    hide FromLittle;
  }

  lemma {:induction false} BlockAt(s: seq<byte>, i: nat)
    requires |s| % 16 == 0 && 16 * i < |s|
    ensures |Blocks(s)| == |s| / 16 && 16 * i + 16 <= |s| && Blocks(s)[i] == s[16 * i..16 * i + 16]
    decreases |s|
  {
    hide RightPad;
    if |s| > 16 {
      BlockAt(s[16..], if i > 0 then i - 1 else 0);
      if i > 0 { assert s[16..][16 * (i - 1)..16 * i] == s[16 * i..16 * i + 16]; }
    } else {
      assert s[16..] == [] && Blocks([]) == [];
    }
  }

  lemma {:induction false} BlocksConcat(a: seq<byte>, b: seq<byte>)
    requires |a| % 16 == 0
    ensures Blocks(a + b) == Blocks(a) + Blocks(b)
    decreases |a|
  {
    if a == [] {
      assert a + b == b;
    } else {
      assert (a + b)[..16] == a[..16];
      assert (a + b)[16..] == a[16..] + b;
      BlocksConcat(a[16..], b);
    }
  }

  lemma ElementsConcat(a: seq<byte>, b: seq<byte>)
    requires |a| % 16 == 0
    ensures Elements(a + b) == Elements(a) + Elements(b)
  {
    BlocksConcat(a, b);
  }

  /** Padding block by block is padding the whole string. */
  lemma {:induction false} BlocksPad(s: seq<byte>)
    ensures Blocks(RightPad(s)) == Blocks(s)
    decreases |s|
  {
    if s == [] {
    } else if |s| < 16 {
      var p := RightPad(s);
      assert p[..16] == p && p[16..] == [];
    } else {
      PadTail(s);
      var p := RightPad(s);
      assert p[..16] == s[..16];
      BlocksPad(s[16..]);
    }
  }

  lemma PadTail(s: seq<byte>)
    requires |s| >= 16
    ensures RightPad(s)[16..] == RightPad(s[16..])
  {}

  /** b2i: the loop from the most significant byte down. */
  method B2I(s: seq<byte>) returns (res: nat)
    ensures res == FromLittle(s)
  {
    res := 0;
    var i := |s|;
    while i > 0
      invariant 0 <= i <= |s| && res == FromLittle(s[i..])
    {
      i := i - 1;
      assert s[i..][1..] == s[i + 1..];
      assert Pow2(8) == 256;
      DisjointSum(res, s[i], 8);
      ShlIsMul(res, 8);
      res := Or(Shl(res, 8), s[i]);
    }
    assert s[0..] == s;
  }

  /** What digest makes of the final state. */
  function DigestOf(s: nat, nonce: seq<byte>): (r: Block)
    requires |nonce| >= 12
  {
    var b := ToLittle(s, 16);
    seq(12, i requires 0 <= i < 12 => ByteXor(b[i], nonce[i])) + b[12..15] + [b[15] % 128]
  }

  lemma TopFits(m: nat, k: nat)
    requires m < 128
    ensures Shl(m, k) + Pow2(k) <= Pow2(k + 7)
  {
    Pow2Plus2(k);
    Pow2Plus2(k + 2);
    Pow2Plus2(k + 4);
    assert Pow2(k + 7) == 2 * Pow2(k + 6);
    hide Pow2, Shl;
    ShlIsMul(m, k);
    var p := Pow2(k);
    assert m * p + p == (m + 1) * p;
    assert (m + 1) * p <= 128 * p;
  }

  /** Without the bits from `k + 7` on. */
  lemma TopBit(lo: nat, h: nat, m: nat, k: nat)
    requires lo < Pow2(k) && m < 128
    ensures Low(lo + Shl(128 * h + m, k), k + 7) == lo + Shl(m, k)
  {
    TopFits(m, k);
    ShlIsMul(h, 7);
    assert Pow2(7) == 128;
    hide Low, Shl, Pow2, Shr;
    ShlAdd(Shl(h, 7), m, k);
    ShlShl(h, 7, k);
    SplitUnique(h, lo + Shl(m, k), k + 7);
  }

  /** Clearing the top bit of the last byte clears the top bit of the number. */
  lemma ClearTop(x: Block)
    ensures FromLittle(x[..15] + [x[15] % 128]) == Low(FromLittle(x), 127)
  {
    hide Low, Shl, Pow2, FromLittle, Shr;
    var lo, h, m := x[..15], x[15] / 128, x[15] % 128;
    assert x == lo + [x[15]];
    FromLittleSnoc(lo, x[15]);
    FromLittleSnoc(lo, m);
    FromLittleBound(lo);
    TopBit(FromLittle(lo), h, m, 120);
  }

  lemma DigestBytes(s: nat, nonce: seq<byte>)
    requires |nonce| == 12
    ensures var x := XorBytes(ToLittle(s, 16), nonce + [0, 0, 0, 0]);
            DigestOf(s, nonce) == x[..15] + [x[15] % 128]
  {
    hide ToLittle, ByteXor;
    var b := ToLittle(s, 16);
    var x := XorBytes(b, nonce + [0, 0, 0, 0]);
    XorWithZero(b[12]);
    XorWithZero(b[13]);
    XorWithZero(b[14]);
    XorWithZero(b[15]);
    assert x[12..15] == b[12..15] && x[15] == b[15];
    assert x[..12] == DigestOf(s, nonce)[..12];
  }

  lemma XorWithZero(b: byte)
    ensures ByteXor(b, 0) == b && ByteXor(0, b) == b
  {
    XorZero(b);
  }

  /** The digest as a number: the state xored with the nonce, without its top bit. */
  lemma DigestValue(s: nat, nonce: seq<byte>)
    requires Element(s) && |nonce| == 12
    ensures FromLittle(DigestOf(s, nonce)) == Low(Xor(s, FromLittle(nonce)), 127)
  {
    hide Pow2, Low, FromLittle, ToLittle, Xor, DigestOf;
    var b, zeros := ToLittle(s, 16), [0, 0, 0, 0];
    var x := XorBytes(b, nonce + zeros);
    DigestBytes(s, nonce);
    FromToLittle(s, 16);
    FromLittleZeros(nonce, zeros);
    FromLittleXor(b, nonce + zeros);
    ClearTop(x);
  }

  class PolyvalIUF {
    var s: nat
    const h: nat
    const nonce: seq<byte>

    ghost predicate Valid()
      reads this
    {
      Element(s)
    }

    constructor (key: seq<byte>, nonce: seq<byte>)
      ensures Valid() && s == 0 && h == FromLittle(key) && this.nonce == nonce
    {
      s := 0;
      h := FromLittle(key);
      this.nonce := nonce;
    }

    /** The incremental form: each call continues the iteration over its own padded blocks. */
    method Update(inp: seq<byte>)
      requires Valid()
      modifies this
      ensures Valid() && s == PolyvalFrom(old(s), h, Elements(inp))
    {
      hide Elements, Dot, Add, FromLittle, RightPad;
      var i := 0;
      while i < |inp|
        invariant 0 <= i && (i < |inp| ==> i % 16 == 0)
        invariant Valid()
        invariant PolyvalFrom(s, h, if i < |inp| then Elements(inp[i..]) else [])
               == PolyvalFrom(old(s), h, Elements(inp))
        decreases |inp| - i
      {
        var block := if i + 16 <= |inp| then inp[i..i + 16] else inp[i..];
        ElementsStep(inp, i);
        block := RightPadLoop(block);
        var x := B2I(block);
        var s' := DotLoop(Add(s, x), h);
        DotElement(Add(s, x), h);
        s := s';
        i := i + 16;
      }
    }

    /** A nonce of fewer than twelve bytes raises an IndexError. */
    method Digest() returns (d: Option<Block>)
      requires Valid()
      ensures d == if |nonce| >= 12 then Some(DigestOf(s, nonce)) else None
    {
      if |nonce| < 12 { return None; }
      var b := ToLittle(s, 16);
      var r: seq<byte> := b;
      for i := 0 to 12
        invariant |r| == 16 && r[12..] == b[12..]
        invariant forall k :: i <= k < 16 ==> r[k] == b[k]
        invariant forall k :: 0 <= k < i ==> r[k] == ByteXor(b[k], nonce[k])
      {
        r := r[i := ByteXor(r[i], nonce[i])];
      }
      MaskTop(r[15]);
      r := r[15 := And(r[15], 0x7f)];
      assert r[..12] == DigestOf(s, nonce)[..12];
      assert r == DigestOf(s, nonce);
      d := Some(r);
    }
  }

  lemma MaskTop(b: byte)
    ensures And(b, 0x7f) == b % 128
  {
    AndOnes(b, 7);
    ShrIsDiv(b, 7);
    assert Pow2(7) == 128;
  }

  /** One turn of the update loop consumes one element. */
  lemma BlocksFirst(s: seq<byte>)
    requires |s| >= 16
    ensures Blocks(s) == [s[..16]] + Blocks(s[16..]) && RightPad(s[..16]) == s[..16]
    ensures |s| == 16 ==> Blocks(s[16..]) == []
  {}

  lemma BlocksShort(s: seq<byte>)
    requires 0 < |s| < 16
    ensures Blocks(s) == [RightPad(s)] && |RightPad(s)| == 16
  {}

  lemma ElementsStep(inp: seq<byte>, i: nat)
    requires i < |inp|
    ensures var rest := inp[i..];
            var block := if i + 16 <= |inp| then inp[i..i + 16] else inp[i..];
            && |RightPad(block)| == 16
            && Elements(rest)
            == [FromLittle(RightPad(block))] + (if i + 16 < |inp| then Elements(inp[i + 16..]) else [])
  {
    hide FromLittle, RightPad, Blocks;
    var rest := inp[i..];
    if i + 16 <= |inp| {
      assert rest[..16] == inp[i..i + 16] && rest[16..] == inp[i + 16..];
      BlocksFirst(rest);
      assert |inp| == i + 16 ==> inp[i + 16..] == [];
    } else {
      BlocksShort(rest);
    }
  }

  /** Splitting the input at a block boundary does not change the state. */
  lemma UpdateSplit(s: nat, h: nat, a: seq<byte>, b: seq<byte>)
    requires |a| % 16 == 0
    ensures PolyvalFrom(PolyvalFrom(s, h, Elements(a)), h, Elements(b)) == PolyvalFrom(s, h, Elements(a + b))
  {
    ElementsConcat(a, b);
    PolyvalFromConcat(s, h, Elements(a), Elements(b));
  }

  /** Three updates are one batch POLYVAL over the padded pieces. */
  lemma ThreeUpdates(h: nat, ad: seq<byte>, text: seq<byte>, last: Block)
    ensures PolyvalFrom(PolyvalFrom(PolyvalOf(h, Elements(ad)), h, Elements(text)), h, Elements(last))
         == PolyvalOf(h, Elements(RightPad(ad) + RightPad(text) + last))
  {
    BlocksPad(ad);
    BlocksPad(text);
    hide PolyvalFrom, Blocks, RightPad;
    assert RightPad(ad) + RightPad(text) + last == RightPad(ad) + (RightPad(text) + last);
    UpdateSplit(PolyvalOf(h, Elements(ad)), h, RightPad(text), last);
    UpdateSplit(0, h, RightPad(ad), RightPad(text) + last);
  }

  // ----- nothing is lost on the way to the field elements

  lemma {:induction false} BlocksInjective(a: seq<byte>, b: seq<byte>)
    requires |a| % 16 == 0 && |b| % 16 == 0 && Blocks(a) == Blocks(b)
    ensures a == b
    decreases |a|
  {
    if a != [] && b != [] {
      BlocksFirst(a);
      BlocksFirst(b);
      hide Blocks, RightPad;
      assert Blocks(a)[0] == a[..16] && Blocks(a)[1..] == Blocks(a[16..]);
      assert Blocks(b)[0] == b[..16] && Blocks(b)[1..] == Blocks(b[16..]);
      BlocksInjective(a[16..], b[16..]);
      assert a == a[..16] + a[16..] && b == b[..16] + b[16..];
    }
  }

  lemma ElementsInjective(a: seq<byte>, b: seq<byte>)
    requires |a| % 16 == 0 && |b| % 16 == 0 && Elements(a) == Elements(b)
    ensures a == b
  {
    forall i | 0 <= i < |Blocks(a)| ensures Blocks(a)[i] == Blocks(b)[i] {
      assert Elements(a)[i] == Elements(b)[i];
      ToFromLittle(Blocks(a)[i]);
      ToFromLittle(Blocks(b)[i]);
    }
    BlocksInjective(a, b);
  }
}

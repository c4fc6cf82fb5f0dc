/**
What the reference computation in Blowfish amounts to, said without its recursions: the cipher
against its textbook form, the key schedules word by word, and the result byte by byte.
*/
module BlowfishFacts {
  import opened Bits
  import opened Bytes
  import opened Blowfish

  const MODULUS: nat := 0x1_0000_0000

  lemma WordIsMod(x: nat)
    ensures Word(x) == x % MODULUS
  {
    Pow2Of32();
    hide Low, Shl, Shr, Pow2;
    SplitJoin(x, 32);
    ShrIsDiv(x, 32);
    ShlIsMul(Shr(x, 32), 32);
  }

  function FourBytes(a: byte, b: byte, c: byte, d: byte): word {
    ((a * 256 + b) * 256 + c) * 256 + d
  }

  /** Reading the four bytes of a word gives them back. */
  lemma BytesOfWord(a: byte, b: byte, c: byte, d: byte)
    ensures var x := FourBytes(a, b, c, d);
            ByteAt(x, 24) == a && ByteAt(x, 16) == b && ByteAt(x, 8) == c && ByteAt(x, 0) == d
  {
    var x := FourBytes(a, b, c, d);
    ByteIs(x, 0, 1);
    ByteIs(x, 8, 0x100);
    ByteIs(x, 16, 0x1_0000);
    ByteIs(x, 24, 0x100_0000);
    hide ByteAt;
    DivModUnique(x, (a * 256 + b) * 256 + c, d, 0x100);
    DivModUnique(x, a * 256 + b, c * 0x100 + d, 0x1_0000);
    DivModUnique(x, a, b * 0x1_0000 + c * 0x100 + d, 0x100_0000);
    DivModUnique((a * 256 + b) * 256 + c, a * 256 + b, c, 256);
    DivModUnique(a * 256 + b, a, b, 256);
  }

  lemma ByteIs(x: nat, k: nat, p: nat)
    requires (k == 0 && p == 1) || (k == 8 && p == 0x100) || (k == 16 && p == 0x1_0000) || (k == 24 && p == 0x100_0000)
    ensures ByteAt(x, k) == x / p % 256
  {
    Pow2Plus8(0);
    Pow2Plus8(8);
    Pow2Plus8(16);
    assert Pow2(0) == 1;
    hide Low, Shl, Shr, Pow2;
    ShrIsDiv(x, k);
    var y := Shr(x, k);
    SplitJoin(y, 8);
    ShrIsDiv(y, 8);
    ShlIsMul(Shr(y, 8), 8);
  }

  lemma FourBytesBack(w: word)
    ensures FourBytes(ByteAt(w, 24), ByteAt(w, 16), ByteAt(w, 8), ByteAt(w, 0)) == w
  {
    ByteIs(w, 0, 1);
    ByteIs(w, 8, 0x100);
    ByteIs(w, 16, 0x1_0000);
    ByteIs(w, 24, 0x100_0000);
    hide ByteAt;
    DigitsOfWord(w);
  }

  lemma DigitsOfWord(w: word)
    ensures ((w / 0x100_0000 % 256 * 256 + w / 0x1_0000 % 256) * 256 + w / 0x100 % 256) * 256 + w / 1 % 256 == w
  {
    var h := w / 0x100;
    var i := h / 0x100;
    var j := i / 0x100;
    var c, d, e := w % 0x100, h % 0x100, i % 0x100;
    assert w == 0x100 * h + c && h == 0x100 * i + d && i == 0x100 * j + e;
    DivModUnique(w, i, 0x100 * d + c, 0x1_0000);
    DivModUnique(w, j, 0x1_0000 * e + 0x100 * d + c, 0x100_0000);
    assert j < 256;
    DivModUnique(j, 0, j, 256);
  }

  // ----- the cipher

  /** The four bytes of a word, the most significant first, select in the four tables in turn. */
  lemma FeistelBytes(S: seq<word>, a: byte, b: byte, c: byte, d: byte)
    requires |S| == 1024
    ensures Feistel(S, FourBytes(a, b, c, d))
         == (Xor((S[a] + S[256 + b]) % MODULUS, S[512 + c]) + S[768 + d]) % MODULUS
  {
    hide Word, ByteAt, Xor;
    BytesOfWord(a, b, c, d);
    var x, y: nat := S[a], S[256 + b];
    WordIsMod(x + y);
    var u, v: nat := Xor((x + y) % MODULUS, S[512 + c]), S[768 + d];
    WordIsMod(u + v);
  }

  /** Blowfish as it is usually given: sixteen equal rounds, each ending in a swap, the last one undone. */
  function Textbook(b: Box, l: word, r: word, i: nat): (word, word)
    requires b.Valid() && i <= 16
    decreases 16 - i
  {
    if i == 16 then (XorW(r, b.P[17]), XorW(l, b.P[16]))
    else
      var l' := XorW(l, b.P[i]);
      Textbook(b, XorW(r, Feistel(b.S, l')), l', i + 1)
  }

  lemma XorWAssoc(a: word, b: word, c: word)
    ensures XorW(a, XorW(b, c)) == XorW(XorW(a, b), c)
  {
    XorAssoc(a, b, c);
  }

  lemma {:induction false} RoundsTextbook(b: Box, l: word, r: word, k: nat)
    requires b.Valid() && k <= 8
    ensures var (x, y) := Rounds(b, XorW(l, b.P[2 * k]), r, k);
            Textbook(b, l, r, 2 * k) == (XorW(y, b.P[17]), x)
    decreases 8 - k
  {
    hide XorW, Feistel;
    if k < 8 {
      var l0 := XorW(l, b.P[2 * k]);
      var f := Feistel(b.S, l0);
      XorWAssoc(r, f, b.P[2 * k + 1]);
      var r' := XorW(XorW(r, f), b.P[2 * k + 1]);
      var g := Feistel(b.S, r');
      XorWAssoc(l0, g, b.P[2 * k + 2]);
      RoundsTextbook(b, XorW(l0, g), r', k + 1);
      TextbookTwo(b, l, r, 2 * k);
    }
  }

  lemma TextbookTwo(b: Box, l: word, r: word, i: nat)
    requires b.Valid() && i <= 14
    ensures var l' := XorW(l, b.P[i]);
            var r' := XorW(XorW(r, Feistel(b.S, l')), b.P[i + 1]);
            Textbook(b, l, r, i) == Textbook(b, XorW(l', Feistel(b.S, r')), r', i + 2)
  {
    hide XorW, Feistel;
    var l' := XorW(l, b.P[i]);
    assert Textbook(b, l, r, i) == Textbook(b, XorW(r, Feistel(b.S, l')), l', i + 1);
  }

  /** The doubled rounds are the textbook cipher. */
  lemma EncipherIsTextbook(b: Box, l: word, r: word)
    requires b.Valid()
    ensures Encipher(b, l, r) == Textbook(b, l, r, 0)
  {
    hide XorW, Mix, Textbook;
    RoundsTextbook(b, l, r, 0);
  }

  // ----- the key

  /** Four bytes of the key or salt, taken round and round, the first one most significant. */
  lemma StreamWordBytes(data: seq<nat>, off: nat)
    requires off < |data|
    ensures var n := |data|;
            StreamWord(data, off)
            == FourBytes(data[off] % 256, data[(off + 1) % n] % 256,
                          data[(off + 2) % n] % 256, data[(off + 3) % n] % 256)
  {
    var n := |data|;
    assert off % n == off;
    ByteIs(data[off], 0, 1);
    ByteIs(data[(off + 1) % n], 0, 1);
    ByteIs(data[(off + 2) % n], 0, 1);
    ByteIs(data[(off + 3) % n], 0, 1);
    hide ByteAt;
    assert Take(data, off, 0) == 0 && Take(data, off, 1) == ByteAt(data[off], 0);
    assert Take(data, off, 2) == 256 * Take(data, off, 1) + ByteAt(data[(off + 1) % n], 0);
    assert Take(data, off, 3) == 256 * Take(data, off, 2) + ByteAt(data[(off + 2) % n], 0);
  }

  /** A place in a repeated key or salt. */
  function Wrap(x: nat, n: nat): (r: nat)
    requires n > 0
    ensures r < n
  {
    x % n
  }

  lemma WrapSmall(x: nat, n: nat)
    requires x < n
    ensures Wrap(x, n) == x
  {}

  lemma WrapAdd(x: nat, i: nat, n: nat)
    requires n > 0
    ensures Wrap(Wrap(x, n) + i, n) == Wrap(x + i, n)
  {
    var q, r := x / n, x % n;
    var q', r' := (r + i) / n, (r + i) % n;
    assert x == q * n + r && r + i == q' * n + r';
    assert x + i == (q + q') * n + r';
    DivModUnique(x + i, q + q', r', n);
  }

  lemma XorKeyStep(P: seq<word>, key: seq<nat>, i: nat, off: nat)
    requires i < |P| && off < |key|
    ensures XorKey(P, key, i, off)
         == XorKey(P[i := XorW(P[i], StreamWord(key, off))], key, i + 1, Wrap(off + 4, |key|))
  {}

  /** Word `j` of P is xored with word `j` of the repeated key. */
  lemma {:induction false} XorKeyWord(P: seq<word>, key: seq<nat>, i: nat, off: nat, j: nat)
    requires i <= |P| && off < |key| && j < |P|
    ensures XorKey(P, key, i, off)[j]
         == if j < i then P[j] else XorW(P[j], StreamWord(key, Wrap(off + 4 * (j - i), |key|)))
    decreases |P| - i
  {
    if i < |P| {
      XorKeyStep(P, key, i, off);
      hide XorW, StreamWord, XorKey, Wrap;
      var next := P[i := XorW(P[i], StreamWord(key, off))];
      XorKeyWord(next, key, i + 1, Wrap(off + 4, |key|), j);
      WrapSmall(off, |key|);
      if j > i { WrapAdd(off + 4, 4 * (j - i - 1), |key|); }
    }
  }

  // ----- the schedules

  /** Word `i` of the repeated salt; without a salt, zero. */
  function SaltWord(salt: seq<nat>, off: nat, i: nat): word {
    if salt == [] then 0 else StreamWord(salt, Wrap(off + 4 * i, |salt|))
  }

  /** A pair of table words: the pair before, xored with the next two words of the salt, enciphered. */
  function NextPair(b: Box, l: word, r: word, salt: seq<nat>, off: nat, i: nat): (word, word)
    requires b.Valid()
  {
    Encipher(b, XorW(l, SaltWord(salt, off, 2 * i)), XorW(r, SaltWord(salt, off, 2 * i + 1)))
  }

  lemma XorWZero(x: word)
    ensures XorW(x, 0) == x
  {
    XorZero(x);
  }

  lemma StirIsNext(s: Schedule, salt: seq<nat>)
    requires salt != [] ==> s.off < |salt|
    ensures Stir(s, salt).l == XorW(s.l, SaltWord(salt, s.off, 0))
    ensures Stir(s, salt).r == XorW(s.r, SaltWord(salt, s.off, 1))
    ensures salt != [] ==> Stir(s, salt).off == Wrap(s.off + 8, |salt|)
    ensures Stir(s, salt).box == s.box
  {
    hide XorW, StreamWord;
    if salt == [] {
      XorWZero(s.l);
      XorWZero(s.r);
    } else {
      WrapSmall(s.off, |salt|);
      WrapAdd(s.off + 4, 4, |salt|);
    }
  }

  lemma TurnIsNext(s: Schedule, salt: seq<nat>)
    requires s.box.Valid() && (salt != [] ==> s.off < |salt|)
    ensures (Turn(s, salt).l, Turn(s, salt).r) == NextPair(s.box, s.l, s.r, salt, s.off, 0)
    ensures salt != [] ==> Turn(s, salt).off == Wrap(s.off + 8, |salt|)
  {
    hide Encipher, XorW, SaltWord, Stir, Wrap;
    StirIsNext(s, salt);
  }

  lemma NextPairLater(b: Box, l: word, r: word, salt: seq<nat>, off: nat, i: nat)
    requires b.Valid()
    ensures salt != [] ==> NextPair(b, l, r, salt, Wrap(off + 8, |salt|), i) == NextPair(b, l, r, salt, off, i + 1)
    ensures salt == [] ==> forall o :: NextPair(b, l, r, salt, o, i) == NextPair(b, l, r, salt, off, i + 1)
  {
    hide Encipher, XorW, StreamWord, Wrap;
    if salt != [] {
      WrapAdd(off + 8, 4 * (2 * i), |salt|);
      WrapAdd(off + 8, 4 * (2 * i + 1), |salt|);
    }
  }

  lemma FillPStep(s: Schedule, salt: seq<nat>, i: nat)
    requires s.box.Valid() && (salt != [] ==> s.off < |salt|) && i <= 9
    ensures i == 9 ==> FillP(s, salt, i) == s
    ensures i < 9 ==> FillP(s, salt, i) == FillP(StoreP(Turn(s, salt), i), salt, i + 1)
  {
    hide Turn, StoreP;
  }

  lemma TurnOff(s: Schedule, salt: seq<nat>, i: nat)
    requires s.box.Valid() && salt != [] && s.off < |salt| && i < 9
    ensures StoreP(Turn(s, salt), i).off == Wrap(s.off + 8, |salt|)
  {
    hide Turn, Wrap, NextPair;
    TurnIsNext(s, salt);
  }

  lemma {:induction false} FillPOff(s: Schedule, salt: seq<nat>, i: nat, left: nat)
    requires s.box.Valid() && salt != [] && s.off < |salt| && i + left == 9
    ensures FillP(s, salt, i).off == Wrap(s.off + 8 * left, |salt|)
    decreases left
  {
    hide Turn, Wrap, FillP, StoreP;
    FillPStep(s, salt, i);
    if left > 0 {
      TurnOff(s, salt, i);
      FillPOff(StoreP(Turn(s, salt), i), salt, i + 1, left - 1);
      WrapAdd(s.off + 8, 8 * (left - 1), |salt|);
    } else {
      WrapSmall(s.off, |salt|);
    }
  }

  lemma {:induction false} FillPKeeps(s: Schedule, salt: seq<nat>, i: nat)
    requires s.box.Valid() && (salt != [] ==> s.off < |salt|) && i <= 9
    ensures var t := FillP(s, salt, i);
            && t.box.S == s.box.S && t.box.P[..2 * i] == s.box.P[..2 * i]
            && (i < 9 ==> t.l == t.box.P[16] && t.r == t.box.P[17])
    decreases 9 - i
  {
    hide Turn;
    if i < 9 {
      var u := StoreP(Turn(s, salt), i);
      FillPKeeps(u, salt, i + 1);
      var t := FillP(u, salt, i + 1);
      assert t.box.P[..2 * i] == t.box.P[..2 * i + 2][..2 * i] == u.box.P[..2 * i + 2][..2 * i];
      assert u.box.P[..2 * i] == s.box.P[..2 * i];
    }
  }

  lemma StorePIs(s: Schedule, salt: seq<nat>, i: nat)
    requires s.box.Valid() && (salt != [] ==> s.off < |salt|) && i < 9
    ensures var u := StoreP(Turn(s, salt), i);
            && u.l == Turn(s, salt).l && u.r == Turn(s, salt).r && u.off == Turn(s, salt).off
            && u.box.S == s.box.S && u.box.P[2 * i + 2..] == s.box.P[2 * i + 2..]
            && u.box.P[..2 * i + 2][2 * i] == u.l && u.box.P[..2 * i + 2][2 * i + 1] == u.r
  {
    hide Turn;
  }

  /** Pair `j` of P comes from the tables that are new up to there and old from there on. */
  lemma {:induction false} FillPPair(s: Schedule, salt: seq<nat>, i: nat, j: nat)
    requires s.box.Valid() && (salt != [] ==> s.off < |salt|) && i <= j < 9
    ensures var p := FillP(s, salt, i).box.P;
            var mid := Box(p[..2 * j] + s.box.P[2 * j..], s.box.S);
            var (l, r) := if j == i then (s.l, s.r) else (p[2 * j - 2], p[2 * j - 1]);
            (p[2 * j], p[2 * j + 1]) == NextPair(mid, l, r, salt, s.off, j - i)
    decreases j - i
  {
    hide Turn, NextPair, Wrap, FillP, StoreP;
    TurnIsNext(s, salt);
    FillPStep(s, salt, i);
    StorePIs(s, salt, i);
    var u := StoreP(Turn(s, salt), i);
    FillPKeeps(u, salt, i + 1);
    var p := FillP(s, salt, i).box.P;
    assert p[2 * i] == p[..2 * i + 2][2 * i] && p[2 * i + 1] == p[..2 * i + 2][2 * i + 1];
    if j == i {
      FillPKeeps(s, salt, i);
      assert p[..2 * i] + s.box.P[2 * i..] == s.box.P;
    } else {
      FillPPair(u, salt, i + 1, j);
      assert p[..2 * j] + u.box.P[2 * j..] == p[..2 * j] + s.box.P[2 * j..];
      var mid := Box(p[..2 * j] + s.box.P[2 * j..], s.box.S);
      NextPairLater(mid, p[2 * j - 2], p[2 * j - 1], salt, s.off, j - i - 1);
    }
  }

  lemma {:induction false} FillSKeeps(s: Schedule, salt: seq<nat>, i: nat)
    requires s.box.Valid() && (salt != [] ==> s.off < |salt|) && i <= 512
    ensures var t := FillS(s, salt, i); t.box.P == s.box.P && t.box.S[..2 * i] == s.box.S[..2 * i]
    decreases 512 - i
  {
    hide Turn;
    if i < 512 {
      var u := StoreS(Turn(s, salt), i);
      FillSKeeps(u, salt, i + 1);
      var t := FillS(s, salt, i);
      assert t.box.S[..2 * i] == t.box.S[..2 * i + 2][..2 * i] == u.box.S[..2 * i + 2][..2 * i];
      assert u.box.S[..2 * i] == s.box.S[..2 * i];
    }
  }

  lemma FillSStep(s: Schedule, salt: seq<nat>, i: nat)
    requires s.box.Valid() && (salt != [] ==> s.off < |salt|) && i < 512
    ensures FillS(s, salt, i) == FillS(StoreS(Turn(s, salt), i), salt, i + 1)
  {
    hide Turn, StoreS;
  }

  lemma StoreSIs(s: Schedule, salt: seq<nat>, i: nat)
    requires s.box.Valid() && (salt != [] ==> s.off < |salt|) && i < 512
    ensures var u := StoreS(Turn(s, salt), i);
            && u.l == Turn(s, salt).l && u.r == Turn(s, salt).r && u.off == Turn(s, salt).off
            && u.box.P == s.box.P && u.box.S[2 * i + 2..] == s.box.S[2 * i + 2..]
            && u.box.S[..2 * i + 2][2 * i] == u.l && u.box.S[..2 * i + 2][2 * i + 1] == u.r
  {
    hide Turn;
  }

  lemma {:induction false} FillSPair(s: Schedule, salt: seq<nat>, i: nat, j: nat)
    requires s.box.Valid() && (salt != [] ==> s.off < |salt|) && i <= j < 512
    ensures var q := FillS(s, salt, i).box.S;
            var mid := Box(s.box.P, q[..2 * j] + s.box.S[2 * j..]);
            var (l, r) := if j == i then (s.l, s.r) else (q[2 * j - 2], q[2 * j - 1]);
            (q[2 * j], q[2 * j + 1]) == NextPair(mid, l, r, salt, s.off, j - i)
    decreases j - i
  {
    hide Turn, NextPair, Wrap, FillS, StoreS;
    TurnIsNext(s, salt);
    FillSStep(s, salt, i);
    StoreSIs(s, salt, i);
    var u := StoreS(Turn(s, salt), i);
    FillSKeeps(u, salt, i + 1);
    var q := FillS(s, salt, i).box.S;
    assert q[2 * i] == q[..2 * i + 2][2 * i] && q[2 * i + 1] == q[..2 * i + 2][2 * i + 1];
    if j == i {
      FillSKeeps(s, salt, i);
      assert q[..2 * i] + s.box.S[2 * i..] == s.box.S;
    } else {
      FillSPair(u, salt, i + 1, j);
      assert q[..2 * j] + u.box.S[2 * j..] == q[..2 * j] + s.box.S[2 * j..];
      var mid := Box(s.box.P, q[..2 * j] + s.box.S[2 * j..]);
      NextPairLater(mid, q[2 * j - 2], q[2 * j - 1], salt, s.off, j - i - 1);
    }
  }

  /** The tables of a schedule, all words in a row: P and then S. */
  function InARow(b: Box): seq<word> { b.P + b.S }

  function BoxOf(ws: seq<word>): (b: Box)
    requires |ws| == 1042
    ensures b.Valid() && InARow(b) == ws
  {
    Box(ws[..18], ws[18..])
  }

  /** The tables when pair `j` is made: new words before it and, from it on, those that the key was xored into. */
  function Blend(made: Box, b: Box, key: seq<nat>, j: nat): (mid: Box)
    requires made.Valid() && b.Valid() && key != [] && j < 521
    ensures mid.Valid()
  {
    BoxOf(InARow(made)[..2 * j] + InARow(b.(P := XorKey(b.P, key, 0, 0)))[2 * j..])
  }

  /**
  A schedule, pair by pair through all 1042 words: each pair is the pair before (at first
  zero), xored with the next two words of the repeated salt, enciphered under the tables as
  they are at that point.
  */
  lemma ExpandPair(b: Box, salt: seq<nat>, key: seq<nat>, j: nat)
    requires b.Valid() && key != [] && j < 521
    ensures var made := Expand(b, salt, key);
            var ws := InARow(made);
            var (l, r) := if j == 0 then (0, 0) else (ws[2 * j - 2], ws[2 * j - 1]);
            (ws[2 * j], ws[2 * j + 1]) == NextPair(Blend(made, b, key, j), l, r, salt, 0, j)
  {
    hide FillP, FillS, XorKey, NextPair, Wrap;
    var s := Schedule(b.(P := XorKey(b.P, key, 0, 0)), 0, 0, 0);
    var t := FillP(s, salt, 0);
    FillPKeeps(s, salt, 0);
    var made := Expand(b, salt, key);
    FillSKeeps(t, salt, 0);
    if j < 9 {
      FillPPair(s, salt, 0, j);
      BlendInP(made, b, key, j);
    } else {
      FillSPair(t, salt, 0, j - 9);
      BlendInS(made, b, key, j);
      if salt != [] { FillPOff(s, salt, 0, 9); }
      SkipP(Blend(made, b, key, j), InARow(made)[2 * j - 2], InARow(made)[2 * j - 1], salt, t.off, j - 9);
    }
  }

  lemma BlendInP(made: Box, b: Box, key: seq<nat>, j: nat)
    requires made.Valid() && b.Valid() && key != [] && j < 9
    ensures Blend(made, b, key, j) == Box(made.P[..2 * j] + XorKey(b.P, key, 0, 0)[2 * j..], b.S)
  {
    hide XorKey;
    var ws := InARow(made)[..2 * j] + InARow(b.(P := XorKey(b.P, key, 0, 0)))[2 * j..];
    assert ws[..18] == made.P[..2 * j] + XorKey(b.P, key, 0, 0)[2 * j..];
    assert ws[18..] == b.S;
  }

  lemma BlendInS(made: Box, b: Box, key: seq<nat>, j: nat)
    requires made.Valid() && b.Valid() && key != [] && 9 <= j < 521
    ensures Blend(made, b, key, j) == Box(made.P, made.S[..2 * j - 18] + b.S[2 * j - 18..])
  {
    hide XorKey;
    var ws := InARow(made)[..2 * j] + InARow(b.(P := XorKey(b.P, key, 0, 0)))[2 * j..];
    assert ws[..18] == made.P;
    assert ws[18..] == made.S[..2 * j - 18] + b.S[2 * j - 18..];
  }

  /** The salt is not started over between P and S. */
  lemma SkipP(b: Box, l: word, r: word, salt: seq<nat>, off: nat, i: nat)
    requires b.Valid() && (salt != [] ==> off == Wrap(72, |salt|))
    ensures NextPair(b, l, r, salt, off, i) == NextPair(b, l, r, salt, 0, i + 9)
  {
    hide Encipher, XorW, StreamWord, Wrap;
    if salt != [] {
      WrapAdd(72, 4 * (2 * i), |salt|);
      WrapAdd(72, 4 * (2 * i + 1), |salt|);
    }
  }

  /** The rekeying rounds, from the other end: password first, then salt. */
  lemma {:induction false} RekeyFirst(b: Box, password: seq<nat>, salt: seq<nat>, n: nat)
    requires b.Valid() && password != [] && salt != []
    ensures Rekey(b, password, salt, 0) == b
    ensures Rekey(b, password, salt, n + 1) == Rekey(Expand(Expand(b, [], password), [], salt), password, salt, n)
  {
    hide Expand;
    if n > 0 { RekeyFirst(b, password, salt, n - 1); }
  }

  // ----- the answer

  /** Four result bytes are one word, the most significant first. */
  lemma {:induction false} BigEndianValue(ws: seq<word>, i: nat)
    requires i < |ws|
    ensures var bs := BigEndian(ws);
            FourBytes(bs[4 * i], bs[4 * i + 1], bs[4 * i + 2], bs[4 * i + 3]) == ws[i]
    decreases |ws|
  {
    hide ByteAt, FourBytes;
    if i < |ws| - 1 { BigEndianValue(ws[..|ws| - 1], i); } else { FourBytesBack(ws[i]); }
  }

  function EncipherTimes(b: Box, l: word, r: word, n: nat): (word, word)
    requires b.Valid()
    decreases n
  {
    if n == 0 then (l, r)
    else
      var (x, y) := Encipher(b, l, r);
      EncipherTimes(b, x, y, n - 1)
  }

  lemma PairsPair(b: Box, c: seq<word>, j: nat)
    requires b.Valid() && |c| == 6 && j < 3
    ensures var r := Pairs(b, c, 0); (r[2 * j], r[2 * j + 1]) == Encipher(b, c[2 * j], c[2 * j + 1])
  {
    hide Encipher;
    var (x0, y0) := Encipher(b, c[0], c[1]);
    var (x1, y1) := Encipher(b, c[2], c[3]);
    var (x2, y2) := Encipher(b, c[4], c[5]);
    var c1 := SetPair(c, 0, x0, y0);
    var c2 := SetPair(c1, 1, x1, y1);
    assert Pairs(b, c, 0) == Pairs(b, c1, 1) == Pairs(b, c2, 2) == Pairs(b, SetPair(c2, 2, x2, y2), 3);
  }

  lemma {:induction false} TimesLast(b: Box, l: word, r: word, n: nat)
    requires b.Valid()
    ensures var (x, y) := EncipherTimes(b, l, r, n); EncipherTimes(b, l, r, n + 1) == Encipher(b, x, y)
    decreases n
  {
    hide Encipher;
    var (x, y) := Encipher(b, l, r);
    if n > 0 { TimesLast(b, x, y, n - 1); }
  }

  lemma {:induction false} RepeatPair(b: Box, c: seq<word>, n: nat, j: nat)
    requires b.Valid() && |c| == 6 && j < 3
    ensures var r := Repeat(b, c, n); (r[2 * j], r[2 * j + 1]) == EncipherTimes(b, c[2 * j], c[2 * j + 1], n)
  {
    hide Encipher, Pairs;
    if n > 0 {
      RepeatPair(b, c, n - 1, j);
      PairsPair(b, Repeat(b, c, n - 1), j);
      TimesLast(b, c[2 * j], c[2 * j + 1], n - 1);
    }
  }

  /** The text that is enciphered, four characters at a time. */
  function MagicText(i: nat): (t: string)
    requires i < 6
    ensures |t| == 4
  {
    match i
    case 0 => "Orph"
    case 1 => "eanB"
    case 2 => "ehol"
    case 3 => "derS"
    case 4 => "cryD"
    case 5 => "oubt"
  }

  function MagicWord(i: nat): nat
    requires i < 6
  {
    var t := MagicText(i);
    ((t[0] as nat * 256 + t[1] as nat) * 256 + t[2] as nat) * 256 + t[3] as nat
  }

  lemma MagicIsText(i: nat)
    requires i < 6
    ensures MAGIC[i] == MagicWord(i)
  {
    match i
    case 0 => case 1 => case 2 => case 3 => case 4 => case 5 =>
  }

  /** The tables with which the text is enciphered. */
  function FinalBox(start: Box, password: seq<nat>, salt: seq<nat>, rounds: nat): (b: Box)
    requires start.Valid() && password != [] && salt != []
    ensures b.Valid()
  {
    Rekey(Expand(start, salt, password), password, salt, rounds)
  }

  lemma HashLength(start: Box, password: seq<nat>, salt: seq<nat>, logRounds: int)
    requires start.Valid() && 4 <= logRounds <= 31 && |salt| == 16 && password != []
    ensures Crypt(start, password, salt, logRounds).Hashed? && |Crypt(start, password, salt, logRounds).bytes| == 24
  {
    hide Rekey, Expand, Repeat, BigEndian, Pow2;
  }

  /** A hash: each of the three pairs of words of the text, enciphered 64 times, most significant byte first. */
  lemma HashWords(start: Box, password: seq<nat>, salt: seq<nat>, logRounds: int, bs: seq<byte>, j: nat)
    requires start.Valid() && password != [] && salt != [] && |bs| == 24 && j < 3 && logRounds >= 0
    requires Crypt(start, password, salt, logRounds) == Hashed(bs)
    ensures (FourBytes(bs[8 * j], bs[8 * j + 1], bs[8 * j + 2], bs[8 * j + 3]),
             FourBytes(bs[8 * j + 4], bs[8 * j + 5], bs[8 * j + 6], bs[8 * j + 7]))
         == EncipherTimes(FinalBox(start, password, salt, Pow2(logRounds)), MAGIC[2 * j], MAGIC[2 * j + 1], 64)
  {
    hide Rekey, Expand, Repeat, BigEndian, FourBytes, EncipherTimes, Pow2;
    var b := FinalBox(start, password, salt, Pow2(logRounds));
    RepeatPair(b, MAGIC, 64, j);
    var ws := Repeat(b, MAGIC, 64);
    BigEndianValue(ws, 2 * j);
    BigEndianValue(ws, 2 * j + 1);
  }

  /** Which inputs are refused, and in which order. */
  lemma Refused(start: Box, password: seq<nat>, salt: seq<nat>, logRounds: int)
    requires start.Valid()
    ensures Crypt(start, password, salt, logRounds) == BadRounds <==> !(4 <= logRounds < 32)
    ensures Crypt(start, password, salt, logRounds) == BadSaltLength <==> 4 <= logRounds < 32 && |salt| != 16
    ensures Crypt(start, password, salt, logRounds) == EmptyPassword <==>
      4 <= logRounds < 32 && |salt| == 16 && password == []
  {
    hide Rekey, Expand, Repeat, BigEndian, Pow2;
  }
}

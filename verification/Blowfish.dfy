/**
The Blowfish cipher and the bcrypt key schedule with 32-bit wrap-around arithmetic: the
computation that tools/bcrypt.py sets out to perform.
*/
module Blowfish {
  import opened Bits
  import opened Bytes

  type word = x: nat | x < 0x1_0000_0000

  /** The low 32 bits. */
  function Word(x: nat): word {
    Pow2Of32();
    Low(x, 32)
  }

  function Words(xs: seq<nat>): (ws: seq<word>)
    ensures |ws| == |xs| && forall i :: 0 <= i < |xs| ==> ws[i] == Word(xs[i])
  {
    seq(|xs|, i requires 0 <= i < |xs| => Word(xs[i]))
  }

  function AddW(a: word, b: word): word { Word(a + b) }

  function XorW(a: word, b: word): word {
    Pow2Of32();
    BitwiseBound(XorOp, a, b, 32);
    Xor(a, b)
  }

  /** Eight bits of `x` from position `k` up. */
  function ByteAt(x: nat, k: nat): byte {
    assert Pow2(8) == 256;
    Low(Shr(x, k), 8)
  }

  /** The key-dependent tables. */
  datatype Box = Box(P: seq<word>, S: seq<word>) {
    predicate Valid() { |P| == 18 && |S| == 1024 }
  }

  // ----- the cipher

  function Feistel(S: seq<word>, x: word): word
    requires |S| == 1024
  {
    AddW(XorW(AddW(S[ByteAt(x, 24)], S[256 + ByteAt(x, 16)]), S[512 + ByteAt(x, 8)]), S[768 + ByteAt(x, 0)])
  }

  /** What one half round adds to the other half. */
  function Mix(b: Box, x: word, i: nat): word
    requires b.Valid() && i < 18
  {
    XorW(Feistel(b.S, x), b.P[i])
  }

  /** The double rounds from number `k` on; there are eight. */
  function Rounds(b: Box, l: word, r: word, k: nat): (word, word)
    requires b.Valid() && k <= 8
    decreases 8 - k
  {
    if k == 8 then (l, r)
    else
      var r' := XorW(r, Mix(b, l, 2 * k + 1));
      var l' := XorW(l, Mix(b, r', 2 * k + 2));
      Rounds(b, l', r', k + 1)
  }

  function Encipher(b: Box, l: word, r: word): (word, word)
    requires b.Valid()
  {
    var (x, y) := Rounds(b, XorW(l, b.P[0]), r, 0);
    (XorW(y, b.P[17]), x)
  }

  /** The first `k` double rounds, backwards. */
  function Unround(b: Box, l: word, r: word, k: nat): (word, word)
    requires b.Valid() && k <= 8
    decreases k
  {
    if k == 0 then (l, r)
    else
      var l' := XorW(l, Mix(b, r, 2 * k));
      var r' := XorW(r, Mix(b, l', 2 * k - 1));
      Unround(b, l', r', k - 1)
  }

  function Decipher(b: Box, l: word, r: word): (word, word)
    requires b.Valid()
  {
    var (x, y) := Unround(b, r, XorW(l, b.P[17]), 8);
    (XorW(x, b.P[0]), y)
  }

  lemma XorWCancel(a: word, b: word)
    ensures XorW(XorW(a, b), b) == a
  {
    XorCancel(a, b);
  }

  lemma {:induction false} UnroundRounds(b: Box, l: word, r: word, k: nat)
    requires b.Valid() && k <= 8
    ensures var (x, y) := Rounds(b, l, r, k); Unround(b, x, y, 8) == Unround(b, l, r, k)
    decreases 8 - k
  {
    hide XorW, Mix;
    if k < 8 {
      var r' := XorW(r, Mix(b, l, 2 * k + 1));
      var l' := XorW(l, Mix(b, r', 2 * k + 2));
      UnroundRounds(b, l', r', k + 1);
      XorWCancel(l, Mix(b, r', 2 * k + 2));
      XorWCancel(r, Mix(b, l, 2 * k + 1));
    }
  }

  lemma {:induction false} RoundsUnround(b: Box, l: word, r: word, k: nat)
    requires b.Valid() && k <= 8
    ensures var (x, y) := Unround(b, l, r, k); Rounds(b, x, y, 0) == Rounds(b, l, r, k)
    decreases k
  {
    hide XorW, Mix;
    if k > 0 {
      var l' := XorW(l, Mix(b, r, 2 * k));
      var r' := XorW(r, Mix(b, l', 2 * k - 1));
      RoundsUnround(b, l', r', k - 1);
      XorWCancel(l, Mix(b, r, 2 * k));
      XorWCancel(r, Mix(b, l', 2 * k - 1));
    }
  }

  lemma DecipherEncipher(b: Box, l: word, r: word)
    requires b.Valid()
    ensures var (x, y) := Encipher(b, l, r); Decipher(b, x, y) == (l, r)
  {
    hide XorW, Mix;
    var l0 := XorW(l, b.P[0]);
    assert Unround(b, l0, r, 0) == (l0, r);
    hide Rounds, Unround;
    UnroundRounds(b, l0, r, 0);
    XorWCancel(Rounds(b, l0, r, 0).1, b.P[17]);
    XorWCancel(l, b.P[0]);
  }

  lemma EncipherDecipher(b: Box, l: word, r: word)
    requires b.Valid()
    ensures var (x, y) := Decipher(b, l, r); Encipher(b, x, y) == (l, r)
  {
    hide XorW, Mix;
    var r0 := XorW(l, b.P[17]);
    assert Rounds(b, r, r0, 8) == (r, r0);
    hide Rounds, Unround;
    RoundsUnround(b, r, r0, 8);
    XorWCancel(Unround(b, r, r0, 8).0, b.P[0]);
    XorWCancel(l, b.P[17]);
  }

  /** For fixed tables the cipher is a permutation of word pairs. */
  lemma EncipherPermutes(b: Box, l: word, r: word)
    requires b.Valid()
    ensures var (x, y) := Encipher(b, l, r); Decipher(b, x, y) == (l, r)
    ensures var (x, y) := Decipher(b, l, r); Encipher(b, x, y) == (l, r)
  {
    DecipherEncipher(b, l, r);
    EncipherDecipher(b, l, r);
  }

  lemma EncipherInjective(b: Box, l: word, r: word, l': word, r': word)
    requires b.Valid() && Encipher(b, l, r) == Encipher(b, l', r')
    ensures l == l' && r == r'
  {
    hide Encipher, Decipher;
    DecipherEncipher(b, l, r);
    DecipherEncipher(b, l', r');
  }

  // ----- the key schedule

  /** The first `k` bytes of `data`, read cyclically from `off`, as a big-endian number. */
  function Take(data: seq<nat>, off: nat, k: nat): nat
    requires off < |data|
  {
    if k == 0 then 0 else 256 * Take(data, off, k - 1) + ByteAt(data[(off + k - 1) % |data|], 0)
  }

  lemma {:induction false} TakeBound(data: seq<nat>, off: nat, k: nat)
    requires off < |data|
    ensures Take(data, off, k) < Pow2(8 * k)
  {
    if k > 0 {
      TakeBound(data, off, k - 1);
      Pow2Plus8(8 * (k - 1));
    }
  }

  function StreamWord(data: seq<nat>, off: nat): word
    requires off < |data|
  {
    TakeBound(data, off, 4);
    Pow2Of32();
    Take(data, off, 4)
  }

  /** Every P word from `i` on, xored with the next word of the key. */
  function XorKey(P: seq<word>, key: seq<nat>, i: nat, off: nat): (r: seq<word>)
    requires i <= |P| && off < |key|
    ensures |r| == |P|
    decreases |P| - i
  {
    if i == |P| then P
    else XorKey(P[i := XorW(P[i], StreamWord(key, off))], key, i + 1, (off + 4) % |key|)
  }

  /** The schedule in progress: the tables, the running block and the place in the salt. */
  datatype Schedule = Schedule(box: Box, l: word, r: word, off: nat)

  /** Fold the next eight salt bytes into the block; with no salt, leave it. */
  function Stir(s: Schedule, salt: seq<nat>): Schedule
    requires salt != [] ==> s.off < |salt|
  {
    if salt == [] then s
    else
      var off := (s.off + 4) % |salt|;
      s.(l := XorW(s.l, StreamWord(salt, s.off)), r := XorW(s.r, StreamWord(salt, off)), off := (off + 4) % |salt|)
  }

  function Turn(s: Schedule, salt: seq<nat>): (t: Schedule)
    requires s.box.Valid() && (salt != [] ==> s.off < |salt|)
    ensures t.box == s.box && (salt != [] ==> t.off < |salt|)
  {
    var u := Stir(s, salt);
    var (l, r) := Encipher(s.box, u.l, u.r);
    u.(l := l, r := r)
  }

  function SetPair(ws: seq<word>, i: nat, x: word, y: word): (r: seq<word>)
    requires 2 * i + 1 < |ws|
    ensures |r| == |ws|
  {
    ws[2 * i := x][2 * i + 1 := y]
  }

  function StoreP(s: Schedule, i: nat): (t: Schedule)
    requires s.box.Valid() && i < 9
    ensures t.box.Valid() && t.off == s.off
  {
    s.(box := s.box.(P := SetPair(s.box.P, i, s.l, s.r)))
  }

  function StoreS(s: Schedule, i: nat): (t: Schedule)
    requires s.box.Valid() && i < 512
    ensures t.box.Valid() && t.off == s.off
  {
    s.(box := s.box.(S := SetPair(s.box.S, i, s.l, s.r)))
  }

  function FillP(s: Schedule, salt: seq<nat>, i: nat): (t: Schedule)
    requires s.box.Valid() && (salt != [] ==> s.off < |salt|) && i <= 9
    ensures t.box.Valid() && (salt != [] ==> t.off < |salt|)
    decreases 9 - i
  {
    if i == 9 then s else FillP(StoreP(Turn(s, salt), i), salt, i + 1)
  }

  function FillS(s: Schedule, salt: seq<nat>, i: nat): (t: Schedule)
    requires s.box.Valid() && (salt != [] ==> s.off < |salt|) && i <= 512
    ensures t.box.Valid()
    decreases 512 - i
  {
    if i == 512 then s else FillS(StoreS(Turn(s, salt), i), salt, i + 1)
  }

  /** The enhanced key schedule; an empty salt gives the plain one. */
  function Expand(b: Box, salt: seq<nat>, key: seq<nat>): (r: Box)
    requires b.Valid() && key != []
    ensures r.Valid()
  {
    FillS(FillP(Schedule(b.(P := XorKey(b.P, key, 0, 0)), 0, 0, 0), salt, 0), salt, 0).box
  }

  // ----- the plain schedule is the enhanced one with an all-zero salt

  lemma {:induction false} TakeZeros(data: seq<nat>, off: nat, k: nat)
    requires off < |data| && forall i :: 0 <= i < |data| ==> data[i] == 0
    ensures Take(data, off, k) == 0
  {
    if k > 0 {
      TakeZeros(data, off, k - 1);
      LowSmall(0, 8);
    }
  }

  lemma StreamZeros(data: seq<nat>, off: nat, x: word)
    requires off < |data| && forall i :: 0 <= i < |data| ==> data[i] == 0
    ensures XorW(x, StreamWord(data, off)) == x
  {
    TakeZeros(data, off, 4);
    XorZero(x);
  }

  /** The same schedule but for the place in the salt. */
  predicate SameBlock(s: Schedule, t: Schedule) { s.box == t.box && s.l == t.l && s.r == t.r }

  lemma TurnZeros(s: Schedule, t: Schedule, salt: seq<nat>)
    requires salt != [] && s.off < |salt| && forall i :: 0 <= i < |salt| ==> salt[i] == 0
    requires s.box.Valid() && SameBlock(s, t)
    ensures SameBlock(Turn(s, salt), Turn(t, []))
  {
    hide Encipher, XorW, StreamWord;
    StreamZeros(salt, s.off, s.l);
    StreamZeros(salt, (s.off + 4) % |salt|, s.r);
  }

  lemma {:induction false} FillPZeros(s: Schedule, t: Schedule, salt: seq<nat>, i: nat)
    requires salt != [] && s.off < |salt| && forall i :: 0 <= i < |salt| ==> salt[i] == 0
    requires s.box.Valid() && SameBlock(s, t) && i <= 9
    ensures SameBlock(FillP(s, salt, i), FillP(t, [], i))
    decreases 9 - i
  {
    hide Turn;
    if i < 9 {
      TurnZeros(s, t, salt);
      FillPZeros(StoreP(Turn(s, salt), i), StoreP(Turn(t, []), i), salt, i + 1);
    }
  }

  lemma {:induction false} FillSZeros(s: Schedule, t: Schedule, salt: seq<nat>, i: nat)
    requires salt != [] && s.off < |salt| && forall i :: 0 <= i < |salt| ==> salt[i] == 0
    requires s.box.Valid() && SameBlock(s, t) && i <= 512
    ensures SameBlock(FillS(s, salt, i), FillS(t, [], i))
    decreases 512 - i
  {
    hide Turn;
    if i < 512 {
      TurnZeros(s, t, salt);
      FillSZeros(StoreS(Turn(s, salt), i), StoreS(Turn(t, []), i), salt, i + 1);
    }
  }

  lemma ExpandZeros(b: Box, salt: seq<nat>, key: seq<nat>)
    requires b.Valid() && key != []
    requires salt != [] && forall i :: 0 <= i < |salt| ==> salt[i] == 0
    ensures Expand(b, salt, key) == Expand(b, [], key)
  {
    hide FillP, FillS, XorKey;
    var s := Schedule(b.(P := XorKey(b.P, key, 0, 0)), 0, 0, 0);
    FillPZeros(s, s, salt, 0);
    FillSZeros(FillP(s, salt, 0), FillP(s, [], 0), salt, 0);
  }

  /** `n` times: key with the password, then with the salt. */
  function Rekey(b: Box, password: seq<nat>, salt: seq<nat>, n: nat): (r: Box)
    requires b.Valid() && password != [] && salt != []
    ensures r.Valid()
  {
    if n == 0 then b
    else
      var c := Rekey(b, password, salt, n - 1);
      Expand(Expand(c, [], password), [], salt)
  }

  /** Encipher the pairs from pair `j` on. */
  function Pairs(b: Box, c: seq<word>, j: nat): (r: seq<word>)
    requires b.Valid() && |c| == 6 && j <= 3
    ensures |r| == 6
    decreases 3 - j
  {
    if j == 3 then c
    else
      var (x, y) := Encipher(b, c[2 * j], c[2 * j + 1]);
      Pairs(b, SetPair(c, j, x, y), j + 1)
  }

  function Repeat(b: Box, c: seq<word>, n: nat): (r: seq<word>)
    requires b.Valid() && |c| == 6
    ensures |r| == 6
  {
    if n == 0 then c else Pairs(b, Repeat(b, c, n - 1), 0)
  }

  /** Words to bytes, most significant first. */
  function BigEndian(ws: seq<word>): (bs: seq<byte>)
    ensures |bs| == 4 * |ws|
  {
    if ws == [] then []
    else
      var w := ws[|ws| - 1];
      BigEndian(ws[..|ws| - 1]) + [ByteAt(w, 24), ByteAt(w, 16), ByteAt(w, 8), ByteAt(w, 0)]
  }

  const MAGIC: seq<word> := [0x4f727068, 0x65616e42, 0x65686f6c, 0x64657253, 0x63727944, 0x6f756274]

  datatype CryptResult = Hashed(bytes: seq<byte>) | BadRounds | BadSaltLength | EmptyPassword

  /** bcrypt on 32-bit words. */
  function Crypt(start: Box, password: seq<nat>, salt: seq<nat>, logRounds: int): CryptResult
    requires start.Valid()
  {
    if logRounds < 4 || logRounds > 31 then BadRounds
    else if |salt| != 16 then BadSaltLength
    else if password == [] then EmptyPassword
    else
      var b := Rekey(Expand(start, salt, password), password, salt, Pow2(logRounds));
      Hashed(BigEndian(Repeat(b, MAGIC, 64)))
  }
}

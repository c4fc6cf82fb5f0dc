/**
tools/bcrypt.py, class BCrypt, as it runs: the words of P, S and the block are unbounded
integers that are never cut back to 32 bits. Each method is related to the wrap-around
computation of module Blowfish by taking the low 32 bits of every word.
*/
module BCrypt {
  import opened Bits
  import opened Bytes
  import opened Blowfish

  // ----- taking low words commutes with the operators

  lemma WordXor(a: nat, b: nat)
    ensures Word(Xor(a, b)) == XorW(Word(a), Word(b))
  {
    BitwiseLow(XorOp, a, b, 32);
  }

  lemma WordAdd(a: nat, b: nat)
    ensures Word(a + b) == AddW(Word(a), Word(b))
  {
    hide Low;
    LowAdd(a, b, 32);
  }

  lemma ByteOfWord(x: nat, k: nat)
    requires k <= 24
    ensures ByteAt(Word(x), k) == ByteAt(x, k)
  {
    FieldOfLow(x, k, 8, 32);
  }

  lemma WordSmall(x: nat)
    requires x < 0x1_0000_0000
    ensures Word(x) == x
  {
    Pow2Of32();
    LowSmall(x, 32);
  }

  // ----- the tool's own expressions

  /** `(x >> k) & 0xff` */
  function Index(x: nat, k: nat): nat { And(Shr(x, k), 0xff) }

  lemma IndexIsByte(x: nat, k: nat)
    ensures Index(x, k) == ByteAt(x, k)
  {
    assert Pow2(8) == 256;
    AndOnes(Shr(x, k), 8);
  }

  /** `n * 0x100 | b` */
  lemma OrIsOffset(n: nat, b: byte)
    ensures Or(256 * n, b) == 256 * n + b
  {
    assert Pow2(8) == 256;
    ShlIsMul(n, 8);
    DisjointSum(n, b, 8);
  }

  lemma IndexInRange(x: nat, k: nat, n: nat)
    ensures Index(x, k) < 256
    ensures Or(256 * n, Index(x, k)) == 256 * n + ByteAt(x, k)
  {
    IndexIsByte(x, k);
    OrIsOffset(n, ByteAt(x, k));
  }

  /** The sum in the round function, without any masking. */
  function RawFeistel(S: seq<nat>, x: nat): nat
    requires |S| == 1024
  {
    Xor(S[ByteAt(x, 24)] + S[256 + ByteAt(x, 16)], S[512 + ByteAt(x, 8)]) + S[768 + ByteAt(x, 0)]
  }

  lemma FeistelLow(S: seq<nat>, x: nat)
    requires |S| == 1024
    ensures Word(RawFeistel(S, x)) == Feistel(Words(S), Word(x))
  {
    hide Word, XorW, AddW, ByteAt, Xor;
    ByteOfWord(x, 24);
    ByteOfWord(x, 16);
    ByteOfWord(x, 8);
    ByteOfWord(x, 0);
    var a, b, c, d := S[ByteAt(x, 24)], S[256 + ByteAt(x, 16)], S[512 + ByteAt(x, 8)], S[768 + ByteAt(x, 0)];
    WordAdd(a, b);
    WordXor(a + b, c);
    WordAdd(Xor(a + b, c), d);
  }

  /** One half round on unbounded integers is the half round on their low words. */
  lemma HalfRoundLow(S: seq<nat>, b: Box, x: nat, y: nat, p: nat, i: nat)
    requires |S| == 1024 && b.Valid() && b.S == Words(S) && i < 18 && b.P[i] == Word(p)
    ensures Word(Xor(y, Xor(RawFeistel(S, x), p))) == XorW(Word(y), Mix(b, Word(x), i))
  {
    hide Word, XorW, Feistel, RawFeistel, Xor;
    FeistelLow(S, x);
    WordXor(RawFeistel(S, x), p);
    WordXor(y, Xor(RawFeistel(S, x), p));
  }

  class BCrypt {
    var P: array<nat>
    var S: array<nat>

    ghost predicate Valid()
      reads this
    {
      P.Length == 18 && S.Length == 1024 && P != S
    }

    /** The tables as 32-bit words. */
    ghost function View(): Box
      reads this, P, S
    {
      Box(Words(P[..]), Words(S[..]))
    }

    constructor ()
      ensures Valid() && fresh(P) && fresh(S)
    {
      P := new nat[18];
      S := new nat[1024];
    }

    method InitKey(pOrig: seq<word>, sOrig: seq<word>)
      requires |pOrig| == 18 && |sOrig| == 1024
      modifies this
      ensures Valid() && fresh(P) && fresh(S) && View() == Box(pOrig, sOrig)
    {
      P := new nat[18](i requires 0 <= i < 18 => pOrig[i]);
      S := new nat[1024](i requires 0 <= i < 1024 => sOrig[i]);
      forall i | 0 <= i < 18 ensures Word(P[i]) == pOrig[i] { WordSmall(pOrig[i]); }
      forall i | 0 <= i < 1024 ensures Word(S[i]) == sOrig[i] { WordSmall(sOrig[i]); }
    }

    method RoundSum(x: nat) returns (f: nat)
      requires Valid()
      ensures f == RawFeistel(S[..], x)
    {
      hide Index, ByteAt, Or, Xor;
      IndexInRange(x, 24, 0);
      IndexIsByte(x, 24);
      IndexInRange(x, 16, 1);
      IndexInRange(x, 8, 2);
      IndexInRange(x, 0, 3);
      var a, b := S[Index(x, 24)], S[Or(0x100, Index(x, 16))];
      var c, d := S[Or(0x200, Index(x, 8))], S[Or(0x300, Index(x, 0))];
      f := Xor(a + b, c) + d;
    }

    /** Sixteen rounds in place on `lr[off]`, `lr[off + 1]`. */
    method Encipher(lr: array<nat>, off: nat)
      requires Valid() && lr != P && lr != S && off + 1 < lr.Length
      modifies lr
      ensures (Word(lr[off]), Word(lr[off + 1]))
           == Blowfish.Encipher(View(), Word(old(lr[off])), Word(old(lr[off + 1])))
      ensures forall i :: 0 <= i < lr.Length && i != off && i != off + 1 ==> lr[i] == old(lr[i])
    {
      hide Word, XorW, Mix, Xor, RawFeistel, Words;
      var l, r := lr[off], lr[off + 1];
      ghost var b := View();
      l := Xor(l, P[0]);
      WordXor(lr[off], P[0]);
      ghost var goal := Rounds(b, Word(l), Word(r), 0);
      var i := 0;
      while i < 15
        modifies {}
        invariant 0 <= i <= 16 && i % 2 == 0
        invariant Rounds(b, Word(l), Word(r), i / 2) == goal
      {
        var f := RoundSum(l);
        HalfRoundLow(S[..], b, l, r, P[i + 1], i + 1);
        r := Xor(r, Xor(f, P[i + 1]));
        f := RoundSum(r);
        HalfRoundLow(S[..], b, r, l, P[i + 2], i + 2);
        l := Xor(l, Xor(f, P[i + 2]));
        i := i + 2;
      }
      WordXor(r, P[17]);
      lr[off] := Xor(r, P[17]);
      lr[off + 1] := l;
    }

    /** Fold the next key word into every P word. */
    method XorKeyInto(key: seq<nat>)
      requires Valid() && key != []
      modifies P
      ensures Words(P[..]) == XorKey(old(Words(P[..])), key, 0, 0)
    {
      hide Word, XorW, Xor, StreamWord;
      var koffp := new nat[1](_ => 0);
      ghost var goal := XorKey(Words(P[..]), key, 0, 0);
      for i := 0 to 18
        invariant koffp[0] < |key| && fresh(koffp)
        invariant XorKey(Words(P[..]), key, i, koffp[0]) == goal
      {
        label L:
        var w := StreamToWord(key, koffp);
        WordXor(P[i], w);
        WordSmall(w);
        WordsUpdate(P[..], i, Xor(P[i], w));
        P[i] := Xor(P[i], w);
        assert P[..] == old@L(P[..])[i := P[i]];
      }
    }

    /** Encipher the running block and store it into P, two words at a time. */
    method StorePair(ghost toP: bool, table: array<nat>, lr: array<nat>, i: nat)
      requires Valid() && lr.Length == 2 && lr != P && lr != S
      requires table == (if toP then P else S) && 2 * i + 1 < table.Length
      modifies table
      ensures toP ==> View() == old(View()).(P := SetPair(old(View()).P, i, Word(lr[0]), Word(lr[1])))
      ensures !toP ==> View() == old(View()).(S := SetPair(old(View()).S, i, Word(lr[0]), Word(lr[1])))
    {
      WordsPair(table[..], i, lr[0], lr[1]);
      table[2 * i], table[2 * i + 1] := lr[0], lr[1];
      assert table[..] == old(table[..])[2 * i := lr[0]][2 * i + 1 := lr[1]];
    }

    /** __key */
    method Key(key: seq<nat>)
      requires Valid() && key != []
      modifies P, S
      ensures View() == Expand(old(View()), [], key)
    {
      hide Word, Blowfish.Encipher, XorKey, SetPair, Words;
      var lr := new nat[2](_ => 0);
      WordSmall(0);
      XorKeyInto(key);
      ghost var goalP := FillP(Schedule(View(), 0, 0, 0), [], 0);
      var i := 0;
      while i < 18
        invariant 0 <= i <= 18 && i % 2 == 0
        invariant FillP(Schedule(View(), Word(lr[0]), Word(lr[1]), 0), [], i / 2) == goalP
      {
        Encipher(lr, 0);
        StorePair(true, P, lr, i / 2);
        i := i + 2;
      }
      ghost var goalS := FillS(Schedule(View(), Word(lr[0]), Word(lr[1]), 0), [], 0);
      i := 0;
      while i < 1024
        invariant 0 <= i <= 1024 && i % 2 == 0
        invariant FillS(Schedule(View(), Word(lr[0]), Word(lr[1]), 0), [], i / 2) == goalS
      {
        Encipher(lr, 0);
        StorePair(false, S, lr, i / 2);
        i := i + 2;
      }
    }

    /** The two salt words that __ekskey folds into the block. */
    method StirBlock(lr: array<nat>, data: seq<nat>, doffp: array<nat>, ghost b: Box)
      requires lr.Length == 2 && doffp.Length == 1 && lr != doffp && doffp[0] < |data|
      modifies lr, doffp
      ensures doffp[0] < |data|
      ensures Schedule(b, Word(lr[0]), Word(lr[1]), doffp[0])
           == Stir(old(Schedule(b, Word(lr[0]), Word(lr[1]), doffp[0])), data)
    {
      hide Word, XorW, Xor, StreamWord;
      var w := StreamToWord(data, doffp);
      WordXor(lr[0], w);
      WordSmall(w);
      lr[0] := Xor(lr[0], w);
      w := StreamToWord(data, doffp);
      WordXor(lr[1], w);
      WordSmall(w);
      lr[1] := Xor(lr[1], w);
    }

    /** __ekskey */
    method EksKey(data: seq<nat>, key: seq<nat>)
      requires Valid() && key != [] && data != []
      modifies P, S
      ensures View() == Expand(old(View()), data, key)
    {
      hide Word, XorKey, Words, FillP, FillS;
      var lr := new nat[2](_ => 0);
      var doffp := new nat[1](_ => 0);
      WordSmall(0);
      XorKeyInto(key);
      EksFillP(data, lr, doffp);
      EksFillS(data, lr, doffp);
    }

    method EksFillP(data: seq<nat>, lr: array<nat>, doffp: array<nat>)
      requires Valid() && lr.Length == 2 && lr != P && lr != S && doffp.Length == 1 && doffp != lr
      requires doffp != P && doffp != S && doffp[0] < |data|
      modifies P, lr, doffp
      ensures doffp[0] < |data|
      ensures Schedule(View(), Word(lr[0]), Word(lr[1]), doffp[0])
           == FillP(old(Schedule(View(), Word(lr[0]), Word(lr[1]), doffp[0])), data, 0)
    {
      hide Word, Blowfish.Encipher, SetPair, Words, Stir;
      ghost var goal := FillP(Schedule(View(), Word(lr[0]), Word(lr[1]), doffp[0]), data, 0);
      var i := 0;
      while i < 18
        invariant 0 <= i <= 18 && i % 2 == 0 && doffp[0] < |data|
        invariant FillP(Schedule(View(), Word(lr[0]), Word(lr[1]), doffp[0]), data, i / 2) == goal
      {
        StirBlock(lr, data, doffp, View());
        Encipher(lr, 0);
        StorePair(true, P, lr, i / 2);
        i := i + 2;
      }
    }

    method EksFillS(data: seq<nat>, lr: array<nat>, doffp: array<nat>)
      requires Valid() && lr.Length == 2 && lr != P && lr != S && doffp.Length == 1 && doffp != lr
      requires doffp != P && doffp != S && doffp[0] < |data|
      modifies S, lr, doffp
      ensures View() == FillS(old(Schedule(View(), Word(lr[0]), Word(lr[1]), doffp[0])), data, 0).box
    {
      hide Word, Blowfish.Encipher, SetPair, Words, Stir;
      ghost var goal := FillS(Schedule(View(), Word(lr[0]), Word(lr[1]), doffp[0]), data, 0);
      var i := 0;
      while i < 1024
        invariant 0 <= i <= 1024 && i % 2 == 0 && doffp[0] < |data|
        invariant FillS(Schedule(View(), Word(lr[0]), Word(lr[1]), doffp[0]), data, i / 2) == goal
      {
        StirBlock(lr, data, doffp, View());
        Encipher(lr, 0);
        StorePair(false, S, lr, i / 2);
        i := i + 2;
      }
    }

    /** The 64 passes over the six words of the magic text. */
    method EncipherText(cdata: array<nat>)
      requires Valid() && cdata.Length == 6 && cdata != P && cdata != S
      modifies cdata
      ensures Words(cdata[..]) == Repeat(View(), old(Words(cdata[..])), 64)
    {
      hide Word, Blowfish.Encipher, SetPair, Words;
      ghost var c := Words(cdata[..]);
      ghost var b := View();
      for i := 0 to 64
        invariant Words(cdata[..]) == Repeat(b, c, i)
      {
        ghost var goal := Pairs(b, Words(cdata[..]), 0);
        for j := 0 to 3
          invariant Pairs(b, Words(cdata[..]), j) == goal
        {
          ghost var before: seq<nat> := cdata[..];
          Encipher(cdata, 2 * j);
          WordsPair(before, j, cdata[2 * j], cdata[2 * j + 1]);
          assert cdata[..] == before[2 * j := cdata[2 * j]][2 * j + 1 := cdata[2 * j + 1]];
        }
      }
    }

    /**
    crypt_raw: whatever the unbounded words grow to, the bytes that come out are those of
    the 32-bit computation.
    */
    method CryptRaw(pOrig: seq<word>, sOrig: seq<word>, password: seq<nat>, salt: seq<nat>, logRounds: int)
      returns (r: CryptResult)
      requires |pOrig| == 18 && |sOrig| == 1024
      modifies this
      ensures r == Crypt(Box(pOrig, sOrig), password, salt, logRounds)
    {
      hide Word, Repeat, Expand, Words;
      if logRounds < 4 || logRounds > 31 { return BadRounds; }
      var rounds := Shl(1, logRounds);
      ShlIsMul(1, logRounds);
      if |salt| != 16 { return BadSaltLength; }
      if password == [] { return EmptyPassword; }
      InitKey(pOrig, sOrig);
      EksKey(salt, password);
      ghost var b := View();
      label Keyed:
      for i := 0 to rounds
        invariant Valid() && P == old@Keyed(P) && S == old@Keyed(S) && fresh(P) && fresh(S)
        invariant View() == Rekey(b, password, salt, i)
      {
        Key(password);
        Key(salt);
      }
      var cdata := new nat[6](i requires 0 <= i < 6 => MAGIC[i]);
      forall i | 0 <= i < 6 ensures Word(cdata[i]) == MAGIC[i] { WordSmall(MAGIC[i]); }
      assert Words(cdata[..]) == MAGIC;
      EncipherText(cdata);
      var bytes := ToBytes(cdata);
      r := Hashed(bytes);
    }
  }

  /** The final loop: four bytes per word, most significant first, by shift and mask. */
  method ToBytes(cdata: array<nat>) returns (ret: seq<byte>)
    ensures ret == BigEndian(Words(cdata[..]))
  {
    hide Word, ByteAt, Index;
    ret := [];
    for i := 0 to cdata.Length
      invariant ret == BigEndian(Words(cdata[..i]))
    {
      var c := cdata[i];
      IndexIsByte(c, 24);
      IndexIsByte(c, 16);
      IndexIsByte(c, 8);
      IndexIsByte(c, 0);
      ByteOfWord(c, 24);
      ByteOfWord(c, 16);
      ByteOfWord(c, 8);
      ByteOfWord(c, 0);
      ret := ret + [Index(c, 24), Index(c, 16), Index(c, 8), Index(c, 0)];
      assert Words(cdata[..i + 1])[..i] == Words(cdata[..i]);
    }
    assert cdata[..cdata.Length] == cdata[..];
  }

  lemma WordsPair(xs: seq<nat>, i: nat, x: nat, y: nat)
    requires 2 * i + 1 < |xs|
    ensures Words(xs[2 * i := x][2 * i + 1 := y]) == SetPair(Words(xs), i, Word(x), Word(y))
  {}

  lemma WordsUpdate(xs: seq<nat>, i: nat, x: nat)
    requires i < |xs|
    ensures Words(xs[i := x]) == Words(xs)[i := Word(x)]
  {}

  method StreamToWord(data: seq<nat>, offp: array<nat>) returns (w: nat)
    requires offp.Length == 1 && offp[0] < |data|
    modifies offp
    ensures w == StreamWord(data, old(offp[0]))
    ensures offp[0] == (old(offp[0]) + 4) % |data|
  {
    w := 0;
    var off := offp[0];
    ghost var start := off;
    WrapSmall(start, |data|);
    for i := 0 to 4
      invariant w == Take(data, start, i) && off == (start + i) % |data|
    {
      TakeStep(data, start, i);
      WrapNext(start + i, |data|);
      w := Or(Shl(w, 8), And(data[off], 0xff));
      off := (off + 1) % |data|;
    }
    offp[0] := off;
  }

  lemma TakeStep(data: seq<nat>, start: nat, i: nat)
    requires start < |data|
    ensures Or(Shl(Take(data, start, i), 8), And(data[(start + i) % |data|], 0xff)) == Take(data, start, i + 1)
  {
    var w, d := Take(data, start, i), data[(start + i) % |data|];
    hide Or, And, ByteAt;
    IndexIsByte(d, 0);
    OrIsOffset(w, ByteAt(d, 0));
    ShlIsMul(w, 8);
    assert Pow2(8) == 256;
  }

  lemma WrapSmall(x: nat, n: nat)
    requires x < n
    ensures x % n == x
  {
    DivModUnique(x, 0, x, n);
  }

  lemma WrapNext(x: nat, n: nat)
    requires n > 0
    ensures (x % n + 1) % n == (x + 1) % n
  {
    var q := x / n;
    assert x == q * n + x % n;
    if x % n + 1 == n {
      DivModUnique(x + 1, q + 1, 0, n);
      DivModUnique(n, 1, 0, n);
    } else {
      DivModUnique(x + 1, q, x % n + 1, n);
      DivModUnique(x % n + 1, 0, x % n + 1, n);
    }
  }
}

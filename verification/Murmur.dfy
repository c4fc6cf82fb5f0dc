/**
The 32-bit MurmurHash3 checksum (tools/pddbcommon.py, mm3_hash) and the two 16-byte records
it protects: page table entries and free-space updates. The tool masks its words to 32 bits,
so they are bit-vectors here.
*/
module Murmur {

  function Rotl(x: bv32, n: bv6): bv32
    requires 0 < n < 32
  {
    (x << n) | (x >> (32 - n))
  }

  function MulC1(k: bv32): bv32 { k * 0xcc9e2d51 }

  function MulC2(k: bv32): bv32 { k * 0x1b873593 }

  function Stretch(h: bv32): bv32 { h * 5 + 0xe6546b64 }

  function Xored(h: bv32, k: bv32): bv32 { h ^ k }

  /** Four bytes, least significant first. */
  function Block(b0: bv8, b1: bv8, b2: bv8, b3: bv8): bv32 {
    (b3 as bv32 << 24) | (b2 as bv32 << 16) | (b1 as bv32 << 8) | b0 as bv32
  }

  function BlockAt(key: seq<bv8>, i: nat): bv32
    requires 4 * i + 4 <= |key|
  {
    Block(key[4 * i], key[4 * i + 1], key[4 * i + 2], key[4 * i + 3])
  }

  /** What a block is turned into before it enters the state. */
  function Scramble(k: bv32): bv32 { MulC2(Rotl(MulC1(k), 15)) }

  /** One round of the body. */
  function Absorb(h: bv32, k: bv32): bv32 { Stretch(Rotl(Xored(h, Scramble(k)), 13)) }

  /** The state after blocks `i` to the end. */
  function Body(key: seq<bv8>, h: bv32, i: nat): bv32
    requires i <= |key| / 4
    decreases |key| / 4 - i
  {
    if i == |key| / 4 then h else Body(key, Absorb(h, BlockAt(key, i)), i + 1)
  }

  function TailOf(b0: bv8, b1: bv8, b2: bv8): bv32 {
    (b2 as bv32 << 16) ^ (b1 as bv32 << 8) ^ b0 as bv32
  }

  /** The one to three bytes after the last whole block. */
  function TailWord(key: seq<bv8>): bv32 {
    var t, n := |key| / 4 * 4, |key| % 4;
    TailOf(if n >= 1 then key[t] else 0, if n >= 2 then key[t + 1] else 0, if n >= 3 then key[t + 2] else 0)
  }

  function AbsorbTail(key: seq<bv8>, h: bv32): bv32 {
    if |key| % 4 > 0 then Xored(h, Scramble(TailWord(key))) else h
  }

  /** Fold the upper half of the word into the lower one, and the like with 13 bits. */
  function Fold16(h: bv32): bv32 { h ^ (h >> 16) }

  function Fold13(h: bv32): bv32 { h ^ (h >> 13) }

  function MulF1(h: bv32): bv32 { h * 0x85ebca6b }

  function MulF2(h: bv32): bv32 { h * 0xc2b2ae35 }

  function Mixed(h: bv32): bv32 { Fold16(MulF2(Fold13(MulF1(h)))) }

  /**
  The first fold is the only step on more than 32 bits, because the length is not masked: the
  part of it above 32 bits, shifted down by 16, comes back into the word.
  */
  function WideFold(h: bv32, low: bv32, high: bv32): bv32 { Xored(Fold16(Xored(h, low)), high << 16) }

  function Final(h: bv32, length: nat): bv32
    requires length < LIMIT
  {
    Mixed(WideFold(h, (length % 0x1_0000_0000) as bv32, (length / 0x1_0000_0000) as bv32))
  }

  /** Longer inputs have a number of blocks that floating point cannot count. */
  const LIMIT: nat := 0x20_0000_0000_0000

  function Hash(key: seq<bv8>, seed: bv32): bv32
    requires |key| < LIMIT
  {
    Final(AbsorbTail(key, Body(key, seed, 0)), |key|)
  }

  method Mm3Hash(key: seq<bv8>, seed: bv32) returns (h: bv32)
    requires |key| < LIMIT
    ensures h == Hash(key, seed)
  {
    hide Scramble, Absorb, Final, Block, TailWord, Xored;
    var h1 := seed;
    var nblocks := |key| / 4;
    var i := 0;
    while i < nblocks
      invariant i <= nblocks && Body(key, h1, i) == Body(key, seed, 0)
    {
      var k1 := Block(key[4 * i], key[4 * i + 1], key[4 * i + 2], key[4 * i + 3]);
      h1 := Absorb(h1, k1);
      i := i + 1;
    }
    if |key| % 4 > 0 {
      var k1 := ReadTail(key);
      h1 := Xored(h1, Scramble(k1));
    }
    h := Final(h1, |key|);
  }

  method ReadTail(key: seq<bv8>) returns (k1: bv32)
    ensures k1 == TailWord(key)
  {
    hide TailOf, At, Xored;
    var tail, size := |key| / 4 * 4, |key| % 4;
    k1 := 0;
    if size >= 3 { k1 := Xored(k1, At(key[tail + 2], 16)); }
    if size >= 2 { k1 := Xored(k1, At(key[tail + 1], 8)); }
    if size >= 1 { k1 := Xored(k1, At(key[tail], 0)); }
    if size == 3 {
      TailSteps(key[tail], key[tail + 1], key[tail + 2]);
    } else if size == 2 {
      TailSteps(key[tail], key[tail + 1], 0);
    } else if size == 1 {
      TailSteps(key[tail], 0, 0);
    } else {
      TailSteps(0, 0, 0);
    }
  }

  function At(b: bv8, k: bv6): bv32
    requires k < 32
  {
    b as bv32 << k
  }

  lemma TailSteps(b0: bv8, b1: bv8, b2: bv8)
    ensures Xored(Xored(Xored(0, At(b2, 16)), At(b1, 8)), At(b0, 0)) == TailOf(b0, b1, b2)
    ensures Xored(Xored(0, At(b1, 8)), At(b0, 0)) == TailOf(b0, b1, 0)
    ensures Xored(0, At(b0, 0)) == TailOf(b0, 0, 0)
    ensures 0 == TailOf(0, 0, 0)
  {}

  // ----- every stage can be undone, so every stage keeps different words different

  function DivC1(y: bv32): bv32 { y * 0xdee13bb1 }

  lemma UndoMulC1(x: bv32)
    ensures x * 0xcc9e2d51 * 0xdee13bb1 == x
  {}

  lemma MulC1Back(x: bv32)
    ensures DivC1(MulC1(x)) == x
  {
    assert DivC1(x * 0xcc9e2d51) == x by { UndoMulC1(x); }
    hide DivC1;
  }

  function DivC2(y: bv32): bv32 { y * 0x56ed309b }

  lemma UndoMulC2(x: bv32)
    ensures x * 0x1b873593 * 0x56ed309b == x
  {}

  lemma MulC2Back(x: bv32)
    ensures DivC2(MulC2(x)) == x
  {
    assert DivC2(x * 0x1b873593) == x by { UndoMulC2(x); }
    hide DivC2;
  }

  function DivF1(y: bv32): bv32 { y * 0xa5cb9243 }

  lemma UndoMulF1(x: bv32)
    ensures x * 0x85ebca6b * 0xa5cb9243 == x
  {}

  lemma MulF1Back(x: bv32)
    ensures DivF1(MulF1(x)) == x
  {
    assert DivF1(x * 0x85ebca6b) == x by { UndoMulF1(x); }
    hide DivF1;
  }

  function DivF2(y: bv32): bv32 { y * 0x7ed1b41d }

  lemma UndoMulF2(x: bv32)
    ensures x * 0xc2b2ae35 * 0x7ed1b41d == x
  {}

  lemma MulF2Back(x: bv32)
    ensures DivF2(MulF2(x)) == x
  {
    assert DivF2(x * 0xc2b2ae35) == x by { UndoMulF2(x); }
    hide DivF2;
  }

  function Unstretch(y: bv32): bv32 { (y - 0xe6546b64) * 0xcccccccd }

  lemma UndoStretch(x: bv32)
    ensures (x * 5 + 0xe6546b64 - 0xe6546b64) * 0xcccccccd == x
  {}

  lemma StretchBack(x: bv32)
    ensures Unstretch(Stretch(x)) == x
  {
    assert Unstretch(x * 5 + 0xe6546b64) == x by { UndoStretch(x); }
    hide Unstretch;
  }

  function Unfold16(y: bv32): bv32 { y ^ (y >> 16) }

  lemma UndoFold16(x: bv32)
    ensures (x ^ (x >> 16)) ^ ((x ^ (x >> 16)) >> 16) == x
  {}

  lemma Fold16Back(x: bv32)
    ensures Unfold16(Fold16(x)) == x
  {
    assert Unfold16(x ^ (x >> 16)) == x by { UndoFold16(x); }
    hide Unfold16;
  }

  function Unfold13(y: bv32): bv32 { y ^ (y >> 13) ^ (y >> 26) }

  lemma UndoFold13(x: bv32)
    ensures (x ^ (x >> 13)) ^ ((x ^ (x >> 13)) >> 13) ^ ((x ^ (x >> 13)) >> 26) == x
  {}

  lemma Fold13Back(x: bv32)
    ensures Unfold13(Fold13(x)) == x
  {
    assert Unfold13(x ^ (x >> 13)) == x by { UndoFold13(x); }
    hide Unfold13;
  }

  lemma RotlInjective(x: bv32, y: bv32, n: bv6)
    requires (n == 13 || n == 15) && Rotl(x, n) == Rotl(y, n)
    ensures x == y
  {
    UndoRotl(x);
    UndoRotl(y);
  }

  lemma UndoRotl(x: bv32)
    ensures (((x << 13) | (x >> 19)) >> 13) | (((x << 13) | (x >> 19)) << 19) == x
    ensures (((x << 15) | (x >> 17)) >> 15) | (((x << 15) | (x >> 17)) << 17) == x
  {}

  lemma XoredInjective(h: bv32, h': bv32, k: bv32, k': bv32)
    requires Xored(h, k) == Xored(h', k')
    ensures h == h' <==> k == k'
  {
    XoredBack(h, k);
    XoredBack(h', k');
    XoredSwap(h, k);
    XoredSwap(h', k');
    XoredBack(k, h);
    XoredBack(k', h');
    hide Xored;
  }

  lemma XoredBack(h: bv32, k: bv32)
    ensures Xored(h, Xored(h, k)) == k
  {}

  lemma XoredSwap(h: bv32, k: bv32)
    ensures Xored(h, k) == Xored(k, h)
  {}

  lemma ScrambleInjective(k: bv32, k': bv32)
    requires Scramble(k) == Scramble(k')
    ensures k == k'
  {
    hide MulC1, MulC2, DivC1, DivC2, Rotl;
    MulC2Back(Rotl(MulC1(k), 15));
    MulC2Back(Rotl(MulC1(k'), 15));
    RotlInjective(MulC1(k), MulC1(k'), 15);
    MulC1Back(k);
    MulC1Back(k');
  }

  /** A round keeps states apart under the same block, and blocks apart under the same state. */
  lemma AbsorbInjective(h: bv32, k: bv32, h': bv32, k': bv32)
    requires Absorb(h, k) == Absorb(h', k')
    ensures h == h' <==> k == k'
  {
    hide Stretch, Unstretch, Rotl, Scramble, Xored;
    var x, x' := Xored(h, Scramble(k)), Xored(h', Scramble(k'));
    StretchBack(Rotl(x, 13));
    StretchBack(Rotl(x', 13));
    RotlInjective(x, x', 13);
    XoredInjective(h, h', Scramble(k), Scramble(k'));
    if h == h' { ScrambleInjective(k, k'); }
  }

  /** The finalizer is a bijection; this is its inverse. */
  function Unmix(y: bv32): bv32 { DivF1(Unfold13(DivF2(Unfold16(y)))) }

  lemma MixedBack(h: bv32)
    ensures Unmix(Mixed(h)) == h
  {
    MulF1Back(h);
    Fold13Back(MulF1(h));
    MulF2Back(Fold13(MulF1(h)));
    Fold16Back(MulF2(Fold13(MulF1(h))));
    hide MulF1, MulF2, DivF1, DivF2, Fold16, Fold13, Unfold16, Unfold13;
  }

  lemma FinalInjective(h: bv32, h': bv32, length: nat)
    requires length < LIMIT && Final(h, length) == Final(h', length)
    ensures h == h'
  {
    hide Mixed, Unmix, Xored, Fold16, Unfold16;
    var low, high := (length % 0x1_0000_0000) as bv32, (length / 0x1_0000_0000) as bv32;
    var x, x' := Xored(h, low), Xored(h', low);
    MixedBack(WideFold(h, low, high));
    MixedBack(WideFold(h', low, high));
    XoredInjective(Fold16(x), Fold16(x'), high << 16, high << 16);
    Fold16Back(x);
    Fold16Back(x');
    XoredInjective(h, h', low, low);
  }

  lemma BlockInjective(a0: bv8, a1: bv8, a2: bv8, a3: bv8, b0: bv8, b1: bv8, b2: bv8, b3: bv8)
    requires Block(a0, a1, a2, a3) == Block(b0, b1, b2, b3)
    ensures a0 == b0 && a1 == b1 && a2 == b2 && a3 == b3
  {}

  // ----- damage confined to one block is always seen

  /** From a common block on, the states stay different. */
  lemma {:induction false} BodyKeepsApart(key: seq<bv8>, key': seq<bv8>, h: bv32, h': bv32, i: nat)
    requires |key| == |key'| && i <= |key| / 4
    requires forall k :: 4 * i <= k < |key| / 4 * 4 ==> key[k] == key'[k]
    ensures Body(key, h, i) == Body(key', h', i) <==> h == h'
    decreases |key| / 4 - i
  {
    hide Absorb, Block;
    if i < |key| / 4 {
      var k := BlockAt(key, i);
      assert BlockAt(key', i) == k;
      BodyKeepsApart(key, key', Absorb(h, k), Absorb(h', k), i + 1);
      if Absorb(h, k) == Absorb(h', k) { AbsorbInjective(h, k, h', k); }
    }
  }

  /** Up to the damaged block the states agree; the block sets them apart for good. */
  lemma {:induction false} BodyOneBlock(key: seq<bv8>, key': seq<bv8>, h: bv32, i: nat, j: nat)
    requires |key| == |key'| && i <= j < |key| / 4
    requires forall k :: 0 <= k < |key| / 4 * 4 && k / 4 != j ==> key[k] == key'[k]
    requires BlockAt(key, j) != BlockAt(key', j)
    ensures Body(key, h, i) != Body(key', h, i)
    decreases j - i
  {
    hide Absorb, Block;
    if i < j {
      assert BlockAt(key, i) == BlockAt(key', i);
      BodyOneBlock(key, key', Absorb(h, BlockAt(key, i)), i + 1, j);
    } else {
      var k, k' := BlockAt(key, i), BlockAt(key', i);
      if Absorb(h, k) == Absorb(h, k') { AbsorbInjective(h, k, h, k'); }
      BodyKeepsApart(key, key', Absorb(h, k), Absorb(h, k'), i + 1);
    }
  }

  lemma TailWordSame(key: seq<bv8>, key': seq<bv8>)
    requires |key| == |key'| && key[|key| / 4 * 4..] == key'[|key| / 4 * 4..]
    ensures TailWord(key) == TailWord(key')
  {
    var t, n := |key| / 4 * 4, |key| % 4;
    assert n >= 1 ==> key[t] == key[t..][0] && key'[t] == key'[t..][0];
    assert n >= 2 ==> key[t + 1] == key[t..][1] && key'[t + 1] == key'[t..][1];
    assert n >= 3 ==> key[t + 2] == key[t..][2] && key'[t + 2] == key'[t..][2];
  }

  /** Two inputs that differ in exactly one aligned four-byte block have different hashes. */
  lemma OneBlockDetected(key: seq<bv8>, key': seq<bv8>, seed: bv32, j: nat)
    requires |key| == |key'| < LIMIT && j < |key| / 4
    requires forall k :: 0 <= k < |key| && k / 4 != j ==> key[k] == key'[k]
    requires key != key'
    ensures Hash(key, seed) != Hash(key', seed)
  {
    hide Final, Scramble, Xored, TailWord;
    if BlockAt(key, j) == BlockAt(key', j) {
      BlockInjective(key[4 * j], key[4 * j + 1], key[4 * j + 2], key[4 * j + 3],
                     key'[4 * j], key'[4 * j + 1], key'[4 * j + 2], key'[4 * j + 3]);
    }
    BodyOneBlock(key, key', seed, 0, j);
    TailWordSame(key, key');
    var h, h' := Body(key, seed, 0), Body(key', seed, 0);
    var t := Scramble(TailWord(key));
    if Xored(h, t) == Xored(h', t) { XoredInjective(h, h', t, t); }
    var x, x' := AbsorbTail(key, h), AbsorbTail(key', h');
    if Final(x, |key|) == Final(x', |key|) { FinalInjective(x, x', |key|); }
  }

  lemma TailWordInjective(key: seq<bv8>, key': seq<bv8>)
    requires |key| == |key'| && TailWord(key) == TailWord(key')
    ensures key[|key| / 4 * 4..] == key'[|key| / 4 * 4..]
  {
    hide TailOf;
    var t, n := |key| / 4 * 4, |key| % 4;
    TailOfInjective(
      if n >= 1 then key[t] else 0, if n >= 2 then key[t + 1] else 0, if n >= 3 then key[t + 2] else 0,
      if n >= 1 then key'[t] else 0, if n >= 2 then key'[t + 1] else 0, if n >= 3 then key'[t + 2] else 0);
  }

  lemma TailOfInjective(a0: bv8, a1: bv8, a2: bv8, b0: bv8, b1: bv8, b2: bv8)
    requires TailOf(a0, a1, a2) == TailOf(b0, b1, b2)
    ensures a0 == b0 && a1 == b1 && a2 == b2
  {}

  /** Two inputs that differ only after the last whole block have different hashes. */
  lemma TailDetected(key: seq<bv8>, key': seq<bv8>, seed: bv32)
    requires |key| == |key'| < LIMIT
    requires forall k :: 0 <= k < |key| / 4 * 4 ==> key[k] == key'[k]
    requires key != key'
    ensures Hash(key, seed) != Hash(key', seed)
  {
    hide Final, Scramble, Xored, TailWord;
    BodyKeepsApart(key, key', seed, seed, 0);
    var h, t := Body(key, seed, 0), |key| / 4 * 4;
    assert key == key[..t] + key[t..] && key' == key'[..t] + key'[t..];
    var w, w' := TailWord(key), TailWord(key');
    if w == w' { TailWordInjective(key, key'); }
    if Scramble(w) == Scramble(w') { ScrambleInjective(w, w'); }
    if Xored(h, Scramble(w)) == Xored(h, Scramble(w')) { XoredInjective(h, h, Scramble(w), Scramble(w')); }
    var x, x' := AbsorbTail(key, h), AbsorbTail(key', h);
    if Final(x, |key|) == Final(x', |key|) { FinalInjective(x, x', |key|); }
  }

  // ----- the records

  /** int.from_bytes(b[i:i+4], 'little') */
  function LittleAt(b: seq<bv8>, i: nat): bv32
    requires i + 4 <= |b|
  {
    Block(b[i], b[i + 1], b[i + 2], b[i + 3])
  }

  /** Pte.is_valid: bytes 8 to 11 are both hashed and the seed. */
  predicate PteValid(b: seq<bv8>)
    requires |b| == 16
  {
    LittleAt(b, 12) == Hash(b[..12], LittleAt(b, 8))
  }

  /** SpaceUpdate.valid: the seed is bytes 4 to 7 read most significant first. */
  predicate SpaceUpdateValid(b: seq<bv8>)
    requires |b| == 16
  {
    LittleAt(b, 12) == Hash(b[..12], Block(b[7], b[6], b[5], b[4]))
  }

  /** `b` and `b'` are different 16-byte records, but only inside word `j`. */
  ghost predicate DamagedIn(b: seq<bv8>, b': seq<bv8>, j: nat) {
    && |b| == 16 && |b'| == 16 && b != b'
    && forall k :: 0 <= k < 16 && k / 4 != j ==> b[k] == b'[k]
  }

  lemma ChecksumDamage(b: seq<bv8>, b': seq<bv8>)
    requires DamagedIn(b, b', 3)
    ensures b[..12] == b'[..12] && LittleAt(b, 12) != LittleAt(b', 12)
  {
    if LittleAt(b, 12) == LittleAt(b', 12) {
      BlockInjective(b[12], b[13], b[14], b[15], b'[12], b'[13], b'[14], b'[15]);
    }
  }

  /** Damage to a page table entry outside its nonce is always detected. */
  lemma PteDamageDetected(b: seq<bv8>, b': seq<bv8>, j: nat)
    requires DamagedIn(b, b', j) && j < 4 && j != 2
    requires PteValid(b)
    ensures !PteValid(b')
  {
    hide Hash, Block;
    if j == 3 {
      ChecksumDamage(b, b');
    } else {
      assert b[12..] == b'[12..];
      assert b[..12] != b'[..12] by { assert b == b[..12] + b[12..] && b' == b'[..12] + b'[12..]; }
      OneBlockDetected(b[..12], b'[..12], LittleAt(b, 8), j);
    }
  }

  /** Damage to a free-space update outside its seed word is always detected. */
  lemma SpaceUpdateDamageDetected(b: seq<bv8>, b': seq<bv8>, j: nat)
    requires DamagedIn(b, b', j) && j < 4 && j != 1
    requires SpaceUpdateValid(b)
    ensures !SpaceUpdateValid(b')
  {
    hide Hash, Block;
    if j == 3 {
      ChecksumDamage(b, b');
    } else {
      assert b[12..] == b'[12..];
      assert b[..12] != b'[..12] by { assert b == b[..12] + b[12..] && b' == b'[..12] + b'[12..]; }
      OneBlockDetected(b[..12], b'[..12], Block(b[7], b[6], b[5], b[4]), j);
    }
  }

  // ----- and the seed words are exactly where damage can pass

  function HashThree(k0: bv32, k1: bv32, k2: bv32, seed: bv32): bv32 {
    Mixed(WideFold(Absorb(Absorb(Absorb(seed, k0), k1), k2), 12, 0))
  }

  lemma HashOfTwelve(b: seq<bv8>, seed: bv32)
    requires |b| == 12
    ensures Hash(b, seed) == HashThree(LittleAt(b, 0), LittleAt(b, 4), LittleAt(b, 8), seed)
  {
    hide Absorb, Mixed, WideFold, Block;
    var h1 := Absorb(seed, LittleAt(b, 0));
    var h2 := Absorb(h1, LittleAt(b, 4));
    assert Body(b, h2, 2) == Absorb(h2, LittleAt(b, 8));
    assert Body(b, h1, 1) == Body(b, h2, 2);
    assert Body(b, seed, 0) == Body(b, h1, 1);
  }

  const PTE_A: seq<bv8> := [0, 0, 0, 0, 0, 0, 0, 0, 0xcb, 0x7e, 0, 0, 0xb2, 0xec, 0x8c, 0x32]
  const PTE_B: seq<bv8> := [0, 0, 0, 0, 0, 0, 0, 0, 0xce, 0xd6, 0x01, 0, 0xb2, 0xec, 0x8c, 0x32]
  const UPDATE_A: seq<bv8> := [0, 0, 0, 0, 0x0b, 0x1f, 0, 0, 0, 0, 0, 0, 0x7a, 0x85, 0xb2, 0x1a]
  const UPDATE_B: seq<bv8> := [0, 0, 0, 0, 0xa9, 0x29, 0, 0, 0, 0, 0, 0, 0x7a, 0x85, 0xb2, 0x1a]

  lemma PteHashes()
    ensures HashThree(0, 0, 0x7ecb, 0x7ecb) == 0x328cecb2
    ensures HashThree(0, 0, 0x1d6ce, 0x1d6ce) == 0x328cecb2
  {}

  lemma UpdateHashes()
    ensures HashThree(0, 0x1f0b, 0, 0xb1f0000) == 0x1ab2857a
    ensures HashThree(0, 0x29a9, 0, 0xa9290000) == 0x1ab2857a
  {}

  lemma PteNonceCollision()
    ensures DamagedIn(PTE_A, PTE_B, 2) && PteValid(PTE_A) && PteValid(PTE_B)
  {
    hide HashThree, Hash;
    PteHashes();
    HashOfTwelve(PTE_A[..12], LittleAt(PTE_A, 8));
    HashOfTwelve(PTE_B[..12], LittleAt(PTE_B, 8));
  }

  lemma UpdateSeedCollision()
    ensures DamagedIn(UPDATE_A, UPDATE_B, 1) && SpaceUpdateValid(UPDATE_A) && SpaceUpdateValid(UPDATE_B)
  {
    hide HashThree, Hash;
    UpdateHashes();
    HashOfTwelve(UPDATE_A[..12], Block(UPDATE_A[7], UPDATE_A[6], UPDATE_A[5], UPDATE_A[4]));
    HashOfTwelve(UPDATE_B[..12], Block(UPDATE_B[7], UPDATE_B[6], UPDATE_B[5], UPDATE_B[4]));
  }

  /** Which words of the two records are protected: all but the one that seeds the hash. */
  lemma ProtectedWords(j: nat)
    requires j < 4
    ensures (forall b, b' :: DamagedIn(b, b', j) && PteValid(b) ==> !PteValid(b')) <==> j != 2
    ensures (forall b, b' :: DamagedIn(b, b', j) && SpaceUpdateValid(b) ==> !SpaceUpdateValid(b')) <==> j != 1
  {
    hide PteValid, SpaceUpdateValid;
    PteNonceCollision();
    UpdateSeedCollision();
    forall b, b' | DamagedIn(b, b', j) && PteValid(b) && j != 2 ensures !PteValid(b') {
      PteDamageDetected(b, b', j);
    }
    forall b, b' | DamagedIn(b, b', j) && SpaceUpdateValid(b) && j != 1 ensures !SpaceUpdateValid(b') {
      SpaceUpdateDamageDetected(b, b', j);
    }
  }

  // ----- left-over bytes

  /** Left-over bytes enter as the block they would be if the input went on with zeros. */
  lemma TailIsPadded(key: seq<bv8>, padded: seq<bv8>)
    requires |key| % 4 > 0 && key <= padded && |padded| == |key| / 4 * 4 + 4
    requires forall i :: |key| <= i < |padded| ==> padded[i] == 0
    ensures TailWord(key) == BlockAt(padded, |key| / 4)
  {
    hide TailOf, Block;
    var t := |key| / 4 * 4;
    TailIsBlock(padded[t], padded[t + 1], padded[t + 2]);
  }

  lemma TailIsBlock(b0: bv8, b1: bv8, b2: bv8)
    ensures TailOf(b0, b1, b2) == Block(b0, b1, b2, 0)
  {}

  /** The values that are published for MurmurHash3 on one, two and three bytes. */
  lemma PublishedTails()
    ensures Hash([0x21], 0) == 0x72661cf4
    ensures Hash([0x21, 0x43], 0) == 0xa0f7b07a
    ensures Hash([0x21, 0x43, 0x65], 0) == 0x7e4a8634
  {
    TailValues();
    hide HashTail, TailOf, Hash;
    HashOfTail([0x21]);
    HashOfTail([0x21, 0x43]);
    HashOfTail([0x21, 0x43, 0x65]);
  }

  function HashTail(k: bv32, length: bv32): bv32 { Mixed(WideFold(Xored(0, Scramble(k)), length, 0)) }

  lemma HashOfTail(key: seq<bv8>)
    requires 1 <= |key| < 4
    ensures Hash(key, 0) == HashTail(
      TailOf(key[0], if |key| > 1 then key[1] else 0, if |key| > 2 then key[2] else 0), |key| as bv32)
  {
    hide Scramble, Mixed, WideFold, TailOf, Xored;
  }

  lemma TailValues()
    ensures HashTail(TailOf(0x21, 0, 0), 1) == 0x72661cf4
    ensures HashTail(TailOf(0x21, 0x43, 0), 2) == 0xa0f7b07a
    ensures HashTail(TailOf(0x21, 0x43, 0x65), 3) == 0x7e4a8634
  {}
}

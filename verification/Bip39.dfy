/**
The BIP-39 phrase decoder (tools/pddbcommon.py, bip39_to_bits), from the word indices on.
The first byte of the SHA-256 digest is any function of the data.
*/
module Bip39 {
  import opened Bits
  import opened Bytes
  import opened Radix

  // ----- the bucket

  /** Clearing the top eight of `k + 8` bits with the tool's mask keeps the low `k`. */
  lemma MaskClears(bucket: nat, k: nat)
    requires bucket < Pow2(k + 8) && k <= 24
    ensures And(bucket, Xor(0xFFFF_FFFF, Shl(0xFF, k))) == Low(bucket, k)
  {
    hide Pow2, Bitwise, Xor, Shl, Low, Shr;
    var mask := Xor(0xFFFF_FFFF, Shl(0xFF, k));
    MaskParts(k);
    BitwiseSplit(AndOp, bucket, mask, k);
    ShrBoundSum(bucket, k);
    AndOnes(bucket, k);
    ClearedHigh(Shr(bucket, k), Shr(mask, k));
    LowMask(bucket, k);
    SplitJoin(And(bucket, mask), k);
    ShlZero(k);
  }

  lemma ShrBoundSum(v: nat, k: nat)
    requires v < Pow2(k + 8)
    ensures Shr(v, k) < 256
  {
    ShrBound(v, k, 8);
  }

  /** The mask: `k` ones, eight zeros, ones. */
  lemma MaskParts(k: nat)
    requires k <= 24
    ensures var mask := Xor(0xFFFF_FFFF, Shl(0xFF, k)); Low(mask, k) == Pow2(k) - 1 && Low(Shr(mask, k), 8) == 0
  {
    Pow2Of32();
    Pow2Of8();
    MaskLow(Pow2(32) - 1, k);
    MaskHigh(Pow2(32) - 1, k);
  }

  lemma ShiftedByte(k: nat)
    ensures Low(Shl(0xFF, k), k) == 0 && Shr(Shl(0xFF, k), k) == 0xFF
  {
    Pow2Positive(k);
    SplitUnique(0xFF, 0, k);
  }

  lemma MaskLow(a: nat, k: nat)
    requires k <= 24 && a == Pow2(32) - 1
    ensures Low(Xor(a, Shl(0xFF, k)), k) == Pow2(k) - 1
  {
    hide Bitwise, Shl, Low, Pow2;
    BitwiseSplit(XorOp, a, Shl(0xFF, k), k);
    ShiftedByte(k);
    OnesParts(k, 32 - k);
    XorZero(Low(a, k));
  }

  lemma MaskHigh(a: nat, k: nat)
    requires k <= 24 && a == Pow2(32) - 1
    ensures Low(Shr(Xor(a, Shl(0xFF, k)), k), 8) == 0
  {
    hide Bitwise, Shl, Low, Pow2;
    BitwiseSplit(XorOp, a, Shl(0xFF, k), k);
    ShiftedByte(k);
    OnesParts(k, 32 - k);
    var hi := Pow2(32 - k) - 1;
    assert Shr(Xor(a, Shl(0xFF, k)), k) == Xor(hi, 0xFF);
    BitwiseLow(XorOp, hi, 0xFF, 8);
    OnesParts(8, 24 - k);
    Pow2Of8();
    LowSmall(0xFF, 8);
    XorSelf(0xFF);
  }

  lemma Pow2Positive(k: nat)
    ensures 0 < Pow2(k)
  {}

  /** All-ones numbers split into all-ones numbers. */
  lemma Halves(m: nat)
    requires m > 0
    ensures (2 * m - 1) / 2 == m - 1 && (2 * m - 1) % 2 == 1
  {}

  lemma {:induction false} OnesParts(j: nat, k: nat)
    ensures Low(Pow2(j + k) - 1, j) == Pow2(j) - 1 && Shr(Pow2(j + k) - 1, j) == Pow2(k) - 1
  {
    if j > 0 {
      OnesParts(j - 1, k);
      var m := Pow2(j + k - 1);
      assert Pow2(j + k) == 2 * m && Pow2(j) == 2 * Pow2(j - 1);
      Halves(m);
    }
  }

  lemma ClearedHigh(hi: nat, mask: nat)
    requires hi < 256 && Low(mask, 8) == 0
    ensures And(hi, mask) == 0
  {
    Pow2Of8();
    BitwiseSplit(AndOp, hi, mask, 8);
    LowSmall(hi, 8);
    AndZero(hi);
    AndZero(Shr(mask, 8));
    SplitJoin(And(hi, mask), 8);
    ShlZero(8);
  }

  lemma LowMask(bucket: nat, k: nat)
    ensures And(Low(bucket, k), Pow2(k) - 1) == Low(bucket, k)
  {
    AndOnes(Low(bucket, k), k);
    LowLow(bucket, k, k);
  }

  /** Moving the top byte of the bucket to the data conserves the value of the two together. */
  lemma DrainStep(total: nat, bucket: nat, k: nat)
    requires bucket < Pow2(k + 8)
    ensures Shr(bucket, k) < 256
    ensures Shl(Shl(total, 8) + Shr(bucket, k), k) + Low(bucket, k) == Shl(total, k + 8) + bucket
  {
    ShrBoundSum(bucket, k);
    SplitJoin(bucket, k);
    ShlAdd(Shl(total, 8), Shr(bucket, k), k);
    ShlShl(total, 8, k);
  }

  /**
  The bucket loop: all whole bytes of the indices read as one big-endian number, and the
  bits left over.
  */
  method Drain(indices: seq<nat>) returns (data: seq<byte>, bucket: nat, bits: nat)
    requires AreDigits(11, indices)
    ensures 8 * |data| + bits == 11 * |indices| && bits < 8 && bucket < Pow2(bits)
    ensures Shl(Value(8, data), bits) + bucket == Value(11, indices)
  {
    hide Pow2, Shl, Shr, Low, And, Or, Xor, Value;
    data, bucket, bits := [], 0, 0;
    EmptyValues();
    for i := 0 to |indices|
      invariant 8 * |data| + bits == 11 * i && bits < 8 && bucket < Pow2(bits)
      invariant Shl(Value(8, data), bits) + bucket == Value(11, indices[..i])
    {
      assert indices[..i + 1] == indices[..i] + [indices[i]];
      ValueAppend(11, indices[..i], indices[i]);
      FillStep(Value(8, data), bucket, bits, indices[i]);
      bucket := Or(Shl(bucket, 11), indices[i]);
      bits := bits + 11;
      while bits >= 8
        invariant 8 * |data| + bits == 11 * (i + 1) && bits <= 18 && bucket < Pow2(bits)
        invariant Shl(Value(8, data), bits) + bucket == Value(11, indices[..i + 1])
      {
        var k := bits - 8;
        DrainStep(Value(8, data), bucket, k);
        MaskClears(bucket, k);
        ByteMask(Shr(bucket, k));
        ValueAppend(8, data, Shr(bucket, k));
        var b: byte := And(Shr(bucket, k), 0xFF);
        data := data + [b];
        bucket := And(bucket, Xor(0xFFFF_FFFF, Shl(0xFF, k)));
        bits := k;
      }
    }
    assert indices[..|indices|] == indices;
  }

  lemma EmptyValues()
    ensures Value(8, []) == 0 && Value(11, []) == 0 && Shl(0, 0) == 0 && Pow2(0) == 1
  {}

  lemma ByteMask(b: nat)
    requires b < 256
    ensures And(b, 0xFF) == b
  {
    Pow2Of8();
    AndOnes(b, 8);
    LowSmall(b, 8);
  }

  /** Pushing an index conserves the value, and the bucket stays within its bits. */
  lemma FillStep(total: nat, bucket: nat, bits: nat, index: nat)
    requires bucket < Pow2(bits) && index < Pow2(11)
    ensures Or(Shl(bucket, 11), index) < Pow2(bits + 11)
    ensures Shl(total, bits + 11) + Or(Shl(bucket, 11), index) == Shl(Shl(total, bits) + bucket, 11) + index
  {
    DisjointSum(bucket, index, 11);
    SplitUnique(bucket, index, 11);
    ShrBound(Shl(bucket, 11) + index, 11, bits);
    ShlAdd(Shl(total, bits), bucket, 11);
    ShlShl(total, bits, 11);
  }

  // ----- encoding and decoding

  datatype Result = Ok(data: seq<byte>) | BadLength | NotAWord(word: string) | BadChecksum

  predicate Allowed(n: nat) { n == 12 || n == 15 || n == 18 || n == 21 || n == 24 }

  /** The checksum: one bit per four bytes of data, from the top of the first digest byte. */
  function Checksum(sha: seq<byte> -> byte, data: seq<byte>): nat
    requires |data| / 4 <= 8
  {
    Shr(sha(data), 8 - |data| / 4)
  }

  /** Entropy and checksum as one number, cut into 11-bit indices (BIP-39, "Generating the mnemonic"). */
  function Encode(sha: seq<byte> -> byte, data: seq<byte>): (indices: seq<nat>)
    requires |data| / 4 <= 8
    ensures |indices| == 3 * (|data| / 4) && AreDigits(11, indices)
  {
    var k := |data| / 4;
    Digits(11, Shl(Value(8, data), k) + Checksum(sha, data), 3 * k)
  }

  lemma ChecksumBound(sha: seq<byte> -> byte, d: seq<byte>)
    requires |d| / 4 <= 8
    ensures Checksum(sha, d) < Pow2(|d| / 4)
  {
    Pow2Of8();
    ShrBound(sha(d), 8 - |d| / 4, |d| / 4);
  }

  /** The checksum is the top of the digest byte: one bit for each four bytes. */
  lemma ChecksumTop(sha: seq<byte> -> byte, d: seq<byte>)
    requires |d| / 4 <= 8
    ensures Checksum(sha, d) == sha(d) / Pow2(8 - |d| / 4)
  {
    ShrIsDiv(sha(d), 8 - |d| / 4);
  }

  /** The number behind the indices of `d`. */
  lemma EncodeValue(sha: seq<byte> -> byte, d: seq<byte>)
    requires |d| % 4 == 0 && |d| / 4 <= 8
    ensures Value(11, Encode(sha, d)) == Shl(Value(8, d), |d| / 4) + Checksum(sha, d)
  {
    hide Value, Digits, Shl, Pow2, Checksum;
    var k := |d| / 4;
    var v := Shl(Value(8, d), k) + Checksum(sha, d);
    BytesAreDigits(d);
    ValueBound(8, d);
    ChecksumBound(sha, d);
    SplitUnique(Value(8, d), Checksum(sha, d), k);
    ShrBound(v, k, 32 * k);
    assert 8 * |d| == 32 * k && k + 32 * k == 11 * (3 * k);
    ValueOfDigits(11, v, 3 * k);
  }

  /** The phrase number of `d`: entropy, and behind it the top bits of the digest. */
  ghost function PhraseNumber(sha: seq<byte> -> byte, d: seq<byte>): nat
    requires |d| / 4 <= 8
  {
    Value(8, d) * Pow2(|d| / 4) + sha(d) / Pow2(8 - |d| / 4)
  }

  /** Indices encode `d` exactly if, read as one number of 11-bit digits, they are that number. */
  lemma EncodeNumber(sha: seq<byte> -> byte, indices: seq<nat>, d: seq<byte>)
    requires |d| % 4 == 0 && |d| / 4 <= 8
    ensures indices == Encode(sha, d) <==>
      |indices| == 3 * (|d| / 4) && AreDigits(11, indices) && Value(11, indices) == PhraseNumber(sha, d)
  {
    hide Value, Digits, Shl, Pow2, Checksum;
    EncodeValue(sha, d);
    ChecksumTop(sha, d);
    ShlIsMul(Value(8, d), |d| / 4);
    if |indices| == 3 * (|d| / 4) && AreDigits(11, indices) && Value(11, indices) == PhraseNumber(sha, d) {
      DigitsOfValue(11, indices);
    }
  }

  /** Sixteen zero bytes with the digest byte 0x37 are eleven times the first word and once the fourth. */
  lemma ZeroPhrase(sha: seq<byte> -> byte, d: seq<byte>)
    requires |d| == 16 && (forall k :: 0 <= k < 16 ==> d[k] == 0) && sha(d) == 0x37
    ensures Encode(sha, d) == [0, 0, 0, 0, 0, 0, 0, 0, 0, 0, 0, 3]
  {
    var indices: seq<nat> := [0, 0, 0, 0, 0, 0, 0, 0, 0, 0, 0, 3];
    ZeroValue(8, d);
    var zeros := indices[..11];
    ZeroValue(11, zeros);
    ShlZero(11);
    assert Value(11, indices) == 3;
    assert Pow2(4) == 16 && 0 * Pow2(4) == 0;
    assert AreDigits(11, indices) by { Pow2Monotone(2, 11); }
    hide Value, Encode, Pow2;
    EncodeNumber(sha, indices, d);
  }

  lemma {:induction false} ZeroValue(w: nat, s: seq<nat>)
    requires forall k :: 0 <= k < |s| ==> s[k] == 0
    ensures Value(w, s) == 0
  {
    if s != [] {
      ZeroValue(w, s[..|s| - 1]);
      ShlZero(w);
    }
  }

  /** Indices that stand for `data` followed by `entered` encode `d` only if `d` is that data. */
  lemma EncodeIff(sha: seq<byte> -> byte, indices: seq<nat>, data: seq<byte>, entered: nat, d: seq<byte>)
    requires |d| == |data| && |d| % 4 == 0 && |d| / 4 <= 8 && AreDigits(11, indices) && |indices| == 3 * (|d| / 4)
    requires Value(11, indices) == Shl(Value(8, data), |d| / 4) + entered && entered < Pow2(|d| / 4)
    ensures indices == Encode(sha, d) <==> d == data && Checksum(sha, data) == entered
  {
    hide Value, Digits, Shl, Pow2, Checksum;
    if indices == Encode(sha, d) {
      EncodeValue(sha, d);
      ChecksumBound(sha, d);
      hide Encode;
      SameSplit(d, data, Checksum(sha, d), entered, |d| / 4);
    }
    if d == data && Checksum(sha, data) == entered {
      DigitsOfValue(11, indices);
    }
  }

  lemma SameSplit(d: seq<byte>, e: seq<byte>, x: nat, y: nat, k: nat)
    requires |d| == |e| && x < Pow2(k) && y < Pow2(k)
    requires Shl(Value(8, d), k) + x == Shl(Value(8, e), k) + y
    ensures d == e && x == y
  {
    hide Value, Digits, Shl, Pow2;
    SplitUnique(Value(8, d), x, k);
    SplitUnique(Value(8, e), y, k);
    BytesAreDigits(d);
    BytesAreDigits(e);
    DigitsOfValue(8, d);
    DigitsOfValue(8, e);
  }

  /** The two ways in which the loop ends amount to the same split. */
  lemma Unload(indices: seq<nat>, data: seq<byte>, bucket: nat, bits: nat)
    requires Allowed(|indices|) && 8 * |data| + bits == 11 * |indices| && bits < 8 && bucket < Pow2(bits)
    requires Shl(Value(8, data), bits) + bucket == Value(11, indices)
    ensures bits != 0 ==> bits == |indices| / 3 && |data| == 4 * bits
    ensures bits == 0 ==> |data| == 33 && |indices| == 24
    ensures bits == 0 ==> Shl(Value(8, data[..32]), 8) + data[32] == Value(11, indices)
  {
    if bits == 0 { assert bucket == 0; }
  }

  /**
  The decoder returns a data string exactly when the indices are its encoding; so it inverts
  the encoding, and a wrong checksum means that the indices encode nothing.
  */
  method Decode(sha: seq<byte> -> byte, indices: seq<nat>) returns (r: Result)
    requires AreDigits(11, indices)
    ensures r == BadLength <==> !Allowed(|indices|)
    ensures Allowed(|indices|) ==>
      forall d: seq<byte> :: |d| == |indices| / 3 * 4 ==> (r == Ok(d) <==> indices == Encode(sha, d))
    ensures r.Ok? ==> |r.data| == |indices| / 3 * 4 && Value(11, indices) == PhraseNumber(sha, r.data)
    ensures !r.NotAWord?
  {
    hide Value, Shl, Pow2, Encode, AreDigits, PhraseNumber;
    if !Allowed(|indices|) { return BadLength; }
    var data, bucket, bits := Drain(indices);
    Unload(indices, data, bucket, bits);
    Pow2Of8();
    var entered: nat;
    if bits == 0 {
      entered := data[|data| - 1];
      data := data[..|data| - 1];
    } else {
      entered := bucket;
    }
    var checksumBits := |data| / 4;
    var checksum := Shr(sha(data), 8 - checksumBits);
    r := if checksum == entered then Ok(data) else BadChecksum;
    forall d: seq<byte> | |d| == |indices| / 3 * 4
      ensures indices == Encode(sha, d) <==> d == data && Checksum(sha, data) == entered
    {
      EncodeIff(sha, indices, data, entered, d);
    }
    EncodeNumber(sha, indices, data);
  }

  // ----- from words to indices

  /** table.index(word), for words of the table */
  function IndexOf(table: seq<string>, word: string): (i: nat)
    requires word in table
    ensures i < |table| && table[i] == word && forall k :: 0 <= k < i ==> table[k] != word
  {
    if table[0] == word then 0 else 1 + IndexOf(table[1..], word)
  }

  function IndicesOf(table: seq<string>, words: seq<string>): (indices: seq<nat>)
    requires forall i :: 0 <= i < |words| ==> words[i] in table
    ensures |indices| == |words|
  {
    seq(|words|, i requires 0 <= i < |words| => IndexOf(table, words[i]))
  }

  function WordsOf(table: seq<string>, indices: seq<nat>): (words: seq<string>)
    requires forall i :: 0 <= i < |indices| ==> indices[i] < |table|
    ensures |words| == |indices| && forall i :: 0 <= i < |words| ==> words[i] in table
  {
    seq(|indices|, i requires 0 <= i < |indices| => table[indices[i]])
  }

  /** In a table without repetitions, words and indices determine each other. */
  lemma WordsRoundTrip(table: seq<string>, indices: seq<nat>)
    requires Distinct(table)
    requires forall i :: 0 <= i < |indices| ==> indices[i] < |table|
    ensures IndicesOf(table, WordsOf(table, indices)) == indices
  {
    hide IndexOf;
    var words := WordsOf(table, indices);
    forall i | 0 <= i < |indices| ensures IndicesOf(table, words)[i] == indices[i] {
      var j := IndexOf(table, words[i]);
      assert table[j] == table[indices[i]];
    }
  }

  /** bip39_to_bits on the words of a phrase. */
  method DecodePhrase(sha: seq<byte> -> byte, table: seq<string>, words: seq<string>) returns (r: Result)
    requires |table| == 2048
    ensures r == BadLength <==> !Allowed(|words|)
    ensures Allowed(|words|) ==> (r.NotAWord? <==> exists i :: 0 <= i < |words| && words[i] !in table)
    ensures r.NotAWord? ==>
      exists i :: 0 <= i < |words| && words[i] == r.word && words[i] !in table
               && forall k :: 0 <= k < i ==> words[k] in table
    ensures Allowed(|words|) && !r.NotAWord? ==>
      forall d: seq<byte> :: |d| == |words| / 3 * 4 ==> (r == Ok(d) <==> IndicesOf(table, words) == Encode(sha, d))
    ensures Allowed(|words|) && Distinct(table) ==>
      forall d: seq<byte> :: |d| == |words| / 3 * 4 ==> (r == Ok(d) <==> words == PhraseOf(sha, table, d))
  {
    hide IndexOf, Encode, Pow2, PhraseOf, IndicesOf;
    if !Allowed(|words|) { return BadLength; }
    var indices: seq<nat> := [];
    for i := 0 to |words|
      invariant forall k :: 0 <= k < i ==> words[k] in table
      invariant |indices| == i && forall k :: 0 <= k < i ==> indices[k] == IndexOf(table, words[k])
    {
      if words[i] !in table {
        PhraseWords(sha, table);
        return NotAWord(words[i]);
      }
      indices := indices + [IndexOf(table, words[i])];
    }
    IndicesAre(table, words, indices);
    Pow2Of11();
    r := Decode(sha, indices);
    if Distinct(table) {
      forall d: seq<byte> | |d| == |words| / 3 * 4
        ensures IndicesOf(table, words) == Encode(sha, d) <==> words == PhraseOf(sha, table, d)
      {
        PhraseIff(sha, table, words, d);
      }
    }
  }

  lemma IndicesAre(table: seq<string>, words: seq<string>, indices: seq<nat>)
    requires forall i :: 0 <= i < |words| ==> words[i] in table
    requires |indices| == |words| && forall k :: 0 <= k < |words| ==> indices[k] == IndexOf(table, words[k])
    ensures indices == IndicesOf(table, words)
  {
    hide IndexOf;
  }

  ghost predicate Distinct(table: seq<string>) { forall j, k :: 0 <= j < k < |table| ==> table[j] != table[k] }

  /** The phrase that stands for the bytes `d`. */
  function PhraseOf(sha: seq<byte> -> byte, table: seq<string>, d: seq<byte>): seq<string>
    requires |table| == 2048 && |d| / 4 <= 8
  {
    Pow2Of11();
    WordsOf(table, Encode(sha, d))
  }

  lemma PhraseWords(sha: seq<byte> -> byte, table: seq<string>)
    requires |table| == 2048
    ensures forall d: seq<byte> :: |d| / 4 <= 8 ==>
      forall i :: 0 <= i < |PhraseOf(sha, table, d)| ==> PhraseOf(sha, table, d)[i] in table
  {
    hide Encode;
  }

  /** Words in the list mean `d` exactly if they are the phrase for it. */
  lemma PhraseIff(sha: seq<byte> -> byte, table: seq<string>, words: seq<string>, d: seq<byte>)
    requires |table| == 2048 && |d| / 4 <= 8 && Distinct(table)
    requires forall i :: 0 <= i < |words| ==> words[i] in table
    ensures IndicesOf(table, words) == Encode(sha, d) <==> words == PhraseOf(sha, table, d)
  {
    hide Encode, IndexOf;
    Pow2Of11();
    WordsRoundTrip(table, Encode(sha, d));
  }

  lemma Pow2Of11()
    ensures Pow2(11) == 2048
  {}
}

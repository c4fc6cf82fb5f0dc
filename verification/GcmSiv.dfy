/**
AES-GCM-SIV encryption and decryption (tools/rfc8452.py, class AES_GCM_SIV; sections 4 and
5 of RFC 8452). The AES block function is any function from a key and a block to a block:
nothing below depends on which one, not even on its being invertible.
*/
module GcmSiv {
  import opened Bits
  import opened Bytes
  import opened Field
  import opened Options
  import opened Polyval

  const LIMIT: nat := 0x10_0000_0000  // 2**36
  const WORD: nat := 0x1_0000_0000    // 2**32

  datatype Failure = PlaintextTooLarge | AdditionalDataTooLarge | CiphertextSize | AuthFail

  datatype Result = Ok(bytes: seq<byte>) | Err(why: Failure)

  type BlockFunction = (seq<byte>, Block) -> Block

  // ----- counter mode

  lemma XorBytesCancel(a: seq<byte>, b: seq<byte>)
    requires |a| >= |b|
    ensures XorBytes(a, XorBytes(a, b)) == b
  {
    forall i | 0 <= i < |b| ensures XorBytes(a, XorBytes(a, b))[i] == b[i] {
      ByteXorCancel(a[i], b[i]);
    }
  }

  /** The 32-bit little-endian counter in front of the block wraps around. */
  function NextCounter(block: Block): Block {
    ToLittle((FromLittle(block[..4]) + 1) % WORD, 4) + block[4..]
  }

  function Chunk(inp: seq<byte>): nat { if |inp| < 16 then |inp| else 16 }

  // The block function applied to one counter block after the other, xored onto the input.
  function Ctr(aes: BlockFunction, key: seq<byte>, block: Block, inp: seq<byte>): (out: seq<byte>)
    decreases |inp|
  {
    if inp == [] then []
    else XorBytes(aes(key, block), inp[..Chunk(inp)]) + Ctr(aes, key, NextCounter(block), inp[Chunk(inp)..])
  }

  lemma {:induction false} CtrLength(aes: BlockFunction, key: seq<byte>, block: Block, inp: seq<byte>)
    ensures |Ctr(aes, key, block, inp)| == |inp|
    decreases |inp|
  {
    if inp != [] { CtrLength(aes, key, NextCounter(block), inp[Chunk(inp)..]); }
  }

  /** Applying the keystream twice gives the input back. */
  lemma {:induction false} CtrInvolution(aes: BlockFunction, key: seq<byte>, block: Block, inp: seq<byte>)
    ensures Ctr(aes, key, block, Ctr(aes, key, block, inp)) == inp
    decreases |inp|
  {
    if inp != [] {
      var c := Chunk(inp);
      var head, tail := XorBytes(aes(key, block), inp[..c]), Ctr(aes, key, NextCounter(block), inp[c..]);
      CtrLength(aes, key, NextCounter(block), inp[c..]);
      var out := head + tail;
      assert Chunk(out) == c && out[..c] == head && out[c..] == tail;
      XorBytesCancel(aes(key, block), inp[..c]);
      CtrInvolution(aes, key, NextCounter(block), inp[c..]);
      assert inp == inp[..c] + inp[c..];
    }
  }

  lemma CtrNothing(aes: BlockFunction, key: seq<byte>)
    ensures forall block :: Ctr(aes, key, block, []) == []
  {}

  function CounterAt(block: Block, n: nat): Block
    decreases n
  {
    if n == 0 then block else CounterAt(NextCounter(block), n - 1)
  }

  lemma NextCounterValue(block: Block)
    ensures FromLittle(NextCounter(block)[..4]) == (FromLittle(block[..4]) + 1) % WORD
    ensures NextCounter(block)[4..] == block[4..]
  {
    var n := (FromLittle(block[..4]) + 1) % WORD;
    Pow2Of32();
    FromToLittle(n, 4);
    assert NextCounter(block)[..4] == ToLittle(n, 4);
  }

  lemma Pow2Of64()
    ensures Pow2(64) == WORD * WORD
  {
    Pow2Of32();
    Pow2Plus8(32);
    Pow2Plus8(40);
    Pow2Plus8(48);
    Pow2Plus8(56);
  }

  lemma WrapAdd(c: nat, n: nat)
    requires n > 0
    ensures ((c + 1) % WORD + (n - 1)) % WORD == (c + n) % WORD
  {}

  lemma WrapDistinct(c: nat, i: nat, j: nat)
    requires i < j < WORD
    ensures (c + i) % WORD != (c + j) % WORD
  {}

  lemma {:induction false} CounterAtValue(block: Block, n: nat)
    ensures FromLittle(CounterAt(block, n)[..4]) == (FromLittle(block[..4]) + n) % WORD
    decreases n
  {
    if n == 0 {
      FromLittleBound(block[..4]);
      Pow2Of32();
    } else {
      hide NextCounter, FromLittle;
      NextCounterValue(block);
      CounterAtValue(NextCounter(block), n - 1);
      WrapAdd(FromLittle(block[..4]), n);
    }
  }

  /**
  The length limit of 2**36 bytes is 2**32 blocks: within one message no counter block,
  and so no keystream block, is used twice.
  */
  lemma CountersDistinct(block: Block, inp: seq<byte>, i: nat, j: nat)
    requires |inp| <= LIMIT && 16 * i < |inp| && 16 * j < |inp| && i != j
    ensures CounterAt(block, i) != CounterAt(block, j)
  {
    hide CounterAt, FromLittle;
    CounterAtValue(block, i);
    CounterAtValue(block, j);
    if i < j {
      WrapDistinct(FromLittle(block[..4]), i, j);
    } else {
      WrapDistinct(FromLittle(block[..4]), j, i);
    }
  }

  /** Byte `k` of the output uses byte `k % 16` of keystream block `k / 16`. */
  lemma {:induction false} CtrByte(aes: BlockFunction, key: seq<byte>, block: Block, inp: seq<byte>, k: nat)
    requires k < |inp|
    ensures |Ctr(aes, key, block, inp)| == |inp|
    ensures Ctr(aes, key, block, inp)[k] == ByteXor(aes(key, CounterAt(block, k / 16))[k % 16], inp[k])
    decreases |inp|
  {
    hide ByteXor, NextCounter;
    CtrLength(aes, key, block, inp);
    var c := Chunk(inp);
    if k >= c {
      assert c == 16;
      CtrByte(aes, key, NextCounter(block), inp[16..], k - 16);
      CtrLength(aes, key, NextCounter(block), inp[16..]);
    }
  }

  // ----- the cipher

  /** The object the tool builds from a key and a nonce; `aes` is the block function. */
  datatype Cipher = Cipher(aes: BlockFunction, authKey: seq<byte>, encKey: seq<byte>, nonce: seq<byte>) {

    ghost predicate Valid() { |nonce| == 12 && |authKey| == 16 }

    function Encipher(b: Block): Block { aes(encKey, b) }

    function LengthBlock(text: seq<byte>, ad: seq<byte>): Block {
      ToLittle(8 * |ad|, 8) + ToLittle(8 * |text|, 8)
    }

    /** The tag: one batch POLYVAL over all padded blocks, masked and enciphered. */
    function Tag(text: seq<byte>, ad: seq<byte>): Block
      requires |nonce| >= 12
    {
      var s := PolyvalOf(FromLittle(authKey), Elements(RightPad(ad) + RightPad(text) + LengthBlock(text, ad)));
      Encipher(DigestOf(s, nonce))
    }

    function InitialCounter(tag: Block): Block {
      tag[15 := if tag[15] < 128 then tag[15] + 128 else tag[15]]
    }

    function Sealed(text: seq<byte>, ad: seq<byte>): Result
      requires |nonce| >= 12
    {
      if |text| > LIMIT then Err(PlaintextTooLarge)
      else if |ad| > LIMIT then Err(AdditionalDataTooLarge)
      else
        var tag := Tag(text, ad);
        Ok(Ctr(aes, encKey, InitialCounter(tag), text) + tag)
    }

    function Opened(ciphertext: seq<byte>, ad: seq<byte>): Result
      requires |nonce| >= 12
    {
      if |ciphertext| < 16 || |ciphertext| > LIMIT + 16 then Err(CiphertextSize)
      else if |ad| > LIMIT then Err(AdditionalDataTooLarge)
      else
        var n := |ciphertext| - 16;
        var tag: Block := ciphertext[n..];
        var text := Ctr(aes, encKey, InitialCounter(tag), ciphertext[..n]);
        if Tag(text, ad) == tag then Ok(text) else Err(AuthFail)
    }

    /**
    The padding is unambiguous: the field elements under the tag determine both the
    additional data and the plaintext.
    */
    lemma TagInputInjective(text: seq<byte>, ad: seq<byte>, text': seq<byte>, ad': seq<byte>)
      requires |text| <= LIMIT && |ad| <= LIMIT && |text'| <= LIMIT && |ad'| <= LIMIT
      requires Elements(RightPad(ad) + RightPad(text) + LengthBlock(text, ad))
            == Elements(RightPad(ad') + RightPad(text') + LengthBlock(text', ad'))
      ensures text == text' && ad == ad'
    {
      hide LengthBlock, RightPad, Elements, FromLittle;
      var l, l' := LengthBlock(text, ad), LengthBlock(text', ad');
      var p, q, p', q' := RightPad(ad), RightPad(text), RightPad(ad'), RightPad(text');
      SameInput(p, q, l, p', q', l');
      SameLengths(text, ad, text', ad');
      PadLength(ad, ad');
      SameParts(p, q, p', q');
      PadInjective(ad, ad');
      PadInjective(text, text');
    }

    lemma SameLengths(text: seq<byte>, ad: seq<byte>, text': seq<byte>, ad': seq<byte>)
      requires |text| <= LIMIT && |ad| <= LIMIT && |text'| <= LIMIT && |ad'| <= LIMIT
      requires LengthBlock(text, ad) == LengthBlock(text', ad')
      ensures |text| == |text'| && |ad| == |ad'|
    {
      hide LengthBlock, FromLittle;
      LengthBlockRead(text, ad);
      LengthBlockRead(text', ad');
    }

    lemma LengthBlockRead(text: seq<byte>, ad: seq<byte>)
      requires |text| <= LIMIT && |ad| <= LIMIT
      ensures FromLittle(LengthBlock(text, ad)[..8]) == 8 * |ad|
      ensures FromLittle(LengthBlock(text, ad)[8..]) == 8 * |text|
    {
      Pow2Of64();
      FromToLittle(8 * |ad|, 8);
      FromToLittle(8 * |text|, 8);
      assert LengthBlock(text, ad)[..8] == ToLittle(8 * |ad|, 8);
      assert LengthBlock(text, ad)[8..] == ToLittle(8 * |text|, 8);
    }

    // ----- the loops

    method AesCtr(initialBlock: Block, input: seq<byte>) returns (output: seq<byte>)
      ensures output == Ctr(aes, encKey, initialBlock, input)
    {
      hide Ctr, FromLittle, ToLittle, And, XorBytes;
      var block := initialBlock;
      var inp := input;
      output := [];
      CtrNothing(aes, encKey);
      while |inp| > 0
        invariant output + Ctr(aes, encKey, block, inp) == Ctr(aes, encKey, initialBlock, input)
        decreases |inp|
      {
        var keystream := Encipher(block);
        CounterStep(block);
        var next: Block := ToLittle(And(FromLittle(block[..4]) + 1, 0xffff_ffff), 4) + block[4..];
        var todo := if |inp| < |keystream| then |inp| else |keystream|;
        var piece := XorPrefix(keystream, inp, todo);
        CtrStep(output, block, inp);
        output, block, inp := output + piece, next, inp[todo..];
      }
    }

    lemma CtrStep(output: seq<byte>, block: Block, inp: seq<byte>)
      requires inp != []
      ensures output + XorBytes(Encipher(block), inp[..Chunk(inp)])
            + Ctr(aes, encKey, NextCounter(block), inp[Chunk(inp)..])
           == output + Ctr(aes, encKey, block, inp)
    {
    }

    static method XorPrefix(keystream: Block, inp: seq<byte>, todo: nat) returns (piece: seq<byte>)
      requires todo <= 16 && todo <= |inp|
      ensures piece == XorBytes(keystream, inp[..todo])
    {
      piece := [];
      for j := 0 to todo
        invariant piece == XorBytes(keystream, inp[..j])
      {
        piece := piece + [ByteXor(keystream[j], inp[j])];
      }
    }

    method PolyvalCalc(text: seq<byte>, ad: seq<byte>) returns (d: Block)
      requires |nonce| >= 12
      ensures Encipher(d) == Tag(text, ad)
    {
      var pvh := new PolyvalIUF(authKey, nonce);
      pvh.Update(ad);
      pvh.Update(text);
      pvh.Update(LengthBlock(text, ad));
      var digest := pvh.Digest();
      d := digest.value;
      ThreeUpdates(FromLittle(authKey), ad, text, LengthBlock(text, ad));
    }

    method Encrypt(text: seq<byte>, ad: seq<byte>) returns (r: Result)
      requires Valid()
      ensures r == Sealed(text, ad)
    {
      hide Tag, Ctr, Or;
      if |text| > LIMIT { return Err(PlaintextTooLarge); }
      if |ad| > LIMIT { return Err(AdditionalDataTooLarge); }
      var s := PolyvalCalc(text, ad);
      var tag := Encipher(s);
      SetTop(tag[15]);
      var counter: Block := tag[15 := Or(tag[15], 0x80)];
      var body := AesCtr(counter, text);
      r := Ok(body + tag);
    }

    method Decrypt(ciphertext: seq<byte>, ad: seq<byte>) returns (r: Result)
      requires Valid()
      ensures r == Opened(ciphertext, ad)
    {
      hide Tag, Ctr, Or, Xor;
      if |ciphertext| < 16 || |ciphertext| > LIMIT + 16 { return Err(CiphertextSize); }
      if |ad| > LIMIT { return Err(AdditionalDataTooLarge); }
      var n := |ciphertext| - 16;
      var tag: Block := ciphertext[n..];
      SetTop(tag[15]);
      var counter: Block := tag[15 := Or(tag[15], 0x80)];
      var text := AesCtr(counter, ciphertext[..n]);
      var s := PolyvalCalc(text, ad);
      var expected := Encipher(s);
      var xorSum: nat := 0;
      for i := 0 to |expected|
        invariant xorSum == 0 <==> expected[..i] == tag[..i]
      {
        XorZeroIff(expected[i], tag[i]);
        OrZeroIff(xorSum, Xor(expected[i], tag[i]));
        xorSum := Or(xorSum, Xor(expected[i], tag[i]));
      }
      assert expected[..16] == expected && tag[..16] == tag;
      r := if xorSum != 0 then Err(AuthFail) else Ok(text);
    }

    // ----- the main theorem

    // ----- what the answers are

    /** The number that is enciphered into the tag, as section 4 of RFC 8452 describes it. */
    ghost function TagNumber(text: seq<byte>, ad: seq<byte>): nat {
      var xs := Elements(RightPad(ad) + RightPad(text) + LengthBlock(text, ad));
      Low(Xor(PolyvalSum(FromLittle(authKey), xs), FromLittle(nonce)), 127)
    }

    lemma TagValue(text: seq<byte>, ad: seq<byte>)
      requires Valid()
      ensures Tag(text, ad) == Encipher(ToLittle(TagNumber(text, ad), 16))
    {
      hide Elements, RightPad, LengthBlock, PolyvalOf, PolyvalSum, DigestOf, FromLittle, ToLittle, Low, Pow2, Xor;
      var h, xs := FromLittle(authKey), Elements(RightPad(ad) + RightPad(text) + LengthBlock(text, ad));
      FromLittleBound(authKey);
      ElementsAreElements(RightPad(ad) + RightPad(text) + LengthBlock(text, ad));
      PolyvalIsSum(h, xs);
      PolyvalElement(h, xs);
      DigestValue(PolyvalOf(h, xs), nonce);
      ToFromLittle(DigestOf(PolyvalOf(h, xs), nonce));
    }

    /** The counter starts at the tag with its top bit set. */
    lemma InitialCounterValue(tag: Block)
      ensures FromLittle(InitialCounter(tag)) == Or(FromLittle(tag), Pow2(127))
    {
      hide FromLittle, Pow2, Shl, Or, Bitwise, InitialCounter;
      var lo, top := tag[..15], tag[15];
      CounterBytes(tag);
      SetTop(top);
      FromLittleSnoc(lo, top);
      FromLittleSnoc(lo, Or(top, 0x80));
      FromLittleBound(lo);
      OrTop(FromLittle(lo), top, 120);
    }

    lemma CounterBytes(tag: Block)
      ensures Or(tag[15], 0x80) < 256
      ensures tag == tag[..15] + [tag[15]] && InitialCounter(tag) == tag[..15] + [Or(tag[15], 0x80)]
    {
      hide Or;
      SetTop(tag[15]);
    }

    /** A ciphertext byte by byte: the text under the keystream of that counter, and then the tag. */
    lemma SealedBytes(text: seq<byte>, ad: seq<byte>)
      requires Valid() && |text| <= LIMIT && |ad| <= LIMIT
      ensures Sealed(text, ad).Ok? && |Sealed(text, ad).bytes| == |text| + 16
      ensures Sealed(text, ad).bytes[|text|..] == Tag(text, ad)
      ensures forall k :: 0 <= k < |text| ==>
        Sealed(text, ad).bytes[k]
        == ByteXor(Encipher(CounterAt(InitialCounter(Tag(text, ad)), k / 16))[k % 16], text[k])
    {
      hide Tag, Ctr, InitialCounter, CounterAt, ByteXor;
      var start := InitialCounter(Tag(text, ad));
      CtrLength(aes, encKey, start, text);
      forall k | 0 <= k < |text|
        ensures Sealed(text, ad).bytes[k] == ByteXor(Encipher(CounterAt(start, k / 16))[k % 16], text[k])
      {
        CtrByte(aes, encKey, start, text, k);
      }
    }

    lemma EmptyTag()
      requires Valid()
      ensures Tag([], []) == Encipher(nonce + [0, 0, 0, 0])
    {
      hide Elements, PolyvalOf, DigestOf, FromLittle, ToLittle, Pow2;
      FromLittleBound(authKey);
      EmptyElements(FromLittle(authKey));
      ZeroDigest(nonce);
      NoPadding();
      var z := ToLittle(0, 8) + ToLittle(0, 8);
      assert RightPad([]) + RightPad([]) + LengthBlock([], []) == z;
    }

    /** Nothing, sealed with nothing, is the nonce enciphered. */
    lemma EmptySealed()
      requires Valid()
      ensures Sealed([], []) == Ok(Encipher(nonce + [0, 0, 0, 0]))
    {
      hide Tag, InitialCounter;
      EmptyTag();
      CtrNothing(aes, encKey);
      assert [] + Tag([], []) == Tag([], []);
    }

    /** When sealing and opening fail, apart from a wrong tag. */
    lemma SizeErrors(text: seq<byte>, ad: seq<byte>, ciphertext: seq<byte>)
      requires Valid()
      ensures Sealed(text, ad) == Err(PlaintextTooLarge) <==> |text| > Pow2(36)
      ensures Sealed(text, ad) == Err(AdditionalDataTooLarge) <==> |text| <= Pow2(36) < |ad|
      ensures Opened(ciphertext, ad) == Err(CiphertextSize) <==> !(16 <= |ciphertext| <= Pow2(36) + 16)
      ensures Opened(ciphertext, ad) == Err(AdditionalDataTooLarge) <==>
        16 <= |ciphertext| <= Pow2(36) + 16 && |ad| > Pow2(36)
    {
      Pow2Of36();
      hide Tag, Ctr, InitialCounter, Pow2;
    }

    /**
    A ciphertext is accepted exactly when it is the encryption of the returned plaintext:
    decryption inverts encryption, and accepts nothing else.
    */
    lemma AcceptedIffSealed(ciphertext: seq<byte>, ad: seq<byte>, text: seq<byte>)
      requires |nonce| >= 12
      ensures Opened(ciphertext, ad) == Ok(text) <==> Sealed(text, ad) == Ok(ciphertext)
    {
      hide Tag, Ctr, InitialCounter;
      if Opened(ciphertext, ad) == Ok(text) {
        var n := |ciphertext| - 16;
        var tag: Block := ciphertext[n..];
        CtrInvolution(aes, encKey, InitialCounter(tag), ciphertext[..n]);
        CtrLength(aes, encKey, InitialCounter(tag), ciphertext[..n]);
        assert ciphertext == ciphertext[..n] + tag;
      }
      if Sealed(text, ad) == Ok(ciphertext) {
        var tag := Tag(text, ad);
        CtrLength(aes, encKey, InitialCounter(tag), text);
        CtrInvolution(aes, encKey, InitialCounter(tag), text);
        var n := |ciphertext| - 16;
        assert ciphertext[..n] == Ctr(aes, encKey, InitialCounter(tag), text) && ciphertext[n..] == tag;
      }
    }

    /** Two different messages never have the same ciphertext under the same additional data. */
    lemma SealedInjective(text: seq<byte>, text': seq<byte>, ad: seq<byte>)
      requires |nonce| >= 12
      requires Sealed(text, ad).Ok? && Sealed(text, ad) == Sealed(text', ad)
      ensures text == text'
    {
      AcceptedIffSealed(Sealed(text, ad).bytes, ad, text);
      AcceptedIffSealed(Sealed(text, ad).bytes, ad, text');
    }
  }

  lemma SameEnd(a: seq<byte>, l: Block, a': seq<byte>, l': Block)
    requires a + l == a' + l'
    ensures a == a' && l == l'
  {
    assert a == (a + l)[..|a|] && a' == (a' + l')[..|a|];
    assert l == (a + l)[|a|..] && l' == (a' + l')[|a|..];
  }

  lemma SameInput(p: seq<byte>, q: seq<byte>, l: Block, p': seq<byte>, q': seq<byte>, l': Block)
    requires |p| % 16 == 0 && |q| % 16 == 0 && |p'| % 16 == 0 && |q'| % 16 == 0
    requires Elements(p + q + l) == Elements(p' + q' + l')
    ensures p + q == p' + q' && l == l'
  {
    hide Elements;
    ElementsInjective(p + q + l, p' + q' + l');
    SameEnd(p + q, l, p' + q', l');
  }

  lemma SameParts(p: seq<byte>, q: seq<byte>, p': seq<byte>, q': seq<byte>)
    requires |p| == |p'| && p + q == p' + q'
    ensures p == p' && q == q'
  {
    assert p == (p + q)[..|p|] && p' == (p' + q')[..|p|];
    assert q == (p + q)[|p|..] && q' == (p' + q')[|p|..];
  }

  lemma PadLength(a: seq<byte>, b: seq<byte>)
    requires |a| == |b|
    ensures |RightPad(a)| == |RightPad(b)|
  {}

  lemma PadInjective(a: seq<byte>, b: seq<byte>)
    requires |a| == |b| && RightPad(a) == RightPad(b)
    ensures a == b
  {
    hide RightPad;
    assert a == RightPad(a)[..|a|] && b == RightPad(b)[..|a|];
  }

  lemma CounterStep(block: Block)
    ensures And(FromLittle(block[..4]) + 1, 0xffff_ffff) == (FromLittle(block[..4]) + 1) % WORD
  {
    Pow2Of32();
    AndOnes(FromLittle(block[..4]) + 1, 32);
    ShrIsDiv(FromLittle(block[..4]) + 1, 32);
  }

  lemma SetTop(b: byte)
    ensures Or(b, 0x80) == if b < 128 then b + 128 else b
    ensures Or(b, 0x80) < 256
  {
    assert Pow2(7) == 128;
    ShlIsMul(1, 7);
    ShlZero(7);
    var hi, lo := b / 128, b % 128;
    ShlIsMul(hi, 7);
    BitwiseJoin(OrOp, hi, lo, 1, 0, 7);
    OrZero(lo);
    assert Or(hi, 1) == 1 by { BitwiseStep(OrOp, hi, 1); OrZero(0); }
  }

  lemma Pow2Of36()
    ensures Pow2(36) == LIMIT
  {
    Pow2Of32();
    Pow2Plus2(32);
    Pow2Plus2(34);
  }

  lemma OrTop(lo: nat, top: byte, k: nat)
    requires lo < Pow2(k)
    ensures Or(lo + Shl(top, k), Pow2(k + 7)) == lo + Shl(Or(top, 0x80), k)
  {
    hide *;
    ShlTop(k);
    OrZero(lo);
    OrIs(lo, 0);
    BitwiseJoin(OrOp, top, lo, 128, 0, k);
    OrIs(lo + Shl(top, k), Pow2(k + 7));
    OrIs(top, 128);
  }

  lemma ShlTop(k: nat)
    ensures Pow2(k + 7) == Shl(128, k)
  {
    assert Pow2(7) == 128;
    Pow2Add(7, k);
    ShlIsMul(128, k);
  }

  lemma OrIs(a: nat, b: nat)
    ensures Or(a, b) == Bitwise(OrOp, a, b)
  {
    hide Bitwise;
  }

  /** The blocks of a text are field elements. */
  lemma ElementsAreElements(s: seq<byte>)
    ensures AllElements(Elements(s))
  {
    forall i | 0 <= i < |Blocks(s)| ensures Element(Elements(s)[i]) {
      FromLittleBound(Blocks(s)[i]);
    }
  }

  lemma PolyvalElement(h: nat, xs: seq<nat>)
    ensures Element(PolyvalOf(h, xs))
  {
    assert Element(0) by { Pow2Monotone(0, 128); }
    PolyvalFromElement(0, h, xs);
  }

  lemma NoPadding()
    ensures RightPad([]) == []
  {}

  lemma ZeroElement(z: Block)
    requires forall k :: 0 <= k < 16 ==> z[k] == 0
    ensures Elements(z) == [0]
  {
    assert FromLittle(z) == 0 by {
      FromLittleZeros([], z);
      assert [] + z == z;
    }
    hide FromLittle;
    assert Blocks(z) == [z] by { assert z[16..] == [] && z[..16] == z; }
  }

  /** A block of zeros leaves the state zero. */
  lemma EmptyElements(h: nat)
    requires Element(h)
    ensures PolyvalOf(h, Elements(ToLittle(0, 8) + ToLittle(0, 8))) == 0
  {
    ZeroLittle(8);
    hide PolyvalOf, FromLittle, ToLittle, Elements;
    ZeroElement(ToLittle(0, 8) + ToLittle(0, 8));
    PolyvalOfZero(h);
  }

  lemma PolyvalOfZero(h: nat)
    requires Element(h)
    ensures PolyvalOf(h, [0]) == 0
  {
    hide Dot, Xor;
    DotZero(h);
    XorZero(0);
    assert [0][1..] == [];
  }

  lemma XorBytesZero(z: seq<byte>, n: seq<byte>)
    requires |z| == |n| && forall k :: 0 <= k < |z| ==> z[k] == 0
    ensures XorBytes(z, n) == n
  {
    hide ByteXor;
    forall i | 0 <= i < |n| ensures XorBytes(z, n)[i] == n[i] { XorWithZero(n[i]); }
  }

  lemma ZeroDigest(nonce: seq<byte>)
    requires |nonce| == 12
    ensures DigestOf(0, nonce) == nonce + [0, 0, 0, 0]
  {
    ZeroLittle(16);
    hide DigestOf, ToLittle, XorBytes;
    DigestBytes(0, nonce);
    XorBytesZero(ToLittle(0, 16), nonce + [0, 0, 0, 0]);
  }

  lemma {:induction false} ZeroLittle(n: nat)
    ensures forall i :: 0 <= i < n ==> ToLittle(0, n)[i] == 0
  {
    if n > 0 { ZeroLittle(n - 1); }
  }

  lemma XorZeroIff(a: nat, b: nat)
    ensures Xor(a, b) == 0 <==> a == b
  {
    if a == b { XorSelf(a); }
    if Xor(a, b) == 0 { XorEqual(a, b); }
  }

  lemma {:induction false} OrZeroIff(a: nat, b: nat)
    ensures Or(a, b) == 0 <==> a == 0 && b == 0
    decreases a + b
  {
    if a != 0 || b != 0 {
      OrZeroIff(a / 2, b / 2);
      BitwiseStep(OrOp, a, b);
    }
  }

  // ----- key derivation

  /** Eight bytes of one enciphered (index, nonce) block. */
  function KeyPart(aes: BlockFunction, key: seq<byte>, nonce: seq<byte>, i: nat): (k: seq<byte>)
    requires |nonce| == 12
    ensures |k| == 8
  {
    aes(key, ToLittle(i, 4) + nonce)[..8]
  }

  function NewCipher(aes: BlockFunction, key: seq<byte>, nonce: seq<byte>): (c: Cipher)
    requires |nonce| == 12
    ensures c.Valid()
    ensures |c.encKey| == if |key| == 32 then 32 else 16
  {
    var auth := KeyPart(aes, key, nonce, 0) + KeyPart(aes, key, nonce, 1);
    var enc := KeyPart(aes, key, nonce, 2) + KeyPart(aes, key, nonce, 3);
    var more := if |key| == 32 then KeyPart(aes, key, nonce, 4) + KeyPart(aes, key, nonce, 5) else [];
    Cipher(aes, auth, enc + more, nonce)
  }

  /** Eight bytes of each derived key come from one enciphered block, numbered in order. */
  lemma DerivedKeys(aes: BlockFunction, key: seq<byte>, nonce: seq<byte>, i: nat)
    requires |nonce| == 12
    ensures var c := NewCipher(aes, key, nonce);
            && (i < 2 ==> c.authKey[8 * i..8 * i + 8] == aes(key, ToLittle(i, 4) + nonce)[..8])
            && (8 * i < |c.encKey| ==> c.encKey[8 * i..8 * i + 8] == aes(key, ToLittle(i + 2, 4) + nonce)[..8])
            && c.nonce == nonce && c.aes == aes
  {
    hide ToLittle;
    var more := if |key| == 32 then KeyPart(aes, key, nonce, 4) + KeyPart(aes, key, nonce, 5) else [];
    EightAt(KeyPart(aes, key, nonce, 0), KeyPart(aes, key, nonce, 1), [], i);
    EightAt(KeyPart(aes, key, nonce, 2), KeyPart(aes, key, nonce, 3), more, i);
    if |key| == 32 && i >= 2 { EightAt(KeyPart(aes, key, nonce, 4), KeyPart(aes, key, nonce, 5), [], i - 2); }
  }

  /** The part of a key that starts at byte `8 * i`. */
  lemma EightAt(a: seq<byte>, b: seq<byte>, more: seq<byte>, i: nat)
    requires |a| == 8 && |b| == 8
    ensures a + b + [] == a + b
    ensures i < 2 ==> (a + b + more)[8 * i..8 * i + 8] == if i == 0 then a else b
    ensures i >= 2 && 8 * i + 8 <= 16 + |more| ==>
      (a + b + more)[8 * i..8 * i + 8] == more[8 * (i - 2)..8 * (i - 2) + 8]
  {}
}

/**
Re-encryption of a gateware image to a device key (tools/usb_update.py, bitflip, xor_bytes
and encrypt_to_efuse). AES in CBC mode and SHA-256 are arbitrary functions; where the result
is read back, CBC decryption is required to invert encryption.
*/
module Bitstream {
  import opened Bits
  import opened Bytes
  import opened Options
  import opened Radix

  // ----- reversing the bits of 32-bit words

  function Reversed<T>(s: seq<T>): (r: seq<T>)
    ensures |r| == |s| && forall i :: 0 <= i < |s| ==> r[i] == s[|s| - 1 - i]
  {
    seq(|s|, i requires 0 <= i < |s| => s[|s| - 1 - i])
  }

  function ToBytes(v: nat, n: nat): (r: seq<byte>)
    ensures |r| == n
  {
    Pow2Of8();
    var d := Digits(8, v, n);
    seq(n, i requires 0 <= i < n => d[i])
  }

  /** The binary digits of up to four bytes, written with 32 places and read backwards. */
  function FlipWord(s: seq<byte>): (r: seq<byte>)
    ensures |r| == 4
  {
    ToBytes(Value(1, Reversed(Digits(1, Value(8, s), 32))), 4)
  }

  function Bitflip(s: seq<byte>): seq<byte> {
    if |s| == 0 then []
    else if |s| < 4 then FlipWord(s)
    else FlipWord(s[..4]) + Bitflip(s[4..])
  }

  method BitflipLoop(block: seq<byte>) returns (swapped: seq<byte>)
    ensures swapped == Bitflip(block)
  {
    hide FlipWord;
    swapped := [];
    var i := 0;
    while i < |block|
      invariant 0 <= i
      invariant swapped + Bitflip(if i < |block| then block[i..] else []) == Bitflip(block)
      decreases |block| - i
    {
      ghost var rest := block[i..];
      var word := if i + 4 <= |block| then block[i..i + 4] else block[i..];
      if i + 4 <= |block| {
        assert rest[..4] == word && rest[4..] == block[i + 4..];
        assert i + 4 == |block| ==> block[i + 4..] == [];
      }
      swapped := swapped + FlipWord(word);
      i := i + 4;
    }
    assert Bitflip([]) == [];
  }

  lemma ReversedTwice<T>(s: seq<T>)
    ensures Reversed(Reversed(s)) == s
  {}

  lemma ToBytesValue(v: nat, n: nat)
    requires v < Pow2(8 * n)
    ensures Value(8, ToBytes(v, n)) == v
  {
    ValueOfDigits(8, v, n);
    assert ToBytes(v, n) == Digits(8, v, n);
  }

  lemma ToBytesOfValue(s: seq<byte>)
    ensures ToBytes(Value(8, s), |s|) == s
  {
    BytesAreDigits(s);
    DigitsOfValue(8, s);
  }

  lemma FlipWordTwice(s: seq<byte>)
    requires |s| == 4
    ensures FlipWord(FlipWord(s)) == s
  {
    var v := Value(8, s);
    var d := Digits(1, v, 32);
    var v' := Value(1, Reversed(d));
    hide Digits, Value, Reversed, ToBytes, Pow2;
    BytesAreDigits(s);
    ValueBound(8, s);
    ValueBound(1, Reversed(d));
    ToBytesValue(v', 4);
    DigitsOfValue(1, Reversed(d));
    ReversedTwice(d);
    ValueOfDigits(1, v, 32);
    ToBytesOfValue(s);
  }

  /** Bit `i` of a flipped word is bit `31 - i` of the word. */
  lemma FlipWordBits(s: seq<byte>, i: nat)
    requires i < 32
    ensures BitSet(Value(8, FlipWord(s)), i) <==> BitSet(Value(8, s), 31 - i)
  {
    hide Digits, Value, ToBytes, Pow2, BitSet;
    var v := Value(8, s);
    var d := Digits(1, v, 32);
    var r := Reversed(d);
    ValueBound(1, r);
    ToBytesValue(Value(1, r), 4);
    ValueBit(r, i);
    DigitBit(v, 32, i);
  }

  lemma FirstWord(s: seq<byte>)
    requires s != []
    ensures |Bitflip(s)| >= 4 && Bitflip(s)[..4] == FlipWord(if |s| >= 4 then s[..4] else s)
  {
    hide FlipWord;
  }

  /** Word `j` of the result is word `j` of the input, flipped. */
  lemma BitflipWord(s: seq<byte>, j: nat)
    requires 4 * j < |s|
    ensures 4 * j + 4 <= |Bitflip(s)|
    ensures Bitflip(s)[4 * j..4 * j + 4] == FlipWord(if 4 * j + 4 <= |s| then s[4 * j..4 * j + 4] else s[4 * j..])
  {
    hide FlipWord, Bitflip;
    var before, rest := s[..4 * j], s[4 * j..];
    assert s == before + rest;
    DivModUnique(4 * j, j, 0, 4);
    BitflipConcat(before, rest);
    FlipKeepsLength(before);
    FirstWord(rest);
    assert Bitflip(s)[4 * j..4 * j + 4] == Bitflip(rest)[..4];
    if 4 * j + 4 <= |s| { assert rest[..4] == s[4 * j..4 * j + 4]; }
  }

  /** So in every whole word, bit `i` comes from bit `31 - i` of the same word. */
  lemma BitflipBits(s: seq<byte>, j: nat, i: nat)
    requires 4 * j + 4 <= |s| && i < 32
    ensures 4 * j + 4 <= |Bitflip(s)|
    ensures BitSet(Value(8, Bitflip(s)[4 * j..4 * j + 4]), i) <==> BitSet(Value(8, s[4 * j..4 * j + 4]), 31 - i)
  {
    hide Bitflip, FlipWord, BitSet, Value;
    BitflipWord(s, j);
    FlipWordBits(s[4 * j..4 * j + 4], i);
  }

  lemma {:induction false} BitflipLength(s: seq<byte>)
    ensures |Bitflip(s)| == (|s| + 3) / 4 * 4
  {
    hide FlipWord;
    if |s| >= 4 { BitflipLength(s[4..]); }
  }

  /** Flipping twice is the identity exactly on whole words. */
  lemma BitflipTwiceIff(s: seq<byte>)
    ensures Bitflip(Bitflip(s)) == s <==> |s| % 4 == 0
  {
    hide Bitflip;
    BitflipLength(s);
    BitflipLength(Bitflip(s));
    if |s| % 4 == 0 { BitflipTwice(s); }
  }

  lemma {:induction false} BitflipTwice(s: seq<byte>)
    requires |s| % 4 == 0
    ensures Bitflip(Bitflip(s)) == s
  {
    hide FlipWord;
    if |s| > 0 {
      FlipWordTwice(s[..4]);
      BitflipTwice(s[4..]);
      var f := FlipWord(s[..4]) + Bitflip(s[4..]);
      assert f[..4] == FlipWord(s[..4]) && f[4..] == Bitflip(s[4..]);
      assert s == s[..4] + s[4..];
    }
  }

  lemma {:induction false} BitflipConcat(a: seq<byte>, b: seq<byte>)
    requires |a| % 4 == 0
    ensures Bitflip(a + b) == Bitflip(a) + Bitflip(b)
    decreases |a|
  {
    hide FlipWord;
    if a == [] {
      assert a + b == b;
    } else {
      assert (a + b)[..4] == a[..4] && (a + b)[4..] == a[4..] + b;
      BitflipConcat(a[4..], b);
    }
  }

  // ----- the image

  const IV_MARK: nat := 0x3001_6004
  const LENGTH_MARK: nat := 0x3003_4001

  /** `n` no-operation commands. */
  function Nops(n: nat): (h: seq<byte>)
    ensures |h| == 4 * n
  {
    if n == 0 then [] else [0x20, 0x00, 0x00, 0x00] + Nops(n - 1)
  }

  function Preamble(): (h: seq<byte>)
    ensures |h| == 16
  {
    [0xff, 0xff, 0xff, 0xff, 0xff, 0xff, 0xff, 0xff, 0xaa, 0x99, 0x55, 0x66] + Nops(1)
  }

  function Setup(): (h: seq<byte>)
    ensures |h| == 100 && h[96..] == [0x30, 0x01, 0x60, 0x04]
  {
    [0x00, 0x00, 0x00, 0x0b, 0x30, 0x00, 0x80, 0x01, 0x00, 0x00, 0x00, 0x12]
    + Nops(1)
    + [0x30, 0x00, 0xc0, 0x01, 0x80, 0x00, 0x00, 0x40, 0x30, 0x00, 0xa0, 0x01, 0x80, 0x00, 0x00, 0x40]
    + [0x30, 0x01, 0xc0, 0x01, 0x00, 0x00, 0x00, 0x00]
    + Nops(14)
    + [0x30, 0x01, 0x60, 0x04]
  }

  /** The cleartext commands in front of the initialisation vector. */
  function DeviceHeader(): (h: seq<byte>)
    ensures |h| == 120 && h[116..] == [0x30, 0x01, 0x60, 0x04]
  {
    Preamble() + [0x30, 0x03, 0xe0, 0x01] + Setup()
  }

  /** The command that gives the length of the ciphertext. */
  function LengthCommand(): (h: seq<byte>)
    ensures |h| == 8
  {
    [0x30, 0x03, 0x40, 0x01, 0x00, 0x08, 0x5b, 0x98]
  }

  /** SHA-256 padding for an empty hash. */
  function HashPad(): (h: seq<byte>)
    ensures |h| == 32
  {
    [0, 0, 0, 1, 0, 0, 0, 0, 0, 0, 0, 0, 0, 0, 0, 0, 0, 0, 0, 0, 0, 0, 0, 0, 0, 0, 0, 0, 0, 0xc0, 0, 0]
  }

  /** Python's `s[i:i + n]` */
  function Slice(s: seq<byte>, i: nat, n: nat): seq<byte> {
    if i >= |s| then [] else if i + n <= |s| then s[i..i + n] else s[i..]
  }

  function WordAt(f: seq<byte>, i: nat): nat { Value(8, Slice(f, i, 4)) }

  /** The first length command from `p` on, or the end of the file. */
  function LengthPos(f: seq<byte>, p: nat): (q: nat)
    requires p <= |f|
    ensures p <= q <= |f| && (q < |f| ==> WordAt(f, q) == LENGTH_MARK)
    ensures forall k :: p <= k < q ==> WordAt(f, k) != LENGTH_MARK
    decreases |f| - p
  {
    if p == |f| || WordAt(f, p) == LENGTH_MARK then p else LengthPos(f, p + 1)
  }

  /** Behind the last vector command before `stop`, or `none`. */
  function VectorPos(f: seq<byte>, stop: nat, none: nat): nat {
    if stop == 0 then none
    else if WordAt(f, stop - 1) == IV_MARK then stop + 3
    else VectorPos(f, stop - 1, none)
  }

  /** One pass over the file finds both. */
  method FindMarkers(f: seq<byte>) returns (position: nat, ivPos: nat)
    ensures position == LengthPos(f, 0) && ivPos == VectorPos(f, position, 0)
  {
    hide WordAt;
    position, ivPos := 0, 0;
    while position < |f|
      invariant position <= |f| && LengthPos(f, position) == LengthPos(f, 0)
      invariant ivPos == VectorPos(f, position, 0)
    {
      var cwd := WordAt(f, position);
      if cwd == IV_MARK { ivPos := position + 4; }
      if cwd == LENGTH_MARK { break; }
      position := position + 1;
    }
  }

  // ----- the new plaintext

  /** The loop goes over `a`; a second argument that is shorter raises an IndexError. */
  method XorBytesLoop(a: seq<byte>, b: seq<byte>) returns (y: Option<seq<byte>>)
    ensures y == if |a| <= |b| then Some(XorBytes(a, b)) else None
  {
    var out: seq<byte> := [];
    var i := 0;
    while i < |a|
      invariant i <= |a| && i <= |b| && |out| == i && forall k :: 0 <= k < i ==> out[k] == ByteXor(a[k], b[k])
    {
      if i >= |b| { return None; }
      out := out + [ByteXor(a[i], b[i])];
      i := i + 1;
    }
    assert out == XorBytes(a, b);
    y := Some(out);
  }

  function Uniform(b: byte): (r: seq<byte>)
    ensures |r| == 32
  {
    seq(32, _ => b)
  }

  /** `plain[64:-160]` */
  function Body(plain: seq<byte>): seq<byte> {
    if |plain| >= 224 then plain[64..|plain| - 160] else []
  }

  function Front(hmac: seq<byte>, plain: seq<byte>): seq<byte>
    requires |hmac| == 32
  {
    XorBytes(Uniform(0x6C), hmac) + Uniform(0x6C) + Body(plain)
  }

  /** What the first hash covers: all but the last 320 bytes, with the bits of each word flipped. */
  function Hashed(front: seq<byte>): seq<byte> {
    if |front| <= 320 then [] else Bitflip(front[..|front| - 320])
  }

  /** Feeding the hash sixteen bytes at a time covers exactly that. */
  method HashLoop(front: seq<byte>) returns (fed: seq<byte>)
    requires |front| % 16 == 0
    ensures fed == Hashed(front)
  {
    hide Bitflip;
    fed := [];
    var k := 0;
    BitflipNothing();
    ghost var q, n := 0, |front| / 16;
    while k < |front| - 320
      invariant k == 16 * q && (q == 0 || q <= n - 20)
      invariant fed == Bitflip(front[..k])
    {
      var piece := BitflipLoop(front[k..k + 16]);
      NextSixteen(front, q);
      fed := fed + piece;
      k := k + 16;
      q := q + 1;
    }
  }

  lemma NextSixteen(front: seq<byte>, q: nat)
    requires 16 * q + 16 <= |front|
    ensures Bitflip(front[..16 * q + 16]) == Bitflip(front[..16 * q]) + Bitflip(front[16 * q..16 * q + 16])
  {
    hide Bitflip;
    assert 16 * q == 4 * (4 * q);
    BitflipConcat(front[..16 * q], front[16 * q..16 * q + 16]);
    assert front[..16 * q + 16] == front[..16 * q] + front[16 * q..16 * q + 16];
  }

  lemma BitflipNothing()
    ensures Bitflip([]) == []
  {}

  function Footer(sha: seq<byte> -> seq<byte>, hmac: seq<byte>, h1: seq<byte>): seq<byte>
    requires |hmac| == 32
  {
    var keyed := XorBytes(Uniform(0x3A), hmac);
    keyed + Uniform(0x3A) + Uniform(0) + HashPad() + Bitflip(sha(Bitflip(keyed) + Bitflip(Uniform(0x3A)) + h1))
  }

  function Replaced(sha: seq<byte> -> seq<byte>, hmac: seq<byte>, plain: seq<byte>): seq<byte>
    requires |hmac| == 32
  {
    var front := Front(hmac, plain);
    front + Footer(sha, hmac, sha(Hashed(front)))
  }

  lemma FooterLength(sha: seq<byte> -> seq<byte>, hmac: seq<byte>, h1: seq<byte>)
    requires |hmac| == 32 && forall x :: |sha(x)| == 32
    ensures |Footer(sha, hmac, h1)| == 160
  {
    hide Bitflip;
    var keyed := XorBytes(Uniform(0x3A), hmac);
    BitflipLength(sha(Bitflip(keyed) + Bitflip(Uniform(0x3A)) + h1));
  }

  /**
  The new plaintext is as long as the old one and agrees with it between the 64-byte header
  and the 160-byte footer; its first 64 bytes carry the new key.
  */
  lemma ReplacedKeeps(sha: seq<byte> -> seq<byte>, hmac: seq<byte>, plain: seq<byte>)
    requires |hmac| == 32 && |plain| >= 224 && forall x :: |sha(x)| == 32
    ensures |Replaced(sha, hmac, plain)| == |plain|
    ensures Replaced(sha, hmac, plain)[64..|plain| - 160] == plain[64..|plain| - 160]
    ensures XorBytes(Replaced(sha, hmac, plain)[..32], Replaced(sha, hmac, plain)[32..64]) == hmac
  {
    hide Footer, Hashed;
    var front := Front(hmac, plain);
    FooterLength(sha, hmac, sha(Hashed(front)));
    var r := Replaced(sha, hmac, plain);
    assert r[..32] == XorBytes(Uniform(0x6C), hmac) && r[32..64] == Uniform(0x6C);
    forall i | 0 <= i < 32 ensures XorBytes(r[..32], r[32..64])[i] == hmac[i] {
      XorComm(0x6C, hmac[i]);
      XorCancel(hmac[i], 0x6C);
    }
  }

  /**
  Header and footer of the new plaintext, read off the plaintext itself: the two masks, each
  behind the key under it, the place of the first hash, its padding, and the hash over the
  footer's key and mask and the hash of everything but the last 480 bytes.
  */
  ghost predicate WellFramed(sha: seq<byte> -> seq<byte>, hmac: seq<byte>, r: seq<byte>) {
    var n := |r|;
    && n >= 224
    && r[32..64] == Uniform(0x6C) && XorBytes(r[..32], r[32..64]) == hmac
    && r[n - 128..n - 96] == Uniform(0x3A) && XorBytes(r[n - 160..n - 128], r[n - 128..n - 96]) == hmac
    && r[n - 96..n - 64] == Uniform(0) && r[n - 64..n - 32] == HashPad()
    && var inner := sha(if n <= 480 then [] else Bitflip(r[..n - 480]));
    && r[n - 32..] == Bitflip(sha(Bitflip(r[n - 160..n - 128]) + Bitflip(r[n - 128..n - 96]) + inner))
  }

  lemma UnmaskKey(mask: byte, hmac: seq<byte>)
    requires |hmac| == 32
    ensures XorBytes(XorBytes(Uniform(mask), hmac), Uniform(mask)) == hmac
  {
    hide ByteXor;
    var keyed := XorBytes(Uniform(mask), hmac);
    forall i | 0 <= i < 32 ensures XorBytes(keyed, Uniform(mask))[i] == hmac[i] { ByteUnmask(mask, hmac[i]); }
  }

  lemma ByteUnmask(m: byte, b: byte)
    ensures ByteXor(ByteXor(m, b), m) == b
  {
    XorComm(m, b);
    XorCancel(b, m);
  }

  lemma ReplacedFramed(sha: seq<byte> -> seq<byte>, hmac: seq<byte>, plain: seq<byte>)
    requires |hmac| == 32 && |plain| >= 224 && forall x :: |sha(x)| == 32
    ensures WellFramed(sha, hmac, Replaced(sha, hmac, plain))
  {
    hide Bitflip, HashPad, XorBytes, Uniform;
    UnmaskKey(0x6C, hmac);
    UnmaskKey(0x3A, hmac);
    var front := Front(hmac, plain);
    var h1 := sha(Hashed(front));
    var keyed := XorBytes(Uniform(0x3A), hmac);
    var last := Bitflip(sha(Bitflip(keyed) + Bitflip(Uniform(0x3A)) + h1));
    BitflipLength(sha(Bitflip(keyed) + Bitflip(Uniform(0x3A)) + h1));
    var r := Replaced(sha, hmac, plain);
    SixParts(r, front, keyed, Uniform(0x3A), Uniform(0), HashPad(), last);
    assert r[..32] == front[..32] == XorBytes(Uniform(0x6C), hmac);
    assert r[32..64] == front[32..64] == Uniform(0x6C);
    assert |r| > 480 ==> r[..|r| - 480] == front[..|front| - 320];
  }

  lemma SixParts(r: seq<byte>, a: seq<byte>, b: seq<byte>, c: seq<byte>, d: seq<byte>, e: seq<byte>, f: seq<byte>)
    requires |b| == 32 && |c| == 32 && |d| == 32 && |e| == 32 && |f| == 32
    requires r == a + (b + c + d + e + f)
    ensures |r| == |a| + 160 && r[..|a|] == a
    ensures var n := |r|;
            && r[n - 160..n - 128] == b && r[n - 128..n - 96] == c && r[n - 96..n - 64] == d
            && r[n - 64..n - 32] == e && r[n - 32..] == f
  {}

  // ----- re-encryption

  datatype Outcome = Image(bytes: seq<byte>) | BadVector | BadCiphertext | WrongLength

  /** The foreign calls: CBC encryption and decryption by key and vector, and the hash. */
  datatype Crypto = Crypto(
    cbcEncrypt: (seq<byte>, seq<byte>, seq<byte>) -> seq<byte>,
    cbcDecrypt: (seq<byte>, seq<byte>, seq<byte>) -> seq<byte>,
    sha: seq<byte> -> seq<byte>) {

    ghost predicate Lawful() {
      && (forall k, v, x :: |x| % 16 == 0 ==>
            |cbcEncrypt(k, v, x)| == |x| && cbcDecrypt(k, v, cbcEncrypt(k, v, x)) == x)
      && (forall k, v, x :: |x| % 16 == 0 ==> |cbcDecrypt(k, v, x)| == |x|)
      && (forall x :: |sha(x)| == 32)
    }

    /** The plaintext inside an image, as the tool locates and decrypts it. */
    function PlainUnder(key: seq<byte>, f: seq<byte>): seq<byte> {
      var position := LengthPos(f, 0);
      var length := 4 * WordAt(f, position + 4);
      cbcDecrypt(key, Bitflip(Slice(f, VectorPos(f, position, 0), 16)), Bitflip(Slice(f, position + 8, length)))
    }

    /** Images are shipped under the all-zero key. */
    function PlainOf(f: seq<byte>): seq<byte> { PlainUnder(Uniform(0), f) }

    function Postamble(f: seq<byte>): seq<byte> {
      var position := LengthPos(f, 0);
      var start := position + 8 + 4 * WordAt(f, position + 4);
      if start >= |f| then [] else f[start..]
    }

    function EndOfCiphertext(f: seq<byte>): nat {
      LengthPos(f, 0) + 8 + 4 * WordAt(f, LengthPos(f, 0) + 4)
    }

    /** The postamble is what follows the ciphertext in the old image. */
    lemma PostambleFollows(f: seq<byte>)
      ensures EndOfCiphertext(f) <= |f| ==> f == f[..EndOfCiphertext(f)] + Postamble(f)
      ensures EndOfCiphertext(f) >= |f| ==> Postamble(f) == []
    {
      hide LengthPos, WordAt;
      RestOf(f, EndOfCiphertext(f));
    }

    function Assembled(f: seq<byte>, key: seq<byte>, hmac: seq<byte>, iv: seq<byte>): seq<byte>
      requires |hmac| == 32
    {
      DeviceHeader() + Bitflip(iv) + LengthCommand()
        + Bitflip(cbcEncrypt(key, iv, Replaced(sha, hmac, PlainOf(f)))) + Postamble(f)
    }

    predicate VectorOk(f: seq<byte>) {
      |Bitflip(Slice(f, VectorPos(f, LengthPos(f, 0), 0), 16))| == 16
    }

    predicate CiphertextOk(f: seq<byte>) {
      var position := LengthPos(f, 0);
      |Bitflip(Slice(f, position + 8, 4 * WordAt(f, position + 4)))| % 16 == 0
    }

    /** Vector and ciphertext have to be whole blocks, and the result has to fill the gateware region. */
    function Reencrypted(f: seq<byte>, key: seq<byte>, hmac: seq<byte>, iv: seq<byte>): Outcome
      requires |hmac| == 32
    {
      if !VectorOk(f) then BadVector
      else if !CiphertextOk(f) then BadCiphertext
      else if |Assembled(f, key, hmac, iv)| != 2621440 then WrongLength
      else Image(Assembled(f, key, hmac, iv))
    }

    /** encrypt_to_efuse, with the random values as arguments. */
    method EncryptToEfuse(f: seq<byte>, newKey: seq<byte>, newHmac: seq<byte>, newIv: seq<byte>) returns (r: Outcome)
      requires Lawful() && |newHmac| == 32 && |newIv| == 16
      ensures r == Reencrypted(f, newKey, newHmac, newIv)
    {
      hide Bitflip, WordAt, LengthPos, VectorPos, Hashed, XorBytes, DeviceHeader, LengthCommand, HashPad;
      var position, ivPos := FindMarkers(f);
      var ciphertextLen := 4 * WordAt(f, position + 4);
      var activeArea := BitflipLoop(Slice(f, position + 8, ciphertextLen));
      var postamble := if position + 8 + ciphertextLen >= |f| then [] else f[position + 8 + ciphertextLen..];
      var iv := BitflipLoop(Slice(f, ivPos, 16));
      if |iv| != 16 { return BadVector; }
      if |activeArea| % 16 != 0 { return BadCiphertext; }
      var plain := cbcDecrypt(Uniform(0), iv, activeArea);
      var flippedIv := BitflipLoop(newIv);
      var plaintext := NewPlaintext(newHmac, plain);
      var ciphertext := cbcEncrypt(newKey, newIv, plaintext);
      var flipped := BitflipLoop(ciphertext);
      var out := DeviceHeader() + flippedIv + LengthCommand() + flipped + postamble;
      r := if |out| == 2621440 then Image(out) else WrongLength;
    }

    method NewPlaintext(newHmac: seq<byte>, plain: seq<byte>) returns (plaintext: seq<byte>)
      requires |newHmac| == 32 && |plain| % 16 == 0
      ensures plaintext == Replaced(sha, newHmac, plain)
    {
      hide Bitflip, Hashed, XorBytes, HashPad;
      var header, footer := Uniform(0x6C), Uniform(0x3A);
      var masked := XorBytesLoop(header, newHmac);
      var keyedHeader := masked.value;
      masked := XorBytesLoop(footer, newHmac);
      var keyedFooter := masked.value;
      plaintext := keyedHeader + header + Body(plain);
      ghost var front := plaintext;
      var fed := HashLoop(plaintext);
      var h1 := sha(fed);
      var a := BitflipLoop(keyedFooter);
      var b := BitflipLoop(footer);
      var h2 := sha(a + b + h1);
      var last := BitflipLoop(h2);
      plaintext := plaintext + keyedFooter;
      plaintext := plaintext + footer;
      plaintext := plaintext + Uniform(0);
      plaintext := plaintext + HashPad();
      plaintext := plaintext + last;
      assert plaintext == front + (keyedFooter + footer + Uniform(0) + HashPad() + last);
    }

    // ----- reading the result back

    /** `g` is header, vector, length command, ciphertext and `rest`, each in its place. */
    ghost predicate LaidOut(g: seq<byte>, iv: seq<byte>, ciphertext: seq<byte>, rest: seq<byte>) {
      var n := |ciphertext|;
      && |g| == 144 + n + |rest|
      && g[..120] == DeviceHeader() && g[120..136] == Bitflip(iv) && g[136..144] == LengthCommand()
      && g[144..144 + n] == Bitflip(ciphertext)
      && g[144 + n..] == rest
    }

    lemma Layout(g: seq<byte>, iv: seq<byte>, ciphertext: seq<byte>, rest: seq<byte>)
      requires |iv| == 16 && |ciphertext| % 4 == 0
      requires g == DeviceHeader() + Bitflip(iv) + LengthCommand() + Bitflip(ciphertext) + rest
      ensures LaidOut(g, iv, ciphertext, rest)
    {
      hide Bitflip, DeviceHeader, LengthCommand;
      FlipKeepsLength(iv);
      FlipKeepsLength(ciphertext);
      FiveParts(g, DeviceHeader(), Bitflip(iv), LengthCommand(), Bitflip(ciphertext), rest);
    }

    lemma PlainIsWhole(f: seq<byte>)
      requires Lawful() && CiphertextOk(f)
      ensures |PlainOf(f)| % 16 == 0
    {
      hide Bitflip, LengthPos, VectorPos, WordAt;
    }

    /** The ciphertext of the result, and that it is where it should be. */
    lemma AssembledLayout(f: seq<byte>, key: seq<byte>, hmac: seq<byte>, iv: seq<byte>)
      requires Lawful() && |hmac| == 32 && |iv| == 16 && CiphertextOk(f) && |PlainOf(f)| >= 224
      ensures |PlainOf(f)| % 16 == 0
      ensures LaidOut(Assembled(f, key, hmac, iv), iv,
                      cbcEncrypt(key, iv, Replaced(sha, hmac, PlainOf(f))), Postamble(f))
    {
      hide Bitflip, Replaced, DeviceHeader, LengthCommand, Postamble, PlainOf, LaidOut, CiphertextOk;
      PlainIsWhole(f);
      ReplacedKeeps(sha, hmac, PlainOf(f));
      Layout(Assembled(f, key, hmac, iv), iv, cbcEncrypt(key, iv, Replaced(sha, hmac, PlainOf(f))), Postamble(f));
    }

    /** The ciphertext behind the header of `g`, under `key` and the vector in `g`, holds the body of `plain`. */
    ghost predicate Recovers(g: seq<byte>, key: seq<byte>, plain: seq<byte>, hmac: seq<byte>) {
      var n := |plain|;
      && n >= 224 && |g| >= 144 + n
      && var p := cbcDecrypt(key, Bitflip(g[120..136]), Bitflip(g[144..144 + n]));
      && |p| == n && p[64..n - 160] == plain[64..n - 160]
      && XorBytes(p[..32], p[32..64]) == hmac
    }

    /**
    Decrypting the ciphertext in the result with the new key and vector gives a plaintext of
    the old length that has the old bitstream between header and footer.
    */
    lemma BodyRecovered(f: seq<byte>, key: seq<byte>, hmac: seq<byte>, iv: seq<byte>)
      requires Lawful() && |hmac| == 32 && |iv| == 16 && CiphertextOk(f) && |PlainOf(f)| >= 224
      ensures Recovers(Assembled(f, key, hmac, iv), key, PlainOf(f), hmac)
    {
      hide Bitflip, Replaced, Assembled, PlainOf, CiphertextOk, Postamble, DeviceHeader, LengthCommand;
      AssembledLayout(f, key, hmac, iv);
      ReplacedKeeps(sha, hmac, PlainOf(f));
      BitflipTwice(iv);
      BitflipTwice(cbcEncrypt(key, iv, Replaced(sha, hmac, PlainOf(f))));
    }

    /** The search finds vector, length and ciphertext of an output, and no more than the ciphertext. */
    ghost predicate ReadsBack(g: seq<byte>, ciphertext: seq<byte>) {
      LengthPos(g, 0) == 136 && VectorPos(g, 136, 0) == 120 && Slice(g, 144, 4 * WordAt(g, 140)) == Bitflip(ciphertext)
    }

    /** The announced length fits: the ciphertext has it, or is shorter and the last thing in the image. */
    predicate LengthFits(n: nat, rest: seq<byte>) { n == ANNOUNCED || (n < ANNOUNCED && rest == []) }

    /** That is so exactly if the vector is clean and the fixed length command fits. */
    lemma ReadsBackIff(g: seq<byte>, iv: seq<byte>, ciphertext: seq<byte>, rest: seq<byte>)
      requires LaidOut(g, iv, ciphertext, rest) && |iv| == 16 && |ciphertext| % 4 == 0
      ensures ReadsBack(g, ciphertext) <==> VectorClean(iv) && LengthFits(|ciphertext|, rest)
    {
      hide Bitflip, VectorClean, LengthPos, VectorPos, WordAt, DeviceHeader, LengthCommand;
      LaidOutReads(g, iv, ciphertext, rest);
      MarkersFoundIff(g, iv, ciphertext, rest);
      FlipKeepsLength(ciphertext);
      var n := |ciphertext|;
      assert |g| == 144 + n + |rest| && g[144..144 + n] == Bitflip(ciphertext);
      hide LaidOut;
    }

    /** Then the tool reads its own output under the new key. */
    lemma OutputReadable(f: seq<byte>, key: seq<byte>, hmac: seq<byte>, iv: seq<byte>)
      requires Lawful() && |hmac| == 32 && |iv| == 16 && CiphertextOk(f) && |PlainOf(f)| >= 224
      requires VectorClean(iv) && LengthFits(|PlainOf(f)|, Postamble(f))
      ensures PlainUnder(key, Assembled(f, key, hmac, iv)) == Replaced(sha, hmac, PlainOf(f))
    {
      hide Bitflip, Replaced, Assembled, PlainOf, CiphertextOk, Postamble;
      hide LengthPos, VectorPos, LaidOut, VectorClean, WordAt, Slice, LengthFits;
      AssembledLayout(f, key, hmac, iv);
      var ciphertext := cbcEncrypt(key, iv, Replaced(sha, hmac, PlainOf(f)));
      ReplacedKeeps(sha, hmac, PlainOf(f));
      ReadsAs(Assembled(f, key, hmac, iv), key, iv, ciphertext, Postamble(f));
    }

    lemma ReadsAs(g: seq<byte>, key: seq<byte>, iv: seq<byte>, ciphertext: seq<byte>, rest: seq<byte>)
      requires LaidOut(g, iv, ciphertext, rest) && |iv| == 16 && |ciphertext| % 4 == 0
      requires VectorClean(iv) && LengthFits(|ciphertext|, rest)
      ensures PlainUnder(key, g) == cbcDecrypt(key, iv, ciphertext)
    {
      hide Bitflip, LengthPos, VectorPos, LaidOut, VectorClean, WordAt, Slice, LengthFits;
      ReadsBackIff(g, iv, ciphertext, rest);
      LaidOutReads(g, iv, ciphertext, rest);
      BitflipTwice(iv);
      BitflipTwice(ciphertext);
    }

    /** An image as it is shipped, under 32 zero bytes as key, is read as the plaintext in it. */
    lemma ShippedPlain(g: seq<byte>, zeros: seq<byte>, iv: seq<byte>, plain: seq<byte>, rest: seq<byte>)
      requires |zeros| == 32 && forall k :: 0 <= k < 32 ==> zeros[k] == 0
      requires Lawful() && |iv| == 16 && |plain| % 16 == 0 && VectorClean(iv) && LengthFits(|plain|, rest)
      requires LaidOut(g, iv, cbcEncrypt(zeros, iv, plain), rest)
      ensures PlainOf(g) == plain
    {
      hide PlainUnder, LaidOut, VectorClean, LengthFits;
      assert Uniform(0) == zeros;
      CipherLaw(zeros, iv, plain);
      hide Lawful, Uniform;
      ReadsAs(g, zeros, iv, cbcEncrypt(zeros, iv, plain), rest);
    }

    lemma CipherLaw(key: seq<byte>, iv: seq<byte>, plain: seq<byte>)
      requires Lawful() && |plain| % 16 == 0
      ensures |cbcEncrypt(key, iv, plain)| == |plain| && cbcDecrypt(key, iv, cbcEncrypt(key, iv, plain)) == plain
    {}

    lemma LaidOutReads(g: seq<byte>, iv: seq<byte>, ciphertext: seq<byte>, rest: seq<byte>)
      requires LaidOut(g, iv, ciphertext, rest) && |iv| == 16
      ensures |g| >= 144 && g[116..144] == AroundVector(iv)
      ensures WordAt(g, 116) == IV_MARK && WordAt(g, 136) == LENGTH_MARK && WordAt(g, 140) == 0x00085b98
      ensures Slice(g, 120, 16) == Bitflip(iv) && Slice(g, 144, |ciphertext|) == Bitflip(ciphertext)
    {
      hide Bitflip, DeviceHeader, LengthCommand, Value;
      var n := |ciphertext|;
      FlipKeepsLength(iv);
      assert g[116..144] == g[..120][116..] + g[120..136] + g[136..144];
      assert Slice(g, 116, 4) == g[..120][116..] == DeviceHeader()[116..];
      assert Slice(g, 136, 4) == g[136..144][..4] == LengthCommand()[..4];
      assert Slice(g, 140, 4) == g[136..144][4..] == LengthCommand()[4..];
      assert Slice(g, 120, 16) == g[120..136];
      assert Slice(g, 144, n) == g[144..144 + n];
      MarkValues();
    }

    /** The search finds vector and length of an output where they are exactly if the vector is clean. */
    lemma MarkersFoundIff(g: seq<byte>, iv: seq<byte>, ciphertext: seq<byte>, rest: seq<byte>)
      requires LaidOut(g, iv, ciphertext, rest) && |iv| == 16
      ensures LengthPos(g, 0) == 136 && VectorPos(g, 136, 0) == 120 <==> VectorClean(iv)
    {
      LaidOutReads(g, iv, ciphertext, rest);
      assert g[..120] == DeviceHeader();
      hide DeviceHeader, AroundVector, WordAt, LengthPos, VectorPos, LaidOut, VectorClean;
      HeaderHasNoLength(g);
      CleanMeans(g, iv);
      SearchedIff(g);
    }
  }

  /** What the fixed length command says, in bytes. */
  const ANNOUNCED: nat := 4 * 0x00085b98

  /** The words that overlap the vector: from behind the vector command up to the length command. */
  function AroundVector(iv: seq<byte>): seq<byte> { DeviceHeader()[116..] + Bitflip(iv) + LengthCommand() }

  /** No command word occurs by chance in or around the vector. */
  ghost predicate VectorClean(iv: seq<byte>) {
    forall k :: 1 <= k < 20 ==> CleanAt(AroundVector(iv), k)
  }

  predicate CleanAt(w: seq<byte>, k: nat) { WordAt(w, k) != LENGTH_MARK && WordAt(w, k) != IV_MARK }

  /** The part of an output that a search reads last before the length. */
  ghost predicate CleanInside(g: seq<byte>) { forall k :: 117 <= k < 136 ==> CleanAt(g, k) }

  lemma SameWord(g: seq<byte>, iv: seq<byte>, k: nat)
    requires |g| >= 144 && g[116..144] == AroundVector(iv) && 1 <= k < 20
    ensures WordAt(AroundVector(iv), k) == WordAt(g, 116 + k)
  {
    hide Value, AroundVector;
    assert Slice(g[116..144], k, 4) == Slice(g, 116 + k, 4);
  }

  lemma CleanMeans(g: seq<byte>, iv: seq<byte>)
    requires |g| >= 144 && g[116..144] == AroundVector(iv)
    ensures CleanInside(g) <==> VectorClean(iv)
  {
    hide WordAt, AroundVector;
    forall k | 1 <= k < 20 ensures CleanAt(AroundVector(iv), k) <==> CleanAt(g, 116 + k) {
      SameWord(g, iv, k);
    }
    forall k | 117 <= k < 136 ensures CleanAt(AroundVector(iv), k - 116) <==> CleanAt(g, k) {
      SameWord(g, iv, k - 116);
    }
  }

  lemma SearchedIff(g: seq<byte>)
    requires |g| >= 144 && WordAt(g, 116) == IV_MARK && WordAt(g, 136) == LENGTH_MARK
    requires forall k :: 0 <= k <= 116 ==> WordAt(g, k) != LENGTH_MARK
    ensures LengthPos(g, 0) == 136 && VectorPos(g, 136, 0) == 120 <==> CleanInside(g)
  {
    hide WordAt, LengthPos, VectorPos;
    if CleanInside(g) {
      var q := LengthPos(g, 0);
      assert 117 <= q < 136 ==> CleanAt(g, q);
      forall k | 116 < k < 136 ensures WordAt(g, k) != IV_MARK { assert CleanAt(g, k); }
      VectorPosAt(g, 136, 116);
    } else if VectorPos(g, 136, 0) == 120 {
      VectorPosLast(g, 136, 116);
    }
  }

  lemma {:induction false} NopsNoThree(n: nat)
    ensures 0x03 !in Nops(n)
  {
    if n > 0 { NopsNoThree(n - 1); }
  }

  /** The one byte 0x03 of the header is followed by 0xe0. */
  lemma HeaderPairs(k: nat)
    requires k < 119
    ensures !(DeviceHeader()[k] == 0x03 && DeviceHeader()[k + 1] == 0x40)
  {
    NopsNoThree(1);
    NopsNoThree(14);
    hide Nops;
    assert 0x03 !in Preamble();
    assert 0x03 !in Setup();
    hide Preamble, Setup;
    if k < 16 { assert DeviceHeader()[k] == Preamble()[k]; }
    if k >= 20 { assert DeviceHeader()[k] == Setup()[k - 20]; }
  }

  /** The header announces no length. */
  lemma HeaderHasNoLength(g: seq<byte>)
    requires |g| >= 120 && g[..120] == DeviceHeader()
    ensures forall k :: 0 <= k <= 116 ==> WordAt(g, k) != LENGTH_MARK
  {
    hide DeviceHeader, Value;
    forall k | 0 <= k <= 116 ensures WordAt(g, k) != LENGTH_MARK {
      HeaderPairs(k + 1);
      assert g[k + 1] == g[..120][k + 1] && g[k + 2] == g[..120][k + 2];
      assert Slice(g, k, 4) == [g[k], g[k + 1], g[k + 2], g[k + 3]];
      NotTheLength(g[k], g[k + 1], g[k + 2], g[k + 3]);
    }
  }

  lemma NotTheLength(a: byte, b: byte, c: byte, d: byte)
    requires !(b == 0x03 && c == 0x40)
    ensures Value(8, [a, b, c, d]) != LENGTH_MARK
  {
    hide Value;
    FourBytes(a, b, c, d);
  }

  lemma FlippedBack(v: seq<byte>)
    requires |v| == 16
    ensures |Bitflip(v)| == 16 && |AroundVector(Bitflip(v))| == 28
    ensures AroundVector(Bitflip(v))[..20] == [0x30, 0x01, 0x60, 0x04] + v
    ensures AroundVector(Bitflip(v))[4..8] == v[..4]
  {
    FlipKeepsLength(v);
    BitflipTwice(v);
    hide Bitflip, DeviceHeader, LengthCommand;
  }

  /** Flipped into the image, a vector that begins like a length command is not clean. */
  lemma UncleanVector(v: seq<byte>)
    requires |v| == 16 && v[..4] == [0x30, 0x03, 0x40, 0x01]
    ensures |Bitflip(v)| == 16 && !VectorClean(Bitflip(v))
  {
    FlippedBack(v);
    hide Bitflip, AroundVector, Value;
    FourBytes(0x30, 0x03, 0x40, 0x01);
    assert !CleanAt(AroundVector(Bitflip(v)), 4);
  }

  /** And one without the byte 0x30 is. */
  lemma CleanVector(v: seq<byte>)
    requires |v| == 16 && 0x30 !in v
    ensures |Bitflip(v)| == 16 && VectorClean(Bitflip(v))
  {
    FlippedBack(v);
    hide Bitflip, AroundVector, CleanAt, WordAt;
    var w := AroundVector(Bitflip(v));
    forall k | 1 <= k < 20 ensures CleanAt(w, k) {
      NoMarkByte(w, v, k);
      NotAMark(w, k);
    }
  }

  lemma NoMarkByte(w: seq<byte>, v: seq<byte>, k: nat)
    requires |v| == 16 && 0x30 !in v && |w| == 28 && w[..20] == [0x30, 0x01, 0x60, 0x04] + v && 1 <= k < 20
    ensures w[k] != 0x30
  {
    assert w[k] == w[..20][k];
    if k >= 4 { assert w[k] == v[k - 4]; }
  }

  /** Both kinds of vector exist. */
  lemma BothKinds()
    ensures exists iv :: |iv| == 16 && VectorClean(iv)
    ensures exists iv :: |iv| == 16 && !VectorClean(iv)
  {
    hide Bitflip, VectorClean;
    CleanVector(Zeros(16));
    UncleanVector([0x30, 0x03, 0x40, 0x01] + Zeros(12));
  }

  function Zeros(n: nat): (r: seq<byte>)
    ensures |r| == n && 0x30 !in r
  {
    seq(n, _ => 0)
  }

  lemma NotAMark(w: seq<byte>, k: nat)
    requires k + 4 <= |w| && w[k] != 0x30
    ensures CleanAt(w, k)
  {
    hide Value;
    assert Slice(w, k, 4) == [w[k], w[k + 1], w[k + 2], w[k + 3]];
    FourBytes(w[k], w[k + 1], w[k + 2], w[k + 3]);
  }

  lemma {:induction false} VectorPosLast(f: seq<byte>, stop: nat, at: nat)
    requires at < stop && VectorPos(f, stop, 0) == at + 4
    ensures forall k :: at < k < stop ==> WordAt(f, k) != IV_MARK
  {
    hide WordAt;
    if stop - 1 > at { VectorPosLast(f, stop - 1, at); }
  }

  lemma RestOf(f: seq<byte>, end: nat)
    ensures end <= |f| ==> f == f[..end] + (if end >= |f| then [] else f[end..])
  {}

  lemma FiveParts(g: seq<byte>, a: seq<byte>, b: seq<byte>, c: seq<byte>, d: seq<byte>, e: seq<byte>)
    requires g == a + b + c + d + e
    ensures |g| == |a| + |b| + |c| + |d| + |e|
    ensures g[..|a|] == a && g[|a|..|a| + |b|] == b && g[|a| + |b|..|a| + |b| + |c|] == c
    ensures g[|a| + |b| + |c|..|a| + |b| + |c| + |d|] == d && g[|a| + |b| + |c| + |d|..] == e
  {}

  lemma FlipKeepsLength(s: seq<byte>)
    requires |s| % 4 == 0
    ensures |Bitflip(s)| == |s|
  {
    hide Bitflip;
    BitflipLength(s);
  }

  lemma MarkValues()
    ensures Value(8, DeviceHeader()[116..]) == IV_MARK
    ensures Value(8, LengthCommand()[..4]) == LENGTH_MARK && Value(8, LengthCommand()[4..]) == 0x00085b98
  {
    FourBytes(0x30, 0x01, 0x60, 0x04);
    FourBytes(0x30, 0x03, 0x40, 0x01);
    FourBytes(0x00, 0x08, 0x5b, 0x98);
    assert LengthCommand()[..4] == [0x30, 0x03, 0x40, 0x01];
    assert LengthCommand()[4..] == [0x00, 0x08, 0x5b, 0x98];
  }

  lemma FourBytes(a: byte, b: byte, c: byte, d: byte)
    ensures Value(8, [a, b, c, d]) == ((a * 256 + b) * 256 + c) * 256 + d
  {
    assert Value(8, []) == 0;
    ShlZero(8);
    AppendByte([], a);
    AppendByte([a], b);
    AppendByte([a, b], c);
    AppendByte([a, b, c], d);
    assert [a, b] == [a] + [b] && [a, b, c] == [a, b] + [c] && [a, b, c, d] == [a, b, c] + [d];
  }

  lemma AppendByte(s: seq<byte>, b: byte)
    ensures Value(8, s + [b]) == Value(8, s) * 256 + b
  {
    ValueAppend(8, s, b);
    ShlIsMul(Value(8, s), 8);
    Pow2Of8();
  }

  lemma {:induction false} VectorPosAt(f: seq<byte>, stop: nat, at: nat)
    requires at < stop && WordAt(f, at) == IV_MARK && forall k :: at < k < stop ==> WordAt(f, k) != IV_MARK
    ensures VectorPos(f, stop, 0) == at + 4
  {
    hide WordAt;
    if stop - 1 > at { VectorPosAt(f, stop - 1, at); }
  }
}

/**
bcrypt's variant of base64 (tools/bcrypt.py, encode_base64, decode_base64 and char64). The
decoded text is the list of code points that the tool collects before its last line.
*/
module BcryptBase64 {
  import opened Bits
  import opened Bytes

  /** base64_code[v]: './', then upper case, lower case and digits, as code points */
  function Code(v: nat): nat
    requires v < 64
  {
    if v < 2 then 46 + v else if v < 28 then 63 + v else if v < 54 then 69 + v else v - 6
  }

  datatype Lookup = Value(v: nat) | Invalid | OutOfTable

  /** char64: the range test lets the code point 128 through to a table of 128 entries. */
  function Char64(c: nat): (r: Lookup)
    ensures r.Value? ==> r.v < 64
  {
    if c > 128 then Invalid
    else if c == 128 then OutOfTable
    else if 46 <= c <= 47 then Value(c - 46)
    else if 48 <= c <= 57 then Value(c + 6)
    else if 65 <= c <= 90 then Value(c - 63)
    else if 97 <= c <= 122 then Value(c - 69)
    else Invalid
  }

  /** The decode table inverts the encode table, and accepts nothing else. */
  lemma TablesInverse(v: nat, c: nat)
    requires v < 64
    ensures Char64(c) == Value(v) <==> c == Code(v)
  {}

  /** The alphabet, eight characters to a row. */
  function Row(k: nat): (r: string)
    requires k < 8
    ensures |r| == 8
  {
    match k
    case 0 => "./ABCDEF"
    case 1 => "GHIJKLMN"
    case 2 => "OPQRSTUV"
    case 3 => "WXYZabcd"
    case 4 => "efghijkl"
    case 5 => "mnopqrst"
    case 6 => "uvwxyz01"
    case _ => "23456789"
  }

  /** Sextet `v` is written as character `v` of the alphabet. */
  lemma CodeIsAlphabet(v: nat)
    requires v < 64
    ensures Code(v) == Row(v / 8)[v % 8] as nat
  {
    RowCodes(v / 8, v % 8);
  }

  lemma RowCodes(k: nat, i: nat)
    requires k < 8 && i < 8
    ensures Code(8 * k + i) == Row(k)[i] as nat
  {
    match i
    case 0 => case 1 => case 2 => case 3 =>
    case 4 => case 5 => case 6 => case _ =>
  }

  // ----- encoding

  function One(b0: byte): seq<nat> { [Code(b0 / 4), Code(b0 % 4 * 16)] }

  function Two(b0: byte, b1: byte): seq<nat> {
    [Code(b0 / 4), Code(b0 % 4 * 16 + b1 / 16), Code(b1 % 16 * 4)]
  }

  function Three(b0: byte, b1: byte, b2: byte): seq<nat> {
    [Code(b0 / 4), Code(b0 % 4 * 16 + b1 / 16), Code(b1 % 16 * 4 + b2 / 64), Code(b2 % 64)]
  }

  /** Three bytes to four characters; one or two left-over bytes to two or three. */
  function Encode(d: seq<byte>): seq<nat> {
    if |d| == 0 then []
    else if |d| == 1 then One(d[0])
    else if |d| == 2 then Two(d[0], d[1])
    else Three(d[0], d[1], d[2]) + Encode(d[3..])
  }

  /** A group is a number of 24 bits, the first byte most significant, in four sextets. */
  lemma GroupIsNumber(b0: byte, b1: byte, b2: byte)
    ensures var n: nat := (b0 * 256 + b1) * 256 + b2;
            Three(b0, b1, b2) == [Code(n / 0x4_0000), Code(n / 0x1000 % 64), Code(n / 64 % 64), Code(n % 64)]
    ensures One(b0) == Three(b0, 0, 0)[..2] && Two(b0, b1) == Three(b0, b1, 0)[..3]
  {
    hide Code;
    var p, q, u, v, s, t := b0 / 4, b0 % 4, b1 / 16, b1 % 16, b2 / 64, b2 % 64;
    assert b0 == 4 * p + q && b1 == 16 * u + v && b2 == 64 * s + t;
    FourSextets(p, q * 16 + u, v * 4 + s, t);
    assert ((4 * p + q) * 256 + (16 * u + v)) * 256 + (64 * s + t)
        == ((p * 64 + (q * 16 + u)) * 64 + (v * 4 + s)) * 64 + t;
  }

  lemma FourSextets(v0: nat, v1: nat, v2: nat, v3: nat)
    requires v1 < 64 && v2 < 64 && v3 < 64
    ensures var n := ((v0 * 64 + v1) * 64 + v2) * 64 + v3;
            n / 0x4_0000 == v0 && n / 0x1000 % 64 == v1 && n / 64 % 64 == v2 && n % 64 == v3
  {
    var n := ((v0 * 64 + v1) * 64 + v2) * 64 + v3;
    DivModUnique(n, v0, (v1 * 64 + v2) * 64 + v3, 0x4_0000);
    DivModUnique(n, v0 * 64 + v1, v2 * 64 + v3, 0x1000);
    DivModUnique(n, (v0 * 64 + v1) * 64 + v2, v3, 64);
    DivModUnique(v0 * 64 + v1, v0, v1, 64);
    DivModUnique((v0 * 64 + v1) * 64 + v2, v0 * 64 + v1, v2, 64);
  }

  /** Groups are encoded one by one, in order. */
  lemma {:induction false} EncodeConcat(a: seq<byte>, b: seq<byte>)
    requires |a| % 3 == 0
    ensures Encode(a + b) == Encode(a) + Encode(b) && |Encode(a)| == |a| / 3 * 4
    decreases |a|
  {
    hide Three, One, Two;
    if a == [] {
      assert a + b == b;
    } else {
      assert (a + b)[3..] == a[3..] + b;
      EncodeConcat(a[3..], b);
      ThreeLength(a[0], a[1], a[2]);
    }
  }

  lemma ThreeLength(b0: byte, b1: byte, b2: byte)
    ensures |Three(b0, b1, b2)| == 4
  {}

  datatype EncodeResult = Encoded(text: seq<nat>) | InvalidLength

  lemma MaskOf(x: nat, k: nat)
    ensures And(x, Pow2(k) - 1) == x % Pow2(k) && Shr(x, k) == x / Pow2(k) && Shl(x, k) == x * Pow2(k)
  {
    AndOnes(x, k);
    ShrIsDiv(x, k);
    ShlIsMul(x, k);
  }

  lemma Small()
    ensures Pow2(2) == 4 && Pow2(4) == 16 && Pow2(6) == 64 && Pow2(8) == 256
  {
    assert Pow2(2) == 4;
    assert Pow2(4) == 16;
    assert Pow2(6) == 64;
  }

  /** `(c >> k) & 0x3f`, and the variants with other widths */
  function Field(c: nat, k: nat, w: nat): nat { And(Shr(c, k), Pow2(w) - 1) }

  lemma FieldIs(c: nat, k: nat, w: nat, p: nat, q: nat)
    requires p == Pow2(k) && q == Pow2(w)
    ensures Field(c, k, w) == c / p % q
  {
    MaskOf(c, k);
    MaskOf(c / Pow2(k), w);
  }

  /** `((a & mask) << k) | b` with `b` below the shift */
  lemma JoinIs(a: nat, b: nat, k: nat, p: nat)
    requires p == Pow2(k) && b < p
    ensures Shl(a, k) == a * p
    ensures Or(Shl(a, k), b) == a * p + b
  {
    DisjointSum(a, b, k);
    ShlIsMul(a, k);
  }

  /** The masks and shifts of the encoder are quotients and remainders. */
  lemma EncodeBits(b0: byte, b1: byte, b2: byte)
    ensures Field(b0, 2, 6) == b0 / 4
    ensures Shl(Field(b0, 0, 2), 4) == b0 % 4 * 16
    ensures Field(b1, 4, 4) == b1 / 16
    ensures Or(Shl(Field(b0, 0, 2), 4), Field(b1, 4, 4)) == b0 % 4 * 16 + b1 / 16
    ensures Shl(Field(b1, 0, 4), 2) == b1 % 16 * 4
    ensures Or(Shl(Field(b1, 0, 4), 2), Field(b2, 6, 2)) == b1 % 16 * 4 + b2 / 64
    ensures Field(b2, 0, 6) == b2 % 64
  {
    Small();
    hide Pow2, Field, Shl, Or;
    FieldQuotient(b0, 2, 6, 4, 64);
    FieldQuotient(b1, 4, 4, 16, 16);
    FieldQuotient(b2, 6, 2, 64, 4);
    FieldRemainder(b0, 2, 4);
    FieldRemainder(b1, 4, 16);
    FieldRemainder(b2, 6, 64);
    JoinIs(b0 % 4, b1 / 16, 4, 16);
    JoinIs(b1 % 16, b2 / 64, 2, 4);
  }

  lemma FieldQuotient(b: byte, k: nat, w: nat, p: nat, q: nat)
    requires p == Pow2(k) && q == Pow2(w) && p * q == 256
    ensures Field(b, k, w) == b / p
  {
    hide *;
    FieldIs(b, k, w, p, q);
    QuotientSmall(b, p, q);
  }

  lemma QuotientSmall(b: nat, p: nat, q: nat)
    requires b < p * q
    ensures p > 0 && q > 0 && b / p % q == b / p
  {
    var x := b / p;
    assert x * p <= b;
    FactorBelow(x, q, p);
    DivModUnique(x, 0, x, q);
  }

  lemma FactorBelow(x: nat, y: nat, p: nat)
    requires x * p < y * p
    ensures x < y
  {
    assert (x - y) * p < 0;
  }

  lemma FieldRemainder(b: byte, w: nat, q: nat)
    requires q == Pow2(w)
    ensures Field(b, 0, w) == b % q
  {
    FieldIs(b, 0, w, 1, q);
  }

  lemma SextetMask(x: nat)
    requires x < 64
    ensures And(x, 0x3f) == x
  {
    Small();
    MaskOf(x, 6);
  }

  method EncodeLoop(d: seq<byte>, length: int) returns (r: EncodeResult)
    ensures r == if length <= 0 || length > |d| then InvalidLength else Encoded(Encode(d[..length]))
  {
    hide Encode, Code, Field, Or, Shl, And;
    var off := 0;
    var rs: seq<nat> := [];
    if length <= 0 || length > |d| { return InvalidLength; }
    while off < length
      invariant 0 <= off <= length
      invariant rs + Encode(d[off..length]) == Encode(d[..length])
      decreases length - off
    {
      ghost var rest, rs0 := d[off..length], rs;
      EncodeStep(rest, rs);
      var b0 := d[off];
      off := off + 1;
      EncodeBits(b0, 0, 0);
      rs := rs + [Code(Field(b0, 2, 6))];
      var c1 := Shl(Field(b0, 0, 2), 4);
      if off >= length {
        SextetMask(c1);
        rs := rs + [Code(And(c1, 0x3f))];
        assert rs == rs0 + One(b0);
        return Encoded(rs);
      }
      var b1 := d[off];
      off := off + 1;
      EncodeBits(b0, b1, 0);
      c1 := Or(c1, Field(b1, 4, 4));
      SextetMask(c1);
      rs := rs + [Code(And(c1, 0x3f))];
      c1 := Shl(Field(b1, 0, 4), 2);
      if off >= length {
        SextetMask(c1);
        rs := rs + [Code(And(c1, 0x3f))];
        assert rs == rs0 + Two(b0, b1);
        return Encoded(rs);
      }
      var b2 := d[off];
      off := off + 1;
      EncodeBits(b0, b1, b2);
      c1 := Or(c1, Field(b2, 6, 2));
      SextetMask(c1);
      rs := rs + [Code(And(c1, 0x3f))];
      rs := rs + [Code(Field(b2, 0, 6))];
      assert rs == rs0 + Three(b0, b1, b2);
      assert d[off..length] == rest[3..];
    }
    EncodeEmpty(d[off..length]);
    r := Encoded(rs);
  }

  lemma EncodeEmpty(d: seq<byte>)
    requires d == []
    ensures Encode(d) == []
  {}

  lemma EncodeStep(d: seq<byte>, rs: seq<nat>)
    requires d != []
    ensures |d| == 1 ==> rs + One(d[0]) == rs + Encode(d)
    ensures |d| == 2 ==> rs + Two(d[0], d[1]) == rs + Encode(d)
    ensures |d| >= 3 ==> rs + Three(d[0], d[1], d[2]) + Encode(d[3..]) == rs + Encode(d)
  {
    hide One, Two, Three;
  }

  // ----- decoding

  /** The outcomes of decoding: the two exceptions are those of the table and of chr(-1). */
  datatype DecodeResult = Decoded(bytes: seq<nat>) | InvalidMaxlen | IndexError | ChrError

  function Prepend(xs: seq<nat>, r: DecodeResult): DecodeResult {
    match r
    case Decoded(ys) => Decoded(xs + ys)
    case _ => r
  }

  function First(c1: nat, c2: nat): nat { c1 * 4 + c2 / 16 % 4 }

  function Second(c2: nat, c3: nat): nat { c2 % 16 * 16 + c3 / 4 % 16 }

  function Third(c3: nat, c4: nat): nat { c3 % 4 * 64 + c4 }

  /** Up to `n` more bytes from the characters `s`. */
  function Decode(s: seq<nat>, n: nat): DecodeResult
    decreases |s|
  {
    if |s| < 2 || n == 0 then Decoded([])
    else
      match (Char64(s[0]), Char64(s[1])) {
        case (OutOfTable, _) => IndexError
        case (_, OutOfTable) => IndexError
        case (Invalid, _) => Decoded([])
        case (_, Invalid) => Decoded([])
        case (Value(c1), Value(c2)) => Prepend([First(c1, c2)], DecodeThird(s, n, c2))
      }
  }

  function DecodeThird(s: seq<nat>, n: nat, c2: nat): DecodeResult
    requires |s| >= 2 && n > 0
    decreases |s|, 1
  {
    if n == 1 || |s| == 2 then Decoded([])
    else
      match Char64(s[2]) {
        case OutOfTable => IndexError
        case Invalid => Decoded([])
        case Value(c3) => Prepend([Second(c2, c3)], DecodeFourth(s, n, c3))
      }
  }

  function DecodeFourth(s: seq<nat>, n: nat, c3: nat): DecodeResult
    requires |s| >= 3 && n > 1
    decreases |s|, 0
  {
    if n == 2 || |s| == 3 then Decoded([])
    else
      match Char64(s[3]) {
        case OutOfTable => IndexError
        case Invalid => ChrError
        case Value(c4) => Prepend([Third(c3, c4)], Decode(s[4..], n - 3))
      }
  }

  /** Four sextets are a number of 24 bits, the first one most significant, in three bytes. */
  lemma SextetsAreNumber(c1: nat, c2: nat, c3: nat, c4: nat)
    requires c1 < 64 && c2 < 64 && c3 < 64 && c4 < 64
    ensures var n := ((c1 * 64 + c2) * 64 + c3) * 64 + c4;
            First(c1, c2) == n / 0x1_0000 && Second(c2, c3) == n / 0x100 % 256 && Third(c3, c4) == n % 256
  {
    var p, q, u, v := c2 / 16, c2 % 16, c3 / 4, c3 % 4;
    assert c2 == 16 * p + q && c3 == 4 * u + v;
    assert p % 4 == p && u % 16 == u;
    hide *;
    ThreeBytes(c1 * 4 + p, q * 16 + u, v * 64 + c4);
    assert ((c1 * 64 + (16 * p + q)) * 64 + (4 * u + v)) * 64 + c4
        == ((c1 * 4 + p) * 256 + (q * 16 + u)) * 256 + (v * 64 + c4);
  }

  lemma ThreeBytes(b0: nat, b1: nat, b2: nat)
    requires b1 < 256 && b2 < 256
    ensures var n := (b0 * 256 + b1) * 256 + b2;
            n / 0x1_0000 == b0 && n / 0x100 % 256 == b1 && n % 256 == b2
  {
    var n := (b0 * 256 + b1) * 256 + b2;
    DivModUnique(n, b0, b1 * 256 + b2, 0x1_0000);
    DivModUnique(n, b0 * 256 + b1, b2, 0x100);
    DivModUnique(b0 * 256 + b1, b0, b1, 256);
  }

  /** `(c1 << 2) | ((c2 & 0x30) >> 4)` and its companions, for six-bit values */
  lemma DecodeBits(c1: nat, c2: nat, c3: nat, c4: nat)
    requires c1 < 64 && c2 < 64 && c3 < 64 && c4 < 64
    ensures Or(Shl(c1, 2), Shr(And(c2, 0x30), 4)) == First(c1, c2)
    ensures Or(Shl(And(c2, 0x0f), 4), Shr(And(c3, 0x3c), 2)) == Second(c2, c3)
    ensures Or(Shl(And(c3, 0x03), 6), c4) == Third(c3, c4)
  {
    Small();
    ShiftedMask(c2, 4, 2);
    ShiftedMask(c3, 2, 4);
    MaskOf(c2, 4);
    MaskOf(c3, 2);
    hide Pow2, Or, Shl, Shr, And;
    JoinIs(c1, c2 / 16 % 4, 2, 4);
    JoinIs(c2 % 16, c3 / 4 % 16, 4, 16);
    JoinIs(c3 % 4, c4, 6, 64);
  }

  /** Masking a field and then shifting it down is shifting and then masking. */
  lemma ShiftedMask(c: nat, k: nat, w: nat)
    ensures Shr(And(c, Shl(Pow2(w) - 1, k)), k) == c / Pow2(k) % Pow2(w)
  {
    BitwiseShr(AndOp, c, Shl(Pow2(w) - 1, k), k);
    SplitUnique(Pow2(w) - 1, 0, k);
    FieldIs(c, k, w, Pow2(k), Pow2(w));
  }

  // ----- when decoding fails

  predicate Legal(c: nat) { Char64(c).Value? }

  /** How many characters are looked up if all of them are legal. */
  function Lookups(len: nat, n: nat): nat
    decreases len
  {
    if len < 2 || n == 0 then 0
    else if n == 1 || len == 2 then 2
    else if n == 2 || len == 3 then 3
    else 4 + Lookups(len - 4, n - 3)
  }

  lemma {:induction false} LookupsInside(len: nat, n: nat)
    ensures Lookups(len, n) <= len
    decreases len
  {
    if len >= 4 && n >= 3 { LookupsInside(len - 4, n - 3); }
  }

  /** Character `k` is looked up: nothing stops the loop before, and pairs are looked up together. */
  ghost predicate Reached(s: seq<nat>, n: nat, k: nat) {
    && k < Lookups(|s|, n) && k < |s|
    && forall j :: 0 <= j < k && !(k % 4 == 1 && j == k - 1) ==> Legal(s[j])
  }

  ghost predicate LeavesTable(s: seq<nat>, n: nat, k: nat) { Reached(s, n, k) && s[k] == 128 }

  ghost predicate FeedsChr(s: seq<nat>, n: nat, k: nat) {
    k % 4 == 3 && Reached(s, n, k) && s[k] != 128 && !Legal(s[k])
  }

  lemma ReachedLater(s: seq<nat>, n: nat, k: nat)
    requires |s| >= 4 && n >= 3 && k >= 4
    ensures Reached(s, n, k) <==>
      Legal(s[0]) && Legal(s[1]) && Legal(s[2]) && Legal(s[3]) && Reached(s[4..], n - 3, k - 4)
  {
    hide Legal;
    var t := s[4..];
    if Reached(s, n, k) {
      forall j | 0 <= j < k - 4 && !((k - 4) % 4 == 1 && j == k - 5) ensures Legal(t[j]) {
        assert t[j] == s[j + 4];
      }
    }
    if Legal(s[0]) && Legal(s[1]) && Legal(s[2]) && Legal(s[3]) && Reached(t, n - 3, k - 4) {
      forall j | 4 <= j < k && !(k % 4 == 1 && j == k - 1) ensures Legal(s[j]) {
        assert s[j] == t[j - 4];
      }
    }
  }

  datatype Fate = Fine | LeftTable | BadChr

  /** How decoding ends, without the bytes. */
  function FateOf(s: seq<nat>, n: nat): Fate
    decreases |s|
  {
    if |s| < 2 || n == 0 then Fine
    else if s[0] == 128 || s[1] == 128 then LeftTable
    else if !Legal(s[0]) || !Legal(s[1]) || n == 1 || |s| == 2 then Fine
    else if s[2] == 128 then LeftTable
    else if !Legal(s[2]) || n == 2 || |s| == 3 then Fine
    else if s[3] == 128 then LeftTable
    else if !Legal(s[3]) then BadChr
    else FateOf(s[4..], n - 3)
  }

  function Ending(r: DecodeResult): Fate {
    if r.IndexError? then LeftTable else if r.ChrError? then BadChr else Fine
  }

  lemma LookupKind(c: nat)
    ensures Char64(c).OutOfTable? <==> c == 128
    ensures Char64(c).Value? <==> Legal(c)
  {}

  lemma FourthEnds(s: seq<nat>, n: nat, c3: nat)
    requires |s| >= 3 && n > 1
    requires |s| >= 4 && n >= 3 ==> Ending(Decode(s[4..], n - 3)) == FateOf(s[4..], n - 3)
    ensures Ending(DecodeFourth(s, n, c3))
         == if n == 2 || |s| == 3 then Fine else if s[3] == 128 then LeftTable
            else if !Legal(s[3]) then BadChr else FateOf(s[4..], n - 3)
  {
    hide Char64, Legal, Third, Decode, FateOf;
    if |s| > 3 { LookupKind(s[3]); }
  }

  lemma {:induction false} DecodeEnds(s: seq<nat>, n: nat)
    ensures Ending(Decode(s, n)) == FateOf(s, n)
    decreases |s|
  {
    hide Char64, Legal, First, Second, Third, DecodeFourth;
    if |s| >= 4 && n >= 3 { DecodeEnds(s[4..], n - 3); }
    if |s| >= 2 && n > 0 {
      LookupKind(s[0]);
      LookupKind(s[1]);
      if |s| > 2 && n > 1 {
        LookupKind(s[2]);
        if Char64(s[2]).Value? { FourthEnds(s, n, Char64(s[2]).v); }
      }
    }
  }

  lemma FailsInFirst(s: seq<nat>, n: nat, k: nat)
    requires k < 4
    ensures LeavesTable(s, n, k) ==> FateOf(s, n) == LeftTable
    ensures FeedsChr(s, n, k) ==> FateOf(s, n) == BadChr
  {
    assert !Legal(128);
    hide Legal;
  }

  lemma {:induction false} FailsThere(s: seq<nat>, n: nat, k: nat)
    ensures LeavesTable(s, n, k) ==> FateOf(s, n) == LeftTable
    ensures FeedsChr(s, n, k) ==> FateOf(s, n) == BadChr
    decreases k
  {
    if k < 4 {
      FailsInFirst(s, n, k);
    } else if Reached(s, n, k) {
      assert !Legal(128);
      ReachedLater(s, n, k);
      hide Legal, Reached;
      FailsThere(s[4..], n - 3, k - 4);
      assert s[4..][k - 4] == s[k];
    }
  }

  /** A character that is to blame. */
  lemma {:induction false} Culprit(s: seq<nat>, n: nat) returns (k: nat)
    requires FateOf(s, n) != Fine
    ensures FateOf(s, n) == LeftTable ==> LeavesTable(s, n, k)
    ensures FateOf(s, n) == BadChr ==> FeedsChr(s, n, k)
    decreases |s|
  {
    assert !Legal(128);
    hide Legal;
    if s[0] == 128 {
      k := 0;
    } else if s[1] == 128 {
      k := 1;
    } else if s[2] == 128 {
      k := 2;
    } else if !Legal(s[3]) {
      k := 3;
    } else {
      var j := Culprit(s[4..], n - 3);
      k := j + 4;
      ReachedLater(s, n, k);
      assert s[4..][j] == s[k];
    }
  }

  /** The table is left exactly when code point 128 is looked up. */
  lemma IndexErrorIff(s: seq<nat>, n: nat)
    ensures Decode(s, n) == IndexError <==> exists k :: LeavesTable(s, n, k)
  {
    DecodeEnds(s, n);
    hide Decode, FateOf, LeavesTable, FeedsChr;
    if Decode(s, n) == IndexError { var k := Culprit(s, n); }
    if k :| LeavesTable(s, n, k) { FailsThere(s, n, k); }
  }

  /** chr(-1) happens exactly when the fourth character of a group is looked up and illegal. */
  lemma ChrErrorIff(s: seq<nat>, n: nat)
    ensures Decode(s, n) == ChrError <==> exists k :: FeedsChr(s, n, k)
  {
    DecodeEnds(s, n);
    hide Decode, FateOf, LeavesTable, FeedsChr;
    if Decode(s, n) == ChrError { var k := Culprit(s, n); }
    if k :| FeedsChr(s, n, k) { FailsThere(s, n, k); }
  }

  /** Three groups of inputs: an illegal first character only ends the loop, whatever follows. */
  lemma StartsWith(s: seq<nat>, n: nat)
    requires |s| >= 2 && n > 0
    ensures s[0] == 128 ==> Decode(s, n) == IndexError
    ensures s[0] != 128 && s[1] != 128 && !Legal(s[0]) ==> Decode(s, n) == Decoded([])
    ensures |s| >= 4 && n >= 3 && Legal(s[0]) && Legal(s[1]) && Legal(s[2]) && !Legal(s[3]) && s[3] != 128 ==>
      Decode(s, n) == ChrError
  {
    DecodeEnds(s, n);
    LookupKind(s[0]);
    LookupKind(s[1]);
    assert !Legal(128);
    hide Char64, Legal, DecodeThird, First;
  }

  /** One input for each failure, and one for the illegal first character. */
  lemma FailingInputs()
    ensures Decode([128, 46], 1) == IndexError
    ensures Decode([46, 46, 46, 36], 3) == ChrError
    ensures Decode([36, 46, 46, 46], 3) == Decoded([])
  {
    hide Decode;
    StartsWith([128, 46], 1);
    StartsWith([46, 46, 46, 36], 3);
    StartsWith([36, 46, 46, 46], 3);
  }

  method DecodeLoop(s: seq<nat>, maxlen: int) returns (r: DecodeResult)
    ensures r == if maxlen <= 0 then InvalidMaxlen else Decode(s, maxlen)
  {
    hide First, Second, Third, Or, Shl, Shr, And, Char64;
    var off, olen := 0, 0;
    var rs: seq<nat> := [];
    if maxlen <= 0 { return InvalidMaxlen; }
    ghost var goal := Decode(s, maxlen);
    PrependNothing(rs, goal);
    while off < |s| - 1 && olen < maxlen
      invariant 0 <= off <= |s| && 0 <= olen <= maxlen
      invariant goal == Prepend(rs, Decode(s[off..], maxlen - olen))
      decreases |s| - off
    {
      ghost var rest, n := s[off..], maxlen - olen;
      var k1, k2 := Char64(s[off]), Char64(s[off + 1]);
      off := off + 2;
      if k1.OutOfTable? || k2.OutOfTable? { return IndexError; }
      if k1.Invalid? || k2.Invalid? { PrependNothing(rs, goal); return Decoded(rs); }
      DecodeBits(k1.v, k2.v, 0, 0);
      PrependTwice(rs, [First(k1.v, k2.v)], DecodeThird(rest, n, k2.v));
      rs := rs + [Or(Shl(k1.v, 2), Shr(And(k2.v, 0x30), 4))];
      olen := olen + 1;
      if olen >= maxlen || off >= |s| { PrependNothing(rs, goal); return Decoded(rs); }
      var k3 := Char64(s[off]);
      off := off + 1;
      if k3.OutOfTable? { return IndexError; }
      if k3.Invalid? { PrependNothing(rs, goal); return Decoded(rs); }
      DecodeBits(k1.v, k2.v, k3.v, 0);
      PrependTwice(rs, [Second(k2.v, k3.v)], DecodeFourth(rest, n, k3.v));
      rs := rs + [Or(Shl(And(k2.v, 0x0f), 4), Shr(And(k3.v, 0x3c), 2))];
      olen := olen + 1;
      if olen >= maxlen || off >= |s| { PrependNothing(rs, goal); return Decoded(rs); }
      var k4 := Char64(s[off]);
      off := off + 1;
      if k4.OutOfTable? { return IndexError; }
      if k4.Invalid? { return ChrError; }
      DecodeBits(k1.v, k2.v, k3.v, k4.v);
      PrependTwice(rs, [Third(k3.v, k4.v)], Decode(rest[4..], n - 3));
      rs := rs + [Or(Shl(And(k3.v, 0x03), 6), k4.v)];
      olen := olen + 1;
      assert rest[4..] == s[off..];
    }
    PrependNothing(rs, goal);
    r := Decoded(rs);
  }

  lemma PrependTwice(xs: seq<nat>, ys: seq<nat>, r: DecodeResult)
    ensures Prepend(xs, Prepend(ys, r)) == Prepend(xs + ys, r)
  {
    if r.Decoded? { assert xs + (ys + r.bytes) == xs + ys + r.bytes; }
  }

  lemma PrependNothing(xs: seq<nat>, r: DecodeResult)
    ensures Prepend(xs, Decoded([])) == Decoded(xs)
    ensures Prepend([], r) == r
  {
    assert xs + [] == xs;
    if r.Decoded? { assert [] + r.bytes == r.bytes; }
  }

  // ----- round trip

  lemma GroupRoundTrip(b0: byte, b1: byte, b2: byte)
    ensures First(b0 / 4, b0 % 4 * 16 + b1 / 16) == b0
    ensures Second(b0 % 4 * 16 + b1 / 16, b1 % 16 * 4 + b2 / 64) == b1
    ensures Third(b1 % 16 * 4 + b2 / 64, b2 % 64) == b2
    ensures First(b0 / 4, b0 % 4 * 16) == b0
    ensures Second(b0 % 4 * 16 + b1 / 16, b1 % 16 * 4) == b1
  {
    DivModUnique(b0 % 4 * 16 + b1 / 16, b0 % 4, b1 / 16, 16);
    DivModUnique(b1 % 16 * 4 + b2 / 64, b1 % 16, b2 / 64, 4);
    DivModUnique(b0 % 4 * 16, b0 % 4, 0, 16);
    DivModUnique(b1 % 16 * 4, b1 % 16, 0, 4);
  }

  lemma OneTrip(b0: byte, n: nat)
    requires n > 0
    ensures Decode(One(b0), n) == Decoded([b0])
  {
    hide First, Char64, Code;
    TablesInverse(b0 / 4, Code(b0 / 4));
    TablesInverse(b0 % 4 * 16, Code(b0 % 4 * 16));
    GroupRoundTrip(b0, 0, 0);
  }

  lemma TwoTrip(b0: byte, b1: byte, n: nat)
    requires n > 0
    ensures Decode(Two(b0, b1), n) == Decoded([b0, b1][..if n == 1 then 1 else 2])
  {
    hide First, Second, Char64, Code;
    var c2, c3 := b0 % 4 * 16 + b1 / 16, b1 % 16 * 4;
    TablesInverse(b0 / 4, Code(b0 / 4));
    TablesInverse(c2, Code(c2));
    TablesInverse(c3, Code(c3));
    GroupRoundTrip(b0, b1, 0);
    var s := Two(b0, b1);
    if n > 1 {
      assert DecodeFourth(s, n, c3) == Decoded([]);
      assert DecodeThird(s, n, c2) == Decoded([b1]);
      assert [b0, b1][..2] == [b0] + [b1];
    } else {
      assert DecodeThird(s, n, c2) == Decoded([]);
    }
  }

  lemma ThreeTrip(b0: byte, b1: byte, b2: byte, more: seq<nat>, n: nat)
    requires n > 0
    ensures n <= 2 ==> Decode(Three(b0, b1, b2) + more, n) == Decoded([b0, b1][..n])
    ensures n >= 3 ==> Decode(Three(b0, b1, b2) + more, n) == Prepend([b0, b1, b2], Decode(more, n - 3))
  {
    hide First, Second, Third, Char64, Code, Prepend;
    var c2, c3 := b0 % 4 * 16 + b1 / 16, b1 % 16 * 4 + b2 / 64;
    TablesInverse(b0 / 4, Code(b0 / 4));
    TablesInverse(c2, Code(c2));
    TablesInverse(c3, Code(c3));
    TablesInverse(b2 % 64, Code(b2 % 64));
    GroupRoundTrip(b0, b1, b2);
    var s := Three(b0, b1, b2) + more;
    assert s[4..] == more;
    if n >= 3 {
      var r := Decode(more, n - 3);
      assert DecodeFourth(s, n, c3) == Prepend([b2], r);
      assert DecodeThird(s, n, c2) == Prepend([b1], Prepend([b2], r));
      PrependTwice([b1], [b2], r);
      PrependTwice([b0], [b1] + [b2], r);
      assert [b0] + ([b1] + [b2]) == [b0, b1, b2];
    } else {
      PrependNothing([b1], Decoded([]));
      PrependNothing([b0], Decoded([]));
      PrependTwice([b0], [b1], Decoded([]));
      PrependNothing([b0] + [b1], Decoded([]));
      if n == 1 {
        assert DecodeThird(s, n, c2) == Decoded([]);
        assert [b0, b1][..1] == [b0];
      } else {
        assert DecodeFourth(s, n, c3) == Decoded([]);
        assert DecodeThird(s, n, c2) == Prepend([b1], Decoded([]));
        assert [b0, b1][..2] == [b0] + [b1];
      }
    }
  }

  function Cut(d: seq<byte>, n: nat): seq<byte> { if n < |d| then d[..n] else d }

  lemma CutThree(d: seq<byte>, n: nat)
    requires |d| >= 3 && n >= 3
    ensures Cut(d, n) == [d[0], d[1], d[2]] + Cut(d[3..], n - 3)
  {
    assert d == [d[0], d[1], d[2]] + d[3..];
  }

  lemma CutShort(d: seq<byte>, n: nat)
    requires |d| >= 3 && n <= 2
    ensures Cut(d, n) == [d[0], d[1]][..n]
  {}

  lemma EncodeGroup(d: seq<byte>)
    ensures |d| == 0 ==> Encode(d) == []
    ensures |d| == 1 ==> Encode(d) == One(d[0]) && d == [d[0]]
    ensures |d| == 2 ==> Encode(d) == Two(d[0], d[1]) && d == [d[0], d[1]]
    ensures |d| >= 3 ==> Encode(d) == Three(d[0], d[1], d[2]) + Encode(d[3..])
  {}

  lemma DecodeNothing(s: seq<nat>, n: nat)
    requires s == [] || n == 0
    ensures Decode(s, n) == Decoded([])
  {}

  /** Decoding an encoded text gives the bytes back, up to the limit asked for. */
  lemma {:induction false} RoundTrip(d: seq<byte>, n: nat)
    ensures Decode(Encode(d), n) == Decoded(Cut(d, n))
    decreases |d|
  {
    EncodeGroup(d);
    hide Decode, Encode, One, Two, Three;
    if |d| == 0 || n == 0 {
      DecodeNothing(Encode(d), n);
    } else if |d| == 1 {
      OneTrip(d[0], n);
    } else if |d| == 2 {
      TwoTrip(d[0], d[1], n);
    } else {
      ThreeTrip(d[0], d[1], d[2], Encode(d[3..]), n);
      if n >= 3 {
        RoundTrip(d[3..], n - 3);
        CutThree(d, n);
      } else {
        CutShort(d, n);
      }
      hide Cut;
    }
  }
}

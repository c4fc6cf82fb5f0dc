/** Bytes, and the little-endian readings of byte strings used throughout the tools. */
module Bytes {
  import opened Bits

  type byte = b: nat | b < 256

  function ByteXor(a: byte, b: byte): byte {
    BitwiseBound(XorOp, a, b, 8);
    Xor(a, b)
  }

  lemma ByteXorCancel(a: byte, b: byte)
    ensures ByteXor(a, ByteXor(a, b)) == b
  {
    XorComm(a, b);
    XorCancel(b, a);
    XorComm(a, Xor(b, a));
  }

  function Shorter(a: nat, b: nat): nat { if a <= b then a else b }

  /** Bytewise, as far as both go. */
  function XorBytes(a: seq<byte>, b: seq<byte>): (r: seq<byte>)
    ensures |r| == Shorter(|a|, |b|) && forall i :: 0 <= i < |r| ==> r[i] == ByteXor(a[i], b[i])
  {
    var n := Shorter(|a|, |b|);
    seq(n, i requires 0 <= i < n => ByteXor(a[i], b[i]))
  }

  /** int.from_bytes(s, 'little') */
  function FromLittle(s: seq<byte>): nat {
    if s == [] then 0 else s[0] + 256 * FromLittle(s[1..])
  }

  /** n.to_bytes(len, 'little'), for numbers that fit */
  function ToLittle(n: nat, len: nat): (s: seq<byte>)
    ensures |s| == len
  {
    if len == 0 then [] else [n % 256] + ToLittle(n / 256, len - 1)
  }

  lemma Pow2Plus2(k: nat)
    ensures Pow2(k + 2) == 4 * Pow2(k)
  {
    assert Pow2(k + 2) == 2 * Pow2(k + 1);
  }

  lemma Pow2Plus8(k: nat)
    ensures Pow2(k + 8) == 256 * Pow2(k)
  {
    hide Pow2;
    Pow2Plus2(k);
    Pow2Plus2(k + 2);
    Pow2Plus2(k + 4);
    Pow2Plus2(k + 6);
  }

  lemma {:induction false} FromLittleBound(s: seq<byte>)
    ensures FromLittle(s) < Pow2(8 * |s|)
  {
    if s != [] {
      FromLittleBound(s[1..]);
      Pow2Plus8(8 * |s[1..]|);
    }
  }

  lemma {:induction false} FromToLittle(n: nat, len: nat)
    requires n < Pow2(8 * len)
    ensures FromLittle(ToLittle(n, len)) == n
  {
    if len > 0 {
      Pow2Plus8(8 * (len - 1));
      FromToLittle(n / 256, len - 1);
      assert ToLittle(n, len)[1..] == ToLittle(n / 256, len - 1);
    }
  }

  lemma {:induction false} ToFromLittle(s: seq<byte>)
    ensures ToLittle(FromLittle(s), |s|) == s
  {
    if s != [] {
      ToFromLittle(s[1..]);
      var q := FromLittle(s[1..]);
      DivModUnique(FromLittle(s), q, s[0], 256);
      assert ToLittle(FromLittle(s), |s|) == [s[0]] + ToLittle(q, |s[1..]|);
    }
  }

  /** The last byte is the most significant one. */
  lemma {:induction false} FromLittleSnoc(s: seq<byte>, b: byte)
    ensures FromLittle(s + [b]) == FromLittle(s) + Shl(b, 8 * |s|)
  {
    if s == [] {
      assert s + [b] == [b];
    } else {
      assert (s + [b])[1..] == s[1..] + [b];
      FromLittleSnoc(s[1..], b);
      ShlShl(b, 8 * |s[1..]|, 8);
      ShlIsMul(Shl(b, 8 * |s[1..]|), 8);
      assert Pow2(8) == 256;
    }
  }

  lemma Pow2Of32()
    ensures Pow2(32) == 0x1_0000_0000
  {
    Pow2Plus8(0);
    Pow2Plus8(8);
    Pow2Plus8(16);
    Pow2Plus8(24);
  }

  lemma XorStep(x: byte, y: byte, p: nat, q: nat)
    ensures Xor(x + 256 * p, y + 256 * q) == ByteXor(x, y) + 256 * Xor(p, q)
  {
    Pow2Plus8(0);
    assert Pow2(8) == 256;
    hide Bitwise, Pow2, Shl;
    ShlIsMul(p, 8);
    ShlIsMul(q, 8);
    ShlIsMul(Xor(p, q), 8);
    BitwiseJoin(XorOp, p, x, q, y, 8);
  }

  lemma {:induction false} FromLittleXor(a: seq<byte>, b: seq<byte>)
    requires |a| == |b|
    ensures FromLittle(XorBytes(a, b)) == Xor(FromLittle(a), FromLittle(b))
  {
    if a != [] {
      FromLittleXor(a[1..], b[1..]);
      assert XorBytes(a, b)[1..] == XorBytes(a[1..], b[1..]);
      hide Xor, ByteXor;
      XorStep(a[0], b[0], FromLittle(a[1..]), FromLittle(b[1..]));
    } else {
      XorZero(0);
    }
  }

  /** Zero bytes at the most significant end change nothing. */
  lemma {:induction false} FromLittleZeros(s: seq<byte>, zeros: seq<byte>)
    requires forall k :: 0 <= k < |zeros| ==> zeros[k] == 0
    ensures FromLittle(s + zeros) == FromLittle(s)
    decreases |s| + |zeros|
  {
    if s != [] {
      assert (s + zeros)[1..] == s[1..] + zeros;
      FromLittleZeros(s[1..], zeros);
    } else if zeros != [] {
      assert s + zeros == zeros && [] + zeros[1..] == zeros[1..];
      FromLittleZeros([], zeros[1..]);
    } else {
      assert s + zeros == [];
    }
  }
}

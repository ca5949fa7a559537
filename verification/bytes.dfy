/** Byte-level vocabulary of the cipher: unsigned 8-bit values, text-box
    characters identified with their numeric codes, and bitwise exclusive-or. */
module Bytes {

  /** An unsigned 8-bit value, the C# `byte`. */
  type Byte = x: int | 0 <= x < 256

  /** A character of a text box, identified with its numeric code. */
  type Char = nat

  /** The contents of a text box. */
  type Text = seq<Char>

  /** The character codes of a Dafny string literal, for writing concrete texts. */
  function Code(s: string): (t: Text)
    ensures |t| == |s|
    ensures forall k :: 0 <= k < |s| ==> t[k] == s[k] as nat
  {
    seq(|s|, k requires 0 <= k < |s| => s[k] as nat)
  }

  /** The C# cast `(byte)c`: only the low 8 bits of the character survive. */
  function Truncate(c: Char): (b: Byte)
    ensures b == c <==> c < 256
    ensures (c - b) % 256 == 0
  {
    c % 256
  }

  /** Characters that survive the cast unchanged. */
  predicate IsLatin1(t: Text) {
    forall k :: 0 <= k < |t| ==> t[k] < 256
  }

  /** Casting every character to a byte and back leaves a text unchanged
      exactly when every character is below 256. */
  lemma CastsKeepText(t: Text)
    ensures FromBytes(ToBytes(t)) == t <==> IsLatin1(t)
  {
    if IsLatin1(t) {
      assert forall k :: 0 <= k < |t| ==> FromBytes(ToBytes(t))[k] == t[k];
    } else {
      var k :| 0 <= k < |t| && t[k] >= 256;
      assert FromBytes(ToBytes(t))[k] != t[k];
    }
  }

  /** A text cast to bytes character by character, as `Encrypt` does
      before it XORs. */
  function ToBytes(t: Text): (bs: seq<Byte>)
    ensures |bs| == |t|
    ensures forall k :: 0 <= k < |t| ==> bs[k] == Truncate(t[k])
  {
    seq(|t|, k requires 0 <= k < |t| => Truncate(t[k]))
  }

  /** Bytes shown as text through the cast `(char)b`: each byte becomes the
      character with that code. */
  function FromBytes(bs: seq<Byte>): (t: Text)
    ensures |t| == |bs|
    ensures IsLatin1(t)
  {
    seq(|bs|, k requires 0 <= k < |bs| => bs[k] as nat)
  }

  /** Casting bytes to characters and back loses nothing. */
  lemma ToBytesFromBytes(bs: seq<Byte>)
    ensures ToBytes(FromBytes(bs)) == bs
  {
    assert forall k :: 0 <= k < |bs| ==> ToBytes(FromBytes(bs))[k] == bs[k];
  }

  /** Incrementing a byte with wrap-around agrees with reducing the full sum. */
  lemma WrapIncrement(x: nat)
    ensures (x % 256 + 1) % 256 == (x + 1) % 256
  {
  }

  /** Bitwise exclusive-or of two bytes, the C# `^` on bytes followed by `(byte)`. */
  function Xor(a: Byte, b: Byte): (r: Byte)
    ensures r == XorBits(b, a, 8)
    ensures b == 0 ==> r == a
    ensures a == b ==> r == 0
  {
    XorBitsSymmetric(a, b, 8);
    XorBitsZero(a, 8);
    XorBitsSame(a, 8);
    XorBits(a, b, 8)
  }

  /** Exclusive-or does not depend on the order of its operands. */
  lemma {:induction false} XorBitsSymmetric(a: nat, b: nat, n: nat)
    ensures XorBits(a, b, n) == XorBits(b, a, n)
  {
    if n > 0 {
      XorBitsSymmetric(a / 2, b / 2, n - 1);
    }
  }

  /** Exclusive-or with zero keeps the low `n` bits. */
  lemma {:induction false} XorBitsZero(a: nat, n: nat)
    requires a < Pow2(n)
    ensures XorBits(a, 0, n) == a
  {
    if n > 0 {
      XorBitsZero(a / 2, n - 1);
    }
  }

  /** Exclusive-or of a value with itself is zero. */
  lemma {:induction false} XorBitsSame(a: nat, n: nat)
    ensures XorBits(a, a, n) == 0
  {
    if n > 0 {
      XorBitsSame(a / 2, n - 1);
    }
  }

  /** Exclusive-or of the low `n` bits of `a` and `b`, least significant bit first. */
  function XorBits(a: nat, b: nat, n: nat): (r: nat)
    ensures r < Pow2(n)
  {
    if n == 0 then 0
    else (if a % 2 == b % 2 then 0 else 1) + 2 * XorBits(a / 2, b / 2, n - 1)
  }

  /** Two to the power `n`. */
  function Pow2(n: nat): (p: nat)
    ensures p > 0
  {
    if n == 0 then 1 else 2 * Pow2(n - 1)
  }

  /** The lowest bit of an exclusive-or and the exclusive-or of the
      remaining bits. */
  lemma XorBitsSplit(a: nat, b: nat, n: nat)
    requires n > 0
    ensures XorBits(a, b, n) % 2 == (if a % 2 == b % 2 then 0 else 1)
    ensures XorBits(a, b, n) / 2 == XorBits(a / 2, b / 2, n - 1)
  {
  }

  /** Exclusive-or with the same byte twice gives back the original byte. */
  lemma XorCancel(a: Byte, b: Byte)
    ensures Xor(Xor(a, b), b) == a
  {
    XorBitsCancel(a, b, 8);
  }

  /** `XorCancel` for the low `n` bits, by induction over the bits. */
  lemma {:induction false} XorBitsCancel(a: nat, b: nat, n: nat)
    requires a < Pow2(n)
    ensures XorBits(XorBits(a, b, n), b, n) == a
  {
    if n > 0 {
      XorBitsSplit(a, b, n);
      XorBitsCancel(a / 2, b / 2, n - 1);
    }
  }

  /** XORing two bytes with the same third byte and then with each other
      cancels the third byte. */
  lemma XorKeyCancels(a: Byte, b: Byte, k: Byte)
    ensures Xor(Xor(a, k), Xor(b, k)) == Xor(a, b)
  {
    XorBitsKeyCancels(a, b, k, 8);
  }

  /** `XorKeyCancels` for the low `n` bits, by induction over the bits. */
  lemma {:induction false} XorBitsKeyCancels(a: nat, b: nat, k: nat, n: nat)
    ensures XorBits(XorBits(a, k, n), XorBits(b, k, n), n) == XorBits(a, b, n)
  {
    if n > 0 {
      XorBitsSplit(a, k, n);
      XorBitsSplit(b, k, n);
      XorBitsKeyCancels(a / 2, b / 2, k / 2, n - 1);
    }
  }
}

/** The hexadecimal text the window shows for ciphertext: each byte as two
    upper-case hex digits on the way out, and pairs of digits read back as
    bytes on the way in. */
module Hex {
  import opened Bytes

  /** The digits the decrypt handler accepts, in the order the handler lists
      them. */
  const HexAlphabet: Text := Code("1234567890ABCDEF")

  /** Every character of `t` is in the handler's alphabet, the condition the
      decrypt handler applies. */
  predicate InAlphabet(t: Text) {
    forall k :: 0 <= k < |t| ==> t[k] in HexAlphabet
  }

  /** A decimal digit or one of `A` to `F`. */
  predicate IsUpperHexDigit(c: Char) {
    '0' as nat <= c <= '9' as nat || 'A' as nat <= c <= 'F' as nat
  }

  /** A character `Convert.ToByte(_, 16)` reads as a digit: either case. */
  predicate IsHexDigit(c: Char) {
    '0' as nat <= c <= '9' as nat || 'A' as nat <= c <= 'F' as nat || 'a' as nat <= c <= 'f' as nat
  }

  /** Every character of `t` is a decimal digit or `A` to `F`. */
  predicate IsUpperHexText(t: Text) {
    forall k :: 0 <= k < |t| ==> IsUpperHexDigit(t[k])
  }

  /** Every character of `t` is a hex digit of either case. */
  predicate IsHexText(t: Text) {
    forall k :: 0 <= k < |t| ==> IsHexDigit(t[k])
  }

  /** The handler's alphabet is exactly the decimal digits and `A` to `F`. */
  lemma HexAlphabetMembers(c: Char)
    ensures c in HexAlphabet <==> IsUpperHexDigit(c)
  {
    if '0' as nat <= c <= '9' as nat {
      assert HexAlphabet[if c == '0' as nat then 9 else c - '1' as nat] == c;
    } else if 'A' as nat <= c <= 'F' as nat {
      assert HexAlphabet[c - 'A' as nat + 10] == c;
    }
  }

  /** The handler's alphabet condition is the upper-case hex condition. */
  lemma InAlphabetIsUpperHex(t: Text)
    ensures InAlphabet(t) <==> IsUpperHexText(t)
  {
    forall k | 0 <= k < |t| {
      HexAlphabetMembers(t[k]);
    }
  }

  /** Upper-case hex text is hex text. */
  lemma UpperHexIsHex(t: Text)
    requires IsUpperHexText(t)
    ensures IsHexText(t)
  {
  }

  /** The value of a digit, as `Convert.ToByte(_, 16)` reads it. */
  function DigitValue(c: Char): (v: nat)
    requires IsHexDigit(c)
    ensures v < 16
  {
    if c <= '9' as nat then c - '0' as nat
    else if c <= 'F' as nat then c - 'A' as nat + 10
    else c - 'a' as nat + 10
  }

  /** The digit `ToString("x2")` writes for `v`: lower case. */
  function LowerDigit(v: nat): (c: Char)
    requires v < 16
    ensures IsHexDigit(c) && DigitValue(c) == v
  {
    if v < 10 then '0' as nat + v else 'a' as nat + v - 10
  }

  /** `char.ToUpper` on the ASCII letters; every other character is kept. */
  function ToUpperChar(c: Char): Char {
    if 'a' as nat <= c <= 'z' as nat then c - 'a' as nat + 'A' as nat else c
  }

  /** `ToUpper` applied to every character of a text. */
  function ToUpper(t: Text): (r: Text)
    ensures |r| == |t|
    ensures forall k :: 0 <= k < |t| ==> r[k] == ToUpperChar(t[k])
  {
    seq(|t|, k requires 0 <= k < |t| => ToUpperChar(t[k]))
  }

  /** Upper-casing a hex digit keeps its value and puts it in the alphabet. */
  lemma ToUpperDigit(c: Char)
    requires IsHexDigit(c)
    ensures IsUpperHexDigit(ToUpperChar(c)) && DigitValue(ToUpperChar(c)) == DigitValue(c)
  {
  }

  /** After upper-casing, a character is in the alphabet exactly when it was a
      hex digit of either case to begin with. */
  lemma ToUpperHexDigit(c: Char)
    ensures IsUpperHexDigit(ToUpperChar(c)) <==> IsHexDigit(c)
  {
  }

  /** The decrypt handler's alphabet check after `ToUpper` accepts a text
      exactly when every character is a hex digit of either case. */
  lemma ToUpperHexText(t: Text)
    ensures IsUpperHexText(ToUpper(t)) <==> IsHexText(t)
  {
    forall k | 0 <= k < |t| {
      ToUpperHexDigit(t[k]);
    }
  }

  /** Upper-casing leaves alphabet characters alone. */
  lemma ToUpperKeepsUpperHex(t: Text)
    requires IsUpperHexText(t)
    ensures ToUpper(t) == t
  {
    forall k | 0 <= k < |t|
      ensures ToUpper(t)[k] == t[k]
    {
    }
  }

  /** `b.ToString("x2").ToUpper()`: two digits, high nibble first. */
  function FormatByte(b: Byte): (r: Text)
    ensures |r| == 2
    ensures IsUpperHexDigit(r[0]) && IsUpperHexDigit(r[1])
  {
    ToUpperDigit(LowerDigit(b / 16));
    ToUpperDigit(LowerDigit(b % 16));
    ToUpper([LowerDigit(b / 16), LowerDigit(b % 16)])
  }

  /** Bytes written one after another as pairs of digits, as the encrypt
      handler's loop appends them. */
  function Format(bs: seq<Byte>): (r: Text)
    ensures |r| == 2 * |bs|
  {
    if bs == [] then [] else Format(bs[..|bs| - 1]) + FormatByte(bs[|bs| - 1])
  }

  /** `Convert.ToByte` on a two-digit string in base 16. */
  function ParsePair(hi: Char, lo: Char): (b: Byte)
    requires IsHexDigit(hi) && IsHexDigit(lo)
    ensures b / 16 == DigitValue(hi) && b % 16 == DigitValue(lo)
  {
    SplitByte(DigitValue(hi), DigitValue(lo));
    16 * DigitValue(hi) + DigitValue(lo)
  }

  /** Consecutive pairs of digits read as bytes, as `Decrypt`'s first loop
      reads them. */
  function Parse(t: Text): (bs: seq<Byte>)
    requires IsHexText(t) && |t| % 2 == 0
    ensures |bs| == |t| / 2
  {
    seq(|t| / 2, k requires 0 <= k < |t| / 2 => ParsePair(t[2 * k], t[2 * k + 1]))
  }

  /** Reading back the two digits of a byte gives the byte. */
  lemma ParseFormatByte(b: Byte)
    ensures IsHexDigit(FormatByte(b)[0]) && IsHexDigit(FormatByte(b)[1])
    ensures ParsePair(FormatByte(b)[0], FormatByte(b)[1]) == b
  {
    ToUpperDigit(LowerDigit(b / 16));
    ToUpperDigit(LowerDigit(b % 16));
  }

  /** Digits `2k` and `2k + 1` of the formatted text are those of byte `k`. */
  lemma {:induction false} FormatAt(bs: seq<Byte>, k: nat)
    requires k < |bs|
    ensures Format(bs)[2 * k] == FormatByte(bs[k])[0]
    ensures Format(bs)[2 * k + 1] == FormatByte(bs[k])[1]
    decreases |bs|
  {
    var init := bs[..|bs| - 1];
    assert Format(bs) == Format(init) + FormatByte(bs[|bs| - 1]);
    if k < |bs| - 1 {
      FormatAt(init, k);
      assert init[k] == bs[k];
    }
  }

  /** Formatted bytes are upper-case hex text. */
  lemma FormatIsUpperHex(bs: seq<Byte>)
    ensures IsUpperHexText(Format(bs))
  {
    forall i | 0 <= i < |Format(bs)|
      ensures IsUpperHexDigit(Format(bs)[i])
    {
      FormatAt(bs, i / 2);
    }
  }

  /** Formatted bytes are also hex text in the wider sense `Convert.ToByte`
      reads. */
  lemma FormatIsHex(bs: seq<Byte>)
    ensures IsHexText(Format(bs))
  {
    FormatIsUpperHex(bs);
    forall i | 0 <= i < |Format(bs)|
      ensures IsHexDigit(Format(bs)[i])
    {
    }
  }

  /** Reading formatted bytes back gives the bytes. */
  lemma ParseFormat(bs: seq<Byte>)
    ensures IsHexText(Format(bs)) && |Format(bs)| % 2 == 0
    ensures Parse(Format(bs)) == bs
  {
    FormatIsHex(bs);
    forall k | 0 <= k < |bs|
      ensures Parse(Format(bs))[k] == bs[k]
    {
      FormatAt(bs, k);
      ParseFormatByte(bs[k]);
    }
  }

  /** Writing the value of an alphabet digit gives back the digit. */
  lemma DigitRoundTrip(c: Char)
    requires IsUpperHexDigit(c)
    ensures IsHexDigit(c)
    ensures ToUpperChar(LowerDigit(DigitValue(c))) == c
  {
  }

  /** A byte written as high and low nibble splits back into them. */
  lemma SplitByte(h: nat, l: nat)
    requires h < 16 && l < 16
    ensures (16 * h + l) / 16 == h && (16 * h + l) % 16 == l
  {
  }

  /** Two alphabet digits are the formatting of the byte they are read as. */
  lemma FormatParsePair(hi: Char, lo: Char)
    requires IsUpperHexDigit(hi) && IsUpperHexDigit(lo)
    ensures IsHexDigit(hi) && IsHexDigit(lo)
    ensures FormatByte(ParsePair(hi, lo)) == [hi, lo]
  {
    DigitRoundTrip(hi);
    DigitRoundTrip(lo);
    var b := ParsePair(hi, lo);
    SplitByte(DigitValue(hi), DigitValue(lo));
    assert FormatByte(b) == [ToUpperChar(LowerDigit(b / 16)), ToUpperChar(LowerDigit(b % 16))];
  }

  /** Text in the handler's alphabet, of even length, is the formatting of
      the bytes it is read as. */
  lemma FormatParse(t: Text)
    requires IsUpperHexText(t) && |t| % 2 == 0
    ensures IsHexText(t)
    ensures Format(Parse(t)) == t
  {
    forall k | 0 <= k < |t|
      ensures IsHexDigit(t[k])
    {
    }
    var bs := Parse(t);
    forall k | 0 <= k < |bs|
      ensures Format(bs)[2 * k] == t[2 * k] && Format(bs)[2 * k + 1] == t[2 * k + 1]
    {
      FormatAt(bs, k);
      FormatParsePair(t[2 * k], t[2 * k + 1]);
    }
    forall i | 0 <= i < |t|
      ensures Format(bs)[i] == t[i]
    {
      var k := i / 2;
      assert i == 2 * k || i == 2 * k + 1;
    }
  }
}

/** Hexadecimal fields of the serial protocol, as the kernel writes and reads them. */
module HexCodec {
  import opened Word
  import opened Text

  function HexDigit(value: int): char
    requires 0 <= value < 16
  {
    if value < 10 then ('0' as int + value) as char else ('A' as int + (value - 10)) as char
  }

  function HexValue(c: char): (value: int)
    ensures -1 <= value < 16
  {
    if '0' <= c <= '9' then c as int - '0' as int
    else if 'A' <= c <= 'F' then 10 + (c as int - 'A' as int)
    else if 'a' <= c <= 'f' then 10 + (c as int - 'a' as int)
    else -1
  }

  lemma DigitValue(value: int)
    requires 0 <= value < 16
    ensures HexValue(HexDigit(value)) == value && HexDigit(value) != NUL && HexDigit(value) != '|'
    ensures HexDigit(value) != '\n' && HexDigit(value) != '\r' && HexDigit(value) as int < 128
  {
  }

  // One byte as two digits; a character is cut to its low eight bits.
  function HexByte(c: char): string {
    [HexDigit(c as int % 256 / 16), HexDigit(c as int % 16)]
  }

  function HexText(text: string): string {
    if text == [] then [] else HexByte(text[0]) + HexText(text[1..])
  }

  // The low `digits` hexadecimal digits of a value, most significant first.
  function HexNumber(value: nat, digits: nat): (s: string)
    ensures |s| == digits
  {
    if digits == 0 then [] else HexNumber(value / 16, digits - 1) + [HexDigit(value % 16)]
  }

  function NumberFrom(s: string): Option<nat> {
    if s == [] then Some(0)
    else
      var digit, high := HexValue(s[|s| - 1]), NumberFrom(s[..|s| - 1]);
      if digit < 0 || high == None then None else Some(high.value * 16 + digit)
  }

  function Decode(s: string): Option<string> {
    if s == [] then Some([])
    else if |s| == 1 then None
    else
      var high, low, rest := HexValue(s[0]), HexValue(s[1]), Decode(s[2..]);
      if high < 0 || low < 0 || rest == None then None
      else Some([(high * 16 + low) as char] + rest.value)
  }

  // Characters a hexadecimal field never holds.
  predicate Delimiter(c: char) {
    c == NUL || c == '|' || c == '\n' || c == '\r' || c as int >= 128
  }

  lemma {:induction false} HexTextPlain(text: string)
    ensures |HexText(text)| == 2 * |text|
    ensures forall i :: 0 <= i < |HexText(text)| ==> !Delimiter(HexText(text)[i])
  {
    if text != [] {
      HexTextPlain(text[1..]);
      DigitValue(text[0] as int % 256 / 16);
      DigitValue(text[0] as int % 16);
    }
  }

  /** Decoding undoes encoding on every byte string. */
  lemma {:induction false} DecodeEncode(text: string)
    requires IsBytes(text)
    ensures Decode(HexText(text)) == Some(text)
  {
    if text != [] {
      DecodeEncode(text[1..]);
      var c, hex := text[0] as int, HexText(text);
      DigitValue(c % 256 / 16);
      DigitValue(c % 16);
      assert c % 256 == c && c / 16 * 16 + c % 16 == c;
      assert hex == HexByte(text[0]) + HexText(text[1..]);
      assert hex[2..] == HexText(text[1..]);
      assert (c / 16 * 16 + c % 16) as char == text[0];
      assert [text[0]] + text[1..] == text;
    }
  }

  lemma {:induction false} NumberPlain(value: nat, digits: nat)
    ensures forall i :: 0 <= i < digits ==> !Delimiter(HexNumber(value, digits)[i])
  {
    if digits > 0 {
      NumberPlain(value / 16, digits - 1);
      DigitValue(value % 16);
    }
  }

  function Power16(n: nat): (p: nat)
    ensures p > 0
  {
    if n == 0 then 1 else 16 * Power16(n - 1)
  }

  /** Reading a number back gives the number, when the digits can hold it. */
  lemma {:induction false} NumberReads(value: nat, digits: nat)
    requires value < Power16(digits)
    ensures NumberFrom(HexNumber(value, digits)) == Some(value)
  {
    if digits > 0 {
      NumberReads(value / 16, digits - 1);
      DigitValue(value % 16);
      var s := HexNumber(value, digits);
      assert s[..|s| - 1] == HexNumber(value / 16, digits - 1);
    }
  }

  lemma WordFits(value: u32)
    ensures value < Power16(8) && (value < 256 ==> value < Power16(2))
  {
    assert Power16(2) == 256;
    assert Power16(4) == 65536;
    assert Power16(6) == 16777216;
    assert Power16(8) == 0x1_0000_0000;
  }

  lemma {:induction false} NumberBound(s: string)
    requires NumberFrom(s).Some?
    ensures NumberFrom(s).value < Power16(|s|)
  {
    if s != [] {
      NumberBound(s[..|s| - 1]);
    }
  }

  // ---------------------------------------------------------------- what is read at all

  predicate IsHex(s: string) {
    forall i :: 0 <= i < |s| ==> '0' <= s[i] <= '9' || 'a' <= s[i] <= 'f' || 'A' <= s[i] <= 'F'
  }

  /** A field is decoded exactly when it has an even number of characters and all are hexadecimal digits. */
  lemma {:induction false} DecodesExactly(s: string)
    ensures Decode(s).Some? <==> |s| % 2 == 0 && IsHex(s)
    ensures Decode(s).Some? ==> |Decode(s).value| == |s| / 2
  {
    if |s| >= 2 {
      DecodesExactly(s[2..]);
      HexBehind(s, 2);
    }
  }

  lemma HexBehind(s: string, n: nat)
    requires n <= |s|
    ensures IsHex(s) <==> IsHex(s[..n]) && IsHex(s[n..])
  {
    assert s == s[..n] + s[n..];
  }

  /** A number is read exactly when all its characters are hexadecimal digits. */
  lemma {:induction false} NumberReadExactly(s: string)
    ensures NumberFrom(s).Some? <==> IsHex(s)
  {
    if s != [] {
      NumberReadExactly(s[..|s| - 1]);
      HexBehind(s, |s| - 1);
    }
  }

  function LowerCase(s: string): string {
    seq(|s|, i requires 0 <= i < |s| => if 'A' <= s[i] <= 'Z' then (s[i] as int + 32) as char else s[i])
  }

  /** The digits are read alike in either case. */
  lemma {:induction false} AnyCase(s: string)
    ensures Decode(LowerCase(s)) == Decode(s)
  {
    if |s| >= 2 {
      assert LowerCase(s)[2..] == LowerCase(s[2..]);
      AnyCase(s[2..]);
    }
  }

  lemma {:induction false} NumberAnyCase(s: string)
    ensures NumberFrom(LowerCase(s)) == NumberFrom(s)
  {
    if s != [] {
      assert LowerCase(s)[..|s| - 1] == LowerCase(s[..|s| - 1]);
      NumberAnyCase(s[..|s| - 1]);
    }
  }
}

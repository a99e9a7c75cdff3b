/** `url_decode` of the HTTP emulator, with a percent-encoder as its inverse. */
module UrlCodec {

  /** `isxdigit` in the C locale. */
  predicate IsHexDigit(c: char) {
    ('0' <= c <= '9') || ('a' <= c <= 'f') || ('A' <= c <= 'F')
  }

  function HexValue(c: char): (r: nat)
    requires IsHexDigit(c)
    ensures r < 16
  {
    if '0' <= c <= '9' then c as int - '0' as int
    else if 'a' <= c <= 'f' then c as int - 'a' as int + 10
    else c as int - 'A' as int + 10
  }

  /** `url_decode`: `%XX` with two hex digits becomes the character with that code, `+` becomes a
      space, and every other character (a `%` without two hex digits after it included) is
      copied as it is. */
  function UrlDecode(s: string): (r: string)
    ensures |r| <= |s|
    decreases |s|
  {
    if |s| == 0 then ""
    else if s[0] == '%' && |s| >= 3 && IsHexDigit(s[1]) && IsHexDigit(s[2]) then
      [(HexValue(s[1]) * 16 + HexValue(s[2])) as char] + UrlDecode(s[3..])
    else if s[0] == '+' then [' '] + UrlDecode(s[1..])
    else [s[0]] + UrlDecode(s[1..])
  }

  /** Text with no `%` and no `+` decodes to itself. */
  lemma {:induction false} DecodePlain(s: string)
    requires '%' !in s && '+' !in s
    ensures UrlDecode(s) == s
  {
    if |s| > 0 {
      assert '%' !in s[1..] && '+' !in s[1..];
      DecodePlain(s[1..]);
    }
  }

  /** A character that starts no escape is copied. */
  lemma DecodeLiteral(c: char, rest: string)
    requires c != '%' && c != '+'
    ensures UrlDecode([c] + rest) == [c] + UrlDecode(rest)
  {
    assert ([c] + rest)[1..] == rest;
  }

  /** `+` becomes a space. */
  lemma DecodePlus(rest: string)
    ensures UrlDecode(['+'] + rest) == [' '] + UrlDecode(rest)
  {
    assert (['+'] + rest)[1..] == rest;
  }

  /** `%` and two hex digits become the character they spell. */
  lemma DecodeEscape(a: char, b: char, rest: string)
    requires IsHexDigit(a) && IsHexDigit(b)
    ensures UrlDecode(['%', a, b] + rest) == [(HexValue(a) * 16 + HexValue(b)) as char] + UrlDecode(rest)
  {
    assert (['%', a, b] + rest)[3..] == rest;
  }

  /** `+de%XY`: the plus becomes a space and the escape one character. */
  lemma DecodeTail(d: char, e: char, x: char, y: char)
    requires d != '%' && d != '+' && e != '%' && e != '+'
    requires IsHexDigit(x) && IsHexDigit(y)
    ensures UrlDecode(['+', d, e, '%', x, y]) == [' ', d, e, (HexValue(x) * 16 + HexValue(y)) as char]
  {
    var ch := (HexValue(x) * 16 + HexValue(y)) as char;
    var r0 := ['%', x, y];
    DecodeEscape(x, y, []);
    assert r0 + [] == r0;
    assert UrlDecode(r0) == [ch];
    var r1 := [e] + r0;
    DecodeLiteral(e, r0);
    var r2 := [d] + r1;
    DecodeLiteral(d, r1);
    DecodePlus(r2);
    assert ['+'] + r2 == ['+', d, e, '%', x, y];
    assert [' '] + ([d] + ([e] + [ch])) == [' ', d, e, ch];
  }

  /** A form value of the shape `abc+de%XY`. */
  lemma DecodeShape(a: char, b: char, c: char, d: char, e: char, x: char, y: char)
    requires a != '%' && a != '+' && b != '%' && b != '+' && c != '%' && c != '+'
    requires d != '%' && d != '+' && e != '%' && e != '+'
    requires IsHexDigit(x) && IsHexDigit(y)
    ensures UrlDecode([a, b, c, '+', d, e, '%', x, y])
            == [a, b, c, ' ', d, e, (HexValue(x) * 16 + HexValue(y)) as char]
  {
    var ch := (HexValue(x) * 16 + HexValue(y)) as char;
    var r3 := ['+', d, e, '%', x, y];
    DecodeTail(d, e, x, y);
    var r4 := [c] + r3;
    DecodeLiteral(c, r3);
    var r5 := [b] + r4;
    DecodeLiteral(b, r4);
    DecodeLiteral(a, r5);
    assert [a] + r5 == [a, b, c, '+', d, e, '%', x, y];
    assert [a] + ([b] + ([c] + [' ', d, e, ch])) == [a, b, c, ' ', d, e, ch];
  }

  /** The canonical example: `sup+er%40` decodes to `sup er@`. */
  lemma DecodeExample(v: string)
    requires v == "sup+er%40"
    ensures UrlDecode(v) == "sup er@"
  {
    DecodeShape('s', 'u', 'p', 'e', 'r', '4', '0');
    assert HexValue('4') * 16 + HexValue('0') == 64;
  }

  // ----- An encoder the decoder inverts -----

  predicate IsAlnum(c: char) {
    ('0' <= c <= '9') || ('a' <= c <= 'z') || ('A' <= c <= 'Z')
  }

  function HexDigit(d: nat): (c: char)
    requires d < 16
    ensures IsHexDigit(c) && HexValue(c) == d
  {
    if d < 10 then ('0' as int + d) as char else ('A' as int + d - 10) as char
  }

  /** Form encoding of one byte-sized character: space as `+`, letters and digits as they are,
      anything else as `%XX`. */
  function EncodeChar(c: char): string
    requires c as int < 256
  {
    if c == ' ' then "+"
    else if IsAlnum(c) then [c]
    else ['%', HexDigit(c as int / 16), HexDigit(c as int % 16)]
  }

  function UrlEncode(s: string): string
    requires forall i :: 0 <= i < |s| ==> s[i] as int < 256
  {
    if |s| == 0 then "" else EncodeChar(s[0]) + UrlEncode(s[1..])
  }

  lemma DecodeChunk(c: char, rest: string)
    requires c as int < 256
    ensures UrlDecode(EncodeChar(c) + rest) == [c] + UrlDecode(rest)
  {
    var e := EncodeChar(c) + rest;
    if c == ' ' {
      assert e == ['+'] + rest;
    } else if IsAlnum(c) {
      assert e == [c] + rest;
      assert e[1..] == rest;
    } else {
      assert e[3..] == rest;
      assert HexValue(e[1]) * 16 + HexValue(e[2]) == c as int;
    }
  }

  /** Decoding undoes form encoding for every byte string. */
  lemma {:induction false} DecodeEncode(s: string)
    requires forall i :: 0 <= i < |s| ==> s[i] as int < 256
    ensures UrlDecode(UrlEncode(s)) == s
  {
    if |s| > 0 {
      DecodeChunk(s[0], UrlEncode(s[1..]));
      DecodeEncode(s[1..]);
      assert [s[0]] + s[1..] == s;
    }
  }
}

/** PHP's `urlencode` and `urldecode` over byte strings (every `char` below
    256 stands for one byte). `urlencode` keeps ASCII letters, digits and
    `-_.`, turns a space into `+` and every other byte into `%XY` with
    upper-case hex digits; `urldecode` turns `+` into a space and `%XY` with two
    hex digits (either case) into the byte, leaving everything else alone. */
module UrlCodec {

  predicate IsAlnum(c: char) {
    'a' <= c <= 'z' || 'A' <= c <= 'Z' || '0' <= c <= '9'
  }

  /** The characters `urlencode` copies unchanged. */
  predicate IsUnreserved(c: char) {
    IsAlnum(c) || c == '-' || c == '_' || c == '.'
  }

  predicate IsHex(c: char) {
    '0' <= c <= '9' || 'a' <= c <= 'f' || 'A' <= c <= 'F'
  }

  /** The upper-case hex digit for `n`. */
  function HexDigit(n: nat): (c: char)
    requires n < 16
    ensures IsHex(c) && HexValue(c) == n
  {
    if n < 10 then ('0' as int + n) as char else ('A' as int + n - 10) as char
  }

  function HexValue(c: char): (v: nat)
    requires IsHex(c)
    ensures v < 16
  {
    if '0' <= c <= '9' then c as int - '0' as int
    else if 'a' <= c <= 'f' then c as int - 'a' as int + 10
    else c as int - 'A' as int + 10
  }

  /** What `urlencode` writes for one character. Code points above 255 are
      not bytes; they are copied unchanged. */
  function EncodeChar(c: char): string
  {
    if IsUnreserved(c) then [c]
    else if c == ' ' then "+"
    else if c as int < 256 then ['%', HexDigit(c as int / 16), HexDigit(c as int % 16)]
    else [c]
  }

  /** Characters that can appear in `urlencode` output. */
  predicate IsEncodedChar(c: char) {
    IsUnreserved(c) || c == '%' || c == '+' || c as int >= 256
  }

  /** PHP `urlencode`. */
  function UrlEncode(s: string): (r: string)
    ensures forall k :: 0 <= k < |r| ==> IsEncodedChar(r[k])
    ensures (forall k :: 0 <= k < |s| ==> IsUnreserved(s[k])) ==> r == s
  {
    if |s| == 0 then ""
    else EncodeChar(s[0]) + UrlEncode(s[1..])
  }

  /** PHP `urldecode`. */
  function UrlDecode(s: string): (r: string)
    ensures |r| <= |s|
    decreases |s|
  {
    if |s| == 0 then ""
    else if s[0] == '+' then " " + UrlDecode(s[1..])
    else if s[0] == '%' && |s| >= 3 && IsHex(s[1]) && IsHex(s[2]) then
      [(HexValue(s[1]) * 16 + HexValue(s[2])) as char] + UrlDecode(s[3..])
    else [s[0]] + UrlDecode(s[1..])
  }

  /** A character other than `+` and `%` decodes to itself. */
  lemma DecodeLiteral(c: char, rest: string)
    requires c != '+' && c != '%'
    ensures UrlDecode([c] + rest) == [c] + UrlDecode(rest)
  {
    assert ([c] + rest)[1..] == rest;
  }

  lemma DecodeEncodeChar(c: char, rest: string)
    ensures UrlDecode(EncodeChar(c) + rest) == [c] + UrlDecode(rest)
  {
    var e := EncodeChar(c);
    if IsUnreserved(c) || c as int >= 256 {
      DecodeLiteral(c, rest);
    } else if c == ' ' {
      assert (e + rest)[1..] == rest;
    } else {
      var n := c as int;
      assert (e + rest)[3..] == rest;
      assert HexValue(e[1]) * 16 + HexValue(e[2]) == n;
    }
  }

  /** Decoding an encoded text followed by anything gives the text back,
      followed by the decoding of the rest. */
  lemma {:induction false} DecodeEncodedPrefix(s: string, rest: string)
    ensures UrlDecode(UrlEncode(s) + rest) == s + UrlDecode(rest)
    decreases |s|
  {
    if |s| > 0 {
      var tail := UrlEncode(s[1..]) + rest;
      calc {
        UrlDecode(UrlEncode(s) + rest);
        { EncodeCons(s, rest); }
        UrlDecode(EncodeChar(s[0]) + tail);
        { DecodeEncodeChar(s[0], tail); }
        [s[0]] + UrlDecode(tail);
        { DecodeEncodedPrefix(s[1..], rest); }
        [s[0]] + (s[1..] + UrlDecode(rest));
        { ConsJoin(s, UrlDecode(rest)); }
        s + UrlDecode(rest);
      }
    } else {
      assert UrlEncode(s) + rest == rest;
    }
  }

  lemma ConsJoin(s: string, t: string)
    requires |s| > 0
    ensures [s[0]] + (s[1..] + t) == s + t
  {
    assert s == [s[0]] + s[1..];
  }

  lemma EncodeCons(s: string, rest: string)
    requires |s| > 0
    ensures UrlEncode(s) + rest == EncodeChar(s[0]) + (UrlEncode(s[1..]) + rest)
  {
  }

  /** `urldecode` inverts `urlencode`. */
  lemma DecodeEncode(s: string)
    ensures UrlDecode(UrlEncode(s)) == s
  {
    DecodeEncodedPrefix(s, "");
    assert UrlEncode(s) + "" == UrlEncode(s);
  }
}

/**
 * Percent-decoding of URL text (section 2.1 of RFC 3986), as `urllib.parse.unquote`
 * performs it, restricted to escapes of ASCII characters.
 */
module Percent {

  predicate IsHexDigit(c: char) {
    ('0' <= c <= '9') || ('a' <= c <= 'f') || ('A' <= c <= 'F')
  }

  function HexValue(c: char): (v: nat)
    requires IsHexDigit(c)
    ensures v < 16
  {
    if '0' <= c <= '9' then c as int - '0' as int
    else if 'a' <= c <= 'f' then c as int - 'a' as int + 10
    else c as int - 'A' as int + 10
  }

  /** The upper-case digit for a value below 16, the spelling RFC 3986 recommends. */
  function HexDigit(v: nat): (c: char)
    requires v < 16
    ensures IsHexDigit(c) && HexValue(c) == v
  {
    if v < 10 then ('0' as int + v) as char else ('A' as int + v - 10) as char
  }

  /** `%XX` with two hex digits denoting an ASCII code starts `s`. */
  predicate StartsWithEscape(s: string) {
    |s| >= 3 && s[0] == '%' && IsHexDigit(s[1]) && IsHexDigit(s[2]) &&
    HexValue(s[1]) * 16 + HexValue(s[2]) < 128
  }

  /**
   * Every `%XX` escape of an ASCII code is replaced by that character, left to
   * right; a `%` not followed by such an escape is kept as it is.
   */
  function Unquote(s: string): (r: string)
    ensures |r| <= |s|
    decreases |s|
  {
    if s == [] then []
    else
      var escape := StartsWithEscape(s);
      var c := if escape then (HexValue(s[1]) * 16 + HexValue(s[2])) as char else s[0];
      [c] + Unquote(s[if escape then 3 else 1..])
  }

  /** Text with no `%` in it decodes to itself. */
  lemma {:induction false} UnquoteWithoutPercent(s: string)
    requires '%' !in s
    ensures Unquote(s) == s
    decreases |s|
  {
    if s != [] {
      assert s[0] != '%';
      assert '%' !in s[1..] by {
        assert forall k :: 0 <= k < |s[1..]| ==> s[1..][k] == s[k + 1];
      }
      UnquoteWithoutPercent(s[1..]);
      assert s == [s[0]] + s[1..];
    }
  }

  /** A decoded value starts with the first character of the text, unless that text starts with an escape. */
  lemma UnquoteHead(s: string)
    requires s != []
    ensures Unquote(s) != [] && (Unquote(s)[0] == s[0] || s[0] == '%')
  {
  }

  predicate IsAscii(s: string) {
    forall k :: 0 <= k < |s| ==> s[k] as int < 128
  }

  /** Escapes every character of an ASCII string as `%XX`. */
  function PercentEncode(s: string): (r: string)
    requires IsAscii(s)
    ensures |r| == 3 * |s|
    decreases |s|
  {
    if s == [] then []
    else
      var c := s[0] as int;
      ['%', HexDigit(c / 16), HexDigit(c % 16)] + PercentEncode(s[1..])
  }

  /** Decoding undoes encoding. */
  lemma {:induction false} UnquotePercentEncode(s: string)
    requires IsAscii(s)
    ensures Unquote(PercentEncode(s)) == s
    decreases |s|
  {
    if s != [] {
      var e := PercentEncode(s);
      var c := s[0] as int;
      assert e[3..] == PercentEncode(s[1..]);
      assert StartsWithEscape(e);
      assert (HexValue(e[1]) * 16 + HexValue(e[2])) as char == s[0];
      UnquotePercentEncode(s[1..]);
      assert s == [s[0]] + s[1..];
    }
  }
}

/** `urllib.parse.unquote_plus`: every `+` becomes a space, then every `%HH`
    (two hexadecimal digits, either case) becomes the character with that code,
    and a `%` not followed by two hexadecimal digits stays as it is. This is the
    percent-decoding of section 2.1 of RFC 3986 plus the `+` rule of the
    application/x-www-form-urlencoded format (section 5.1 of the WHATWG URL
    Standard). `%HH` yields the single character with code HH; reassembling
    multi-byte UTF-8 sequences is not modelled.

    Its partner is FormEncode, the way a browser's form submission encodes an
    ASCII field: decoding an encoded field gives the field back. */
module Unquote {

  predicate IsHexDigit(c: char) {
    '0' <= c <= '9' || 'a' <= c <= 'f' || 'A' <= c <= 'F'
  }

  function HexValue(c: char): (v: nat)
    requires IsHexDigit(c)
    ensures v < 16
  {
    if '0' <= c <= '9' then c as int - '0' as int
    else if 'a' <= c <= 'f' then c as int - 'a' as int + 10
    else c as int - 'A' as int + 10
  }

  /** The upper-case digit a form encoder writes; HexValue reads it back. */
  function HexDigit(v: nat): (c: char)
    requires v < 16
    ensures IsHexDigit(c) && HexValue(c) == v
  {
    if v < 10 then ('0' as int + v) as char else ('A' as int + v - 10) as char
  }

  /** The first step of unquote_plus: `string.replace('+', ' ')`. */
  function PlusToSpace(s: string): string {
    seq(|s|, i requires 0 <= i < |s| => if s[i] == '+' then ' ' else s[i])
  }

  /** `unquote`: one left-to-right pass; a well-formed escape is replaced by its
      character, anything else is copied. The result is never longer, and text
      without `%` is left alone. */
  function PercentDecode(s: string): (r: string)
    ensures |r| <= |s|
    ensures '%' !in s ==> r == s
    decreases |s|
  {
    if s == [] then []
    else if |s| >= 3 && s[0] == '%' && IsHexDigit(s[1]) && IsHexDigit(s[2]) then
      [(16 * HexValue(s[1]) + HexValue(s[2])) as char] + PercentDecode(s[3..])
    else
      assert s == [s[0]] + s[1..];
      [s[0]] + PercentDecode(s[1..])
  }

  /** `unquote_plus`: plus rule first, then percent-decoding, so an escaped
      `%2B` survives as a literal `+`. */
  function UnquotePlus(s: string): (r: string)
    ensures |r| <= |s|
    ensures '%' !in s ==> r == PlusToSpace(s)
  {
    var t := PlusToSpace(s);
    assert '%' !in s ==> '%' !in t by {
      if '%' in t {
        var i :| 0 <= i < |t| && t[i] == '%';
        assert s[i] == '%';
      }
    }
    PercentDecode(t)
  }

  /** A well-formed escape at position i: `%` and two hexadecimal digits of
      either case. */
  predicate IsEscapeAt(s: string, i: int) {
    0 <= i && i + 2 < |s| && s[i] == '%' && IsHexDigit(s[i + 1]) && IsHexDigit(s[i + 2])
  }

  predicate NoEscape(s: string) {
    forall i :: 0 <= i < |s| ==> !IsEscapeAt(s, i)
  }

  /** An escape, upper- or lower-case, becomes the one character with its
      code, and decoding goes on after it. */
  lemma PercentDecodeEscape(a: char, b: char, t: string)
    requires IsHexDigit(a) && IsHexDigit(b)
    ensures PercentDecode(['%', a, b] + t) == [(16 * HexValue(a) + HexValue(b)) as char] + PercentDecode(t)
  {
    assert (['%', a, b] + t)[3..] == t;
  }

  /** A `%` that does not start a well-formed escape is kept as it is: text
      without escapes is its own percent-decoding. */
  lemma {:induction false} PercentDecodeNoEscape(s: string)
    requires NoEscape(s)
    ensures PercentDecode(s) == s
    decreases |s|
  {
    if s != [] {
      assert !IsEscapeAt(s, 0);
      assert NoEscape(s[1..]) by {
        forall i | 0 <= i < |s[1..]| ensures !IsEscapeAt(s[1..], i) {
          assert !IsEscapeAt(s, i + 1);
        }
      }
      PercentDecodeNoEscape(s[1..]);
      assert s == [s[0]] + s[1..];
    }
  }

  /** The same two facts after the plus rule: an escape at the front of the
      payload decodes to its character ... */
  lemma UnquotePlusEscape(a: char, b: char, t: string)
    requires IsHexDigit(a) && IsHexDigit(b)
    ensures UnquotePlus(['%', a, b] + t) == [(16 * HexValue(a) + HexValue(b)) as char] + UnquotePlus(t)
  {
    PlusToSpaceConcat(['%', a, b], t);
    assert PlusToSpace(['%', a, b]) == ['%', a, b];
    PercentDecodeEscape(a, b, PlusToSpace(t));
  }

  /** ... and a payload without escapes only has its `+` turned into spaces,
      every malformed `%` staying. */
  lemma UnquotePlusNoEscape(s: string)
    requires NoEscape(s)
    ensures UnquotePlus(s) == PlusToSpace(s)
  {
    var t := PlusToSpace(s);
    forall i | 0 <= i < |t| ensures !IsEscapeAt(t, i) {
      assert !IsEscapeAt(s, i);
    }
    PercentDecodeNoEscape(t);
  }

  /** Text without `%` and `+` is its own decoding. */
  lemma UnquotePlusPlain(s: string)
    requires '%' !in s && '+' !in s
    ensures UnquotePlus(s) == s
  {
    assert PlusToSpace(s) == s;
  }

  predicate IsAscii(s: string) {
    forall i :: 0 <= i < |s| ==> s[i] as int < 128
  }

  /** Characters the form encoder leaves as they are. */
  predicate KeptByForm(c: char) {
    'a' <= c <= 'z' || 'A' <= c <= 'Z' || '0' <= c <= '9' || c == '*' || c == '-' || c == '.' || c == '_'
  }

  function EncodeChar(c: char): string
    requires c as int < 128
  {
    if c == ' ' then "+"
    else if KeptByForm(c) then [c]
    else ['%', HexDigit(c as int / 16), HexDigit(c as int % 16)]
  }

  /** How a browser encodes an ASCII form field. The separators `&` and `=`
      never appear in the encoding. */
  function FormEncode(s: string): (r: string)
    requires IsAscii(s)
    ensures '&' !in r && '=' !in r
    decreases |s|
  {
    if s == [] then [] else EncodeChar(s[0]) + FormEncode(s[1..])
  }

  lemma PlusToSpaceConcat(a: string, b: string)
    ensures PlusToSpace(a + b) == PlusToSpace(a) + PlusToSpace(b)
  {
  }

  /** A character other than `%` and `+` decodes to itself and does not
      interact with what follows. */
  lemma UnquotePlusLiteral(c: char, t: string)
    requires c != '%' && c != '+'
    ensures UnquotePlus([c] + t) == [c] + UnquotePlus(t)
  {
    PlusToSpaceConcat([c], t);
    var u := PlusToSpace([c]) + PlusToSpace(t);
    assert u[1..] == PlusToSpace(t);
  }

  lemma UnquotePlusEncodedChar(c: char, t: string)
    requires c as int < 128
    ensures UnquotePlus(EncodeChar(c) + t) == [c] + UnquotePlus(t)
  {
    var e := EncodeChar(c);
    PlusToSpaceConcat(e, t);
    var u := PlusToSpace(e) + PlusToSpace(t);
    if c == ' ' {
      assert PlusToSpace(e) == " ";
      assert u[1..] == PlusToSpace(t);
    } else if KeptByForm(c) {
      assert PlusToSpace(e) == [c];
      assert u[1..] == PlusToSpace(t);
    } else {
      var hi, lo := HexDigit(c as int / 16), HexDigit(c as int % 16);
      assert PlusToSpace(e) == e;
      assert u[3..] == PlusToSpace(t);
      assert u[0] == '%' && u[1] == hi && u[2] == lo;
      assert 16 * HexValue(hi) + HexValue(lo) == c as int;
    }
  }

  lemma ConsConcat(a: string, x: string)
    requires a != []
    ensures [a[0]] + (a[1..] + x) == a + x
  {
    assert a == [a[0]] + a[1..];
  }

  /** Decoding consumes an encoded field exactly, whatever follows it. */
  lemma {:induction false} UnquotePlusEncodedPrefix(a: string, b: string)
    requires IsAscii(a)
    ensures UnquotePlus(FormEncode(a) + b) == a + UnquotePlus(b)
    decreases |a|
  {
    if a == [] {
      assert FormEncode(a) + b == b;
      assert a + UnquotePlus(b) == UnquotePlus(b);
    } else {
      var e, rest := EncodeChar(a[0]), FormEncode(a[1..]);
      assert FormEncode(a) == e + rest;
      assert FormEncode(a) + b == e + (rest + b);
      UnquotePlusEncodedChar(a[0], rest + b);
      UnquotePlusEncodedPrefix(a[1..], b);
      ConsConcat(a, UnquotePlus(b));
    }
  }

  /** The round trip: unquote_plus undoes a browser's form encoding. */
  lemma UnquotePlusFormEncode(s: string)
    requires IsAscii(s)
    ensures UnquotePlus(FormEncode(s)) == s
  {
    UnquotePlusEncodedPrefix(s, []);
    assert FormEncode(s) + [] == FormEncode(s);
  }
}

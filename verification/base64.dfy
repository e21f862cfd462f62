/** Base64 as the token parser meets it: the "base64url" alphabet of
    section 5 of RFC 4648 in which token sections are written (unpadded,
    as section 2 of RFC 7515 prescribes), its translation to the RFC 4648 section 4
    alphabet, and `atob`, which runs the "forgiving-base64 decode" of the
    WHATWG Infra standard. */
module Base64 {
  import opened Wrappers
  import opened Bytes

  /** A six-bit group: the value one base64 character carries. */
  type Sextet = v: int | 0 <= v < 64

  /** The character for `v` in the RFC 4648 section 4 ("base64") alphabet. */
  function StdChar(v: Sextet): char
  {
    if v < 26 then ('A' as int + v) as char
    else if v < 52 then ('a' as int + v - 26) as char
    else if v < 62 then ('0' as int + v - 52) as char
    else if v == 62 then '+'
    else '/'
  }

  /** The character for `v` in the RFC 4648 section 5 ("base64url") alphabet. */
  function UrlChar(v: Sextet): char
  {
    if v == 62 then '-' else if v == 63 then '_' else StdChar(v)
  }

  predicate IsStdChar(c: char)
  {
    ('A' <= c <= 'Z') || ('a' <= c <= 'z') || ('0' <= c <= '9') || c == '+' || c == '/'
  }

  /** The value of an RFC 4648 section 4 character: the inverse of `StdChar`. */
  function StdValue(c: char): (v: Sextet)
    requires IsStdChar(c)
    ensures StdChar(v) == c
  {
    if 'A' <= c <= 'Z' then c as int - 'A' as int
    else if 'a' <= c <= 'z' then c as int - 'a' as int + 26
    else if '0' <= c <= '9' then c as int - '0' as int + 52
    else if c == '+' then 62
    else 63
  }

  lemma StdValueOfStdChar(v: Sextet)
    ensures IsStdChar(StdChar(v)) && StdValue(StdChar(v)) == v
  {
  }

  /** The one-character step of `replace(/-/g, "+").replace(/_/g, "/")`. */
  function ToStandardChar(c: char): char
  {
    if c == '-' then '+' else if c == '_' then '/' else c
  }

  /** `base64Url.replace(/-/g, "+").replace(/_/g, "/")`: the same length,
      every `-` now `+`, every `_` now `/`, every other character kept, and
      no `-` or `_` left. */
  function UrlToStandard(s: string): (r: string)
    ensures |r| == |s|
    ensures forall i :: 0 <= i < |s| && s[i] == '-' ==> r[i] == '+'
    ensures forall i :: 0 <= i < |s| && s[i] == '_' ==> r[i] == '/'
    ensures forall i :: 0 <= i < |s| && s[i] != '-' && s[i] != '_' ==> r[i] == s[i]
    ensures '-' !in r && '_' !in r
  {
    if |s| == 0 then []
    else [ToStandardChar(s[0])] + UrlToStandard(s[1..])
  }

  /** Split into sextets, three bytes to four sextets; a final one or two
      bytes give two or three sextets with zero fill bits, and no padding. */
  function Sextets(b: seq<byte>): (r: seq<Sextet>)
    ensures |r| % 4 != 1
    ensures |r| == (|b| * 4 + 2) / 3
  {
    if |b| == 0 then []
    else if |b| == 1 then [b[0] / 4, (b[0] % 4) * 16]
    else if |b| == 2 then [b[0] / 4, (b[0] % 4) * 16 + b[1] / 16, (b[1] % 16) * 4]
    else
      [b[0] / 4, (b[0] % 4) * 16 + b[1] / 16, (b[1] % 16) * 4 + b[2] / 64, b[2] % 64]
      + Sextets(b[3..])
  }

  /** Unpadded base64url text of `b`, as a token section carries it. */
  function UrlEncode(b: seq<byte>): string
  {
    var v := Sextets(b);
    seq(|v|, i requires 0 <= i < |v| => UrlChar(v[i]))
  }

  /** Step 5 onwards of forgiving-base64 decode: every four sextets give
      three bytes; two or three trailing sextets give one or two bytes and
      their left-over bits are dropped. */
  function DecodeValues(v: seq<Sextet>): (r: seq<byte>)
    requires |v| % 4 != 1
    ensures |r| == |v| * 3 / 4
  {
    if |v| == 0 then []
    else
      var a, b := v[0] as int, v[1] as int;
      if |v| == 2 then [a * 4 + b / 16]
      else
        var c := v[2] as int;
        if |v| == 3 then [a * 4 + b / 16, (b % 16) * 16 + c / 4]
        else [a * 4 + b / 16, (b % 16) * 16 + c / 4, (c % 4) * 64 + v[3]] + DecodeValues(v[4..])
  }

  /** ASCII whitespace as the WHATWG Infra standard defines it. */
  predicate IsAsciiWhitespace(c: char)
  {
    c == '\t' || c == '\n' || c as int == 0x0C || c == '\r' || c == ' '
  }

  /** Step 1 of forgiving-base64 decode: every ASCII whitespace character
      is dropped and every other character kept, in order. With
      `RemoveAppend` the one-character case fixes the result for every
      text. */
  function RemoveAsciiWhitespace(s: string): (r: string)
    ensures |r| <= |s|
    ensures forall i :: 0 <= i < |r| ==> !IsAsciiWhitespace(r[i])
    ensures |s| == 1 ==> r == (if IsAsciiWhitespace(s[0]) then [] else s)
  {
    if |s| == 0 then []
    else if IsAsciiWhitespace(s[0]) then RemoveAsciiWhitespace(s[1..])
    else [s[0]] + RemoveAsciiWhitespace(s[1..])
  }

  /** Removing whitespace works piece by piece. */
  lemma {:induction false} RemoveAppend(a: string, b: string)
    ensures RemoveAsciiWhitespace(a + b) == RemoveAsciiWhitespace(a) + RemoveAsciiWhitespace(b)
  {
    if |a| == 0 {
      assert a + b == b;
    } else {
      assert (a + b)[0] == a[0];
      assert (a + b)[1..] == a[1..] + b;
      RemoveAppend(a[1..], b);
    }
  }

  /** Step 2 of forgiving-base64 decode: when the length is a multiple of
      four, one or two trailing `=` are removed. */
  function StripPadding(d: string): (r: string)
    ensures r == d || (|d| % 4 == 0 && d == r + "=") || (|d| % 4 == 0 && d == r + "==")
  {
    if |d| % 4 == 0 && |d| >= 2 && d[|d| - 2..] == "==" then d[..|d| - 2]
    else if |d| % 4 == 0 && |d| >= 1 && d[|d| - 1] == '=' then d[..|d| - 1]
    else d
  }

  /** The text forgiving-base64 decode goes on to read. */
  function Cleaned(s: string): string
  {
    StripPadding(RemoveAsciiWhitespace(s))
  }

  /** `atob(s)`, with its binary string read as the bytes it spells:
      `None` (an "InvalidCharacterError") when the cleaned text leaves a
      remainder of one modulo four or holds a character outside the
      RFC 4648 section 4 alphabet; otherwise three bytes per four characters. */
  function Atob(s: string): (r: Option<seq<byte>>)
    ensures r.None? <==> |Cleaned(s)| % 4 == 1
                         || exists i :: 0 <= i < |Cleaned(s)| && !IsStdChar(Cleaned(s)[i])
    ensures r.Some? ==> |r.value| == |Cleaned(s)| * 3 / 4
  {
    var d := Cleaned(s);
    if |d| % 4 == 1 || exists i :: 0 <= i < |d| && !IsStdChar(d[i]) then None
    else Some(DecodeValues(seq(|d|, i requires 0 <= i < |d| => StdValue(d[i]))))
  }

  /** Decoding the sextets of `b` gives `b` back. */
  lemma {:induction false} DecodeSextets(b: seq<byte>)
    ensures DecodeValues(Sextets(b)) == b
  {
    if |b| >= 3 {
      DecodeSextets(b[3..]);
      DecodeSextetsStep(b);
    } else if |b| == 2 {
      Group(b[0], b[1], 0);
    } else if |b| == 1 {
      Group(b[0], 0, 0);
    }
  }

  /** The first three bytes come back from the first four sextets. */
  lemma DecodeSextetsStep(b: seq<byte>)
    requires |b| >= 3 && DecodeValues(Sextets(b[3..])) == b[3..]
    ensures DecodeValues(Sextets(b)) == b
  {
    var v := Sextets(b);
    SextetsStep(b);
    var rest := v[4..];
    DecodeGroupOf(v, b[0], b[1], b[2]);
    assert DecodeValues(v) == [b[0], b[1], b[2]] + DecodeValues(rest);
    assert DecodeValues(rest) == b[3..];
    ConsThree(b);
  }

  lemma ConsThree(b: seq<byte>)
    requires |b| >= 3
    ensures [b[0], b[1], b[2]] + b[3..] == b
  {
  }

  lemma SextetsStep(b: seq<byte>)
    requires |b| >= 3
    ensures var v, x, y, z := Sextets(b), b[0] as int, b[1] as int, b[2] as int;
            && |v| >= 4 && v[4..] == Sextets(b[3..])
            && v[0] as int == x / 4 && v[1] as int == (x % 4) * 16 + y / 16
            && v[2] as int == (y % 16) * 4 + z / 64 && v[3] as int == z % 64
  {
    var v := Sextets(b);
    assert v[4..] == Sextets(b[3..]);
  }

  /** Four leading sextets cut from three bytes decode back to those
      bytes, ahead of whatever the rest decodes to. */
  lemma DecodeGroupOf(v: seq<Sextet>, x: byte, y: byte, z: byte)
    requires |v| >= 4 && |v| % 4 != 1
    requires v[0] as int == x / 4 && v[1] as int == (x % 4) * 16 + y / 16
    requires v[2] as int == (y % 16) * 4 + z / 64 && v[3] as int == z % 64
    ensures DecodeValues(v) == [x, y, z] + DecodeValues(v[4..])
  {
    Group(x, y, z);
  }

  /** Three bytes survive the trip through four sextets. */
  lemma Group(x: byte, y: byte, z: byte)
    ensures var v0, v1, v2, v3 := x / 4, (x % 4) * 16 + y / 16, (y % 16) * 4 + z / 64, z % 64;
            v0 * 4 + v1 / 16 == x && (v1 % 16) * 16 + v2 / 4 == y && (v2 % 4) * 64 + v3 == z
  {
  }

  /** The standard-alphabet text `atob` sees for sextets `v`. */
  function StdText(v: seq<Sextet>): string
  {
    seq(|v|, i requires 0 <= i < |v| => StdChar(v[i]))
  }

  /** A base64url section, translated to the RFC 4648 section 4 alphabet, is read
      back by `atob` as the bytes it encodes. */
  lemma AtobOfUrlEncode(b: seq<byte>)
    ensures Atob(UrlToStandard(UrlEncode(b))) == Some(b)
  {
    var v := Sextets(b);
    TranslatedUrlText(v);
    AtobOfStdText(v);
    DecodeSextets(b);
  }

  /** `atob` reads unpadded standard-alphabet text as the sextets it spells. */
  lemma AtobOfStdText(v: seq<Sextet>)
    requires |v| % 4 != 1
    ensures Atob(StdText(v)) == Some(DecodeValues(v))
  {
    var t := StdText(v);
    StdTextIsClean(v);
    assert !(exists i :: 0 <= i < |t| && !IsStdChar(t[i]));
    assert seq(|t|, i requires 0 <= i < |t| => StdValue(t[i])) == v by {
      forall i | 0 <= i < |t| {
        StdValueOfStdChar(v[i]);
      }
    }
  }

  /** Base64url text never contains the section separator `.`. */
  lemma UrlEncodeHasNoDot(b: seq<byte>)
    ensures '.' !in UrlEncode(b)
  {
    var v := Sextets(b);
    forall i | 0 <= i < |v|
      ensures UrlChar(v[i]) != '.'
    {
    }
  }

  lemma TranslatedUrlText(v: seq<Sextet>)
    ensures UrlToStandard(seq(|v|, i requires 0 <= i < |v| => UrlChar(v[i]))) == StdText(v)
  {
  }

  /** Standard-alphabet text without padding passes `atob`'s clean-up
      untouched and is all alphabet characters. */
  lemma StdTextIsClean(v: seq<Sextet>)
    requires |v| % 4 != 1
    ensures Cleaned(StdText(v)) == StdText(v)
    ensures |Cleaned(StdText(v))| % 4 != 1
    ensures forall i :: 0 <= i < |v| ==> IsStdChar(StdText(v)[i])
  {
    var t := StdText(v);
    forall i | 0 <= i < |t|
      ensures IsStdChar(t[i]) && !IsAsciiWhitespace(t[i])
    {
      StdValueOfStdChar(v[i]);
    }
    NoWhitespace(t);
    if |t| > 0 {
      assert IsStdChar(t[|t| - 1]);
    }
  }

  lemma {:induction false} NoWhitespace(s: string)
    requires forall i :: 0 <= i < |s| ==> !IsAsciiWhitespace(s[i])
    ensures RemoveAsciiWhitespace(s) == s
  {
    if |s| > 0 {
      NoWhitespace(s[1..]);
      assert [s[0]] + s[1..] == s;
    }
  }
}

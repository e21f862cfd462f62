/** Percent-escapes: how the token parser renders each decoded byte as
    `%hh` (`"%" + ("00" + c.charCodeAt(0).toString(16)).slice(-2)`) and how
    `decodeURIComponent` reads such text back, decoding each run of escapes
    as strict UTF-8. */
module Percent {
  import opened Wrappers
  import opened Bytes
  import Utf8

  predicate IsLowerHexDigit(c: char)
  {
    ('0' <= c <= '9') || ('a' <= c <= 'f')
  }

  /** The hex digits `decodeURIComponent` accepts, in either case. */
  predicate IsHexDigit(c: char)
  {
    ('0' <= c <= '9') || ('a' <= c <= 'f') || ('A' <= c <= 'F')
  }

  /** The lowercase digit `Number.prototype.toString(16)` writes for `d`. */
  function HexDigit(d: int): (c: char)
    requires 0 <= d < 16
    ensures IsLowerHexDigit(c)
  {
    if d < 10 then ('0' as int + d) as char else ('a' as int + d - 10) as char
  }

  function HexValue(c: char): (v: int)
    requires IsHexDigit(c)
    ensures 0 <= v < 16
    ensures IsLowerHexDigit(c) ==> HexDigit(v) == c
  {
    if '0' <= c <= '9' then c as int - '0' as int
    else if 'a' <= c <= 'f' then c as int - 'a' as int + 10
    else c as int - 'A' as int + 10
  }

  lemma HexValueOfDigit(d: int)
    requires 0 <= d < 16
    ensures IsHexDigit(HexDigit(d)) && HexValue(HexDigit(d)) == d
  {
  }

  /** The number a string of hex digits denotes, most significant first. */
  function HexNumber(s: string): nat
    requires forall i :: 0 <= i < |s| ==> IsHexDigit(s[i])
  {
    if |s| == 0 then 0 else HexNumber(s[..|s| - 1]) * 16 + HexValue(s[|s| - 1])
  }

  /** `n.toString(16)` for a non-negative integer: lowercase digits that
      denote `n`, with no leading zero except for `n == 0` itself. */
  function ToHexString(n: nat): (r: string)
    ensures |r| >= 1
    ensures forall i :: 0 <= i < |r| ==> IsLowerHexDigit(r[i]) && IsHexDigit(r[i])
    ensures HexNumber(r) == n
    ensures |r| == 1 || r[0] != '0'
  {
    if n < 16 then
      HexValueOfDigit(n);
      [HexDigit(n)]
    else
      var high := ToHexString(n / 16);
      var r := high + [HexDigit(n % 16)];
      assert r[..|r| - 1] == high;
      HexValueOfDigit(n % 16);
      r
  }

  /** `s.slice(-2)`: the last two characters, or all of a shorter `s`. */
  function SliceLast2(s: string): string
  {
    if |s| >= 2 then s[|s| - 2..] else s
  }

  /** The escape the parser writes for one byte: `%` and exactly two
      lowercase hex digits whose value is the byte. */
  function EscapeByte(b: byte): (r: string)
    ensures |r| == 3 && r[0] == '%'
    ensures IsLowerHexDigit(r[1]) && IsLowerHexDigit(r[2])
    ensures HexValue(r[1]) * 16 + HexValue(r[2]) == b
  {
    var r := "%" + SliceLast2("00" + ToHexString(b));
    PaddedHexOfByte(b);
    assert r == ['%', HexDigit(b / 16), HexDigit(b % 16)];
    r
  }

  /** `("00" + b.toString(16)).slice(-2)` is the two-digit form of a byte. */
  lemma PaddedHexOfByte(b: byte)
    ensures SliceLast2("00" + ToHexString(b)) == [HexDigit(b / 16), HexDigit(b % 16)]
  {
    var h := ToHexString(b);
    if b < 16 {
      assert h == [HexDigit(b)];
    } else {
      assert h == ToHexString(b / 16) + [HexDigit(b % 16)];
      assert ToHexString(b / 16) == [HexDigit(b / 16)];
    }
    HexValueOfDigit(b / 16);
    HexValueOfDigit(b % 16);
  }

  /** `bytes.map(EscapeByte).join("")`: three characters per byte, the
      `i`-th triple escaping the `i`-th byte. */
  function PercentEncode(b: seq<byte>): (r: string)
    ensures |r| == 3 * |b|
    ensures forall i :: 0 <= i < |b| ==> r[3 * i..3 * i + 3] == EscapeByte(b[i])
  {
    if |b| == 0 then []
    else
      var rest := PercentEncode(b[1..]);
      var r := EscapeByte(b[0]) + rest;
      assert forall i :: 1 <= i < |b| ==> r[3 * i..3 * i + 3] == rest[3 * (i - 1)..3 * (i - 1) + 3];
      r
  }

  /** The bytes of the leading run of `%hh` escapes of `s` (empty when `s`
      does not start with `%`); `None` when a `%` in the run is not
      followed by two hex digits, which `decodeURIComponent` rejects. */
  function EscapedRun(s: string): (r: Option<seq<byte>>)
    ensures r.Some? ==> 3 * |r.value| <= |s|
    ensures r.Some? && |s| > 0 && s[0] == '%' ==> |r.value| >= 1
  {
    if |s| == 0 || s[0] != '%' then Some([])
    else if |s| < 3 || !IsHexDigit(s[1]) || !IsHexDigit(s[2]) then None
    else
      var rest :- EscapedRun(s[3..]);
      Some([HexValue(s[1]) * 16 + HexValue(s[2])] + rest)
  }

  /** `decodeURIComponent(s)`: unescaped characters are kept, each run of
      escapes must be well-formed UTF-8 and stands for the characters it
      encodes; `None` is a "URIError". */
  function DecodeUriComponent(s: string): Option<string>
    decreases |s|
  {
    if |s| == 0 then Some([])
    else if s[0] != '%' then
      var rest :- DecodeUriComponent(s[1..]);
      Some([s[0]] + rest)
    else
      var run :- EscapedRun(s);
      var text :- Utf8.Decode(run);
      var rest :- DecodeUriComponent(s[3 * |run|..]);
      Some(text + rest)
  }

  /** Text without `%` is left as it is. */
  lemma {:induction false} DecodeUriComponentOfPlainText(s: string)
    requires '%' !in s
    ensures DecodeUriComponent(s) == Some(s)
  {
    if |s| > 0 {
      assert '%' !in s[1..] by {
        assert forall k :: 0 <= k < |s[1..]| ==> s[1..][k] == s[k + 1];
      }
      DecodeUriComponentOfPlainText(s[1..]);
      assert [s[0]] + s[1..] == s;
    }
  }

  /** The parser's escapes form one run that reads back as the bytes. */
  lemma {:induction false} EscapedRunOfPercentEncode(b: seq<byte>)
    ensures EscapedRun(PercentEncode(b)) == Some(b)
  {
    if |b| > 0 {
      var rest := PercentEncode(b[1..]);
      assert PercentEncode(b) == EscapeByte(b[0]) + rest;
      EscapedRunOfPercentEncode(b[1..]);
      var e := EscapeByte(b[0]);
      EscapedRunCons(e, b[0], rest);
      assert [b[0]] + b[1..] == b;
    }
  }

  /** One escape in front of a run adds its byte in front of the run's bytes. */
  lemma EscapedRunCons(e: string, x: byte, rest: string)
    requires |e| == 3 && e[0] == '%' && IsHexDigit(e[1]) && IsHexDigit(e[2])
    requires HexValue(e[1]) * 16 + HexValue(e[2]) == x
    requires EscapedRun(rest).Some?
    ensures EscapedRun(e + rest) == Some([x] + EscapedRun(rest).value)
  {
    var s := e + rest;
    assert s[0] == e[0] && s[1] == e[1] && s[2] == e[2];
    assert s[3..] == rest;
  }

  /** The percent string encodes exactly the original bytes:
      `decodeURIComponent` of it is the UTF-8 decoding of those bytes. */
  lemma DecodeUriComponentOfPercentEncode(b: seq<byte>)
    ensures DecodeUriComponent(PercentEncode(b)) == Utf8.Decode(b)
  {
    var s := PercentEncode(b);
    if |b| > 0 {
      EscapedRunOfPercentEncode(b);
      assert s[3 * |b|..] == [];
      match Utf8.Decode(b)
      case None =>
      case Some(text) =>
        assert text + [] == text;
    }
  }
}

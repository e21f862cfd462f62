/** UTF-8 as `TextEncoder.encode` produces it and as `decodeURIComponent`
    checks it: the well-formed byte sequences of Table 3-7 of The Unicode
    Standard (no overlong forms, no surrogates, nothing above U+10FFFF). */
module Utf8 {
  import opened Wrappers
  import opened Bytes

  predicate IsContinuation(b: byte)
  {
    0x80 <= b < 0xC0
  }

  /** The one to four bytes that encode `c`. */
  function EncodeChar(c: char): (r: seq<byte>)
    ensures 1 <= |r| <= 4
  {
    var n := c as int;
    if n < 0x80 then [n]
    else if n < 0x800 then [0xC0 + n / 64, 0x80 + n % 64]
    else if n < 0x10000 then [0xE0 + n / 4096, 0x80 + (n / 64) % 64, 0x80 + n % 64]
    else [0xF0 + n / 262144, 0x80 + (n / 4096) % 64, 0x80 + (n / 64) % 64, 0x80 + n % 64]
  }

  /** `new TextEncoder().encode(s)`. */
  function Encode(s: string): seq<byte>
  {
    if |s| == 0 then [] else EncodeChar(s[0]) + Encode(s[1..])
  }

  /** Encoding is a homomorphism: there is no framing between characters. */
  lemma {:induction false} EncodeAppend(a: string, b: string)
    ensures Encode(a + b) == Encode(a) + Encode(b)
  {
    if |a| == 0 {
      assert a + b == b;
    } else {
      assert (a + b)[0] == a[0];
      assert (a + b)[1..] == a[1..] + b;
      EncodeAppend(a[1..], b);
    }
  }

  /** The first well-formed sequence of `b` as a character and its length,
      or `None` when `b` does not start with one. */
  function DecodeFirst(b: seq<byte>): (r: Option<(char, nat)>)
    requires |b| > 0
    ensures r.Some? ==> 1 <= r.value.1 <= |b| && EncodeChar(r.value.0) == b[..r.value.1]
  {
    var b0 := b[0] as int;
    if b0 < 0x80 then Some((b0 as char, 1))
    else if 0xC2 <= b0 <= 0xDF then DecodeLead2(b)
    else if 0xE0 <= b0 <= 0xEF then DecodeLead3(b)
    else if 0xF0 <= b0 <= 0xF4 then DecodeLead4(b)
    else None
  }

  /** After a two-byte lead: one continuation byte. */
  function DecodeLead2(b: seq<byte>): (r: Option<(char, nat)>)
    requires |b| > 0 && 0xC2 <= b[0] <= 0xDF
    ensures r.Some? ==> r.value.1 == 2 <= |b| && EncodeChar(r.value.0) == b[..2]
  {
    if |b| >= 2 && IsContinuation(b[1]) then
      TwoBytes(b[0], b[1]);
      assert b[..2] == [b[0], b[1]];
      Some((((b[0] as int - 0xC0) * 64 + (b[1] as int - 0x80)) as char, 2))
    else None
  }

  /** After a three-byte lead: a second byte in the lead's range, then a
      continuation byte. */
  function DecodeLead3(b: seq<byte>): (r: Option<(char, nat)>)
    requires |b| > 0 && 0xE0 <= b[0] <= 0xEF
    ensures r.Some? ==> r.value.1 == 3 <= |b| && EncodeChar(r.value.0) == b[..3]
  {
    var lo := if b[0] == 0xE0 then 0xA0 else 0x80;
    var hi := if b[0] == 0xED then 0x9F else 0xBF;
    if |b| >= 3 && lo <= b[1] <= hi && IsContinuation(b[2]) then
      ThreeBytes(b[0], b[1], b[2]);
      assert b[..3] == [b[0], b[1], b[2]];
      Some((((b[0] as int - 0xE0) * 4096 + (b[1] as int - 0x80) * 64 + (b[2] as int - 0x80)) as char, 3))
    else None
  }

  /** After a four-byte lead: a second byte in the lead's range, then two
      continuation bytes. */
  function DecodeLead4(b: seq<byte>): (r: Option<(char, nat)>)
    requires |b| > 0 && 0xF0 <= b[0] <= 0xF4
    ensures r.Some? ==> r.value.1 == 4 <= |b| && EncodeChar(r.value.0) == b[..4]
  {
    var lo := if b[0] == 0xF0 then 0x90 else 0x80;
    var hi := if b[0] == 0xF4 then 0x8F else 0xBF;
    if |b| >= 4 && lo <= b[1] <= hi && IsContinuation(b[2]) && IsContinuation(b[3]) then
      FourBytes(b[0], b[1], b[2], b[3]);
      assert b[..4] == [b[0], b[1], b[2], b[3]];
      Some((((b[0] as int - 0xF0) * 262144 + (b[1] as int - 0x80) * 4096 + (b[2] as int - 0x80) * 64
             + (b[3] as int - 0x80)) as char, 4))
    else None
  }

  /** A well-formed two-byte sequence encodes the scalar value it spells. */
  lemma TwoBytes(b0: byte, b1: byte)
    requires 0xC2 <= b0 <= 0xDF && IsContinuation(b1)
    ensures var n := (b0 - 0xC0) * 64 + (b1 - 0x80);
            0x80 <= n < 0x800 && EncodeChar(n as char) == [b0, b1]
  {
    Split64(b0 - 0xC0, b1 - 0x80);
  }

  /** A well-formed three-byte sequence (no overlong form, no surrogate)
      encodes the scalar value it spells. */
  lemma ThreeBytes(b0: byte, b1: byte, b2: byte)
    requires 0xE0 <= b0 <= 0xEF && IsContinuation(b2)
    requires (if b0 == 0xE0 then 0xA0 else 0x80) <= b1 <= (if b0 == 0xED then 0x9F else 0xBF)
    ensures var n := (b0 - 0xE0) * 4096 + (b1 - 0x80) * 64 + (b2 - 0x80);
            0x800 <= n < 0x10000 && !(0xD800 <= n < 0xE000)
            && EncodeChar(n as char) == [b0, b1, b2]
  {
    Div3(b0 - 0xE0, b1 - 0x80, b2 - 0x80);
  }

  /** A well-formed four-byte sequence (no overlong form, nothing above
      U+10FFFF) encodes the scalar value it spells. */
  lemma FourBytes(b0: byte, b1: byte, b2: byte, b3: byte)
    requires 0xF0 <= b0 <= 0xF4 && IsContinuation(b2) && IsContinuation(b3)
    requires (if b0 == 0xF0 then 0x90 else 0x80) <= b1 <= (if b0 == 0xF4 then 0x8F else 0xBF)
    ensures var n := (b0 - 0xF0) * 262144 + (b1 - 0x80) * 4096 + (b2 - 0x80) * 64 + (b3 - 0x80);
            0x10000 <= n < 0x110000 && EncodeChar(n as char) == [b0, b1, b2, b3]
  {
    Div4(b0 - 0xF0, b1 - 0x80, b2 - 0x80, b3 - 0x80);
  }

  lemma Split64(q: int, r: int)
    requires q >= 0 && 0 <= r < 64
    ensures (q * 64 + r) / 64 == q && (q * 64 + r) % 64 == r
  {
  }

  lemma DivDiv64(n: int)
    requires n >= 0
    ensures n / 64 / 64 == n / 4096 && n / 4096 / 64 == n / 262144
  {
  }

  lemma Div3(x: int, y: int, z: int)
    requires 0 <= x < 16 && 0 <= y < 64 && 0 <= z < 64
    ensures var n := x * 4096 + y * 64 + z;
            n / 4096 == x && (n / 64) % 64 == y && n % 64 == z
  {
    var n := x * 4096 + y * 64 + z;
    Split64(x * 64 + y, z);
    Split64(x, y);
    DivDiv64(n);
  }

  lemma Div4(w: int, x: int, y: int, z: int)
    requires 0 <= w < 8 && 0 <= x < 64 && 0 <= y < 64 && 0 <= z < 64
    ensures var n := w * 262144 + x * 4096 + y * 64 + z;
            n / 262144 == w && (n / 4096) % 64 == x && (n / 64) % 64 == y && n % 64 == z
  {
    var n := w * 262144 + x * 4096 + y * 64 + z;
    Split64((w * 64 + x) * 64 + y, z);
    Split64(w * 64 + x, y);
    Split64(w, x);
    DivDiv64(n);
  }

  /** Strict UTF-8 decoding: `None` unless all of `b` is well-formed. */
  function Decode(b: seq<byte>): (r: Option<string>)
    ensures r.Some? ==> Encode(r.value) == b
    decreases |b|
  {
    if |b| == 0 then Some([])
    else
      var first :- DecodeFirst(b);
      var rest :- Decode(b[first.1..]);
      DecodeStep(b, first.0, first.1, rest);
      Some([first.0] + rest)
  }

  lemma DecodeStep(b: seq<byte>, c: char, k: nat, rest: string)
    requires k <= |b| && EncodeChar(c) == b[..k] && Encode(rest) == b[k..]
    ensures Encode([c] + rest) == b
  {
    var s := [c] + rest;
    assert s[0] == c && s[1..] == rest;
    assert b == b[..k] + b[k..];
  }

  /** Every character's encoding decodes back to it, whatever follows. */
  lemma DecodeFirstEncodeChar(c: char, rest: seq<byte>)
    ensures DecodeFirst(EncodeChar(c) + rest) == Some((c, |EncodeChar(c)|))
  {
    var n := c as int;
    if n < 0x80 {
    } else if n < 0x800 {
      DecodeTwo(c, rest);
    } else if n < 0x10000 {
      DecodeThree(c, rest);
    } else {
      DecodeFour(c, rest);
    }
  }

  lemma DecodeTwo(c: char, rest: seq<byte>)
    requires 0x80 <= c as int < 0x800
    ensures DecodeFirst(EncodeChar(c) + rest) == Some((c, 2))
  {
    var n := c as int;
    var b := EncodeChar(c) + rest;
    assert b[0] == 0xC0 + n / 64 && b[1] == 0x80 + n % 64;
    assert n == (n / 64) * 64 + n % 64;
  }

  lemma DecodeThree(c: char, rest: seq<byte>)
    requires 0x800 <= c as int < 0x10000
    ensures DecodeFirst(EncodeChar(c) + rest) == Some((c, 3))
  {
    var n := c as int;
    var b := EncodeChar(c) + rest;
    var x, y, z := n / 4096, (n / 64) % 64, n % 64;
    assert b[0] == 0xE0 + x && b[1] == 0x80 + y && b[2] == 0x80 + z;
    DivDiv64(n);
    assert n == (n / 64) * 64 + z;
    assert n / 64 == x * 64 + y;
    assert n == x * 4096 + y * 64 + z;
    if x == 0 {
      assert n / 64 == y;
      assert y >= 32;
    }
    if x == 13 {
      assert n < 0xD800;
      assert y < 32;
    }
  }

  lemma DecodeFour(c: char, rest: seq<byte>)
    requires 0x10000 <= c as int
    ensures DecodeFirst(EncodeChar(c) + rest) == Some((c, 4))
  {
    var n := c as int;
    var b := EncodeChar(c) + rest;
    var w, x, y, z := n / 262144, (n / 4096) % 64, (n / 64) % 64, n % 64;
    assert b[0] == 0xF0 + w && b[1] == 0x80 + x && b[2] == 0x80 + y && b[3] == 0x80 + z;
    DivDiv64(n);
    assert n == (n / 64) * 64 + z;
    assert n / 64 == (n / 4096) * 64 + y;
    assert n / 4096 == w * 64 + x;
    assert n == w * 262144 + x * 4096 + y * 64 + z;
    if w == 0 {
      assert n / 4096 == x;
      assert x >= 16;
    }
    if w == 4 {
      assert x < 16;
    }
  }

  /** Decoding inverts encoding on every string. */
  lemma {:induction false} DecodeEncode(s: string)
    ensures Decode(Encode(s)) == Some(s)
  {
    if |s| > 0 {
      var e := EncodeChar(s[0]);
      DecodeFirstEncodeChar(s[0], Encode(s[1..]));
      assert (e + Encode(s[1..]))[|e|..] == Encode(s[1..]);
      DecodeEncode(s[1..]);
      assert [s[0]] + s[1..] == s;
    }
  }
}

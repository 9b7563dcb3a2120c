/** UTF-8 as used by `OsStr::to_str` on Unix: an `OsStr` is a sequence of
    bytes, and `to_str` succeeds exactly when those bytes are well-formed
    UTF-8 (the well-formed byte sequences of table 3-7 of the Unicode
    Standard, section 3.9), yielding the decoded text. */
module Utf8 {
  import opened Wrappers

  newtype Byte = x: int | 0 <= x < 256

  predicate InRange(b: Byte, lo: int, hi: int) {
    lo <= b as int <= hi
  }

  /** A continuation byte 10xxxxxx. */
  predicate IsContinuation(b: Byte) {
    InRange(b, 0x80, 0xBF)
  }

  /** The UTF-8 encoding of one Unicode scalar value. */
  function EncodeScalar(c: char): (r: seq<Byte>)
    ensures 1 <= |r| <= 4
  {
    var n := c as int;
    if n < 0x80 then
      [n as Byte]
    else if n < 0x800 then
      [(0xC0 + n / 64) as Byte, (0x80 + n % 64) as Byte]
    else if n < 0x1_0000 then
      [(0xE0 + n / 4096) as Byte, (0x80 + (n / 64) % 64) as Byte, (0x80 + n % 64) as Byte]
    else
      [(0xF0 + n / 262144) as Byte, (0x80 + (n / 4096) % 64) as Byte,
       (0x80 + (n / 64) % 64) as Byte, (0x80 + n % 64) as Byte]
  }

  /** The UTF-8 encoding of a string: the encodings of its scalars, in order. */
  function Encode(s: string): (r: seq<Byte>)
    ensures |s| <= |r|
  {
    if s == [] then [] else EncodeScalar(s[0]) + Encode(s[1..])
  }

  /** Decodes the scalar at the head of `b`, returning it with the number of
      bytes it occupies, or None when `b` does not start with a well-formed
      sequence (overlong forms, surrogates and values above U+10FFFF are
      ill-formed). */
  function DecodeScalar(b: seq<Byte>): (r: Option<(char, nat)>)
    requires |b| > 0
    ensures r.Some? ==> 1 <= r.value.1 <= |b|
  {
    var b0 := b[0] as int;
    if b0 < 0x80 then
      Some((b0 as char, 1))
    else if 0xC2 <= b0 <= 0xDF then
      if |b| >= 2 && IsContinuation(b[1]) then
        Some((((b0 - 0xC0) * 64 + (b[1] as int - 0x80)) as char, 2))
      else None
    else if 0xE0 <= b0 <= 0xEF then
      var lo := if b0 == 0xE0 then 0xA0 else 0x80;
      var hi := if b0 == 0xED then 0x9F else 0xBF;
      if |b| >= 3 && InRange(b[1], lo, hi) && IsContinuation(b[2]) then
        Some((((b0 - 0xE0) * 4096 + (b[1] as int - 0x80) * 64 + (b[2] as int - 0x80)) as char, 3))
      else None
    else if 0xF0 <= b0 <= 0xF4 then
      var lo := if b0 == 0xF0 then 0x90 else 0x80;
      var hi := if b0 == 0xF4 then 0x8F else 0xBF;
      if |b| >= 4 && InRange(b[1], lo, hi) && IsContinuation(b[2]) && IsContinuation(b[3]) then
        Some((((b0 - 0xF0) * 262144 + (b[1] as int - 0x80) * 4096
               + (b[2] as int - 0x80) * 64 + (b[3] as int - 0x80)) as char, 4))
      else None
    else
      None
  }

  /** `str::from_utf8(bytes).ok()`: the decoded text, or None when the bytes
      are not well-formed UTF-8. */
  function Decode(b: seq<Byte>): (r: Option<string>)
    ensures r.Some? ==> Encode(r.value) == b && |r.value| <= |b|
    decreases |b|
  {
    if b == [] then Some([])
    else match DecodeScalar(b)
      case None => None
      case Some((c, k)) =>
        match Decode(b[k..])
        case None => None
        case Some(rest) =>
          EncodeDecodeScalar(b);
          assert ([c] + rest)[0] == c && ([c] + rest)[1..] == rest;
          assert b == b[..k] + b[k..];
          Some([c] + rest)
  }

  /** Well-formed UTF-8. */
  predicate WellFormed(b: seq<Byte>) {
    Decode(b).Some?
  }

  lemma DecodeEncodeScalar(c: char, rest: seq<Byte>)
    ensures DecodeScalar(EncodeScalar(c) + rest) == Some((c, |EncodeScalar(c)|))
  {
    var n := c as int;
    var b := EncodeScalar(c) + rest;
    if n < 0x80 {
    } else if n < 0x800 {
      assert n == (n / 64) * 64 + n % 64;
    } else if n < 0x1_0000 {
      assert n / 64 == (n / 4096) * 64 + (n / 64) % 64;
      assert n == (n / 64) * 64 + n % 64;
    } else {
      assert n / 4096 == (n / 262144) * 64 + (n / 4096) % 64;
      assert n / 64 == (n / 4096) * 64 + (n / 64) % 64;
      assert n == (n / 64) * 64 + n % 64;
    }
  }

  lemma DivMod64(q: int, r: int)
    requires 0 <= r < 64
    ensures (q * 64 + r) / 64 == q && (q * 64 + r) % 64 == r
  {
  }

  lemma Div4096(q: int, r: int)
    requires 0 <= r < 4096
    ensures (q * 4096 + r) / 4096 == q
  {
  }

  lemma Div262144(q: int, r: int)
    requires 0 <= r < 262144
    ensures (q * 262144 + r) / 262144 == q
  {
  }

  lemma EncodeDecodeScalar(b: seq<Byte>)
    requires |b| > 0 && DecodeScalar(b).Some?
    ensures EncodeScalar(DecodeScalar(b).value.0) == b[..DecodeScalar(b).value.1]
  {
    var b0 := b[0] as int;
    if b0 < 0x80 {
    } else if b0 <= 0xDF {
      var x, y := b0 - 0xC0, b[1] as int - 0x80;
      DivMod64(x, y);
    } else if b0 <= 0xEF {
      var x, y, z := b0 - 0xE0, b[1] as int - 0x80, b[2] as int - 0x80;
      var n := x * 4096 + y * 64 + z;
      assert n == (x * 64 + y) * 64 + z;
      DivMod64(x * 64 + y, z);
      DivMod64(x, y);
      Div4096(x, y * 64 + z);
    } else {
      var w, x, y, z := b0 - 0xF0, b[1] as int - 0x80, b[2] as int - 0x80, b[3] as int - 0x80;
      var n := w * 262144 + x * 4096 + y * 64 + z;
      assert n == ((w * 64 + x) * 64 + y) * 64 + z;
      assert n == (w * 64 + x) * 4096 + (y * 64 + z);
      DivMod64((w * 64 + x) * 64 + y, z);
      DivMod64(w * 64 + x, y);
      Div4096(w * 64 + x, y * 64 + z);
      DivMod64(w, x);
      Div262144(w, x * 4096 + y * 64 + z);
    }
  }

  /** Decoding undoes encoding. */
  lemma {:induction false} DecodeEncode(s: string)
    ensures Decode(Encode(s)) == Some(s)
  {
    if s != [] {
      DecodeEncodeScalar(s[0], Encode(s[1..]));
      assert (EncodeScalar(s[0]) + Encode(s[1..]))[|EncodeScalar(s[0])|..] == Encode(s[1..]);
      DecodeEncode(s[1..]);
      assert [s[0]] + s[1..] == s;
    }
  }

  /** The text `to_str` yields is the unique string whose encoding is the
      given bytes. */
  lemma DecodeIff(b: seq<Byte>, s: string)
    ensures Decode(b) == Some(s) <==> Encode(s) == b
  {
    if Encode(s) == b { DecodeEncode(s); }
  }
}

/** Strict UTF-8, as used by Python's `bytes.decode('utf-8')` with the default
    error handler: overlong forms, surrogate code points, code points above
    U+10FFFF, stray continuation bytes and truncated sequences are all rejected.
    A Dafny `char` is a Unicode scalar value, so every string is encodable. */
module Utf8 {
  import opened Wrappers
  import opened Bytes

  predicate IsContinuation(b: byte) {
    0x80 <= b < 0xC0
  }

  predicate IsScalar(v: int) {
    (0 <= v < 0xD800) || (0xE000 <= v < 0x11_0000)
  }

  /** The one- to four-byte encoding of a single scalar value. */
  function EncodeChar(c: char): (r: seq<byte>)
    ensures 1 <= |r| <= 4
    ensures (r[0] < 0x80) == (|r| == 1)
    ensures forall i :: 1 <= i < |r| ==> IsContinuation(r[i])
    ensures |r| == 1 ==> r[0] == c as int
  {
    var v := c as int;
    if v < 0x80 then [v]
    else if v < 0x800 then [0xC0 + v / 64, 0x80 + v % 64]
    else if v < 0x1_0000 then [0xE0 + v / 4096, 0x80 + (v / 64) % 64, 0x80 + v % 64]
    else [0xF0 + v / 262144, 0x80 + (v / 4096) % 64, 0x80 + (v / 64) % 64, 0x80 + v % 64]
  }

  function Encode(s: string): (r: seq<byte>)
    ensures |r| >= |s|
    ensures s == [] <==> r == []
  {
    if s == [] then [] else EncodeChar(s[0]) + Encode(s[1..])
  }

  /** Decodes the scalar value at the head of `b`, together with the number of
      bytes it occupies; None when the head is not a well-formed sequence. */
  function DecodeChar(b: seq<byte>): Option<(char, nat)>
    requires b != []
  {
    var b0 := b[0] as int;
    if b0 < 0x80 then Some((b0 as char, 1))
    else if 0xC0 <= b0 < 0xE0 then
      if |b| < 2 || !IsContinuation(b[1]) then None
      else
        var v := (b0 - 0xC0) * 64 + (b[1] as int - 0x80);
        if v < 0x80 then None else Some((v as char, 2))
    else if 0xE0 <= b0 < 0xF0 then
      if |b| < 3 || !IsContinuation(b[1]) || !IsContinuation(b[2]) then None
      else
        var v := (b0 - 0xE0) * 4096 + (b[1] as int - 0x80) * 64 + (b[2] as int - 0x80);
        if v < 0x800 || !IsScalar(v) then None else Some((v as char, 3))
    else if 0xF0 <= b0 < 0xF8 then
      if |b| < 4 || !IsContinuation(b[1]) || !IsContinuation(b[2]) || !IsContinuation(b[3]) then None
      else
        var v := (b0 - 0xF0) * 262144 + (b[1] as int - 0x80) * 4096 + (b[2] as int - 0x80) * 64 + (b[3] as int - 0x80);
        if v < 0x1_0000 || !IsScalar(v) then None else Some((v as char, 4))
    else None
  }

  function Decode(b: seq<byte>): Option<string>
    decreases |b|
  {
    if b == [] then Some([])
    else match DecodeChar(b)
      case None => None
      case Some((c, n)) =>
        if n == 0 || n > |b| then None
        else match Decode(b[n..])
          case None => None
          case Some(rest) => Some([c] + rest)
  }

  lemma DivMod64(q: int, r: int)
    requires q >= 0 && 0 <= r < 64
    ensures (q * 64 + r) / 64 == q && (q * 64 + r) % 64 == r
  {
  }

  /** Decoding the encoding of one character gives it back, whatever follows. */
  lemma DecodeEncodeChar(c: char, rest: seq<byte>)
    ensures DecodeChar(EncodeChar(c) + rest) == Some((c, |EncodeChar(c)|))
  {
    var v := c as int;
    var e := EncodeChar(c) + rest;
    if v < 0x80 {
    } else if v < 0x800 {
      assert v == (v / 64) * 64 + v % 64;
    } else if v < 0x1_0000 {
      var q := v / 64;
      assert v == q * 64 + v % 64;
      assert q == (v / 4096) * 64 + q % 64;
      assert v / 4096 == q / 64;
    } else {
      var q := v / 64;
      var q2 := q / 64;
      assert v == q * 64 + v % 64;
      assert q == q2 * 64 + q % 64;
      assert q2 == (v / 262144) * 64 + q2 % 64;
      assert v / 4096 == q2;
      assert v / 262144 == q2 / 64;
    }
  }

  lemma EncodeTwo(x: int, y: int)
    requires 0 <= x < 32 && 0 <= y < 64 && x * 64 + y >= 0x80
    ensures EncodeChar((x * 64 + y) as char) == [0xC0 + x, 0x80 + y]
  {
    DivMod64(x, y);
  }

  lemma EncodeThree(x: int, y: int, z: int)
    requires 0 <= x < 16 && 0 <= y < 64 && 0 <= z < 64
    requires IsScalar(x * 4096 + y * 64 + z) && x * 4096 + y * 64 + z >= 0x800
    ensures EncodeChar((x * 4096 + y * 64 + z) as char) == [0xE0 + x, 0x80 + y, 0x80 + z]
  {
    var v := x * 4096 + y * 64 + z;
    DivMod64(x * 64 + y, z);
    DivMod64(x, y);
    assert v / 64 == x * 64 + y;
    assert v / 4096 == (v / 64) / 64;
  }

  lemma EncodeFour(w: int, x: int, y: int, z: int)
    requires 0 <= w < 8 && 0 <= x < 64 && 0 <= y < 64 && 0 <= z < 64
    requires IsScalar(w * 262144 + x * 4096 + y * 64 + z) && w * 262144 + x * 4096 + y * 64 + z >= 0x1_0000
    ensures EncodeChar((w * 262144 + x * 4096 + y * 64 + z) as char) == [0xF0 + w, 0x80 + x, 0x80 + y, 0x80 + z]
  {
    var v := w * 262144 + x * 4096 + y * 64 + z;
    DivMod64(w * 4096 + x * 64 + y, z);
    DivMod64(w * 64 + x, y);
    DivMod64(w, x);
    assert v / 64 == w * 4096 + x * 64 + y;
    assert v / 4096 == (v / 64) / 64;
    assert v / 262144 == (v / 4096) / 64;
  }

  /** A well-formed head sequence is exactly the encoding of what it decodes to. */
  lemma EncodeDecodeChar(b: seq<byte>)
    requires b != [] && DecodeChar(b).Some?
    ensures var (c, n) := DecodeChar(b).value;
      1 <= n <= |b| && EncodeChar(c) == b[..n]
  {
    var b0 := b[0] as int;
    if b0 < 0x80 {
    } else if 0xC0 <= b0 < 0xE0 {
      EncodeTwo(b0 - 0xC0, b[1] as int - 0x80);
    } else if 0xE0 <= b0 < 0xF0 {
      EncodeThree(b0 - 0xE0, b[1] as int - 0x80, b[2] as int - 0x80);
    } else {
      EncodeFour(b0 - 0xF0, b[1] as int - 0x80, b[2] as int - 0x80, b[3] as int - 0x80);
    }
  }

  /** Encoding then decoding is the identity on every string. */
  lemma {:induction false} DecodeEncode(s: string)
    ensures Decode(Encode(s)) == Some(s)
  {
    if s != [] {
      var e := EncodeChar(s[0]);
      DecodeEncodeChar(s[0], Encode(s[1..]));
      assert (e + Encode(s[1..]))[|e|..] == Encode(s[1..]);
      DecodeEncode(s[1..]);
      assert [s[0]] + s[1..] == s;
    }
  }

  /** A successful decode of a non-empty sequence is its head character
      followed by the decode of the rest. */
  lemma DecodeUnfold(b: seq<byte>) returns (c: char, n: nat, t: string)
    requires b != [] && Decode(b).Some?
    ensures DecodeChar(b) == Some((c, n)) && 1 <= n <= |b|
    ensures Decode(b[n..]) == Some(t) && Decode(b) == Some([c] + t)
  {
    c, n := DecodeChar(b).value.0, DecodeChar(b).value.1;
    t := Decode(b[n..]).value;
  }

  /** A byte sequence decodes successfully only when it is the encoding of
      the text it decodes to; with DecodeEncode, Decode(b) == Some(s) holds
      exactly when Encode(s) == b. */
  lemma {:induction false} EncodeDecode(b: seq<byte>)
    requires Decode(b).Some?
    ensures Encode(Decode(b).value) == b
    decreases |b|
  {
    if b != [] {
      var c, n, t := DecodeUnfold(b);
      EncodeDecodeChar(b);
      EncodeDecode(b[n..]);
      var s := [c] + t;
      assert s[0] == c && s[1..] == t;
      assert Encode(s) == b[..n] + b[n..];
      assert b[..n] + b[n..] == b;
    }
  }

  lemma DecodeIffEncode(b: seq<byte>, s: string)
    ensures Decode(b) == Some(s) <==> Encode(s) == b
  {
    if Decode(b) == Some(s) {
      EncodeDecode(b);
    }
    if Encode(s) == b {
      DecodeEncode(s);
    }
  }
}

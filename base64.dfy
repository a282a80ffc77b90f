/** Base64 with the standard alphabet and `=` padding (section 4 of RFC 4648).

    Encode is the RFC encoding. Decode is what Python's `base64.b64decode(s)`
    does with a `str` argument and the default `validate=False`: the text must
    be ASCII, and the characters are then fed to the non-strict decoder of
    `binascii.a2b_base64`, a four-position state machine that
      - skips every character outside the alphabet other than `=`,
      - ignores `=` until at least two data characters of the current quantum
        have been read, then stops at the first `=` of a full pad (data after
        it is ignored, leftover bits are dropped),
      - fails when the input ends one data character into a quantum, or two
        or three characters into one without padding. */
module Base64 {
  import opened Wrappers
  import opened Bytes

  datatype DecodeError =
    | NonAsciiInput        // str.encode('ascii') fails before decoding
    | DataCharacterCount   // input ends one data character into a quantum
    | IncorrectPadding     // input ends two or three characters into a quantum

  predicate IsAscii(s: string) {
    forall i :: 0 <= i < |s| ==> s[i] as int < 128
  }

  /** The value of an alphabet character (Table 1 of RFC 4648), None for
      every other character, `=` included. */
  function SymbolValue(c: char): (r: Option<nat>)
    ensures r.Some? ==> r.value < 64 && c as int < 128 && c != '='
  {
    if 'A' <= c <= 'Z' then Some(c as int - 'A' as int)
    else if 'a' <= c <= 'z' then Some(c as int - 'a' as int + 26)
    else if '0' <= c <= '9' then Some(c as int - '0' as int + 52)
    else if c == '+' then Some(62)
    else if c == '/' then Some(63)
    else None
  }

  /** The alphabet character for a six-bit value. */
  function Symbol(v: nat): (c: char)
    requires v < 64
    ensures SymbolValue(c) == Some(v)
  {
    if v < 26 then ('A' as int + v) as char
    else if v < 52 then ('a' as int + v - 26) as char
    else if v < 62 then ('0' as int + v - 52) as char
    else if v == 62 then '+'
    else '/'
  }

  /** The four characters that encode three octets. */
  function EncodeGroup(b0: byte, b1: byte, b2: byte): string {
    [Symbol(b0 / 4), Symbol(b0 % 4 * 16 + b1 / 16), Symbol(b1 % 16 * 4 + b2 / 64), Symbol(b2 % 64)]
  }

  /** RFC 4648 encoding: whole quanta, then a final quantum of one or two
      octets padded with `==` or `=`. */
  function Encode(b: seq<byte>): (r: string)
    ensures |r| == (|b| + 2) / 3 * 4
    ensures forall i :: 0 <= i < |r| ==> r[i] == '=' || SymbolValue(r[i]).Some?
    decreases |b|
  {
    if |b| == 0 then []
    else if |b| == 1 then [Symbol(b[0] / 4), Symbol(b[0] % 4 * 16), '=', '=']
    else if |b| == 2 then [Symbol(b[0] / 4), Symbol(b[0] % 4 * 16 + b[1] / 16), Symbol(b[1] % 16 * 4), '=']
    else EncodeGroup(b[0], b[1], b[2]) + Encode(b[3..])
  }

  /** The bits still owed to the next octet fit beside the next character. */
  predicate QuadState(pos: nat, left: nat) {
    && pos < 4
    && (pos == 0 ==> left == 0)
    && (pos == 1 ==> left < 64)
    && (pos == 2 ==> left < 16)
    && (pos == 3 ==> left < 4)
  }

  function Cons(x: byte, r: Result<seq<byte>, DecodeError>): Result<seq<byte>, DecodeError> {
    match r
    case Success(out) => Success([x] + out)
    case Failure(e) => Failure(e)
  }

  /** The non-strict decoder from state (`pos` data characters into the
      current quantum, `left` the bits not yet emitted, `pads` the `=` seen
      since the last data character). */
  function A2b(s: string, pos: nat, left: nat, pads: nat): Result<seq<byte>, DecodeError>
    requires QuadState(pos, left)
    decreases |s|
  {
    if s == [] then
      if pos == 0 then Success([])
      else if pos == 1 then Failure(DataCharacterCount)
      else Failure(IncorrectPadding)
    else if s[0] == '=' then
      if pos >= 2 && pos + pads + 1 >= 4 then Success([])
      else A2b(s[1..], pos, left, if pos >= 2 then pads + 1 else pads)
    else match SymbolValue(s[0])
      case None => A2b(s[1..], pos, left, pads)
      case Some(v) =>
        if pos == 0 then A2b(s[1..], 1, v, 0)
        else if pos == 1 then Cons(left * 4 + v / 16, A2b(s[1..], 2, v % 16, 0))
        else if pos == 2 then Cons(left * 16 + v / 4, A2b(s[1..], 3, v % 4, 0))
        else Cons(left * 64 + v, A2b(s[1..], 0, 0, 0))
  }

  function Decode(s: string): Result<seq<byte>, DecodeError> {
    if !IsAscii(s) then Failure(NonAsciiInput) else A2b(s, 0, 0, 0)
  }

  /** One whole quantum decodes to its three octets, and decoding carries on
      with what follows in the initial state. */
  lemma DecodeGroup(b0: byte, b1: byte, b2: byte, t: string)
    ensures A2b(EncodeGroup(b0, b1, b2) + t, 0, 0, 0) == Cons(b0, Cons(b1, Cons(b2, A2b(t, 0, 0, 0))))
  {
    var v0, v1, v2, v3 := b0 / 4, b0 % 4 * 16 + b1 / 16, b1 % 16 * 4 + b2 / 64, b2 % 64;
    var s0 := EncodeGroup(b0, b1, b2) + t;
    var s1 := s0[1..];
    var s2 := s1[1..];
    var s3 := s2[1..];
    assert s0[0] == Symbol(v0) && s1[0] == Symbol(v1) && s2[0] == Symbol(v2) && s3[0] == Symbol(v3);
    assert s3[1..] == t;
    assert v1 / 16 == b0 % 4 && v1 % 16 == b1 / 16;
    assert v2 / 4 == b1 % 16 && v2 % 4 == b2 / 64;
    calc {
      A2b(s0, 0, 0, 0);
      A2b(s1, 1, v0, 0);
      Cons(v0 * 4 + v1 / 16, A2b(s2, 2, v1 % 16, 0));
      Cons(b0, A2b(s2, 2, b1 / 16, 0));
      Cons(b0, Cons(b1 / 16 * 16 + v2 / 4, A2b(s3, 3, v2 % 4, 0)));
      Cons(b0, Cons(b1, A2b(s3, 3, b2 / 64, 0)));
      Cons(b0, Cons(b1, Cons(b2 / 64 * 64 + v3, A2b(t, 0, 0, 0))));
      Cons(b0, Cons(b1, Cons(b2, A2b(t, 0, 0, 0))));
    }
  }

  /** A final quantum of one octet, `XY==`, decodes to it and ends the decode. */
  lemma DecodeFinalOne(b0: byte, t: string)
    ensures A2b(Encode([b0]) + t, 0, 0, 0) == Success([b0])
  {
    var v0, v1 := b0 / 4, b0 % 4 * 16;
    var s0 := Encode([b0]) + t;
    var s1 := s0[1..];
    var s2 := s1[1..];
    var s3 := s2[1..];
    assert s0[0] == Symbol(v0) && s1[0] == Symbol(v1) && s2[0] == '=' && s3[0] == '=';
    assert v1 / 16 == b0 % 4;
    calc {
      A2b(s0, 0, 0, 0);
      A2b(s1, 1, v0, 0);
      Cons(v0 * 4 + v1 / 16, A2b(s2, 2, v1 % 16, 0));
      Cons(b0, A2b(s2, 2, v1 % 16, 0));
      Cons(b0, A2b(s3, 2, v1 % 16, 1));
      Cons(b0, Success([]));
      { assert [b0] + [] == [b0]; }
      Success([b0]);
    }
  }

  /** A final quantum of two octets, `XYZ=`, decodes to them and ends the decode. */
  lemma DecodeFinalTwo(b0: byte, b1: byte, t: string)
    ensures A2b(Encode([b0, b1]) + t, 0, 0, 0) == Success([b0, b1])
  {
    var v0, v1, v2 := b0 / 4, b0 % 4 * 16 + b1 / 16, b1 % 16 * 4;
    var s0 := Encode([b0, b1]) + t;
    var s1 := s0[1..];
    var s2 := s1[1..];
    var s3 := s2[1..];
    assert s0[0] == Symbol(v0) && s1[0] == Symbol(v1) && s2[0] == Symbol(v2) && s3[0] == '=';
    assert v1 / 16 == b0 % 4 && v1 % 16 == b1 / 16 && v2 / 4 == b1 % 16;
    calc {
      A2b(s0, 0, 0, 0);
      A2b(s1, 1, v0, 0);
      Cons(v0 * 4 + v1 / 16, A2b(s2, 2, v1 % 16, 0));
      Cons(b0, A2b(s2, 2, b1 / 16, 0));
      Cons(b0, Cons(b1 / 16 * 16 + v2 / 4, A2b(s3, 3, v2 % 4, 0)));
      Cons(b0, Cons(b1, A2b(s3, 3, v2 % 4, 0)));
      Cons(b0, Cons(b1, Success([])));
      { assert [b0] + ([b1] + []) == [b0, b1]; }
      Success([b0, b1]);
    }
  }

  /** Decoding an encoding followed by any text: a padded encoding ends the
      decode (what follows the padding is ignored); an unpadded one lets
      decoding carry on. */
  lemma {:induction false} DecodeEncodeThen(b: seq<byte>, t: string)
    ensures |b| % 3 != 0 ==> A2b(Encode(b) + t, 0, 0, 0) == Success(b)
    ensures |b| % 3 == 0 ==> A2b(Encode(b) + t, 0, 0, 0) == ConsAll(b, A2b(t, 0, 0, 0))
    decreases |b|
  {
    if |b| < 3 {
      DecodeEncodeShort(b, t);
    } else {
      var tail := b[3..];
      var r := A2b(Encode(tail) + t, 0, 0, 0);
      DecodeEncodeStep(b, t);
      DecodeEncodeThen(tail, t);
      ConsThree(b, r, A2b(t, 0, 0, 0));
      ModThree(|b|);
      if |b| % 3 != 0 {
        assert |tail| % 3 != 0;
        assert r == Success(tail);
      } else {
        assert |tail| % 3 == 0;
        assert r == ConsAll(tail, A2b(t, 0, 0, 0));
      }
    }
  }

  lemma ModThree(n: int)
    requires n >= 3
    ensures (n - 3) % 3 == n % 3
  {
  }

  lemma ConsThree(b: seq<byte>, r: Result<seq<byte>, DecodeError>, tail: Result<seq<byte>, DecodeError>)
    requires |b| >= 3
    ensures r == Success(b[3..]) ==> Cons(b[0], Cons(b[1], Cons(b[2], r))) == Success(b)
    ensures r == ConsAll(b[3..], tail) ==> Cons(b[0], Cons(b[1], Cons(b[2], r))) == ConsAll(b, tail)
  {
    assert [b[0]] + ([b[1]] + ([b[2]] + b[3..])) == b;
    if tail.Success? {
      assert [b[0]] + ([b[1]] + ([b[2]] + (b[3..] + tail.value))) == b + tail.value;
    }
  }

  lemma DecodeEncodeShort(b: seq<byte>, t: string)
    requires |b| < 3
    ensures |b| % 3 != 0 ==> A2b(Encode(b) + t, 0, 0, 0) == Success(b)
    ensures |b| % 3 == 0 ==> A2b(Encode(b) + t, 0, 0, 0) == ConsAll(b, A2b(t, 0, 0, 0))
  {
    if |b| == 0 {
      assert Encode(b) + t == t;
      match A2b(t, 0, 0, 0)
      case Success(out) =>
        assert b + out == out;
      case Failure(_) =>
    } else if |b| == 1 {
      assert b == [b[0]];
      DecodeFinalOne(b[0], t);
    } else {
      assert b == [b[0], b[1]];
      DecodeFinalTwo(b[0], b[1], t);
    }
  }

  lemma DecodeEncodeStep(b: seq<byte>, t: string)
    requires |b| >= 3
    ensures A2b(Encode(b) + t, 0, 0, 0) == Cons(b[0], Cons(b[1], Cons(b[2], A2b(Encode(b[3..]) + t, 0, 0, 0))))
  {
    var g := EncodeGroup(b[0], b[1], b[2]);
    var rest := Encode(b[3..]);
    assert Encode(b) == g + rest;
    assert (g + rest) + t == g + (rest + t);
    DecodeGroup(b[0], b[1], b[2], rest + t);
  }

  /** Prepends the octets of `b` to a successful result. */
  function ConsAll(b: seq<byte>, r: Result<seq<byte>, DecodeError>): Result<seq<byte>, DecodeError> {
    match r
    case Success(out) => Success(b + out)
    case Failure(e) => Failure(e)
  }

  /** The RFC 4648 round trip: the decoder gives back every encoded octet string. */
  lemma DecodeEncode(b: seq<byte>)
    ensures Decode(Encode(b)) == Success(b)
  {
    DecodeEncodeThen(b, []);
    assert Encode(b) + [] == Encode(b);
    if |b| % 3 == 0 {
      assert b + [] == b;
    }
  }

  /** True of the characters the non-strict decoder skips. */
  predicate Skipped(c: char) {
    c != '=' && SymbolValue(c).None?
  }

  /** The text with every skipped character (line breaks, spaces, ...) removed. */
  function Strip(s: string): (r: string)
    ensures |r| <= |s|
    ensures forall i :: 0 <= i < |r| ==> !Skipped(r[i])
  {
    if s == [] then [] else (if Skipped(s[0]) then [] else [s[0]]) + Strip(s[1..])
  }

  lemma {:induction false} A2bStrip(s: string, pos: nat, left: nat, pads: nat)
    requires QuadState(pos, left)
    ensures A2b(s, pos, left, pads) == A2b(Strip(s), pos, left, pads)
    decreases |s|
  {
    if s != [] {
      var r := Strip(s[1..]);
      if Skipped(s[0]) {
        assert Strip(s) == r;
        A2bStrip(s[1..], pos, left, pads);
      } else {
        assert Strip(s) == [s[0]] + r;
        assert Strip(s)[1..] == r;
        if s[0] == '=' {
          var pads' := if pos >= 2 then pads + 1 else pads;
          A2bStrip(s[1..], pos, left, pads');
        } else {
          var v := SymbolValue(s[0]).value;
          if pos == 0 {
            A2bStrip(s[1..], 1, v, 0);
          } else if pos == 1 {
            A2bStrip(s[1..], 2, v % 16, 0);
          } else if pos == 2 {
            A2bStrip(s[1..], 3, v % 4, 0);
          } else {
            A2bStrip(s[1..], 0, 0, 0);
          }
        }
      }
    }
  }

  /** Line breaks and other characters outside the alphabet do not change
      what an ASCII text decodes to (a wrapped PEM body decodes like an
      unwrapped one). */
  lemma DecodeIgnoresSkipped(s: string)
    requires IsAscii(s)
    ensures Decode(s) == Decode(Strip(s))
  {
    A2bStrip(s, 0, 0, 0);
    StripAscii(s);
  }

  lemma {:induction false} StripAscii(s: string)
    requires IsAscii(s)
    ensures IsAscii(Strip(s))
  {
    if s != [] {
      StripAscii(s[1..]);
    }
  }
}

/** UTF-8 validity, which a transaction's type url must have, and what it means. */
module Utf8 {
  import opened Bytes

  predicate Continuation(s: seq<Byte>, i: nat, lo: Byte, hi: Byte) {
    i < |s| && lo <= s[i] <= hi
  }

  /** Well-formed UTF-8 (table 3-7 of the Unicode Standard). */
  predicate IsUtf8(s: seq<Byte>) {
    if s == [] then true
    else if s[0] < 0x80 then IsUtf8(s[1..])
    else if 0xC2 <= s[0] <= 0xDF then Continuation(s, 1, 0x80, 0xBF) && IsUtf8(s[2..])
    else if 0xE0 <= s[0] <= 0xEF then
      && Continuation(s, 1, if s[0] == 0xE0 then 0xA0 else 0x80, if s[0] == 0xED then 0x9F else 0xBF)
      && Continuation(s, 2, 0x80, 0xBF) && IsUtf8(s[3..])
    else if 0xF0 <= s[0] <= 0xF4 then
      && Continuation(s, 1, if s[0] == 0xF0 then 0x90 else 0x80, if s[0] == 0xF4 then 0x8F else 0xBF)
      && Continuation(s, 2, 0x80, 0xBF) && Continuation(s, 3, 0x80, 0xBF) && IsUtf8(s[4..])
    else false
  }

  /** Every code point but the surrogates. */
  type Scalar = c: int | 0 <= c < 0xD800 || 0xE000 <= c < 0x11_0000

  function EncodeScalar(c: Scalar): seq<Byte> {
    if c < 0x80 then [c]
    else if c < 0x800 then [0xC0 + c / 64, 0x80 + c % 64]
    else if c < 0x1_0000 then [0xE0 + c / 4096, 0x80 + c / 64 % 64, 0x80 + c % 64]
    else [0xF0 + c / 0x4_0000, 0x80 + c / 4096 % 64, 0x80 + c / 64 % 64, 0x80 + c % 64]
  }

  function EncodeScalars(cs: seq<Scalar>): seq<Byte> {
    if cs == [] then [] else EncodeScalar(cs[0]) + EncodeScalars(cs[1..])
  }

  lemma ThreeByte(a: nat, b: nat, d: nat)
    requires a < 16 && b < 64 && d < 64
    ensures var c := a * 4096 + b * 64 + d;
            c / 4096 == a && c / 64 % 64 == b && c % 64 == d
  {
    var c := a * 4096 + b * 64 + d;
    assert c / 64 == a * 64 + b;
  }

  lemma FourByte(e: nat, a: nat, b: nat, d: nat)
    requires e < 5 && a < 64 && b < 64 && d < 64
    ensures var c := e * 0x4_0000 + a * 4096 + b * 64 + d;
            c / 0x4_0000 == e && c / 4096 % 64 == a && c / 64 % 64 == b && c % 64 == d
  {
    var c := e * 0x4_0000 + a * 4096 + b * 64 + d;
    assert c / 4096 == e * 64 + a;
    assert c / 64 == e * 4096 + a * 64 + b;
    assert (e * 4096 + a * 64 + b) % 64 == b;
  }

  /** The first character of a valid string. */
  lemma FirstScalar(s: seq<Byte>) returns (c: Scalar, n: nat)
    requires s != [] && IsUtf8(s)
    ensures 1 <= n <= |s| && s[..n] == EncodeScalar(c) && IsUtf8(s[n..])
  {
    if s[0] < 0x80 {
      c, n := s[0], 1;
    } else if s[0] <= 0xDF {
      var a: int, b: int := s[0] - 0xC0, s[1] - 0x80;
      c, n := a * 64 + b, 2;
    } else if s[0] <= 0xEF {
      var a: int, b: int, d: int := s[0] - 0xE0, s[1] - 0x80, s[2] - 0x80;
      ThreeByte(a, b, d);
      c, n := a * 4096 + b * 64 + d, 3;
    } else {
      var e: int, a: int, b: int, d: int := s[0] - 0xF0, s[1] - 0x80, s[2] - 0x80, s[3] - 0x80;
      FourByte(e, a, b, d);
      c, n := e * 0x4_0000 + a * 4096 + b * 64 + d, 4;
    }
  }

  lemma EncodedScalarIsUtf8(c: Scalar, tail: seq<Byte>)
    requires IsUtf8(tail)
    ensures IsUtf8(EncodeScalar(c) + tail)
  {
    var s := EncodeScalar(c) + tail;
    assert s[|EncodeScalar(c)|..] == tail;
    if 0x800 <= c < 0x1_0000 {
      assert c / 4096 == 0 ==> c / 64 % 64 >= 0x20;
      assert c / 4096 == 13 ==> c / 64 % 64 < 0x20;
    } else if c >= 0x1_0000 {
      assert c / 0x4_0000 == 0 ==> c / 4096 % 64 >= 0x10;
      assert c / 0x4_0000 == 4 ==> c / 4096 % 64 < 0x10;
    }
  }

  lemma {:induction false} EncodedIsUtf8(cs: seq<Scalar>)
    ensures IsUtf8(EncodeScalars(cs))
  {
    hide IsUtf8, EncodeScalar;
    if cs == [] {
      EmptyIsUtf8();
    } else {
      EncodedIsUtf8(cs[1..]);
      EncodedScalarIsUtf8(cs[0], EncodeScalars(cs[1..]));
    }
  }

  lemma EmptyIsUtf8()
    ensures IsUtf8([])
  {
  }

  lemma {:induction false} Utf8Decodes(s: seq<Byte>) returns (cs: seq<Scalar>)
    requires IsUtf8(s)
    ensures EncodeScalars(cs) == s
    decreases |s|
  {
    hide IsUtf8, EncodeScalar;
    cs := [];
    if s != [] {
      var c, n := FirstScalar(s);
      var rest := Utf8Decodes(s[n..]);
      cs := [c] + rest;
      assert cs[1..] == rest && s == s[..n] + s[n..];
    }
  }

  /** Valid means: the encoding of some sequence of scalar values. */
  lemma {:induction false} IsUtf8Iff(s: seq<Byte>)
    ensures IsUtf8(s) <==> exists cs: seq<Scalar> :: EncodeScalars(cs) == s
  {
    hide IsUtf8, EncodeScalars;
    if IsUtf8(s) {
      var cs := Utf8Decodes(s);
    }
    forall cs: seq<Scalar> | EncodeScalars(cs) == s ensures IsUtf8(s) {
      EncodedIsUtf8(cs);
    }
  }
}

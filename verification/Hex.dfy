/** Hex text over ASCII strings, as the transaction modules read and write it. */
module Hex {
  import opened Bytes

  function Digit(c: char): (d: Option<nat>)
    ensures d.Some? ==> d.value < 16
  {
    if '0' <= c <= '9' then Some(c as int - '0' as int)
    else if 'a' <= c <= 'f' then Some(c as int - 'a' as int + 10)
    else if 'A' <= c <= 'F' then Some(c as int - 'A' as int + 10)
    else None
  }

  function LowerDigit(d: nat): char
    requires d < 16
  {
    "0123456789abcdef"[d]
  }

  /** ASCII lower-casing of one character. */
  function LowerChar(c: char): char {
    if 'A' <= c <= 'Z' then (c as int + 32) as char else c
  }

  function Lower(s: string): (t: string)
    ensures |t| == |s| && forall i :: 0 <= i < |s| ==> t[i] == LowerChar(s[i])
  {
    seq(|s|, i requires 0 <= i < |s| => LowerChar(s[i]))
  }

  /** The 26 letters fold in pairs; no other character moves. */
  lemma LowerFolds(c: char, i: nat)
    ensures i < 26 ==> LowerChar(('A' as int + i) as char) == LowerChar(('a' as int + i) as char) == ('a' as int + i) as char
    ensures !(0 <= c as int - 'A' as int < 26) ==> LowerChar(c) == c
  {
  }

  /** `eq_ignore_ascii_case`. */
  predicate SameIgnoringCase(a: string, b: string) {
    Lower(a) == Lower(b)
  }

  /** Every character is a hex digit. */
  predicate Plain(s: string) {
    forall i :: 0 <= i < |s| ==> Digit(s[i]).Some?
  }

  /** One byte of two characters. The integer parser underneath takes a leading `+`. */
  function Pair(a: char, b: char): Option<Byte> {
    var low :- Digit(b);
    if a == '+' then Some(low)
    else
      var high :- Digit(a);
      Some(high * 16 + low)
  }

  function DecodePairs(s: string): Option<seq<Byte>> {
    if s == [] then Some([])
    else if |s| == 1 then None
    else
      var first :- Pair(s[0], s[1]);
      var rest :- DecodePairs(s[2..]);
      Some([first] + rest)
  }

  /** High digit, then low. */
  function EncodeByte(b: Byte): (s: string)
    ensures |s| == 2
  {
    [LowerDigit(b / 16), LowerDigit(b % 16)]
  }

  /** `hex_lower`: two lower-case digits a byte. */
  function Encode(bytes: seq<Byte>): (s: string)
    ensures |s| == 2 * |bytes|
  {
    if bytes == [] then [] else EncodeByte(bytes[0]) + Encode(bytes[1..])
  }

  predicate IsSpace(c: char) {
    c == ' ' || c == '\t' || c == '\n' || c == '\r' || c as int == 11 || c as int == 12
  }

  function TrimStart(s: string): string {
    if s != [] && IsSpace(s[0]) then TrimStart(s[1..]) else s
  }

  function TrimEnd(s: string): string {
    if s != [] && IsSpace(s[|s| - 1]) then TrimEnd(s[..|s| - 1]) else s
  }

  function Trim(s: string): string { TrimEnd(TrimStart(s)) }

  /** `decode_hex`: trimmed, even length, two digits a byte. */
  function Decode(raw: string): Result<seq<Byte>> {
    match DecodePairs(Trim(raw))
    case Some(bytes) => Ok(bytes)
    case None => Err(InvalidField)
  }

  lemma LowerDigitInverse(d: nat)
    requires d < 16
    ensures Digit(LowerDigit(d)) == Some(d) && LowerChar(LowerDigit(d)) == LowerDigit(d)
    ensures !IsSpace(LowerDigit(d)) && LowerDigit(d) != '+'
  {
  }

  lemma DigitInverse(c: char)
    requires Digit(c).Some?
    ensures LowerDigit(Digit(c).value) == LowerChar(c) && c != '+' && !IsSpace(c)
  {
    var lower := "0123456789abcdef";
    assert lower[10] == 'a' && lower[11] == 'b' && lower[12] == 'c';
    assert lower[13] == 'd' && lower[14] == 'e' && lower[15] == 'f';
  }

  lemma EncodeByteInverse(b: Byte)
    ensures var s := EncodeByte(b);
            Pair(s[0], s[1]) == Some(b) && Plain(s) && Lower(s) == s
  {
    LowerDigitInverse(b / 16);
    LowerDigitInverse(b % 16);
    hide Digit, LowerDigit, LowerChar;
  }

  lemma {:induction false} DecodeEncode(bytes: seq<Byte>)
    ensures DecodePairs(Encode(bytes)) == Some(bytes)
    ensures Plain(Encode(bytes)) && Lower(Encode(bytes)) == Encode(bytes)
  {
    hide Digit, LowerChar, EncodeByte, Pair;
    if bytes != [] {
      DecodeEncode(bytes[1..]);
      EncodeByteInverse(bytes[0]);
      var s, head, tail := Encode(bytes), EncodeByte(bytes[0]), Encode(bytes[1..]);
      assert s[2..] == tail && s[0] == head[0] && s[1] == head[1];
      PlainConcat(head, tail);
      assert bytes == [bytes[0]] + bytes[1..];
    }
  }

  lemma PlainConcat(a: string, b: string)
    requires Plain(a) && Plain(b)
    ensures Plain(a + b) && Lower(a + b) == Lower(a) + Lower(b)
  {
    hide Digit, LowerChar;
  }

  lemma {:induction false} EncodeDecode(s: string)
    requires Plain(s) && |s| % 2 == 0
    ensures DecodePairs(s).Some? && Encode(DecodePairs(s).value) == Lower(s)
  {
    hide Digit, LowerDigit, LowerChar;
    if s != [] {
      EncodeDecode(s[2..]);
      DigitInverse(s[0]);
      DigitInverse(s[1]);
      var bytes := DecodePairs(s).value;
      assert bytes[0] == Digit(s[0]).value * 16 + Digit(s[1]).value;
      assert bytes[0] / 16 == Digit(s[0]).value && bytes[0] % 16 == Digit(s[1]).value;
      assert bytes[1..] == DecodePairs(s[2..]).value;
      assert EncodeByte(bytes[0]) == [LowerChar(s[0]), LowerChar(s[1])];
      assert Lower(s) == [LowerChar(s[0]), LowerChar(s[1])] + Lower(s[2..]);
    }
  }

  lemma {:induction false} DecodeLength(s: string)
    ensures DecodePairs(s).Some? ==> |s| == 2 * |DecodePairs(s).value|
  {
    if |s| >= 2 { DecodeLength(s[2..]); }
  }

  lemma {:induction false} EncodeConcat(a: seq<Byte>, b: seq<Byte>)
    ensures Encode(a + b) == Encode(a) + Encode(b)
  {
    hide EncodeByte;
    if a == [] {
      assert a + b == b;
    } else {
      EncodeConcat(a[1..], b);
      assert (a + b)[1..] == a[1..] + b;
      Regroup(EncodeByte(a[0]), Encode(a[1..]), Encode(b));
    }
  }

  lemma Regroup(a: string, b: string, c: string)
    ensures a + (b + c) == a + b + c
  {
  }

  lemma EncodeOne(b: Byte)
    ensures Encode([b]) == EncodeByte(b)
  {
    assert [b][1..] == [];
  }

  lemma EncodeEmpty()
    ensures Encode([]) == ""
  {
  }

  /** A byte run shows up as a text run of the hex. */
  lemma EncodeRun(bytes: seq<Byte>, run: seq<Byte>)
    requires Contains(bytes, run)
    ensures Contains(Encode(bytes), Encode(run))
  {
    var at :| 0 <= at <= |bytes| && RunAt(bytes, run, at);
    var before, after := bytes[..at], bytes[at + |run|..];
    assert bytes == before + run + after;
    EncodeConcat(before + run, after);
    EncodeConcat(before, run);
    ContainsMiddle(Encode(before), Encode(run), Encode(after));
  }

  lemma {:induction false} TrimStartIsSuffix(s: string) returns (n: nat)
    ensures n <= |s| && TrimStart(s) == s[n..]
  {
    n := 0;
    if s != [] && IsSpace(s[0]) {
      n := TrimStartIsSuffix(s[1..]);
      n := n + 1;
    }
  }

  lemma {:induction false} TrimEndIsPrefix(s: string) returns (n: nat)
    ensures n <= |s| && TrimEnd(s) == s[..n]
  {
    n := |s|;
    if s != [] && IsSpace(s[|s| - 1]) {
      n := TrimEndIsPrefix(s[..|s| - 1]);
      assert s[..|s| - 1][..n] == s[..n];
    }
  }

  lemma LowerTrimIsRun(s: string)
    ensures Contains(Lower(s), Lower(Trim(s)))
  {
    var n := TrimStartIsSuffix(s);
    var m := TrimEndIsPrefix(s[n..]);
    assert Trim(s) == s[n..n + m];
    assert Lower(s)[n..n + m] == Lower(s[n..n + m]);
    assert RunAt(Lower(s), Lower(Trim(s)), n);
  }

  /** ASCII space: tab, line feed, vertical tab, form feed, carriage return and blank. */
  predicate Blank(c: char) { c as int in {9, 10, 11, 12, 13, 32} }

  predicate AllSpace(s: string) {
    forall i :: 0 <= i < |s| ==> Blank(s[i])
  }

  lemma {:induction false} TrimStartStrips(a: string, s: string)
    requires AllSpace(a) && (s != [] ==> !IsSpace(s[0]))
    ensures TrimStart(a + s) == s
  {
    if a == [] {
      assert a + s == s;
    } else {
      TrimStartStrips(a[1..], s);
      assert (a + s)[1..] == a[1..] + s;
    }
  }

  lemma {:induction false} TrimEndStrips(s: string, b: string)
    requires AllSpace(b) && (s != [] ==> !IsSpace(s[|s| - 1]))
    ensures TrimEnd(s + b) == s
  {
    if b == [] {
      assert s + b == s;
    } else {
      TrimEndStrips(s, b[..|b| - 1]);
      assert (s + b)[..|s + b| - 1] == s + b[..|b| - 1];
    }
  }

  /** Trimming removes the surrounding space, all of it and nothing else. */
  lemma {:induction false} TrimStrips(a: string, s: string, b: string)
    requires AllSpace(a) && AllSpace(b)
    requires s != [] ==> !Blank(s[0]) && !Blank(s[|s| - 1])
    ensures Trim(a + s + b) == s
  {
    hide TrimStart, TrimEnd;
    if s != [] {
      assert !IsSpace(s[0]) && !IsSpace(s[|s| - 1]);
    }
    hide IsSpace;
    if s == [] {
      assert a + s + b == a + b + s;
      TrimStartStrips(a + b, s);
      TrimEndStrips(s, s);
      assert s + s == s;
    } else {
      assert a + s + b == a + (s + b);
      TrimStartStrips(a, s + b);
      TrimEndStrips(s, b);
    }
  }

  /** Text whose first and last characters are not spaces is left alone. */
  lemma TrimPlain(s: string)
    requires Plain(s)
    ensures Trim(s) == s
  {
    if s != [] {
      DigitInverse(s[0]);
      DigitInverse(s[|s| - 1]);
    }
  }

  lemma {:induction false} LowerTrimStart(s: string)
    ensures TrimStart(Lower(s)) == Lower(TrimStart(s))
  {
    if s != [] && IsSpace(s[0]) {
      LowerTrimStart(s[1..]);
      assert Lower(s)[1..] == Lower(s[1..]);
    }
  }

  lemma {:induction false} LowerTrimEnd(s: string)
    ensures TrimEnd(Lower(s)) == Lower(TrimEnd(s))
  {
    if s != [] && IsSpace(s[|s| - 1]) {
      LowerTrimEnd(s[..|s| - 1]);
      assert Lower(s)[..|s| - 1] == Lower(s[..|s| - 1]);
    }
  }

  lemma LowerTrim(s: string)
    ensures Trim(Lower(s)) == Lower(Trim(s))
  {
    LowerTrimStart(s);
    LowerTrimEnd(TrimStart(s));
  }

  /** Digits read the same in either case. */
  lemma LowerReads(s: string)
    requires Plain(s) && |s| % 2 == 0
    ensures Plain(Lower(s)) && DecodePairs(Lower(s)) == DecodePairs(s)
  {
    EncodeDecode(s);
    DecodeEncode(DecodePairs(s).value);
  }

  /** Rendered bytes are read back unchanged by the trimming decoder. */
  lemma Survives(bytes: seq<Byte>)
    ensures var s := Encode(bytes);
            Plain(s) && Trim(s) == s && Decode(s) == Ok(bytes)
  {
    hide Encode;
    DecodeEncode(bytes);
    TrimPlain(Encode(bytes));
  }
}

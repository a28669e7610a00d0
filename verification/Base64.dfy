/** The base64 encoder behind Solana's `sendTransaction`, and its decoder. */
module Base64 {
  import opened Bytes

  const UPPER := "ABCDEFGHIJKLMNOPQRSTUVWXYZ"
  const LOWER := "abcdefghijklmnopqrstuvwxyz"
  const ALPHABET := UPPER + LOWER + "0123456789+/"

  function Letter(i: nat): char
    requires i < 64
  {
    ALPHABET[i]
  }

  function Triple(b0: Byte, b1: Byte, b2: Byte): (n: nat)
    ensures n < 0x100_0000
  {
    b0 * 0x1_0000 + b1 * 0x100 + b2
  }

  /** One chunk of one to three bytes, padded to four characters. */
  function EncodeChunk(chunk: seq<Byte>): (s: string)
    requires 1 <= |chunk| <= 3
    ensures |s| == 4
  {
    var b1 := if |chunk| > 1 then chunk[1] else 0;
    var b2 := if |chunk| > 2 then chunk[2] else 0;
    var triple := Triple(chunk[0], b1, b2);
    [Letter(triple / 0x4_0000 % 64), Letter(triple / 0x1000 % 64),
     if |chunk| > 1 then Letter(triple / 64 % 64) else '=',
     if |chunk| > 2 then Letter(triple % 64) else '=']
  }

  function Encode(bytes: seq<Byte>): string {
    if bytes == [] then ""
    else if |bytes| <= 3 then EncodeChunk(bytes)
    else EncodeChunk(bytes[..3]) + Encode(bytes[3..])
  }

  /** The loop both copies of the encoder share. */
  method EncodeBytes(bytes: seq<Byte>) returns (out: string)
    ensures out == Encode(bytes)
  {
    hide EncodeChunk;
    out := "";
    var at := 0;
    while at < |bytes|
      invariant 0 <= at <= |bytes|
      invariant out + Encode(bytes[at..]) == Encode(bytes)
    {
      var end := if at + 3 <= |bytes| then at + 3 else |bytes|;
      var chunk := bytes[at..end];
      ghost var rest := bytes[at..];
      assert rest[..end - at] == chunk && rest[end - at..] == bytes[end..];
      ChunkFirst(rest);
      assert out + (EncodeChunk(chunk) + Encode(bytes[end..])) == out + EncodeChunk(chunk) + Encode(bytes[end..]);
      out := out + EncodeChunk(chunk);
      at := end;
    }
    assert bytes[at..] == [];
  }

  lemma ChunkFirst(bytes: seq<Byte>)
    requires bytes != []
    ensures var n: nat := if 3 <= |bytes| then 3 else |bytes|;
            Encode(bytes) == EncodeChunk(bytes[..n]) + Encode(bytes[n..])
  {
    hide EncodeChunk;
    if |bytes| <= 3 {
      assert bytes[..|bytes|] == bytes && bytes[|bytes|..] == [];
      assert Encode(bytes) == EncodeChunk(bytes) + "";
    }
  }

  // ----- the decoder (section 4 of RFC 4648)

  function Index(c: char): (i: Option<nat>)
    ensures i.Some? ==> i.value < 64
  {
    if 'A' <= c <= 'Z' then Some(c as int - 'A' as int)
    else if 'a' <= c <= 'z' then Some(c as int - 'a' as int + 26)
    else if '0' <= c <= '9' then Some(c as int - '0' as int + 52)
    else if c == '+' then Some(62)
    else if c == '/' then Some(63)
    else None
  }

  /** Four characters; padding is only for the last group, over zero bits. */
  function DecodeGroup(s: string, last: bool): Option<seq<Byte>>
    requires |s| == 4
  {
    var a :- Index(s[0]);
    var b :- Index(s[1]);
    if last && s[2] == '=' && s[3] == '=' then
      if b % 16 == 0 then Some([a * 4 + b / 16]) else None
    else
      var c :- Index(s[2]);
      if last && s[3] == '=' then
        if c % 4 == 0 then Some([a * 4 + b / 16, b % 16 * 16 + c / 4]) else None
      else
        var d :- Index(s[3]);
        Some([a * 4 + b / 16, b % 16 * 16 + c / 4, c % 4 * 64 + d])
  }

  function Decode(s: string): Option<seq<Byte>> {
    if s == "" then Some([])
    else if |s| < 4 then None
    else
      var first :- DecodeGroup(s[..4], |s| == 4);
      var rest :- Decode(s[4..]);
      Some(first + rest)
  }

  lemma TableUpper(i: nat)
    requires i < 26
    ensures ALPHABET[i] as int == 'A' as int + i
  {
    assert ALPHABET[i] == UPPER[i];
  }

  lemma TableLower(i: nat)
    requires 26 <= i < 52
    ensures ALPHABET[i] as int == 'a' as int + i - 26
  {
  }

  lemma TableRest(i: nat)
    requires 52 <= i < 64
    ensures ALPHABET[i] as int == if i < 62 then '0' as int + i - 52 else if i == 62 then '+' as int else '/' as int
  {
  }

  lemma IndexOfLetter(i: nat)
    requires i < 64
    ensures Index(Letter(i)) == Some(i) && Letter(i) != '='
  {
    if i < 26 { TableUpper(i); } else if i < 52 { TableLower(i); } else { TableRest(i); }
  }

  lemma LetterOfIndex(c: char)
    requires Index(c).Some?
    ensures Letter(Index(c).value) == c
  {
    IndexOfLetter(Index(c).value);
    var i := Index(c).value;
    if i < 26 { TableUpper(i); } else if i < 52 { TableLower(i); } else { TableRest(i); }
  }

  lemma SmallMultiple(k: int, d: int, x: int)
    requires k * d == x && -d < x < d
    ensures k == 0
  {
  }

  lemma Quotient(n: nat, d: nat, q: nat, r: nat)
    requires r < d && n == q * d + r
    ensures n / d == q && n % d == r
  {
    var k, m := n / d, n % d;
    assert n == k * d + m && m < d;
    assert (k - q) * d == k * d - q * d;
    SmallMultiple(k - q, d, r - m);
  }

  /** The four base-64 digits of a 24-bit number. */
  lemma Digits(t: nat, a: nat, b: nat, c: nat, d: nat)
    requires a < 64 && b < 64 && c < 64 && d < 64
    requires t == a * 0x4_0000 + b * 0x1000 + c * 64 + d
    ensures t / 0x4_0000 % 64 == a && t / 0x1000 % 64 == b && t / 64 % 64 == c && t % 64 == d
  {
    Quotient(t, 0x4_0000, a, b * 0x1000 + c * 64 + d);
    Quotient(t, 0x1000, a * 64 + b, c * 64 + d);
    Quotient(a * 64 + b, 64, a, b);
    Quotient(t, 64, a * 0x1000 + b * 64 + c, d);
    Quotient(a * 0x1000 + b * 64 + c, 64, a * 64 + b, c);
  }

  /** Splitting three bytes into sextets and back. */
  lemma Sextets(b0: Byte, b1: Byte, b2: Byte)
    ensures var t := Triple(b0, b1, b2);
            var a, b, c, d := t / 0x4_0000 % 64, t / 0x1000 % 64, t / 64 % 64, t % 64;
            && b0 == a * 4 + b / 16 && b1 == b % 16 * 16 + c / 4 && b2 == c % 4 * 64 + d
            && (b1 == b2 == 0 ==> b % 16 == 0) && (b2 == 0 ==> c % 4 == 0)
  {
    var a, p, q, r, u, d := b0 / 4, b0 % 4, b1 / 16, b1 % 16, b2 / 64, b2 % 64;
    Digits(Triple(b0, b1, b2), a, p * 16 + q, r * 4 + u, d);
    Quotient(p * 16 + q, 16, p, q);
    Quotient(r * 4 + u, 4, r, u);
  }

  lemma SextetsBack(a: nat, b: nat, c: nat, d: nat)
    requires a < 64 && b < 64 && c < 64 && d < 64
    ensures var b0, b1, b2 := a * 4 + b / 16, b % 16 * 16 + c / 4, c % 4 * 64 + d;
            var t := Triple(b0, b1, b2);
            t / 0x4_0000 % 64 == a && t / 0x1000 % 64 == b && t / 64 % 64 == c && t % 64 == d
  {
    Digits(Triple(a * 4 + b / 16, b % 16 * 16 + c / 4, c % 4 * 64 + d), a, b, c, d);
  }

  lemma GroupInverts(chunk: seq<Byte>, last: bool)
    requires 1 <= |chunk| <= 3 && (|chunk| < 3 ==> last)
    ensures DecodeGroup(EncodeChunk(chunk), last) == Some(chunk)
  {
    hide Letter, Index, EncodeChunk;
    var a, b, c, d := ChunkLetters(chunk);
    if |chunk| == 1 {
      assert chunk == [chunk[0]];
    } else if |chunk| == 2 {
      assert chunk == [chunk[0], chunk[1]];
    } else {
      assert chunk == [chunk[0], chunk[1], chunk[2]];
    }
  }

  /** The four digits of a chunk: what they spell, and which letters show them. */
  lemma ChunkLetters(chunk: seq<Byte>) returns (a: nat, b: nat, c: nat, d: nat)
    requires 1 <= |chunk| <= 3
    ensures a < 64 && b < 64 && c < 64 && d < 64 && chunk[0] == a * 4 + b / 16
    ensures if |chunk| > 1 then chunk[1] == b % 16 * 16 + c / 4 else b % 16 == 0
    ensures if |chunk| > 2 then chunk[2] == c % 4 * 64 + d else c % 4 == 0
    ensures var s := EncodeChunk(chunk);
            && Index(s[0]) == Some(a) && Index(s[1]) == Some(b)
            && (if |chunk| > 1 then s[2] != '=' && Index(s[2]) == Some(c) else s[2] == '=')
            && (if |chunk| > 2 then s[3] != '=' && Index(s[3]) == Some(d) else s[3] == '=')
  {
    hide Triple, Letter, Index;
    var b1 := if |chunk| > 1 then chunk[1] else 0;
    var b2 := if |chunk| > 2 then chunk[2] else 0;
    var t := Triple(chunk[0], b1, b2);
    Sextets(chunk[0], b1, b2);
    a, b, c, d := t / 0x4_0000 % 64, t / 0x1000 % 64, t / 64 % 64, t % 64;
    IndexOfLetter(a);
    IndexOfLetter(b);
    IndexOfLetter(c);
    IndexOfLetter(d);
  }

  /** Decoding an encoding returns the bytes, whatever the padding; the length is exact. */
  lemma {:induction false} DecodeEncode(bytes: seq<Byte>)
    ensures Decode(Encode(bytes)) == Some(bytes)
    ensures |Encode(bytes)| == 4 * ((|bytes| + 2) / 3)
  {
    hide EncodeChunk, DecodeGroup, Decode, Encode;
    EncodedLength(bytes);
    if bytes == [] {
      EmptyInverts();
    } else {
      var n := if 3 <= |bytes| then 3 else |bytes|;
      DecodeEncode(bytes[n..]);
      ChunkFirst(bytes);
      EncodedLength(bytes[n..]);
      GroupInverts(bytes[..n], Encode(bytes[n..]) == "");
      GroupFirst(EncodeChunk(bytes[..n]), Encode(bytes[n..]), bytes[..n], bytes[n..]);
      assert bytes == bytes[..n] + bytes[n..];
    }
  }

  lemma EmptyInverts()
    ensures Decode(Encode([])) == Some([])
  {
  }

  lemma GroupFirst(group: string, tail: string, chunk: seq<Byte>, rest: seq<Byte>)
    requires |group| == 4 && DecodeGroup(group, tail == "") == Some(chunk) && Decode(tail) == Some(rest)
    ensures Decode(group + tail) == Some(chunk + rest)
  {
    hide DecodeGroup;
    assert (group + tail)[..4] == group && (group + tail)[4..] == tail;
  }

  lemma {:induction false} EncodedLength(bytes: seq<Byte>)
    ensures |Encode(bytes)| == 4 * ((|bytes| + 2) / 3)
  {
    hide EncodeChunk;
    if |bytes| > 3 { EncodedLength(bytes[3..]); }
  }

  lemma GroupIsCanonical(s: string, last: bool)
    requires |s| == 4 && DecodeGroup(s, last).Some?
    ensures var chunk := DecodeGroup(s, last).value;
            1 <= |chunk| <= 3 && (|chunk| < 3 ==> last) && EncodeChunk(chunk) == s
  {
    hide Triple, Letter, Index;
    var a, b := Index(s[0]).value, Index(s[1]).value;
    var c := if Index(s[2]).Some? && !(last && s[2] == '=' && s[3] == '=') then Index(s[2]).value else 0;
    var d := if Index(s[3]).Some? && !(last && s[3] == '=') then Index(s[3]).value else 0;
    SextetsBack(a, b, c, d);
    LetterOfIndex(s[0]);
    LetterOfIndex(s[1]);
    if Index(s[2]).Some? { LetterOfIndex(s[2]); }
    if Index(s[3]).Some? { LetterOfIndex(s[3]); }
  }

  /** The decoder accepts only what the encoder writes. */
  lemma {:induction false} EncodeDecode(s: string)
    requires Decode(s).Some?
    ensures Encode(Decode(s).value) == s
  {
    hide EncodeChunk, DecodeGroup;
    if s != "" {
      EncodeDecode(s[4..]);
      GroupIsCanonical(s[..4], |s| == 4);
      var first, rest := DecodeGroup(s[..4], |s| == 4).value, Decode(s[4..]).value;
      assert s == s[..4] + s[4..];
      if |s| == 4 {
        assert first + rest == first;
      } else {
        ChunkFirst(first + rest);
        assert (first + rest)[..3] == first && (first + rest)[3..] == rest;
      }
    }
  }
}

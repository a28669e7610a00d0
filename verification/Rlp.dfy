/** The RLP encoder of `rlp.rs`, and a decoder that inverts it. */
module Rlp {
  import opened Bytes

  // ----- the encoder

  /** Drop leading zero bytes. */
  function StripZeros(s: seq<Byte>): (r: seq<Byte>)
    ensures |r| <= |s|
  {
    if s != [] && s[0] == 0 then StripZeros(s[1..]) else s
  }

  /** The length prefix; `offset` is 0x80 for a string and 0xc0 for a list. */
  function EncodeLength(len: nat, offset: Byte): (s: seq<Byte>)
    requires offset <= 0xc0
    ensures 1 <= |s| <= 9
  {
    if len <= 55 then [offset + len]
    else
      var significant := StripZeros(ToBigEndian(len, 8));
      [offset + 55 + |significant|] + significant
  }

  function EncodeBytes(bytes: seq<Byte>): seq<Byte> {
    if |bytes| == 1 && bytes[0] < 0x80 then bytes
    else EncodeLength(|bytes|, 0x80) + bytes
  }

  function Concat(items: seq<seq<Byte>>): seq<Byte> {
    if items == [] then [] else items[0] + Concat(items[1..])
  }

  /** Takes items that are already encoded. */
  function EncodeList(items: seq<seq<Byte>>): seq<Byte> {
    EncodeLength(|Concat(items)|, 0xc0) + Concat(items)
  }

  function EncodeUint(value: nat): seq<Byte> {
    EncodeBytes(StripZeros(ToBigEndian(value, 16)))
  }

  function EncodeUintBytes(bytes: seq<Byte>): seq<Byte> {
    EncodeBytes(StripZeros(bytes))
  }

  // ----- the decoder (Appendix B of the Ethereum Yellow Paper)

  datatype Header = Header(size: nat, payload: nat)

  /** Read a length prefix; only the shortest form of each length is accepted. */
  function DecodeHeader(s: seq<Byte>, offset: Byte): (h: Option<Header>)
    requires offset <= 0xc0
    ensures h.Some? ==> 1 <= h.value.size <= |s|
  {
    if s == [] || s[0] < offset || s[0] > offset + 63 then None
    else if s[0] <= offset + 55 then Some(Header(1, s[0] - offset))
    else
      var size := 1 + (s[0] - offset - 55);
      if |s| < size || s[1] == 0 || BigEndian(s[1..size]) <= 55 then None
      else Some(Header(size, BigEndian(s[1..size])))
  }

  function DecodeBytes(s: seq<Byte>): (r: Option<Taken<seq<Byte>>>)
    ensures r.Some? ==> |r.value.rest| < |s|
  {
    if s == [] then None
    else if s[0] < 0x80 then Some(Taken([s[0]], s[1..]))
    else
      var h :- DecodeHeader(s, 0x80);
      var end := h.size + h.payload;
      if |s| < end || (h.payload == 1 && s[h.size] < 0x80) then None
      else Some(Taken(s[h.size..end], s[end..]))
  }

  /** All of `s` as consecutive strings. */
  function DecodeItems(s: seq<Byte>): Option<seq<seq<Byte>>>
    decreases |s|
  {
    if s == [] then Some([])
    else
      var first :- DecodeBytes(s);
      var rest :- DecodeItems(first.rest);
      Some([first.value] + rest)
  }

  /** A list of strings. */
  function DecodeList(s: seq<Byte>): Option<Taken<seq<seq<Byte>>>> {
    var h :- DecodeHeader(s, 0xc0);
    var end := h.size + h.payload;
    if |s| < end then None
    else
      var items :- DecodeItems(s[h.size..end]);
      Some(Taken(items, s[end..]))
  }

  // ----- integers without leading zeros

  predicate NoLeadingZero(s: seq<Byte>) { s == [] || s[0] != 0 }

  lemma {:induction false} StripKeepsValue(s: seq<Byte>)
    ensures BigEndian(StripZeros(s)) == BigEndian(s) && NoLeadingZero(StripZeros(s))
  {
    if s != [] && s[0] == 0 {
      StripKeepsValue(s[1..]);
      var zero: seq<Byte> := [0];
      BigEndianConcat(zero, s[1..]);
      assert s == zero + s[1..];
      assert BigEndian(zero) == 0 by { assert zero[..0] == []; }
    }
  }

  lemma {:induction false} LeadingByteCounts(s: seq<Byte>)
    requires s != [] && s[0] != 0
    ensures BigEndian(s) >= 1
  {
    if |s| > 1 { LeadingByteCounts(s[..|s| - 1]); }
  }

  /** The stripped form is the only one of its value. */
  lemma {:induction false} MinimalIsUnique(a: seq<Byte>, b: seq<Byte>)
    requires NoLeadingZero(a) && NoLeadingZero(b) && BigEndian(a) == BigEndian(b)
    ensures a == b
  {
    if a == [] || b == [] {
      if a != [] { LeadingByteCounts(a); }
      if b != [] { LeadingByteCounts(b); }
    } else {
      var x, y := a[..|a| - 1], b[..|b| - 1];
      assert BigEndian(x) == BigEndian(a) / 256 == BigEndian(y);
      assert a[|a| - 1] == BigEndian(a) % 256 == b[|b| - 1];
      MinimalIsUnique(x, y);
      assert a == x + [a[|a| - 1]] && b == y + [b[|b| - 1]];
    }
  }

  lemma PowEight()
    ensures Pow(256, 8) == U64_MODULUS
  {
    assert Pow(256, 4) == 0x1_0000_0000;
    PowAdd(256, 4, 4);
  }

  lemma PowSixteen()
    ensures Pow(256, 16) == U128_MODULUS
  {
    PowEight();
    PowAdd(256, 8, 8);
  }

  lemma StrippedUint(value: nat)
    requires value < U128_MODULUS
    ensures BigEndian(StripZeros(ToBigEndian(value, 16))) == value
  {
    PowSixteen();
    BigEndianRoundTrip(value, 16);
    StripKeepsValue(ToBigEndian(value, 16));
  }

  /** Stripping a fixed width of bytes loses nothing. */
  lemma StripIsInjective(a: seq<Byte>, b: seq<Byte>)
    requires |a| == |b| && StripZeros(a) == StripZeros(b)
    ensures a == b
  {
    StripKeepsValue(a);
    StripKeepsValue(b);
    BigEndianInverse(a);
    BigEndianInverse(b);
  }

  // ----- unique decodability

  lemma LongLength(len: nat)
    requires 55 < len < U64_MODULUS
    ensures var significant := StripZeros(ToBigEndian(len, 8));
            1 <= |significant| <= 8 && significant[0] != 0 && BigEndian(significant) == len
  {
    PowEight();
    BigEndianRoundTrip(len, 8);
    StripKeepsValue(ToBigEndian(len, 8));
    assert BigEndian([]) == 0;
  }

  lemma HeaderRoundTrip(len: nat, offset: Byte, tail: seq<Byte>)
    requires len < U64_MODULUS && offset <= 0xc0
    ensures DecodeHeader(EncodeLength(len, offset) + tail, offset) ==
            Some(Header(|EncodeLength(len, offset)|, len))
  {
    hide StripZeros, ToBigEndian, BigEndian;
    var s := EncodeLength(len, offset) + tail;
    if len > 55 {
      LongLength(len);
      var significant := StripZeros(ToBigEndian(len, 8));
      assert s[1..1 + |significant|] == significant;
    }
  }

  lemma HeaderIsCanonical(s: seq<Byte>, offset: Byte)
    requires offset <= 0xc0
    ensures match DecodeHeader(s, offset)
            case None => true
            case Some(h) => h.payload < U64_MODULUS && s[..h.size] == EncodeLength(h.payload, offset)
  {
    hide StripZeros, ToBigEndian, BigEndian;
    var h := DecodeHeader(s, offset);
    if h.Some? && h.value.size > 1 {
      var significant := s[1..h.value.size];
      assert h.value.payload < U64_MODULUS by {
        BigEndianInverse(significant);
        PowEight();
        PowGrows(256, |significant|, 8);
      }
      LongLength(h.value.payload);
      MinimalIsUnique(significant, StripZeros(ToBigEndian(h.value.payload, 8)));
      assert s[..h.value.size] == [s[0]] + significant;
    }
  }

  lemma {:induction false} PowGrows(base: nat, d: nat, e: nat)
    requires base > 0 && d <= e
    ensures Pow(base, d) <= Pow(base, e)
    decreases e
  {
    if d < e {
      PowGrows(base, d, e - 1);
      ProductGrows(base, Pow(base, e - 1));
    }
  }

  lemma ProductGrows(base: nat, x: nat)
    requires base > 0
    ensures x <= base * x
  {
  }

  /** Decoding an encoded string returns it and leaves the tail, in every length class. */
  lemma DecodeEncode(x: seq<Byte>, tail: seq<Byte>)
    requires |x| < U64_MODULUS
    ensures DecodeBytes(EncodeBytes(x) + tail) == Some(Taken(x, tail))
  {
    hide DecodeHeader;
    if |x| == 1 && x[0] < 0x80 {
      assert x == [x[0]] && (x + tail)[1..] == tail;
    } else {
      var prefix := EncodeLength(|x|, 0x80);
      var s := EncodeBytes(x) + tail;
      assert s == prefix + (x + tail);
      HeaderRoundTrip(|x|, 0x80, x + tail);
      PrefixByte(|x|, 0x80);
      assert s[|prefix|..|prefix| + |x|] == x && s[|prefix| + |x|..] == tail;
    }
  }

  lemma PrefixByte(len: nat, offset: Byte)
    requires offset <= 0xc0
    ensures offset <= EncodeLength(len, offset)[0]
  {
  }

  /** The decoder accepts only what the encoder writes. */
  lemma EncodeDecode(s: seq<Byte>)
    ensures match DecodeBytes(s)
            case None => true
            case Some(t) => |t.value| < U64_MODULUS && s == EncodeBytes(t.value) + t.rest
  {
    hide DecodeHeader, EncodeLength;
    if DecodeBytes(s).Some? && s[0] >= 0x80 {
      HeaderIsCanonical(s, 0x80);
      var h := DecodeHeader(s, 0x80).value;
      var end := h.size + h.payload;
      assert s == s[..h.size] + s[h.size..end] + s[end..];
    } else if DecodeBytes(s).Some? {
      assert s == [s[0]] + s[1..];
    }
  }

  /** No encoding is a prefix of a different one. */
  lemma PrefixFree(x: seq<Byte>, y: seq<Byte>)
    requires |x| < U64_MODULUS && |y| < U64_MODULUS && EncodeBytes(x) <= EncodeBytes(y)
    ensures x == y
  {
    hide DecodeBytes, EncodeBytes;
    var tail := EncodeBytes(y)[|EncodeBytes(x)|..];
    assert EncodeBytes(x) + tail == EncodeBytes(y) + [];
    DecodeEncode(x, tail);
    DecodeEncode(y, []);
  }

  function EncodeAll(xs: seq<seq<Byte>>): (items: seq<seq<Byte>>)
    ensures |items| == |xs|
  {
    if xs == [] then [] else [EncodeBytes(xs[0])] + EncodeAll(xs[1..])
  }

  ghost predicate Addressable(xs: seq<seq<Byte>>) {
    && (forall i :: 0 <= i < |xs| ==> |xs[i]| < U64_MODULUS)
    && |Concat(EncodeAll(xs))| < U64_MODULUS
  }

  lemma {:induction false} DecodeItemsInverts(xs: seq<seq<Byte>>)
    requires forall i :: 0 <= i < |xs| ==> |xs[i]| < U64_MODULUS
    ensures DecodeItems(Concat(EncodeAll(xs))) == Some(xs)
  {
    hide DecodeBytes, EncodeBytes;
    if xs != [] {
      DecodeItemsInverts(xs[1..]);
      ConcatCons(xs);
      ItemFirst(xs[0], Concat(EncodeAll(xs[1..])));
      assert xs == [xs[0]] + xs[1..];
    }
  }

  lemma ConcatCons(xs: seq<seq<Byte>>)
    requires xs != []
    ensures Concat(EncodeAll(xs)) == EncodeBytes(xs[0]) + Concat(EncodeAll(xs[1..]))
  {
    hide EncodeBytes;
    assert EncodeAll(xs)[1..] == EncodeAll(xs[1..]);
  }

  lemma ItemFirst(x: seq<Byte>, tail: seq<Byte>)
    requires |x| < U64_MODULUS && DecodeItems(tail).Some?
    ensures DecodeItems(EncodeBytes(x) + tail) == Some([x] + DecodeItems(tail).value)
  {
    hide DecodeBytes, EncodeBytes;
    DecodeEncode(x, tail);
    EncodeNonEmpty(x);
  }

  lemma EncodeNonEmpty(x: seq<Byte>)
    ensures |x| <= |EncodeBytes(x)| <= |x| + 9 && EncodeBytes(x) != []
  {
  }

  /** A list of encoded strings determines the strings. */
  lemma DecodeListInverts(xs: seq<seq<Byte>>, tail: seq<Byte>)
    requires Addressable(xs)
    ensures DecodeList(EncodeList(EncodeAll(xs)) + tail) == Some(Taken(xs, tail))
  {
    hide DecodeHeader, EncodeLength, DecodeItems, Concat, EncodeAll;
    var payload := Concat(EncodeAll(xs));
    var prefix := EncodeLength(|payload|, 0xc0);
    var s := EncodeList(EncodeAll(xs)) + tail;
    assert s == prefix + (payload + tail);
    HeaderRoundTrip(|payload|, 0xc0, payload + tail);
    assert s[|prefix|..|prefix| + |payload|] == payload && s[|prefix| + |payload|..] == tail;
    DecodeItemsInverts(xs);
  }

  lemma {:induction false} ItemsAreCanonical(s: seq<Byte>)
    requires DecodeItems(s).Some?
    ensures s == Concat(EncodeAll(DecodeItems(s).value))
    decreases |s|
  {
    hide DecodeBytes, EncodeBytes;
    if s != [] {
      EncodeDecode(s);
      var items := DecodeItems(s).value;
      ItemsAreCanonical(DecodeBytes(s).value.rest);
      assert items[1..] == DecodeItems(DecodeBytes(s).value.rest).value;
      ConcatCons(items);
    }
  }

  /** The list decoder accepts only encoded lists of encoded strings. */
  lemma EncodeDecodeList(s: seq<Byte>)
    ensures match DecodeList(s)
            case None => true
            case Some(t) => s == EncodeList(EncodeAll(t.value)) + t.rest
  {
    hide DecodeHeader, EncodeLength, DecodeItems, Concat, EncodeAll;
    if DecodeList(s).Some? {
      HeaderIsCanonical(s, 0xc0);
      var h := DecodeHeader(s, 0xc0).value;
      var end := h.size + h.payload;
      ItemsAreCanonical(s[h.size..end]);
      assert s == s[..h.size] + s[h.size..end] + s[end..];
    }
  }

  lemma ListIsInjective(xs: seq<seq<Byte>>, ys: seq<seq<Byte>>)
    requires Addressable(xs) && Addressable(ys)
    ensures EncodeList(EncodeAll(xs)) == EncodeList(EncodeAll(ys)) ==> xs == ys
  {
    hide DecodeList, EncodeList, EncodeAll;
    DecodeListInverts(xs, []);
    DecodeListInverts(ys, []);
  }

  lemma {:induction false} ConcatLength(xs: seq<seq<Byte>>)
    ensures |Concat(EncodeAll(xs))| <= TotalLength(xs) + 9 * |xs|
  {
    hide EncodeBytes;
    if xs != [] {
      ConcatLength(xs[1..]);
      ConcatCons(xs);
      EncodeNonEmpty(xs[0]);
    }
  }

  function TotalLength(xs: seq<seq<Byte>>): nat {
    if xs == [] then 0 else |xs[0]| + TotalLength(xs[1..])
  }
}

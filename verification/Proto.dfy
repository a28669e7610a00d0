/** The flat protobuf reader of `proto.rs`, its grammar and its lookups. */
module Proto {
  import opened Bytes
  import Varint

  /** Varints and byte strings keep their contents; fixed-width values only their presence. */
  datatype Value = Number(n: U64) | Bytes(bytes: seq<Byte>) | Other

  datatype Field = Field(number: nat, value: Value)

  // ----- the reader

  function TakeExact(input: seq<Byte>, length: nat): (r: Result<Taken<seq<Byte>>>) {
    if |input| < length then Err(InvalidField)
    else Ok(Taken(input[..length], input[length..]))
  }

  function TakeValue(wire: nat, input: seq<Byte>): (r: Result<Taken<Value>>)
    ensures match r case Ok(t) => |t.rest| <= |input| case Err(e) => e == InvalidField
  {
    match wire
    case 0 =>
      var v :- Varint.Take(input);
      Ok(Taken(Number(v.value), v.rest))
    case 1 =>
      var skipped :- TakeExact(input, 8);
      Ok(Taken(Other, skipped.rest))
    case 2 =>
      var length :- Varint.Take(input);
      var body :- TakeExact(length.rest, length.value);
      Ok(Taken(Bytes(body.value), body.rest))
    case 5 =>
      var skipped :- TakeExact(input, 4);
      Ok(Taken(Other, skipped.rest))
    case _ => Err(InvalidField)
  }

  function TakeField(input: seq<Byte>): (r: Result<Taken<Field>>)
    ensures match r case Ok(t) => |t.rest| < |input| case Err(e) => e == InvalidField
  {
    var key :- Varint.Take(input);
    if key.value / 8 == 0 then Err(InvalidField)
    else
      var value :- TakeValue(key.value % 8, key.rest);
      Ok(Taken(Field(key.value / 8, value.value), value.rest))
  }

  function Parse(input: seq<Byte>): (r: Result<seq<Field>>)
    ensures r.Err? ==> r.error == InvalidField
    decreases |input|
  {
    if input == [] then Ok([])
    else
      var first :- TakeField(input);
      var more :- Parse(first.rest);
      Ok([first.value] + more)
  }

  /** The source's cursor loop. */
  method ParseFields(bytes: seq<Byte>) returns (r: Result<seq<Field>>)
    ensures r == Parse(bytes)
  {
    hide Varint.Take;
    var input := bytes;
    var fields: seq<Field> := [];
    while input != []
      invariant Parse(bytes) == Prepend(fields, Parse(input))
      decreases |input|
    {
      var key := Varint.TakeVarint(input);
      if key.Err? {
        return key.PropagateFailure();
      }
      var number := key.value.value / 8;
      if number == 0 {
        return Err(InvalidField);
      }
      var value := TakeValue(key.value.value % 8, key.value.rest);
      if value.Err? {
        return value.PropagateFailure();
      }
      ghost var first := Field(number, value.value.value);
      if Parse(value.value.rest).Ok? {
        assert fields + ([first] + Parse(value.value.rest).value)
            == (fields + [first]) + Parse(value.value.rest).value;
      }
      fields := fields + [Field(number, value.value.value)];
      input := value.value.rest;
    }
    return Ok(fields);
  }

  /** What a parse yields once `fields` have already been read. */
  function Prepend(fields: seq<Field>, r: Result<seq<Field>>): (p: Result<seq<Field>>)
    ensures fields == [] ==> p == r
    ensures r == Ok([]) ==> p == Ok(fields)
  {
    match r
    case Ok(more) => assert [] + more == more && fields + [] == fields; Ok(fields + more)
    case Err(e) => Err(e)
  }

  // ----- the published grammar

  /** `s` is one field: a key in `s[..k]`, a length (if any) in `s[k..m]`, then the body. */
  ghost predicate IsFieldAt(s: seq<Byte>, f: Field, k: int, m: int) {
    && 0 <= k <= m <= |s|
    && Varint.IsVarint(s[..k])
    && var key := Varint.GroupSum(s[..k]);
    && 0 < f.number == key / 8
    && match key % 8
       case 0 => k == m && Varint.IsVarint(s[k..]) && f.value == Number(Varint.GroupSum(s[k..]))
       case 1 => k == m && |s| - k == 8 && f.value == Other
       case 2 => Varint.IsVarint(s[k..m]) && |s| - m == Varint.GroupSum(s[k..m]) && f.value == Bytes(s[m..])
       case 5 => k == m && |s| - k == 4 && f.value == Other
       case _ => false
  }

  ghost predicate IsField(s: seq<Byte>, f: Field) {
    exists k, m :: IsFieldAt(s, f, k, m)
  }

  /** `s` is exactly the fields `fs`, laid end to end with no gap and no overlap. */
  ghost predicate IsMessage(s: seq<Byte>, fs: seq<Field>)
    decreases |fs|
  {
    if fs == [] then s == []
    else exists n :: FirstSpan(s, fs[0], n) && IsMessage(s[n..], fs[1..])
  }

  ghost predicate FirstSpan(s: seq<Byte>, f: Field, n: int) {
    0 < n <= |s| && IsField(s[..n], f)
  }

  lemma SliceOfSlice(s: seq<Byte>, k: nat, j: nat)
    requires k + j <= |s|
    ensures s[k..][..j] == s[k..k + j] && s[k..][j..] == s[k + j..]
  {
  }

  lemma PrefixSlice(s: seq<Byte>, i: nat, j: nat, n: nat)
    requires i <= j <= n <= |s|
    ensures s[..n][i..j] == s[i..j] && (i == 0 ==> s[..n][..j] == s[..j]) && (j == n ==> s[..n][i..] == s[i..n])
  {
  }

  /** The parts of a field, cut straight from the input. */
  ghost predicate HasParts(input: seq<Byte>, f: Field, k: int, m: int, n: int) {
    && 0 <= k <= m <= n <= |input|
    && Varint.IsVarint(input[..k])
    && var key := Varint.GroupSum(input[..k]);
    && 0 < f.number == key / 8
    && match key % 8
       case 0 => k == m && Varint.IsVarint(input[k..n]) && f.value == Number(Varint.GroupSum(input[k..n]))
       case 1 => k == m && n - k == 8 && f.value == Other
       case 2 => Varint.IsVarint(input[k..m]) && n - m == Varint.GroupSum(input[k..m]) && f.value == Bytes(input[m..n])
       case 5 => k == m && n - k == 4 && f.value == Other
       case _ => false
  }

  lemma PartsMakeField(input: seq<Byte>, f: Field, k: nat, m: nat, n: nat)
    requires HasParts(input, f, k, m, n)
    ensures IsFieldAt(input[..n], f, k, m)
  {
    hide Varint.GroupSum, Varint.IsVarint;
    PrefixSlice(input, 0, k, n);
    PrefixSlice(input, k, n, n);
    PrefixSlice(input, k, m, n);
    PrefixSlice(input, m, n, n);
  }

  /** The value part of a field, cut straight from the input. */
  ghost predicate HasValueParts(input: seq<Byte>, wire: nat, v: Value, k: int, m: int, n: int) {
    && 0 <= k <= m <= n <= |input|
    && match wire
       case 0 => k == m && Varint.IsVarint(input[k..n]) && v == Number(Varint.GroupSum(input[k..n]))
       case 1 => k == m && n - k == 8 && v == Other
       case 2 => Varint.IsVarint(input[k..m]) && n - m == Varint.GroupSum(input[k..m]) && v == Bytes(input[m..n])
       case 5 => k == m && n - k == 4 && v == Other
       case _ => false
  }

  /** What a value reader takes off the input after position `k`. */
  lemma TakeValueSound(input: seq<Byte>, k: nat, wire: nat) returns (m: nat, n: nat)
    requires k <= |input| && TakeValue(wire, input[k..]).Ok?
    ensures HasValueParts(input, wire, TakeValue(wire, input[k..]).value.value, k, m, n)
    ensures TakeValue(wire, input[k..]).value.rest == input[n..]
  {
    hide Varint.Take, Varint.GroupSum, Varint.IsVarint;
    if wire == 0 {
      n := NumberSound(input, k);
      m := k;
    } else if wire == 2 {
      m, n := BytesSound(input, k);
    } else {
      m, n := k, if wire == 1 then k + 8 else k + 4;
      SliceOfSlice(input, k, n - k);
    }
  }

  lemma NumberSound(input: seq<Byte>, k: nat) returns (n: nat)
    requires k <= |input| && TakeValue(0, input[k..]).Ok?
    ensures HasValueParts(input, 0, TakeValue(0, input[k..]).value.value, k, k, n)
    ensures TakeValue(0, input[k..]).value.rest == input[n..]
  {
    hide Varint.Take, Varint.GroupSum, Varint.IsVarint;
    var j := Varint.TakeSplits(input[k..]);
    n := k + j;
    SliceOfSlice(input, k, j);
  }

  lemma BytesSound(input: seq<Byte>, k: nat) returns (m: nat, n: nat)
    requires k <= |input| && TakeValue(2, input[k..]).Ok?
    ensures HasValueParts(input, 2, TakeValue(2, input[k..]).value.value, k, m, n)
    ensures TakeValue(2, input[k..]).value.rest == input[n..]
  {
    hide Varint.Take, Varint.GroupSum, Varint.IsVarint;
    var j := Varint.TakeSplits(input[k..]);
    m := k + j;
    SliceOfSlice(input, k, j);
    n := m + Varint.Take(input[k..]).value.value;
    SliceOfSlice(input, m, n - m);
  }

  lemma TakeFieldSound(input: seq<Byte>) returns (n: nat)
    requires TakeField(input).Ok?
    ensures n <= |input| && TakeField(input).value.rest == input[n..]
    ensures FirstSpan(input, TakeField(input).value.value, n)
  {
    hide Varint.Take, Varint.GroupSum, Varint.IsVarint, TakeValue, IsFieldAt;
    var k := Varint.TakeSplits(input);
    var m;
    m, n := TakeValueSound(input, k, Varint.GroupSum(input[..k]) % 8);
    PartsMakeField(input, TakeField(input).value.value, k, m, n);
  }

  lemma TakeFieldComplete(s: seq<Byte>, f: Field, tail: seq<Byte>)
    requires IsField(s, f)
    ensures TakeField(s + tail) == Ok(Taken(f, tail))
  {
    hide Varint.Take, Varint.GroupSum;
    var k, m :| IsFieldAt(s, f, k, m);
    var key := Varint.GroupSum(s[..k]);
    var body := s[k..] + tail;
    assert s + tail == s[..k] + body;
    Varint.TakeIff(s[..k], body, key);
    assert TakeValue(key % 8, body) == Ok(Taken(f.value, tail)) by { TakeValueComplete(s, f, tail, k, m); }
  }

  lemma TakeValueComplete(s: seq<Byte>, f: Field, tail: seq<Byte>, k: nat, m: nat)
    requires IsFieldAt(s, f, k, m)
    ensures TakeValue(Varint.GroupSum(s[..k]) % 8, s[k..] + tail) == Ok(Taken(f.value, tail))
  {
    hide Varint.Take, Varint.GroupSum, Varint.IsVarint;
    var body := s[k..] + tail;
    match Varint.GroupSum(s[..k]) % 8
    case 0 =>
      Varint.TakeIff(s[k..], tail, Varint.GroupSum(s[k..]));
    case 2 =>
      var length := Varint.GroupSum(s[k..m]);
      assert s[k..] == s[k..m] + s[m..];
      assert body == s[k..m] + (s[m..] + tail);
      assert length < U64_MODULUS by { VarintFits(s[k..m]); }
      Varint.TakeIff(s[k..m], s[m..] + tail, length);
      TakeExactComplete(s[m..], tail);
    case _ =>
      TakeExactComplete(s[k..], tail);
  }

  lemma VarintFits(s: seq<Byte>)
    requires Varint.IsVarint(s)
    ensures Varint.GroupSum(s) < U64_MODULUS
  {
  }

  lemma TakeExactComplete(a: seq<Byte>, b: seq<Byte>)
    ensures TakeExact(a + b, |a|) == Ok(Taken(a, b))
  {
    assert (a + b)[..|a|] == a;
    assert (a + b)[|a|..] == b;
  }

  /** The reader accepts exactly the grammar, and reads exactly the fields it denotes. */
  lemma {:induction false} ParseIff(s: seq<Byte>, fs: seq<Field>)
    ensures Parse(s) == Ok(fs) <==> IsMessage(s, fs)
    decreases |fs|
  {
    hide TakeField, IsField;
    if Parse(s) == Ok(fs) {
      if s != [] {
        var n := TakeFieldSound(s);
        assert fs[1..] == Parse(s[n..]).value;
        ParseIff(s[n..], fs[1..]);
      }
    }
    if fs != [] && IsMessage(s, fs) {
      var n :| FirstSpan(s, fs[0], n) && IsMessage(s[n..], fs[1..]);
      assert s == s[..n] + s[n..];
      TakeFieldComplete(s[..n], fs[0], s[n..]);
      ParseIff(s[n..], fs[1..]);
      assert fs == [fs[0]] + fs[1..];
    }
  }

  /** Once `a` parses, `a + b` parses exactly when `b` does, into the joined lists. */
  lemma {:induction false} ParseConcat(a: seq<Byte>, b: seq<Byte>)
    requires Parse(a).Ok?
    ensures Parse(a + b) == Prepend(Parse(a).value, Parse(b))
    decreases |a|
  {
    hide TakeField, IsField;
    if a == [] {
      assert a + b == b;
    } else {
      var n := TakeFieldSound(a);
      var first := TakeField(a).value;
      assert a + b == a[..n] + (a[n..] + b);
      TakeFieldComplete(a[..n], first.value, a[n..] + b);
      ParseConcat(first.rest, b);
      if Parse(b).Ok? {
        assert [first.value] + (Parse(first.rest).value + Parse(b).value)
            == Parse(a).value + Parse(b).value;
      }
    }
  }

  /** A length-delimited value is a contiguous run of the message that carries it. */
  lemma {:induction false} ValueIsRun(s: seq<Byte>, fs: seq<Field>, i: nat)
    requires IsMessage(s, fs) && i < |fs| && fs[i].value.Bytes?
    ensures Contains(s, fs[i].value.bytes)
    decreases |fs|
  {
    hide Varint.IsVarint, Varint.GroupSum;
    var n :| FirstSpan(s, fs[0], n) && IsMessage(s[n..], fs[1..]);
    if i == 0 {
      var k, m :| IsFieldAt(s[..n], fs[0], k, m);
      assert s[m..n] == s[..n][m..];
      assert RunAt(s, fs[0].value.bytes, m);
    } else {
      ValueIsRun(s[n..], fs[1..], i - 1);
      assert RunAt(s, s[n..], n);
      ContainsTransitive(s, s[n..], fs[i].value.bytes);
    }
  }

  // ----- a serialiser for the reader to invert

  /** One field with everything its encoding holds, including skipped payloads. */
  datatype Wire =
    | WireNumber(number: nat, n: U64)
    | WireFixed64(number: nat, body: seq<Byte>)
    | WireBytes(number: nat, body: seq<Byte>)
    | WireFixed32(number: nat, body: seq<Byte>)

  /** Keys must fit 64 bits and lengths must be lengths of real buffers. */
  ghost predicate Serialisable(w: Wire) {
    && 1 <= w.number < 0x2000_0000_0000_0000
    && match w
       case WireNumber(_, _) => true
       case WireFixed64(_, body) => |body| == 8
       case WireBytes(_, body) => |body| < U64_MODULUS
       case WireFixed32(_, body) => |body| == 4
  }

  function Erase(w: Wire): Field {
    match w
    case WireNumber(number, n) => Field(number, Number(n))
    case WireBytes(number, body) => Field(number, Bytes(body))
    case WireFixed64(number, _) => Field(number, Other)
    case WireFixed32(number, _) => Field(number, Other)
  }

  function EraseAll(ws: seq<Wire>): (fs: seq<Field>)
    ensures |fs| == |ws| && forall i :: 0 <= i < |ws| ==> fs[i] == Erase(ws[i])
  {
    if ws == [] then [] else [Erase(ws[0])] + EraseAll(ws[1..])
  }

  function SerialiseOne(w: Wire): seq<Byte> {
    match w
    case WireNumber(number, n) => Varint.Encode(number * 8) + Varint.Encode(n)
    case WireFixed64(number, body) => Varint.Encode(number * 8 + 1) + body
    case WireBytes(number, body) => Varint.Encode(number * 8 + 2) + Varint.Encode(|body|) + body
    case WireFixed32(number, body) => Varint.Encode(number * 8 + 5) + body
  }

  function Serialise(ws: seq<Wire>): seq<Byte> {
    if ws == [] then [] else SerialiseOne(ws[0]) + Serialise(ws[1..])
  }

  lemma SerialiseOneIsField(w: Wire)
    requires Serialisable(w)
    ensures IsField(SerialiseOne(w), Erase(w))
  {
    hide Varint.Take, Varint.GroupSum, Varint.Encode;
    var s := SerialiseOne(w);
    var wire := match w case WireNumber(_, _) => 0 case WireFixed64(_, _) => 1 case WireBytes(_, _) => 2 case WireFixed32(_, _) => 5;
    var key := w.number * 8 + wire;
    Varint.RoundTrip(key, []);
    var k := |Varint.Encode(key)|;
    var m := k;
    assert s[..k] == Varint.Encode(key);
    match w {
      case WireNumber(_, n) =>
        Varint.RoundTrip(n, []);
        assert s[k..] == Varint.Encode(n);
      case WireBytes(_, body) =>
        Varint.RoundTrip(|body|, []);
        m := k + |Varint.Encode(|body|)|;
        assert s[k..m] == Varint.Encode(|body|) && s[m..] == body;
      case _ =>
    }
    assert IsFieldAt(s, Erase(w), k, m);
  }

  /** Reading a serialised list returns the list. */
  lemma {:induction false} ParseSerialise(ws: seq<Wire>)
    requires forall w <- ws :: Serialisable(w)
    ensures Parse(Serialise(ws)) == Ok(EraseAll(ws))
  {
    if ws != [] {
      SerialiseOneIsField(ws[0]);
      TakeFieldComplete(SerialiseOne(ws[0]), Erase(ws[0]), Serialise(ws[1..]));
      ParseSerialise(ws[1..]);
    }
  }

  // ----- lookups: exactly one, or refuse

  function Matching(fields: seq<Field>, number: nat): (m: seq<Field>) {
    if fields == [] then []
    else (if fields[0].number == number then [fields[0]] else []) + Matching(fields[1..], number)
  }

  function Single(fields: seq<Field>, number: nat): (r: Result<Value>) {
    var m := Matching(fields, number);
    if |m| == 1 then Ok(m[0].value) else Err(InvalidField)
  }

  function OneBytes(fields: seq<Field>, number: nat): (r: Result<seq<Byte>>) {
    var value :- Single(fields, number);
    if value.Bytes? then Ok(value.bytes) else Err(InvalidField)
  }

  function OptionalVarint(fields: seq<Field>, number: nat): (r: Result<Option<U64>>) {
    var m := Matching(fields, number);
    if m == [] then Ok(None)
    else if |m| > 1 then Err(InvalidField)
    else if m[0].value.Number? then Ok(Some(m[0].value.n))
    else Err(InvalidField)
  }

  function OneVarint(fields: seq<Field>, number: nat): (r: Result<U64>) {
    var value :- OptionalVarint(fields, number);
    if value.Some? then Ok(value.value) else Err(InvalidField)
  }

  ghost predicate Absent(fields: seq<Field>, number: nat) {
    forall i :: 0 <= i < |fields| ==> fields[i].number != number
  }

  /** Field `number` occurs once, with this value. */
  ghost predicate Once(fields: seq<Field>, number: nat, value: Value) {
    exists i :: 0 <= i < |fields| && fields[i] == Field(number, value) && OnlyAt(fields, number, i)
  }

  ghost predicate OnlyAt(fields: seq<Field>, number: nat, i: int) {
    forall j :: 0 <= j < |fields| && j != i ==> fields[j].number != number
  }

  lemma {:induction false} MatchingCounts(fields: seq<Field>, number: nat)
    ensures Matching(fields, number) == [] <==> Absent(fields, number)
    ensures forall v :: Matching(fields, number) == [Field(number, v)] <==> Once(fields, number, v)
  {
    if fields != [] {
      var tail := fields[1..];
      MatchingCounts(tail, number);
      assert fields == [fields[0]] + tail;
      assert Absent(fields, number) <==> fields[0].number != number && Absent(tail, number);
      forall v
        ensures Matching(fields, number) == [Field(number, v)] <==> Once(fields, number, v)
      {
        OnceUnfolds(fields, number, v);
        if fields[0].number == number && Matching(fields, number) == [Field(number, v)] {
          assert Matching(tail, number) == Matching(fields, number)[1..] == [];
        }
      }
    }
  }

  lemma OnceUnfolds(fields: seq<Field>, number: nat, v: Value)
    requires fields != []
    ensures Once(fields, number, v) <==>
            if fields[0].number == number then fields[0].value == v && Absent(fields[1..], number)
            else Once(fields[1..], number, v)
  {
    var tail := fields[1..];
    assert forall j :: 0 <= j < |tail| ==> tail[j] == fields[j + 1];
    if Once(fields, number, v) {
      var i :| 0 <= i < |fields| && fields[i] == Field(number, v) && OnlyAt(fields, number, i);
      if i > 0 {
        assert tail[i - 1] == Field(number, v) && OnlyAt(tail, number, i - 1);
      }
    }
    if fields[0] == Field(number, v) && Absent(tail, number) {
      forall j | 0 <= j < |fields| && j != 0 ensures fields[j].number != number {
        assert fields[j] == tail[j - 1];
      }
      assert OnlyAt(fields, number, 0);
    }
    if fields[0].number != number && Once(tail, number, v) {
      var i :| 0 <= i < |tail| && tail[i] == Field(number, v) && OnlyAt(tail, number, i);
      forall j | 0 <= j < |fields| && j != i + 1 ensures fields[j].number != number {
        if j > 0 { assert fields[j] == tail[j - 1]; }
      }
      assert OnlyAt(fields, number, i + 1);
    }
  }

  lemma {:induction false} MatchingNumbers(fields: seq<Field>, number: nat)
    ensures forall f <- Matching(fields, number) :: f.number == number
  {
    if fields != [] { MatchingNumbers(fields[1..], number); }
  }

  /** What each lookup answers, in terms of occurrences alone. */
  lemma {:induction false} LookupsIff(fields: seq<Field>, number: nat)
    ensures forall b :: OneBytes(fields, number) == Ok(b) <==> Once(fields, number, Bytes(b))
    ensures forall n: U64 :: OneVarint(fields, number) == Ok(n) <==> Once(fields, number, Number(n))
    ensures forall n: U64 :: OptionalVarint(fields, number) == Ok(Some(n)) <==> Once(fields, number, Number(n))
    ensures OptionalVarint(fields, number) == Ok(None) <==> Absent(fields, number)
  {
    MatchingCounts(fields, number);
    MatchingNumbers(fields, number);
    var m := Matching(fields, number);
    if |m| == 1 {
      assert m == [Field(number, m[0].value)];
    } else {
      forall v ensures !Once(fields, number, v) { assert m != [Field(number, v)]; }
    }
    forall v | Once(fields, number, v) ensures m == [Field(number, v)] {}
  }
}

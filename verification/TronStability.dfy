/** What the structural check's verdict depends on: padding a transaction with unread
    fields never changes it, and repeating a read field always refuses it. */
module TronStability {
  import opened Bytes
  import opened Proto
  import opened Tron
  import Hex
  import opened Utf8

  /** A transaction as a tree of fields, some of them messages of their own. */
  datatype Node = Leaf(wire: Wire) | Message(number: nat, children: seq<Node>)

  function NumberOf(node: Node): nat {
    match node
    case Leaf(wire) => wire.number
    case Message(number, _) => number
  }

  function WireOf(node: Node): Wire
    decreases node
  {
    match node
    case Leaf(wire) => wire
    case Message(number, children) => WireBytes(number, Serialise(Wires(children)))
  }

  function Wires(nodes: seq<Node>): (ws: seq<Wire>)
    ensures |ws| == |nodes| && forall i :: 0 <= i < |nodes| ==> ws[i] == WireOf(nodes[i])
    decreases nodes
  {
    if nodes == [] then [] else [WireOf(nodes[0])] + Wires(nodes[1..])
  }

  function TreeBytes(nodes: seq<Node>): seq<Byte> { Serialise(Wires(nodes)) }

  function FieldOf(node: Node): Field { Erase(WireOf(node)) }

  function FieldsOf(nodes: seq<Node>): seq<Field> { EraseAll(Wires(nodes)) }

  ghost predicate Encodable(nodes: seq<Node>)
    decreases nodes
  {
    forall i :: 0 <= i < |nodes| ==>
      Serialisable(WireOf(nodes[i])) && (nodes[i].Message? ==> Encodable(nodes[i].children))
  }

  /** The field numbers read at each of the four levels. */
  function Reads(level: nat, trc20: bool): set<nat> {
    if level == 0 then (if trc20 then {11, 18} else {11})
    else if level == 1 || level == 2 then {1, 2}
    else if trc20 then {2, 3, 4} else {2, 3}
  }

  /** The field that holds the next level. */
  predicate HoldsNext(level: nat, number: nat) {
    level < 3 && number == if level == 0 then 11 else 2
  }

  // ----- padding

  /** `t'` is `t` with unread fields inserted anywhere at this level or below. */
  ghost predicate Padded(level: nat, trc20: bool, t: seq<Node>, t': seq<Node>)
    decreases t', 0
  {
    if t' == [] then t == []
    else
      || (NumberOf(t'[0]) !in Reads(level, trc20) && Padded(level, trc20, t, t'[1..]))
      || (t != [] && Grown(level, trc20, t[0], t'[0]) && Padded(level, trc20, t[1..], t'[1..]))
  }

  ghost predicate Grown(level: nat, trc20: bool, a: Node, b: Node)
    decreases b, 1
  {
    || a == b
    || (a.Message? && b.Message? && a.number == b.number && HoldsNext(level, a.number)
        && Padded(level + 1, trc20, a.children, b.children))
  }

  function Named(nodes: seq<Node>, number: nat): seq<Node> {
    if nodes == [] then []
    else (if NumberOf(nodes[0]) == number then [nodes[0]] else []) + Named(nodes[1..], number)
  }

  lemma {:induction false} NamedIsMatching(nodes: seq<Node>, number: nat)
    ensures Matching(FieldsOf(nodes), number) == FieldsOf(Named(nodes, number))
    ensures forall a <- Named(nodes, number) :: NumberOf(a) == number && a in nodes
  {
    hide WireOf, Erase;
    if nodes != [] {
      NamedIsMatching(nodes[1..], number);
      EraseKeepsNumber(nodes[0]);
      var rest := Named(nodes[1..], number);
      assert FieldsOf(nodes)[1..] == FieldsOf(nodes[1..]);
      assert FieldsOf([nodes[0]] + rest) == [FieldOf(nodes[0])] + FieldsOf(rest);
      assert [] + FieldsOf(rest) == FieldsOf(rest) && [] + rest == rest;
      assert FieldsOf(nodes)[0] == FieldOf(nodes[0]);
    }
  }

  lemma EraseKeepsNumber(node: Node)
    ensures FieldOf(node).number == NumberOf(node)
    ensures node.Message? ==> FieldOf(node).value == Bytes(TreeBytes(node.children))
  {
  }

  /** Node by node, grown. */
  ghost predicate GrownAll(level: nat, trc20: bool, a: seq<Node>, b: seq<Node>)
    decreases |a|
  {
    if a == [] then b == []
    else b != [] && Grown(level, trc20, a[0], b[0]) && GrownAll(level, trc20, a[1..], b[1..])
  }

  lemma {:induction false} GrownAllLength(level: nat, trc20: bool, a: seq<Node>, b: seq<Node>)
    requires GrownAll(level, trc20, a, b)
    ensures |a| == |b|
    decreases |a|
  {
    if a != [] { GrownAllLength(level, trc20, a[1..], b[1..]); }
  }

  lemma NamedCons(nodes: seq<Node>, number: nat)
    requires nodes != []
    ensures NumberOf(nodes[0]) != number ==> Named(nodes, number) == Named(nodes[1..], number)
    ensures NumberOf(nodes[0]) == number ==>
            && Named(nodes, number) != [] && Named(nodes, number)[0] == nodes[0]
            && Named(nodes, number)[1..] == Named(nodes[1..], number)
  {
  }

  lemma {:induction false} PaddedReads(level: nat, trc20: bool, t: seq<Node>, t': seq<Node>, number: nat)
    requires Padded(level, trc20, t, t') && number in Reads(level, trc20)
    ensures GrownAll(level, trc20, Named(t, number), Named(t', number))
    decreases |t'|
  {
    hide Reads, Named;
    if t' == [] {
      assert Named(t, number) == [] by { NamedEmpty(number); }
    } else {
      NamedCons(t', number);
      if NumberOf(t'[0]) !in Reads(level, trc20) && Padded(level, trc20, t, t'[1..]) {
        PaddedReads(level, trc20, t, t'[1..], number);
      } else {
        NamedCons(t, number);
        PaddedReads(level, trc20, t[1..], t'[1..], number);
      }
    }
  }

  lemma NamedEmpty(number: nat)
    ensures Named([], number) == []
  {
  }

  /** A read field either is unchanged or holds a padded next level. */
  ghost predicate SameOrPadded(level: nat, trc20: bool, b: seq<Byte>, b': seq<Byte>) {
    b == b' || exists c, c' :: Wraps(level, trc20, b, b', c, c')
  }

  ghost predicate Wraps(level: nat, trc20: bool, b: seq<Byte>, b': seq<Byte>, c: seq<Node>, c': seq<Node>) {
    b == TreeBytes(c) && b' == TreeBytes(c') && Encodable(c) && Encodable(c') && Padded(level, trc20, c, c')
  }

  lemma PaddedLookups(level: nat, trc20: bool, t: seq<Node>, t': seq<Node>, number: nat)
    requires Padded(level, trc20, t, t') && number in Reads(level, trc20)
    requires Encodable(t) && Encodable(t')
    ensures OptionalVarint(FieldsOf(t), number) == OptionalVarint(FieldsOf(t'), number)
    ensures !HoldsNext(level, number) ==> OneBytes(FieldsOf(t), number) == OneBytes(FieldsOf(t'), number)
    ensures var x, x' := OneBytes(FieldsOf(t), number), OneBytes(FieldsOf(t'), number);
            || x == x'
            || (x.Ok? && x'.Ok? && SameOrPadded(level + 1, trc20, x.value, x'.value))
  {
    hide Reads, Serialise, Padded, Named;
    PaddedReads(level, trc20, t, t', number);
    GrownAllLength(level, trc20, Named(t, number), Named(t', number));
    NamedIsMatching(t, number);
    NamedIsMatching(t', number);
    var a, b := Named(t, number), Named(t', number);
    assert |Matching(FieldsOf(t), number)| == |a| && |Matching(FieldsOf(t'), number)| == |b|;
    if |a| == 1 {
      assert Grown(level, trc20, a[0], b[0]);
      EraseKeepsNumber(a[0]);
      EraseKeepsNumber(b[0]);
      assert Matching(FieldsOf(t), number) == [FieldOf(a[0])];
      assert Matching(FieldsOf(t'), number) == [FieldOf(b[0])];
      if a[0] != b[0] {
        ChildrenEncodable(t, a[0]);
        ChildrenEncodable(t', b[0]);
        assert Wraps(level + 1, trc20, TreeBytes(a[0].children), TreeBytes(b[0].children),
                     a[0].children, b[0].children);
      }
    }
  }

  lemma ChildrenEncodable(t: seq<Node>, node: Node)
    requires Encodable(t) && node in t && node.Message?
    ensures Encodable(node.children)
  {
  }

  lemma ParseTree(t: seq<Node>)
    requires Encodable(t)
    ensures Parse(TreeBytes(t)) == Ok(FieldsOf(t))
  {
    ParseSerialise(Wires(t));
  }

  /** Two readings of a contract that differ at most by padding of the payload. */
  ghost predicate SameContract(trc20: bool, r: Result<Contract>, r': Result<Contract>) {
    || r == r'
    || (r.Ok? && r'.Ok? && r.value.kind == r'.value.kind && r.value.typeUrl == r'.value.typeUrl
        && SameOrPadded(3, trc20, r.value.payload, r'.value.payload))
  }

  lemma PaddedAny(trc20: bool, kind: U64, b: seq<Byte>, b': seq<Byte>)
    requires SameOrPadded(2, trc20, b, b')
    ensures var any, any' := Parse(b), Parse(b');
            || any == any' || (any.Ok? && any'.Ok? && SameContract(trc20, ReadAny(kind, any.value), ReadAny(kind, any'.value)))
  {
    hide Parse, OneBytes, OptionalVarint, IsUtf8, Padded, Encodable, TreeBytes, SameOrPadded;
    if b != b' {
      var c, c' := PaddedWitness(2, trc20, b, b');
      ParseTree(c);
      ParseTree(c');
      PaddedLookups(2, trc20, c, c', 1);
      PaddedLookups(2, trc20, c, c', 2);
    }
  }

  lemma PaddedWitness(level: nat, trc20: bool, b: seq<Byte>, b': seq<Byte>) returns (c: seq<Node>, c': seq<Node>)
    requires SameOrPadded(level, trc20, b, b') && b != b'
    ensures b == TreeBytes(c) && b' == TreeBytes(c') && Encodable(c) && Encodable(c') && Padded(level, trc20, c, c')
  {
    c, c' :| Wraps(level, trc20, b, b', c, c');
  }

  lemma PaddedContract(trc20: bool, b: seq<Byte>, b': seq<Byte>)
    requires SameOrPadded(1, trc20, b, b')
    ensures var fs, fs' := Parse(b), Parse(b');
            || fs == fs' || (fs.Ok? && fs'.Ok? && SameContract(trc20, ReadContract(fs.value), ReadContract(fs'.value)))
  {
    hide Parse, OneBytes, OptionalVarint, ReadAny, Padded, Encodable, TreeBytes, SameOrPadded;
    if b != b' {
      var c, c' := PaddedWitness(1, trc20, b, b');
      ParseTree(c);
      ParseTree(c');
      PaddedLookups(1, trc20, c, c', 1);
      PaddedLookups(1, trc20, c, c', 2);
      var kind := OneVarint(FieldsOf(c), 1);
      var any, any' := OneBytes(FieldsOf(c), 2), OneBytes(FieldsOf(c'), 2);
      if kind.Ok? && any.Ok? && any != any' {
        PaddedAny(trc20, kind.value, any.value, any'.value);
      }
    }
  }

  lemma PaddedTerms(trc20: bool, r: Contract, r': Contract)
    requires r.kind == r'.kind && r.typeUrl == r'.typeUrl && SameOrPadded(3, trc20, r.payload, r'.payload)
    ensures var p, p' := Parse(r.payload), Parse(r'.payload);
            || p == p'
            || (p.Ok? && p'.Ok?
                && OneBytes(p.value, 2) == OneBytes(p'.value, 2)
                && OptionalVarint(p.value, 3) == OptionalVarint(p'.value, 3)
                && (trc20 ==> OneBytes(p.value, 4) == OneBytes(p'.value, 4)))
  {
    hide Parse, OneBytes, OptionalVarint, Padded, Encodable, TreeBytes, SameOrPadded;
    if r.payload != r'.payload {
      var c, c' := PaddedWitness(3, trc20, r.payload, r'.payload);
      ParseTree(c);
      ParseTree(c');
      PaddedLookups(3, trc20, c, c', 2);
      PaddedLookups(3, trc20, c, c', 3);
      if trc20 { PaddedLookups(3, trc20, c, c', 4); }
    }
  }

  /** Unread fields, inserted anywhere at any level, never change the verdict. */
  lemma PaddingKeepsVerdict(
    t: seq<Node>, t': seq<Node>, recipient: seq<Byte>, transfer: Transfer, feeLimit: Option<U64>
  )
    requires Encodable(t) && Encodable(t') && Padded(0, transfer.Trc20?, t, t')
    ensures CheckRaw(TreeBytes(t), recipient, transfer, feeLimit)
         == CheckRaw(TreeBytes(t'), recipient, transfer, feeLimit)
  {
    hide Parse, OneBytes, OptionalVarint, ReadContract, Padded, Encodable, TreeBytes, SameOrPadded, Hex.Decode, EndsWith, Ascii;
    var trc20 := transfer.Trc20?;
    ParseTree(t);
    ParseTree(t');
    var top, top' := FieldsOf(t), FieldsOf(t');
    PaddedLookups(0, trc20, t, t', 11);
    if trc20 { PaddedLookups(0, trc20, t, t', 18); }
    var b, b' := OneBytes(top, 11), OneBytes(top', 11);
    if b.Ok? && b != b' {
      PaddedContract(trc20, b.value, b'.value);
    }
    var c, c' := ParseSingleContract(top), ParseSingleContract(top');
    assert SameContract(trc20, c, c');
    if c.Ok? {
      if c != c' {
        PaddedTerms(trc20, c.value, c'.value);
      }
    }
  }

  /** The same over the whole check, with the id recomputed for each serialisation. */
  lemma PaddingKeepsAcceptance(
    lib: Library, to: string, t: seq<Node>, t': seq<Node>, transfer: Transfer, feeLimit: Option<U64>
  )
    requires Encodable(t) && Encodable(t') && Padded(0, transfer.Trc20?, t, t')
    ensures var raw, raw' := TreeBytes(t), TreeBytes(t');
            VerifyContract(lib, Hex.Encode(raw), to, Hex.Encode(lib.sha256(raw)), transfer, feeLimit) ==
            VerifyContract(lib, Hex.Encode(raw'), to, Hex.Encode(lib.sha256(raw')), transfer, feeLimit)
  {
    hide CheckRaw, Hex.Encode, Hex.Decode, Hex.Lower, Hex.Trim, Padded, Encodable, TreeBytes;
    var raw, raw' := TreeBytes(t), TreeBytes(t');
    Hex.Survives(raw);
    Hex.Survives(raw');
    Hex.Survives(lib.sha256(raw));
    Hex.Survives(lib.sha256(raw'));
    if lib.decodeAddress(to).Some? {
      var recipient := lib.decodeAddress(to).value;
      Hex.Survives(recipient);
      PaddingKeepsVerdict(t, t', recipient, transfer, feeLimit);
    }
  }

  // ----- repetition

  /** Some field that is read occurs twice at its level. */
  ghost predicate Repeats(level: nat, trc20: bool, t: seq<Node>)
    decreases t
  {
    || (exists i, j :: 0 <= i < j < |t| && NumberOf(t[i]) == NumberOf(t[j]) && NumberOf(t[i]) in Reads(level, trc20))
    || (exists i :: 0 <= i < |t| && t[i].Message? && HoldsNext(level, t[i].number)
                    && Repeats(level + 1, trc20, t[i].children))
  }

  function LevelFields(l: Layers, level: nat): seq<Field> {
    if level == 0 then l.top
    else if level == 1 then l.contractFields
    else if level == 2 then l.anyFields
    else l.payloadFields
  }

  ghost predicate AtMostOnce(fs: seq<Field>, number: nat) {
    forall i, j :: 0 <= i < j < |fs| ==> !(fs[i].number == fs[j].number == number)
  }

  lemma AcceptedReadsOnce(raw: seq<Byte>, l: Layers, recipient: seq<Byte>, transfer: Transfer,
                          feeLimit: Option<U64>, level: nat, number: nat)
    requires Nests(raw, l) && Performs(l, recipient, transfer, feeLimit)
    requires level <= 3 && number in Reads(level, transfer.Trc20?)
    ensures AtMostOnce(LevelFields(l, level), number)
  {
    hide IsMessage, IsUtf8, Hex.Decode, EndsWith, Ascii;
  }

  lemma NextLevel(raw: seq<Byte>, l: Layers, level: nat, t: seq<Node>, i: nat)
    requires Nests(raw, l) && level < 3 && FieldsOf(t) == LevelFields(l, level) && Encodable(t)
    requires i < |t| && t[i].Message? && HoldsNext(level, t[i].number)
    ensures FieldsOf(t[i].children) == LevelFields(l, level + 1) && Encodable(t[i].children)
  {
    hide IsUtf8, Encodable, FieldsOf, TreeBytes, Parse;
    var fs := LevelFields(l, level);
    var held := if level == 0 then l.contractBytes else if level == 1 then l.anyBytes else l.contract.payload;
    LayersNest(raw, l);
    FieldAt(t, i);
    EraseKeepsNumber(t[i]);
    assert Once(fs, t[i].number, Bytes(held));
    assert Bytes(TreeBytes(t[i].children)) == Bytes(held);
    ChildrenEncodable(t, t[i]);
    ParseTree(t[i].children);
  }

  lemma FieldAt(t: seq<Node>, i: nat)
    requires i < |t|
    ensures |FieldsOf(t)| == |t| && FieldsOf(t)[i] == FieldOf(t[i])
  {
  }

  lemma {:induction false} AcceptedNeverRepeats(
    raw: seq<Byte>, l: Layers, recipient: seq<Byte>, transfer: Transfer, feeLimit: Option<U64>,
    level: nat, t: seq<Node>
  )
    requires Nests(raw, l) && Performs(l, recipient, transfer, feeLimit)
    requires level <= 3 && FieldsOf(t) == LevelFields(l, level) && Encodable(t)
    ensures !Repeats(level, transfer.Trc20?, t)
    decreases 3 - level
  {
    hide Nests, Performs, Encodable, FieldsOf, Reads, LevelFields;
    var trc20 := transfer.Trc20?;
    forall i, j | 0 <= i < j < |t| && NumberOf(t[i]) == NumberOf(t[j])
      ensures NumberOf(t[i]) !in Reads(level, trc20)
    {
      if NumberOf(t[i]) in Reads(level, trc20) {
        AcceptedReadsOnce(raw, l, recipient, transfer, feeLimit, level, NumberOf(t[i]));
        FieldAt(t, i);
        FieldAt(t, j);
        EraseKeepsNumber(t[i]);
        EraseKeepsNumber(t[j]);
        assert false;
      }
    }
    forall i | 0 <= i < |t| && t[i].Message? && HoldsNext(level, t[i].number)
      ensures !Repeats(level + 1, trc20, t[i].children)
    {
      NextLevel(raw, l, level, t, i);
      AcceptedNeverRepeats(raw, l, recipient, transfer, feeLimit, level + 1, t[i].children);
    }
  }

  /** A transaction that repeats any field the check reads is refused, at every level. */
  lemma RepetitionIsRefused(t: seq<Node>, recipient: seq<Byte>, transfer: Transfer, feeLimit: Option<U64>)
    requires Encodable(t) && Repeats(0, transfer.Trc20?, t)
    ensures CheckRaw(TreeBytes(t), recipient, transfer, feeLimit) != Ok(())
  {
    hide CheckRaw, Nests, Performs, Encodable, TreeBytes, FieldsOf, Repeats, Parse;
    CheckRawIff(TreeBytes(t), recipient, transfer, feeLimit);
    if IsRequested(TreeBytes(t), recipient, transfer, feeLimit) {
      var l :| Nests(TreeBytes(t), l) && Performs(l, recipient, transfer, feeLimit);
      LayersNest(TreeBytes(t), l);
      ParseTree(t);
      AcceptedNeverRepeats(TreeBytes(t), l, recipient, transfer, feeLimit, 0, t);
    }
  }
}

/** How the structural check and the byte-run check of `tron.rs` relate. */
module TronRefinement {
  import opened Bytes
  import opened Proto
  import opened Tron
  import Hex
  import opened Utf8
  import Varint

  lemma OnceIsRun(s: seq<Byte>, fs: seq<Field>, number: nat, b: seq<Byte>)
    requires IsMessage(s, fs) && Once(fs, number, Bytes(b))
    ensures Contains(s, b)
  {
    var i :| 0 <= i < |fs| && fs[i] == Field(number, Bytes(b)) && OnlyAt(fs, number, i);
    ValueIsRun(s, fs, i);
  }

  /** Every nested slice the structural check reads is a contiguous run of the raw bytes. */
  lemma PayloadIsRun(raw: seq<Byte>, l: Layers)
    requires Nests(raw, l)
    ensures Contains(raw, l.contract.payload)
    ensures forall number, b :: Once(l.payloadFields, number, Bytes(b)) ==> Contains(raw, b)
  {
    hide IsMessage, Once, Contains, IsUtf8;
    OnceIsRun(raw, l.top, 11, l.contractBytes);
    OnceIsRun(l.contractBytes, l.contractFields, 2, l.anyBytes);
    OnceIsRun(l.anyBytes, l.anyFields, 2, l.contract.payload);
    ContainsTransitive(raw, l.contractBytes, l.anyBytes);
    ContainsTransitive(raw, l.anyBytes, l.contract.payload);
    forall number, b | Once(l.payloadFields, number, Bytes(b)) ensures Contains(raw, b) {
      OnceIsRun(l.contract.payload, l.payloadFields, number, b);
      ContainsTransitive(raw, l.contract.payload, b);
    }
  }

  lemma RecipientShowsInText(rawHex: string, raw: seq<Byte>, recipient: seq<Byte>)
    requires Hex.Plain(Hex.Trim(rawHex)) && Hex.Decode(rawHex) == Ok(raw) && Contains(raw, recipient)
    ensures Contains(Hex.Lower(rawHex), Hex.Lower(Hex.Encode(recipient)))
  {
    hide Contains, Hex.Lower, Hex.Encode, Hex.Trim;
    var body := Hex.Trim(rawHex);
    Hex.DecodeLength(body);
    Hex.EncodeDecode(body);
    Hex.EncodeRun(raw, recipient);
    Hex.DecodeEncode(recipient);
    Hex.LowerTrimIsRun(rawHex);
    ContainsTransitive(Hex.Lower(rawHex), Hex.Lower(body), Hex.Encode(recipient));
  }

  /** Exactly when an accepted transaction also passes the byte-run check: the recipient's
      hex shows in the text, and the run looked for is not empty and occurs in the bytes. */
  lemma AcceptedRunIff(
    lib: Library, rawHex: string, to: string, txid: string, transfer: Transfer, feeLimit: Option<U64>
  )
    requires VerifyContract(lib, rawHex, to, txid, transfer, feeLimit) == Ok(())
    ensures Hex.Decode(rawHex).Ok? && lib.decodeAddress(to).Some? && ExpectedRun(transfer).Ok?
    ensures VerifyTransfer(lib, rawHex, to, txid, transfer) == Ok(()) <==>
            var run := ExpectedRun(transfer).value;
            && Contains(Hex.Lower(rawHex), Hex.Encode(lib.decodeAddress(to).value))
            && run != [] && Contains(Hex.Decode(rawHex).value, run)
  {
    hide VerifyContract, Contains, Hex.Decode, Hex.SameIgnoringCase, Hex.Trim, Hex.Lower, Hex.Encode, Varint.Encode, Nests;
    VerifyContractIff(lib, rawHex, to, txid, transfer, feeLimit);
    var raw, recipient := Hex.Decode(rawHex).value, lib.decodeAddress(to).value;
    var l :| Nests(raw, l) && Performs(l, recipient, transfer, feeLimit);
    Hex.DecodeEncode(recipient);
  }

  /** In plain hex digits the recipient always shows, so only the run is left to decide. */
  lemma PlainAcceptedRunIff(
    lib: Library, rawHex: string, to: string, txid: string, transfer: Transfer, feeLimit: Option<U64>
  )
    requires VerifyContract(lib, rawHex, to, txid, transfer, feeLimit) == Ok(())
    requires Hex.Plain(Hex.Trim(rawHex))
    ensures Hex.Decode(rawHex).Ok? && lib.decodeAddress(to).Some? && ExpectedRun(transfer).Ok?
    ensures VerifyTransfer(lib, rawHex, to, txid, transfer) == Ok(()) <==>
            var run := ExpectedRun(transfer).value;
            run != [] && Contains(Hex.Decode(rawHex).value, run)
  {
    hide VerifyContract, VerifyTransfer, Contains, Hex.Decode, Hex.Plain, Hex.Trim, Hex.Lower, Hex.Encode, Varint.Encode, Nests;
    AcceptedRunIff(lib, rawHex, to, txid, transfer, feeLimit);
    VerifyContractIff(lib, rawHex, to, txid, transfer, feeLimit);
    var raw, recipient := Hex.Decode(rawHex).value, lib.decodeAddress(to).value;
    var l :| Nests(raw, l) && Performs(l, recipient, transfer, feeLimit);
    PayloadIsRun(raw, l);
    RecipientShowsInText(rawHex, raw, recipient);
    Hex.DecodeEncode(recipient);
  }

  /** Where a payload holds its amount: after `before`, under a key spelled `key`. */
  datatype AmountAt = AmountAt(before: seq<Byte>, key: seq<Byte>, after: seq<Byte>)

  /** The payload's amount field is written with the shortest varint. */
  ghost predicate MinimalAmountAt(payload: seq<Byte>, amount: U64, at: AmountAt) {
    && payload == at.before + at.key + Varint.Encode(amount) + at.after
    && Parse(at.before).Ok? && Parse(at.after).Ok?
    && Varint.IsVarint(at.key) && Varint.GroupSum(at.key) == 3 * 8
  }

  ghost predicate MinimalAmount(raw: seq<Byte>, amount: U64) {
    exists l, at :: Nests(raw, l) && MinimalAmountAt(l.contract.payload, amount, at)
  }

  /** The structural check refines the byte-run check. */
  lemma StructuralRefinesRun(
    lib: Library, rawHex: string, to: string, txid: string, transfer: Transfer, feeLimit: Option<U64>
  )
    requires VerifyContract(lib, rawHex, to, txid, transfer, feeLimit) == Ok(())
    requires Hex.Plain(Hex.Trim(rawHex))
    requires match transfer
             case Native(amount) => MinimalAmount(Hex.Decode(rawHex).value, amount)
             case Trc20(parameterHex) => Hex.Decode(parameterHex) != Ok([])
    ensures VerifyTransfer(lib, rawHex, to, txid, transfer) == Ok(())
  {
    hide VerifyContract, VerifyTransfer, Contains, Hex.Decode, Varint.Encode, Nests;
    PlainAcceptedRunIff(lib, rawHex, to, txid, transfer, feeLimit);
    VerifyContractIff(lib, rawHex, to, txid, transfer, feeLimit);
    var raw := Hex.Decode(rawHex).value;
    match transfer {
      case Native(amount) =>
        var l, at :| Nests(raw, l) && MinimalAmountAt(l.contract.payload, amount, at);
        PayloadIsRun(raw, l);
        ContainsMiddle(at.before + at.key, Varint.Encode(amount), at.after);
        ContainsTransitive(raw, l.contract.payload, Varint.Encode(amount));
      case Trc20(parameterHex) =>
        var l :| Nests(raw, l) && Performs(l, lib.decodeAddress(to).value, transfer, feeLimit);
        PayloadIsRun(raw, l);
        var parameter := Hex.Decode(parameterHex).value;
        var selector: seq<Byte> := [0xa9, 0x05, 0x9c, 0xbb];
        ContainsMiddle(selector, parameter, []);
        assert selector + parameter + [] == selector + parameter;
        ContainsTransitive(raw, selector + parameter, parameter);
    }
  }

  // ----- plain digits are needed: the decoder reads text the byte-run check cannot search

  /** Hex in which every byte below sixteen is written with a plus sign. */
  function PlusHex(bytes: seq<Byte>): (s: string)
    ensures |s| == 2 * |bytes|
  {
    if bytes == [] then []
    else (if bytes[0] < 16 then ['+', Hex.LowerDigit(bytes[0])] else Hex.EncodeByte(bytes[0])) + PlusHex(bytes[1..])
  }

  ghost predicate NoDoubleZero(s: string) {
    && (s != [] ==> s[0] != '0')
    && forall i :: 0 <= i < |s| - 1 ==> !(s[i] == '0' && s[i + 1] == '0')
  }

  lemma {:induction false} PlusHexReads(bytes: seq<Byte>)
    ensures Hex.DecodePairs(PlusHex(bytes)) == Some(bytes)
    ensures NoDoubleZero(PlusHex(bytes)) && Hex.Lower(PlusHex(bytes)) == PlusHex(bytes)
    ensures forall i :: 0 <= i < |PlusHex(bytes)| ==> !Hex.IsSpace(PlusHex(bytes)[i])
  {
    if bytes != [] {
      var b, s, tail := bytes[0], PlusHex(bytes), PlusHex(bytes[1..]);
      PlusHexReads(bytes[1..]);
      PlusPair(b);
      hide Hex.LowerDigit, Hex.Digit, Hex.LowerChar, Hex.IsSpace, Hex.EncodeByte;
      assert s[2..] == tail;
      forall i | 0 <= i < |s| - 1 ensures !(s[i] == '0' && s[i + 1] == '0') {
        if i >= 2 { assert s[i] == tail[i - 2] && s[i + 1] == tail[i - 1]; }
        if i == 1 && tail != [] { assert s[2] == tail[0]; }
      }
      forall i | 0 <= i < |s| ensures Hex.LowerChar(s[i]) == s[i] && !Hex.IsSpace(s[i]) {
        if i >= 2 { assert s[i] == tail[i - 2] && Hex.Lower(tail)[i - 2] == tail[i - 2]; }
      }
      assert Hex.Lower(s) == s;
      assert bytes == [b] + bytes[1..];
    }
  }

  lemma PlusPair(b: Byte)
    ensures var s := if b < 16 then ['+', Hex.LowerDigit(b)] else Hex.EncodeByte(b);
            && |s| == 2 && s[0] != '0' && Hex.Pair(s[0], s[1]) == Some(b)
            && forall i :: 0 <= i < 2 ==> Hex.LowerChar(s[i]) == s[i] && !Hex.IsSpace(s[i])
  {
    Hex.LowerDigitInverse(b / 16);
    Hex.LowerDigitInverse(b % 16);
  }

  lemma {:induction false} ZeroByteShows(bytes: seq<Byte>, j: nat)
    requires j < |bytes| && bytes[j] == 0
    ensures Hex.Encode(bytes)[2 * j] == '0' && Hex.Encode(bytes)[2 * j + 1] == '0'
  {
    if j > 0 { ZeroByteShows(bytes[1..], j - 1); }
  }

  /** Spelled with plus signs, any transaction gets the same structural verdict as in plain
      hex, while the byte-run check refuses it for every recipient with a zero byte. */
  lemma PlusHexIsRefused(lib: Library, raw: seq<Byte>, to: string, transfer: Transfer, feeLimit: Option<U64>, j: nat)
    requires lib.decodeAddress(to).Some? && j < 21 && lib.decodeAddress(to).value[j] == 0
    ensures var txid := Hex.Encode(lib.sha256(raw));
            && VerifyContract(lib, PlusHex(raw), to, txid, transfer, feeLimit)
            == VerifyContract(lib, Hex.Encode(raw), to, txid, transfer, feeLimit)
            && VerifyTransfer(lib, PlusHex(raw), to, txid, transfer) == Err(UntrustedResponse)
  {
    hide CheckRaw, Contains, Hex.Encode, PlusHex, Hex.DecodePairs, Hex.SameIgnoringCase, Hex.Lower, NoDoubleZero;
    var recipient := lib.decodeAddress(to).value;
    PlusHexReads(raw);
    Unspaced(PlusHex(raw));
    Hex.Survives(raw);
    Hex.Survives(lib.sha256(raw));
    Hex.DecodeEncode(recipient);
    if Contains(Hex.Lower(PlusHex(raw)), Hex.Lower(Hex.Encode(recipient))) {
      NotFound(PlusHex(raw), recipient, j);
    }
  }

  lemma NotFound(s: string, recipient: seq<Byte>, j: nat)
    requires NoDoubleZero(s) && j < |recipient| && recipient[j] == 0
    ensures !Contains(s, Hex.Encode(recipient))
  {
    ZeroByteShows(recipient, j);
    hide Hex.Encode;
    var needle := Hex.Encode(recipient);
    forall at | 0 <= at <= |s| ensures !RunAt(s, needle, at) {
      if RunAt(s, needle, at) {
        assert false;
      }
    }
  }

  lemma Unspaced(s: string)
    requires forall i :: 0 <= i < |s| ==> !Hex.IsSpace(s[i])
    ensures Hex.Trim(s) == s
  {
  }

  // ----- the converse fails: a transaction can hold every run and pay someone else

  const SELECTOR: seq<Byte> := [0xa9, 0x05, 0x9c, 0xbb]

  /** A request the byte-run check could accept at all: its run is there to look for. */
  predicate Searchable(transfer: Transfer) {
    transfer.Trc20? ==>
      var parameter := Hex.Decode(transfer.parameterHex);
      parameter.Ok? && 0 < |parameter.value| <= MAX_ALLOCATION
  }

  function KindOf(transfer: Transfer): U64 { if transfer.Native? then TRANSFER_KIND else TRIGGER_KIND }

  function UrlSuffix(transfer: Transfer): string {
    if transfer.Native? then ".TransferContract" else ".TriggerSmartContract"
  }

  function UrlText(transfer: Transfer): string { "x" + UrlSuffix(transfer) }

  /** The payload field that says what moves: an amount, or the calldata. */
  function TermsWire(transfer: Transfer): Wire
    requires Searchable(transfer)
  {
    match transfer
    case Native(amount) => WireNumber(3, amount)
    case Trc20(parameterHex) => WireBytes(4, SELECTOR + Hex.Decode(parameterHex).value)
  }

  /** A well-formed transaction of this transfer that names `payee` where the recipient (or
      the token contract) goes, with `memo` in the unread field 10. */
  function PayingTransaction(payee: Address, transfer: Transfer, memo: Address): seq<Byte>
    requires Searchable(transfer)
  {
    var payload := [WireBytes(2, payee), TermsWire(transfer)];
    var any := [WireBytes(1, Ascii(UrlText(transfer))), WireBytes(2, Serialise(payload))];
    var contract := [WireNumber(1, KindOf(transfer)), WireBytes(2, Serialise(any))];
    Serialise([WireBytes(10, memo), WireBytes(11, Serialise(contract))])
  }

  lemma SerialisePair(a: Wire, b: Wire)
    requires Serialisable(a) && Serialisable(b)
    ensures Serialise([a, b]) == SerialiseOne(a) + SerialiseOne(b)
    ensures Parse(Serialise([a, b])) == Ok([Erase(a), Erase(b)])
    ensures IsMessage(Serialise([a, b]), [Erase(a), Erase(b)])
  {
    hide SerialiseOne, Erase, Parse, IsMessage;
    assert [a, b][1..] == [b] && [b][1..] == [];
    assert Serialise([b]) == SerialiseOne(b) + [];
    ParseSerialise([a, b]);
    assert EraseAll([a, b]) == [Erase(a), Erase(b)];
    ParseIff(Serialise([a, b]), [Erase(a), Erase(b)]);
  }

  lemma {:induction false} EncodeLength(v: nat, k: nat)
    requires k <= 9 && v < Varint.Cap(k)
    ensures |Varint.Encode(v)| <= 10 - k
    decreases 9 - k
  {
    if v >= 128 { EncodeLength(v / 128, k + 1); }
  }

  lemma SerialiseOneLength(w: Wire)
    requires Serialisable(w) && (w.WireBytes? || w.WireNumber?)
    ensures |SerialiseOne(w)| <= 20 + if w.WireBytes? then |w.body| else 0
  {
    hide Varint.Encode;
    Varint.CapZero();
    EncodeLength(w.number * 8 + 2, 0);
    EncodeLength(w.number * 8, 0);
    if w.WireBytes? { EncodeLength(|w.body|, 0); } else { EncodeLength(w.n, 0); }
  }

  lemma TwoOnce(a: Field, b: Field)
    requires a.number != b.number
    ensures Once([a, b], a.number, a.value) && Once([a, b], b.number, b.value)
  {
    assert [a, b][0] == a && OnlyAt([a, b], a.number, 0);
    assert [a, b][1] == b && OnlyAt([a, b], b.number, 1);
  }

  lemma PairNests(a: Wire, b: Wire) returns (fs: seq<Field>)
    requires Serialisable(a) && Serialisable(b) && a.number != b.number
    requires (a.WireBytes? || a.WireNumber?) && (b.WireBytes? || b.WireNumber?)
    ensures fs == [Erase(a), Erase(b)]
    ensures IsMessage(Serialise([a, b]), fs)
    ensures Once(fs, a.number, Erase(a).value) && Once(fs, b.number, Erase(b).value)
    ensures |Serialise([a, b])| <= 40 + (if a.WireBytes? then |a.body| else 0) + (if b.WireBytes? then |b.body| else 0)
  {
    hide SerialiseOne, IsMessage, Once, Parse;
    fs := [Erase(a), Erase(b)];
    SerialisePair(a, b);
    TwoOnce(Erase(a), Erase(b));
    SerialiseOneLength(a);
    SerialiseOneLength(b);
  }

  lemma PayingTransactionNests(payee: Address, transfer: Transfer, memo: Address) returns (l: Layers)
    requires Searchable(transfer)
    ensures Nests(PayingTransaction(payee, transfer, memo), l)
    ensures l.top == [Field(10, Bytes(memo)), Field(11, Bytes(l.contractBytes))]
    ensures l.payloadFields == [Field(2, Bytes(payee)), Erase(TermsWire(transfer))]
    ensures l.contract.kind == KindOf(transfer) && l.contract.typeUrl == Ascii(UrlText(transfer))
    ensures l.contract.payload == Serialise([WireBytes(2, payee), TermsWire(transfer)])
  {
    hide Serialise, IsMessage, Once, Parse, Hex.Decode, Ascii;
    var url := Ascii(UrlText(transfer));
    UrlIsUtf8(transfer);
    var terms := TermsWire(transfer);
    var payload := Serialise([WireBytes(2, payee), terms]);
    var pf := PairNests(WireBytes(2, payee), terms);
    var any := Serialise([WireBytes(1, url), WireBytes(2, payload)]);
    var af := PairNests(WireBytes(1, url), WireBytes(2, payload));
    var contract := Serialise([WireNumber(1, KindOf(transfer)), WireBytes(2, any)]);
    var cf := PairNests(WireNumber(1, KindOf(transfer)), WireBytes(2, any));
    var top := PairNests(WireBytes(10, memo), WireBytes(11, contract));
    l := Layers(top, contract, cf, any, af, Contract(KindOf(transfer), url, payload), pf);
  }

  lemma AmountIsMinimal(payee: Address, amount: U64)
    ensures MinimalAmountAt(Serialise([WireBytes(2, payee), WireNumber(3, amount)]), amount,
                            AmountAt(SerialiseOne(WireBytes(2, payee)), Varint.Encode(24), []))
  {
    hide Varint.Encode, Varint.GroupSum, Varint.IsVarint, Varint.Take, Parse, EraseAll, IsMessage;
    var a, b := WireBytes(2, payee), WireNumber(3, amount);
    ParseSerialise([]);
    SerialisePair(a, b);
    Varint.RoundTrip(24, []);
    ParseSerialise([a]);
    assert [a][1..] == [];
    assert Serialise([a]) == SerialiseOne(a) + [] == SerialiseOne(a);
    assert SerialiseOne(b) == Varint.Encode(24) + Varint.Encode(amount);
    var x, y, z := SerialiseOne(a), Varint.Encode(24), Varint.Encode(amount);
    assert x + (y + z) == x + y + z + [];
  }

  lemma UrlIsUtf8(transfer: Transfer)
    ensures IsUtf8(Ascii(UrlText(transfer))) && |Ascii(UrlText(transfer))| < 40
    ensures EndsWith(Ascii(UrlText(transfer)), Ascii(UrlSuffix(transfer)))
  {
    hide IsUtf8, UrlSuffix;
    SuffixIsAscii(transfer);
    AsciiIsUtf8(Ascii(UrlText(transfer)));
    assert Ascii(UrlText(transfer))[1..] == Ascii(UrlSuffix(transfer));
  }

  lemma SuffixIsAscii(transfer: Transfer)
    ensures |UrlSuffix(transfer)| < 39
    ensures forall i :: 0 <= i < |UrlSuffix(transfer)| ==> UrlSuffix(transfer)[i] < 0x80 as char
  {
  }

  lemma {:induction false} AsciiIsUtf8(s: seq<Byte>)
    requires forall i :: 0 <= i < |s| ==> s[i] < 0x80
    ensures IsUtf8(s)
  {
    if s != [] { AsciiIsUtf8(s[1..]); }
  }

  /** The transaction performs the transfer for the payee it names, and for nobody else. */
  lemma PaysOnlyItsPayee(payee: Address, transfer: Transfer, memo: Address, who: Address, feeLimit: Option<U64>)
    requires Searchable(transfer)
    ensures IsRequested(PayingTransaction(payee, transfer, memo), who, transfer, feeLimit) <==> who == payee
  {
    hide PayingTransaction, Nests, Hex.Decode, IsUtf8, Ascii, EndsWith;
    var raw := PayingTransaction(payee, transfer, memo);
    var l := PayingTransactionNests(payee, transfer, memo);
    var terms := Erase(TermsWire(transfer));
    UrlIsUtf8(transfer);
    TwoOnce(l.payloadFields[0], terms);
    if who == payee {
      assert Absent(l.top, 18);
      assert Performs(l, who, transfer, feeLimit);
    }
    if IsRequested(raw, who, transfer, feeLimit) {
      var m :| Nests(raw, m) && Performs(m, who, transfer, feeLimit);
      LayersAreUnique(raw, l, m);
      assert Once(l.payloadFields, 2, Bytes(who));
    }
  }

  lemma RunsOf(payee: Address, transfer: Transfer, memo: Address)
    requires Searchable(transfer)
    ensures var raw := PayingTransaction(payee, transfer, memo);
            Contains(raw, memo) && ExpectedRun(transfer).Ok? && Contains(raw, ExpectedRun(transfer).value)
  {
    hide PayingTransaction, IsMessage, Once, Contains, Varint.Encode, Hex.Decode, Serialise, Parse;
    var raw := PayingTransaction(payee, transfer, memo);
    var l := PayingTransactionNests(payee, transfer, memo);
    TwoOnce(l.top[0], l.top[1]);
    OnceIsRun(raw, l.top, 10, memo);
    PayloadIsRun(raw, l);
    var terms := Erase(TermsWire(transfer));
    TwoOnce(l.payloadFields[0], terms);
    match transfer {
      case Native(amount) =>
        AmountIsMinimal(payee, amount);
        var at := AmountAt(SerialiseOne(WireBytes(2, payee)), Varint.Encode(24), []);
        ContainsMiddle(at.before + at.key, Varint.Encode(amount), at.after);
        ContainsTransitive(raw, l.contract.payload, Varint.Encode(amount));
      case Trc20(parameterHex) =>
        var parameter := Hex.Decode(parameterHex).value;
        assert Once(l.payloadFields, 4, Bytes(SELECTOR + parameter));
        ContainsMiddle(SELECTOR, parameter, []);
        assert SELECTOR + parameter + [] == SELECTOR + parameter;
        ContainsTransitive(raw, SELECTOR + parameter, parameter);
    }
  }

  /** For every request, native or TRC20, and every other payee there is a well-formed
      transaction that performs the transfer for the other payee, passes the byte-run
      check, and is refused structurally. */
  lemma RunCheckIsStrictlyWeaker(lib: Library, to: string, other: Address, transfer: Transfer, feeLimit: Option<U64>)
    requires lib.decodeAddress(to).Some? && lib.decodeAddress(to).value != other && Searchable(transfer)
    ensures var requested := lib.decodeAddress(to).value;
            var raw := PayingTransaction(other, transfer, requested);
            var rawHex, txid := Hex.Encode(raw), Hex.Encode(lib.sha256(raw));
            && VerifyTransfer(lib, rawHex, to, txid, transfer) == Ok(())
            && VerifyContract(lib, rawHex, to, txid, transfer, feeLimit) != Ok(())
            && IsRequested(raw, other, transfer, feeLimit)
  {
    hide PayingTransaction, Hex.Encode, Contains, IsRequested, ExpectedRun, Hex.Lower, Hex.Decode, VerifyContract;
    var requested := lib.decodeAddress(to).value;
    var raw := PayingTransaction(other, transfer, requested);
    var rawHex, txid := Hex.Encode(raw), Hex.Encode(lib.sha256(raw));
    Hex.Survives(raw);
    Hex.Survives(lib.sha256(raw));
    RunsOf(other, transfer, requested);
    RunIsNotEmpty(transfer);
    RecipientShowsInText(rawHex, raw, requested);
    VerifyContractIff(lib, rawHex, to, txid, transfer, feeLimit);
    PaysOnlyItsPayee(other, transfer, requested, requested, feeLimit);
    PaysOnlyItsPayee(other, transfer, requested, other, feeLimit);
  }

  /** Request by request, the byte-run check is as strict as the structural one exactly when
      it accepts nothing at all: an invalid recipient, or no run to look for. */
  lemma RunCheckSufficesIff(lib: Library, to: string, transfer: Transfer, feeLimit: Option<U64>)
    requires transfer.Trc20? && Hex.Decode(transfer.parameterHex).Ok? ==> |Hex.Decode(transfer.parameterHex).value| <= MAX_ALLOCATION
    ensures (forall rawHex, txid ::
               VerifyTransfer(lib, rawHex, to, txid, transfer) == Ok(()) ==>
               VerifyContract(lib, rawHex, to, txid, transfer, feeLimit) == Ok(()))
            <==> lib.decodeAddress(to).None? || !Searchable(transfer)
  {
    hide VerifyContract, Contains, Hex.Decode, Hex.Encode, Hex.SameIgnoringCase, PayingTransaction, IsRequested;
    if lib.decodeAddress(to).Some? && Searchable(transfer) {
      var requested := lib.decodeAddress(to).value;
      var other: Address := requested[0 := if requested[0] == 0 then 1 else 0];
      assert other[0] != requested[0];
      RunCheckIsStrictlyWeaker(lib, to, other, transfer, feeLimit);
    }
  }

  lemma RunIsNotEmpty(transfer: Transfer)
    requires Searchable(transfer)
    ensures ExpectedRun(transfer).Ok? && ExpectedRun(transfer).value != []
  {
  }

  /** Named as the recipient, the same transaction is accepted. */
  lemma PayingTransactionAccepted(lib: Library, to: string, transfer: Transfer, memo: Address, feeLimit: Option<U64>)
    requires lib.decodeAddress(to).Some? && Searchable(transfer)
    ensures var raw := PayingTransaction(lib.decodeAddress(to).value, transfer, memo);
            VerifyContract(lib, Hex.Encode(raw), to, Hex.Encode(lib.sha256(raw)), transfer, feeLimit) == Ok(())
  {
    hide PayingTransaction, Hex.Encode, IsRequested, Hex.Decode, VerifyContract;
    var payee := lib.decodeAddress(to).value;
    var raw := PayingTransaction(payee, transfer, memo);
    Hex.Survives(raw);
    Hex.Survives(lib.sha256(raw));
    PaysOnlyItsPayee(payee, transfer, memo, payee, feeLimit);
    VerifyContractIff(lib, Hex.Encode(raw), to, Hex.Encode(lib.sha256(raw)), transfer, feeLimit);
  }

  /** A byte string has at most one reading. */
  lemma LayersAreUnique(raw: seq<Byte>, l: Layers, m: Layers)
    requires Nests(raw, l) && Nests(raw, m)
    ensures l == m
  {
    hide Parse, OneBytes, OneVarint, Nests, IsUtf8;
    LayersNest(raw, l);
    LayersNest(raw, m);
  }
}

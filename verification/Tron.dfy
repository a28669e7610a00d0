/** Deciding whether a node-built Tron transaction is the one that was requested. */
module Tron {
  import opened Bytes
  import opened Proto
  import Hex
  import Varint
  import opened Utf8

  type Digest = s: seq<Byte> | |s| == 32 witness seq(32, _ => 0)
  type Address = s: seq<Byte> | |s| == 21 witness seq(21, _ => 0)

  /** The foreign code used here: SHA-256 and base58check decoding of an address. */
  datatype Library = Library(sha256: seq<Byte> -> Digest, decodeAddress: string -> Option<Address>)

  datatype Transfer = Native(amount: U64) | Trc20(parameterHex: string)

  /** Kind, type url and payload: all that the two inner envelopes say. */
  datatype Contract = Contract(kind: U64, typeUrl: seq<Byte>, payload: seq<Byte>)

  const TRANSFER_KIND: U64 := 1
  const TRIGGER_KIND: U64 := 31
  const SELECTOR_HEX := "a9059cbb"

  function Ascii(s: string): (b: seq<Byte>)
    ensures |b| == |s| && forall i :: 0 <= i < |s| && s[i] as int < 128 ==> b[i] == s[i] as int
  {
    seq(|s|, i requires 0 <= i < |s| => s[i] as int % 256)
  }

  predicate EndsWith(s: seq<Byte>, suffix: seq<Byte>) {
    |suffix| <= |s| && s[|s| - |suffix|..] == suffix
  }

  lemma EndsWithIff(s: seq<Byte>, suffix: seq<Byte>)
    ensures EndsWith(s, suffix) <==> exists front: seq<Byte> :: s == front + suffix
  {
    if EndsWith(s, suffix) {
      assert s == s[..|s| - |suffix|] + suffix;
    }
  }

  function RecomputeTxid(lib: Library, rawHex: string): Result<string> {
    var raw :- Hex.Decode(rawHex);
    Ok(Hex.Encode(lib.sha256(raw)))
  }

  function ToHex(lib: Library, to: string): Result<string> {
    match lib.decodeAddress(to)
    case Some(address) => Ok(Hex.Encode(address))
    case None => Err(BadAddress)
  }

  // ----- the byte-run check

  function VerifyTransfer(lib: Library, rawHex: string, to: string, txid: string, transfer: Transfer): Result<()> {
    var expectedId :- RecomputeTxid(lib, rawHex);
    if !Hex.SameIgnoringCase(expectedId, Hex.Trim(txid)) then Err(UntrustedResponse)
    else
      var toHex :- ToHex(lib, to);
      if !Contains(Hex.Lower(rawHex), Hex.Lower(toHex)) then Err(UntrustedResponse)
      else
        var raw :- Hex.Decode(rawHex);
        var expected :- ExpectedRun(transfer);
        if expected == [] || !Contains(raw, expected) then Err(UntrustedResponse)
        else Ok(())
  }

  function ExpectedRun(transfer: Transfer): Result<seq<Byte>> {
    match transfer
    case Native(amount) => Ok(Varint.Encode(amount))
    case Trc20(parameterHex) => Hex.Decode(parameterHex)
  }

  /** The byte-run check accepts exactly on a matching id, a valid recipient whose hex shows
      in the text, and a run that is there to look for and occurs in the bytes. */
  lemma VerifyTransferIff(lib: Library, rawHex: string, to: string, txid: string, transfer: Transfer)
    ensures VerifyTransfer(lib, rawHex, to, txid, transfer) == Ok(()) <==>
            && Hex.Decode(rawHex).Ok?
            && Hex.SameIgnoringCase(Hex.Encode(lib.sha256(Hex.Decode(rawHex).value)), Hex.Trim(txid))
            && lib.decodeAddress(to).Some?
            && Contains(Hex.Lower(rawHex), Hex.Encode(lib.decodeAddress(to).value))
            && match transfer
               case Native(amount) => Contains(Hex.Decode(rawHex).value, Varint.Encode(amount))
               case Trc20(parameterHex) =>
                 && Hex.Decode(parameterHex).Ok? && Hex.Decode(parameterHex).value != []
                 && Contains(Hex.Decode(rawHex).value, Hex.Decode(parameterHex).value)
  {
    hide Hex.Encode, Hex.Decode, Hex.SameIgnoringCase, Hex.Trim, Hex.Lower, Contains, Varint.Encode;
    if lib.decodeAddress(to).Some? { Hex.DecodeEncode(lib.decodeAddress(to).value); }
  }

  /** Its errors: bad hex, then the id, then the address, then the runs. */
  lemma VerifyTransferErrors(lib: Library, rawHex: string, to: string, txid: string, transfer: Transfer)
    ensures var r := VerifyTransfer(lib, rawHex, to, txid, transfer);
            match Hex.Decode(rawHex)
            case Err(_) => r == Err(InvalidField)
            case Ok(raw) =>
              if !Hex.SameIgnoringCase(Hex.Encode(lib.sha256(raw)), Hex.Trim(txid)) then r == Err(UntrustedResponse)
              else if lib.decodeAddress(to).None? then r == Err(BadAddress)
              else if !Contains(Hex.Lower(rawHex), Hex.Encode(lib.decodeAddress(to).value)) then r == Err(UntrustedResponse)
              else if transfer.Trc20? && Hex.Decode(transfer.parameterHex).Err? then r == Err(InvalidField)
              else r == Ok(()) || r == Err(UntrustedResponse)
  {
    hide Hex.Encode, Hex.DecodePairs, Hex.SameIgnoringCase, Hex.Trim, Hex.Lower, Contains, Varint.Encode;
    if lib.decodeAddress(to).Some? { Hex.DecodeEncode(lib.decodeAddress(to).value); }
  }

  // ----- the structural check

  function VerifyContract(
    lib: Library, rawHex: string, to: string, txid: string, transfer: Transfer, feeLimit: Option<U64>
  ): Result<()> {
    var expectedId :- RecomputeTxid(lib, rawHex);
    if !Hex.SameIgnoringCase(expectedId, Hex.Trim(txid)) then Err(UntrustedResponse)
    else
      var raw :- Hex.Decode(rawHex);
      var toHex :- ToHex(lib, to);
      var recipient :- Hex.Decode(toHex);
      CheckRaw(raw, recipient, transfer, feeLimit)
  }

  /** The check of the raw bytes themselves, once the id has matched. */
  function CheckRaw(raw: seq<Byte>, recipient: seq<Byte>, transfer: Transfer, feeLimit: Option<U64>): Result<()> {
    var top :- Parse(raw);
    var contract :- ParseSingleContract(top);
    match transfer
    case Native(amount) => CheckNative(contract, recipient, amount)
    case Trc20(parameterHex) => CheckTrc20(top, contract, recipient, parameterHex, feeLimit)
  }

  function ParseSingleContract(top: seq<Field>): Result<Contract> {
    var contractBytes :- OneBytes(top, 11);
    var contractFields :- Parse(contractBytes);
    ReadContract(contractFields)
  }

  function ReadContract(contractFields: seq<Field>): Result<Contract> {
    var kind :- OneVarint(contractFields, 1);
    var anyBytes :- OneBytes(contractFields, 2);
    var anyFields :- Parse(anyBytes);
    ReadAny(kind, anyFields)
  }

  function ReadAny(kind: U64, anyFields: seq<Field>): Result<Contract> {
    var typeUrl :- OneBytes(anyFields, 1);
    if !IsUtf8(typeUrl) then Err(InvalidField)
    else
      var payload :- OneBytes(anyFields, 2);
      Ok(Contract(kind, typeUrl, payload))
  }

  function CheckNative(contract: Contract, recipient: seq<Byte>, amount: U64): Result<()> {
    if contract.kind != TRANSFER_KIND || !EndsWith(contract.typeUrl, Ascii(".TransferContract")) then
      Err(UntrustedResponse)
    else
      var payload :- Parse(contract.payload);
      NativeTerms(payload, recipient, amount)
  }

  function NativeTerms(payload: seq<Field>, recipient: seq<Byte>, amount: U64): Result<()> {
    var paid :- OneBytes(payload, 2);
    if paid != recipient then Err(UntrustedResponse)
    else
      var moved :- OneVarint(payload, 3);
      if moved != amount then Err(UntrustedResponse) else Ok(())
  }

  function CheckTrc20(
    top: seq<Field>, contract: Contract, recipient: seq<Byte>, parameterHex: string, feeLimit: Option<U64>
  ): Result<()> {
    if contract.kind != TRIGGER_KIND || !EndsWith(contract.typeUrl, Ascii(".TriggerSmartContract")) then
      Err(UntrustedResponse)
    else
      var payload :- Parse(contract.payload);
      Trc20Terms(top, payload, recipient, parameterHex, feeLimit)
  }

  function Trc20Terms(
    top: seq<Field>, payload: seq<Field>, recipient: seq<Byte>, parameterHex: string, feeLimit: Option<U64>
  ): Result<()> {
    var target :- OneBytes(payload, 2);
    if target != recipient then Err(UntrustedResponse)
    else
      var callValue :- OptionalVarint(payload, 3);
      if callValue.Some? && callValue.value != 0 then Err(UntrustedResponse)
      else
        var actual :- OptionalVarint(top, 18);
        if feeLimit.Some? && actual.Some? && actual != feeLimit then Err(UntrustedResponse)
        else
          Trc20Data(payload, parameterHex)
  }

  function Trc20Data(payload: seq<Field>, parameterHex: string): Result<()> {
    var selector :- Hex.Decode(SELECTOR_HEX);
    var parameter :- Hex.Decode(parameterHex);
    var data :- OneBytes(payload, 4);
    if data != selector + parameter then Err(UntrustedResponse) else Ok(())
  }

  // ----- the exact acceptance condition

  /** Every level of a transaction: its bytes and the fields they are. */
  datatype Layers = Layers(
    top: seq<Field>,
    contractBytes: seq<Byte>, contractFields: seq<Field>,
    anyBytes: seq<Byte>, anyFields: seq<Field>,
    contract: Contract, payloadFields: seq<Field>)

  /** The levels nest: each is well-formed, and each read field occurs exactly once. */
  ghost predicate Nests(raw: seq<Byte>, l: Layers) {
    && IsMessage(raw, l.top)
    && Once(l.top, 11, Bytes(l.contractBytes))
    && IsMessage(l.contractBytes, l.contractFields)
    && Once(l.contractFields, 1, Number(l.contract.kind))
    && Once(l.contractFields, 2, Bytes(l.anyBytes))
    && IsMessage(l.anyBytes, l.anyFields)
    && Once(l.anyFields, 1, Bytes(l.contract.typeUrl)) && IsUtf8(l.contract.typeUrl)
    && Once(l.anyFields, 2, Bytes(l.contract.payload))
    && IsMessage(l.contract.payload, l.payloadFields)
  }

  /** The transaction moves what was asked, to whom it was asked, and nothing else. */
  ghost predicate Performs(l: Layers, recipient: seq<Byte>, transfer: Transfer, feeLimit: Option<U64>) {
    && Once(l.payloadFields, 2, Bytes(recipient))
    && match transfer
       case Native(amount) =>
         && l.contract.kind == 1
         && EndsWith(l.contract.typeUrl, Ascii(".TransferContract"))
         && Once(l.payloadFields, 3, Number(amount))
       case Trc20(parameterHex) =>
         && l.contract.kind == 31
         && EndsWith(l.contract.typeUrl, Ascii(".TriggerSmartContract"))
         && (Absent(l.payloadFields, 3) || Once(l.payloadFields, 3, Number(0)))
         && FeeLimitAgrees(l.top, feeLimit)
         && Hex.Decode(parameterHex).Ok?
         && Once(l.payloadFields, 4, Bytes([0xa9, 0x05, 0x9c, 0xbb] + Hex.Decode(parameterHex).value))
  }

  ghost predicate FeeLimitAgrees(top: seq<Field>, feeLimit: Option<U64>) {
    || Absent(top, 18)
    || exists actual: U64 :: Once(top, 18, Number(actual)) && (feeLimit.Some? ==> feeLimit.value == actual)
  }

  ghost predicate IsRequested(raw: seq<Byte>, recipient: seq<Byte>, transfer: Transfer, feeLimit: Option<U64>) {
    exists l :: Nests(raw, l) && Performs(l, recipient, transfer, feeLimit)
  }

  lemma SelectorHex()
    ensures Hex.Encode([0xa9, 0x05, 0x9c, 0xbb]) == SELECTOR_HEX
  {
    Hex.EncodeConcat([0xa9], [0x05]);
    Hex.EncodeConcat([0x9c], [0xbb]);
    Hex.EncodeConcat([0xa9, 0x05], [0x9c, 0xbb]);
    Hex.EncodeOne(0xa9);
    Hex.EncodeOne(0x05);
    Hex.EncodeOne(0x9c);
    Hex.EncodeOne(0xbb);
    hide Hex.Encode;
    assert [0xa9 as Byte] + [0x05] == [0xa9, 0x05] && [0x9c as Byte] + [0xbb] == [0x9c, 0xbb];
    assert [0xa9 as Byte, 0x05] + [0x9c, 0xbb] == [0xa9, 0x05, 0x9c, 0xbb];
  }

  lemma SelectorBytes()
    ensures Hex.Decode(SELECTOR_HEX) == Ok([0xa9, 0x05, 0x9c, 0xbb])
  {
    hide Hex.Encode, Hex.Decode;
    SelectorHex();
    Hex.Survives([0xa9, 0x05, 0x9c, 0xbb]);
  }

  lemma LayersNest(raw: seq<Byte>, l: Layers)
    ensures Nests(raw, l) <==>
            && Parse(raw) == Ok(l.top)
            && OneBytes(l.top, 11) == Ok(l.contractBytes)
            && Parse(l.contractBytes) == Ok(l.contractFields)
            && OneVarint(l.contractFields, 1) == Ok(l.contract.kind)
            && OneBytes(l.contractFields, 2) == Ok(l.anyBytes)
            && Parse(l.anyBytes) == Ok(l.anyFields)
            && ReadAny(l.contract.kind, l.anyFields) == Ok(l.contract)
            && Parse(l.contract.payload) == Ok(l.payloadFields)
  {
    hide Parse, IsMessage, OneBytes, OneVarint, Once, IsUtf8;
    ParseIff(raw, l.top);
    ParseIff(l.contractBytes, l.contractFields);
    ParseIff(l.anyBytes, l.anyFields);
    ParseIff(l.contract.payload, l.payloadFields);
    LookupsIff(l.top, 11);
    LookupsIff(l.contractFields, 1);
    LookupsIff(l.contractFields, 2);
    LookupsIff(l.anyFields, 1);
    LookupsIff(l.anyFields, 2);
  }

  lemma BytesIff(fields: seq<Field>, number: nat, b: seq<Byte>)
    ensures OneBytes(fields, number) == Ok(b) <==> Once(fields, number, Bytes(b))
  {
    hide OneBytes, Once;
    LookupsIff(fields, number);
  }

  lemma NumberIff(fields: seq<Field>, number: nat, n: U64)
    ensures OneVarint(fields, number) == Ok(n) <==> Once(fields, number, Number(n))
  {
    hide OneVarint, Once;
    LookupsIff(fields, number);
  }

  lemma NativeTermsIff(payload: seq<Field>, recipient: seq<Byte>, amount: U64)
    ensures NativeTerms(payload, recipient, amount) == Ok(()) <==>
            Once(payload, 2, Bytes(recipient)) && Once(payload, 3, Number(amount))
  {
    hide OneBytes, OneVarint, Once;
    BytesIff(payload, 2, recipient);
    NumberIff(payload, 3, amount);
  }

  lemma Trc20TermsIff(
    top: seq<Field>, payload: seq<Field>, recipient: seq<Byte>, parameterHex: string, feeLimit: Option<U64>
  )
    ensures Trc20Terms(top, payload, recipient, parameterHex, feeLimit) == Ok(()) <==>
            && Once(payload, 2, Bytes(recipient))
            && (Absent(payload, 3) || Once(payload, 3, Number(0)))
            && FeeLimitAgrees(top, feeLimit)
            && Hex.Decode(parameterHex).Ok?
            && Once(payload, 4, Bytes([0xa9, 0x05, 0x9c, 0xbb] + Hex.Decode(parameterHex).value))
  {
    hide OneBytes, OptionalVarint, Once, Absent, Hex.Decode, FeeLimitAgrees, Trc20Data;
    BytesIff(payload, 2, recipient);
    CallValueIff(payload);
    FeeLimitIff(top, feeLimit);
    Trc20DataIff(payload, parameterHex);
  }

  lemma Trc20DataIff(payload: seq<Field>, parameterHex: string)
    ensures Trc20Data(payload, parameterHex) == Ok(()) <==>
            && Hex.Decode(parameterHex).Ok?
            && Once(payload, 4, Bytes([0xa9, 0x05, 0x9c, 0xbb] + Hex.Decode(parameterHex).value))
  {
    hide OneBytes, Once, Hex.Decode;
    SelectorBytes();
    var selector: seq<Byte> := [0xa9, 0x05, 0x9c, 0xbb];
    if Hex.Decode(parameterHex).Ok? {
      BytesIff(payload, 4, selector + Hex.Decode(parameterHex).value);
    }
  }

  lemma CallValueIff(payload: seq<Field>)
    ensures Absent(payload, 3) || Once(payload, 3, Number(0)) <==>
            OptionalVarint(payload, 3) == Ok(None) || OptionalVarint(payload, 3) == Ok(Some(0))
  {
    hide OptionalVarint, Once, Absent;
    LookupsIff(payload, 3);
  }

  lemma FeeLimitIff(top: seq<Field>, feeLimit: Option<U64>)
    ensures FeeLimitAgrees(top, feeLimit) <==>
            var actual := OptionalVarint(top, 18);
            actual.Ok? && (feeLimit.Some? && actual.value.Some? ==> actual.value == feeLimit)
  {
    hide OptionalVarint, Once, Absent;
    LookupsIff(top, 18);
    var actual := OptionalVarint(top, 18);
    if actual.Ok? && actual.value.Some? {
      assert Once(top, 18, Number(actual.value.value));
    }
  }

  lemma TermsIff(l: Layers, recipient: seq<Byte>, transfer: Transfer, feeLimit: Option<U64>)
    requires Parse(l.contract.payload) == Ok(l.payloadFields)
    ensures Performs(l, recipient, transfer, feeLimit) <==>
            match transfer
            case Native(amount) => CheckNative(l.contract, recipient, amount) == Ok(())
            case Trc20(parameterHex) => CheckTrc20(l.top, l.contract, recipient, parameterHex, feeLimit) == Ok(())
  {
    hide Parse, NativeTerms, Trc20Terms, FeeLimitAgrees, Once, Absent, Hex.Decode, Ascii, EndsWith;
    match transfer
    case Native(amount) => NativeTermsIff(l.payloadFields, recipient, amount);
    case Trc20(parameterHex) => Trc20TermsIff(l.top, l.payloadFields, recipient, parameterHex, feeLimit);
  }

  /** The raw-bytes check accepts exactly the transactions that perform the request. */
  lemma CheckRawIff(raw: seq<Byte>, recipient: seq<Byte>, transfer: Transfer, feeLimit: Option<U64>)
    ensures CheckRaw(raw, recipient, transfer, feeLimit) == Ok(()) <==>
            IsRequested(raw, recipient, transfer, feeLimit)
  {
    hide Parse, OneBytes, OneVarint, ReadAny, Nests, Performs, NativeTerms, Trc20Terms;
    if CheckRaw(raw, recipient, transfer, feeLimit) == Ok(()) {
      var top := Parse(raw).value;
      var contractBytes := OneBytes(top, 11).value;
      var contractFields := Parse(contractBytes).value;
      var anyBytes := OneBytes(contractFields, 2).value;
      var contract := ParseSingleContract(top).value;
      var l := Layers(top, contractBytes, contractFields, anyBytes, Parse(anyBytes).value, contract,
                      Parse(contract.payload).value);
      ReadAnyKeepsKind(OneVarint(contractFields, 1).value, l.anyFields);
      LayersNest(raw, l);
      TermsIff(l, recipient, transfer, feeLimit);
    }
    if IsRequested(raw, recipient, transfer, feeLimit) {
      var l :| Nests(raw, l) && Performs(l, recipient, transfer, feeLimit);
      LayersNest(raw, l);
      TermsIff(l, recipient, transfer, feeLimit);
    }
  }

  lemma ReadAnyKeepsKind(kind: U64, anyFields: seq<Field>)
    ensures ReadAny(kind, anyFields).Ok? ==> ReadAny(kind, anyFields).value.kind == kind
  {
  }

  /** The whole check: acceptance is a matching id, a valid recipient and the requested
      transfer, and nothing else. */
  lemma VerifyContractIff(
    lib: Library, rawHex: string, to: string, txid: string, transfer: Transfer, feeLimit: Option<U64>
  )
    ensures VerifyContract(lib, rawHex, to, txid, transfer, feeLimit) == Ok(()) <==>
            && Hex.Decode(rawHex).Ok?
            && Hex.SameIgnoringCase(Hex.Encode(lib.sha256(Hex.Decode(rawHex).value)), Hex.Trim(txid))
            && lib.decodeAddress(to).Some?
            && IsRequested(Hex.Decode(rawHex).value, lib.decodeAddress(to).value, transfer, feeLimit)
  {
    hide Hex.Encode, CheckRaw, IsRequested, Hex.SameIgnoringCase, Hex.DecodePairs, Hex.Trim;
    if Hex.Decode(rawHex).Ok? && lib.decodeAddress(to).Some? {
      var recipient := lib.decodeAddress(to).value;
      Hex.DecodeEncode(recipient);
      Hex.TrimPlain(Hex.Encode(recipient));
      CheckRawIff(Hex.Decode(rawHex).value, recipient, transfer, feeLimit);
    }
  }

  /** Its errors: bad hex, then the id, then the address; a transaction that is read in full
      and does something else is an untrusted response, never a malformed one. */
  lemma VerifyContractErrors(
    lib: Library, rawHex: string, to: string, txid: string, transfer: Transfer, feeLimit: Option<U64>
  )
    ensures var r := VerifyContract(lib, rawHex, to, txid, transfer, feeLimit);
            match Hex.Decode(rawHex)
            case Err(_) => r == Err(InvalidField)
            case Ok(raw) =>
              if !Hex.SameIgnoringCase(Hex.Encode(lib.sha256(raw)), Hex.Trim(txid)) then r == Err(UntrustedResponse)
              else if lib.decodeAddress(to).None? then r == Err(BadAddress)
              else
                && (r.Err? ==> r.error == InvalidField || r.error == UntrustedResponse)
                && (Parse(raw).Err? ==> r == Err(InvalidField))
                && (IsReadable(raw, transfer) ==> r == Ok(()) || r == Err(UntrustedResponse))
  {
    hide Hex.Encode, CheckRaw, Hex.SameIgnoringCase, Hex.DecodePairs, Hex.Trim, IsReadable, Parse;
    if Hex.Decode(rawHex).Ok? && lib.decodeAddress(to).Some? {
      var recipient := lib.decodeAddress(to).value;
      Hex.DecodeEncode(recipient);
      Hex.TrimPlain(Hex.Encode(recipient));
      CheckRawErrors(Hex.Decode(rawHex).value, recipient, transfer, feeLimit);
    }
  }

  /** Every field the check of this transfer reads is there, once, with its type. */
  ghost predicate HasTerms(l: Layers, transfer: Transfer) {
    && OneBytes(l.payloadFields, 2).Ok?
    && match transfer
       case Native(_) => OneVarint(l.payloadFields, 3).Ok?
       case Trc20(parameterHex) =>
         && OptionalVarint(l.payloadFields, 3).Ok? && OptionalVarint(l.top, 18).Ok?
         && OneBytes(l.payloadFields, 4).Ok? && Hex.Decode(parameterHex).Ok?
  }

  ghost predicate IsReadable(raw: seq<Byte>, transfer: Transfer) {
    exists l :: Nests(raw, l) && HasTerms(l, transfer)
  }

  lemma CheckRawErrors(raw: seq<Byte>, recipient: seq<Byte>, transfer: Transfer, feeLimit: Option<U64>)
    ensures var r := CheckRaw(raw, recipient, transfer, feeLimit);
            && (r.Err? ==> r.error == InvalidField || r.error == UntrustedResponse)
            && (Parse(raw).Err? ==> r == Err(InvalidField))
            && (IsReadable(raw, transfer) ==> r == Ok(()) || r == Err(UntrustedResponse))
  {
    LookupErrors();
    hide Parse, OneBytes, OneVarint, OptionalVarint, Nests, Hex.DecodePairs, Hex.Trim, Ascii, EndsWith, IsUtf8;
    SelectorBytes();
    if IsReadable(raw, transfer) {
      var l :| Nests(raw, l) && HasTerms(l, transfer);
      LayersNest(raw, l);
    }
  }

  lemma LookupErrors()
    ensures forall fs: seq<Field>, n: nat :: OneBytes(fs, n).Err? ==> OneBytes(fs, n) == Err(InvalidField)
    ensures forall fs: seq<Field>, n: nat :: OneVarint(fs, n).Err? ==> OneVarint(fs, n) == Err(InvalidField)
    ensures forall fs: seq<Field>, n: nat :: OptionalVarint(fs, n).Err? ==> OptionalVarint(fs, n) == Err(InvalidField)
  {
  }
}

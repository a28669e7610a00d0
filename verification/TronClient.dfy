/** The Tron client: from a quote and a node's reply to the transaction it asks to have signed. */
module TronClient {
  import opened Bytes
  import opened Intent
  import opened Proto
  import opened Tron
  import Evm
  import Hex
  import Service
  import Signer
  import TronRefinement

  const TRC20_FEE_LIMIT: U64 := 15_000_000

  /** A transaction as the node returns it. */
  datatype Reply = Reply(txid: string, rawHex: string)

  /** Whom the transaction itself must name, and the transfer it must perform. */
  datatype Expected = Expected(to: string, transfer: Transfer)

  /** The last 32 bytes, with zeros in front where there are fewer. */
  function PadLeft32(bytes: seq<Byte>): (word: seq<Byte>)
    ensures |word| == 32
    ensures if |bytes| <= 32 then bytes == word[32 - |bytes|..] else word == bytes[|bytes| - 32..]
  {
    if |bytes| <= 32 then ToBigEndian(0, 32 - |bytes|) + bytes else bytes[|bytes| - 32..]
  }

  /** The two ABI words of a TRC20 transfer, without the selector. */
  function Trc20Parameter(to: Address, amount: Evm.U128): string {
    Hex.Encode(ToBigEndian(0, 12) + to[1..] + PadLeft32(ToBigEndian(amount, 16)))
  }

  function ExpectedFor(lib: Library, quote: Quote): Option<Expected> {
    var _ :- lib.decodeAddress(quote.from);
    var to :- lib.decodeAddress(quote.to);
    var amount :- ParseU128(quote.amountRaw);
    match quote.kind
    case NativeTransfer => if amount >= U64_MODULUS then None else Some(Expected(quote.to, Native(amount)))
    case TokenTransfer =>
      var token :- quote.tokenAddress;
      var _ :- lib.decodeAddress(token);
      Some(Expected(token, Trc20(Trc20Parameter(to, amount))))
  }

  function FeeLimitFor(transfer: Transfer): Option<U64> {
    if transfer.Native? then None else Some(TRC20_FEE_LIMIT)
  }

  function CheckedSpec(lib: Library, reply: Reply, expected: Expected): Option<Spec> {
    match RecomputeTxid(lib, reply.rawHex)
    case Err(_) => None
    case Ok(recomputed) =>
      var limit := FeeLimitFor(expected.transfer);
      if VerifyContract(lib, reply.rawHex, expected.to, reply.txid, expected.transfer, limit) != Ok(()) then None
      else Some(TronSpec(reply.rawHex, expected.to, recomputed, expected.transfer))
  }

  /** What reaches the signer; `derived` is the address of the derived account. */
  function ExecutionSpec(lib: Library, derived: string, quote: Quote, reply: Reply): Option<Spec> {
    var expected :- ExpectedFor(lib, quote);
    if derived != quote.from then None else CheckedSpec(lib, reply, expected)
  }

  // ----- what the call parameter says

  /** One call of a TRC20 contract, with no value attached. */
  ghost predicate IsTokenCall(l: Layers, contract: seq<Byte>, data: seq<Byte>, call: Call, feeLimit: Option<U64>) {
    && l.contract.kind == 31 && EndsWith(l.contract.typeUrl, Ascii(".TriggerSmartContract"))
    && Once(l.payloadFields, 2, Bytes(contract)) && Once(l.payloadFields, 4, Bytes(data))
    && (Absent(l.payloadFields, 3) || Once(l.payloadFields, 3, Number(0)))
    && FeeLimitAgrees(l.top, feeLimit) && DecodeCall(data) == Some(call)
  }

  ghost predicate CallsToken(raw: seq<Byte>, contract: seq<Byte>, call: Call, feeLimit: Option<U64>) {
    exists l, data :: Nests(raw, l) && IsTokenCall(l, contract, data, call, feeLimit)
  }

  predicate IsCall(call: Call) { |call.recipient| == 20 && call.amount < Pow(256, 32) }

  /** A parameter that is the two words of a call asks for exactly that call. */
  lemma ParameterIsCall(raw: seq<Byte>, contract: seq<Byte>, parameterHex: string, call: Call, feeLimit: Option<U64>)
    requires IsCall(call) && Hex.Decode(parameterHex) == Ok(CallBytes(call)[4..])
    ensures IsRequested(raw, contract, Trc20(parameterHex), feeLimit) <==> CallsToken(raw, contract, call, feeLimit)
  {
    hide Nests, Hex.Decode, DecodeCall, Once, Absent, FeeLimitAgrees, Ascii, EndsWith, Pow, CallBytes;
    var bytes := CallBytes(call);
    CallBytesInverse(bytes, call);
    SelectorLeads(call);
    if IsRequested(raw, contract, Trc20(parameterHex), feeLimit) {
      var l :| Nests(raw, l) && Performs(l, contract, Trc20(parameterHex), feeLimit);
      assert IsTokenCall(l, contract, bytes, call, feeLimit);
    }
    if CallsToken(raw, contract, call, feeLimit) {
      var l, data :| Nests(raw, l) && IsTokenCall(l, contract, data, call, feeLimit);
      CallBytesInverse(data, call);
      assert Performs(l, contract, Trc20(parameterHex), feeLimit);
    }
  }

  lemma SelectorLeads(call: Call)
    ensures |CallBytes(call)| >= 4 && [0xa9, 0x05, 0x9c, 0xbb] + CallBytes(call)[4..] == CallBytes(call)
  {
  }

  lemma ClientParameter(to: Address, amount: Evm.U128)
    ensures var call := Call(to[1..], amount);
            IsCall(call) && Hex.Decode(Trc20Parameter(to, amount)) == Ok(CallBytes(call)[4..])
    ensures ValidHex(Trc20Parameter(to, amount))
  {
    hide Hex.Encode, Hex.Decode, Hex.Plain, ToBigEndian, Pow;
    U128InWord(amount);
    var bytes := ToBigEndian(0, 12) + to[1..] + PadLeft32(ToBigEndian(amount, 16));
    assert bytes == CallBytes(Call(to[1..], amount))[4..];
    Hex.Survives(bytes);
  }

  // ----- what the client asks to have signed

  /** The bytes do what the quote says: they pay its amount to its payee, or they call its
      token's contract with a transfer of its amount to its payee, within the fee limit. */
  ghost predicate DoesAsQuoted(lib: Library, quote: Quote, raw: seq<Byte>) {
    && lib.decodeAddress(quote.to).Some? && ParseU128(quote.amountRaw).Some?
    && var to, amount := lib.decodeAddress(quote.to).value, ParseU128(quote.amountRaw).value;
       match quote.kind
       case NativeTransfer => amount < U64_MODULUS && IsRequested(raw, to, Native(amount), None)
       case TokenTransfer =>
         && quote.tokenAddress.Some? && lib.decodeAddress(quote.tokenAddress.value).Some?
         && CallsToken(raw, lib.decodeAddress(quote.tokenAddress.value).value, Call(to[1..], amount), Some(15_000_000))
  }

  /** A reply goes to the signer exactly when the account is the sender's, the id is that
      of the bytes, and the bytes do what the quote says. */
  lemma ExecutionSpecIff(lib: Library, derived: string, quote: Quote, reply: Reply)
    ensures ExecutionSpec(lib, derived, quote, reply).Some? <==>
            && lib.decodeAddress(quote.from).Some? && derived == quote.from
            && Hex.Decode(reply.rawHex).Ok?
            && Hex.SameIgnoringCase(Hex.Encode(lib.sha256(Hex.Decode(reply.rawHex).value)), Hex.Trim(reply.txid))
            && DoesAsQuoted(lib, quote, Hex.Decode(reply.rawHex).value)
  {
    hide VerifyContract, IsRequested, CallsToken, Hex.Decode, Hex.SameIgnoringCase, Hex.Encode, Hex.Trim, ParseU128;
    hide Trc20Parameter;
    if ExpectedFor(lib, quote).Some? {
      var Expected(to, transfer) := ExpectedFor(lib, quote).value;
      VerifyContractIff(lib, reply.rawHex, to, reply.txid, transfer, FeeLimitFor(transfer));
      if quote.kind == TokenTransfer && Hex.Decode(reply.rawHex).Ok? {
        var payee, amount := lib.decodeAddress(quote.to).value, ParseU128(quote.amountRaw).value;
        ClientParameter(payee, amount);
        ParameterIsCall(Hex.Decode(reply.rawHex).value, lib.decodeAddress(to).value, transfer.parameterHex,
                        Call(payee[1..], amount), Some(TRC20_FEE_LIMIT));
      }
    }
  }

  /** What the client passed, the signer's own check passes: without the fee limit, and
      with the id computed from the bytes in place of the node's. */
  lemma SignerAgreesWithClient(lib: Library, derived: string, quote: Quote, reply: Reply)
    requires ExecutionSpec(lib, derived, quote, reply).Some?
    ensures var spec := ExecutionSpec(lib, derived, quote, reply).value;
            && spec.TronSpec? && spec.rawDataHex == reply.rawHex && Hex.Decode(reply.rawHex).Ok?
            && spec.expectedTxid == Hex.Encode(lib.sha256(Hex.Decode(reply.rawHex).value))
            && VerifyContract(lib, spec.rawDataHex, spec.expectedTo, spec.expectedTxid, spec.transfer, None) == Ok(())
  {
    hide VerifyContract, ExpectedFor, IsRequested, Hex.Decode, Hex.Encode, Hex.Trim;
    var spec := ExecutionSpec(lib, derived, quote, reply).value;
    var limit := FeeLimitFor(spec.transfer);
    VerifyContractIff(lib, reply.rawHex, spec.expectedTo, reply.txid, spec.transfer, limit);
    VerifyContractIff(lib, reply.rawHex, spec.expectedTo, spec.expectedTxid, spec.transfer, None);
    var raw := Hex.Decode(reply.rawHex).value;
    Hex.Survives(lib.sha256(raw));
    NoLimitIsWeaker(raw, lib.decodeAddress(spec.expectedTo).value, spec.transfer, limit);
  }

  lemma NoLimitIsWeaker(raw: seq<Byte>, recipient: seq<Byte>, transfer: Transfer, feeLimit: Option<U64>)
    requires IsRequested(raw, recipient, transfer, feeLimit)
    ensures IsRequested(raw, recipient, transfer, None)
  {
    hide Nests, Once, Absent, Hex.Decode, Ascii, EndsWith;
    var l :| Nests(raw, l) && Performs(l, recipient, transfer, feeLimit);
    assert Performs(l, recipient, transfer, None);
  }

  /** From quote to signature: the bytes whose hash the derived key signs do what the
      quote says. */
  lemma SignedTronIsQuoted(
    c: Service.Crypto, secret: Signer.Secret, derived: string, quote: Quote, reply: Reply, signed: Service.Signed,
    payloads: seq<Service.Payload>, signatures: seq<Service.Signature>
  )
    requires ExecutionSpec(c.tron, derived, quote, reply).Some?
    requires Service.IsSplitPath(c, secret, ExecutionSpec(c.tron, derived, quote, reply).value, signed, payloads, signatures)
    ensures Hex.Decode(reply.rawHex).Ok?
    ensures var raw := Hex.Decode(reply.rawHex).value;
            && DoesAsQuoted(c.tron, quote, raw)
            && var secp := c.signSecp(c.derive(secret).value, c.tron.sha256(raw));
            && secp.Some?
            && signed.SignedTron? && Hex.Decode(signed.raw).Ok?
            && Service.IsRecoverable(Hex.Decode(signed.raw).value, secp.value)
  {
    hide ExecutionSpec, Service.IsAssembled, Service.ArePayloads, Service.SignPayload, Hex.Decode, DoesAsQuoted, IsRequested;
    ExecutionSpecIff(c.tron, derived, quote, reply);
    SignerAgreesWithClient(c.tron, derived, quote, reply);
    Service.SignedTronIsRequested(c, secret, ExecutionSpec(c.tron, derived, quote, reply).value, signed, payloads, signatures);
  }

  // ----- against the comparison with the quote

  /** The transaction built for a Tron quote matches that quote exactly when it is a native
      transfer, or a token whose contract address is the payee's text. */
  lemma OwnIntentMatchesIff(lib: Library, derived: string, quote: Quote, reply: Reply)
    requires quote.chain == ChainTron && ExecutionSpec(lib, derived, quote, reply).Some?
    ensures NativeIntentMatchesQuote(quote, TransactionIntent(ExecutionSpec(lib, derived, quote, reply).value)) <==>
            quote.kind == NativeTransfer || quote.tokenAddress == Some(quote.to)
  {
    hide VerifyContract, RecomputeTxid, ValidHex, Trc20Parameter, DecimalValue, IsDecimal;
    if quote.kind == TokenTransfer {
      ClientParameter(lib.decodeAddress(quote.to).value, ParseU128(quote.amountRaw).value);
    }
  }

  /** So the honest reply fails: every executable Tron token quote whose token is not its
      payee has a reply that reaches the signer and does not match the quote. */
  lemma OwnTokenIntentFails(lib: Library, quote: Quote) returns (reply: Reply)
    requires quote.chain == ChainTron && quote.kind == TokenTransfer
    requires ExpectedFor(lib, quote).Some? && quote.tokenAddress != Some(quote.to)
    ensures ExecutionSpec(lib, quote.from, quote, reply).Some?
    ensures !NativeIntentMatchesQuote(quote, TransactionIntent(ExecutionSpec(lib, quote.from, quote, reply).value))
  {
    hide VerifyContract, Hex.Decode, Hex.Encode, Hex.Plain, TronRefinement.PayingTransaction, Trc20Parameter, ParseU128, Pow;
    hide NativeIntentMatchesQuote;
    var Expected(token, transfer) := ExpectedFor(lib, quote).value;
    var contract := lib.decodeAddress(token).value;
    ClientParameter(lib.decodeAddress(quote.to).value, ParseU128(quote.amountRaw).value);
    var raw := TronRefinement.PayingTransaction(contract, transfer, contract);
    reply := Reply(Hex.Encode(lib.sha256(raw)), Hex.Encode(raw));
    Hex.Survives(raw);
    TronRefinement.PayingTransactionAccepted(lib, token, transfer, contract, Some(TRC20_FEE_LIMIT));
    OwnIntentMatchesIff(lib, quote.from, quote, reply);
  }

  /** A transaction that matches a Tron token quote and passes the signer's check calls the
      contract at the payee's address, and no other. */
  lemma MatchingTokenCallsPayee(lib: Library, quote: Quote, spec: Spec, contract: Address)
    requires quote.chain == ChainTron && quote.kind == TokenTransfer
    requires spec.TronSpec? && NativeIntentMatchesQuote(quote, TransactionIntent(spec))
    requires VerifyContract(lib, spec.rawDataHex, spec.expectedTo, spec.expectedTxid, spec.transfer, None) == Ok(())
    ensures Hex.Decode(spec.rawDataHex).Ok? && spec.transfer.Trc20?
    ensures IsRequested(Hex.Decode(spec.rawDataHex).value, contract, spec.transfer, None) <==>
            lib.decodeAddress(quote.to) == Some(contract)
  {
    hide VerifyContract, Nests, Hex.Decode, Hex.SameIgnoringCase, ValidHex;
    VerifyContractIff(lib, spec.rawDataHex, spec.expectedTo, spec.expectedTxid, spec.transfer, None);
    var raw := Hex.Decode(spec.rawDataHex).value;
    if IsRequested(raw, contract, spec.transfer, None) {
      var l :| Nests(raw, l) && Performs(l, contract, spec.transfer, None);
      var m :| Nests(raw, m) && Performs(m, lib.decodeAddress(quote.to).value, spec.transfer, None);
      TronRefinement.LayersAreUnique(raw, l, m);
      OnceIsUnique(l.payloadFields, 2, Bytes(contract), Bytes(lib.decodeAddress(quote.to).value));
    }
  }

  lemma OnceIsUnique(fields: seq<Field>, number: nat, a: Value, b: Value)
    requires Once(fields, number, a) && Once(fields, number, b)
    ensures a == b
  {
  }

  /** A Tron token quote leaves the call open: for every recipient and every amount there is
      a transaction that matches it, passes the signer's check, and makes that call. */
  lemma EveryCallMatches(lib: Library, quote: Quote, call: Call) returns (spec: Spec)
    requires quote.chain == ChainTron && quote.kind == TokenTransfer && lib.decodeAddress(quote.to).Some? && IsCall(call)
    ensures spec.TronSpec? && NativeIntentMatchesQuote(quote, TransactionIntent(spec))
    ensures VerifyContract(lib, spec.rawDataHex, spec.expectedTo, spec.expectedTxid, spec.transfer, None) == Ok(())
    ensures Hex.Decode(spec.rawDataHex).Ok?
    ensures CallsToken(Hex.Decode(spec.rawDataHex).value, lib.decodeAddress(quote.to).value, call, None)
  {
    hide VerifyContract, CallsToken, IsRequested, Hex.Decode, Hex.Encode, Hex.Plain, TronRefinement.PayingTransaction, Pow;
    var contract := lib.decodeAddress(quote.to).value;
    var parameter := CallBytes(call)[4..];
    var transfer := Trc20(Hex.Encode(parameter));
    Hex.Survives(parameter);
    var raw := TronRefinement.PayingTransaction(contract, transfer, contract);
    spec := TronSpec(Hex.Encode(raw), quote.to, Hex.Encode(lib.sha256(raw)), transfer);
    TronRefinement.PayingTransactionAccepted(lib, quote.to, transfer, contract, None);
    TronRefinement.PaysOnlyItsPayee(contract, transfer, contract, contract, None);
    Hex.Survives(raw);
    ParameterIsCall(raw, contract, transfer.parameterHex, call, None);
  }
}

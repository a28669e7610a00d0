/** The module's one-shot signing path: derive, build, sign and reassemble. */
module Service {
  import opened Bytes
  import opened Intent
  import Base64
  import Btc
  import Evm
  import Hex
  import Rlp
  import Signer
  import Solana
  import Tron

  datatype Failure = InvalidInput | BuildFailed

  datatype Outcome<+T> = Done(value: T) | Failed(failure: Failure)

  datatype Secp = Secp(compact: Evm.Compact, recovery: Byte)

  datatype Signature = Secp256k1(secp: Secp) | Ed25519(bytes: seq<Byte>)

  /** Bytes to sign, and how: a digest, or a whole message. */
  datatype Payload = Digest(bytes: seq<Byte>) | WholeMessage(bytes: seq<Byte>)

  /** The foreign code of the signing path. */
  datatype Crypto = Crypto(
    derive: Signer.Secret -> Option<seq<Byte>>,
    publicKey: (WalletChain, seq<Byte>) -> Option<seq<Byte>>,
    keccak: seq<Byte> -> seq<Byte>,
    signSecp: (seq<Byte>, seq<Byte>) -> Option<Secp>,
    signEd: (seq<Byte>, seq<Byte>) -> Option<seq<Byte>>,
    base58: seq<Byte> -> string,
    btc: Btc.Library, solana: Solana.Library, tron: Tron.Library)

  /** The text to broadcast and the id to look it up by. A Bitcoin transaction is left for
      the library to serialise, and its id for the node to report. */
  datatype Signed =
    | SignedBtc(tx: Btc.Transaction)
    | SignedEvm(raw: string, txid: string)
    | SignedSolana(raw: string, txid: string)
    | SignedTron(raw: string, txid: string)

  /** Lower-case hex behind `0x`. */
  function Hex0x(bytes: seq<Byte>): string { "0x" + Hex.Encode(bytes) }

  /** Such text is read back by the decoder the service uses for calldata. */
  lemma Hex0xReads(bytes: seq<Byte>)
    ensures DecodeData(Hex0x(bytes)) == Some(bytes)
  {
    hide Hex.Encode;
    Hex.Survives(bytes);
    assert Hex0x(bytes)[2..] == Hex.Encode(bytes);
  }

  function TrimmedU128(text: string): Option<Evm.U128> { ParseU128(Hex.Trim(text)) }

  /** It reads what is printed, whatever blanks surround it. */
  lemma TrimmedReads(a: string, n: Evm.U128, b: string)
    requires Hex.AllSpace(a) && Hex.AllSpace(b)
    ensures TrimmedU128(a + Decimal(n) + b) == Some(n)
  {
    hide Hex.Trim, Decimal, DecimalValue;
    DecimalDenotes(n);
    Hex.TrimStrips(a, Decimal(n), b);
    ParseU128Iff(Decimal(n), n);
    assert Zeros(0) + Decimal(n) == Decimal(n);
    assert IsNumeral(Decimal(n), n, 0);
  }

  /** Calldata is read from its digits, the `0x` first if any, then blanks; a blank before
      the `0x` spoils it. */
  lemma DataReads(a: string, bytes: seq<Byte>, b: string)
    requires Hex.AllSpace(a) && Hex.AllSpace(b)
    ensures DecodeData("0x" + (a + Hex.Encode(bytes) + b)) == Some(bytes) == DecodeData(a + Hex.Encode(bytes) + b)
    ensures a != "" ==> DecodeData(a + ("0x" + Hex.Encode(bytes)) + b) == None
  {
    hide Hex.Encode, Hex.Trim, Hex.DecodePairs;
    Hex.DecodeEncode(bytes);
    var s := Hex.Encode(bytes);
    BlankEnds(s);
    Hex.TrimStrips(a, s, b);
    assert ("0x" + (a + s + b))[2..] == a + s + b;
    UnprefixedText(a, s, b);
    if a != "" {
      var text := a + ("0x" + s) + b;
      assert text[0] == a[0] && Hex.Blank(a[0]);
      Hex.TrimStrips(a, "0x" + s, b);
      NoPairX(s);
    }
  }

  lemma BlankEnds(s: string)
    requires Hex.Plain(s)
    ensures s != "" ==> !Hex.Blank(s[0]) && !Hex.Blank(s[|s| - 1])
  {
    if s != "" { assert Hex.Digit(s[0]).Some? && Hex.Digit(s[|s| - 1]).Some?; }
  }

  lemma NoPairX(s: string)
    ensures Hex.DecodePairs("0x" + s) == None
  {
  }

  lemma UnprefixedText(a: string, s: string, b: string)
    requires Hex.AllSpace(a) && Hex.Plain(s) && |s| % 2 == 0 && Hex.AllSpace(b)
    ensures Evm.StripPrefix(a + s + b) == a + s + b
  {
    var text := a + s + b;
    if a != "" {
      assert text[0] == a[0];
    } else if s != "" {
      assert text[1] == s[1];
    } else if b != "" {
      assert text[0] == b[0];
    }
  }

  function DecodeData(text: string): Option<seq<Byte>> {
    Hex.DecodePairs(Hex.Trim(Evm.StripPrefix(text)))
  }

  /** The transaction an EVM spec describes. */
  function EvmTransaction(spec: Spec): Option<Evm.LegacyTransaction>
    requires spec.EvmSpec?
  {
    var gasPrice :- TrimmedU128(spec.gasPriceWei);
    var value :- TrimmedU128(spec.valueWei);
    var data :- DecodeData(spec.dataHex);
    if |data| > MAX_ALLOCATION then None
    else
      Some(Evm.LegacyTransaction(
        spec.nonce, gasPrice, spec.gasLimit, if Hex.Trim(spec.evmTo) == "" then None else Some(spec.evmTo),
        value, data, spec.chainId))
  }

  function BtcTransfer(spec: Spec): Btc.Transfer
    requires spec.BtcSpec?
  {
    Btc.Transfer(spec.from, spec.to, spec.amountSat, spec.feeSat)
  }

  function SolanaTransfer(spec: Spec): Solana.NativeTransfer
    requires spec.SolanaSpec?
  {
    Solana.NativeTransfer(spec.from, spec.to, spec.lamports, spec.recentBlockhash)
  }

  /** The message a Solana spec describes, once its three texts decode. */
  function SolanaMessageOf(c: Crypto, spec: Spec): Option<Solana.Message>
    requires spec.SolanaSpec?
  {
    var from :- c.solana.decodeAddress(spec.from);
    var to :- c.solana.decodeAddress(spec.to);
    var blockhash :- c.solana.decodeBlockhash(spec.recentBlockhash);
    Some(Solana.TransferMessage(from, to, blockhash, spec.lamports))
  }

  predicate TronAccepted(c: Crypto, spec: Spec)
    requires spec.TronSpec?
  {
    Tron.VerifyContract(c.tron, spec.rawDataHex, spec.expectedTo, spec.expectedTxid, spec.transfer, None) == Ok(())
  }

  // ----- build

  /** The payloads are the signing bytes of exactly this transaction. */
  ghost predicate ArePayloads(c: Crypto, spec: Spec, publicKey: seq<Byte>, payloads: seq<Payload>) {
    match spec
    case BtcSpec(_, _, _, _, utxos) =>
      && |publicKey| == 33
      && exists tx, selection :: AreSighashes(c, spec, publicKey, payloads, tx, selection)
    case EvmSpec(_, _, _, _, _, _, _) =>
      && EvmTransaction(spec).Some? && Evm.SigningPayload(EvmTransaction(spec).value).Ok?
      && payloads == [Digest(c.keccak(Evm.SigningPayload(EvmTransaction(spec).value).value))]
    case SolanaSpec(_, _, _, _) =>
      SolanaMessageOf(c, spec).Some? && payloads == [WholeMessage(Solana.WriteMessage(SolanaMessageOf(c, spec).value))]
    case TronSpec(rawDataHex, _, _, _) =>
      && TronAccepted(c, spec) && Hex.Decode(rawDataHex).Ok?
      && payloads == [Digest(c.tron.sha256(Hex.Decode(rawDataHex).value))]
  }

  ghost predicate AreSighashes(
    c: Crypto, spec: Spec, publicKey: seq<Byte>, payloads: seq<Payload>, tx: Btc.Transaction, selection: Btc.Selection
  )
    requires spec.BtcSpec?
  {
    && (forall i :: 0 <= i < |payloads| ==> payloads[i].Digest?)
    && Btc.AreDigests(c.btc, BtcTransfer(spec), spec.utxos, publicKey, tx, selection, BytesOf(payloads))
  }

  function BytesOf(payloads: seq<Payload>): (bs: seq<seq<Byte>>)
    ensures |bs| == |payloads| && forall i :: 0 <= i < |bs| ==> bs[i] == payloads[i].bytes
  {
    seq(|payloads|, i requires 0 <= i < |payloads| => payloads[i].bytes)
  }

  /** When there is something to sign: the inputs decode, and the check of the chain passes. */
  ghost predicate CanBuild(c: Crypto, spec: Spec, publicKey: seq<Byte>) {
    match spec
    case BtcSpec(_, _, _, _, utxos) =>
      && |publicKey| == 33 && Btc.ControlsFrom(c.btc, BtcTransfer(spec), publicKey)
      && exists selection :: Btc.CanBuildWith(c.btc, BtcTransfer(spec), utxos, selection)
    case EvmSpec(_, _, _, _, _, _, _) =>
      EvmTransaction(spec).Some? && Evm.SigningPayload(EvmTransaction(spec).value).Ok?
    case SolanaSpec(_, _, _, _) => SolanaMessageOf(c, spec).Some?
    case TronSpec(_, _, _, _) => TronAccepted(c, spec)
  }

  method BuildUnsigned(c: Crypto, spec: Spec, publicKey: seq<Byte>) returns (r: Outcome<seq<Payload>>)
    ensures r.Done? ==> ArePayloads(c, spec, publicKey, r.value)
    ensures r.Done? <==> CanBuild(c, spec, publicKey)
    ensures r == Failed(InvalidInput) <==>
            match spec
            case BtcSpec(_, _, _, _, _) => |publicKey| != 33
            case EvmSpec(_, _, _, _, _, _, _) => EvmTransaction(spec).None?
            case SolanaSpec(_, _, _, _) => false
            case TronSpec(_, _, _, _) => !TronAccepted(c, spec)
  {
    hide Tron.VerifyContract, Evm.SigningPayload, Solana.WriteMessage, Btc.AreDigests, Btc.CanBuildWith, EvmTransaction, Hex.Decode;
    match spec {
      case BtcSpec(_, _, _, _, utxos) =>
        if |publicKey| != 33 {
          return Failed(InvalidInput);
        }
        var sighashes := Btc.Sighashes(c.btc, BtcTransfer(spec), utxos, publicKey);
        if sighashes.Err? {
          return Failed(BuildFailed);
        }
        var digests := sighashes.value.1;
        var payloads := seq(|digests|, i requires 0 <= i < |digests| => Digest(digests[i]));
        ghost var tx :| Btc.AreDigests(c.btc, BtcTransfer(spec), utxos, publicKey, tx, sighashes.value.0, digests);
        assert BytesOf(payloads) == digests;
        assert AreSighashes(c, spec, publicKey, payloads, tx, sighashes.value.0);
        return Done(payloads);
      case EvmSpec(_, _, _, _, _, _, _) =>
        var tx := EvmTransaction(spec);
        if tx.None? {
          return Failed(InvalidInput);
        }
        var payload := Evm.SigningPayload(tx.value);
        if payload.Err? {
          return Failed(BuildFailed);
        }
        return Done([Digest(c.keccak(payload.value))]);
      case SolanaSpec(_, _, _, _) =>
        var message := Solana.BuildMessage(c.solana, SolanaTransfer(spec));
        if message.Err? {
          return Failed(BuildFailed);
        }
        return Done([WholeMessage(message.value)]);
      case TronSpec(rawDataHex, _, _, _) =>
        if !TronAccepted(c, spec) {
          return Failed(InvalidInput);
        }
        AcceptedDecodes(c, spec);
        return Done([Digest(c.tron.sha256(Hex.Decode(rawDataHex).value))]);
    }
  }

  lemma AcceptedDecodes(c: Crypto, spec: Spec)
    requires spec.TronSpec? && TronAccepted(c, spec)
    ensures Hex.Decode(spec.rawDataHex).Ok?
  {
  }

  // ----- reassemble

  /** The signatures sit where this transaction's own wire format puts them. */
  ghost predicate IsAssembled(c: Crypto, spec: Spec, publicKey: seq<Byte>, signatures: seq<Signature>, signed: Signed) {
    match spec
    case BtcSpec(_, _, _, _, utxos) =>
      && signed.SignedBtc? && |publicKey| == 33 && (forall i :: 0 <= i < |signatures| ==> signatures[i].Secp256k1?)
      && exists tx, selection ::
           Btc.IsWitnessed(c.btc, BtcTransfer(spec), utxos, publicKey, Compacts(signatures), signed.tx, tx, selection)
    case EvmSpec(_, _, _, _, _, _, _) =>
      && |signatures| == 1 && signatures[0].Secp256k1? && EvmTransaction(spec).Some?
      && var attached := AttachedEvm(spec, signatures[0].secp);
      && attached.Ok? && signed == SignedEvm(Hex0x(attached.value), Hex0x(c.keccak(attached.value)))
    case SolanaSpec(_, _, _, _) =>
      && |signatures| == 1 && signatures[0].Ed25519? && SolanaMessageOf(c, spec).Some? && signed.SignedSolana?
      && signed.txid == c.base58(signatures[0].bytes) && Base64.Decode(signed.raw).Some?
      && Solana.ReadTransaction(Base64.Decode(signed.raw).value) ==
         Some(([signatures[0].bytes], SolanaMessageOf(c, spec).value))
    case TronSpec(_, _, expectedTxid, _) =>
      && |signatures| == 1 && signatures[0].Secp256k1? && TronAccepted(c, spec) && signatures[0].secp.recovery <= 3
      && signed == SignedTron(Hex.Encode(Recoverable(signatures[0].secp)), expectedTxid)
  }

  function AttachedEvm(spec: Spec, secp: Secp): Result<seq<Byte>>
    requires spec.EvmSpec? && EvmTransaction(spec).Some?
  {
    Evm.AttachSignature(EvmTransaction(spec).value, secp.compact, secp.recovery)
  }

  /** The 65-byte form: `r`, `s` and the recovery id. */
  function Recoverable(s: Secp): seq<Byte> { CompactBytes(s) + [s.recovery] }

  function CompactBytes(s: Secp): seq<Byte> { s.compact.r + s.compact.s }

  function Compacts(signatures: seq<Signature>): (cs: seq<seq<Byte>>)
    requires forall i :: 0 <= i < |signatures| ==> signatures[i].Secp256k1?
    ensures |cs| == |signatures| && forall i :: 0 <= i < |cs| ==> cs[i] == CompactBytes(signatures[i].secp)
  {
    seq(|signatures|, i requires 0 <= i < |signatures| => CompactBytes(signatures[i].secp))
  }

  /** When signatures can be placed: their number and form fit the chain, and the
      transaction still builds. */
  ghost predicate CanAttach(c: Crypto, spec: Spec, publicKey: seq<Byte>, signatures: seq<Signature>) {
    match spec
    case BtcSpec(_, _, _, _, utxos) =>
      && |publicKey| == 33 && (forall i :: 0 <= i < |signatures| ==> signatures[i].Secp256k1?)
      && Btc.ControlsFrom(c.btc, BtcTransfer(spec), publicKey)
      && exists selection :: Btc.CanBuildWith(c.btc, BtcTransfer(spec), utxos, selection)
                             && Btc.Fits(c.btc, selection, Compacts(signatures))
    case EvmSpec(_, _, _, _, _, _, _) =>
      && |signatures| == 1 && signatures[0].Secp256k1? && EvmTransaction(spec).Some?
      && AttachedEvm(spec, signatures[0].secp).Ok?
    case SolanaSpec(_, _, _, _) =>
      && |signatures| == 1 && signatures[0].Ed25519? && |signatures[0].bytes| == 64
      && SolanaMessageOf(c, spec).Some?
    case TronSpec(_, _, _, _) =>
      && |signatures| == 1 && signatures[0].Secp256k1? && signatures[0].secp.recovery <= 3
      && TronAccepted(c, spec)
  }

  method AttachSignature(c: Crypto, spec: Spec, publicKey: seq<Byte>, signatures: seq<Signature>)
    returns (r: Outcome<Signed>)
    ensures r.Done? ==> IsAssembled(c, spec, publicKey, signatures, r.value)
    ensures r.Done? <==> CanAttach(c, spec, publicKey, signatures)
    ensures r == Failed(InvalidInput) <==>
            match spec
            case BtcSpec(_, _, _, _, _) => |publicKey| != 33 || exists i :: 0 <= i < |signatures| && signatures[i].Ed25519?
            case EvmSpec(_, _, _, _, _, _, _) => |signatures| != 1 || signatures[0].Ed25519? || EvmTransaction(spec).None?
            case SolanaSpec(_, _, _, _) => |signatures| != 1 || signatures[0].Secp256k1? || |signatures[0].bytes| != 64
            case TronSpec(_, _, _, _) => !TronAccepted(c, spec) || |signatures| != 1 || signatures[0].Ed25519?
  {
    hide Tron.VerifyContract, Evm.AttachSignature, Solana.ReadTransaction, Btc.IsWitnessed, Btc.CanBuildWith, Btc.Fits, EvmTransaction, CompactBytes;
    hide Base64.Encode, Base64.Decode, Hex.Encode;
    match spec {
      case BtcSpec(_, _, _, _, utxos) =>
        if |publicKey| != 33 || exists i :: 0 <= i < |signatures| && signatures[i].Ed25519? {
          return Failed(InvalidInput);
        }
        var attached := Btc.AttachSignatures(c.btc, BtcTransfer(spec), utxos, publicKey, Compacts(signatures));
        if attached.Err? {
          return Failed(BuildFailed);
        }
        return Done(SignedBtc(attached.value));
      case EvmSpec(_, _, _, _, _, _, _) =>
        if |signatures| != 1 || !signatures[0].Secp256k1? {
          return Failed(InvalidInput);
        }
        var tx := EvmTransaction(spec);
        if tx.None? {
          return Failed(InvalidInput);
        }
        var raw := Evm.AttachSignature(tx.value, signatures[0].secp.compact, signatures[0].secp.recovery);
        if raw.Err? {
          return Failed(BuildFailed);
        }
        return Done(SignedEvm(Hex0x(raw.value), Hex0x(c.keccak(raw.value))));
      case SolanaSpec(_, _, _, _) =>
        if |signatures| != 1 || !signatures[0].Ed25519? || |signatures[0].bytes| != 64 {
          return Failed(InvalidInput);
        }
        var raw := Solana.AttachSignature(c.solana, SolanaTransfer(spec), signatures[0].bytes);
        if raw.Err? {
          return Failed(BuildFailed);
        }
        var text := Base64.EncodeBytes(raw.value);
        Base64.DecodeEncode(raw.value);
        return Done(SignedSolana(text, c.base58(signatures[0].bytes)));
      case TronSpec(_, _, expectedTxid, _) =>
        if !TronAccepted(c, spec) {
          return Failed(InvalidInput);
        }
        if |signatures| != 1 || !signatures[0].Secp256k1? {
          return Failed(InvalidInput);
        }
        if signatures[0].secp.recovery > 3 {
          return Failed(BuildFailed);
        }
        return Done(SignedTron(Hex.Encode(Recoverable(signatures[0].secp)), expectedTxid));
    }
  }

  // ----- the one-shot path

  function SignPayload(c: Crypto, key: seq<Byte>, payload: Payload): Option<Signature> {
    match payload
    case Digest(bytes) =>
      if |bytes| != 32 then None
      else
        var secp :- c.signSecp(key, bytes);
        Some(Secp256k1(secp))
    case WholeMessage(bytes) =>
      var signature :- c.signEd(key, bytes);
      Some(Ed25519(signature))
  }

  /** The split path, run with the key derived from this secret. */
  ghost predicate IsSplitPath(
    c: Crypto, secret: Signer.Secret, spec: Spec, signed: Signed, payloads: seq<Payload>, signatures: seq<Signature>
  ) {
    && secret.chain == Signer.SpecChain(spec)
    && c.derive(secret).Some? && c.publicKey(secret.chain, c.derive(secret).value).Some?
    && var key, publicKey := c.derive(secret).value, c.publicKey(secret.chain, c.derive(secret).value).value;
    && ArePayloads(c, spec, publicKey, payloads)
    && |signatures| == |payloads|
    && (forall i :: 0 <= i < |payloads| ==> SignPayload(c, key, payloads[i]) == Some(signatures[i]))
    && IsAssembled(c, spec, publicKey, signatures, signed)
  }

  method SignTransaction(c: Crypto, secret: Signer.Secret, spec: Spec)
    returns (r: Outcome<Signed>)
    ensures r.Done? ==> exists payloads, signatures :: IsSplitPath(c, secret, spec, r.value, payloads, signatures)
    ensures r.Done? <==> exists signed, payloads, signatures :: IsSplitPath(c, secret, spec, signed, payloads, signatures)
    ensures secret.chain != Signer.SpecChain(spec) ==> r == Failed(InvalidInput)
  {
    hide ArePayloads, IsAssembled, CanBuild, CanAttach, SignPayload;
    var key := c.derive(secret);
    if key.None? {
      return Failed(InvalidInput);
    }
    if secret.chain != Signer.SpecChain(spec) {
      return Failed(InvalidInput);
    }
    var publicKey := c.publicKey(secret.chain, key.value);
    if publicKey.None? {
      return Failed(BuildFailed);
    }
    var unsigned := BuildUnsigned(c, spec, publicKey.value);
    forall payloads | ArePayloads(c, spec, publicKey.value, payloads) ensures unsigned == Done(payloads) {
      PayloadsAreBuilt(c, spec, publicKey.value, payloads);
      PayloadsAreUnique(c, spec, publicKey.value, payloads, unsigned.value);
    }
    if unsigned.Failed? {
      return Failed(unsigned.failure);
    }
    var made: seq<Signature> := [];
    for i := 0 to |unsigned.value|
      invariant |made| == i
      invariant forall j :: 0 <= j < i ==> SignPayload(c, key.value, unsigned.value[j]) == Some(made[j])
    {
      var signature := SignPayload(c, key.value, unsigned.value[i]);
      if signature.None? {
        return Failed(BuildFailed);
      }
      made := made + [signature.value];
    }
    r := AttachSignature(c, spec, publicKey.value, made);
    forall signed, signatures | IsSplitPath(c, secret, spec, signed, unsigned.value, signatures) ensures r.Done? {
      assert signatures == made;
      AssembledIsAttachable(c, spec, publicKey.value, made, signed);
    }
    if r.Done? {
      assert IsSplitPath(c, secret, spec, r.value, unsigned.value, made);
    }
  }

  lemma PayloadsAreBuilt(c: Crypto, spec: Spec, publicKey: seq<Byte>, payloads: seq<Payload>)
    requires ArePayloads(c, spec, publicKey, payloads)
    ensures CanBuild(c, spec, publicKey)
  {
    hide Btc.IsBuilt, Btc.CanBuildWith, Tron.VerifyContract, Evm.SigningPayload, EvmTransaction, Hex.Decode;
    if spec.BtcSpec? {
      var tx, selection :| AreSighashes(c, spec, publicKey, payloads, tx, selection);
      Btc.BuiltShape(c.btc, BtcTransfer(spec), spec.utxos, tx, selection);
      assert Btc.CanBuildWith(c.btc, BtcTransfer(spec), spec.utxos, selection);
    }
  }

  lemma PayloadsAreUnique(c: Crypto, spec: Spec, publicKey: seq<Byte>, a: seq<Payload>, b: seq<Payload>)
    requires ArePayloads(c, spec, publicKey, a) && ArePayloads(c, spec, publicKey, b)
    ensures a == b
  {
    hide Btc.IsBuilt, Tron.VerifyContract, Evm.SigningPayload, EvmTransaction, Hex.Decode, Solana.WriteMessage;
    if spec.BtcSpec? {
      var tx, selection :| AreSighashes(c, spec, publicKey, a, tx, selection);
      var tx', selection' :| AreSighashes(c, spec, publicKey, b, tx', selection');
      Btc.BuiltIsUnique(c.btc, BtcTransfer(spec), spec.utxos, tx, tx', selection, selection');
      forall i | 0 <= i < |a| ensures a[i] == b[i] {
        assert BytesOf(a)[i] == BytesOf(b)[i];
      }
    }
  }

  lemma AssembledIsAttachable(c: Crypto, spec: Spec, publicKey: seq<Byte>, signatures: seq<Signature>, signed: Signed)
    requires IsAssembled(c, spec, publicKey, signatures, signed)
    ensures CanAttach(c, spec, publicKey, signatures)
  {
    hide Btc.IsBuilt, Btc.CanBuildWith, Tron.VerifyContract, EvmTransaction, AttachedEvm, Solana.ReadTransaction, Base64.Decode;
    if spec.BtcSpec? {
      var tx, selection :|
        Btc.IsWitnessed(c.btc, BtcTransfer(spec), spec.utxos, publicKey, Compacts(signatures), signed.tx, tx, selection);
      Btc.BuiltShape(c.btc, BtcTransfer(spec), spec.utxos, tx, selection);
      assert Btc.CanBuildWith(c.btc, BtcTransfer(spec), spec.utxos, selection);
    } else if spec.SolanaSpec? {
      Solana.TransactionIsCanonical(Base64.Decode(signed.raw).value);
      assert |[signatures[0].bytes][0]| == 64;
    }
  }

  // ----- what a signed transaction does

  /** A signed Tron spec moves what was requested, to whom it was requested, and the
      signature is over the hash of exactly those bytes. */
  lemma SignedTronIsRequested(
    c: Crypto, secret: Signer.Secret, spec: Spec, signed: Signed, payloads: seq<Payload>, signatures: seq<Signature>
  )
    requires spec.TronSpec? && IsSplitPath(c, secret, spec, signed, payloads, signatures)
    ensures Hex.Decode(spec.rawDataHex).Ok? && c.tron.decodeAddress(spec.expectedTo).Some?
    ensures var raw := Hex.Decode(spec.rawDataHex).value;
            && Tron.IsRequested(raw, c.tron.decodeAddress(spec.expectedTo).value, spec.transfer, None)
            && var secp := c.signSecp(c.derive(secret).value, c.tron.sha256(raw));
            && secp.Some? && secp.value.recovery <= 3
            && signed.SignedTron? && Hex.Decode(signed.raw).Ok? && IsRecoverable(Hex.Decode(signed.raw).value, secp.value)
            && Hex.SameIgnoringCase(Hex.Encode(c.tron.sha256(raw)), Hex.Trim(signed.txid))
  {
    hide Tron.VerifyContract, Tron.IsRequested, Hex.Decode, Hex.Encode, Hex.SameIgnoringCase, Hex.Trim;
    Hex.Survives(Recoverable(signatures[0].secp));
    Tron.VerifyContractIff(c.tron, spec.rawDataHex, spec.expectedTo, spec.expectedTxid, spec.transfer, None);
    assert SignPayload(c, c.derive(secret).value, payloads[0]) == Some(signatures[0]);
  }

  /** 65 bytes: `r`, then `s`, then the recovery id. */
  ghost predicate IsRecoverable(bytes: seq<Byte>, s: Secp) {
    |bytes| == 65 && bytes[..32] == s.compact.r && bytes[32..64] == s.compact.s && bytes[64] == s.recovery
  }

  /** A signed EVM spec decodes to its own facts, with the `v`, `r` and `s` of a signature
      over the hash of the payload that states those same facts. */
  lemma SignedEvmReads(
    c: Crypto, secret: Signer.Secret, spec: Spec, signed: Signed, payloads: seq<Payload>, signatures: seq<Signature>
  ) returns (unsigned: seq<seq<Byte>>, raw: seq<Byte>, items: seq<seq<Byte>>)
    requires spec.EvmSpec? && IsSplitPath(c, secret, spec, signed, payloads, signatures)
    ensures signed.SignedEvm? && EvmTransaction(spec).Some? && Evm.SigningPayload(EvmTransaction(spec).value).Ok?
    ensures var tx := EvmTransaction(spec).value;
            var payload := Evm.SigningPayload(tx).value;
            var secp := c.signSecp(c.derive(secret).value, c.keccak(payload));
            && Rlp.DecodeList(payload) == Some(Taken(unsigned, [])) && Evm.ReadsAs(unsigned, tx, spec.chainId, 0, 0)
            && StatesSpec(unsigned, spec) && StatesSpec(items, spec)
            && DecodeData(signed.raw) == Some(raw) && DecodeData(signed.txid) == Some(c.keccak(raw))
            && Rlp.DecodeList(raw) == Some(Taken(items, []))
            && secp.Some?
            && Evm.ReadsAs(items, tx, secp.value.recovery + 2 * spec.chainId + 35,
                           BigEndian(secp.value.compact.r), BigEndian(secp.value.compact.s))
  {
    hide Evm.SigningPayload, Evm.AttachSignature, Rlp.DecodeList, Evm.ReadsAs, BigEndian;
    hide DecodeData, Hex0x, IsDecimal, DecimalValue, StatesSpec;
    var tx := EvmTransaction(spec).value;
    assert SignPayload(c, c.derive(secret).value, payloads[0]) == Some(signatures[0]);
    unsigned := Evm.PayloadReads(tx);
    items := Evm.SignedReads(tx, signatures[0].secp.compact, signatures[0].secp.recovery);
    var secp := signatures[0].secp;
    ReadsSpec(spec, unsigned, spec.chainId, 0, 0);
    ReadsSpec(spec, items, secp.recovery + 2 * spec.chainId + 35, BigEndian(secp.compact.r), BigEndian(secp.compact.s));
    raw := AttachedEvm(spec, secp).value;
    Hex0xReads(raw);
    Hex0xReads(c.keccak(raw));
  }

  /** The first six of nine RLP strings, each read as the spec's field of that name. */
  ghost predicate StatesSpec(items: seq<seq<Byte>>, spec: Spec)
    requires spec.EvmSpec?
  {
    && |items| == 9
    && BigEndian(items[0]) == spec.nonce && TrimmedU128(spec.gasPriceWei) == Some(BigEndian(items[1]))
    && BigEndian(items[2]) == spec.gasLimit && PayeeBytes(spec.evmTo) == Ok(items[3])
    && TrimmedU128(spec.valueWei) == Some(BigEndian(items[4])) && DecodeData(spec.dataHex) == Some(items[5])
  }

  /** A spec describes a transaction exactly when its three texts are read. */
  lemma EvmTransactionIff(spec: Spec)
    requires spec.EvmSpec?
    ensures EvmTransaction(spec).Some? <==>
            && TrimmedU128(spec.gasPriceWei).Some? && TrimmedU128(spec.valueWei).Some?
            && DecodeData(spec.dataHex).Some? && |DecodeData(spec.dataHex).value| <= MAX_ALLOCATION
    ensures EvmTransaction(spec).Some? ==>
            (Evm.SigningPayload(EvmTransaction(spec).value).Ok? <==> PayeeBytes(spec.evmTo).Ok?)
  {
    hide TrimmedU128, DecodeData, Evm.AddressBytes, Hex.Trim, Evm.SigningPayload, Evm.Encoded;
    if EvmTransaction(spec).Some? {
      Evm.PayloadForm(EvmTransaction(spec).value);
    }
  }

  lemma ReadsSpec(spec: Spec, items: seq<seq<Byte>>, v: nat, r: nat, s: nat)
    requires spec.EvmSpec? && EvmTransaction(spec).Some? && Evm.ReadsAs(items, EvmTransaction(spec).value, v, r, s)
    ensures StatesSpec(items, spec)
  {
    hide BigEndian, Evm.AddressBytes, DecodeData, TrimmedU128, Hex.Trim;
  }

  /** The bytes of an EVM recipient text; a blank one creates a contract. */
  function PayeeBytes(text: string): Result<seq<Byte>> {
    if Hex.Trim(text) == "" then Ok([]) else Evm.AddressBytes(text)
  }

  /** Nine RLP strings whose recipient, value and data are what the quote promises. */
  ghost predicate CarriesQuote(items: seq<seq<Byte>>, quote: Quote) {
    && |items| == 9
    && match quote.kind
       case NativeTransfer =>
         && PayeeBytes(quote.to) == Ok(items[3]) && TrimmedU128(quote.amountRaw) == Some(BigEndian(items[4]))
         && items[5] == []
       case TokenTransfer =>
         && quote.tokenAddress.Some? && Recipient(quote.to).Some? && IsDecimal(quote.amountRaw)
         && PayeeBytes(Hex.Lower(quote.tokenAddress.value)) == Ok(items[3]) && BigEndian(items[4]) == 0
         && DecodeCall(items[5]) == Some(Call(Recipient(quote.to).value, DecimalValue(quote.amountRaw)))
  }

  /** An EVM intent that matches a quote and gets signed carries what was quoted, on the
      quoted network, both in the bytes that are hashed and in the bytes sent out. */
  lemma SignedEvmIsQuoted(
    c: Crypto, secret: Signer.Secret, quote: Quote, spec: Spec, signed: Signed, payloads: seq<Payload>,
    signatures: seq<Signature>
  ) returns (unsigned: seq<seq<Byte>>, raw: seq<Byte>, items: seq<seq<Byte>>)
    requires spec.EvmSpec? && NativeIntentMatchesQuote(quote, TransactionIntent(spec))
    requires IsSplitPath(c, secret, spec, signed, payloads, signatures)
    ensures signed.SignedEvm? && EvmTransaction(spec).Some? && Evm.SigningPayload(EvmTransaction(spec).value).Ok?
    ensures var payload := Evm.SigningPayload(EvmTransaction(spec).value).value;
            && payloads == [Digest(c.keccak(payload))]
            && Rlp.DecodeList(payload) == Some(Taken(unsigned, [])) && CarriesQuote(unsigned, quote)
            && BigEndian(unsigned[6]) == ChainId(NetworkOf(quote))
            && var secp := c.signSecp(c.derive(secret).value, c.keccak(payload));
            && secp.Some?
            && DecodeData(signed.raw) == Some(raw)
            && Rlp.DecodeList(raw) == Some(Taken(items, [])) && CarriesQuote(items, quote)
            && BigEndian(items[6]) == secp.value.recovery + 2 * ChainId(NetworkOf(quote)) + 35
  {
    hide Evm.SigningPayload, Evm.AttachSignature, Rlp.DecodeList, BigEndian, CarriesQuote, EvmTransaction, SignPayload;
    hide NativeIntentMatchesQuote, IsAssembled, Evm.ReadsAs, DecodeData, StatesSpec;
    unsigned, raw, items := SignedEvmReads(c, secret, spec, signed, payloads, signatures);
    MatchingReadsAsQuoted(quote, spec, unsigned, spec.chainId, 0, 0);
    var secp := c.signSecp(c.derive(secret).value, c.keccak(Evm.SigningPayload(EvmTransaction(spec).value).value)).value;
    MatchingReadsAsQuoted(quote, spec, items, secp.recovery + 2 * spec.chainId + 35,
                          BigEndian(secp.compact.r), BigEndian(secp.compact.s));
  }

  lemma MatchingReadsAsQuoted(quote: Quote, spec: Spec, items: seq<seq<Byte>>, v: nat, r: nat, s: nat)
    requires spec.EvmSpec? && NativeIntentMatchesQuote(quote, TransactionIntent(spec))
    requires EvmTransaction(spec).Some? && Evm.ReadsAs(items, EvmTransaction(spec).value, v, r, s)
    ensures CarriesQuote(items, quote) && spec.chainId == ChainId(NetworkOf(quote)) && BigEndian(items[6]) == v
  {
    hide BigEndian, Evm.AddressBytes, EvmTransferDataMatches, CallOf, DecodeCall, DecodeData, TrimmedU128, Recipient, ChainId;
    hide DecimalValue, IsDecimal, Pow, Hex.Trim, Hex.Lower;
    if quote.kind == TokenTransfer {
      MatchesIff(spec.dataHex, quote.to, quote.amountRaw);
      SameCall(spec.dataHex);
      ZeroParses();
      SamePayee(spec.evmTo, quote.tokenAddress.value);
    } else {
      EmptyDecodes();
    }
  }

  /** The comparison and the builder read calldata apart, and never to different calls. */
  lemma SameCall(text: string)
    requires CallOf(text).Some? && DecodeData(text).Some?
    ensures DecodeCall(DecodeData(text).value) == CallOf(text)
  {
    hide DecodeCall, Hex.Plain;
    var body := BodyOf(text);
    if Evm.StripPrefix(text) == body {
      Hex.TrimPlain(body);
    } else {
      UpperPrefixIsRefused(text);
      assert false;
    }
  }

  lemma UpperPrefixIsRefused(text: string)
    requires |text| >= 2 && text[0] == '0' && text[1] == 'X' && Hex.Plain(text[2..])
    ensures DecodeData(text).None?
  {
    if |text| > 2 { Hex.DigitInverse(text[|text| - 1]); }
  }

  lemma ZeroParses()
    ensures TrimmedU128("0") == Some(0)
  {
  }

  lemma EmptyDecodes()
    ensures DecodeData("") == Some([])
  {
  }

  lemma SamePayee(to: string, token: string)
    requires Hex.SameIgnoringCase(to, token) && PayeeBytes(to).Ok?
    ensures PayeeBytes(Hex.Lower(token)) == PayeeBytes(to)
  {
    hide Evm.AddressBytes, Hex.Trim;
    Hex.LowerTrim(to);
    if Hex.Trim(to) != "" { Evm.AddressIgnoresCase(to); }
  }

  /** A signed Solana spec is one System transfer of its four facts, and its signature is
      over the message that says so. */
  lemma SignedSolanaTransfers(
    c: Crypto, secret: Signer.Secret, spec: Spec, signed: Signed, payloads: seq<Payload>, signatures: seq<Signature>
  )
    requires spec.SolanaSpec? && IsSplitPath(c, secret, spec, signed, payloads, signatures)
    ensures SolanaMessageOf(c, spec).Some? && signed.SignedSolana?
    ensures var m := SolanaMessageOf(c, spec).value;
            var signature := c.signEd(c.derive(secret).value, Solana.WriteMessage(m));
            && signature.Some? && Base64.Decode(signed.raw).Some? && signed.txid == c.base58(signature.value)
            && Solana.ReadTransaction(Base64.Decode(signed.raw).value) == Some(([signature.value], m))
            && c.solana.decodeBlockhash(spec.recentBlockhash) == Some(m.blockhash)
            && |m.instructions| == 1 && m.accounts[..m.required] == [c.solana.decodeAddress(spec.from).value]
            && Solana.AsTransfer(m, m.instructions[0]) ==
               Some(Solana.Transfer(c.solana.decodeAddress(spec.from).value, c.solana.decodeAddress(spec.to).value, spec.lamports))
  {
    hide Solana.WriteMessage, Solana.ReadTransaction, Solana.AsTransfer, Base64.Decode;
    assert SignPayload(c, c.derive(secret).value, payloads[0]) == Some(signatures[0]);
    Solana.TransferMessageReads(c.solana.decodeAddress(spec.from).value, c.solana.decodeAddress(spec.to).value,
                                c.solana.decodeBlockhash(spec.recentBlockhash).value, spec.lamports);
  }

  /** A signed Bitcoin spec conserves value, and the witness of input `i` is a signature
      over the digest of input `i` of that same transaction. */
  lemma SignedBtcConserves(
    c: Crypto, secret: Signer.Secret, spec: Spec, signed: Signed, payloads: seq<Payload>, signatures: seq<Signature>
  ) returns (tx: Btc.Transaction, selection: Btc.Selection, dust: nat)
    requires spec.BtcSpec? && IsSplitPath(c, secret, spec, signed, payloads, signatures)
    ensures signed.SignedBtc? && signed.tx.output == tx.output && |signed.tx.input| == |tx.input| == |selection.inputs|
    ensures Btc.IsBuilt(c.btc, BtcTransfer(spec), spec.utxos, tx, selection)
    ensures forall i :: 0 <= i < |tx.input| ==> IsSignedInput(c, secret, spec, signed.tx, tx, selection, i)
    ensures Btc.Sum(selection.inputs) == Btc.OutputSum(signed.tx.output) + spec.feeSat + dust
    ensures dust <= 546 && 1 <= |signed.tx.output| <= 2 && signed.tx.output[0].value == spec.amountSat
    ensures |signed.tx.output| == 2 ==> dust == 0 && signed.tx.output[1].value > 546
    ensures PaysTo(c.btc, c.btc.validate(spec.to), signed.tx.output[0])
    ensures |signed.tx.output| == 2 ==> PaysTo(c.btc, c.btc.validateSender(spec.from), signed.tx.output[1])
  {
    hide Btc.IsBuilt, Btc.Sum, Btc.OutputSum, SignPayload;
    var publicKey := c.publicKey(secret.chain, c.derive(secret).value).value;
    var t := BtcTransfer(spec);
    var digested, chosen :| AreSighashes(c, spec, publicKey, payloads, digested, chosen);
    var placed, chosen' :| Btc.IsWitnessed(c.btc, t, spec.utxos, publicKey, Compacts(signatures), signed.tx, placed, chosen');
    Btc.BuiltIsUnique(c.btc, t, spec.utxos, digested, placed, chosen, chosen');
    Btc.BuiltShape(c.btc, t, spec.utxos, placed, chosen');
    tx, selection := placed, chosen';
    dust := Btc.ValueIsConserved(c.btc, t, spec.utxos, tx, selection);
    BuiltPays(c.btc, t, spec.utxos, tx, selection);
    forall i | 0 <= i < |tx.input| ensures IsSignedInput(c, secret, spec, signed.tx, tx, selection, i) {
      SignPayloadIff(c, c.derive(secret).value, payloads[i], signatures[i]);
    }
  }

  /** The output is locked by the script of this address. */
  ghost predicate PaysTo(lib: Btc.Library, address: Option<string>, output: Btc.TxOut) {
    address.Some? && lib.scriptOf(address.value) == Some(output.script)
  }

  lemma BuiltPays(lib: Btc.Library, t: Btc.Transfer, utxos: seq<Btc.Utxo>, tx: Btc.Transaction, selection: Btc.Selection)
    requires Btc.IsBuilt(lib, t, utxos, tx, selection)
    ensures |tx.output| >= 1 && PaysTo(lib, lib.validate(t.to), tx.output[0])
    ensures |tx.output| == 2 ==> PaysTo(lib, lib.validateSender(t.from), tx.output[1])
  {
    hide Btc.IsOutcome, Btc.Spends;
  }

  /** Input `i` carries a signature, by the derived key, over its own digest. */
  ghost predicate IsSignedInput(
    c: Crypto, secret: Signer.Secret, spec: Spec, signed: Btc.Transaction, tx: Btc.Transaction, selection: Btc.Selection, i: nat
  )
    requires spec.BtcSpec?
  {
    && i < |tx.input| && i < |signed.input| && i < |selection.inputs| && c.derive(secret).Some?
    && c.publicKey(secret.chain, c.derive(secret).value).Some?
    && c.btc.validateSender(spec.from).Some? && c.btc.scriptOf(c.btc.validateSender(spec.from).value).Some?
    && var from := c.btc.scriptOf(c.btc.validateSender(spec.from).value).value;
       var secp := c.signSecp(c.derive(secret).value, c.btc.sighash(tx, i, from, selection.inputs[i].value));
    && secp.Some? && c.btc.normalisedDer(secp.value.compact.r + secp.value.compact.s).Some?
    && signed.input[i] == tx.input[i].(
         stack := [c.btc.normalisedDer(secp.value.compact.r + secp.value.compact.s).value + [1],
                   c.publicKey(secret.chain, c.derive(secret).value).value])
  }

  /** A digest is 32 bytes signed on secp256k1; a whole message is signed as it is on ed25519. */
  lemma SignPayloadIff(c: Crypto, key: seq<Byte>, payload: Payload, signature: Signature)
    ensures SignPayload(c, key, payload) == Some(signature) <==>
            if payload.Digest? then |payload.bytes| == 32 && signature.Secp256k1? && c.signSecp(key, payload.bytes) == Some(signature.secp)
            else signature.Ed25519? && c.signEd(key, payload.bytes) == Some(signature.bytes)
  {
  }
}

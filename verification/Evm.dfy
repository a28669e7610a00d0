/** Legacy EVM transactions: the EIP-155 signing payload and signed form of `evm.rs`. */
module Evm {
  import opened Bytes
  import opened Rlp
  import Hex

  type U128 = n: int | 0 <= n < U128_MODULUS
  type Buffer = s: seq<Byte> | |s| <= MAX_ALLOCATION
  type Word = s: seq<Byte> | |s| == 32 witness seq(32, _ => 0)

  datatype LegacyTransaction = LegacyTransaction(
    nonce: U128, gasPrice: U128, gasLimit: U128, to: Option<string>, value: U128, data: Buffer, chainId: U64)

  /** A compact signature: its two 32-byte halves. */
  datatype Compact = Compact(r: Word, s: Word)

  function StripPrefix(s: string): string {
    if |s| >= 2 && s[0] == '0' && s[1] == 'x' then s[2..] else s
  }

  /** `address::evm::validate`: forty hex digits after an optional `0x`, trimmed. */
  function Validate(address: string): Result<string> {
    var trimmed := Hex.Trim(address);
    var body := StripPrefix(trimmed);
    if trimmed == [] || |body| != 40 || !Hex.Plain(body) then Err(BadAddress) else Ok(trimmed)
  }

  function AddressBytes(address: string): (r: Result<seq<Byte>>) {
    var validated :- Validate(address);
    match Hex.DecodePairs(StripPrefix(validated))
    case Some(bytes) => Ok(bytes)
    case None => Err(InvalidField)
  }

  /** A valid address always decodes, to twenty bytes. */
  lemma AddressIsTwentyBytes(address: string)
    ensures AddressBytes(address).Ok? <==> Validate(address).Ok?
    ensures AddressBytes(address).Ok? ==> |AddressBytes(address).value| == 20
    ensures AddressBytes(address).Err? ==> AddressBytes(address) == Err(BadAddress)
  {
    hide Hex.Plain, Hex.Trim, Hex.DecodePairs;
    if Validate(address).Ok? {
      var body := StripPrefix(Validate(address).value);
      Hex.EncodeDecode(body);
      Hex.DecodeLength(body);
    }
  }

  /** Twenty bytes are read from their digits, with or without `0x`, whatever blanks surround. */
  lemma AddressReads(bytes: seq<Byte>, a: string, b: string)
    requires |bytes| == 20 && Hex.AllSpace(a) && Hex.AllSpace(b)
    ensures AddressBytes(a + Hex.Encode(bytes) + b) == Ok(bytes)
    ensures AddressBytes(a + ("0x" + Hex.Encode(bytes)) + b) == Ok(bytes)
  {
    hide Hex.Encode, Hex.Trim, Hex.DecodePairs;
    Hex.DecodeEncode(bytes);
    var s := Hex.Encode(bytes);
    assert Hex.Digit(s[0]).Some? && Hex.Digit(s[1]).Some? && Hex.Digit(s[39]).Some?;
    Hex.TrimStrips(a, s, b);
    Hex.TrimStrips(a, "0x" + s, b);
    assert ("0x" + s)[2..] == s;
  }

  /** An address that decodes is read the same in lower case. */
  lemma AddressIgnoresCase(address: string)
    requires AddressBytes(address).Ok?
    ensures AddressBytes(Hex.Lower(address)) == AddressBytes(address)
  {
    hide Hex.Trim, Hex.DecodePairs, Hex.Plain;
    var trimmed := Hex.Trim(address);
    var body := StripPrefix(trimmed);
    Hex.LowerTrim(address);
    Hex.LowerReads(body);
    assert StripPrefix(Hex.Lower(trimmed)) == Hex.Lower(body) by { PrefixIgnoresCase(trimmed); }
  }

  lemma PrefixIgnoresCase(s: string)
    requires Hex.Plain(StripPrefix(s))
    ensures StripPrefix(Hex.Lower(s)) == Hex.Lower(StripPrefix(s))
  {
    if |s| >= 2 && StripPrefix(s) == s { assert Hex.Digit(s[1]).Some?; }
  }

  function ToBytes(tx: LegacyTransaction): Result<seq<Byte>> {
    match tx.to
    case None => Ok([])
    case Some(to) => AddressBytes(to)
  }

  function BaseItems(tx: LegacyTransaction): Result<seq<seq<Byte>>> {
    var to :- ToBytes(tx);
    Ok([EncodeUint(tx.nonce), EncodeUint(tx.gasPrice), EncodeUint(tx.gasLimit),
        EncodeBytes(to), EncodeUint(tx.value), EncodeBytes(tx.data)])
  }

  function SigningPayload(tx: LegacyTransaction): Result<seq<Byte>> {
    var items :- BaseItems(tx);
    Ok(EncodeList(items + [EncodeUint(tx.chainId)] + [EncodeUint(0)] + [EncodeUint(0)]))
  }

  /** `v = recovery + chainId * 2 + 35`, refusing what a 64-bit word cannot hold. */
  function CheckedV(recovery: nat, chainId: U64): Result<U64> {
    if chainId * 2 >= U64_MODULUS || chainId * 2 + 35 >= U64_MODULUS then Err(InvalidField)
    else if recovery + (chainId * 2 + 35) >= U64_MODULUS then Err(InvalidField)
    else Ok(recovery + (chainId * 2 + 35))
  }

  function AttachSignature(tx: LegacyTransaction, signature: Compact, recovery: Byte): Result<seq<Byte>> {
    if recovery > 3 then Err(Signing)
    else
      var v :- CheckedV(recovery, tx.chainId);
      var items :- BaseItems(tx);
      Ok(EncodeList(items + [EncodeUint(v)] + [EncodeUintBytes(signature.r)] + [EncodeUintBytes(signature.s)]))
  }

  // ----- what the bytes commit to

  /** The nine strings of either form, before encoding. */
  function Strings(tx: LegacyTransaction, to: seq<Byte>, v: U128, r: seq<Byte>, s: seq<Byte>): seq<seq<Byte>> {
    [Minimal(tx.nonce), Minimal(tx.gasPrice), Minimal(tx.gasLimit), to, Minimal(tx.value), tx.data,
     Minimal(v), StripZeros(r), StripZeros(s)]
  }

  function Minimal(value: nat): (s: seq<Byte>)
    ensures |s| <= 16
  {
    StripZeros(ToBigEndian(value, 16))
  }

  const NO_BYTES: seq<Byte> := ToBigEndian(0, 32)

  /** The encoding of the nine strings. */
  function Encoded(tx: LegacyTransaction, to: seq<Byte>, v: U128, r: seq<Byte>, s: seq<Byte>): seq<Byte> {
    EncodeList(EncodeAll(Strings(tx, to, v, r, s)))
  }

  lemma EncodeNine(a: seq<seq<Byte>>)
    requires |a| == 9
    ensures EncodeAll(a) ==
            [EncodeBytes(a[0]), EncodeBytes(a[1]), EncodeBytes(a[2]), EncodeBytes(a[3]), EncodeBytes(a[4]),
             EncodeBytes(a[5]), EncodeBytes(a[6]), EncodeBytes(a[7]), EncodeBytes(a[8])]
  {
    hide EncodeBytes;
    forall i: nat | i < 9 ensures EncodeAll(a)[i] == EncodeBytes(a[i]) { EncodeAllAt(a, i); }
  }

  lemma {:induction false} EncodeAllAt(a: seq<seq<Byte>>, i: nat)
    requires i < |a|
    ensures EncodeAll(a)[i] == EncodeBytes(a[i])
  {
    if i > 0 { EncodeAllAt(a[1..], i - 1); }
  }

  lemma {:induction false} ZerosStripToNothing(width: nat)
    ensures StripZeros(ToBigEndian(0, width)) == []
  {
    StripKeepsValue(ToBigEndian(0, width));
    PowPositive(256, width);
    BigEndianRoundTrip(0, width);
    var stripped := StripZeros(ToBigEndian(0, width));
    if stripped != [] { LeadingByteCounts(stripped); }
  }

  lemma PayloadForm(tx: LegacyTransaction)
    ensures match ToBytes(tx)
            case Err(e) => SigningPayload(tx) == Err(e)
            case Ok(to) => SigningPayload(tx) == Ok(Encoded(tx, to, tx.chainId, NO_BYTES, NO_BYTES))
  {
    hide EncodeBytes, EncodeList, EncodeAll, StripZeros, ToBytes;
    if ToBytes(tx).Ok? {
      ZerosStripToNothing(16);
      ZerosStripToNothing(32);
      var to := ToBytes(tx).value;
      EncodeNine(Strings(tx, to, tx.chainId, NO_BYTES, NO_BYTES));
      assert BaseItems(tx).value + [EncodeUint(tx.chainId)] + [EncodeUint(0)] + [EncodeUint(0)]
          == EncodeAll(Strings(tx, to, tx.chainId, NO_BYTES, NO_BYTES));
    }
  }

  /** Reassembly succeeds exactly when the recovery id, `v` and the recipient allow it. */
  lemma SignedForm(tx: LegacyTransaction, signature: Compact, recovery: Byte)
    ensures AttachSignature(tx, signature, recovery).Ok? <==>
            recovery <= 3 && ToBytes(tx).Ok? && recovery + 2 * tx.chainId + 35 < U64_MODULUS
    ensures AttachSignature(tx, signature, recovery).Ok? ==>
            AttachSignature(tx, signature, recovery).value ==
            Encoded(tx, ToBytes(tx).value, recovery + 2 * tx.chainId + 35, signature.r, signature.s)
  {
    hide EncodeBytes, EncodeList, EncodeAll, StripZeros, ToBytes;
    if AttachSignature(tx, signature, recovery).Ok? {
      var v := recovery + 2 * tx.chainId + 35;
      var to := ToBytes(tx).value;
      EncodeNine(Strings(tx, to, v, signature.r, signature.s));
      assert BaseItems(tx).value + [EncodeUint(v)] + [EncodeUintBytes(signature.r)] + [EncodeUintBytes(signature.s)]
          == EncodeAll(Strings(tx, to, v, signature.r, signature.s));
    }
  }

  /** Its errors: the recovery id, then `v`, then the recipient. */
  lemma AttachErrors(tx: LegacyTransaction, signature: Compact, recovery: Byte)
    ensures var r := AttachSignature(tx, signature, recovery);
            if recovery > 3 then r == Err(Signing)
            else if recovery + 2 * tx.chainId + 35 >= U64_MODULUS then r == Err(InvalidField)
            else ToBytes(tx).Err? ==> r == Err(BadAddress)
  {
    hide EncodeBytes, EncodeList, StripZeros, AddressBytes;
    if tx.to.Some? { AddressIsTwentyBytes(tx.to.value); }
  }

  lemma StringsAddressable(xs: seq<seq<Byte>>)
    requires |xs| == 9 && |xs[5]| <= MAX_ALLOCATION
    requires forall i :: 0 <= i < 9 && i != 5 ==> |xs[i]| <= 32
    ensures Addressable(xs)
  {
    ConcatLength(xs);
    TotalLengthAt(xs, 5);
    ShortStrings(xs[..5]);
    ShortStrings(xs[6..]);
  }

  lemma {:induction false} ShortStrings(xs: seq<seq<Byte>>)
    requires forall i :: 0 <= i < |xs| ==> |xs[i]| <= 32
    ensures TotalLength(xs) <= 32 * |xs|
  {
    if xs != [] { ShortStrings(xs[1..]); }
  }

  lemma {:induction false} TotalLengthAt(xs: seq<seq<Byte>>, i: nat)
    requires i < |xs|
    ensures TotalLength(xs) == TotalLength(xs[..i]) + |xs[i]| + TotalLength(xs[i + 1..])
  {
    if i > 0 {
      TotalLengthAt(xs[1..], i - 1);
      assert xs[1..][..i - 1] == xs[..i][1..] && xs[1..][i..] == xs[i + 1..];
    }
  }

  lemma ToBytesLength(tx: LegacyTransaction)
    ensures ToBytes(tx).Ok? ==> |ToBytes(tx).value| <= 20
  {
    if tx.to.Some? { AddressIsTwentyBytes(tx.to.value); }
  }

  /** Every fact a transaction states apart from its chain. */
  ghost predicate SameFacts(a: LegacyTransaction, b: LegacyTransaction) {
    && a.nonce == b.nonce && a.gasPrice == b.gasPrice && a.gasLimit == b.gasLimit
    && ToBytes(a) == ToBytes(b) && a.value == b.value && a.data == b.data
  }

  lemma MinimalIsInjective(v: U128, w: U128)
    ensures Minimal(v) == Minimal(w) <==> v == w
  {
    StrippedUint(v);
    StrippedUint(w);
  }

  /** Equal encodings come from equal facts, equal `v` and equal signature halves. */
  lemma EncodedIsInjective(a: LegacyTransaction, b: LegacyTransaction, v: U128, w: U128, r: Word, s: Word, r': Word, s': Word)
    requires ToBytes(a).Ok? && ToBytes(b).Ok?
    ensures Encoded(a, ToBytes(a).value, v, r, s) == Encoded(b, ToBytes(b).value, w, r', s') <==>
            SameFacts(a, b) && v == w && r == r' && s == s'
  {
    hide ToBytes, EncodeList, EncodeAll, Addressable, Minimal, StripZeros;
    var xs, ys := Strings(a, ToBytes(a).value, v, r, s), Strings(b, ToBytes(b).value, w, r', s');
    ToBytesLength(a);
    ToBytesLength(b);
    StringsAddressable(xs);
    StringsAddressable(ys);
    ListIsInjective(xs, ys);
    MinimalIsInjective(a.nonce, b.nonce);
    MinimalIsInjective(a.gasPrice, b.gasPrice);
    MinimalIsInjective(a.gasLimit, b.gasLimit);
    MinimalIsInjective(a.value, b.value);
    MinimalIsInjective(v, w);
    if xs == ys {
      assert xs[0] == ys[0] && xs[1] == ys[1] && xs[2] == ys[2] && xs[3] == ys[3] && xs[4] == ys[4];
      assert xs[5] == ys[5] && xs[6] == ys[6] && xs[7] == ys[7] && xs[8] == ys[8];
      StripIsInjective(r, r');
      StripIsInjective(s, s');
    }
  }

  /** Nine RLP strings that read, in order, as the facts of `tx`, then `v`, `r` and `s`. */
  ghost predicate ReadsAs(items: seq<seq<Byte>>, tx: LegacyTransaction, v: nat, r: nat, s: nat) {
    && |items| == 9
    && (forall i :: 0 <= i < 9 && i != 3 && i != 5 ==> NoLeadingZero(items[i]))
    && BigEndian(items[0]) == tx.nonce && BigEndian(items[1]) == tx.gasPrice && BigEndian(items[2]) == tx.gasLimit
    && ToBytes(tx) == Ok(items[3]) && BigEndian(items[4]) == tx.value && items[5] == tx.data
    && BigEndian(items[6]) == v && BigEndian(items[7]) == r && BigEndian(items[8]) == s
  }

  lemma EncodedReads(tx: LegacyTransaction, v: U128, r: Word, s: Word)
    requires ToBytes(tx).Ok?
    ensures var items := Strings(tx, ToBytes(tx).value, v, r, s);
            && DecodeList(Encoded(tx, ToBytes(tx).value, v, r, s)) == Some(Taken(items, []))
            && ReadsAs(items, tx, v, BigEndian(r), BigEndian(s))
  {
    hide ToBytes, BigEndian, StripZeros, ToBigEndian, Addressable, DecodeList, EncodeList, EncodeAll;
    var items := Strings(tx, ToBytes(tx).value, v, r, s);
    ToBytesLength(tx);
    StringsAddressable(items);
    DecodeListInverts(items, []);
    var bytes := EncodeList(EncodeAll(items));
    assert bytes + [] == bytes;
    MinimalReads(tx.nonce);
    MinimalReads(tx.gasPrice);
    MinimalReads(tx.gasLimit);
    MinimalReads(tx.value);
    MinimalReads(v);
    StripKeepsValue(r);
    StripKeepsValue(s);
  }

  lemma MinimalReads(v: U128)
    ensures BigEndian(Minimal(v)) == v && NoLeadingZero(Minimal(v))
  {
    StrippedUint(v);
    StripKeepsValue(ToBigEndian(v, 16));
  }

  /** The payload is the EIP-155 list: six facts, the chain id, and two empty integers. */
  lemma PayloadReads(tx: LegacyTransaction) returns (items: seq<seq<Byte>>)
    requires SigningPayload(tx).Ok?
    ensures DecodeList(SigningPayload(tx).value) == Some(Taken(items, []))
    ensures ReadsAs(items, tx, tx.chainId, 0, 0)
  {
    hide ToBytes, SigningPayload, Encoded, DecodeList, BigEndian, Strings;
    PayloadForm(tx);
    items := Strings(tx, ToBytes(tx).value, tx.chainId, NO_BYTES, NO_BYTES);
    EncodedReads(tx, tx.chainId, NO_BYTES, NO_BYTES);
    ZeroReads();
  }

  lemma ZeroReads()
    ensures BigEndian(NO_BYTES) == 0
  {
    PowPositive(256, 32);
    BigEndianRoundTrip(0, 32);
  }

  /** The signed form is the same list with `v`, `r` and `s` in the last three places. */
  lemma SignedReads(tx: LegacyTransaction, signature: Compact, recovery: Byte) returns (items: seq<seq<Byte>>)
    requires AttachSignature(tx, signature, recovery).Ok?
    ensures DecodeList(AttachSignature(tx, signature, recovery).value) == Some(Taken(items, []))
    ensures ReadsAs(items, tx, recovery + 2 * tx.chainId + 35, BigEndian(signature.r), BigEndian(signature.s))
  {
    hide ToBytes, AttachSignature, Encoded, DecodeList, BigEndian, Strings;
    SignedForm(tx, signature, recovery);
    var v := recovery + 2 * tx.chainId + 35;
    items := Strings(tx, ToBytes(tx).value, v, signature.r, signature.s);
    EncodedReads(tx, v, signature.r, signature.s);
  }

  /** What is signed determines the whole transaction, chain included. */
  lemma SigningPayloadIsInjective(a: LegacyTransaction, b: LegacyTransaction)
    requires SigningPayload(a).Ok? && SigningPayload(b).Ok?
    ensures SigningPayload(a) == SigningPayload(b) <==> SameFacts(a, b) && a.chainId == b.chainId
  {
    hide ToBytes, SigningPayload, Encoded, SameFacts;
    PayloadForm(a);
    PayloadForm(b);
    EncodedIsInjective(a, b, a.chainId, b.chainId, NO_BYTES, NO_BYTES, NO_BYTES, NO_BYTES);
  }

  /** Signed bytes determine everything, except that `v` mixes chain and recovery id. */
  lemma SignedIff(a: LegacyTransaction, b: LegacyTransaction, x: Compact, y: Compact, m: Byte, n: Byte)
    requires AttachSignature(a, x, m).Ok? && AttachSignature(b, y, n).Ok?
    ensures AttachSignature(a, x, m) == AttachSignature(b, y, n) <==>
            SameFacts(a, b) && x == y && m + 2 * a.chainId == n + 2 * b.chainId
    ensures m <= 1 && n <= 1 && AttachSignature(a, x, m) == AttachSignature(b, y, n) ==>
            a.chainId == b.chainId && m == n
  {
    hide ToBytes, AttachSignature, Encoded, SameFacts;
    SignedForm(a, x, m);
    SignedForm(b, y, n);
    EncodedIsInjective(a, b, m + 2 * a.chainId + 35, n + 2 * b.chainId + 35, x.r, x.s, y.r, y.s);
  }

  /** With recovery ids 2 and 3 the chain is no longer determined: every signed form with
      recovery id 2 is also the next chain's signed form with recovery id 0. */
  lemma RecoveryTwoCollides(tx: LegacyTransaction, signature: Compact)
    requires tx.chainId + 1 < U64_MODULUS && AttachSignature(tx, signature, 2).Ok?
    ensures AttachSignature(tx.(chainId := tx.chainId + 1), signature, 0) == AttachSignature(tx, signature, 2)
  {
    hide AttachSignature, Encoded, ToBytes;
    var next := tx.(chainId := tx.chainId + 1);
    SameRecipient(tx, next);
    SignedForm(tx, signature, 2);
    SignedForm(next, signature, 0);
    SignedIff(next, tx, signature, signature, 0, 2);
  }

  lemma SameRecipient(a: LegacyTransaction, b: LegacyTransaction)
    requires a.to == b.to
    ensures ToBytes(a) == ToBytes(b)
  {
  }

  /** A signing payload never doubles as a signed transaction, unless the signature is zero. */
  lemma PayloadIsNotSigned(a: LegacyTransaction, b: LegacyTransaction, y: Compact, n: Byte)
    requires SigningPayload(a).Ok? && AttachSignature(b, y, n).Ok?
    ensures SigningPayload(a) == AttachSignature(b, y, n) <==>
            SameFacts(a, b) && a.chainId == n + 2 * b.chainId + 35 && y.r == NO_BYTES && y.s == NO_BYTES
  {
    hide ToBytes, SigningPayload, AttachSignature, Encoded, SameFacts;
    PayloadForm(a);
    SignedForm(b, y, n);
    EncodedIsInjective(a, b, a.chainId, n + 2 * b.chainId + 35, NO_BYTES, NO_BYTES, y.r, y.s);
  }

  // ----- ERC-20 calldata

  const SELECTOR: seq<Byte> := [0xa9, 0x05, 0x9c, 0xbb]

  function EncodeErc20Transfer(to: string, amount: U128): (r: Result<seq<Byte>>) {
    var address :- AddressBytes(to);
    Ok(SELECTOR + ToBigEndian(0, 12) + address + ToBigEndian(0, 16) + ToBigEndian(amount, 16))
  }
}

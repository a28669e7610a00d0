/** Comparing an execution intent with a prepared quote, over 256-bit amounts. */
module Intent {
  import opened Bytes
  import Btc
  import Evm
  import Hex
  import Tron

  // ----- decimal text to a 256-bit word

  predicate IsDecimal(s: string) {
    s != [] && forall i :: 0 <= i < |s| ==> '0' <= s[i] <= '9'
  }

  function DigitAt(s: string, i: nat): (d: nat)
    requires IsDecimal(s) && i < |s|
    ensures d <= 9
  {
    s[i] as int - '0' as int
  }

  /** The value of the first `n` digits. */
  function DecimalPrefix(s: string, n: nat): nat
    requires IsDecimal(s) && n <= |s|
  {
    if n == 0 then 0 else DecimalPrefix(s, n - 1) * 10 + DigitAt(s, n - 1)
  }

  function DecimalValue(s: string): nat
    requires IsDecimal(s)
  {
    DecimalPrefix(s, |s|)
  }

  // ----- decimal text as printed

  function Decimal(n: nat): string {
    if n < 10 then [('0' as int + n) as char] else Decimal(n / 10) + [('0' as int + n % 10) as char]
  }

  lemma {:induction false} DecimalDenotes(n: nat)
    ensures IsDecimal(Decimal(n)) && DecimalValue(Decimal(n)) == n
  {
    var s := Decimal(n);
    if n < 10 {
      assert DecimalPrefix(s, 1) == DecimalPrefix(s, 0) * 10 + DigitAt(s, 0);
    } else {
      DecimalDenotes(n / 10);
      PrefixOfInit(s, Decimal(n / 10), |s| - 1);
    }
  }

  lemma {:induction false} PrefixOfInit(s: string, init: string, n: nat)
    requires IsDecimal(s) && IsDecimal(init) && n <= |init| && init <= s
    ensures DecimalPrefix(s, n) == DecimalPrefix(init, n)
  {
    if n > 0 { PrefixOfInit(s, init, n - 1); }
  }

  /** `k` leading zeros, then the number as it is printed. */
  ghost predicate IsNumeral(s: string, n: nat, k: nat) { s == Zeros(k) + Decimal(n) }

  /** Decimal text is a printed number behind any number of zeros, and denotes it. */
  lemma {:induction false} DecimalIff(s: string, n: nat)
    ensures (IsDecimal(s) && DecimalValue(s) == n) <==> exists k :: IsNumeral(s, n, k)
  {
    if IsDecimal(s) && DecimalValue(s) == n {
      var k := NumeralOf(s);
    }
    forall k | IsNumeral(s, n, k) ensures IsDecimal(s) && DecimalValue(s) == n {
      DecimalDenotes(n);
      ZerosInFront(k, Decimal(n));
    }
  }

  lemma {:induction false} NumeralOf(s: string) returns (k: nat)
    requires IsDecimal(s)
    ensures IsNumeral(s, DecimalValue(s), k)
  {
    var init, c, n := s[..|s| - 1], s[|s| - 1], DecimalValue(s);
    assert s == init + [c];
    if |s| == 1 {
      k := 0;
      assert DecimalPrefix(s, 1) == DecimalPrefix(s, 0) * 10 + DigitAt(s, 0);
    } else {
      k := NumeralOf(init);
      PrefixOfInit(s, init, |init|);
      var m := DecimalValue(init);
      assert n == m * 10 + DigitAt(s, |s| - 1);
      if m == 0 {
        assert init == Zeros(k) + "0" == Zeros(k + 1);
        k := k + 1;
      } else {
        assert n / 10 == m && Decimal(n) == Decimal(m) + [c];
      }
    }
  }

  lemma {:induction false} ZerosInFront(k: nat, t: string)
    requires IsDecimal(t)
    ensures IsDecimal(Zeros(k) + t) && DecimalValue(Zeros(k) + t) == DecimalValue(t)
  {
    var s := Zeros(k) + t;
    assert forall i :: 0 <= i < |s| ==> '0' <= s[i] <= '9';
    ZeroPrefix(s, k);
    PrefixAfterZeros(s, t, k, |t|);
  }

  lemma {:induction false} ZeroPrefix(s: string, k: nat)
    requires IsDecimal(s) && k <= |s| && forall i :: 0 <= i < k ==> s[i] == '0'
    ensures DecimalPrefix(s, k) == 0
  {
    if k > 0 { ZeroPrefix(s, k - 1); }
  }

  lemma {:induction false} PrefixAfterZeros(s: string, t: string, k: nat, n: nat)
    requires IsDecimal(s) && IsDecimal(t) && n <= |t| && |s| == k + |t| && s[k..] == t && DecimalPrefix(s, k) == 0
    ensures DecimalPrefix(s, k + n) == DecimalPrefix(t, n)
  {
    if n > 0 {
      PrefixAfterZeros(s, t, k, n - 1);
      assert s[k..][n - 1] == s[k + n - 1];
    }
  }

  // ----- the words

  /** What the word of a decimal text is, when it has one. */
  function DecimalWord(s: string): Option<string> {
    if IsDecimal(s) && DecimalValue(s) < Pow(256, 32) then Some(Hex.Encode(ToBigEndian(DecimalValue(s), 32)))
    else None
  }

  lemma {:induction false} PrefixGrows(s: string, m: nat, n: nat)
    requires IsDecimal(s) && m <= n <= |s|
    ensures DecimalPrefix(s, m) <= DecimalPrefix(s, n)
    decreases n
  {
    if m < n { PrefixGrows(s, m, n - 1); }
  }

  /** `bytes := bytes * 10 + digit`, from the last byte up; the carry never exceeds nine. */
  method MultiplyAdd(bytes: array<Byte>, digit: nat) returns (carry: nat)
    requires bytes.Length == 32 && digit <= 9
    modifies bytes
    ensures carry <= 9
    ensures carry * Pow(256, 32) + BigEndian(bytes[..]) == BigEndian(old(bytes[..])) * 10 + digit
  {
    hide BigEndian, Pow;
    ghost var start := bytes[..];
    carry := digit;
    var i := 32;
    assert bytes[32..] == start[32..] == [];
    EmptyWord();
    while i > 0
      invariant 0 <= i <= 32 && carry <= 9
      invariant forall j :: 0 <= j < i ==> bytes[j] == start[j]
      invariant carry * Pow(256, 32 - i) + BigEndian(bytes[i..]) == BigEndian(start[i..]) * 10 + digit
    {
      ghost var after := bytes[i..];
      i := i - 1;
      var value := bytes[i] * 10 + carry;
      CarryStep(start[i], after, start[i + 1..], carry, digit);
      bytes[i] := value % 256;
      carry := value / 256;
      assert bytes[i..] == [bytes[i]] + after;
      assert start[i..] == [start[i]] + start[i + 1..];
    }
    assert bytes[0..] == bytes[..] && start[0..] == start;
  }

  lemma EmptyWord()
    ensures BigEndian([]) == 0 && Pow(256, 0) == 1
  {
  }

  lemma CarryStep(b: Byte, after: seq<Byte>, was: seq<Byte>, carry: nat, digit: nat)
    requires |after| == |was|
    requires carry * Pow(256, |after|) + BigEndian(after) == BigEndian(was) * 10 + digit
    ensures var value := b * 10 + carry;
            value / 256 * Pow(256, |after| + 1) + BigEndian([value % 256] + after) ==
            BigEndian([b] + was) * 10 + digit
  {
    hide BigEndian;
    var value := b * 10 + carry;
    BigEndianConcat([value % 256], after);
    BigEndianConcat([b], was);
    OneByte(value % 256);
    OneByte(b);
    CarryArithmetic(b, carry, Pow(256, |after|), BigEndian(after), BigEndian(was), digit);
  }

  lemma CarryArithmetic(b: nat, carry: nat, p: nat, after: nat, was: nat, digit: nat)
    requires carry * p + after == was * 10 + digit
    ensures var value := b * 10 + carry;
            value / 256 * (256 * p) + (value % 256 * p + after) == (b * p + was) * 10 + digit
  {
    var value := b * 10 + carry;
    Redistribute(value, p);
    assert value * p == b * p * 10 + carry * p;
  }

  lemma OneByte(b: Byte)
    ensures BigEndian([b]) == b
  {
    assert [b][..0] == [];
  }

  lemma Redistribute(value: nat, p: nat)
    ensures value / 256 * (256 * p) + value % 256 * p == value * p
  {
    assert value / 256 * 256 + value % 256 == value;
    assert (value / 256 * 256) * p + (value % 256) * p == value * p;
  }

  method DecimalU256Word(decimal: string) returns (r: Option<string>)
    ensures r == DecimalWord(decimal)
  {
    hide BigEndian, Pow, Hex.Encode, ToBigEndian, DigitAt;
    if !IsDecimal(decimal) {
      return None;
    }
    var bytes := new Byte[32](_ => 0);
    ZeroWord(bytes[..]);
    for d := 0 to |decimal|
      invariant BigEndian(bytes[..]) == DecimalPrefix(decimal, d)
    {
      var carry := MultiplyAdd(bytes, DigitAt(decimal, d));
      BigEndianInverse(bytes[..]);
      if carry != 0 {
        CarryOverflows(carry, Pow(256, 32));
        PrefixGrows(decimal, d + 1, |decimal|);
        return None;
      }
    }
    BigEndianInverse(bytes[..]);
    var word := WordText(bytes);
    return Some(word);
  }

  lemma CarryOverflows(carry: nat, p: nat)
    requires carry != 0
    ensures carry * p >= p
  {
    assert carry * p == p + (carry - 1) * p;
  }

  /** Two digits a byte, in order. */
  method WordText(bytes: array<Byte>) returns (word: string)
    ensures word == Hex.Encode(bytes[..])
  {
    hide Hex.Encode, Hex.LowerDigit;
    word := "";
    Hex.EncodeEmpty();
    for j := 0 to bytes.Length
      invariant word == Hex.Encode(bytes[..j])
    {
      Hex.EncodeOne(bytes[j]);
      Hex.EncodeConcat(bytes[..j], [bytes[j]]);
      assert bytes[..j + 1] == bytes[..j] + [bytes[j]];
      word := word + [Hex.LowerDigit(bytes[j] / 16)];
      word := word + [Hex.LowerDigit(bytes[j] % 16)];
    }
    assert bytes[..bytes.Length] == bytes[..];
  }

  lemma {:induction false} ZeroWord(s: seq<Byte>)
    requires forall i :: 0 <= i < |s| ==> s[i] == 0
    ensures BigEndian(s) == 0
  {
    if s != [] { ZeroWord(s[..|s| - 1]); }
  }

  /** The value hex text denotes, most significant digit first. */
  function HexValue(s: string): nat
    requires Hex.Plain(s)
  {
    if s == [] then 0 else HexValue(s[..|s| - 1]) * 16 + Hex.Digit(s[|s| - 1]).value
  }

  lemma {:induction false} HexDenotesBytes(bytes: seq<Byte>)
    ensures Hex.Plain(Hex.Encode(bytes)) && HexValue(Hex.Encode(bytes)) == BigEndian(bytes)
  {
    hide Hex.Digit, Hex.LowerDigit, Hex.Encode;
    Hex.DecodeEncode(bytes);
    if bytes == [] {
      Hex.EncodeEmpty();
    } else {
      var init, last := bytes[..|bytes| - 1], bytes[|bytes| - 1];
      HexDenotesBytes(init);
      Hex.EncodeOne(last);
      Hex.EncodeConcat(init, [last]);
      assert bytes == init + [last];
      Hex.LowerDigitInverse(last / 16);
      Hex.LowerDigitInverse(last % 16);
      var t, high, low := Hex.Encode(init), Hex.LowerDigit(last / 16), Hex.LowerDigit(last % 16);
      assert Hex.Encode(bytes) == t + [high] + [low];
      HexValueLast(t, high);
      HexValueLast(t + [high], low);
    }
  }

  lemma HexValueLast(s: string, c: char)
    requires Hex.Plain(s) && Hex.Digit(c).Some?
    ensures Hex.Plain(s + [c]) && HexValue(s + [c]) == HexValue(s) * 16 + Hex.Digit(c).value
  {
    hide Hex.Digit;
    assert (s + [c])[..|s|] == s;
  }

  /** A word exists exactly for the decimal texts below 2^256, and denotes their value. */
  lemma DecimalWordDenotes(s: string)
    ensures DecimalWord(s).Some? <==> IsDecimal(s) && DecimalValue(s) < Pow(256, 32)
    ensures DecimalWord(s).Some? ==>
            var word := DecimalWord(s).value;
            |word| == 64 && Hex.Plain(word) && HexValue(word) == DecimalValue(s)
  {
    hide HexValue, Hex.Plain, Pow;
    if DecimalWord(s).Some? {
      HexDenotesBytes(ToBigEndian(DecimalValue(s), 32));
      BigEndianRoundTrip(DecimalValue(s), 32);
    }
  }

  // ----- ERC-20 calldata

  /** Drop a `0x` or `0X`, if there is one. */
  function Unprefixed(s: string): Option<string> {
    if |s| >= 2 && s[0] == '0' && (s[1] == 'x' || s[1] == 'X') then Some(s[2..]) else None
  }

  function BodyOf(data: string): string {
    match Unprefixed(data)
    case Some(body) => body
    case None => data
  }

  function Zeros(n: nat): string { seq(n, _ => '0') }

  predicate EvmTransferDataMatches(data: string, recipient: string, amount: string) {
    match Unprefixed(recipient)
    case None => false
    case Some(address) =>
      if |address| != 40 || !Hex.Plain(address) then false
      else
        match DecimalWord(amount)
        case None => false
        case Some(word) =>
          var expected := "a9059cbb" + (Zeros(64 - |address|) + Hex.Lower(address)) + word;
          Hex.SameIgnoringCase(BodyOf(data), expected)
  }

  /** The twenty bytes an address text names. */
  function Recipient(text: string): Option<seq<Byte>> {
    var address :- Unprefixed(text);
    if |address| != 40 || !Hex.Plain(address) then None else Hex.DecodePairs(address)
  }

  datatype Call = Call(recipient: seq<Byte>, amount: nat)

  /** The ABI reading of `transfer(address,uint256)`: selector, then two padded words. */
  function DecodeCall(bytes: seq<Byte>): Option<Call> {
    if |bytes| != 68 || bytes[..4] != Evm.SELECTOR || BigEndian(bytes[4..16]) != 0 then None
    else Some(Call(bytes[16..36], BigEndian(bytes[36..])))
  }

  function CallOf(data: string): Option<Call> {
    if !Hex.Plain(BodyOf(data)) then None
    else
      var bytes :- Hex.DecodePairs(BodyOf(data));
      DecodeCall(bytes)
  }

  function CallBytes(call: Call): seq<Byte> {
    Evm.SELECTOR + ToBigEndian(0, 12) + call.recipient + ToBigEndian(call.amount, 32)
  }

  lemma CallBytesInverse(bytes: seq<Byte>, call: Call)
    requires |call.recipient| == 20 && call.amount < Pow(256, 32)
    ensures DecodeCall(bytes) == Some(call) <==> bytes == CallBytes(call)
  {
    hide BigEndian, ToBigEndian, Pow;
    PadIsZero(12);
    BigEndianRoundTrip(call.amount, 32);
    if DecodeCall(bytes) == Some(call) {
      BigEndianInverse(bytes[4..16]);
      BigEndianInverse(bytes[36..]);
      assert bytes == bytes[..4] + bytes[4..16] + bytes[16..36] + bytes[36..];
    }
    var c := CallBytes(call);
    assert c[..4] == Evm.SELECTOR && c[4..16] == ToBigEndian(0, 12) && c[16..36] == call.recipient;
    assert c[36..] == ToBigEndian(call.amount, 32);
  }

  lemma PadIsZero(n: nat)
    ensures BigEndian(ToBigEndian(0, n)) == 0
  {
    PowPositive(256, n);
    BigEndianRoundTrip(0, n);
  }

  lemma {:induction false} ZeroHex(n: nat)
    ensures Hex.Encode(ToBigEndian(0, n)) == Zeros(2 * n)
  {
    hide Hex.Encode;
    if n == 0 {
      Hex.EncodeEmpty();
    } else {
      ZeroHex(n - 1);
      Hex.EncodeConcat(ToBigEndian(0, n - 1), [0]);
      Hex.EncodeOne(0);
      assert Zeros(2 * n) == Zeros(2 * (n - 1)) + "00";
    }
  }

  lemma ExpectedIsEncoding(address: string, amount: nat)
    requires |address| == 40 && Hex.Plain(address)
    ensures Hex.DecodePairs(address).Some? && |Hex.DecodePairs(address).value| == 20
    ensures "a9059cbb" + (Zeros(24) + Hex.Lower(address)) + Hex.Encode(ToBigEndian(amount, 32))
         == Hex.Encode(CallBytes(Call(Hex.DecodePairs(address).value, amount)))
  {
    hide Hex.Encode, Hex.Plain, Hex.Lower, Hex.DecodePairs, ToBigEndian, Zeros;
    Hex.EncodeDecode(address);
    Hex.DecodeLength(address);
    var recipient := Hex.DecodePairs(address).value;
    Tron.SelectorHex();
    ZeroHex(12);
    var a, b, c, d := Evm.SELECTOR, ToBigEndian(0, 12), recipient, ToBigEndian(amount, 32);
    Hex.EncodeConcat(a, b);
    Hex.EncodeConcat(a + b, c);
    Hex.EncodeConcat(a + b + c, d);
    assert "a9059cbb" + (Zeros(24) + Hex.Lower(address)) + Hex.Encode(d)
        == "a9059cbb" + Zeros(24) + Hex.Lower(address) + Hex.Encode(d);
  }

  lemma LowerPlain(s: string)
    ensures Hex.Plain(Hex.Lower(s)) ==> Hex.Plain(s)
  {
    if Hex.Plain(Hex.Lower(s)) {
      forall i | 0 <= i < |s| ensures Hex.Digit(s[i]).Some? {
        assert Hex.Digit(Hex.Lower(s)[i]).Some?;
      }
    }
  }

  /** Case-insensitive hex text names exactly one byte string. */
  lemma SameHexIff(s: string, bytes: seq<Byte>)
    ensures Hex.SameIgnoringCase(s, Hex.Encode(bytes)) <==> Hex.Plain(s) && Hex.DecodePairs(s) == Some(bytes)
  {
    hide Hex.Encode, Hex.Plain, Hex.DecodePairs, Hex.Lower;
    Hex.DecodeEncode(bytes);
    LowerPlain(s);
    if Hex.Lower(s) == Hex.Encode(bytes) {
      LowerLength(s);
      Hex.EncodeDecode(s);
      Hex.DecodeEncode(Hex.DecodePairs(s).value);
    }
    if Hex.Plain(s) && Hex.DecodePairs(s) == Some(bytes) {
      Hex.DecodeLength(s);
      Hex.EncodeDecode(s);
    }
  }

  lemma LowerLength(s: string)
    ensures |Hex.Lower(s)| == |s|
  {
  }

  /** The text matcher accepts exactly the calldata whose ABI reading is this transfer. */
  lemma MatchesIff(data: string, recipient: string, amount: string)
    ensures EvmTransferDataMatches(data, recipient, amount) <==>
            && Recipient(recipient).Some?
            && IsDecimal(amount) && DecimalValue(amount) < Pow(256, 32)
            && CallOf(data) == Some(Call(Recipient(recipient).value, DecimalValue(amount)))
  {
    hide Hex.Encode, Hex.Plain, Hex.DecodePairs, Hex.SameIgnoringCase, Hex.Lower, ToBigEndian, Pow;
    hide DecodeCall, CallBytes, Zeros, BodyOf, DecimalValue;
    var address := Unprefixed(recipient);
    if address.Some? && |address.value| == 40 && Hex.Plain(address.value) && DecimalWord(amount).Some? {
      ExpectedIsEncoding(address.value, DecimalValue(amount));
      var call := Call(Hex.DecodePairs(address.value).value, DecimalValue(amount));
      SameHexIff(BodyOf(data), CallBytes(call));
      if Hex.Plain(BodyOf(data)) && Hex.DecodePairs(BodyOf(data)).Some? {
        CallBytesInverse(Hex.DecodePairs(BodyOf(data)).value, call);
      }
    }
  }

  /** What the encoder writes for an address, the matcher accepts for the same text exactly
      when that text is `0x` and forty digits, with nothing around it. */
  lemma EncoderAgreesWithMatcher(to: string, amount: Evm.U128, decimal: string)
    requires Evm.EncodeErc20Transfer(to, amount).Ok?
    requires IsDecimal(decimal) && DecimalValue(decimal) == amount
    ensures var call := Hex.Encode(Evm.EncodeErc20Transfer(to, amount).value);
            && (EvmTransferDataMatches(call, to, decimal) <==> |to| == 42 && to[..2] == "0x")
            && (EvmTransferDataMatches("0x" + call, to, decimal) <==> |to| == 42 && to[..2] == "0x")
  {
    hide Hex.Encode, Hex.DecodePairs, Hex.Plain, Hex.Trim, EvmTransferDataMatches, CallOf, DecimalValue, Pow;
    var call := Hex.Encode(Evm.EncodeErc20Transfer(to, amount).value);
    MatchesIff(call, to, decimal);
    MatchesIff("0x" + call, to, decimal);
    if Recipient(to).Some? {
      UpperPrefixIsInvalid(to);
    }
    if |to| == 42 && to[..2] == "0x" {
      WholeAddress(to);
      WrittenCallMatches(to, amount, decimal);
    }
  }

  lemma UpperPrefixIsInvalid(to: string)
    requires Recipient(to).Some? && Evm.Validate(to).Ok?
    ensures |to| == 42 && to[..2] == "0x"
  {
    hide Hex.DecodePairs;
    Hex.DigitInverse(to[2..][39]);
    assert Hex.Trim(to) == to;
  }

  lemma WholeAddress(to: string)
    requires |to| == 42 && to[..2] == "0x" && Evm.Validate(to).Ok?
    ensures Hex.Plain(to[2..])
  {
    hide Hex.Plain, Hex.TrimEnd;
    assert to[0] == to[..2][0] && to[1] == to[..2][1];
    var n := Hex.TrimEndIsPrefix(to);
    assert to[..42] == to;
  }

  lemma WrittenCallMatches(to: string, amount: Evm.U128, decimal: string)
    requires |to| == 42 && to[..2] == "0x" && Hex.Plain(to[2..])
    requires IsDecimal(decimal) && DecimalValue(decimal) == amount
    ensures var call := Evm.EncodeErc20Transfer(to, amount);
            && call.Ok?
            && EvmTransferDataMatches(Hex.Encode(call.value), to, decimal)
            && EvmTransferDataMatches("0x" + Hex.Encode(call.value), to, decimal)
  {
    hide Hex.Encode, Hex.DecodePairs, ToBigEndian, BigEndian, Pow, DecodeCall, EvmTransferDataMatches, DecimalValue;
    UntouchedAddress(to);
    var recipient := Evm.AddressBytes(to).value;
    U128InWord(amount);
    var call := Call(recipient, amount);
    var bytes := Evm.EncodeErc20Transfer(to, amount).value;
    assert bytes == CallBytes(call) by {
      var h := Evm.SELECTOR + ToBigEndian(0, 12) + recipient;
      assert h + ToBigEndian(0, 16) + ToBigEndian(amount, 16) == h + (ToBigEndian(0, 16) + ToBigEndian(amount, 16));
    }
    CallBytesInverse(bytes, call);
    Hex.DecodeEncode(bytes);
    HexHasNoPrefix(bytes);
    MatchesIff(Hex.Encode(bytes), to, decimal);
    MatchesIff("0x" + Hex.Encode(bytes), to, decimal);
    assert ("0x" + Hex.Encode(bytes))[2..] == Hex.Encode(bytes);
  }

  lemma HexHasNoPrefix(bytes: seq<Byte>)
    ensures BodyOf(Hex.Encode(bytes)) == Hex.Encode(bytes)
  {
    Hex.DecodeEncode(bytes);
    var s := Hex.Encode(bytes);
    if |s| >= 2 { assert Hex.Digit(s[1]).Some?; }
  }

  lemma U128InWord(amount: Evm.U128)
    ensures amount < Pow(256, 32) && ToBigEndian(0, 16) + ToBigEndian(amount, 16) == ToBigEndian(amount, 32)
  {
    hide BigEndian, ToBigEndian;
    Evm.Rlp.PowSixteen();
    PowAdd(256, 16, 16);
    assert Pow(256, 16) * Pow(256, 16) >= Pow(256, 16) by { PowPositive(256, 16); }
    var s := ToBigEndian(0, 16) + ToBigEndian(amount, 16);
    BigEndianConcat(ToBigEndian(0, 16), ToBigEndian(amount, 16));
    PadIsZero(16);
    BigEndianRoundTrip(amount, 16);
    BigEndianInverse(s);
  }

  lemma UntouchedAddress(to: string)
    requires |to| == 42 && to[..2] == "0x" && Hex.Plain(to[2..])
    ensures Recipient(to).Some? && |Recipient(to).value| == 20
    ensures Evm.AddressBytes(to) == Ok(Recipient(to).value)
  {
    hide Hex.DecodePairs;
    assert to[0] == to[..2][0] && to[1] == to[..2][1];
    assert Hex.Digit(to[2..][39]).Some?;
    Hex.DigitInverse(to[41]);
    assert Hex.Trim(to) == to;
    Hex.EncodeDecode(to[2..]);
    Hex.DecodeLength(to[2..]);
  }

  /** Calldata is accepted for one recipient and one amount only, however spelled. */
  lemma AcceptedCallIsUnique(data: string, recipient: string, amount: string, recipient': string, amount': string)
    requires EvmTransferDataMatches(data, recipient, amount) && EvmTransferDataMatches(data, recipient', amount')
    ensures Recipient(recipient) == Recipient(recipient') && IsDecimal(amount) && IsDecimal(amount')
    ensures DecimalValue(amount) == DecimalValue(amount')
  {
    hide EvmTransferDataMatches, CallOf, Recipient, DecimalValue, Pow;
    MatchesIff(data, recipient, amount);
    MatchesIff(data, recipient', amount');
  }

  // ----- quotes and intents

  datatype WalletChain = ChainEvm | ChainBtc | ChainSolana | ChainTron
  datatype PreparedKind = NativeTransfer | TokenTransfer
  datatype EvmNetwork = EthereumMainnet | BaseMainnet | ArbitrumOne | OptimismMainnet | PolygonMainnet | BscMainnet

  function ChainId(network: EvmNetwork): U64 {
    match network
    case EthereumMainnet => 1
    case BaseMainnet => 8453
    case ArbitrumOne => 42161
    case OptimismMainnet => 10
    case PolygonMainnet => 137
    case BscMainnet => 56
  }

  datatype Quote = Quote(
    chain: WalletChain, kind: PreparedKind, from: string, to: string, amountRaw: string,
    tokenAddress: Option<string>, evmNetwork: Option<EvmNetwork>)

  function NetworkOf(quote: Quote): EvmNetwork {
    if quote.evmNetwork.Some? then quote.evmNetwork.value else EthereumMainnet
  }

  datatype Spec =
    | BtcSpec(from: string, to: string, amountSat: U64, feeSat: U64, utxos: seq<Btc.Utxo>)
    | EvmSpec(evmTo: string, valueWei: string, dataHex: string, nonce: U64, gasLimit: U64, gasPriceWei: string, chainId: U64)
    | SolanaSpec(from: string, to: string, lamports: U64, recentBlockhash: string)
    | TronSpec(rawDataHex: string, expectedTo: string, expectedTxid: string, transfer: Tron.Transfer)

  datatype ExecutionIntent = TransactionIntent(spec: Spec) | SolanaMessage(messageHex: string)

  /** `str::parse::<u64>`: decimal digits after an optional `+`, in range. */
  function ParseU64(s: string): Option<U64> {
    var digits := if |s| >= 1 && s[0] == '+' then s[1..] else s;
    if IsDecimal(digits) && DecimalValue(digits) < U64_MODULUS then Some(DecimalValue(digits)) else None
  }

  /** The same for `u128`. */
  function ParseU128(s: string): Option<Evm.U128> {
    var digits := if |s| >= 1 && s[0] == '+' then s[1..] else s;
    if IsDecimal(digits) && DecimalValue(digits) < U128_MODULUS then Some(DecimalValue(digits)) else None
  }

  /** Such text is a numeral of a number in range, after at most one plus sign. */
  lemma ParseU64Iff(s: string, n: U64)
    ensures ParseU64(s) == Some(n) <==> exists k :: IsNumeral(s, n, k) || (s != "" && s[0] == '+' && IsNumeral(s[1..], n, k))
  {
    SignedNumeral(s, n);
    hide DecimalValue, IsNumeral;
    DecimalIff(s, n);
    if s != "" { DecimalIff(s[1..], n); }
  }

  lemma ParseU128Iff(s: string, n: Evm.U128)
    ensures ParseU128(s) == Some(n) <==> exists k :: IsNumeral(s, n, k) || (s != "" && s[0] == '+' && IsNumeral(s[1..], n, k))
  {
    SignedNumeral(s, n);
    hide DecimalValue, IsNumeral;
    DecimalIff(s, n);
    if s != "" { DecimalIff(s[1..], n); }
  }

  lemma SignedNumeral(s: string, n: nat)
    ensures s != "" && s[0] == '+' ==> !IsDecimal(s)
  {
  }

  predicate ValidHex(s: string) { s != [] && |s| % 2 == 0 && Hex.Plain(s) }

  predicate NativeIntentMatchesQuote(quote: Quote, intent: ExecutionIntent) {
    match intent
    case SolanaMessage(messageHex) =>
      quote.chain == ChainSolana && quote.kind == TokenTransfer && ValidHex(messageHex)
    case TransactionIntent(spec) =>
      match spec
      case BtcSpec(from, to, amountSat, _, _) =>
        && quote.chain == ChainBtc && quote.kind == NativeTransfer
        && from == quote.from && to == quote.to && ParseU64(quote.amountRaw) == Some(amountSat)
      case EvmSpec(to, valueWei, dataHex, _, _, _, chainId) =>
        if quote.chain != ChainEvm || ChainId(NetworkOf(quote)) != chainId then false
        else if quote.kind == NativeTransfer then
          to == quote.to && valueWei == quote.amountRaw && dataHex == ""
        else if quote.tokenAddress.None? then false
        else
          && Hex.SameIgnoringCase(to, quote.tokenAddress.value) && valueWei == "0"
          && EvmTransferDataMatches(dataHex, quote.to, quote.amountRaw)
      case SolanaSpec(from, to, lamports, _) =>
        && quote.chain == ChainSolana && quote.kind == NativeTransfer
        && from == quote.from && to == quote.to && ParseU64(quote.amountRaw) == Some(lamports)
      case TronSpec(_, expectedTo, _, transfer) =>
        if quote.chain != ChainTron || expectedTo != quote.to then false
        else
          match (quote.kind, transfer)
          case (NativeTransfer, Native(amount)) => ParseU64(quote.amountRaw) == Some(amount)
          case (TokenTransfer, Trc20(parameterHex)) => ValidHex(parameterHex)
          case _ => false
  }

  /** What an intent moves, read off the intent alone. */
  datatype Effect =
    | PaysBtc(from: string, to: string, amount: nat)
    | PaysSolana(from: string, to: string, amount: nat)
    | PaysTron(to: string, amount: nat)
    | PaysEvm(chainId: nat, to: string, value: string)
    | PaysEvmToken(chainId: nat, token: string, call: Call)
    | CallsTronToken(to: string, parameterHex: string)
    | SignsSolanaMessage(messageHex: string)
    | Unread

  function EffectOf(intent: ExecutionIntent): Effect {
    match intent
    case SolanaMessage(messageHex) => SignsSolanaMessage(messageHex)
    case TransactionIntent(BtcSpec(from, to, amount, _, _)) => PaysBtc(from, to, amount)
    case TransactionIntent(SolanaSpec(from, to, amount, _)) => PaysSolana(from, to, amount)
    case TransactionIntent(TronSpec(_, to, _, Native(amount))) => PaysTron(to, amount)
    case TransactionIntent(TronSpec(_, to, _, Trc20(parameterHex))) => CallsTronToken(to, parameterHex)
    case TransactionIntent(EvmSpec(to, value, data, _, _, _, chainId)) =>
      if data == "" then PaysEvm(chainId, to, value)
      else if value == "0" && CallOf(data).Some? then PaysEvmToken(chainId, Hex.Lower(to), CallOf(data).value)
      else Unread
  }

  /** The token quotes whose amount and recipient the comparison cannot see. */
  predicate Unbound(quote: Quote) {
    quote.kind == TokenTransfer && (quote.chain == ChainSolana || quote.chain == ChainTron)
  }

  /** What a quote promises, in the same terms. */
  function QuotedEffect(quote: Quote): Option<Effect> {
    var network := NetworkOf(quote);
    match (quote.chain, quote.kind)
    case (ChainBtc, NativeTransfer) =>
      var amount :- ParseU64(quote.amountRaw);
      Some(PaysBtc(quote.from, quote.to, amount))
    case (ChainSolana, NativeTransfer) =>
      var amount :- ParseU64(quote.amountRaw);
      Some(PaysSolana(quote.from, quote.to, amount))
    case (ChainTron, NativeTransfer) =>
      var amount :- ParseU64(quote.amountRaw);
      Some(PaysTron(quote.to, amount))
    case (ChainEvm, NativeTransfer) => Some(PaysEvm(ChainId(network), quote.to, quote.amountRaw))
    case (ChainEvm, TokenTransfer) =>
      var token :- quote.tokenAddress;
      var recipient :- Recipient(quote.to);
      if IsDecimal(quote.amountRaw) && DecimalValue(quote.amountRaw) < Pow(256, 32)
      then Some(PaysEvmToken(ChainId(network), Hex.Lower(token), Call(recipient, DecimalValue(quote.amountRaw))))
      else None
    case _ => None
  }

  /** Except for Solana and Tron tokens, an intent matches exactly when what it moves is
      what the quote promises. */
  lemma MatchIffQuotedEffect(quote: Quote, intent: ExecutionIntent)
    requires !Unbound(quote)
    ensures NativeIntentMatchesQuote(quote, intent) <==> QuotedEffect(quote) == Some(EffectOf(intent))
  {
    hide EvmTransferDataMatches, CallOf, DecimalValue, Pow, Recipient, ParseU64, Hex.Lower, ChainId, IsDecimal;
    if intent.TransactionIntent? && intent.spec.EvmSpec? {
      MatchesIff(intent.spec.dataHex, quote.to, quote.amountRaw);
      EmptyIsNoCall();
    }
  }

  /** And for those tokens a match is exactly this, whatever the amount: well-formed hex of a
      message, or of the parameter of a TRC20 call that names the payee as its contract. */
  lemma UnboundMatchIff(quote: Quote, intent: ExecutionIntent)
    requires Unbound(quote)
    ensures NativeIntentMatchesQuote(quote, intent) <==>
            if quote.chain == ChainSolana then intent.SolanaMessage? && IsHexOfBytes(intent.messageHex)
            else && intent.TransactionIntent? && intent.spec.TronSpec? && intent.spec.expectedTo == quote.to
                 && intent.spec.transfer.Trc20? && IsHexOfBytes(intent.spec.transfer.parameterHex)
  {
    hide EvmTransferDataMatches, CallOf, DecimalValue, Pow, Recipient, ParseU64, Hex.Lower, ChainId, IsDecimal, ValidHex, IsHexOfBytes;
    if intent.SolanaMessage? { ValidHexIff(intent.messageHex); }
    if intent.TransactionIntent? && intent.spec.TronSpec? && intent.spec.transfer.Trc20? {
      ValidHexIff(intent.spec.transfer.parameterHex);
    }
  }

  /** The text spells a non-empty byte string, in either case. */
  ghost predicate IsHexOfBytes(s: string) {
    exists bytes :: bytes != [] && Hex.SameIgnoringCase(s, Hex.Encode(bytes))
  }

  lemma ValidHexIff(s: string)
    ensures ValidHex(s) <==> IsHexOfBytes(s)
  {
    hide Hex.SameIgnoringCase, Hex.Plain;
    if ValidHex(s) {
      Hex.EncodeDecode(s);
      var bytes := Hex.DecodePairs(s).value;
      Hex.DecodeLength(s);
      SameHexIff(s, bytes);
    }
    forall bytes: seq<Byte> | bytes != [] && Hex.SameIgnoringCase(s, Hex.Encode(bytes)) ensures ValidHex(s) {
      SameHexIff(s, bytes);
      Hex.DecodeLength(s);
    }
  }

  /** The chain ids of EIP-155 deployments; no two networks share one, and a quote without a
      network is for Ethereum. */
  lemma ChainIdsAreKnown(quote: Quote, a: EvmNetwork, b: EvmNetwork)
    ensures ChainId(EthereumMainnet) == 1 && ChainId(BaseMainnet) == 8453 && ChainId(ArbitrumOne) == 42161
    ensures ChainId(OptimismMainnet) == 10 && ChainId(PolygonMainnet) == 137 && ChainId(BscMainnet) == 56
    ensures ChainId(a) == ChainId(b) ==> a == b
    ensures quote.evmNetwork.None? ==> ChainId(NetworkOf(quote)) == 1
    ensures quote.evmNetwork.Some? ==> NetworkOf(quote) == quote.evmNetwork.value
  {
  }

  /** An address text is `0x` or `0X` and the digits of twenty bytes, in either case; calldata
      may carry the same prefixes or none. */
  lemma PrefixesAreRead(address: seq<Byte>, data: seq<Byte>)
    requires |address| == 20
    ensures Recipient("0x" + Hex.Encode(address)) == Recipient("0X" + Hex.Encode(address)) == Some(address)
    ensures Recipient(Hex.Encode(address)) == None
    ensures CallOf("0x" + Hex.Encode(data)) == CallOf("0X" + Hex.Encode(data)) == CallOf(Hex.Encode(data)) == DecodeCall(data)
  {
    hide Hex.Encode, DecodeCall, Hex.DecodePairs;
    Hex.DecodeEncode(address);
    Hex.DecodeEncode(data);
    HexHasNoPrefix(data);
    HexHasNoPrefix(address);
    assert ("0x" + Hex.Encode(address))[2..] == ("0X" + Hex.Encode(address))[2..] == Hex.Encode(address);
    assert ("0x" + Hex.Encode(data))[2..] == ("0X" + Hex.Encode(data))[2..] == Hex.Encode(data);
  }

  lemma EmptyIsNoCall()
    ensures CallOf("").None?
  {
  }

  /** Two intents that match one quote move the same asset, amount and payee on the same
      chain, exactly for the quotes that are not Solana or Tron token transfers. */
  lemma QuoteFixesEffectIff(quote: Quote)
    ensures (forall a, b :: NativeIntentMatchesQuote(quote, a) && NativeIntentMatchesQuote(quote, b) ==>
                              EffectOf(a) == EffectOf(b))
            <==> !Unbound(quote)
  {
    hide EvmTransferDataMatches, CallOf, ParseU64, QuotedEffect;
    if Unbound(quote) {
      var a, b;
      if quote.chain == ChainSolana {
        a, b := SolanaMessage("00"), SolanaMessage("01");
      } else {
        a := TransactionIntent(TronSpec("", quote.to, "", Tron.Trc20("00")));
        b := TransactionIntent(TronSpec("", quote.to, "", Tron.Trc20("01")));
      }
      assert NativeIntentMatchesQuote(quote, a) && NativeIntentMatchesQuote(quote, b);
      assert EffectOf(a) != EffectOf(b) by { assert "00"[1] != "01"[1]; }
    } else {
      forall a, b | NativeIntentMatchesQuote(quote, a) && NativeIntentMatchesQuote(quote, b)
        ensures EffectOf(a) == EffectOf(b)
      {
        MatchIffQuotedEffect(quote, a);
        MatchIffQuotedEffect(quote, b);
      }
    }
  }
}

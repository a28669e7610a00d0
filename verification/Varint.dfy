/** Base-128 varints: the writer and the reader of `proto.rs`. */
module Varint {
  import opened Bytes

  /** The shortest base-128 encoding, least significant group first. */
  function Encode(v: nat): (s: seq<Byte>)
    ensures |s| >= 1
  {
    if v < 128 then [v] else [v % 128 + 128] + Encode(v / 128)
  }

  method EncodeVarint(value: U64) returns (encoded: seq<Byte>)
    ensures encoded == Encode(value)
  {
    hide Encode;
    encoded := [];
    var rest: int := value;
    while true
      invariant 0 <= rest
      invariant encoded + Encode(rest) == Encode(value)
      decreases rest
    {
      NextGroup(encoded, rest);
      var byte := rest % 128;
      rest := rest / 128;
      if rest != 0 {
        byte := byte + 128;
      }
      encoded := encoded + [byte];
      if rest == 0 {
        return;
      }
    }
  }

  /** Writing the low group and leaving the rest changes nothing of the whole. */
  lemma {:induction false} NextGroup(before: seq<Byte>, v: nat)
    ensures before + Encode(v) ==
            if v / 128 == 0 then before + [v % 128] else before + [v % 128 + 128] + Encode(v / 128)
  {
    if v < 128 {
      assert Encode(v) == [v % 128];
    } else {
      assert before + ([v % 128 + 128] + Encode(v / 128)) == before + [v % 128 + 128] + Encode(v / 128);
    }
  }

  /** The sum a run of groups denotes: group `i` weighs 128^i. */
  function GroupSum(s: seq<Byte>): nat {
    if s == [] then 0
    else GroupSum(s[..|s| - 1]) + s[|s| - 1] % 128 * Pow(128, |s| - 1)
  }

  /** Continuation bits on all groups but the last. */
  ghost predicate IsGrouped(s: seq<Byte>) {
    s != [] && s[|s| - 1] < 128 && forall i :: 0 <= i < |s| - 1 ==> s[i] >= 128
  }

  /** The published format: at most ten groups, and a value that fits 64 bits. */
  ghost predicate IsVarint(s: seq<Byte>) {
    |s| <= 10 && IsGrouped(s) && GroupSum(s) < U64_MODULUS
  }

  lemma GroupedTail(s: seq<Byte>)
    requires |s| > 1
    ensures IsGrouped(s) <==> s[0] >= 128 && IsGrouped(s[1..])
  {
    var tail := s[1..];
    if s[0] >= 128 && IsGrouped(tail) {
      forall i | 0 <= i < |s| - 1 ensures s[i] >= 128 {
        if i > 0 { assert s[i] == tail[i - 1]; }
      }
    }
  }

  /** Read the groups from the `k`-th on; the value is relative to group `k`. */
  function TakeGroups(input: seq<Byte>, k: nat): (r: Result<Taken<nat>>)
    requires k <= 10
    ensures match r case Ok(t) => |t.rest| < |input| case Err(e) => e == InvalidField
    decreases 10 - k
  {
    if k == 10 || input == [] then Err(InvalidField)
    else
      var part := input[0] % 128;
      if k == 9 && part > 1 then Err(InvalidField)
      else if input[0] < 128 then Ok(Taken(part, input[1..]))
      else
        var more :- TakeGroups(input[1..], k + 1);
        Ok(Taken(part + 128 * more.value, more.rest))
  }

  /** Decode one varint off the front of `input`. */
  function Take(input: seq<Byte>): (r: Result<Taken<U64>>)
    ensures match r case Ok(t) => |t.rest| < |input| case Err(e) => e == InvalidField
  {
    var t :- TakeGroups(input, 0);
    TakeGroupsSound(input, 0); CapZero();
    Ok(Taken(t.value, t.rest))
  }

  /** One more than the largest value the groups from `k` on can hold. */
  function Cap(k: nat): nat
    requires k <= 9
    decreases 9 - k
  {
    if k == 9 then 2 else 128 * Cap(k + 1)
  }

  lemma CapZero()
    ensures Cap(0) == U64_MODULUS
  {
    assert Cap(6) == 0x40_0000;
    assert Cap(3) == 0x800_0000_0000;
  }

  lemma {:induction false} GroupSumHead(s: seq<Byte>)
    requires s != []
    ensures GroupSum(s) == s[0] % 128 + 128 * GroupSum(s[1..])
  {
    if |s| == 1 {
      assert GroupSum(s[..0]) == 0;
    } else {
      var init, last := s[..|s| - 1], s[|s| - 1] % 128;
      GroupSumHead(init);
      assert init[1..] == s[1..][..|s| - 2];
      assert last * Pow(128, |s| - 1) == 128 * (last * Pow(128, |s| - 2));
    }
  }

  /** Read from group `k` on, `input` is groups that denote `value`, then `rest`. */
  ghost predicate ReadsGroups(input: seq<Byte>, k: nat, value: nat, rest: seq<Byte>) {
    var n := |input| - |rest|;
    && k <= 9 && 1 <= n <= 10 - k && n <= |input| && rest == input[n..]
    && IsGrouped(input[..n]) && value == GroupSum(input[..n]) < Cap(k)
  }

  lemma {:induction false} TakeGroupsSound(input: seq<Byte>, k: nat)
    requires k <= 10
    ensures match TakeGroups(input, k)
            case Err(_) => true
            case Ok(t) => ReadsGroups(input, k, t.value, t.rest)
    decreases 10 - k
  {
    hide ReadsGroups;
    if TakeGroups(input, k).Ok? {
      if input[0] < 128 {
        LastGroup(input, k);
      } else {
        TakeGroupsSound(input[1..], k + 1);
        var more := TakeGroups(input[1..], k + 1).value;
        MoreGroups(input, k, more.value, more.rest);
      }
    }
  }

  lemma LastGroup(input: seq<Byte>, k: nat)
    requires input != [] && input[0] < 128 && k <= 9 && (k == 9 ==> input[0] <= 1)
    ensures ReadsGroups(input, k, input[0], input[1..])
  {
    hide GroupSum, IsGrouped;
    CapAtLeast(k);
    OneGroup(input[0]);
    assert input[..1] == [input[0]];
  }

  lemma MoreGroups(input: seq<Byte>, k: nat, value: nat, rest: seq<Byte>)
    requires input != [] && input[0] >= 128 && ReadsGroups(input[1..], k + 1, value, rest)
    ensures ReadsGroups(input, k, input[0] % 128 + 128 * value, rest)
  {
    hide GroupSum, IsGrouped;
    var n := |input| - |rest|;
    assert input[1..][n - 1..] == input[n..];
    assert input[..n][1..] == input[1..][..n - 1];
    GroupSumHead(input[..n]);
    GroupedTail(input[..n]);
  }

  lemma OneGroup(b: Byte)
    requires b < 128
    ensures IsGrouped([b]) && GroupSum([b]) == b
  {
    GroupSumHead([b]);
    assert [b][1..] == [];
  }

  lemma {:induction false} CapAtLeast(k: nat)
    requires k <= 9
    ensures Cap(k) >= 2 && (k < 9 ==> Cap(k) >= 128)
    decreases 9 - k
  {
    if k < 9 { CapAtLeast(k + 1); }
  }

  lemma {:induction false} TakeGroupsComplete(s: seq<Byte>, tail: seq<Byte>, k: nat)
    requires IsGrouped(s) && k + |s| <= 10 && GroupSum(s) < Cap(k)
    ensures TakeGroups(s + tail, k) == Ok(Taken(GroupSum(s), tail))
    decreases 10 - k
  {
    hide GroupSum, TakeGroups;
    if |s| > 1 {
      GroupSumHead(s);
      GroupedTail(s);
      hide IsGrouped;
      TakeGroupsComplete(s[1..], tail, k + 1);
      TakeMore(s[0], s[1..] + tail, k);
      assert s + tail == [s[0]] + (s[1..] + tail);
    } else {
      assert s == [s[0]];
      OneGroup(s[0]);
      TakeLast(s[0], tail, k);
    }
  }

  lemma TakeLast(b: Byte, tail: seq<Byte>, k: nat)
    requires b < 128 && k <= 9 && b < Cap(k)
    ensures TakeGroups([b] + tail, k) == Ok(Taken(b, tail))
  {
    assert ([b] + tail)[1..] == tail;
  }

  lemma TakeMore(b: Byte, input: seq<Byte>, k: nat)
    requires b >= 128 && k < 9 && TakeGroups(input, k + 1).Ok?
    ensures var more := TakeGroups(input, k + 1).value;
            TakeGroups([b] + input, k) == Ok(Taken(b % 128 + 128 * more.value, more.rest))
  {
    assert ([b] + input)[1..] == input;
  }

  /** The reader accepts exactly the well-formed encodings, whatever follows them, and
      reads the full base-128 sum. */
  lemma {:induction false} TakeIff(s: seq<Byte>, tail: seq<Byte>, v: U64)
    ensures Take(s + tail) == Ok(Taken(v, tail)) <==> IsVarint(s) && v == GroupSum(s)
  {
    CapZero();
    if IsVarint(s) {
      TakeGroupsComplete(s, tail, 0);
    }
    if Take(s + tail) == Ok(Taken(v, tail)) {
      TakeGroupsSound(s + tail, 0);
      assert (s + tail)[..|s|] == s;
    }
  }

  /** Whatever is accepted, the bytes consumed are a well-formed varint of that value. */
  lemma TakeSplits(input: seq<Byte>) returns (n: nat)
    requires Take(input).Ok?
    ensures 1 <= n <= 10 && n <= |input| && Take(input).value.rest == input[n..]
    ensures IsVarint(input[..n]) && Take(input).value.value == GroupSum(input[..n])
  {
    n := |input| - |Take(input).value.rest|;
    TakeGroupsSound(input, 0);
    CapZero();
  }

  lemma {:induction false} EncodeIsVarint(v: nat, k: nat)
    requires k <= 9 && v < Cap(k)
    ensures IsGrouped(Encode(v)) && GroupSum(Encode(v)) == v && k + |Encode(v)| <= 10
    decreases 9 - k
  {
    hide GroupSum, IsGrouped;
    var s := Encode(v);
    GroupSumHead(s);
    if v < 128 {
      OneGroup(v);
    } else {
      EncodeIsVarint(v / 128, k + 1);
      assert s[1..] == Encode(v / 128);
      GroupedTail(s);
    }
  }

  /** Reading back what was written returns the value and leaves the tail. */
  lemma {:induction false} RoundTrip(v: U64, tail: seq<Byte>)
    ensures IsVarint(Encode(v)) && GroupSum(Encode(v)) == v
    ensures Take(Encode(v) + tail) == Ok(Taken(v, tail))
  {
    CapZero();
    EncodeIsVarint(v, 0);
    TakeIff(Encode(v), tail, v);
  }

  /** The writer's encoding is the shortest one, and the only one of its length. */
  lemma {:induction false} EncodeIsShortest(s: seq<Byte>)
    requires IsGrouped(s)
    ensures |Encode(GroupSum(s))| <= |s|
    ensures |Encode(GroupSum(s))| == |s| ==> s == Encode(GroupSum(s))
  {
    hide GroupSum;
    if |s| == 1 {
      assert s == [s[0]];
      OneGroup(s[0]);
    } else {
      GroupSumHead(s);
      GroupedTail(s);
      hide IsGrouped;
      EncodeIsShortest(s[1..]);
      EncodeCons(s[0], GroupSum(s[1..]));
      assert s == [s[0]] + s[1..];
    }
  }

  lemma EncodeCons(b: Byte, v: nat)
    requires b >= 128
    ensures v > 0 ==> Encode(b % 128 + 128 * v) == [b] + Encode(v)
    ensures v == 0 ==> |Encode(b % 128 + 128 * v)| == 1
  {
  }

  /** What the remaining groups yield once the first `k` have summed to `low`. */
  function Resume(low: nat, k: nat, r: Result<Taken<nat>>): Result<Taken<nat>> {
    match r
    case Err(e) => Err(e)
    case Ok(t) => Ok(Taken(low + t.value * Pow(128, k), t.rest))
  }

  /** One turn of the loop, whatever the next byte is. */
  lemma GroupStep(input: seq<Byte>, low: nat, k: nat)
    requires k <= 9 && low < Pow(128, k)
    ensures input == [] || (k == 9 && input[0] % 128 > 1) ==> Resume(low, k, TakeGroups(input, k)) == Err(InvalidField)
    ensures input != [] && !(k == 9 && input[0] % 128 > 1) ==>
            var next := Or(low, ShiftLeft64(input[0] % 128, 7 * k));
            && next < Pow(128, k + 1) && next < U64_MODULUS
            && Resume(low, k, TakeGroups(input, k)) ==
               if input[0] < 128 then Ok(Taken(next, input[1..])) else Resume(next, k + 1, TakeGroups(input[1..], k + 1))
  {
    hide Or, ShiftLeft64, Pow;
    if input != [] && !(k == 9 && input[0] % 128 > 1) {
      AccumulateGroup(low, input[0] % 128, k);
      var more := TakeGroups(input[1..], k + 1);
      if more.Ok? {
        Regroup(low, input[0] % 128, more.value.value, k);
      }
    }
  }

  lemma NoGroupsLeft(low: nat, input: seq<Byte>)
    ensures Resume(low, 10, TakeGroups(input, 10)) == Err(InvalidField)
    ensures Resume(0, 0, TakeGroups(input, 0)) == TakeGroups(input, 0) && Pow(128, 0) == 1
  {
  }

  /** The source's loop: seven bits at a time, or-ed in at a growing shift. */
  method TakeVarint(input: seq<Byte>) returns (r: Result<Taken<U64>>)
    ensures r == Take(input)
  {
    hide Pow, Or, ShiftLeft64, Take, TakeGroups, Resume;
    TakeAgrees(input);
    NoGroupsLeft(0, input);
    var value: nat := 0;
    var rest := input;
    var shift := 0;
    ghost var k := 0;
    while shift <= 63
      invariant 0 <= k <= 10 && shift == 7 * k
      invariant value < Pow(128, k)
      invariant TakeGroups(input, 0) == Resume(value, k, TakeGroups(rest, k))
    {
      GroupStep(rest, value, k);
      if rest == [] {
        return Err(InvalidField);
      }
      var byte := rest[0];
      rest := rest[1..];
      var part := byte % 128;
      if shift == 63 && part > 1 {
        return Err(InvalidField);
      }
      value := Or(value, ShiftLeft64(part, shift));
      if byte < 128 {
        return Ok(Taken(value, rest));
      }
      shift := shift + 7;
      k := k + 1;
    }
    NoGroupsLeft(value, rest);
    return Err(InvalidField);
  }

  lemma TakeAgrees(input: seq<Byte>)
    ensures match TakeGroups(input, 0)
            case Err(e) => Take(input) == Err(e)
            case Ok(t) => t.value < U64_MODULUS && Take(input) == Ok(Taken(t.value, t.rest))
  {
    TakeGroupsSound(input, 0);
    CapZero();
  }

  lemma PowOfShift(k: nat)
    ensures Pow(2, 7 * k) == Pow(128, k)
  {
    if k > 0 {
      PowOfShift(k - 1);
      PowAdd(2, 7, 7 * (k - 1));
      assert Pow(2, 7) == 128;
    }
  }

  lemma {:induction false} PowTimesCap(k: nat)
    requires k <= 9
    ensures Pow(128, k) * Cap(k) == U64_MODULUS
  {
    CapZero();
    if k > 0 {
      PowTimesCap(k - 1);
      assert 128 * Pow(128, k - 1) * Cap(k) == Pow(128, k - 1) * (128 * Cap(k));
    }
  }

  lemma GroupFits(low: nat, part: nat, p: nat, cap: nat)
    requires low < p && part < cap && part < 128 && p * cap == U64_MODULUS
    ensures low + part * p < U64_MODULUS && low + part * p < 128 * p
    ensures part * p % U64_MODULUS == part * p
  {
    OneMoreFits(part, cap, p);
    OneMoreFits(part, 128, p);
    BelowIsRemainder(part * p);
  }

  lemma OneMoreFits(part: nat, bound: nat, p: nat)
    requires part < bound
    ensures part * p + p <= p * bound
  {
    var spare := bound - part - 1;
    assert bound == spare + (part + 1);
    Distributes(p, spare, part + 1);
    Distributes(p, part, 1);
  }

  lemma Distributes(p: nat, a: nat, b: nat)
    ensures p * (a + b) == p * a + p * b
  {
  }

  lemma BelowIsRemainder(n: nat)
    requires n < U64_MODULUS
    ensures n % U64_MODULUS == n
  {
  }

  /** One turn of the loop drops no bit. */
  lemma AccumulateGroup(low: nat, part: nat, k: nat)
    requires k <= 9 && low < Pow(128, k) && part < 128 && (k == 9 ==> part <= 1)
    ensures Or(low, ShiftLeft64(part, 7 * k)) == low + part * Pow(128, k)
    ensures low + part * Pow(128, k) < Pow(128, k + 1)
    ensures low + part * Pow(128, k) < U64_MODULUS
  {
    PowOfShift(k);
    PowTimesCap(k);
    CapAtLeast(k);
    GroupFits(low, part, Pow(128, k), Cap(k));
    OrAboveIsSum(low, part, 7 * k);
  }

  lemma Regroup(low: nat, part: nat, v: nat, k: nat)
    ensures low + (part + 128 * v) * Pow(128, k) == low + part * Pow(128, k) + v * Pow(128, k + 1)
  {
    assert (part + 128 * v) * Pow(128, k) == part * Pow(128, k) + v * (128 * Pow(128, k));
  }
}

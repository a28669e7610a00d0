/** Coin selection and transaction building of `btc.rs`. */
module Btc {
  import opened Bytes
  import Hex

  const DUST_THRESHOLD: U64 := 546

  datatype Utxo = Utxo(txid: string, vout: nat, value: U64)

  datatype Selection = Selection(inputs: seq<Utxo>, change: U64)

  // ----- the stable sort by descending value, as positions in the given list

  predicate Within(positions: seq<nat>, n: nat) {
    forall i :: 0 <= i < |positions| ==> positions[i] < n
  }

  /** Where a coin of value `v` goes: after every coin at least as large. */
  function Slot(utxos: seq<Utxo>, order: seq<nat>, v: nat): (k: nat)
    requires Within(order, |utxos|)
    ensures k <= |order|
  {
    if order == [] || utxos[order[|order| - 1]].value >= v then |order|
    else Slot(utxos, order[..|order| - 1], v)
  }

  /** The first `n` positions, largest value first, ties in list order. */
  function Order(utxos: seq<Utxo>, n: nat): (order: seq<nat>)
    requires n <= |utxos|
    ensures |order| == n && Within(order, n)
  {
    if n == 0 then []
    else
      var before := Order(utxos, n - 1);
      var k := Slot(utxos, before, utxos[n - 1].value);
      before[..k] + [n - 1] + before[k..]
  }

  function Pick(utxos: seq<Utxo>, positions: seq<nat>): (picked: seq<Utxo>)
    requires Within(positions, |utxos|)
    ensures |picked| == |positions|
    ensures forall i :: 0 <= i < |positions| ==> picked[i] == utxos[positions[i]]
  {
    if positions == [] then [] else [utxos[positions[0]]] + Pick(utxos, positions[1..])
  }

  function SortDescending(utxos: seq<Utxo>): seq<Utxo> { Pick(utxos, Order(utxos, |utxos|)) }

  ghost predicate Descending(s: seq<Utxo>) {
    forall i, j :: 0 <= i < j < |s| ==> s[i].value >= s[j].value
  }

  ghost predicate Distinct(positions: seq<nat>) {
    forall i, j :: 0 <= i < j < |positions| ==> positions[i] != positions[j]
  }

  /** Larger values come first, and equal values keep their list order. */
  predicate Precedes(utxos: seq<Utxo>, p: nat, q: nat) {
    p < |utxos| && q < |utxos| && (utxos[p].value > utxos[q].value || (utxos[p].value == utxos[q].value && p < q))
  }

  ghost predicate StablySorted(utxos: seq<Utxo>, order: seq<nat>) {
    forall i, j :: 0 <= i < j < |order| ==> Precedes(utxos, order[i], order[j])
  }

  lemma {:induction false} SlotSplits(utxos: seq<Utxo>, order: seq<nat>, p: nat)
    requires p < |utxos| && Within(order, p) && StablySorted(utxos, order)
    ensures var k := Slot(utxos, order, utxos[p].value);
            && (forall i :: 0 <= i < k ==> Precedes(utxos, order[i], p))
            && (forall i :: k <= i < |order| ==> Precedes(utxos, p, order[i]))
  {
    if order == [] {
    } else if utxos[order[|order| - 1]].value >= utxos[p].value {
      forall i | 0 <= i < |order| ensures Precedes(utxos, order[i], p) {
        if i < |order| - 1 { assert Precedes(utxos, order[i], order[|order| - 1]); }
      }
    } else {
      SlotSplits(utxos, order[..|order| - 1], p);
    }
  }

  lemma {:induction false} OrderSorts(utxos: seq<Utxo>, n: nat)
    requires n <= |utxos|
    ensures StablySorted(utxos, Order(utxos, n))
  {
    hide Slot, Precedes;
    if n > 0 {
      OrderSorts(utxos, n - 1);
      var before := Order(utxos, n - 1);
      var k := Slot(utxos, before, utxos[n - 1].value);
      SlotSplits(utxos, before, n - 1);
      InsertSorts(utxos, before, n - 1, k);
    }
  }

  /** Inserting a position after its predecessors keeps the order sorted. */
  lemma InsertSorts(utxos: seq<Utxo>, before: seq<nat>, p: nat, k: nat)
    requires k <= |before| && StablySorted(utxos, before)
    requires forall i :: 0 <= i < k ==> Precedes(utxos, before[i], p)
    requires forall i :: k <= i < |before| ==> Precedes(utxos, p, before[i])
    ensures StablySorted(utxos, before[..k] + [p] + before[k..])
  {
    hide Precedes;
    var order := before[..k] + [p] + before[k..];
    forall i, j | 0 <= i < j < |order| ensures Precedes(utxos, order[i], order[j]) {
      var a, b := if i < k then i else i - 1, if j < k then j else j - 1;
      assert i != k ==> order[i] == before[a];
      assert j != k ==> order[j] == before[b];
    }
  }

  // ----- sums

  function Sum(s: seq<Utxo>): nat {
    if s == [] then 0 else Sum(s[..|s| - 1]) + s[|s| - 1].value
  }

  /** Total weight of the positions in `order`. */
  function Weigh(order: seq<nat>, w: nat -> nat): nat {
    if order == [] then 0 else Weigh(order[..|order| - 1], w) + w(order[|order| - 1])
  }

  lemma {:induction false} WeighConcat(a: seq<nat>, b: seq<nat>, w: nat -> nat)
    ensures Weigh(a + b, w) == Weigh(a, w) + Weigh(b, w)
  {
    if b == [] {
      assert a + b == a;
    } else {
      WeighConcat(a, b[..|b| - 1], w);
      assert (a + b)[..|a + b| - 1] == a + b[..|b| - 1];
    }
  }

  /** Sum of a weight over the positions below `n`. */
  function Below(n: nat, w: nat -> nat): nat {
    if n == 0 then 0 else Below(n - 1, w) + w(n - 1)
  }

  /** Sorting rearranges: any weight has the same total before and after. */
  lemma {:induction false} OrderPermutes(utxos: seq<Utxo>, n: nat, w: nat -> nat)
    requires n <= |utxos|
    ensures Weigh(Order(utxos, n), w) == Below(n, w)
  {
    hide Slot, Weigh;
    if n > 0 {
      OrderPermutes(utxos, n - 1, w);
      var before := Order(utxos, n - 1);
      WeighInsert(before, Slot(utxos, before, utxos[n - 1].value), n - 1, w);
    } else {
      assert Weigh([], w) == 0 by { EmptyWeighsNothing(w); }
    }
  }

  lemma EmptyWeighsNothing(w: nat -> nat)
    ensures Weigh([], w) == 0
  {
  }

  lemma WeighInsert(before: seq<nat>, k: nat, p: nat, w: nat -> nat)
    requires k <= |before|
    ensures Weigh(before[..k] + [p] + before[k..], w) == Weigh(before, w) + w(p)
  {
    hide Weigh;
    var x, z := before[..k], before[k..];
    WeighConcat(x + [p], z, w);
    WeighConcat(x, [p], w);
    WeighOne(p, w);
    WeighConcat(x, z, w);
    assert before == x + z;
  }

  lemma WeighOne(p: nat, w: nat -> nat)
    ensures Weigh([p], w) == w(p)
  {
    assert [p][..0] == [];
  }

  function ValueAt(utxos: seq<Utxo>): nat -> nat {
    (p: nat) => if p < |utxos| then utxos[p].value else 0
  }

  /** Value at a position, counting only positions in `coins`. */
  function ValueIn(utxos: seq<Utxo>, coins: set<nat>): nat -> nat {
    p => if p in coins && p < |utxos| then utxos[p].value else 0
  }

  function CountIn(coins: set<nat>): nat -> nat {
    p => if p in coins then 1 else 0
  }

  /** What a choice of positions is worth. */
  function Worth(utxos: seq<Utxo>, coins: set<nat>): nat { Below(|utxos|, ValueIn(utxos, coins)) }

  lemma {:induction false} CountIsCardinality(n: nat, coins: set<nat>)
    requires forall p <- coins :: p < n
    ensures Below(n, CountIn(coins)) == |coins|
  {
    if n > 0 {
      var rest := coins - {n - 1};
      CountIsCardinality(n - 1, rest);
      BelowAgrees(n - 1, CountIn(coins), CountIn(rest));
    } else {
      assert coins == {};
    }
  }

  lemma {:induction false} BelowAgrees(n: nat, w: nat -> nat, x: nat -> nat)
    requires forall p: nat :: p < n ==> w(p) == x(p)
    ensures Below(n, w) == Below(n, x)
  {
    if n > 0 { BelowAgrees(n - 1, w, x); }
  }

  lemma SortedDescends(utxos: seq<Utxo>, order: seq<nat>, i: nat, j: nat)
    requires Within(order, |utxos|) && StablySorted(utxos, order) && i <= j < |order|
    ensures utxos[order[i]].value >= utxos[order[j]].value
  {
    if i < j { assert Precedes(utxos, order[i], order[j]); }
  }

  /** The exchange argument: no `m` coins are worth more than the `m` largest. */
  lemma {:induction false} LargestFirstIsBest(utxos: seq<Utxo>, order: seq<nat>, coins: set<nat>)
    requires Within(order, |utxos|) && StablySorted(utxos, order)
    ensures var m := Weigh(order, CountIn(coins));
            m <= |order| && Weigh(order, ValueIn(utxos, coins)) <= Sum(Pick(utxos, order[..m]))
  {
    hide Pick, Precedes, Weigh, Sum, CountIn, ValueIn;
    var count, value := CountIn(coins), ValueIn(utxos, coins);
    if order == [] {
      EmptyWeighsNothing(count);
      EmptyWeighsNothing(value);
    } else {
      var init, last := order[..|order| - 1], order[|order| - 1];
      LargestFirstIsBest(utxos, init, coins);
      WeighLast(order, count);
      WeighLast(order, value);
      WeightOf(utxos, coins, last);
      var m := Weigh(init, count);
      if last in coins {
        SortedDescends(utxos, order, m, |order| - 1);
        PickPrefix(utxos, order[..m + 1]);
        assert order[..m + 1][..m] == init[..m];
      } else {
        assert order[..m] == init[..m];
      }
    }
  }

  lemma WeightOf(utxos: seq<Utxo>, coins: set<nat>, p: nat)
    requires p < |utxos|
    ensures CountIn(coins)(p) == (if p in coins then 1 else 0)
    ensures ValueIn(utxos, coins)(p) == (if p in coins then utxos[p].value else 0)
  {
  }

  lemma WeighLast(order: seq<nat>, w: nat -> nat)
    requires order != []
    ensures Weigh(order, w) == Weigh(order[..|order| - 1], w) + w(order[|order| - 1])
  {
  }

  lemma PickPrefix(utxos: seq<Utxo>, order: seq<nat>)
    requires order != [] && Within(order, |utxos|)
    ensures Sum(Pick(utxos, order)) == Sum(Pick(utxos, order[..|order| - 1])) + utxos[order[|order| - 1]].value
  {
    hide Pick;
    PickInit(utxos, order);
  }

  lemma PickInit(utxos: seq<Utxo>, order: seq<nat>)
    requires order != [] && Within(order, |utxos|)
    ensures Pick(utxos, order)[..|order| - 1] == Pick(utxos, order[..|order| - 1])
  {
    hide Pick;
    var init := order[..|order| - 1];
    forall i | 0 <= i < |init| ensures Pick(utxos, order)[i] == Pick(utxos, init)[i] {
      assert init[i] == order[i];
    }
  }

  lemma {:induction false} PrefixSumsGrow(s: seq<Utxo>, i: nat, j: nat)
    requires i <= j <= |s|
    ensures Sum(s[..i]) <= Sum(s[..j])
    decreases j
  {
    if i < j {
      PrefixSumsGrow(s, i, j - 1);
      assert s[..j][..j - 1] == s[..j - 1];
    }
  }

  lemma {:induction false} PickedSum(utxos: seq<Utxo>, order: seq<nat>)
    requires Within(order, |utxos|)
    ensures Sum(Pick(utxos, order)) == Weigh(order, ValueAt(utxos))
  {
    hide Pick;
    if order != [] {
      PickPrefix(utxos, order);
      PickedSum(utxos, order[..|order| - 1]);
    } else {
      assert Pick(utxos, order) == [];
    }
  }

  /** The sorted list is worth exactly what the given list is worth. */
  lemma SortKeepsTotal(utxos: seq<Utxo>)
    ensures Sum(SortDescending(utxos)) == Sum(utxos)
  {
    hide Order, Pick, Sum;
    PickedSum(utxos, Order(utxos, |utxos|));
    OrderPermutes(utxos, |utxos|, ValueAt(utxos));
    SumIsBelow(utxos, |utxos|);
    assert utxos[..|utxos|] == utxos;
  }

  lemma {:induction false} SumIsBelow(utxos: seq<Utxo>, n: nat)
    requires n <= |utxos|
    ensures Sum(utxos[..n]) == Below(n, ValueAt(utxos))
  {
    if n > 0 {
      SumIsBelow(utxos, n - 1);
      assert utxos[..n][..n - 1] == utxos[..n - 1];
    }
  }

  lemma SumOfPrefix(s: seq<Utxo>, i: nat)
    requires i < |s|
    ensures Sum(s[..i + 1]) == Sum(s[..i]) + s[i].value
  {
    assert s[..i + 1][..i] == s[..i];
  }

  // ----- selection

  /** `k` is the least positive number of largest coins that reaches the target. */
  ghost predicate FirstReaching(sorted: seq<Utxo>, target: nat, k: nat) {
    && 1 <= k <= |sorted| && Sum(sorted[..k]) >= target
    && (forall j :: 1 <= j < k ==> Sum(sorted[..j]) < target)
  }

  function ChangeOf(surplus: nat): nat {
    if surplus > DUST_THRESHOLD then surplus else 0
  }

  ghost predicate IsSelected(sorted: seq<Utxo>, target: nat, selection: Selection, k: nat) {
    && FirstReaching(sorted, target, k) && Sum(sorted[..k]) < U64_MODULUS
    && selection == Selection(sorted[..k], ChangeOf(Sum(sorted[..k]) - target))
  }

  ghost predicate Overflows(sorted: seq<Utxo>, target: nat, k: nat) {
    FirstReaching(sorted, target, k) && Sum(sorted[..k]) >= U64_MODULUS
  }

  /** The outcome, stated over the sorted list. */
  ghost predicate IsOutcome(utxos: seq<Utxo>, target: U64, r: Result<Selection>) {
    var sorted := SortDescending(utxos);
    if r.Ok? then
      exists k: nat :: IsSelected(sorted, target, r.value, k)
    else if r.error.InsufficientFunds? then
      r.error == InsufficientFunds(Sum(utxos), target) && (utxos == [] || Sum(utxos) < target)
    else
      r.error == InvalidField && exists k: nat :: Overflows(sorted, target, k)
  }

  method SelectCoins(utxos: seq<Utxo>, target: U64) returns (r: Result<Selection>)
    ensures IsOutcome(utxos, target, r)
  {
    hide SortDescending, Sum;
    var sorted := SortDescending(utxos);
    SortKeepsTotal(utxos);
    SortedLength(utxos);
    var total: nat := 0;
    var chosen: seq<Utxo> := [];
    EmptySum(sorted);
    for i := 0 to |sorted|
      invariant chosen == sorted[..i]
      invariant total == Sum(sorted[..i]) < U64_MODULUS
      invariant forall j :: 1 <= j <= i ==> Sum(sorted[..j]) < target
    {
      var utxo := sorted[i];
      SumOfPrefix(sorted, i);
      if total + utxo.value >= U64_MODULUS {
        assert Overflows(sorted, target, i + 1);
        return Err(InvalidField);
      }
      total := total + utxo.value;
      chosen := chosen + [utxo];
      if total >= target {
        var surplus := total - target;
        var change := if surplus > DUST_THRESHOLD then surplus else 0;
        assert IsSelected(sorted, target, Selection(chosen, change), i + 1);
        return Ok(Selection(chosen, change));
      }
    }
    assert sorted[..|sorted|] == sorted;
    return Err(InsufficientFunds(total, target));
  }

  lemma EmptySum(s: seq<Utxo>)
    ensures Sum(s[..0]) == 0
  {
  }

  /** A successful selection uses the fewest coins that can reach the target. */
  lemma SelectionIsSmallest(utxos: seq<Utxo>, target: U64, selection: Selection, coins: set<nat>)
    requires IsOutcome(utxos, target, Ok(selection))
    requires coins != {} && (forall p <- coins :: p < |utxos|) && Worth(utxos, coins) >= target
    ensures |selection.inputs| <= |coins|
  {
    hide Order, Pick;
    var sorted, order := SortDescending(utxos), Order(utxos, |utxos|);
    OrderSorts(utxos, |utxos|);
    LargestFirstIsBest(utxos, order, coins);
    OrderPermutes(utxos, |utxos|, ValueIn(utxos, coins));
    OrderPermutes(utxos, |utxos|, CountIn(coins));
    CountIsCardinality(|utxos|, coins);
    assert Pick(utxos, order[..|coins|]) == sorted[..|coins|];
  }

  /** The errors, exactly: short of funds, or an overflow at the first prefix that reaches. */
  lemma OutcomeIff(utxos: seq<Utxo>, target: U64, r: Result<Selection>)
    requires IsOutcome(utxos, target, r)
    ensures (r.Err? && r.error.InsufficientFunds?) <==> utxos == [] || Sum(utxos) < target
    ensures r == Err(InvalidField) <==>
            exists k: nat :: Overflows(SortDescending(utxos), target, k)
  {
    hide SortDescending;
    var sorted := SortDescending(utxos);
    SortKeepsTotal(utxos);
    assert |sorted| == |utxos| by { SortedLength(utxos); }
    forall k | FirstReaching(sorted, target, k) ensures utxos != [] && Sum(utxos) >= target {
      PrefixSumsGrow(sorted, k, |sorted|);
      assert sorted[..|sorted|] == sorted;
    }
    forall j, k | FirstReaching(sorted, target, j) && FirstReaching(sorted, target, k) ensures j == k {}
  }

  lemma OutcomeFacts(utxos: seq<Utxo>, target: U64, r: Result<Selection>)
    requires IsOutcome(utxos, target, r)
    ensures r.Err? ==> r.error.InsufficientFunds? || r.error == InvalidField
    ensures r.Err? && r.error.InsufficientFunds? ==>
            r.error == InsufficientFunds(Sum(utxos), target) && (utxos == [] || Sum(utxos) < target)
  {
    hide SortDescending, Sum;
  }

  lemma SortedLength(utxos: seq<Utxo>)
    ensures |SortDescending(utxos)| == |utxos|
  {
  }

  /** The chosen coins sit at distinct positions of the given list. */
  lemma InputsAreDistinct(utxos: seq<Utxo>, target: U64, selection: Selection) returns (positions: seq<nat>)
    requires IsOutcome(utxos, target, Ok(selection))
    ensures Distinct(positions) && Within(positions, |utxos|)
    ensures selection.inputs == Pick(utxos, positions)
    ensures Descending(selection.inputs)
  {
    hide Order, Pick;
    OrderSorts(utxos, |utxos|);
    positions := Order(utxos, |utxos|)[..|selection.inputs|];
    assert Pick(utxos, positions) == selection.inputs;
  }

  // ----- building

  type Script = seq<Byte>
  datatype TxIn = TxIn(txid: seq<Byte>, vout: nat, stack: seq<seq<Byte>>)
  datatype TxOut = TxOut(value: U64, script: Script)
  datatype Transaction = Transaction(input: seq<TxIn>, output: seq<TxOut>)
  datatype Transfer = Transfer(from: string, to: string, amount: U64, fee: U64)

  /** The foreign code used here: addresses, ids, scripts, sighashes and signatures. */
  datatype Library = Library(
    validateSender: string -> Option<string>,
    validate: string -> Option<string>,
    scriptOf: string -> Option<Script>,
    parseTxid: string -> Option<seq<Byte>>,
    addressOfKey: seq<Byte> -> Option<string>,
    sighash: (Transaction, nat, Script, U64) -> seq<Byte>,
    normalisedDer: seq<Byte> -> Option<seq<Byte>>)

  method Build(lib: Library, t: Transfer, utxos: seq<Utxo>) returns (r: Result<(Transaction, Selection)>)
    ensures r.Ok? ==> IsBuilt(lib, t, utxos, r.value.0, r.value.1)
    ensures r.Ok? <==> exists selection :: CanBuildWith(lib, t, utxos, selection)
    ensures r == Err(BadAddress) <==> !HasAddresses(lib, t)
    ensures r == Err(InsufficientFunds(Sum(utxos), t.amount + t.fee)) <==>
            && HasAddresses(lib, t) && t.amount + t.fee < U64_MODULUS
            && (utxos == [] || Sum(utxos) < t.amount + t.fee)
    ensures r.Err? ==> r.error == BadAddress || r.error == InvalidField ||
                       r.error == InsufficientFunds(Sum(utxos), t.amount + t.fee)
  {
    hide IsOutcome, Sum;
    var from := lib.validateSender(t.from);
    if from.None? {
      return Err(BadAddress);
    }
    var to := lib.validate(t.to);
    if to.None? {
      return Err(BadAddress);
    }
    if t.amount + t.fee >= U64_MODULUS {
      return Err(InvalidField);
    }
    var selected := SelectCoins(utxos, t.amount + t.fee);
    OutcomeDecides(lib, t, utxos, selected);
    if selected.Err? {
      return Err(selected.error);
    }
    var selection := selected.value;
    var fromScript, toScript := lib.scriptOf(from.value), lib.scriptOf(to.value);
    if fromScript.None? || toScript.None? {
      return Err(InvalidField);
    }
    var input: seq<TxIn> := [];
    for i := 0 to |selection.inputs|
      invariant |input| == i
      invariant forall j :: 0 <= j < i ==> Spends(lib, input[j], selection.inputs[j])
    {
      var txid := lib.parseTxid(selection.inputs[i].txid);
      if txid.None? {
        return Err(InvalidField);
      }
      input := input + [TxIn(txid.value, selection.inputs[i].vout, [])];
    }
    var output := [TxOut(t.amount, toScript.value)];
    if selection.change > 0 {
      output := output + [TxOut(selection.change, fromScript.value)];
    }
    assert CanBuildWith(lib, t, utxos, selection);
    return Ok((Transaction(input, output), selection));
  }

  predicate HasAddresses(lib: Library, t: Transfer) {
    lib.validateSender(t.from).Some? && lib.validate(t.to).Some?
  }

  /** This selection is the one made, and only what it spends has to parse. */
  ghost predicate CanBuildWith(lib: Library, t: Transfer, utxos: seq<Utxo>, selection: Selection) {
    && HasAddresses(lib, t)
    && t.amount + t.fee < U64_MODULUS && IsOutcome(utxos, t.amount + t.fee, Ok(selection))
    && lib.scriptOf(lib.validateSender(t.from).value).Some? && lib.scriptOf(lib.validate(t.to).value).Some?
    && forall i :: 0 <= i < |selection.inputs| ==> lib.parseTxid(selection.inputs[i].txid).Some?
  }

  /** The outcome of the selection settles whether a build can go on. */
  lemma OutcomeDecides(lib: Library, t: Transfer, utxos: seq<Utxo>, selected: Result<Selection>)
    requires t.amount + t.fee < U64_MODULUS && IsOutcome(utxos, t.amount + t.fee, selected)
    ensures (exists selection :: CanBuildWith(lib, t, utxos, selection)) <==>
            selected.Ok? && CanBuildWith(lib, t, utxos, selected.value)
    ensures selected.Err? ==> selected.error == InvalidField || selected.error == InsufficientFunds(Sum(utxos), t.amount + t.fee)
    ensures (selected.Err? && selected.error.InsufficientFunds?) <==> utxos == [] || Sum(utxos) < t.amount + t.fee
  {
    hide IsOutcome, Overflows, SortDescending, Sum;
    OutcomeFacts(utxos, t.amount + t.fee, selected);
    OutcomeIff(utxos, t.amount + t.fee, selected);
    forall selection | CanBuildWith(lib, t, utxos, selection) ensures selected == Ok(selection) {
      OutcomeIsUnique(utxos, t.amount + t.fee, selected, Ok(selection));
    }
  }

  ghost predicate Spends(lib: Library, input: TxIn, utxo: Utxo) {
    lib.parseTxid(utxo.txid) == Some(input.txid) && input.vout == utxo.vout && input.stack == []
  }

  ghost predicate IsBuilt(lib: Library, t: Transfer, utxos: seq<Utxo>, tx: Transaction, selection: Selection) {
    && t.amount + t.fee < U64_MODULUS
    && IsOutcome(utxos, t.amount + t.fee, Ok(selection))
    && |tx.input| == |selection.inputs|
    && (forall j :: 0 <= j < |tx.input| ==> Spends(lib, tx.input[j], selection.inputs[j]))
    && lib.validateSender(t.from).Some? && lib.validate(t.to).Some?
    && var from, to := lib.scriptOf(lib.validateSender(t.from).value), lib.scriptOf(lib.validate(t.to).value);
    && from.Some? && to.Some?
    && tx.output == [TxOut(t.amount, to.value)] +
                    if selection.change > 0 then [TxOut(selection.change, from.value)] else []
  }

  function OutputSum(outputs: seq<TxOut>): nat {
    if outputs == [] then 0 else OutputSum(outputs[..|outputs| - 1]) + outputs[|outputs| - 1].value
  }

  /** Value is conserved: inputs pay the outputs, the stated fee, and at most the dust. */
  lemma ValueIsConserved(lib: Library, t: Transfer, utxos: seq<Utxo>, tx: Transaction, selection: Selection)
    returns (dust: nat)
    requires IsBuilt(lib, t, utxos, tx, selection)
    ensures Sum(selection.inputs) == OutputSum(tx.output) + t.fee + dust
    ensures dust <= 546
    ensures 1 <= |tx.output| <= 2 && tx.output[0].value == t.amount
    ensures |tx.output| == 2 ==> dust == 0 && tx.output[1].value > 546
  {
    hide SortDescending;
    var target := t.amount + t.fee;
    var k: nat :| IsSelected(SortDescending(utxos), target, selection, k);
    dust := Sum(selection.inputs) - target - selection.change;
    var first := tx.output[..1];
    assert OutputSum(first) == t.amount by { assert first[..0] == [] && OutputSum([]) == 0; }
    if |tx.output| == 1 { assert tx.output == first; }
  }

  // ----- one signature per input, in input order

  predicate ControlsFrom(lib: Library, t: Transfer, publicKey: seq<Byte>) {
    lib.addressOfKey(publicKey) == Some(Hex.Trim(t.from))
  }

  /** One BIP-143 digest per input of the built transaction, over that input's own value. */
  ghost predicate AreDigests(
    lib: Library, t: Transfer, utxos: seq<Utxo>, publicKey: seq<Byte>, tx: Transaction,
    selection: Selection, digests: seq<seq<Byte>>
  ) {
    && ControlsFrom(lib, t, publicKey) && IsBuilt(lib, t, utxos, tx, selection) && |digests| == |tx.input|
    && var from := lib.scriptOf(lib.validateSender(t.from).value).value;
       forall i :: 0 <= i < |digests| ==> digests[i] == lib.sighash(tx, i, from, selection.inputs[i].value)
  }

  method Sighashes(lib: Library, t: Transfer, utxos: seq<Utxo>, publicKey: seq<Byte>)
    returns (r: Result<(Selection, seq<seq<Byte>>)>)
    ensures r.Ok? ==> exists tx :: AreDigests(lib, t, utxos, publicKey, tx, r.value.0, r.value.1)
    ensures r.Ok? <==> ControlsFrom(lib, t, publicKey) && exists selection :: CanBuildWith(lib, t, utxos, selection)
    ensures r == Err(Signing) <==> lib.addressOfKey(publicKey) != Some(Hex.Trim(t.from))
  {
    hide IsOutcome;
    if !ControlsFrom(lib, t, publicKey) {
      return Err(Signing);
    }
    var built := Build(lib, t, utxos);
    if built.Err? {
      return built.PropagateFailure();
    }
    var tx, selection := built.value.0, built.value.1;
    var from := lib.scriptOf(lib.validateSender(t.from).value).value;
    var digests: seq<seq<Byte>> := [];
    for i := 0 to |selection.inputs|
      invariant |digests| == i
      invariant forall j :: 0 <= j < i ==> digests[j] == lib.sighash(tx, j, from, selection.inputs[j].value)
    {
      digests := digests + [lib.sighash(tx, i, from, selection.inputs[i].value)];
    }
    assert AreDigests(lib, t, utxos, publicKey, tx, selection, digests);
    return Ok((selection, digests));
  }

  /** Signature `i` is the witness of input `i`, and nothing else differs from `tx`. */
  ghost predicate IsWitnessed(
    lib: Library, t: Transfer, utxos: seq<Utxo>, publicKey: seq<Byte>, signatures: seq<seq<Byte>>,
    signed: Transaction, tx: Transaction, selection: Selection
  ) {
    && ControlsFrom(lib, t, publicKey) && IsBuilt(lib, t, utxos, tx, selection)
    && |signatures| == |tx.input| == |signed.input| && signed.output == tx.output
    && forall i :: 0 <= i < |signatures| ==>
         && lib.normalisedDer(signatures[i]).Some?
         && signed.input[i] == tx.input[i].(stack := [lib.normalisedDer(signatures[i]).value + [1], publicKey])
  }

  /** One well-formed signature for each coin selected. */
  predicate Fits(lib: Library, selection: Selection, signatures: seq<seq<Byte>>) {
    && |signatures| == |selection.inputs|
    && forall i :: 0 <= i < |signatures| ==> lib.normalisedDer(signatures[i]).Some?
  }

  /** Writes each input's witness in place; nothing else of the transaction moves. */
  method AttachSignatures(lib: Library, t: Transfer, utxos: seq<Utxo>, publicKey: seq<Byte>, signatures: seq<seq<Byte>>)
    returns (r: Result<Transaction>)
    ensures r.Ok? ==> exists tx, selection :: IsWitnessed(lib, t, utxos, publicKey, signatures, r.value, tx, selection)
    ensures r.Ok? <==>
            && ControlsFrom(lib, t, publicKey)
            && exists selection :: CanBuildWith(lib, t, utxos, selection) && Fits(lib, selection, signatures)
    ensures r == Err(Signing) <==>
            || !ControlsFrom(lib, t, publicKey)
            || exists selection :: CanBuildWith(lib, t, utxos, selection) && !Fits(lib, selection, signatures)
  {
    hide IsOutcome, IsBuilt, CanBuildWith;
    if !ControlsFrom(lib, t, publicKey) {
      return Err(Signing);
    }
    var built := Build(lib, t, utxos);
    if built.Err? {
      return built.PropagateFailure();
    }
    var tx, selection := built.value.0, built.value.1;
    BuiltShape(lib, t, utxos, tx, selection);
    if |signatures| != |selection.inputs| {
      return Err(Signing);
    }
    var n := |tx.input|;
    var input := new TxIn[n](i requires 0 <= i < |tx.input| => tx.input[i]);
    for i := 0 to n
      invariant forall j :: 0 <= j < i ==>
                  && lib.normalisedDer(signatures[j]).Some?
                  && input[j] == tx.input[j].(stack := [lib.normalisedDer(signatures[j]).value + [1], publicKey])
      invariant forall j :: i <= j < n ==> input[j] == tx.input[j]
    {
      var der := lib.normalisedDer(signatures[i]);
      if der.None? {
        return Err(Signing);
      }
      input[i] := input[i].(stack := [der.value + [1], publicKey]);
    }
    assert IsWitnessed(lib, t, utxos, publicKey, signatures, Transaction(input[..], tx.output), tx, selection);
    return Ok(Transaction(input[..], tx.output));
  }

  lemma BuiltShape(lib: Library, t: Transfer, utxos: seq<Utxo>, tx: Transaction, selection: Selection)
    requires IsBuilt(lib, t, utxos, tx, selection)
    ensures |tx.input| == |selection.inputs|
    ensures lib.validateSender(t.from).Some? && lib.scriptOf(lib.validateSender(t.from).value).Some?
    ensures forall s :: CanBuildWith(lib, t, utxos, s) <==> s == selection
  {
    hide IsOutcome;
    forall i | 0 <= i < |selection.inputs| ensures lib.parseTxid(selection.inputs[i].txid).Some? {
      assert Spends(lib, tx.input[i], selection.inputs[i]);
    }
    forall s | CanBuildWith(lib, t, utxos, s) ensures s == selection {
      SelectionIsUnique(utxos, t.amount + t.fee, s, selection);
    }
  }

  /** The two calls of the split flow build one and the same transaction. */
  lemma BuiltIsUnique(
    lib: Library, t: Transfer, utxos: seq<Utxo>, a: Transaction, b: Transaction, s: Selection, s': Selection
  )
    requires IsBuilt(lib, t, utxos, a, s) && IsBuilt(lib, t, utxos, b, s')
    ensures a == b && s == s'
  {
    hide IsOutcome, Spends;
    SelectionIsUnique(utxos, t.amount + t.fee, s, s');
    forall i | 0 <= i < |a.input| ensures a.input[i] == b.input[i] {
      SameSpend(lib, a.input[i], b.input[i], s.inputs[i]);
    }
    assert a.input == b.input;
  }

  lemma SameSpend(lib: Library, a: TxIn, b: TxIn, utxo: Utxo)
    requires Spends(lib, a, utxo) && Spends(lib, b, utxo)
    ensures a == b
  {
  }

  /** The list and the target leave one outcome. */
  lemma OutcomeIsUnique(utxos: seq<Utxo>, target: U64, a: Result<Selection>, b: Result<Selection>)
    requires IsOutcome(utxos, target, a) && IsOutcome(utxos, target, b)
    ensures a == b
  {
    hide IsOutcome, Overflows, SortDescending, Sum;
    OutcomeFacts(utxos, target, a);
    OutcomeFacts(utxos, target, b);
    OutcomeIff(utxos, target, a);
    OutcomeIff(utxos, target, b);
    if a.Ok? && b.Ok? { SelectionIsUnique(utxos, target, a.value, b.value); }
  }

  lemma SelectionIsUnique(utxos: seq<Utxo>, target: U64, s: Selection, s': Selection)
    requires IsOutcome(utxos, target, Ok(s)) && IsOutcome(utxos, target, Ok(s'))
    ensures s == s'
  {
    hide SortDescending, Sum;
    var sorted := SortDescending(utxos);
    var j: nat :| IsSelected(sorted, target, s, j);
    var k: nat :| IsSelected(sorted, target, s', k);
  }
}

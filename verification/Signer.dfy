/** The module's signer inside one execution context: a one-shot secret, and host
    approval before signing. Calls may interleave at every await. */
module Signer {
  import opened Bytes
  import opened Intent
  import Hex

  datatype Secret = Secret(mnemonic: string, derivationPath: string, chain: WalletChain)

  datatype Web3Approval = Web3Approval(quoteId: string, operation: string)

  datatype NativeApproval = NativeApproval(quoteId: string, quote: Quote)

  /** The approvals scoped around an execution; they do not change while it runs. */
  datatype Context = Context(native: Option<NativeApproval>, web3: Option<Web3Approval>)

  datatype Scheme = Secp256k1Prehash | Ed25519

  datatype Request =
    | SignTransaction(chain: WalletChain, spec: Spec)
    | SignMessage(chain: WalletChain, message: seq<Byte>, scheme: Scheme)

  /** What the host is asked to approve. */
  datatype Facts =
    | NativeFacts(quoteId: string, operation: string, quote: Quote, intent: ExecutionIntent)
    | Web3Facts(quoteId: string, operation: string, network: string, to: string, data: string, value: string,
                nonce: U64, gasLimit: U64, gasPriceWei: string, chainId: U64)

  function SpecChain(spec: Spec): WalletChain {
    match spec
    case BtcSpec(_, _, _, _, _) => ChainBtc
    case EvmSpec(_, _, _, _, _, _, _) => ChainEvm
    case SolanaSpec(_, _, _, _) => ChainSolana
    case TronSpec(_, _, _, _) => ChainTron
  }

  datatype Phase = AwaitingHost(facts: Facts) | Ready | Refused | Finished

  /** How a call starts: which approval it must obtain, if any. */
  function Opening(ctx: Context, request: Request): Phase {
    if ctx.native.Some? then AwaitingHost(NativeFactsOf(ctx.native.value, request))
    else if request.SignTransaction? && request.chain == ChainEvm then
      if ctx.web3.None? || !request.spec.EvmSpec? then Refused
      else AwaitingHost(Web3FactsOf(ctx.web3.value, request.spec))
    else Ready
  }

  function NativeFactsOf(approval: NativeApproval, request: Request): Facts {
    NativeFacts(approval.quoteId, "transfer", approval.quote,
                match request
                case SignTransaction(_, spec) => TransactionIntent(spec)
                case SignMessage(_, message, _) => SolanaMessage(Hex.Encode(message)))
  }

  function Web3FactsOf(approval: Web3Approval, spec: Spec): Facts
    requires spec.EvmSpec?
  {
    Web3Facts(approval.quoteId, approval.operation, "eip155:" + Decimal(spec.chainId), spec.evmTo, spec.dataHex,
              spec.valueWei, spec.nonce, spec.gasLimit, spec.gasPriceWei, spec.chainId)
  }

  // ----- the transition system

  datatype Pending = Pending(request: Request, phase: Phase)

  datatype Event = Approved(id: nat, facts: Facts) | Signed(id: nat, request: Request, secret: Secret)

  /** `takers` lists the calls that ever took the secret, whether or not they then signed. */
  datatype State = State(slot: Option<Secret>, calls: map<nat, Pending>, log: seq<Event>, takers: seq<nat>)

  datatype Step =
    | Begin(id: nat, request: Request)
    | Answer(id: nat, granted: bool)
    | Finish(id: nat, works: bool)
    | DeriveAccount
    | Abandon(id: nat)

  function Start(secret: Secret): State { State(Some(secret), map[], [], []) }

  /** One step of one call; a step that is not enabled changes nothing. */
  function Apply(ctx: Context, s: State, step: Step): State {
    match step
    case Begin(id, request) =>
      if id in s.calls then s else s.(calls := s.calls[id := Pending(request, Opening(ctx, request))])
    case Answer(id, granted) =>
      if id !in s.calls || !s.calls[id].phase.AwaitingHost? then s
      else if granted then
        s.(calls := SetPhase(s.calls, id, Ready), log := s.log + [Approved(id, s.calls[id].phase.facts)])
      else s.(calls := SetPhase(s.calls, id, Refused))
    case Finish(id, works) =>
      if id !in s.calls || !s.calls[id].phase.Ready? then s
      else if s.slot.None? then s.(calls := SetPhase(s.calls, id, Refused))
      else if Signs(s.calls[id].request, s.slot.value) && works then
        State(None, SetPhase(s.calls, id, Finished), s.log + [Signed(id, s.calls[id].request, s.slot.value)], s.takers + [id])
      else State(None, SetPhase(s.calls, id, Refused), s.log, s.takers + [id])
    case DeriveAccount => s
    case Abandon(id) => if id !in s.calls then s else s.(calls := SetPhase(s.calls, id, Refused))
  }

  function SetPhase(calls: map<nat, Pending>, id: nat, phase: Phase): map<nat, Pending>
    requires id in calls
  {
    calls[id := calls[id].(phase := phase)]
  }

  /** The chain checks between taking the secret and signing with it. */
  predicate Signs(request: Request, secret: Secret) {
    && secret.chain == request.chain
    && (request.SignTransaction? ==> secret.chain == SpecChain(request.spec))
  }

  function Run(ctx: Context, s: State, steps: seq<Step>): State {
    if steps == [] then s else Apply(ctx, Run(ctx, s, steps[..|steps| - 1]), steps[|steps| - 1])
  }

  // ----- what every run keeps

  function SignedCalls(log: seq<Event>): nat {
    if log == [] then 0 else SignedCalls(log[..|log| - 1]) + if log[|log| - 1].Signed? then 1 else 0
  }

  /** Anything in a native-approval context, and any transaction on an EVM request. */
  predicate NeedsApproval(ctx: Context, request: Request) {
    ctx.native.Some? || (request.SignTransaction? && request.chain == ChainEvm)
  }

  ghost predicate ApprovedEarlier(ctx: Context, log: seq<Event>, i: nat, id: nat, request: Request) {
    exists j :: 0 <= j < i && j < |log| && log[j].Approved? && log[j].id == id
                && Opening(ctx, request) == AwaitingHost(log[j].facts)
  }

  /** A signature is made with the context's secret, on its chain, after its approval. */
  ghost predicate Sanctioned(ctx: Context, secret: Secret, log: seq<Event>, i: nat)
    requires i < |log| && log[i].Signed?
  {
    && log[i].secret == secret && Signs(log[i].request, secret)
    && (NeedsApproval(ctx, log[i].request) ==> ApprovedEarlier(ctx, log, i, log[i].id, log[i].request))
  }

  ghost predicate Inv(ctx: Context, secret: Secret, s: State) {
    && (s.slot == None || s.slot == Some(secret))
    && |s.takers| == (if s.slot.None? then 1 else 0)
    && SignedCalls(s.log) <= |s.takers|
    && (forall i: nat :: i < |s.log| && s.log[i].Signed? ==> s.log[i].id in s.takers)
    && (forall id :: id in s.calls ==> CallInv(ctx, s, id))
    && (forall i: nat :: i < |s.log| && s.log[i].Signed? ==> Sanctioned(ctx, secret, s.log, i))
  }

  ghost predicate CallInv(ctx: Context, s: State, id: nat)
    requires id in s.calls
  {
    var Pending(request, phase) := s.calls[id];
    && (phase.AwaitingHost? ==> Opening(ctx, request) == phase)
    && (phase.Ready? && NeedsApproval(ctx, request) ==> ApprovedEarlier(ctx, s.log, |s.log|, id, request))
  }

  lemma LogGrows(ctx: Context, secret: Secret, s: State, e: Event)
    requires Inv(ctx, secret, s)
    ensures forall id :: id in s.calls ==> CallInv(ctx, s.(log := s.log + [e]), id)
    ensures forall i: nat :: i < |s.log| && s.log[i].Signed? ==> Sanctioned(ctx, secret, s.log + [e], i)
    ensures SignedCalls(s.log + [e]) == SignedCalls(s.log) + if e.Signed? then 1 else 0
  {
    hide Opening, Signs;
    var log' := s.log + [e];
    assert log'[..|log'| - 1] == s.log;
    forall i: nat, id, request | ApprovedEarlier(ctx, s.log, i, id, request) && i <= |s.log|
      ensures forall k :: i <= k ==> ApprovedEarlier(ctx, log', k, id, request)
    {
      var j :| 0 <= j < i && j < |s.log| && s.log[j].Approved? && s.log[j].id == id
               && Opening(ctx, request) == AwaitingHost(s.log[j].facts);
      assert log'[j] == s.log[j];
    }
  }

  lemma StepKeepsInv(ctx: Context, secret: Secret, s: State, step: Step)
    requires Inv(ctx, secret, s)
    ensures Inv(ctx, secret, Apply(ctx, s, step))
  {
    hide SignedCalls, ApprovedEarlier, Signs, Sanctioned;
    var s' := Apply(ctx, s, step);
    match step {
      case Answer(id, granted) =>
        if id in s.calls && s.calls[id].phase.AwaitingHost? && granted {
          var e := Approved(id, s.calls[id].phase.facts);
          LogGrows(ctx, secret, s, e);
          ApprovalRecorded(ctx, s.log, id, s.calls[id].request);
        }
      case Finish(id, works) =>
        if s' != s && s'.log != s.log {
          var e := Signed(id, s.calls[id].request, secret);
          LogGrows(ctx, secret, s, e);
          SignatureSanctioned(ctx, secret, s, id);
        }
      case _ =>
    }
  }

  lemma ApprovalRecorded(ctx: Context, log: seq<Event>, id: nat, request: Request)
    requires Opening(ctx, request).AwaitingHost?
    ensures var log' := log + [Approved(id, Opening(ctx, request).facts)];
            ApprovedEarlier(ctx, log', |log'|, id, request)
  {
    var log' := log + [Approved(id, Opening(ctx, request).facts)];
    assert log'[|log|] == Approved(id, Opening(ctx, request).facts);
  }

  lemma SignatureSanctioned(ctx: Context, secret: Secret, s: State, id: nat)
    requires id in s.calls && s.calls[id].phase.Ready? && CallInv(ctx, s, id)
    requires Signs(s.calls[id].request, secret)
    ensures Sanctioned(ctx, secret, s.log + [Signed(id, s.calls[id].request, secret)], |s.log|)
  {
    hide Opening, Signs;
    var log' := s.log + [Signed(id, s.calls[id].request, secret)];
    if NeedsApproval(ctx, s.calls[id].request) {
      var j :| 0 <= j < |s.log| && s.log[j].Approved? && s.log[j].id == id
               && Opening(ctx, s.calls[id].request) == AwaitingHost(s.log[j].facts);
      assert log'[j] == s.log[j];
    }
  }

  lemma {:induction false} RunKeepsInv(ctx: Context, secret: Secret, steps: seq<Step>)
    ensures Inv(ctx, secret, Run(ctx, Start(secret), steps))
  {
    hide Apply, Inv;
    if steps == [] {
      StartInv(ctx, secret);
    } else {
      RunKeepsInv(ctx, secret, steps[..|steps| - 1]);
      StepKeepsInv(ctx, secret, Run(ctx, Start(secret), steps[..|steps| - 1]), steps[|steps| - 1]);
    }
  }

  lemma StartInv(ctx: Context, secret: Secret)
    ensures Inv(ctx, secret, Start(secret))
  {
  }

  /** Over every interleaving of calls in one context, at most one call ever takes the
      secret, signing or not, and only that call can sign, once. */
  lemma {:induction false} AtMostOneTaker(ctx: Context, secret: Secret, steps: seq<Step>)
    ensures var s := Run(ctx, Start(secret), steps);
            && |s.takers| == (if s.slot.Some? then 0 else 1)
            && SignedCalls(s.log) <= |s.takers|
            && forall i :: 0 <= i < |s.log| && s.log[i].Signed? ==> s.takers == [s.log[i].id]
  {
    hide Run, SignedCalls, CallInv, Sanctioned;
    RunKeepsInv(ctx, secret, steps);
  }

  predicate IsFor(spec: Spec, chain: WalletChain) {
    match chain
    case ChainBtc => spec.BtcSpec?
    case ChainEvm => spec.EvmSpec?
    case ChainSolana => spec.SolanaSpec?
    case ChainTron => spec.TronSpec?
  }

  /** Whatever was signed agrees on its chains, and what needs approval was approved by
      the host, earlier, in the same call, for exactly its facts. */
  lemma {:induction false} SignedOnlyAsApproved(ctx: Context, secret: Secret, steps: seq<Step>, i: nat)
    requires i < |Run(ctx, Start(secret), steps).log| && Run(ctx, Start(secret), steps).log[i].Signed?
    ensures var log := Run(ctx, Start(secret), steps).log;
            && log[i].secret == secret && log[i].request.chain == secret.chain
            && (log[i].request.SignTransaction? ==> IsFor(log[i].request.spec, secret.chain))
            && (ctx.native.Some? || (log[i].request.SignTransaction? && log[i].request.spec.EvmSpec?) ==>
                  exists j :: 0 <= j < i && log[j].Approved? && log[j].id == log[i].id
                              && Opening(ctx, log[i].request) == AwaitingHost(log[j].facts))
  {
    hide Run, Opening;
    RunKeepsInv(ctx, secret, steps);
    assert Sanctioned(ctx, secret, Run(ctx, Start(secret), steps).log, i);
  }

  /** Under a native approval the host sees its quote, and the transaction or the message's hex. */
  ghost predicate ShowsNative(facts: Facts, approval: NativeApproval, request: Request) {
    && facts.NativeFacts? && facts.quoteId == approval.quoteId && facts.quote == approval.quote
    && facts.operation == "transfer"
    && match request
       case SignTransaction(_, spec) => facts.intent == TransactionIntent(spec)
       case SignMessage(_, message, _) =>
         facts.intent.SolanaMessage? && Hex.DecodePairs(facts.intent.messageHex) == Some(message)
  }

  /** Otherwise it sees an EVM transaction field by field, and the network's chain id. */
  ghost predicate ShowsWeb3(facts: Facts, approval: Web3Approval, spec: Spec) {
    && spec.EvmSpec? && facts.Web3Facts?
    && facts.quoteId == approval.quoteId && facts.operation == approval.operation
    && facts.to == spec.evmTo && facts.data == spec.dataHex && facts.value == spec.valueWei
    && facts.nonce == spec.nonce && facts.gasLimit == spec.gasLimit && facts.gasPriceWei == spec.gasPriceWei
    && facts.chainId == spec.chainId
    && |facts.network| > 7 && facts.network[..7] == "eip155:"
    && IsDecimal(facts.network[7..]) && DecimalValue(facts.network[7..]) == spec.chainId
  }

  /** What the host is shown of a request it must approve. */
  lemma OpeningShows(ctx: Context, request: Request, facts: Facts)
    requires Opening(ctx, request) == AwaitingHost(facts)
    ensures ctx.native.Some? ==> ShowsNative(facts, ctx.native.value, request)
    ensures ctx.native.None? ==>
            ctx.web3.Some? && request.SignTransaction? && ShowsWeb3(facts, ctx.web3.value, request.spec)
  {
    hide DecimalValue, IsDecimal, Decimal, Hex.DecodePairs, Hex.Encode;
    if request.SignMessage? {
      Hex.DecodeEncode(request.message);
    } else if ctx.native.None? {
      DecimalDenotes(request.spec.chainId);
      assert facts.network[7..] == Decimal(request.spec.chainId);
    }
  }

  ghost predicate ShownAt(ctx: Context, log: seq<Event>, i: nat, j: nat)
    requires j < i < |log| && log[i].Signed?
  {
    && log[j].Approved? && log[j].id == log[i].id
    && if ctx.native.Some? then ShowsNative(log[j].facts, ctx.native.value, log[i].request)
       else && ctx.web3.Some? && log[i].request.SignTransaction?
            && ShowsWeb3(log[j].facts, ctx.web3.value, log[i].request.spec)
  }

  /** Over every run: what needed approval was, earlier and in the same call, approved on a
      showing of the very fields that are signed. */
  lemma {:induction false} SignedAsShown(ctx: Context, secret: Secret, steps: seq<Step>, i: nat)
    requires i < |Run(ctx, Start(secret), steps).log| && Run(ctx, Start(secret), steps).log[i].Signed?
    ensures var log := Run(ctx, Start(secret), steps).log;
            ctx.native.Some? || (log[i].request.SignTransaction? && log[i].request.spec.EvmSpec?) ==>
              exists j :: 0 <= j < i && ShownAt(ctx, log, i, j)
  {
    hide Run, Opening, ShowsNative, ShowsWeb3;
    SignedOnlyAsApproved(ctx, secret, steps, i);
    var log := Run(ctx, Start(secret), steps).log;
    if ctx.native.Some? || (log[i].request.SignTransaction? && log[i].request.spec.EvmSpec?) {
      var j :| 0 <= j < i && log[j].Approved? && log[j].id == log[i].id
               && Opening(ctx, log[i].request) == AwaitingHost(log[j].facts);
      OpeningShows(ctx, log[i].request, log[j].facts);
      assert ShownAt(ctx, log, i, j);
    }
  }

  /** The request was signed and the host had not approved its call. */
  ghost predicate SignedUnapproved(ctx: Context, secret: Secret, steps: seq<Step>, i: nat, request: Request) {
    var log := Run(ctx, Start(secret), steps).log;
    && i < |log| && log[i].Signed? && log[i].request == request
    && forall j :: 0 <= j < i && log[j].Approved? ==> log[j].id != log[i].id
  }

  /** Any message, EVM ones included, and any transaction of its own non-EVM chain. */
  predicate Unasked(request: Request) {
    request.SignMessage? || (request.chain == SpecChain(request.spec) && request.chain != ChainEvm)
  }

  /** Exactly what the signer signs without asking the host, whatever was asked before the
      context was opened. */
  lemma UnapprovedIff(ctx: Context, request: Request)
    ensures (exists secret, steps, i :: SignedUnapproved(ctx, secret, steps, i, request)) <==>
            ctx.native.None? && Unasked(request)
  {
    hide Run, Opening, SpecChain;
    forall secret, steps, i | SignedUnapproved(ctx, secret, steps, i, request)
      ensures !NeedsApproval(ctx, request) && Signs(request, secret)
    {
      RunKeepsInv(ctx, secret, steps);
      assert Sanctioned(ctx, secret, Run(ctx, Start(secret), steps).log, i);
    }
    if ctx.native.None? && Unasked(request) {
      OpeningAsks(ctx, request);
      UnapprovedRun(ctx, request);
      assert SignedUnapproved(ctx, Secret("", "", request.chain), [Begin(0, request), Finish(0, true)], 0, request);
    }
  }

  lemma UnapprovedRun(ctx: Context, request: Request)
    requires Opening(ctx, request).Ready? && Signs(request, Secret("", "", request.chain))
    ensures var secret := Secret("", "", request.chain);
            Run(ctx, Start(secret), [Begin(0, request), Finish(0, true)]).log == [Signed(0, request, secret)]
  {
    hide Opening;
    var a, b, s := Begin(0, request), Finish(0, true), Start(Secret("", "", request.chain));
    assert Run(ctx, s, [a]) == Apply(ctx, s, a) by { assert [a][..0] == []; }
    assert [a, b][..1] == [a];
    assert Run(ctx, s, [a]).calls[0] == Pending(request, Ready);
  }

  /** What a Web3 quote executes: an EVM call, or the bytes of a Solana transaction. */
  datatype Unsigned = UnsignedEvm | UnsignedSolana(txBlobHex: string)

  /** The gate of a Web3 execution: a Solana quote is shown to the host, as `approves`
      answers, before the signer's context opens; an EVM one is not. */
  function OpenExecution(
    confirmed: bool, approval: Web3Approval, unsigned: Unsigned, approves: string -> bool
  ): Option<Context> {
    if !confirmed then None
    else if unsigned.UnsignedSolana? && !approves(unsigned.txBlobHex) then None
    else Some(Context(None, Some(approval)))
  }

  ghost predicate ExecutesUnapproved(
    confirmed: bool, approval: Web3Approval, unsigned: Unsigned, approves: string -> bool, request: Request
  ) {
    var ctx := OpenExecution(confirmed, approval, unsigned, approves);
    ctx.Some? && exists secret, steps, i :: SignedUnapproved(ctx.value, secret, steps, i, request)
  }

  /** Across the gate and the signer, exactly what an execution can sign with no approval of
      its own: a Solana quote needs its blob approved first, but nothing ties the request
      that is then signed to that blob. */
  lemma ExecutesUnapprovedIff(
    confirmed: bool, approval: Web3Approval, unsigned: Unsigned, approves: string -> bool, request: Request
  )
    ensures ExecutesUnapproved(confirmed, approval, unsigned, approves, request) <==>
            && confirmed && (unsigned.UnsignedSolana? ==> approves(unsigned.txBlobHex))
            && Unasked(request)
  {
    hide SignedUnapproved, Unasked;
    UnapprovedIff(Context(None, Some(approval)), request);
  }

  /** Exactly which requests the host sees as one: it is shown the whole transaction, or
      the whole message but neither its chain nor its scheme. */
  lemma {:induction false} FactsDetermineRequest(ctx: Context, a: Request, b: Request)
    requires Opening(ctx, a).AwaitingHost?
    ensures Opening(ctx, a) == Opening(ctx, b) <==>
            if ctx.native.None? then b.SignTransaction? && b.chain == ChainEvm && b.spec == a.spec
            else if a.SignTransaction? then b.SignTransaction? && b.spec == a.spec
            else b.SignMessage? && b.message == a.message
  {
    if a.SignMessage? && b.SignMessage? {
      Hex.DecodeEncode(a.message);
      Hex.DecodeEncode(b.message);
    }
  }

  /** A call that was refused, abandoned or finished stays so: no step asks, approves or signs
      for it again. */
  lemma {:induction false} OverStaysOver(ctx: Context, s: State, steps: seq<Step>, id: nat)
    requires id in s.calls && (s.calls[id].phase.Refused? || s.calls[id].phase.Finished?)
    ensures var end := Run(ctx, s, steps);
            id in end.calls && (end.calls[id].phase.Refused? || end.calls[id].phase.Finished?)
    ensures var end := Run(ctx, s, steps);
            s.log <= end.log && forall i :: |s.log| <= i < |end.log| ==> end.log[i].id != id
  {
    if steps != [] {
      hide Opening, Signs;
      OverStaysOver(ctx, s, steps[..|steps| - 1], id);
    }
  }

  /** Dropping a call refuses it and touches nothing else: not the secret, not the log. */
  lemma AbandonRefuses(ctx: Context, s: State, id: nat)
    requires id in s.calls
    ensures var next := Apply(ctx, s, Abandon(id));
            && next.calls == s.calls[id := Pending(s.calls[id].request, Refused)]
            && next.slot == s.slot && next.log == s.log && next.takers == s.takers
  {
  }

  // ----- the account a signature comes from

  /** What deriving an account answers in a state. */
  function AccountIn<T>(derive: Secret -> Option<T>, s: State): Option<T> {
    if s.slot.None? then None else derive(s.slot.value)
  }

  /** An account derived at any point of a run is that of the secret any signature of the
      run is made with, and every such signature is made later; once a call has taken the
      secret no account is derived. */
  lemma {:induction false} AccountIsTheSigners<T>(
    ctx: Context, secret: Secret, steps: seq<Step>, at: nat, derive: Secret -> Option<T>
  )
    requires at <= |steps|
    ensures var now, end := Run(ctx, Start(secret), steps[..at]), Run(ctx, Start(secret), steps);
            var account := AccountIn(derive, now);
            && (account.None? <==> now.takers != [] || derive(secret).None?)
            && now.log <= end.log
            && (account.Some? ==>
                  forall i :: 0 <= i < |end.log| && end.log[i].Signed? ==>
                                i >= |now.log| && derive(end.log[i].secret) == account)
  {
    hide Run, SignedCalls, CallInv;
    RunKeepsInv(ctx, secret, steps[..at]);
    RunKeepsInv(ctx, secret, steps);
    LogIsKept(ctx, Start(secret), steps, at);
    var now, end := Run(ctx, Start(secret), steps[..at]), Run(ctx, Start(secret), steps);
    forall i: nat | i < |end.log| && end.log[i].Signed?
      ensures end.log[i].secret == secret && (now.takers == [] ==> i >= |now.log|)
    {
      assert Sanctioned(ctx, secret, end.log, i);
      if i < |now.log| { assert now.log[i] == end.log[i]; }
    }
  }

  lemma {:induction false} LogIsKept(ctx: Context, s: State, steps: seq<Step>, at: nat)
    requires at <= |steps|
    ensures Run(ctx, s, steps[..at]).log <= Run(ctx, s, steps).log
  {
    if at == |steps| {
      assert steps[..at] == steps;
    } else {
      hide Opening, Signs;
      LogIsKept(ctx, s, steps[..|steps| - 1], at);
      assert steps[..|steps| - 1][..at] == steps[..at];
    }
  }

  // ----- the signer object

  /** The signer's own form: each method is the awaits and updates of one call. */
  class ModuleSigner {
    const context: Context
    var slot: Option<Secret>
    ghost var calls: map<nat, Pending>
    ghost var log: seq<Event>
    ghost var takers: seq<nat>

    ghost function View(): State
      reads this
    {
      State(slot, calls, log, takers)
    }

    constructor (context: Context, secret: Secret)
      ensures this.context == context && View() == Start(secret)
    {
      this.context := context;
      slot := Some(secret);
      calls, log, takers := map[], [], [];
    }

    method TakeSecret() returns (taken: Option<Secret>)
      modifies this`slot
      ensures taken == old(slot) && slot == None
    {
      taken := slot;
      slot := None;
    }

    method CloneSecret() returns (copy: Option<Secret>)
      ensures copy == slot
    {
      copy := slot;
    }

    /** Derives from a copy, so that the secret stays for the signing call that follows. */
    method DeriveAccount<T>(derive: Secret -> Option<T>) returns (account: Option<T>)
      ensures account == AccountIn(derive, View())
      ensures View() == Run(context, old(View()), [Step.DeriveAccount])
    {
      var secret := CloneSecret();
      assert [Step.DeriveAccount][..0] == [];
      if secret.None? {
        return None;
      }
      account := derive(secret.value);
    }

    /** `answer` is the host's decision, if it is asked; `works` says whether deriving,
        building and signing succeed. */
    method Sign(ghost id: nat, request: Request, answer: bool, works: bool) returns (signed: bool)
      requires id !in calls
      modifies this
      ensures View() == Run(context, old(View()), [Begin(id, request), Answer(id, answer), Finish(id, works)])
      ensures id in calls && (signed <==> calls[id].phase == Finished)
    {
      hide Opening;
      ThreeSteps(context, View(), Begin(id, request), Answer(id, answer), Finish(id, works));
      OpeningAsks(context, request);
      ghost var facts := Opening(context, request);
      calls := calls[id := Pending(request, facts)];
      signed := false;
      if context.native.Some? {
        if !answer {
          calls := SetPhase(calls, id, Refused);
          return;
        }
        calls, log := SetPhase(calls, id, Ready), log + [Approved(id, facts.facts)];
      }
      if request.SignTransaction? && request.chain == ChainEvm && context.native.None? {
        if context.web3.None? {
          return;
        }
        if !request.spec.EvmSpec? {
          return;
        }
        if !answer {
          calls := SetPhase(calls, id, Refused);
          return;
        }
        calls, log := SetPhase(calls, id, Ready), log + [Approved(id, facts.facts)];
      }
      var secret := TakeSecret();
      if secret.None? {
        calls := SetPhase(calls, id, Refused);
        return;
      }
      takers := takers + [id];
      if secret.value.chain != request.chain {
        calls := SetPhase(calls, id, Refused);
        return;
      }
      if request.SignTransaction? && secret.value.chain != SpecChain(request.spec) {
        calls := SetPhase(calls, id, Refused);
        return;
      }
      if !works {
        calls := SetPhase(calls, id, Refused);
        return;
      }
      calls, log := SetPhase(calls, id, Finished), log + [Signed(id, request, secret.value)];
      signed := true;
    }
  }

  lemma ThreeSteps(ctx: Context, s: State, a: Step, b: Step, c: Step)
    ensures Run(ctx, s, [a, b, c]) == Apply(ctx, Apply(ctx, Apply(ctx, s, a), b), c)
  {
    hide Apply;
    assert [a, b, c][..2] == [a, b] && [a, b][..1] == [a];
    assert Run(ctx, s, [a]) == Apply(ctx, s, a) by { assert [a][..0] == []; }
  }

  lemma OpeningAsks(ctx: Context, request: Request)
    ensures ctx.native.Some? ==> Opening(ctx, request).AwaitingHost?
    ensures ctx.native.None? && !(request.SignTransaction? && request.chain == ChainEvm) ==> Opening(ctx, request).Ready?
    ensures ctx.native.None? && request.SignTransaction? && request.chain == ChainEvm ==>
            if ctx.web3.None? || !request.spec.EvmSpec? then Opening(ctx, request).Refused?
            else Opening(ctx, request).AwaitingHost?
  {
  }
}

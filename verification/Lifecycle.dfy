/** User-scoped services opened, replaced and closed behind a read/write lock, with
    opaque handles. Tasks interleave at every await and may be dropped at any point. */
module Lifecycle {
  import opened Bytes

  type Handle = nat

  /** Where one bus call is. Reading and the three later phases hold the lock. */
  datatype Task =
    | WantsConfigure(early: Option<Handle>)
    | WantsClose(handle: Handle)
    | WantsOperation(handle: Handle)
    | Configuring(next: Option<Handle>)
    | Closing(handle: Handle)
    | Reading(handle: Handle)
    | Operating(handle: Handle)
    | Over

  predicate Writes(task: Task) { task.Configuring? || task.Closing? }

  predicate Holds(task: Task) { Writes(task) || task.Reading? || task.Operating? }

  /** One service: the runtime's handle, every handle minted so far, and the tasks.
      `retired` remembers the handles that were active once and are no longer. */
  datatype Service = Service(active: Option<Handle>, issued: set<Handle>, retired: set<Handle>, tasks: map<nat, Task>)

  const CLOSED := Service(None, {}, {}, map[])

  datatype Step =
    | AskConfigure(t: nat)                       // web3_configure, native_wallet_configure
    | AskConfigureEarly(t: nat, minted: Handle)   // web3_configure_with_endpoints mints before the lock
    | AskClose(t: nat, handle: Handle)
    | AskOperation(t: nat, handle: Handle)
    | GrantWrite(t: nat)
    | GrantRead(t: nat)
    | Mint(t: nat, minted: Handle)
    | Install(t: nat)
    | CommitClose(t: nat)
    | RequireHandle(t: nat)
    | End(t: nat)                                // return, fail or drop, in any phase

  function Set(s: Service, t: nat, task: Task): Service { s.(tasks := s.tasks[t := task]) }

  /** The runtime replaces whatever was active. */
  function Replace(s: Service, next: Option<Handle>): Service {
    s.(active := next, retired := s.retired + if s.active.Some? then {s.active.value} else {})
  }

  predicate Enabled(s: Service, step: Step) {
    match step
    case AskConfigure(t) => t !in s.tasks
    case AskConfigureEarly(t, minted) => t !in s.tasks && minted !in s.issued
    case AskClose(t, _) => t !in s.tasks
    case AskOperation(t, _) => t !in s.tasks
    case GrantWrite(t) => t in s.tasks && (s.tasks[t].WantsConfigure? || s.tasks[t].WantsClose?) && !Held(s)
    case GrantRead(t) => t in s.tasks && s.tasks[t].WantsOperation? && !HeldForWriting(s)
    case Mint(t, minted) => t in s.tasks && s.tasks[t] == Configuring(None) && minted !in s.issued
    case Install(t) => t in s.tasks && s.tasks[t].Configuring? && s.tasks[t].next.Some?
    case CommitClose(t) => t in s.tasks && s.tasks[t].Closing?
    case RequireHandle(t) => t in s.tasks && s.tasks[t].Reading?
    case End(t) => t in s.tasks
  }

  predicate Held(s: Service) { exists t :: t in s.tasks && Holds(s.tasks[t]) }

  predicate HeldForWriting(s: Service) { exists t :: t in s.tasks && Writes(s.tasks[t]) }

  function Apply(s: Service, step: Step): Service
    requires Enabled(s, step)
  {
    match step
    case AskConfigure(t) => Set(s, t, WantsConfigure(None))
    case AskConfigureEarly(t, minted) => Set(s.(issued := s.issued + {minted}), t, WantsConfigure(Some(minted)))
    case AskClose(t, handle) => Set(s, t, WantsClose(handle))
    case AskOperation(t, handle) => Set(s, t, WantsOperation(handle))
    case GrantWrite(t) =>
      Set(s, t, if s.tasks[t].WantsConfigure? then Configuring(s.tasks[t].early) else Closing(s.tasks[t].handle))
    case GrantRead(t) => Set(s, t, Reading(s.tasks[t].handle))
    case Mint(t, minted) => Set(s.(issued := s.issued + {minted}), t, Configuring(Some(minted)))
    case Install(t) => Set(Replace(s, s.tasks[t].next), t, Over)
    case CommitClose(t) =>
      Set(if s.active == Some(s.tasks[t].handle) then Replace(s, None) else s, t, Over)
    case RequireHandle(t) =>
      Set(s, t, if s.active == Some(s.tasks[t].handle) then Operating(s.tasks[t].handle) else Over)
    case End(t) => Set(s, t, Over)
  }

  // ----- the invariant

  /** The handle a configure call is about to install. */
  function Minted(task: Task): Option<Handle> {
    match task
    case WantsConfigure(early) => early
    case Configuring(next) => next
    case _ => None
  }

  /** A writer excludes every other holder. */
  ghost predicate Exclusive(s: Service) {
    forall t, u :: t in s.tasks && u in s.tasks && t != u && Writes(s.tasks[t]) ==> !Holds(s.tasks[u])
  }

  /** Handles waiting to be installed are new, and no two calls wait with the same one. */
  ghost predicate Fresh(s: Service) {
    && (s.active.Some? ==> s.active.value in s.issued && s.active.value !in s.retired)
    && s.retired <= s.issued
    && (forall t :: t in s.tasks && Minted(s.tasks[t]).Some? ==> Unused(s, Minted(s.tasks[t]).value))
    && (forall t, u :: t in s.tasks && u in s.tasks && t != u && Minted(s.tasks[t]).Some? ==>
          Minted(s.tasks[t]) != Minted(s.tasks[u]))
  }

  ghost predicate Unused(s: Service, h: Handle) {
    h in s.issued && h !in s.retired && s.active != Some(h)
  }

  /** An operation past its handle check runs on the runtime it checked. */
  ghost predicate Served(s: Service) {
    forall t :: t in s.tasks && s.tasks[t].Operating? ==> s.active == Some(s.tasks[t].handle)
  }

  ghost predicate Inv(s: Service) { Exclusive(s) && Fresh(s) && Served(s) }

  lemma KeepsExclusive(s: Service, step: Step)
    requires Inv(s) && Enabled(s, step)
    ensures Exclusive(Apply(s, step))
  {
    hide Apply, Enabled;
    var next := Apply(s, step);
    forall t, u | t in next.tasks && u in next.tasks && t != u && Writes(next.tasks[t]) ensures !Holds(next.tasks[u]) {
      PairExcludes(s, step, t, u);
    }
  }

  lemma PairExcludes(s: Service, step: Step, t: nat, u: nat)
    requires Exclusive(s) && Enabled(s, step) && t in Apply(s, step).tasks && u in Apply(s, step).tasks && t != u
    ensures Writes(Apply(s, step).tasks[t]) ==> !Holds(Apply(s, step).tasks[u])
  {
  }

  lemma KeepsFresh(s: Service, step: Step)
    requires Inv(s) && Enabled(s, step)
    ensures Fresh(Apply(s, step))
  {
    hide Apply, Enabled;
    var next := Apply(s, step);
    ActiveIsFresh(s, step);
    forall t | t in next.tasks && Minted(next.tasks[t]).Some? ensures Unused(next, Minted(next.tasks[t]).value) {
      MintedIsUnused(s, step, t);
    }
    forall t, u | t in next.tasks && u in next.tasks && t != u && Minted(next.tasks[t]).Some?
      ensures Minted(next.tasks[t]) != Minted(next.tasks[u])
    {
      MintedDiffer(s, step, t, u);
    }
  }

  lemma ActiveIsFresh(s: Service, step: Step)
    requires Fresh(s) && Enabled(s, step)
    ensures var next := Apply(s, step);
            && (next.active.Some? ==> next.active.value in next.issued && next.active.value !in next.retired)
            && next.retired <= next.issued
  {
  }

  lemma MintedIsUnused(s: Service, step: Step, t: nat)
    requires Fresh(s) && Enabled(s, step) && t in Apply(s, step).tasks && Minted(Apply(s, step).tasks[t]).Some?
    ensures Unused(Apply(s, step), Minted(Apply(s, step).tasks[t]).value)
  {
  }

  lemma MintedDiffer(s: Service, step: Step, t: nat, u: nat)
    requires Fresh(s) && Enabled(s, step) && t in Apply(s, step).tasks && u in Apply(s, step).tasks && t != u
    requires Minted(Apply(s, step).tasks[t]).Some?
    ensures Minted(Apply(s, step).tasks[t]) != Minted(Apply(s, step).tasks[u])
  {
  }

  lemma KeepsServed(s: Service, step: Step)
    requires Inv(s) && Enabled(s, step)
    ensures Served(Apply(s, step))
  {
    if step.Install? {
      assert Writes(s.tasks[step.t]);
      forall u | u in s.tasks && u != step.t ensures !s.tasks[u].Operating? { assert !Holds(s.tasks[u]); }
    } else if step.CommitClose? {
      assert Writes(s.tasks[step.t]);
      forall u | u in s.tasks && u != step.t ensures !s.tasks[u].Operating? { assert !Holds(s.tasks[u]); }
    }
  }

  lemma StepKeepsInv(s: Service, step: Step)
    requires Inv(s) && Enabled(s, step)
    ensures Inv(Apply(s, step))
  {
    hide Apply, Enabled;
    KeepsExclusive(s, step);
    KeepsFresh(s, step);
    KeepsServed(s, step);
  }

  /** Retirement is for ever, and the only way to stop being active. */
  lemma StepRetires(s: Service, step: Step)
    requires Enabled(s, step)
    ensures s.retired <= Apply(s, step).retired
    ensures s.active.Some? && Apply(s, step).active != s.active ==> s.active.value in Apply(s, step).retired
  {
  }

  // ----- the wallet: two services with locks of their own

  datatype Wallet = Wallet(web3: Service, native: Service)

  datatype WalletStep = OnWeb3(step: Step) | OnNative(step: Step)

  predicate WalletEnabled(w: Wallet, step: WalletStep) {
    match step
    case OnWeb3(step) => Enabled(w.web3, step)
    case OnNative(step) => Enabled(w.native, step)
  }

  function WalletApply(w: Wallet, step: WalletStep): Wallet
    requires WalletEnabled(w, step)
  {
    match step
    case OnWeb3(step) => w.(web3 := Apply(w.web3, step))
    case OnNative(step) => w.(native := Apply(w.native, step))
  }

  datatype Which = Web3 | Native

  function Of(w: Wallet, which: Which): Service { if which.Web3? then w.web3 else w.native }

  /** A run of the wallet: the states it passes through, from both services closed. */
  ghost predicate IsRun(states: seq<Wallet>, steps: seq<WalletStep>) {
    && |states| == |steps| + 1 && states[0] == Wallet(CLOSED, CLOSED)
    && forall i :: 0 <= i < |steps| ==> WalletEnabled(states[i], steps[i]) && states[i + 1] == WalletApply(states[i], steps[i])
  }

  lemma {:induction false} RunKeepsInv(states: seq<Wallet>, steps: seq<WalletStep>, i: nat, which: Which)
    requires IsRun(states, steps) && i < |states|
    ensures Inv(Of(states[i], which))
  {
    hide Apply, Enabled, Inv;
    if i == 0 {
      ClosedInv();
    } else {
      RunKeepsInv(states, steps, i - 1, which);
      assert states[i] == WalletApply(states[i - 1], steps[i - 1]);
      match (steps[i - 1], which) {
        case (OnWeb3(step), Web3) => StepKeepsInv(states[i - 1].web3, step);
        case (OnNative(step), Native) => StepKeepsInv(states[i - 1].native, step);
        case _ =>
      }
    }
  }

  lemma ClosedInv()
    ensures Inv(CLOSED)
  {
  }

  lemma {:induction false} RetiredStays(states: seq<Wallet>, steps: seq<WalletStep>, i: nat, k: nat, which: Which)
    requires IsRun(states, steps) && i <= k < |states|
    ensures Of(states[i], which).retired <= Of(states[k], which).retired
    ensures Of(states[i], which).active.Some? && Of(states[k], which).active != Of(states[i], which).active ==>
            Of(states[i], which).active.value in Of(states[k], which).retired
    decreases k
  {
    hide Apply, Enabled;
    if i < k {
      RetiredStays(states, steps, i, k - 1, which);
      assert states[k] == WalletApply(states[k - 1], steps[k - 1]);
      match (steps[k - 1], which) {
        case (OnWeb3(step), Web3) => StepRetires(states[k - 1].web3, step);
        case (OnNative(step), Native) => StepRetires(states[k - 1].native, step);
        case _ =>
      }
    }
  }

  lemma StepOnlyEnds(s: Service, step: Step, t: nat)
    requires Enabled(s, step) && t in s.tasks
    ensures t in Apply(s, step).tasks
    ensures s.tasks[t].Operating? ==> Apply(s, step).tasks[t] == s.tasks[t] || Apply(s, step).tasks[t].Over?
    ensures s.tasks[t].Over? ==> Apply(s, step).tasks[t].Over?
  {
  }

  /** A call that operates goes on operating with the same handle until it is over. */
  lemma {:induction false} OperatingUntilOver(states: seq<Wallet>, steps: seq<WalletStep>, i: nat, k: nat, which: Which, t: nat)
    requires IsRun(states, steps) && i <= k < |states| && t in Of(states[i], which).tasks
    ensures var was := Of(states[i], which).tasks[t];
            && t in Of(states[k], which).tasks
            && (was.Operating? ==> Of(states[k], which).tasks[t] == was || Of(states[k], which).tasks[t].Over?)
            && (was.Over? ==> Of(states[k], which).tasks[t].Over?)
    decreases k
  {
    hide Apply, Enabled;
    if i < k {
      OperatingUntilOver(states, steps, i, k - 1, which, t);
      assert states[k] == WalletApply(states[k - 1], steps[k - 1]);
      match (steps[k - 1], which) {
        case (OnWeb3(step), Web3) => StepOnlyEnds(states[k - 1].web3, step, t);
        case (OnNative(step), Native) => StepOnlyEnds(states[k - 1].native, step, t);
        case _ =>
      }
    }
  }

  /** In every interleaving, an operation that passed its handle check keeps that same
      runtime active, and every writer out, until it ends. */
  lemma OperationKeepsItsRuntime(
    states: seq<Wallet>, steps: seq<WalletStep>, i: nat, m: nat, k: nat, which: Which, t: nat
  )
    requires IsRun(states, steps) && i <= m <= k < |states|
    requires t in Of(states[i], which).tasks && Of(states[i], which).tasks[t].Operating?
    requires t in Of(states[k], which).tasks && Of(states[k], which).tasks[t].Operating?
    ensures Of(states[m], which).active == Some(Of(states[i], which).tasks[t].handle)
    ensures forall u :: u in Of(states[m], which).tasks ==> !Writes(Of(states[m], which).tasks[u])
  {
    hide IsRun;
    OperatingUntilOver(states, steps, i, m, which, t);
    OperatingUntilOver(states, steps, m, k, which, t);
    RunKeepsInv(states, steps, m, which);
    assert Holds(Of(states[m], which).tasks[t]);
  }

  /** Once a handle has been replaced or closed it is never active again: no operation
      runs on it, and no later check of it passes. */
  lemma RetiredHandleNeverServes(
    states: seq<Wallet>, steps: seq<WalletStep>, i: nat, j: nat, k: nat, which: Which, h: Handle
  )
    requires IsRun(states, steps) && i <= j <= k < |states|
    requires Of(states[i], which).active == Some(h) && Of(states[j], which).active != Some(h)
    ensures Of(states[k], which).active != Some(h)
    ensures forall t :: t in Of(states[k], which).tasks ==> Of(states[k], which).tasks[t] != Operating(h)
  {
    RetiredStays(states, steps, i, j, which);
    RetiredStays(states, steps, j, k, which);
    RunKeepsInv(states, steps, k, which);
  }

  /** The handle that is active gets in: unless a writer holds the lock, a new operation
      can take it, pass its check and run on that runtime, leaving the runtime as it is. */
  lemma ActiveHandleCanOperate(s: Service, t: nat, h: Handle)
    requires s.active == Some(h) && t !in s.tasks && !HeldForWriting(s)
    ensures Enabled(s, AskOperation(t, h))
    ensures var asked := Apply(s, AskOperation(t, h));
            && Enabled(asked, GrantRead(t))
            && var reading := Apply(asked, GrantRead(t));
            && Enabled(reading, RequireHandle(t))
            && var operating := Apply(reading, RequireHandle(t));
            && operating.tasks == s.tasks[t := Operating(h)] && operating.active == s.active
            && Enabled(operating, End(t)) && Apply(operating, End(t)) == Set(s, t, Over)
  {
  }

  /** While the lock is free a service can be opened or replaced by a new runtime, which is
      then the active one, and what it replaced is retired. */
  lemma FreeServiceCanConfigure(s: Service, t: nat, minted: Handle)
    requires t !in s.tasks && minted !in s.issued && !Held(s)
    ensures Enabled(s, AskConfigure(t))
    ensures var asked := Apply(s, AskConfigure(t));
            && Enabled(asked, GrantWrite(t))
            && var writing := Apply(asked, GrantWrite(t));
            && Enabled(writing, Mint(t, minted))
            && var ready := Apply(writing, Mint(t, minted));
            && Enabled(ready, Install(t))
            && var installed := Apply(ready, Install(t));
            && installed.active == Some(minted) && installed.tasks == s.tasks[t := Over]
            && (s.active.Some? ==> s.active.value in installed.retired)
  {
    hide Held;
    StillFree(s, t, WantsConfigure(None));
  }

  /** The same when the handle is minted before the lock is asked for. */
  lemma EarlyHandleCanConfigure(s: Service, t: nat, minted: Handle)
    requires t !in s.tasks && minted !in s.issued && !Held(s)
    ensures Enabled(s, AskConfigureEarly(t, minted))
    ensures var asked := Apply(s, AskConfigureEarly(t, minted));
            && Enabled(asked, GrantWrite(t))
            && var ready := Apply(asked, GrantWrite(t));
            && Enabled(ready, Install(t))
            && var installed := Apply(ready, Install(t));
            && installed.active == Some(minted) && installed.tasks == s.tasks[t := Over]
            && (s.active.Some? ==> s.active.value in installed.retired)
  {
    hide Held;
    SameTasks(s, s.(issued := s.issued + {minted}));
    StillFree(s.(issued := s.issued + {minted}), t, WantsConfigure(Some(minted)));
  }

  lemma SameTasks(s: Service, u: Service)
    requires s.tasks == u.tasks
    ensures Held(s) <==> Held(u)
  {
  }

  lemma StillFree(s: Service, t: nat, task: Task)
    requires t !in s.tasks && !Held(s) && !Holds(task)
    ensures !Held(Set(s, t, task))
  {
  }

  /** And its handle can close it again. */
  lemma ActiveHandleCanClose(s: Service, t: nat, h: Handle)
    requires s.active == Some(h) && t !in s.tasks && !Held(s)
    ensures Enabled(s, AskClose(t, h))
    ensures var asked := Apply(s, AskClose(t, h));
            && Enabled(asked, GrantWrite(t))
            && var closing := Apply(asked, GrantWrite(t));
            && Enabled(closing, CommitClose(t))
            && var closed := Apply(closing, CommitClose(t));
            closed.active == None && h in closed.retired && closed.tasks == s.tasks[t := Over]
  {
    hide Held;
    StillFree(s, t, WantsClose(h));
  }

  // ----- the object behind the lock

  /** The critical sections of the wallet object, entered once the lock is granted. */
  class ServiceCell {
    var active: Option<Handle>
    ghost var model: Service

    ghost predicate Valid()
      reads this
    {
      model.active == active && Inv(model)
    }

    constructor ()
      ensures Valid() && model == CLOSED
    {
      active, model := None, CLOSED;
    }

    /** `*web3 = Some(next)` under the write lock. */
    method Configure(ghost t: nat, next: Handle)
      requires Valid() && Enabled(model, Install(t)) && model.tasks[t].next == Some(next)
      modifies this
      ensures Valid() && model == Apply(old(model), Install(t))
      ensures active == Some(next)
    {
      StepKeepsInv(model, Install(t));
      active, model := Some(next), Apply(model, Install(t));
    }

    /** Close only the service the handle names. */
    method Close(ghost t: nat, handle: Handle) returns (closed: bool)
      requires Valid() && Enabled(model, CommitClose(t)) && model.tasks[t].handle == handle
      modifies this
      ensures Valid() && model == Apply(old(model), CommitClose(t))
      ensures closed <==> old(active) == Some(handle)
      ensures active == if closed then None else old(active)
    {
      StepKeepsInv(model, CommitClose(t));
      closed := false;
      model := Apply(model, CommitClose(t));
      if active.None? {
        return;
      }
      if active.value != handle {
        return;
      }
      closed := true;
      active := None;
    }

    /** The handle check an operation makes under the read lock. */
    method Admit(ghost t: nat, handle: Handle) returns (admitted: bool)
      requires Valid() && Enabled(model, RequireHandle(t)) && model.tasks[t].handle == handle
      modifies this`model
      ensures Valid() && model == Apply(old(model), RequireHandle(t))
      ensures admitted <==> active == Some(handle)
      ensures model.tasks[t] == if admitted then Operating(handle) else Over
    {
      StepKeepsInv(model, RequireHandle(t));
      model := Apply(model, RequireHandle(t));
      admitted := active.Some? && active.value == handle;
    }
  }
}

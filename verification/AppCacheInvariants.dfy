/** What every step of the cache protocol keeps. */
module AppCacheInvariants {
  import opened Wrappers
  import opened AppRuntimes
  import opened AppCache

  /** The call is inside the block synchronized on `apps`. */
  predicate HoldsApps(c: Call) {
    match c.pc
    case InRuntimes(pc) => pc.RuntimesRecheck? || pc.Publish? || pc.RuntimesUnlock? || pc.RuntimesThrow?
    case InInit(_) => true
    case InReset(pc) => !pc.ResetLockApps?
    case _ => false
  }

  /** The call is inside a block synchronized on `appDetails`; a nested getAvailableRuntimes is. */
  predicate HoldsDetails(c: Call) {
    match c.pc
    case InDetails(pc) => pc.DetailsRecheck? || pc.DetailsFill? || pc.DetailsUnlock? || pc.DetailsThrow?
    case InRuntimes(_) => c.op.GetDetails?
    case InInit(_) => c.op.GetDetails?
    case InReset(pc) => pc.ResetApps? || pc.ResetDetails? || pc.ResetUnlockDetails?
    case _ => false
  }

  /** Each call runs the code of its own operation. */
  predicate CodeOfOperation(c: Call) {
    match c.pc
    case InDetails(_) => c.op.GetDetails?
    case InRuntimes(_) => c.op.GetDetails? || c.op.GetRuntimes?
    case InInit(pc) =>
      && (c.op.GetDetails? || c.op.GetRuntimes?)
      && (pc.ResolveVersion? || pc.ReadManifest? ==> pc.next < |pc.dirs|)
    case InTask(_) => c.op.Install? || c.op.Uninstall?
    case InReset(_) => c.op.Install? || c.op.Uninstall? || c.op.Refresh?
    case Done(_) => true
  }

  /** What a call knows about the runtime cache where it is. */
  predicate KnowsApps(apps: Option<RuntimeMap>, c: Call) {
    match c.pc
    case InDetails(pc) => pc.DetailsFill? ==> apps.Some? && pc.from == apps
    case InRuntimes(pc) =>
      && (pc.Publish? ==> apps.None?)
      && (pc.RuntimesUnlock? ==> apps.Some?)
      && (pc.RuntimesReturn? && c.op.GetDetails? ==> apps.Some?)
    case InInit(_) => apps.None?
    case InReset(pc) => pc.ResetDetails? ==> apps.None?
    case _ => true
  }

  /** Everything the invariant says about one call. */
  predicate CallOk(s: State, t: CallId)
    requires t in s.calls
  {
    && CodeOfOperation(s.calls[t]) && KnowsApps(s.apps, s.calls[t])
    && (HoldsApps(s.calls[t]) <==> s.appsLock == Some(t))
    && (HoldsDetails(s.calls[t]) <==> s.detailsLock == Some(t))
  }

  /** The holder of the apps lock is inside resetApps, after its first clear and before its second. */
  predicate BetweenTheClears(s: State) {
    s.appsLock.Some? && s.appsLock.value in s.calls && s.calls[s.appsLock.value].pc == InReset(ResetDetails)
  }

  /**
   A filled details cache is the projection of a filled runtime cache, but for the instant between
   the two clears of resetApps.
   */
  predicate Coupled(s: State) {
    s.details.Some? && !BetweenTheClears(s) ==> s.apps.Some? && s.details.value == Project(s.apps.value)
  }

  /**
   A lock is held exactly by the call that is inside its synchronized blocks, every call
   knows of the runtime cache what its place in the code implies, and the caches are coupled.
   */
  ghost predicate Inv(s: State) {
    && (s.appsLock.Some? ==> s.appsLock.value in s.calls)
    && (s.detailsLock.Some? ==> s.detailsLock.value in s.calls)
    && (forall t :: t in s.calls ==> CallOk(s, t))
    && Coupled(s)
  }

  predicate LockTouched(before: Option<CallId>, after: Option<CallId>, t: CallId) {
    after == before || (before.None? && after == Some(t)) || (before == Some(t) && after.None?)
  }

  /** How far a step of `t` reaches: its own call, locks it takes or gives back, a cache it may write. */
  ghost predicate Touches(s: State, s': State, t: CallId) {
    && t in s.calls && s'.calls.Keys == s.calls.Keys
    && (forall x :: x in s.calls && x != t ==> s'.calls[x] == s.calls[x])
    && LockTouched(s.appsLock, s'.appsLock, t) && LockTouched(s.detailsLock, s'.detailsLock, t)
    && (s'.apps != s.apps ==> HoldsApps(s.calls[t]))
    && (s'.apps != s.apps && s'.apps.None? ==> HoldsDetails(s.calls[t]))
    && (s'.apps != s.apps && s'.apps.Some? ==> s.apps.None?)
  }

  /** Whatever reaches no further leaves the other calls right. */
  lemma {:induction false} OthersKeep(s: State, s': State, t: CallId)
    requires Inv(s) && Touches(s, s', t)
    requires CallOk(s', t) && Coupled(s')
    ensures Inv(s')
  {
    forall x | x in s'.calls ensures CallOk(s', x) {
      assert CallOk(s, t);
      if x != t { assert CallOk(s, x); }
    }
  }

  lemma {:induction false} InvBegin(s: State, t: CallId, op: Operation)
    requires Inv(s) && t !in s.calls
    ensures Inv(Next(s, Begin(t, op)).value)
  {
    var s' := Next(s, Begin(t, op)).value;
    forall x | x in s'.calls ensures CallOk(s', x) {
      if x != t { assert CallOk(s, x); }
    }
  }

  lemma {:induction false} DetailsKeeps(s: State, t: CallId, pc: DetailsPc)
    requires t in s.calls && CallOk(s, t) && s.calls[t].pc == InDetails(pc) && StepDetails(s, t, pc).Some? && Coupled(s)
    ensures Touches(s, StepDetails(s, t, pc).value, t)
    ensures CallOk(StepDetails(s, t, pc).value, t) && Coupled(StepDetails(s, t, pc).value)
  {
  }

  lemma {:induction false} RuntimesKeeps(s: State, t: CallId, pc: RuntimesPc)
    requires t in s.calls && CallOk(s, t) && s.calls[t].pc == InRuntimes(pc) && StepRuntimes(s, t, pc).Some?
      && Coupled(s)
    ensures Touches(s, StepRuntimes(s, t, pc).value, t)
    ensures CallOk(StepRuntimes(s, t, pc).value, t) && Coupled(StepRuntimes(s, t, pc).value)
  {
  }

  lemma {:induction false} InitKeeps(s: State, t: CallId, pc: InitPc, c: Choice)
    requires t in s.calls && CallOk(s, t) && s.calls[t].pc == InInit(pc) && StepInit(s, t, pc, c).Some? && Coupled(s)
    ensures Touches(s, StepInit(s, t, pc, c).value, t)
    ensures CallOk(StepInit(s, t, pc, c).value, t) && Coupled(StepInit(s, t, pc, c).value)
  {
  }

  lemma {:induction false} TaskKeeps(s: State, t: CallId, pc: TaskPc, c: Choice)
    requires t in s.calls && CallOk(s, t) && s.calls[t].pc == InTask(pc) && StepTask(s, t, pc, c).Some? && Coupled(s)
    ensures Touches(s, StepTask(s, t, pc, c).value, t)
    ensures CallOk(StepTask(s, t, pc, c).value, t) && Coupled(StepTask(s, t, pc, c).value)
  {
  }

  lemma {:induction false} ResetKeeps(s: State, t: CallId, pc: ResetPc)
    requires t in s.calls && CallOk(s, t) && s.calls[t].pc == InReset(pc) && StepReset(s, t, pc).Some? && Coupled(s)
    ensures Touches(s, StepReset(s, t, pc).value, t)
    ensures CallOk(StepReset(s, t, pc).value, t) && Coupled(StepReset(s, t, pc).value)
  {
  }

  lemma {:induction false} InvNext(s: State, e: Event)
    requires Inv(s) && Next(s, e).Some?
    ensures Inv(Next(s, e).value)
  {
    match e
    case Begin(t, op) => InvBegin(s, t, op);
    case Step(t, c) =>
      assert CallOk(s, t);
      match s.calls[t].pc {
        case InDetails(pc) => DetailsKeeps(s, t, pc);
        case InRuntimes(pc) => RuntimesKeeps(s, t, pc);
        case InInit(pc) => InitKeeps(s, t, pc, c);
        case InTask(pc) => TaskKeeps(s, t, pc, c);
        case InReset(pc) => ResetKeeps(s, t, pc);
      }
      OthersKeep(s, Next(s, e).value, t);
  }

  lemma {:induction false} InvAlongRun(states: seq<State>, events: seq<Event>, k: nat)
    requires IsRun(states, events) && k <= |events|
    ensures Inv(states[k])
  {
    if k > 0 {
      InvAlongRun(states, events, k - 1);
      assert Next(states[k-1], events[k-1]) == Some(states[k]);
      InvNext(states[k-1], events[k-1]);
    }
  }

  lemma {:induction false} InvReachable(s: State)
    requires Reachable(s)
    ensures Inv(s)
  {
    var states, events :| IsRun(states, events) && states[|events|] == s;
    InvAlongRun(states, events, |events|);
  }
}

/** Properties of whole runs of the cache protocol, and two runs that end badly. */
module AppCacheRuns {
  import opened Wrappers
  import opened AppRuntimes
  import opened AppCache
  import opened AppCacheInvariants
  import opened AppCacheDeadlock

  predicate ClearsDetails(s: State, e: Event) {
    e.Step? && e.id in s.calls && s.calls[e.id].pc == InReset(ResetDetails)
  }

  /** The step publishes a computed runtime map. */
  predicate Publishes(s: State, e: Event) {
    e.Step? && e.id in s.calls && s.calls[e.id].pc.InRuntimes? && s.calls[e.id].pc.runtimes.Publish?
  }

  /** The step is the last read of `apps` in a getAvailableRuntimes call, and finds `m`. */
  predicate ReadsMap(s: State, e: Event, m: RuntimeMap) {
    e.Step? && e.id in s.calls && s.calls[e.id].pc == InRuntimes(RuntimesReturn) && s.apps == Some(m)
  }

  /** No step from the i-th on clears the runtime cache. */
  ghost predicate NoClear(states: seq<State>, events: seq<Event>, i: nat, j: nat)
    requires |states| == |events| + 1 && j <= |events|
  {
    forall k :: i <= k < j ==> !ClearsApps(states[k], events[k])
  }

  /** No step from the i-th on clears the details cache. */
  ghost predicate NoDetailsClear(states: seq<State>, events: seq<Event>, i: nat, j: nat)
    requires |states| == |events| + 1 && j <= |events|
  {
    forall k :: i <= k < j ==> !ClearsDetails(states[k], events[k])
  }

  lemma {:induction false} AppsChange(s: State, e: Event)
    requires Inv(s) && Next(s, e).Some?
    ensures Next(s, e).value.apps != s.apps ==> ClearsApps(s, e) || (s.apps.None? && Publishes(s, e))
    ensures Publishes(s, e) ==> s.apps.None? && Next(s, e).value.apps.Some?
    ensures ClearsApps(s, e) ==> Next(s, e).value.apps.None?
  {
    if e.Step? {
      assert CallOk(s, e.id);
      match s.calls[e.id].pc
      case InTask(pc) => TaskKeeps(s, e.id, pc, e.choice);
      case InDetails(pc) => DetailsKeeps(s, e.id, pc);
      case _ =>
    }
  }

  /** Until it is cleared a filled runtime cache keeps its map. */
  lemma {:induction false} FilledStays(states: seq<State>, events: seq<Event>, i: nat, j: nat)
    requires IsRun(states, events) && i <= j <= |events|
    requires states[i].apps.Some? && NoClear(states, events, i, j)
    ensures states[j].apps == states[i].apps
  {
    if i < j {
      FilledStays(states, events, i, j - 1);
      InvAlongRun(states, events, j - 1);
      assert Next(states[j-1], events[j-1]) == Some(states[j]);
      AppsChange(states[j-1], events[j-1]);
    }
  }

  /** Between two publications of a runtime map lies a clear of the runtime cache, ... */
  lemma {:induction false} OnePublicationBetweenResets(states: seq<State>, events: seq<Event>, i: nat, j: nat)
    requires IsRun(states, events) && i < j < |events|
    requires Publishes(states[i], events[i]) && Publishes(states[j], events[j])
    ensures exists k :: i < k < j && ClearsApps(states[k], events[k])
  {
    if NoClear(states, events, i + 1, j) {
      InvAlongRun(states, events, i);
      InvAlongRun(states, events, j);
      assert Next(states[i], events[i]) == Some(states[i+1]);
      assert Next(states[j], events[j]) == Some(states[j+1]);
      AppsChange(states[i], events[i]);
      AppsChange(states[j], events[j]);
      FilledStays(states, events, i + 1, j);
      assert false;
    }
  }

  /** ... and all calls that read a map between two clears read the same one. */
  lemma {:induction false} ReadsAgreeBetweenResets(states: seq<State>, events: seq<Event>,
                                                   i: nat, j: nat, m: RuntimeMap, m': RuntimeMap)
    requires IsRun(states, events) && i <= j < |events| && NoClear(states, events, i, j)
    requires ReadsMap(states[i], events[i], m) && ReadsMap(states[j], events[j], m')
    ensures m == m'
  {
    FilledStays(states, events, i, j);
  }

  // ---------------------------------------------------------------- when a cache is empty

  /** The k-th step clears `apps`, and no map has been published since. */
  ghost predicate LastClears(states: seq<State>, events: seq<Event>, k: nat, j: nat)
    requires |states| == |events| + 1 && j <= |events|
  {
    && k < j && ClearsApps(states[k], events[k])
    && forall l :: k < l < j ==> !Publishes(states[l], events[l])
  }

  /** Since the i-th state `apps` has been cleared, and not filled after that. */
  ghost predicate ClearedSince(states: seq<State>, events: seq<Event>, i: nat, j: nat)
    requires |states| == |events| + 1 && j <= |events|
  {
    exists k :: i <= k && LastClears(states, events, k, j)
  }

  lemma {:induction false} ClearedNext(states: seq<State>, events: seq<Event>, i: nat, m: nat)
    requires |states| == |events| + 1 && i <= m < |events|
    ensures ClearedSince(states, events, i, m + 1) <==>
      ClearsApps(states[m], events[m]) || (ClearedSince(states, events, i, m) && !Publishes(states[m], events[m]))
  {
    var n := m + 1;
    if k :| i <= k && LastClears(states, events, k, n) {
      if k < m { assert LastClears(states, events, k, m); }
    }
    if ClearsApps(states[m], events[m]) { assert LastClears(states, events, m, m + 1); }
    if k :| i <= k && LastClears(states, events, k, m) {
      if !Publishes(states[m], events[m]) { assert LastClears(states, events, k, m + 1); }
    }
  }

  /** A filled runtime cache is empty later exactly if it was cleared and not filled since. */
  lemma {:induction false} EmptyExactly(states: seq<State>, events: seq<Event>, i: nat, j: nat)
    requires IsRun(states, events) && i <= j <= |events| && states[i].apps.Some?
    ensures states[j].apps.None? <==> ClearedSince(states, events, i, j)
    decreases j
  {
    if i < j {
      EmptyExactly(states, events, i, j - 1);
      ClearedNext(states, events, i, j - 1);
      InvAlongRun(states, events, j - 1);
      assert Next(states[j-1], events[j-1]) == Some(states[j]);
      AppsChange(states[j-1], events[j-1]);
    }
  }

  /** The step fills `details`. */
  predicate FillsDetails(s: State, e: Event) {
    e.Step? && e.id in s.calls && s.calls[e.id].pc.InDetails? && s.calls[e.id].pc.details.DetailsFill?
  }

  lemma {:induction false} DetailsChange(s: State, e: Event)
    requires Inv(s) && Next(s, e).Some?
    ensures ClearsDetails(s, e) ==> Next(s, e).value.details.None?
    ensures FillsDetails(s, e) ==> Next(s, e).value.details.Some?
    ensures !ClearsDetails(s, e) && !FillsDetails(s, e) ==> Next(s, e).value.details == s.details
  {
    if e.Step? { assert CallOk(s, e.id); }
  }

  ghost predicate LastClearsDetails(states: seq<State>, events: seq<Event>, k: nat, j: nat)
    requires |states| == |events| + 1 && j <= |events|
  {
    && k < j && ClearsDetails(states[k], events[k])
    && forall l :: k < l < j ==> !FillsDetails(states[l], events[l])
  }

  /** Since the i-th state `details` has been cleared, and not filled after that. */
  ghost predicate DetailsClearedSince(states: seq<State>, events: seq<Event>, i: nat, j: nat)
    requires |states| == |events| + 1 && j <= |events|
  {
    exists k :: i <= k && LastClearsDetails(states, events, k, j)
  }

  lemma {:induction false} DetailsClearedNext(states: seq<State>, events: seq<Event>, i: nat, m: nat)
    requires |states| == |events| + 1 && i <= m < |events|
    ensures DetailsClearedSince(states, events, i, m + 1) <==>
      || ClearsDetails(states[m], events[m])
      || (DetailsClearedSince(states, events, i, m) && !FillsDetails(states[m], events[m]))
  {
    var n := m + 1;
    if k :| i <= k && LastClearsDetails(states, events, k, n) {
      if k < m { assert LastClearsDetails(states, events, k, m); }
    }
    if ClearsDetails(states[m], events[m]) { assert LastClearsDetails(states, events, m, m + 1); }
    if k :| i <= k && LastClearsDetails(states, events, k, m) {
      if !FillsDetails(states[m], events[m]) { assert LastClearsDetails(states, events, k, m + 1); }
    }
  }

  /** And so the details cache. */
  lemma {:induction false} DetailsEmptyExactly(states: seq<State>, events: seq<Event>, i: nat, j: nat)
    requires IsRun(states, events) && i <= j <= |events| && states[i].details.Some?
    ensures states[j].details.None? <==> DetailsClearedSince(states, events, i, j)
    decreases j
  {
    if i < j {
      DetailsEmptyExactly(states, events, i, j - 1);
      DetailsClearedNext(states, events, i, j - 1);
      InvAlongRun(states, events, j - 1);
      assert Next(states[j-1], events[j-1]) == Some(states[j]);
      DetailsChange(states[j-1], events[j-1]);
    }
  }

  // ---------------------------------------------------------------- the steps of one call

  lemma {:induction false} OthersUntouched(s: State, e: Event, t: CallId)
    requires Next(s, e).Some? && t in s.calls && e.id != t
    ensures t in Next(s, e).value.calls && Next(s, e).value.calls[t] == s.calls[t]
  {
  }

  lemma {:induction false} OwnStep(s: State, e: Event, t: CallId)
    requires Next(s, e).Some? && t in s.calls && e.id == t
    ensures e.Step? && t in Next(s, e).value.calls && Next(s, e).value.calls[t].op == s.calls[t].op
  {
  }

  lemma {:induction false} OwnBegin(s: State, t: CallId, op: Operation)
    requires Next(s, Begin(t, op)).Some?
    ensures t in Next(s, Begin(t, op)).value.calls
    ensures Next(s, Begin(t, op)).value.calls[t].op == op && Next(s, Begin(t, op)).value.calls[t].pc == Start(op)
  {
  }

  /** The k-th event is a step of `t`, after which `t` is as in the j-th state. */
  ghost predicate LeftBy(states: seq<State>, events: seq<Event>, k: nat, j: nat, t: CallId)
    requires |states| == |events| + 1 && k < j <= |events|
  {
    && events[k].Step? && events[k].id == t && t in states[k].calls
    && t in states[k+1].calls && t in states[j].calls && states[k+1].calls[t] == states[j].calls[t]
  }

  lemma {:induction false} OneStep(states: seq<State>, events: seq<Event>, k: nat, t: CallId)
    requires IsRun(states, events) && k < |events| && t in states[k].calls
    ensures t in states[k+1].calls && states[k+1].calls[t].op == states[k].calls[t].op
    ensures LeftBy(states, events, k, k + 1, t) || states[k+1].calls[t] == states[k].calls[t]
  {
    assert Next(states[k], events[k]) == Some(states[k+1]);
    if events[k].id == t { OwnStep(states[k], events[k], t); } else { OthersUntouched(states[k], events[k], t); }
  }

  /** After its begin a call stays, running the same operation. */
  lemma {:induction false} CallStays(states: seq<State>, events: seq<Event>, i: nat, j: nat, t: CallId, op: Operation)
    requires IsRun(states, events) && i < j <= |events| && events[i] == Begin(t, op)
    ensures t in states[j].calls && states[j].calls[t].op == op
    decreases j
  {
    if j == i + 1 {
      assert Next(states[i], events[i]) == Some(states[j]);
      OwnBegin(states[i], t, op);
    } else {
      CallStays(states, events, i, j - 1, t, op);
      OneStep(states, events, j - 1, t);
    }
  }

  lemma {:induction false} CallStarts(states: seq<State>, events: seq<Event>, i: nat, t: CallId, op: Operation)
    requires IsRun(states, events) && i < |events| && events[i] == Begin(t, op)
    ensures t in states[i+1].calls && states[i+1].calls[t].pc == Start(op)
  {
    assert Next(states[i], events[i]) == Some(states[i+1]);
    OwnBegin(states[i], t, op);
  }

  /** A call that is no longer at its start was left where it is by a step of its own. */
  lemma {:induction false} LastStep(states: seq<State>, events: seq<Event>, i: nat, j: nat, t: CallId, op: Operation)
    returns (k: nat)
    requires IsRun(states, events) && i < j <= |events| && events[i] == Begin(t, op)
    requires t in states[j].calls && states[j].calls[t].pc != Start(op)
    ensures i < k < j && LeftBy(states, events, k, j, t)
    decreases j
  {
    CallStarts(states, events, i, t, op);
    k := j - 1;
    while true
      invariant i <= k < j && t in states[k+1].calls && states[k+1].calls[t] == states[j].calls[t]
      decreases k
    {
      CallStays(states, events, i, k, t, op);
      OneStep(states, events, k, t);
      if LeftBy(states, events, k, k + 1, t) { return; }
      k := k - 1;
    }
  }

  // ---------------------------------------------------------------- when a call returns null

  /** The step takes `t` past its last check of `apps`, to the read that it returns. */
  predicate EntersReturn(s: State, e: Event, t: CallId, s': State) {
    && e.Step? && e.id == t && t in s.calls && t in s'.calls
    && s.calls[t].pc != InRuntimes(RuntimesReturn) && s'.calls[t].pc == InRuntimes(RuntimesReturn)
  }

  predicate EntersDetailsReturn(s: State, e: Event, t: CallId, s': State) {
    && e.Step? && e.id == t && t in s.calls && t in s'.calls
    && s.calls[t].pc != InDetails(DetailsReturn) && s'.calls[t].pc == InDetails(DetailsReturn)
  }

  /** The step is the last read of `t`, which gives its outcome. */
  predicate Returns(s: State, e: Event, t: CallId, pc: Pc) {
    e.Step? && e.id == t && t in s.calls && s.calls[t].pc == pc
  }

  predicate OutcomeFits(op: Operation, o: Outcome) {
    match op
    case GetDetails => o.AppDetails? || o.Threw?
    case GetRuntimes => o.Runtimes? || o.Threw?
    case _ => o.Finished? || o.Threw?
  }

  lemma {:induction false} StepToDone(s: State, t: CallId, c: Choice)
    requires t in s.calls && CallOk(s, t) && Move(s, t, c).Some? && Move(s, t, c).value.calls[t].pc.Done?
    ensures
      var o := Move(s, t, c).value.calls[t].pc.outcome;
      && OutcomeFits(s.calls[t].op, o)
      && (o.Runtimes? ==> s.calls[t].pc == InRuntimes(RuntimesReturn) && o.runtimes == s.apps)
      && (o.AppDetails? ==> s.calls[t].pc == InDetails(DetailsReturn) && o.details == s.details)
  {
  }

  lemma {:induction false} StepToReturn(s: State, t: CallId, c: Choice)
    requires t in s.calls && CallOk(s, t) && Move(s, t, c).Some?
    requires Move(s, t, c).value.calls[t].pc == InRuntimes(RuntimesReturn)
    ensures s.calls[t].pc != InRuntimes(RuntimesReturn) && Move(s, t, c).value.apps.Some?
  {
  }

  lemma {:induction false} StepToDetailsReturn(s: State, t: CallId, c: Choice)
    requires t in s.calls && Move(s, t, c).Some?
    requires Move(s, t, c).value.calls[t].pc == InDetails(DetailsReturn)
    requires s.calls[t].pc == InDetails(DetailsUnlock) ==> s.details.Some?
    ensures s.calls[t].pc != InDetails(DetailsReturn) && Move(s, t, c).value.details.Some?
  {
  }

  /**
   A finished getAvailableRuntimes call that did not throw has passed its last check of `apps`
   and read it again, and it returns null exactly if `apps` was cleared between the two and not
   filled since.
   */
  lemma {:induction false} RuntimesNullExactly(states: seq<State>, events: seq<Event>, i: nat, j: nat, t: CallId)
    returns (r: nat, q: nat)
    requires IsRun(states, events) && i < j <= |events| && events[i] == Begin(t, GetRuntimes)
    requires t in states[j].calls && states[j].calls[t].pc.Done? && states[j].calls[t].pc.outcome != Threw
    ensures i < r < q < j && EntersReturn(states[r], events[r], t, states[r+1])
    ensures Returns(states[q], events[q], t, InRuntimes(RuntimesReturn))
    ensures states[j].calls[t].pc.outcome == Runtimes(states[q].apps)
    ensures states[j].calls[t].pc.outcome == Runtimes(None) <==> ClearedSince(states, events, r + 1, q)
  {
    q := LastStep(states, events, i, j, t, GetRuntimes);
    CallStays(states, events, i, q, t, GetRuntimes);
    assert Next(states[q], events[q]) == Some(states[q+1]);
    InvAlongRun(states, events, q);
    StepToDone(states[q], t, events[q].choice);
    r := LastStep(states, events, i, q, t, GetRuntimes);
    assert Next(states[r], events[r]) == Some(states[r+1]);
    InvAlongRun(states, events, r);
    StepToReturn(states[r], t, events[r].choice);
    EmptyExactly(states, events, r + 1, q);
  }

  /** Before it leaves its synchronized block, a details call has the details cache filled. */
  lemma {:induction false} FilledAtUnlock(states: seq<State>, events: seq<Event>, j: nat, t: CallId)
    requires IsRun(states, events) && j <= |events| && t in states[j].calls
    requires states[j].calls[t].pc == InDetails(DetailsUnlock)
    ensures states[j].details.Some?
    decreases j
  {
    if j > 0 {
      var s, e := states[j-1], events[j-1];
      assert Next(s, e) == Some(states[j]);
      InvAlongRun(states, events, j - 1);
      InvAlongRun(states, events, j);
      if e.id == t {
        if e.Step? { UnlockEntered(s, t, e.choice); }
      } else {
        assert t in s.calls by { OnlyBegins(s, e, t); }
        OthersUntouched(s, e, t);
        FilledAtUnlock(states, events, j - 1, t);
        NotClearedByOther(s, e, t);
      }
    }
  }

  lemma {:induction false} OnlyBegins(s: State, e: Event, t: CallId)
    requires Next(s, e).Some? && t in Next(s, e).value.calls && e.id != t
    ensures t in s.calls
  {
  }

  lemma {:induction false} UnlockEntered(s: State, t: CallId, c: Choice)
    requires t in s.calls && CallOk(s, t) && Move(s, t, c).Some?
    requires Move(s, t, c).value.calls[t].pc == InDetails(DetailsUnlock)
    ensures Move(s, t, c).value.details.Some?
  {
  }

  /** Details are cleared under the details lock, which `t` has. */
  lemma {:induction false} NotClearedByOther(s: State, e: Event, t: CallId)
    requires Inv(s) && Next(s, e).Some? && t in s.calls && HoldsDetails(s.calls[t]) && e.id != t && s.details.Some?
    ensures Next(s, e).value.details.Some?
  {
    DetailsChange(s, e);
    assert CallOk(s, t);
    if e.id in s.calls { assert CallOk(s, e.id); }
  }

  /** The same for getAvailableAppDetails and `appDetails`. */
  lemma {:induction false} DetailsNullExactly(states: seq<State>, events: seq<Event>, i: nat, j: nat, t: CallId)
    returns (r: nat, q: nat)
    requires IsRun(states, events) && i < j <= |events| && events[i] == Begin(t, GetDetails)
    requires t in states[j].calls && states[j].calls[t].pc.Done? && states[j].calls[t].pc.outcome != Threw
    ensures i < r < q < j && EntersDetailsReturn(states[r], events[r], t, states[r+1])
    ensures Returns(states[q], events[q], t, InDetails(DetailsReturn))
    ensures states[j].calls[t].pc.outcome == AppDetails(states[q].details)
    ensures states[j].calls[t].pc.outcome == AppDetails(None) <==> DetailsClearedSince(states, events, r + 1, q)
  {
    q := LastStep(states, events, i, j, t, GetDetails);
    CallStays(states, events, i, q, t, GetDetails);
    assert Next(states[q], events[q]) == Some(states[q+1]);
    InvAlongRun(states, events, q);
    StepToDone(states[q], t, events[q].choice);
    r := LastStep(states, events, i, q, t, GetDetails);
    assert Next(states[r], events[r]) == Some(states[r+1]);
    if states[r].calls[t].pc == InDetails(DetailsUnlock) { FilledAtUnlock(states, events, r, t); }
    StepToDetailsReturn(states[r], t, events[r].choice);
    DetailsEmptyExactly(states, events, r + 1, q);
  }

  // ---------------------------------------------------------------- when a call throws

  /** The step is one at which an initialisation of `t` fails. */
  predicate FailsInit(s: State, e: Event, t: CallId, s': State) {
    && e.Step? && e.id == t && t in s.calls && t in s'.calls
    && s.calls[t].pc.InInit? && s'.calls[t].pc == InRuntimes(RuntimesThrow)
  }

  ghost predicate InitFailed(states: seq<State>, events: seq<Event>, i: nat, j: nat, t: CallId)
    requires |states| == |events| + 1 && j <= |events|
  {
    exists k :: i < k < j && FailsInit(states[k], events[k], t, states[k+1])
  }

  predicate Throwing(pc: Pc) {
    pc == InRuntimes(RuntimesThrow) || pc == InDetails(DetailsThrow) || pc == Done(Threw)
  }

  lemma {:induction false} ThrowingStep(s: State, t: CallId, c: Choice)
    requires t in s.calls && CallOk(s, t) && Move(s, t, c).Some?
      && (s.calls[t].op.GetDetails? || s.calls[t].op.GetRuntimes?)
    ensures
      var s' := Move(s, t, c).value;
      t in s'.calls && (Throwing(s'.calls[t].pc) <==> Throwing(s.calls[t].pc) || FailsInit(s, Step(t, c), t, s'))
  {
  }

  /** A call that reads a cache throws, or is about to, exactly if an initialisation of its own has failed. */
  lemma {:induction false} ThrowsExactly(states: seq<State>, events: seq<Event>, i: nat, j: nat, t: CallId,
                                         op: Operation)
    requires IsRun(states, events) && i < j <= |events| && events[i] == Begin(t, op)
    requires op == GetDetails || op == GetRuntimes
    ensures t in states[j].calls
    ensures Throwing(states[j].calls[t].pc) <==> InitFailed(states, events, i, j, t)
    decreases j
  {
    var s, e := states[j-1], events[j-1];
    assert Next(s, e) == Some(states[j]);
    if i + 1 < j {
      ThrowsExactly(states, events, i, j - 1, t, op);
      CallStays(states, events, i, j - 1, t, op);
      InvAlongRun(states, events, j - 1);
      if e.id == t {
        ThrowingStep(s, t, e.choice);
      } else {
        OthersUntouched(s, e, t);
      }
      assert FailsInit(s, e, t, states[j]) ==> FailsInit(states[j-1], events[j-1], t, states[j-1+1]);
    }
  }

  /**
   What a finished call that reads a cache gives, if `failed` says whether an initialisation of its
   own has failed.
   */
  predicate GivesMap(op: Operation, failed: bool, o: Outcome) {
    if failed then o == Threw
    else if op == GetRuntimes then o.Runtimes? && o.runtimes.Some?
    else o.AppDetails? && o.details.Some?
  }

  /**
   A call during which its cache is not cleared returns a map, unless an initialisation of its own
   fails: then it throws.
   */
  lemma {:induction false} NonNullWithoutReset(states: seq<State>, events: seq<Event>, i: nat, j: nat, t: CallId,
                                               op: Operation)
    requires IsRun(states, events) && i < j <= |events| && events[i] == Begin(t, op)
    requires op == GetRuntimes || op == GetDetails
    requires if op == GetRuntimes then NoClear(states, events, i, j) else NoDetailsClear(states, events, i, j)
    ensures t in states[j].calls
    ensures states[j].calls[t].pc.Done? ==>
      GivesMap(op, InitFailed(states, events, i, j, t), states[j].calls[t].pc.outcome)
  {
    ThrowsExactly(states, events, i, j, t, op);
    if states[j].calls[t].pc.Done? && states[j].calls[t].pc.outcome != Threw {
      if op == GetRuntimes {
        var r, q := RuntimesNullExactly(states, events, i, j, t);
      } else {
        var r, q := DetailsNullExactly(states, events, i, j, t);
      }
    }
  }

  // ---------------------------------------------------------------- when a task has finished

  predicate PastAppsClear(pc: Pc) {
    || pc == InReset(ResetDetails) || pc == InReset(ResetUnlockDetails) || pc == InReset(ResetUnlockApps)
    || pc == Done(Finished)
  }

  predicate PastDetailsClear(pc: Pc) {
    pc == InReset(ResetUnlockDetails) || pc == InReset(ResetUnlockApps) || pc == Done(Finished)
  }

  lemma {:induction false} ClearingStep(s: State, t: CallId, c: Choice)
    requires t in s.calls && Move(s, t, c).Some? && t in Move(s, t, c).value.calls
    ensures PastAppsClear(Move(s, t, c).value.calls[t].pc) ==> PastAppsClear(s.calls[t].pc) || ClearsApps(s, Step(t, c))
    ensures PastDetailsClear(Move(s, t, c).value.calls[t].pc) ==>
      PastDetailsClear(s.calls[t].pc) || ClearsDetails(s, Step(t, c))
    ensures PastAppsClear(s.calls[t].pc) ==> Move(s, t, c).value.repo == s.repo
  {
  }

  /** The k-th step is one of `t` that clears `apps`, after which `t` changes the repository no more. */
  ghost predicate ClearsForGood(states: seq<State>, events: seq<Event>, k: nat, j: nat, t: CallId)
    requires |states| == |events| + 1 && j <= |events|
  {
    && k < j && events[k].id == t && ClearsApps(states[k], events[k])
    && forall l :: k < l < j && events[l].id == t ==> states[l+1].repo == states[l].repo
  }

  ghost predicate HasCleared(states: seq<State>, events: seq<Event>, i: nat, j: nat, t: CallId)
    requires |states| == |events| + 1 && j <= |events|
  {
    exists k :: i < k && ClearsForGood(states, events, k, j, t)
  }

  ghost predicate HasClearedDetails(states: seq<State>, events: seq<Event>, i: nat, j: nat, t: CallId)
    requires |states| == |events| + 1 && j <= |events|
  {
    exists k :: i < k < j && events[k].id == t && ClearsDetails(states[k], events[k])
  }

  lemma {:induction false} HasClearedNext(states: seq<State>, events: seq<Event>, i: nat, m: nat, j: nat, t: CallId)
    requires |states| == |events| + 1 && i < m && j == m + 1 <= |events|
    ensures events[m].id == t && ClearsApps(states[m], events[m]) ==> HasCleared(states, events, i, j, t)
    ensures HasCleared(states, events, i, m, t) && (events[m].id == t ==> states[j].repo == states[m].repo) ==>
      HasCleared(states, events, i, j, t)
  {
    if events[m].id == t && ClearsApps(states[m], events[m]) { assert ClearsForGood(states, events, m, j, t); }
    if k :| i < k && ClearsForGood(states, events, k, m, t) {
      if events[m].id == t ==> states[j].repo == states[m].repo { assert ClearsForGood(states, events, k, j, t); }
    }
  }

  /** How one step bears on whether `t` is past its clears. */
  lemma {:induction false} PastClearStep(states: seq<State>, events: seq<Event>, m: nat, j: nat, t: CallId)
    requires IsRun(states, events) && j == m + 1 <= |events| && t in states[m].calls && t in states[j].calls
    ensures PastAppsClear(states[j].calls[t].pc) ==>
      || (events[m].id == t && ClearsApps(states[m], events[m]))
      || (PastAppsClear(states[m].calls[t].pc) && (events[m].id == t ==> states[j].repo == states[m].repo))
    ensures PastDetailsClear(states[j].calls[t].pc) ==>
      || (events[m].id == t && ClearsDetails(states[m], events[m]))
      || PastDetailsClear(states[m].calls[t].pc)
  {
    assert Next(states[m], events[m]) == Some(states[j]);
    if events[m].id == t {
      OwnStep(states[m], events[m], t);
      ClearingStep(states[m], t, events[m].choice);
    } else {
      OthersUntouched(states[m], events[m], t);
    }
  }

  lemma {:induction false} PastClearHasCleared(states: seq<State>, events: seq<Event>, i: nat, j: nat, t: CallId,
                                               op: Operation)
    requires IsRun(states, events) && i < j <= |events| && events[i] == Begin(t, op)
    ensures t in states[j].calls
    ensures PastAppsClear(states[j].calls[t].pc) ==> HasCleared(states, events, i, j, t)
    ensures PastDetailsClear(states[j].calls[t].pc) ==> HasClearedDetails(states, events, i, j, t)
    decreases j
  {
    CallStays(states, events, i, j, t, op);
    if j == i + 1 {
      CallStarts(states, events, i, t, op);
    } else {
      var m: nat :| j == m + 1;
      PastClearHasCleared(states, events, i, m, t, op);
      PastClearStep(states, events, m, j, t);
      HasClearedNext(states, events, i, m, j, t);
    }
  }

  /**
   An install, an uninstall or a refresh that finishes has cleared both caches, the runtime
   cache after its last change of the repository.
   */
  lemma {:induction false} FinishedHasCleared(states: seq<State>, events: seq<Event>, i: nat, j: nat, t: CallId,
                                              op: Operation)
    requires IsRun(states, events) && i < j <= |events| && events[i] == Begin(t, op)
    requires t in states[j].calls && states[j].calls[t].pc == Done(Finished)
    ensures HasCleared(states, events, i, j, t) && HasClearedDetails(states, events, i, j, t)
  {
    PastClearHasCleared(states, events, i, j, t, op);
  }

  // ---------------------------------------------------------------- two runs

  lemma {:induction false} ReachInitial(s: State)
    requires Initial(s)
    ensures Reachable(s)
  {
    assert IsRun([s], []);
  }

  lemma {:induction false} ReachNext(s: State, e: Event) returns (s': State)
    requires Reachable(s) && Next(s, e).Some?
    ensures Next(s, e) == Some(s') && Reachable(s')
  {
    s' := Next(s, e).value;
    var states, events :| IsRun(states, events) && states[|events|] == s;
    var states', events' := states + [s'], events + [e];
    assert IsRun(states', events') && states'[|events'|] == s';
  }

  function EmptyState(): State {
    State({}, map[], None, None, None, None, map[])
  }

  /**
   The circular wait is reachable: with an empty cache, a refresh takes the apps lock just before a
   details call wants it.
   */
  lemma {:induction false} CircularWaitReachable() returns (s: State)
    ensures Reachable(s) && CircularWait(s, 0, 1) && Stuck(s)
  {
    s := EmptyState();
    ReachInitial(s);
    s := ReachNext(s, Begin(0, GetDetails));
    s := ReachNext(s, Step(0, Go));
    s := ReachNext(s, Step(0, Go));
    s := ReachNext(s, Step(0, Go));
    s := ReachNext(s, Step(0, Go));
    assert s.calls[0].pc == InRuntimes(RuntimesLock);
    s := ReachNext(s, Begin(1, Refresh));
    s := ReachNext(s, Step(1, Go));
    assert CircularWait(s, 0, 1);
    StuckExactlyInCircularWait(s);
  }

  /** One getAvailableRuntimes call, alone, over an empty repository. */
  function Alone(pc: Pc, apps: Option<RuntimeMap>, appsLock: Option<CallId>): State {
    EmptyState().(apps := apps, appsLock := appsLock, calls := map[0 := Call(GetRuntimes, pc, false)])
  }

  lemma {:induction false} ListingReachable()
    ensures Reachable(Alone(InInit(ListDirs), None, Some(0)))
  {
    var s := EmptyState();
    ReachInitial(s);
    s := ReachNext(s, Begin(0, GetRuntimes));
    s := ReachNext(s, Step(0, Go));
    s := ReachNext(s, Step(0, Go));
    s := ReachNext(s, Step(0, Go));
    assert s == Alone(InInit(ListDirs), None, Some(0));
  }

  lemma {:induction false} MergeReachable()
    ensures Reachable(Alone(InInit(Merge([], [])), None, Some(0)))
  {
    ListingReachable();
    var s := ReachNext(Alone(InInit(ListDirs), None, Some(0)), Step(0, Order([])));
    s := ReachNext(s, Step(0, Go));
    s := ReachNext(s, Step(0, Go));
    assert s == Alone(InInit(Merge([], [])), None, Some(0));
  }

  lemma {:induction false} FilledReachable()
    ensures Reachable(Alone(InRuntimes(RuntimesReturn), Some(map[]), None))
  {
    MergeReachable();
    var s := ReachNext(Alone(InInit(Merge([], [])), None, Some(0)), Step(0, Order([])));
    s := ReachNext(s, Step(0, Go));
    s := ReachNext(s, Step(0, Go));
    assert s == Alone(InRuntimes(RuntimesReturn), Some(map[]), None);
  }

  /** A call that has just filled the cache still returns null when a reset slips in before its last read. */
  lemma {:induction false} NullReachable() returns (s: State)
    ensures Reachable(s) && 0 in s.calls && s.calls[0].pc == Done(Runtimes(None))
  {
    FilledReachable();
    s := ReachNext(Alone(InRuntimes(RuntimesReturn), Some(map[]), None), Begin(1, Refresh));
    s := ReachNext(s, Step(1, Go));
    s := ReachNext(s, Step(1, Go));
    s := ReachNext(s, Step(1, Go));
    assert s.apps.None? && s.calls[0].pc == InRuntimes(RuntimesReturn);
    s := ReachNext(s, Step(0, Go));
  }
}

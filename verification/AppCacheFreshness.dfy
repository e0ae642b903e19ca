/**
 Freshness: unless the repository has changed since the runtime cache was last cleared, a
 filled cache is what initAvailableRuntimes would compute now.
 */
module AppCacheFreshness {
  import opened Wrappers
  import opened AppRuntimes
  import opened AppCache
  import opened AppCacheInvariants
  import ParentMerging

  /** What an initialisation has read so far agrees with the repository as it is now. */
  ghost predicate UpToDate(repo: Repository, classpath: set<string>, pc: InitPc) {
    match pc
    case ListDirs => true
    case ReadMetadata(dirs, i, loaded) =>
      Lists(dirs, repo.Keys) && i <= |dirs| && loaded == FindActive(repo, dirs[..i])
    case ResolveVersion(dirs, i, loaded) =>
      Lists(dirs, repo.Keys) && i < |dirs| && loaded == FindActive(repo, dirs[..i])
    case ReadManifest(dirs, i, loaded, v) =>
      && Lists(dirs, repo.Keys) && i < |dirs| && loaded == FindActive(repo, dirs[..i])
      && ActiveVersion(repo, dirs[i]) == Some(v)
    case LoadPlugin(dirs, j, loaded) =>
      && Lists(dirs, repo.Keys) && j <= |loaded| && loaded == FindActive(repo, dirs)
      && (forall k :: 0 <= k < j ==> PluginLoads(repo, classpath, loaded[k]))
    case Merge(dirs, loaded) =>
      Lists(dirs, repo.Keys) && loaded == FindActive(repo, dirs) && PluginsLoad(repo, classpath, loaded)
  }

  ghost predicate PcFresh(s: State, pc: Pc) {
    match pc
    case InInit(init) => UpToDate(s.repo, s.classpath, init)
    case InRuntimes(runtimes) => runtimes.Publish? ==> IsFresh(s.repo, s.classpath, runtimes.result)
    case _ => true
  }

  /** A filled cache is fresh, and so is everything that calls have read or are about to publish. */
  ghost predicate Fresh(s: State) {
    && (s.apps.Some? ==> IsFresh(s.repo, s.classpath, s.apps.value))
    && forall t :: t in s.calls ==> PcFresh(s, s.calls[t].pc)
  }

  /** One turn of the findActive loop. */
  lemma {:induction false} FindActiveNext(repo: Repository, dirs: seq<Name>, i: nat)
    requires i < |dirs|
    ensures FindActive(repo, dirs[..i+1]) == FindActive(repo, dirs[..i]) + LoadActive(repo, dirs[i])
  {
    assert dirs[..i+1][..i] == dirs[..i];
  }

  /** Going on to the next directory with what this one adds. */
  lemma {:induction false} ScanOn(s: State, dirs: seq<Name>, i: nat, loaded: seq<Manifest>, more: seq<Manifest>)
    requires UpToDate(s.repo, s.classpath, ReadMetadata(dirs, i, loaded)) && i < |dirs|
    requires more == LoadActive(s.repo, dirs[i])
    ensures UpToDate(s.repo, s.classpath, ReadMetadata(dirs, i + 1, loaded + more))
    ensures more == [] ==> loaded + more == loaded
  {
    FindActiveNext(s.repo, dirs, i);
  }

  lemma {:induction false} ScanDone(s: State, dirs: seq<Name>, i: nat, loaded: seq<Manifest>)
    requires UpToDate(s.repo, s.classpath, ReadMetadata(dirs, i, loaded)) && i >= |dirs|
    ensures UpToDate(s.repo, s.classpath, LoadPlugin(dirs, 0, loaded))
  {
    assert dirs[..i] == dirs;
  }

  lemma {:induction false} MergeIsFresh(s: State, dirs: seq<Name>, loaded: seq<Manifest>, order: seq<Name>)
    requires UpToDate(s.repo, s.classpath, Merge(dirs, loaded)) && Lists(order, ByName(loaded).Keys)
    requires MergeParents(ByName(loaded), order).Some?
    ensures IsFresh(s.repo, s.classpath, MergeParents(ByName(loaded), order).value)
  {
    assert Compute(s.repo, s.classpath, dirs, order) == MergeParents(ByName(loaded), order);
  }

  lemma {:induction false} MetadataStaysFresh(s: State, dirs: seq<Name>, i: nat, loaded: seq<Manifest>, c: Choice)
    requires UpToDate(s.repo, s.classpath, ReadMetadata(dirs, i, loaded))
    requires NextInInit(s, ReadMetadata(dirs, i, loaded), c).Some?
    ensures PcFresh(s, NextInInit(s, ReadMetadata(dirs, i, loaded), c).value)
  {
    if i >= |dirs| {
      ScanDone(s, dirs, i, loaded);
    } else if !IsActive(s.repo, dirs[i]) {
      ScanOn(s, dirs, i, loaded, []);
    }
  }

  lemma {:induction false} VersionStaysFresh(s: State, dirs: seq<Name>, i: nat, loaded: seq<Manifest>, c: Choice)
    requires UpToDate(s.repo, s.classpath, ResolveVersion(dirs, i, loaded))
    requires NextInInit(s, ResolveVersion(dirs, i, loaded), c).Some?
    ensures PcFresh(s, NextInInit(s, ResolveVersion(dirs, i, loaded), c).value)
  {
    if !IsActive(s.repo, dirs[i]) { ScanOn(s, dirs, i, loaded, []); }
  }

  lemma {:induction false} ManifestStaysFresh(s: State, dirs: seq<Name>, i: nat, loaded: seq<Manifest>, v: Version,
                                              c: Choice)
    requires UpToDate(s.repo, s.classpath, ReadManifest(dirs, i, loaded, v))
    requires NextInInit(s, ReadManifest(dirs, i, loaded, v), c).Some?
    ensures PcFresh(s, NextInInit(s, ReadManifest(dirs, i, loaded, v), c).value)
  {
    var m := LoadManifest(s.repo, dirs[i], v);
    var more := if m.None? then [] else [m.value];
    assert LoadActive(s.repo, dirs[i]) == more;
    ScanOn(s, dirs, i, loaded, more);
    assert NextInInit(s, ReadManifest(dirs, i, loaded, v), c).value == InInit(ReadMetadata(dirs, i + 1, loaded + more));
  }

  lemma {:induction false} ListStaysFresh(s: State, c: Choice)
    requires NextInInit(s, ListDirs, c).Some?
    ensures PcFresh(s, NextInInit(s, ListDirs, c).value)
  {
    if c.Order? { assert c.order[..0] == []; }
  }

  lemma {:induction false} PluginStaysFresh(s: State, dirs: seq<Name>, j: nat, loaded: seq<Manifest>, c: Choice)
    requires UpToDate(s.repo, s.classpath, LoadPlugin(dirs, j, loaded))
    requires NextInInit(s, LoadPlugin(dirs, j, loaded), c).Some?
    ensures PcFresh(s, NextInInit(s, LoadPlugin(dirs, j, loaded), c).value)
  {
  }

  /** A step of an initialisation keeps it up to date, and what it publishes in the end is fresh. */
  lemma {:induction false} InitStaysFresh(s: State, pc: InitPc, c: Choice)
    requires UpToDate(s.repo, s.classpath, pc) && NextInInit(s, pc, c).Some?
    ensures PcFresh(s, NextInInit(s, pc, c).value)
  {
    match pc
    case ListDirs => ListStaysFresh(s, c);
    case LoadPlugin(dirs, j, loaded) => PluginStaysFresh(s, dirs, j, loaded, c);
    case Merge(dirs, loaded) =>
      if MergeParents(ByName(loaded), c.order).Some? { MergeIsFresh(s, dirs, loaded, c.order); }
    case ReadMetadata(dirs, i, loaded) => MetadataStaysFresh(s, dirs, i, loaded, c);
    case ResolveVersion(dirs, i, loaded) => VersionStaysFresh(s, dirs, i, loaded, c);
    case ReadManifest(dirs, i, loaded, v) => ManifestStaysFresh(s, dirs, i, loaded, v, c);
  }

  /** A step that leaves the repository alone and clears nothing. */
  lemma {:induction false} QuietStep(s: State, s': State, t: CallId)
    requires Fresh(s) && Touches(s, s', t)
    requires s'.repo == s.repo && s'.classpath == s.classpath
    requires PcFresh(s, s'.calls[t].pc)
    requires s'.apps.Some? ==> IsFresh(s.repo, s.classpath, s'.apps.value)
    ensures Fresh(s')
  {
    forall x | x in s'.calls ensures PcFresh(s', s'.calls[x].pc) {
      assert PcFresh(s, s.calls[x].pc);
    }
  }

  /**
   Clearing the cache makes everything fresh, whatever has changed before and whoever changed
   it: it needs the apps lock, so no initialisation that read the old repository is under way.
   */
  lemma {:induction false} ClearIsFresh(s: State, t: CallId)
    requires Inv(s) && t in s.calls && s.calls[t].pc == InReset(ResetApps)
    ensures Fresh(StepReset(s, t, ResetApps).value)
  {
    var s' := StepReset(s, t, ResetApps).value;
    assert CallOk(s, t);
    forall x | x in s'.calls ensures PcFresh(s', s'.calls[x].pc) {
      assert CallOk(s, x);
    }
  }

  lemma {:induction false} TaskStaysFresh(s: State, t: CallId, pc: TaskPc, c: Choice)
    requires Inv(s) && Fresh(s) && t in s.calls && s.calls[t].pc == InTask(pc) && StepTask(s, t, pc, c).Some?
    ensures StepTask(s, t, pc, c).value.repo == s.repo ==> Fresh(StepTask(s, t, pc, c).value)
  {
    assert CallOk(s, t);
    TaskKeeps(s, t, pc, c);
    if StepTask(s, t, pc, c).value.repo == s.repo { QuietStep(s, StepTask(s, t, pc, c).value, t); }
  }

  lemma {:induction false} ResetStaysFresh(s: State, t: CallId, pc: ResetPc)
    requires Inv(s) && Fresh(s) && t in s.calls && s.calls[t].pc == InReset(pc) && StepReset(s, t, pc).Some?
    ensures Fresh(StepReset(s, t, pc).value)
  {
    assert CallOk(s, t);
    ResetKeeps(s, t, pc);
    if pc == ResetApps { ClearIsFresh(s, t); } else { QuietStep(s, StepReset(s, t, pc).value, t); }
  }

  lemma {:induction false} DetailsStayFresh(s: State, t: CallId, pc: DetailsPc)
    requires Inv(s) && Fresh(s) && t in s.calls && s.calls[t].pc == InDetails(pc) && StepDetails(s, t, pc).Some?
    ensures Fresh(StepDetails(s, t, pc).value)
  {
    assert CallOk(s, t);
    DetailsKeeps(s, t, pc);
    QuietStep(s, StepDetails(s, t, pc).value, t);
  }

  lemma {:induction false} RuntimesStayFresh(s: State, t: CallId, pc: RuntimesPc)
    requires Inv(s) && Fresh(s) && t in s.calls && s.calls[t].pc == InRuntimes(pc) && StepRuntimes(s, t, pc).Some?
    ensures Fresh(StepRuntimes(s, t, pc).value)
  {
    assert CallOk(s, t) && PcFresh(s, s.calls[t].pc);
    RuntimesKeeps(s, t, pc);
    QuietStep(s, StepRuntimes(s, t, pc).value, t);
  }

  lemma {:induction false} InitStepStaysFresh(s: State, t: CallId, pc: InitPc, c: Choice)
    requires Inv(s) && Fresh(s) && t in s.calls && s.calls[t].pc == InInit(pc) && StepInit(s, t, pc, c).Some?
    ensures Fresh(StepInit(s, t, pc, c).value)
  {
    assert CallOk(s, t) && PcFresh(s, s.calls[t].pc);
    InitKeeps(s, t, pc, c);
    InitStaysFresh(s, pc, c);
    QuietStep(s, StepInit(s, t, pc, c).value, t);
  }

  lemma {:induction false} FreshStep(s: State, t: CallId, c: Choice)
    requires Inv(s) && Fresh(s) && t in s.calls && Move(s, t, c).Some?
    ensures Move(s, t, c).value.repo == s.repo ==> Fresh(Move(s, t, c).value)
  {
    match s.calls[t].pc
    case InTask(pc) => TaskStaysFresh(s, t, pc, c);
    case InReset(pc) => ResetStaysFresh(s, t, pc);
    case InDetails(pc) => DetailsStayFresh(s, t, pc);
    case InRuntimes(pc) => RuntimesStayFresh(s, t, pc);
    case InInit(pc) => InitStepStaysFresh(s, t, pc, c);
  }

  /** Fresh stays fresh while the repository stays as it is. */
  lemma {:induction false} FreshNext(s: State, e: Event)
    requires Inv(s) && Fresh(s) && Next(s, e).Some? && Next(s, e).value.repo == s.repo
    ensures Fresh(Next(s, e).value)
  {
    match e
    case Begin(t, _) =>
      var s' := Next(s, e).value;
      forall x | x in s'.calls ensures PcFresh(s', s'.calls[x].pc) {
        if x != t { assert PcFresh(s, s.calls[x].pc); }
      }
    case Step(t, c) => FreshStep(s, t, c);
  }

  /** From the i-th state on, which is the first or follows a clear by some call, the repository stays as it is. */
  ghost predicate UnchangedSinceClear(states: seq<State>, events: seq<Event>, i: nat, j: nat)
    requires |states| == |events| + 1
  {
    && i <= j <= |events|
    && (i == 0 || ClearsApps(states[i-1], events[i-1]))
    && forall k :: i <= k < j ==> states[k+1].repo == states[k].repo
  }

  /**
   In every interleaving: if no step has changed the repository since some call last cleared
   the runtime cache, or ever, then a filled cache equals a fresh computation over the
   repository, and every initialisation under way has read what is there now.
   */
  lemma {:induction false} FreshSinceLastClear(states: seq<State>, events: seq<Event>, i: nat, j: nat)
    requires IsRun(states, events) && UnchangedSinceClear(states, events, i, j)
    ensures Fresh(states[j])
    decreases j
  {
    if i < j {
      FreshSinceLastClear(states, events, i, j - 1);
      InvAlongRun(states, events, j - 1);
      assert Next(states[j-1], events[j-1]) == Some(states[j]);
      FreshNext(states[j-1], events[j-1]);
    } else if j > 0 {
      InvAlongRun(states, events, j - 1);
      assert Next(states[j-1], events[j-1]) == Some(states[j]);
      ClearIsFresh(states[j-1], events[j-1].id);
    }
  }

  // ---------------------------------------------------------------- when every task has reset

  /** No call has changed the repository without yet clearing the runtime cache. */
  ghost predicate Clean(s: State) {
    forall t :: t in s.calls ==> !s.calls[t].dirty
  }

  /** Only a call that becomes dirty changes the repository, and only a clear makes one clean again. */
  lemma {:induction false} CleanStep(s: State, t: CallId, c: Choice)
    requires t in s.calls && Move(s, t, c).Some? && Clean(Move(s, t, c).value)
    requires !ClearsApps(s, Step(t, c))
    ensures Clean(s) && Move(s, t, c).value.repo == s.repo
  {
    var s' := Move(s, t, c).value;
    assert !s'.calls[t].dirty;
    OnlyTasksDirty(s, t, c);
    forall x | x in s.calls ensures !s.calls[x].dirty { assert !s'.calls[x].dirty; }
  }

  lemma {:induction false} OnlyTasksDirty(s: State, t: CallId, c: Choice)
    requires t in s.calls && Move(s, t, c).Some?
    ensures var s' := Move(s, t, c).value;
      && s'.calls.Keys == s.calls.Keys && (forall x :: x in s.calls && x != t ==> s'.calls[x] == s.calls[x])
      && (s'.calls[t].dirty || ClearsApps(s, Step(t, c)) || (!s.calls[t].dirty && s'.repo == s.repo))
  {
  }

  /** In a clean state of a run the last change of the repository lies before a clear. */
  lemma {:induction false} CleanIsUnchanged(states: seq<State>, events: seq<Event>, j: nat) returns (i: nat)
    requires IsRun(states, events) && j <= |events| && Clean(states[j])
    ensures UnchangedSinceClear(states, events, i, j)
  {
    i := j;
    if j > 0 && !ClearsApps(states[j-1], events[j-1]) {
      var s, s' := states[j-1], states[j];
      assert Next(s, events[j-1]) == Some(s');
      match events[j-1] {
        case Begin(t, op) => forall x | x in s.calls ensures !s.calls[x].dirty { assert !s'.calls[x].dirty; }
        case Step(t, c) => CleanStep(s, t, c);
      }
      i := CleanIsUnchanged(states, events, j - 1);
    }
  }

  /**
   So in every interleaving: with no change of the repository still to be followed by its
   reset, a filled runtime cache equals a fresh computation over the repository, and a
   filled details cache is the projection of that same map.
   */
  lemma {:induction false} CacheIsFresh(s: State)
    requires Reachable(s) && Clean(s)
    ensures s.apps.Some? ==> IsFresh(s.repo, s.classpath, s.apps.value)
    ensures s.details.Some? && !BetweenTheClears(s) ==> exists m ::
      s.apps == Some(m) && IsFresh(s.repo, s.classpath, m) && s.details.value == Project(m)
  {
    var states, events :| IsRun(states, events) && states[|events|] == s;
    var i := CleanIsUnchanged(states, events, |events|);
    FreshSinceLastClear(states, events, i, |events|);
    InvAlongRun(states, events, |events|);
    if s.details.Some? && !BetweenTheClears(s) {
      var m := s.apps.value;
      assert s.apps == Some(m);
    }
  }

  /** When the fresh map is unique, a cache filled since the last clear, with no change since, is that map. */
  lemma {:induction false} CacheIsTheFreshMap(states: seq<State>, events: seq<Event>, i: nat, j: nat, m: RuntimeMap)
    requires IsRun(states, events) && UnchangedSinceClear(states, events, i, j) && states[j].apps.Some?
    requires ParentMerging.NamesMatchDirectories(states[j].repo)
    requires ParentMerging.NoGrandparents(ParentMerging.ActiveManifests(states[j].repo, states[j].repo.Keys))
    requires IsFresh(states[j].repo, states[j].classpath, m)
    ensures states[j].apps.value == m
  {
    FreshSinceLastClear(states, events, i, j);
    ParentMerging.FreshMapIsUnique(states[j].repo, states[j].classpath, states[j].apps.value, m);
  }

  /** The details cache follows the runtime cache, and the call made under the details lock never gets null. */
  lemma {:induction false} DetailsFollowRuntimes(s: State, t: CallId)
    requires Reachable(s) && t in s.calls
    ensures s.details.Some? && !BetweenTheClears(s) ==> s.apps.Some? && s.details.value == Project(s.apps.value)
    ensures s.calls[t].op.GetDetails? && s.calls[t].pc == InRuntimes(RuntimesReturn) ==> s.apps.Some?
    ensures s.calls[t].pc.InDetails? && s.calls[t].pc.details.DetailsFill? ==> s.calls[t].pc.details.from.Some?
  {
    InvReachable(s);
    assert CallOk(s, t);
  }
}

/**
 The runtime cache of AppDAO as a step protocol: any number of calls of
 getAvailableRuntimes, getAvailableAppDetails and of the install, uninstall and refresh
 operations run concurrently, one atomic step for each lock, each read or write of a cache
 reference and each access to the app repository. A call that waits for a lock, or has
 returned, has no step.
 */
module AppCache {
  import opened Wrappers
  import opened AppRuntimes

  type CallId = nat
  type DetailsMap = map<Name, Details>

  /** The loop of getAvailableAppDetails. */
  function Project(m: RuntimeMap): DetailsMap {
    map n | n in m :: m[n].details
  }

  datatype Operation =
    | GetDetails
    | GetRuntimes
    | Install(app: Name, version: Option<Version>)
    | Uninstall(app: Name)
    | Refresh

  datatype Outcome =
    | Runtimes(runtimes: Option<RuntimeMap>)   // None is a null reference
    | AppDetails(details: Option<DetailsMap>)
    | Finished
    | Threw

  /** Inside getAvailableAppDetails. */
  datatype DetailsPc =
    | DetailsCheck
    | DetailsLock
    | DetailsRecheck
    | DetailsFill(from: Option<RuntimeMap>)
    | DetailsUnlock
    | DetailsThrow
    | DetailsReturn

  /** Inside getAvailableRuntimes, called from outside or from getAvailableAppDetails. */
  datatype RuntimesPc =
    | RuntimesCheck
    | RuntimesLock
    | RuntimesRecheck
    | Publish(result: RuntimeMap)
    | RuntimesUnlock
    | RuntimesThrow
    | RuntimesReturn

  /** Inside initAvailableRuntimes: `dirs` is the listing taken, `loaded` the apps loaded so far. */
  datatype InitPc =
    | ListDirs
    | ReadMetadata(dirs: seq<Name>, next: nat, loaded: seq<Manifest>)
    | ResolveVersion(dirs: seq<Name>, next: nat, loaded: seq<Manifest>)
    | ReadManifest(dirs: seq<Name>, next: nat, loaded: seq<Manifest>, version: Version)
    | LoadPlugin(dirs: seq<Name>, next: nat, loaded: seq<Manifest>)
    | Merge(dirs: seq<Name>, loaded: seq<Manifest>)

  /** At the end of an install or uninstall task. */
  datatype TaskPc = ChangeRepository | InstallWritten

  /** Inside resetApps. */
  datatype ResetPc =
    | ResetLockApps
    | ResetLockDetails
    | ResetApps
    | ResetDetails
    | ResetUnlockDetails
    | ResetUnlockApps

  /** Where a call is. */
  datatype Pc =
    | InDetails(details: DetailsPc)
    | InRuntimes(runtimes: RuntimesPc)
    | InInit(init: InitPc)
    | InTask(task: TaskPc)
    | InReset(reset: ResetPc)
    | Done(outcome: Outcome)

  /** `dirty`: the call has changed the repository and not yet cleared the runtime cache. */
  datatype Call = Call(op: Operation, pc: Pc, dirty: bool)

  datatype State = State(
    classpath: set<string>,
    repo: Repository,
    apps: Option<RuntimeMap>,
    details: Option<DetailsMap>,
    appsLock: Option<CallId>,
    detailsLock: Option<CallId>,
    calls: map<CallId, Call>)

  /** Parts of an app's directory that deleteQuietly removes one at a time, in any order. */
  datatype Removal = RemoveMetadata | RemoveVersion(version: Version) | RemovePluginJar | RemoveDir

  /** What the program does not decide: hash and listing orders, failures of I/O, the order of deletion. */
  datatype Choice = Go | Fail | Order(order: seq<Name>) | Remove(part: Removal)

  datatype Event = Begin(id: CallId, op: Operation) | Step(id: CallId, choice: Choice)

  ghost predicate Initial(s: State) {
    s.apps.None? && s.details.None? && s.appsLock.None? && s.detailsLock.None? && s.calls == map[]
  }

  function Start(op: Operation): Pc {
    match op
    case GetDetails => InDetails(DetailsCheck)
    case GetRuntimes => InRuntimes(RuntimesCheck)
    case Install(_, _) => InTask(ChangeRepository)
    case Uninstall(_) => InTask(ChangeRepository)
    case Refresh => InReset(ResetLockApps)
  }

  // ---------------------------------------------------------------- state updates

  function At(s: State, t: CallId, pc: Pc): State
    requires t in s.calls
  {
    s.(calls := s.calls[t := s.calls[t].(pc := pc)])
  }

  function Cleaned(s: State, t: CallId): State
    requires t in s.calls
  {
    s.(calls := s.calls[t := s.calls[t].(dirty := false)])
  }

  function WriteRepo(s: State, t: CallId, repo: Repository): State
    requires t in s.calls
  {
    s.(repo := repo, calls := s.calls[t := s.calls[t].(dirty := true)])
  }

  // ---------------------------------------------------------------- getAvailableAppDetails

  ghost function StepDetails(s: State, t: CallId, pc: DetailsPc): Option<State>
    requires t in s.calls
  {
    match pc
    case DetailsCheck => Some(At(s, t, InDetails(if s.details.None? then DetailsLock else DetailsReturn)))
    case DetailsLock =>
      if s.detailsLock.None? then Some(At(s.(detailsLock := Some(t)), t, InDetails(DetailsRecheck))) else None
    case DetailsRecheck =>
      Some(At(s, t, if s.details.None? then InRuntimes(RuntimesCheck) else InDetails(DetailsUnlock)))
    case DetailsFill(from) =>
      // a null map from getAvailableRuntimes would be dereferenced here
      if from.None? then Some(At(s, t, InDetails(DetailsThrow)))
      else Some(At(s.(details := Some(Project(from.value))), t, InDetails(DetailsUnlock)))
    case DetailsUnlock => Some(At(s.(detailsLock := None), t, InDetails(DetailsReturn)))
    case DetailsThrow => Some(At(s.(detailsLock := None), t, Done(Threw)))
    case DetailsReturn => Some(At(s, t, Done(AppDetails(s.details))))
  }

  // ---------------------------------------------------------------- getAvailableRuntimes

  ghost function StepRuntimes(s: State, t: CallId, pc: RuntimesPc): Option<State>
    requires t in s.calls
  {
    var nested := s.calls[t].op.GetDetails?;
    match pc
    case RuntimesCheck => Some(At(s, t, InRuntimes(if s.apps.None? then RuntimesLock else RuntimesReturn)))
    case RuntimesLock =>
      if s.appsLock.None? then Some(At(s.(appsLock := Some(t)), t, InRuntimes(RuntimesRecheck))) else None
    case RuntimesRecheck => Some(At(s, t, if s.apps.None? then InInit(ListDirs) else InRuntimes(RuntimesUnlock)))
    case Publish(m) => Some(At(s.(apps := Some(m)), t, InRuntimes(RuntimesUnlock)))
    case RuntimesUnlock => Some(At(s.(appsLock := None), t, InRuntimes(RuntimesReturn)))
    case RuntimesThrow => Some(At(s.(appsLock := None), t, if nested then InDetails(DetailsThrow) else Done(Threw)))
    case RuntimesReturn => Some(At(s, t, if nested then InDetails(DetailsFill(s.apps)) else Done(Runtimes(s.apps))))
  }

  /**
   Where initAvailableRuntimes goes next; None if the choice does not fit. Every access to the
   repository may fail.
   */
  ghost function NextInInit(s: State, pc: InitPc, c: Choice): Option<Pc> {
    match pc
    case ListDirs =>
      if c == Fail then Some(InRuntimes(RuntimesThrow))
      else if c.Order? && Lists(c.order, s.repo.Keys) then Some(InInit(ReadMetadata(c.order, 0, [])))
      else None
    case ReadMetadata(dirs, i, loaded) =>
      if c == Fail then Some(InRuntimes(RuntimesThrow))
      else if c != Go then None
      else if i >= |dirs| then Some(InInit(LoadPlugin(dirs, 0, loaded)))
      else if IsActive(s.repo, dirs[i]) then Some(InInit(ResolveVersion(dirs, i, loaded)))
      else Some(InInit(ReadMetadata(dirs, i + 1, loaded)))
    case ResolveVersion(dirs, i, loaded) =>
      if c == Fail then Some(InRuntimes(RuntimesThrow))
      else if c != Go || i >= |dirs| then None
      else
        // the active version is read again, and may be gone by now
        var v := ActiveVersion(s.repo, dirs[i]);
        Some(InInit(if v.None? then ReadMetadata(dirs, i + 1, loaded) else ReadManifest(dirs, i, loaded, v.value)))
    case ReadManifest(dirs, i, loaded, v) =>
      if c != Go || i >= |dirs| then None
      else
        // a manifest that cannot be read gives a null app, which is skipped
        var m := LoadManifest(s.repo, dirs[i], v);
        Some(InInit(ReadMetadata(dirs, i + 1, if m.None? then loaded else loaded + [m.value])))
    case LoadPlugin(dirs, j, loaded) =>
      if c == Fail then Some(InRuntimes(RuntimesThrow))
      else if c != Go then None
      else if j >= |loaded| then Some(InInit(Merge(dirs, loaded)))
      else if PluginLoads(s.repo, s.classpath, loaded[j]) then Some(InInit(LoadPlugin(dirs, j + 1, loaded)))
      else Some(InRuntimes(RuntimesThrow))
    case Merge(dirs, loaded) =>
      var cache := ByName(loaded);
      if c.Order? && Lists(c.order, cache.Keys) then
        var m := MergeParents(cache, c.order);
        Some(InRuntimes(if m.None? then RuntimesThrow else Publish(m.value)))
      else None
  }

  ghost function StepInit(s: State, t: CallId, pc: InitPc, c: Choice): Option<State>
    requires t in s.calls
  {
    var next := NextInInit(s, pc, c);
    if next.None? then None else Some(At(s, t, next.value))
  }

  // ---------------------------------------------------------------- the tasks and resetApps

  /** `metadata.write(appLayout.getAppDir())` with the version of the install request. */
  function WriteMetadata(repo: Repository, app: Name, version: Option<Version>): Repository
    requires app in repo
  {
    repo[app := repo[app].(metadata := Some(Metadata(version)))]
  }

  function RemovePart(repo: Repository, app: Name, part: Removal): Repository {
    if app !in repo then repo else
    match part
    case RemoveMetadata => repo[app := repo[app].(metadata := None)]
    case RemoveVersion(v) => repo[app := repo[app].(versions := repo[app].versions - {v})]
    case RemovePluginJar => repo[app := repo[app].(pluginJar := None)]
    case RemoveDir => repo - {app}
  }

  ghost function StepTask(s: State, t: CallId, pc: TaskPc, c: Choice): Option<State>
    requires t in s.calls
  {
    match pc
    case ChangeRepository =>
      (match s.calls[t].op
       case Install(app, version) =>
         // without the app's directory the write fails and the task ends with an exception
         if c == Fail || (c == Go && app !in s.repo) then Some(At(s, t, Done(Threw)))
         else if c == Go then Some(At(WriteRepo(s, t, WriteMetadata(s.repo, app, version)), t, InTask(InstallWritten)))
         else None
       case Uninstall(app) =>
         if c.Remove? then Some(WriteRepo(s, t, RemovePart(s.repo, app, c.part)))
         else if c == Go then Some(At(s, t, InReset(ResetLockApps)))  // also when something could not be deleted
         else None
       case _ => None)
    case InstallWritten =>
      if c == Go then Some(At(s, t, InReset(ResetLockApps)))
      else if c == Fail then Some(At(s, t, Done(Threw)))
      else None
  }

  ghost function StepReset(s: State, t: CallId, pc: ResetPc): Option<State>
    requires t in s.calls
  {
    match pc
    case ResetLockApps =>
      if s.appsLock.None? then Some(At(s.(appsLock := Some(t)), t, InReset(ResetLockDetails))) else None
    case ResetLockDetails =>
      if s.detailsLock.None? then Some(At(s.(detailsLock := Some(t)), t, InReset(ResetApps))) else None
    case ResetApps => Some(At(Cleaned(s.(apps := None), t), t, InReset(ResetDetails)))
    case ResetDetails => Some(At(s.(details := None), t, InReset(ResetUnlockDetails)))
    case ResetUnlockDetails => Some(At(s.(detailsLock := None), t, InReset(ResetUnlockApps)))
    case ResetUnlockApps => Some(At(s.(appsLock := None), t, Done(Finished)))
  }

  // ---------------------------------------------------------------- runs

  /** The state after call `t` takes its next step with the choice `c`; None if it has no such step. */
  ghost function Move(s: State, t: CallId, c: Choice): Option<State>
    requires t in s.calls
  {
    match s.calls[t].pc
    case InDetails(pc) => if c == Go then StepDetails(s, t, pc) else None
    case InRuntimes(pc) => if c == Go then StepRuntimes(s, t, pc) else None
    case InInit(pc) => StepInit(s, t, pc, c)
    case InTask(pc) => StepTask(s, t, pc, c)
    case InReset(pc) => if c == Go then StepReset(s, t, pc) else None
    case Done(_) => None
  }

  ghost function Next(s: State, e: Event): Option<State> {
    match e
    case Begin(t, op) => if t in s.calls then None else Some(s.(calls := s.calls[t := Call(op, Start(op), false)]))
    case Step(t, c) => if t in s.calls then Move(s, t, c) else None
  }

  /** The step is the write of null to `apps` in resetApps. */
  predicate ClearsApps(s: State, e: Event) {
    e.Step? && e.id in s.calls && s.calls[e.id].pc == InReset(ResetApps)
  }

  /** `states[k+1]` follows from `states[k]` by `events[k]`, starting with empty caches. */
  ghost predicate IsRun(states: seq<State>, events: seq<Event>) {
    && |states| == |events| + 1
    && Initial(states[0])
    && forall k :: 0 <= k < |events| ==> Next(states[k], events[k]) == Some(states[k+1])
  }

  ghost predicate Reachable(s: State) {
    exists states, events :: IsRun(states, events) && states[|events|] == s
  }
}

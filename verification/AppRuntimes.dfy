/**
 The app repository on disk and the runtimes computed from it
 (AppDAO.findActive, AppDAO.initAvailableRuntimes, AppDAO.mergeParent).
 */
module AppRuntimes {
  import opened Wrappers

  type Name = string
  type Version = string

  /**
   The library merge of two detail records is kept symbolic, as the term that says what was
   merged; ParentMerging reads these terms under every merge function.
   */
  datatype Details = Declared(text: string) | Inheriting(own: Details, parent: Details)

  /** `manifest.getAuth()`, which may be null. */
  type Auth = Option<string>

  datatype Manifest = Manifest(name: Name, plugin: string, parent: Option<Name>, details: string, auth: Auth)

  datatype Runtime = Runtime(details: Details, auth: Auth)

  type RuntimeMap = map<Name, Runtime>

  /** Contents of one version directory; None is a manifest that cannot be loaded. */
  type VersionDir = Option<Manifest>

  datatype Metadata = Metadata(activeVersion: Option<Version>)

  datatype AppDir = AppDir(
    metadata: Option<Metadata>,
    versions: map<Version, VersionDir>,
    pluginJar: Option<set<string>>)

  type Repository = map<Name, AppDir>

  /** `AppMetadata.fromJson(appDir).isActive()`: a missing file counts as inactive. */
  predicate IsActive(repo: Repository, dir: Name) {
    ActiveVersion(repo, dir).Some?
  }

  /** `layout.getAppActiveVersionDir()`. */
  function ActiveVersion(repo: Repository, dir: Name): Option<Version> {
    if dir in repo && repo[dir].metadata.Some? then repo[dir].metadata.value.activeVersion else None
  }

  /** `AppManifest.load(versionDir)`, with failures turned into null as loadApp does. */
  function LoadManifest(repo: Repository, dir: Name, v: Version): Option<Manifest> {
    if dir in repo && v in repo[dir].versions then repo[dir].versions[v] else None
  }

  /** One turn of the findActive loop, read at a single instant. */
  function LoadActive(repo: Repository, dir: Name): (r: seq<Manifest>)
    ensures |r| <= 1
  {
    match ActiveVersion(repo, dir)
    case None => []
    case Some(v) =>
      match LoadManifest(repo, dir, v)
      case None => []
      case Some(m) => [m]
  }

  /** What findActive returns when the directories are listed in the order `dirs`. */
  function FindActive(repo: Repository, dirs: seq<Name>): seq<Manifest> {
    if dirs == [] then [] else FindActive(repo, dirs[..|dirs|-1]) + LoadActive(repo, dirs[|dirs|-1])
  }

  /** A directory listing: every directory once, in whatever order the file system gives. */
  ghost predicate Lists(order: seq<Name>, names: set<Name>) {
    && (forall n :: n in order <==> n in names)
    && (forall i, j :: 0 <= i < j < |order| ==> order[i] != order[j])
  }

  /** The plugin class is found in the app's jar, if there is one, or on the class path. */
  predicate PluginLoads(repo: Repository, classpath: set<string>, m: Manifest) {
    || m.plugin in classpath
    || (m.name in repo && repo[m.name].pluginJar.Some? && m.plugin in repo[m.name].pluginJar.value)
  }

  predicate PluginsLoad(repo: Repository, classpath: set<string>, loaded: seq<Manifest>) {
    forall i :: 0 <= i < |loaded| ==> PluginLoads(repo, classpath, loaded[i])
  }

  /** The `appCache` map after the first loop: a later manifest replaces an earlier one of the same name. */
  function ByName(loaded: seq<Manifest>): map<Name, Manifest> {
    if loaded == [] then map[]
    else ByName(loaded[..|loaded|-1])[loaded[|loaded|-1].name := loaded[|loaded|-1]]
  }

  function NewRuntime(m: Manifest): Runtime {
    Runtime(Declared(m.details), m.auth)
  }

  function NewRuntimes(cache: map<Name, Manifest>): RuntimeMap {
    map n | n in cache :: NewRuntime(cache[n])
  }

  function Merged(child: Runtime, parent: Runtime): Runtime {
    Runtime(Inheriting(child.details, parent.details), parent.auth)
  }

  /**
   One turn of the loop over `appCache.values()`: an app with a parent is merged with the
   current runtime of that parent. None is the NullPointerException that mergeParent throws
   when the parent is not among the runtimes.
   */
  function MergeOne(cache: map<Name, Manifest>, runtimes: RuntimeMap, n: Name): Option<RuntimeMap> {
    if n !in cache || n !in runtimes || cache[n].parent.None? then Some(runtimes)
    else
      var p := cache[n].parent.value;
      if p in runtimes then Some(runtimes[n := Merged(runtimes[n], runtimes[p])]) else None
  }

  /** The whole loop, visiting the apps in the order `order`. */
  function MergeParents(cache: map<Name, Manifest>, order: seq<Name>): (r: Option<RuntimeMap>)
    ensures r.Some? ==> r.value.Keys == cache.Keys
  {
    if order == [] then Some(NewRuntimes(cache))
    else
      var before := MergeParents(cache, order[..|order|-1]);
      if before.None? then None else MergeOne(cache, before.value, order[|order|-1])
  }

  /** The loop one turn further. */
  lemma {:induction false} MergeParentsNext(cache: map<Name, Manifest>, order: seq<Name>, k: nat)
    requires k < |order|
    ensures MergeParents(cache, order[..k+1]) ==
      if MergeParents(cache, order[..k]).None? then None
      else MergeOne(cache, MergeParents(cache, order[..k]).value, order[k])
  {
    assert order[..k+1][..k] == order[..k];
  }

  lemma {:induction false} ByNameNext(loaded: seq<Manifest>, k: nat)
    requires k < |loaded|
    ensures ByName(loaded[..k+1]) == ByName(loaded[..k])[loaded[k].name := loaded[k]]
  {
    assert loaded[..k+1][..k] == loaded[..k];
  }

  /** initAvailableRuntimes run at a single instant; None stands for the exception it throws. */
  function Compute(repo: Repository, classpath: set<string>, dirs: seq<Name>, order: seq<Name>): Option<RuntimeMap>
    requires Lists(order, ByName(FindActive(repo, dirs)).Keys)
  {
    var loaded := FindActive(repo, dirs);
    if PluginsLoad(repo, classpath, loaded) then MergeParents(ByName(loaded), order) else None
  }

  /** Some listing order and some hash order make initAvailableRuntimes return `m` on this repository. */
  ghost predicate IsFresh(repo: Repository, classpath: set<string>, m: RuntimeMap) {
    exists dirs, order ::
      && Lists(dirs, repo.Keys)
      && Lists(order, ByName(FindActive(repo, dirs)).Keys)
      && Compute(repo, classpath, dirs, order) == Some(m)
  }

  /** Every finite set of names can be listed. */
  lemma {:induction false} ListingExists(names: set<Name>) returns (order: seq<Name>)
    ensures Lists(order, names)
  {
    order := [];
    var rest := names;
    while rest != {}
      invariant rest <= names
      invariant Lists(order, names - rest)
      decreases rest
    {
      var n :| n in rest;
      order := order + [n];
      rest := rest - {n};
    }
    assert names - rest == names;
  }

  // ---------------------------------------------------------------- the code as written, in place

  class AppRuntime {
    var details: Details
    var authentication: Auth

    function Value(): Runtime reads this { Runtime(details, authentication) }

    constructor (m: Manifest)
      ensures Value() == NewRuntime(m)
    {
      details, authentication := Declared(m.details), m.auth;
    }
  }

  method MergeParent(app: AppRuntime, parent: AppRuntime)
    modifies app
    ensures app.Value() == Merged(old(app.Value()), old(parent.Value()))
  {
    app.details := Inheriting(app.details, parent.details);
    app.authentication := parent.authentication;
  }

  /** The heap objects hold the values of `spec`, one distinct object a name. */
  ghost predicate Represents(objects: map<Name, AppRuntime>, spec: RuntimeMap)
    reads set n | n in objects :: objects[n]
  {
    && objects.Keys == spec.Keys
    && (forall n :: n in objects ==> objects[n].Value() == spec[n])
    && (forall a, b :: a in objects && b in objects && a != b ==> objects[a] != objects[b])
  }

  method FindActiveApps(repo: Repository, dirs: seq<Name>) returns (apps: seq<Manifest>)
    ensures apps == FindActive(repo, dirs)
  {
    apps := [];
    for i := 0 to |dirs|
      invariant apps == FindActive(repo, dirs[..i])
    {
      assert dirs[..i+1][..i] == dirs[..i];
      if IsActive(repo, dirs[i]) {
        var v := ActiveVersion(repo, dirs[i]);
        var manifest := LoadManifest(repo, dirs[i], v.value);
        if manifest.Some? { apps := apps + [manifest.value]; }
      }
    }
    assert dirs[..|dirs|] == dirs;
  }

  /** The first loop of initAvailableRuntimes; `made` are the runtime objects it allocates. */
  method LoadRuntimes(repo: Repository, classpath: set<string>, loaded: seq<Manifest>)
    returns (ok: bool, cache: map<Name, Manifest>, runtimes: map<Name, AppRuntime>, ghost made: set<AppRuntime>)
    ensures ok <==> PluginsLoad(repo, classpath, loaded)
    ensures ok ==> cache == ByName(loaded) && Represents(runtimes, NewRuntimes(cache))
    ensures fresh(made) && DrawnFrom(runtimes, made)
  {
    ok, cache, runtimes, made := true, map[], map[], {};
    var i := 0;
    while ok && i < |loaded|
      invariant i <= |loaded| && fresh(made) && DrawnFrom(runtimes, made)
      invariant ok ==> PluginsLoad(repo, classpath, loaded[..i])
      invariant ok ==> cache == ByName(loaded[..i]) && Represents(runtimes, NewRuntimes(cache))
      invariant !ok ==> !PluginsLoad(repo, classpath, loaded)
    {
      ByNameNext(loaded, i);
      ok, cache, runtimes, made := LoadRuntime(repo, classpath, loaded[i], cache, runtimes, made);
      i := i + 1;
    }
    assert loaded[..|loaded|] == loaded;
  }

  ghost predicate DrawnFrom(runtimes: map<Name, AppRuntime>, made: set<AppRuntime>) {
    forall n :: n in runtimes ==> runtimes[n] in made
  }

  /** One turn of that loop: load the plugin class, make its runtime, enter it in both maps. */
  method LoadRuntime(repo: Repository, classpath: set<string>, m: Manifest,
                     cache: map<Name, Manifest>, runtimes: map<Name, AppRuntime>, ghost made: set<AppRuntime>)
    returns (ok: bool, cache': map<Name, Manifest>, runtimes': map<Name, AppRuntime>, ghost made': set<AppRuntime>)
    requires Represents(runtimes, NewRuntimes(cache)) && DrawnFrom(runtimes, made)
    ensures ok == PluginLoads(repo, classpath, m)
    ensures ok ==> cache' == cache[m.name := m] && Represents(runtimes', NewRuntimes(cache'))
    ensures DrawnFrom(runtimes', made') && fresh(made' - made)
  {
    ok, cache', runtimes', made' := PluginLoads(repo, classpath, m), cache, runtimes, made;
    if ok {
      var app := new AppRuntime(m);
      cache' := cache[m.name := m];
      runtimes' := runtimes[m.name := app];
      made' := made + {app};
    }
  }

  /** The second loop of initAvailableRuntimes: parents are merged into the objects in place. */
  method MergeAllParents(cache: map<Name, Manifest>, order: seq<Name>, runtimes: map<Name, AppRuntime>)
    returns (ok: bool)
    requires forall n :: n in order ==> n in cache
    requires Represents(runtimes, NewRuntimes(cache))
    modifies set n | n in runtimes :: runtimes[n]
    ensures ok <==> MergeParents(cache, order).Some?
    ensures ok ==> Represents(runtimes, MergeParents(cache, order).value)
  {
    for i := 0 to |order|
      invariant MergeParents(cache, order[..i]).Some?
      invariant Represents(runtimes, MergeParents(cache, order[..i]).value)
    {
      MergeParentsNext(cache, order, i);
      ok := VisitApp(cache, order[i], runtimes, MergeParents(cache, order[..i]).value);
      if !ok {
        MissingParentFails(cache, order, i);
        return;
      }
    }
    assert order[..|order|] == order;
    ok := true;
  }

  /** One turn of that loop, on the objects. */
  method VisitApp(cache: map<Name, Manifest>, n: Name, runtimes: map<Name, AppRuntime>, ghost spec: RuntimeMap)
    returns (ok: bool)
    requires n in cache && spec.Keys == cache.Keys && Represents(runtimes, spec)
    modifies set n | n in runtimes :: runtimes[n]
    ensures ok <==> MergeOne(cache, spec, n).Some?
    ensures ok ==> Represents(runtimes, MergeOne(cache, spec, n).value)
  {
    ok := true;
    if cache[n].parent.Some? {
      var p := cache[n].parent.value;
      if p in runtimes {
        MergeParent(runtimes[n], runtimes[p]);
      } else {
        ok := false;
      }
    }
  }

  /** initAvailableRuntimes: it returns what Compute says, in mutable runtime objects. */
  method InitAvailableRuntimes(repo: Repository, classpath: set<string>, dirs: seq<Name>, order: seq<Name>)
    returns (r: Option<map<Name, AppRuntime>>)
    requires Lists(order, ByName(FindActive(repo, dirs)).Keys)
    ensures r.Some? <==> Compute(repo, classpath, dirs, order).Some?
    ensures r.Some? ==> Represents(r.value, Compute(repo, classpath, dirs, order).value)
  {
    var loaded := FindActiveApps(repo, dirs);
    var ok, cache, runtimes, made := LoadRuntimes(repo, classpath, loaded);
    if ok { ok := MergeAllParents(cache, order, runtimes); }
    r := if ok then Some(runtimes) else None;
  }

  /** Once a visited app lacks its parent, the whole merge fails. */
  lemma {:induction false} MissingParentFails(cache: map<Name, Manifest>, order: seq<Name>, i: nat)
    requires i < |order| && order[i] in cache
    requires cache[order[i]].parent.Some? && cache[order[i]].parent.value !in cache
    ensures MergeParents(cache, order).None?
  {
    if i < |order| - 1 { MissingParentFails(cache, order[..|order|-1], i); }
  }
}

/**
 What initAvailableRuntimes gives, said of the files alone: the metadata, the versions and the
 plugin jars of the app directories.
 */
module RuntimeContents {
  import opened Wrappers
  import opened AppRuntimes
  import opened AppCache
  import opened AppCacheInvariants
  import opened AppCacheFreshness
  import ParentMerging

  /** The directory has an active version, whose manifest can be read and is `m`. */
  ghost predicate Offers(repo: Repository, dir: Name, m: Manifest) {
    && dir in repo
    && exists v ::
      repo[dir].metadata == Some(Metadata(Some(v))) && v in repo[dir].versions && repo[dir].versions[v] == Some(m)
  }

  /** The plugin is on the class path or in the jar of the app that the manifest names. */
  ghost predicate Loadable(repo: Repository, classpath: set<string>, m: Manifest) {
    m.plugin in classpath || exists jar :: m.name in repo && repo[m.name].pluginJar == Some(jar) && m.plugin in jar
  }

  /** Of the manifests with this name, `m` is offered by the directory that is listed last. */
  ghost predicate Survives(repo: Repository, dirs: seq<Name>, m: Manifest) {
    exists i :: 0 <= i < |dirs| && SurvivesAt(repo, dirs, i, m)
  }

  ghost predicate SurvivesAt(repo: Repository, dirs: seq<Name>, i: nat, m: Manifest)
    requires i < |dirs|
  {
    && Offers(repo, dirs[i], m)
    && forall j, other :: i < j < |dirs| && Offers(repo, dirs[j], other) ==> other.name != m.name
  }

  lemma {:induction false} LoadsWhatIsOffered(repo: Repository, dir: Name)
    ensures forall m :: m in LoadActive(repo, dir) <==> Offers(repo, dir, m)
  {
    forall m ensures m in LoadActive(repo, dir) <==> Offers(repo, dir, m) {
      if dir in repo && repo[dir].metadata.Some? {
        assert repo[dir].metadata == Some(Metadata(repo[dir].metadata.value.activeVersion));
      }
    }
  }

  lemma {:induction false} FindsWhatIsOffered(repo: Repository, dirs: seq<Name>, m: Manifest)
    ensures m in FindActive(repo, dirs) <==> exists dir :: dir in dirs && Offers(repo, dir, m)
  {
    if dirs != [] {
      var init, last := dirs[..|dirs|-1], dirs[|dirs|-1];
      FindsWhatIsOffered(repo, init, m);
      LoadsWhatIsOffered(repo, last);
      assert dirs == init + [last];
    }
  }

  lemma {:induction false} PluginLoadsExactly(repo: Repository, classpath: set<string>, m: Manifest)
    ensures PluginLoads(repo, classpath, m) <==> Loadable(repo, classpath, m)
  {
  }

  lemma {:induction false} OffersOne(repo: Repository, dir: Name, m: Manifest, other: Manifest)
    requires Offers(repo, dir, m) && Offers(repo, dir, other)
    ensures m == other
  {
  }

  /** One directory further down the listing. */
  lemma {:induction false} SurvivesStep(repo: Repository, init: seq<Name>, last: Name, m: Manifest)
    ensures Survives(repo, init + [last], m) <==>
      || Offers(repo, last, m)
      || (Survives(repo, init, m) && forall other :: Offers(repo, last, other) ==> other.name != m.name)
  {
    var dirs, n := init + [last], |init|;
    assert dirs[n] == last;
    if i :| 0 <= i < |dirs| && SurvivesAt(repo, dirs, i, m) {
      if i < n {
        assert SurvivesAt(repo, init, i, m) by {
          forall j, other | i < j < n && Offers(repo, init[j], other) ensures other.name != m.name {
            assert dirs[j] == init[j];
          }
        }
      }
    }
    if Offers(repo, last, m) { assert SurvivesAt(repo, dirs, n, m); }
    if i :| 0 <= i < n && SurvivesAt(repo, init, i, m) {
      if forall other :: Offers(repo, last, other) ==> other.name != m.name {
        assert SurvivesAt(repo, dirs, i, m) by {
          forall j, other | i < j < |dirs| && Offers(repo, dirs[j], other) ensures other.name != m.name {
            if j < n { assert dirs[j] == init[j]; }
          }
        }
      }
    }
  }

  ghost predicate Keeps(cache: map<Name, Manifest>, m: Manifest) { m.name in cache && cache[m.name] == m }

  /** The manifest kept under a name is the one that survives. */
  lemma {:induction false} KeepsTheSurvivor(repo: Repository, dirs: seq<Name>, m: Manifest)
    ensures Keeps(ByName(FindActive(repo, dirs)), m) <==> Survives(repo, dirs, m)
  {
    if dirs != [] {
      var init, last := dirs[..|dirs|-1], dirs[|dirs|-1];
      assert dirs == init + [last];
      KeepsTheSurvivor(repo, init, m);
      SurvivesStep(repo, init, last, m);
      LoadsWhatIsOffered(repo, last);
      ParentMerging.ByNameAppend(FindActive(repo, init), LoadActive(repo, last));
      KeepsOneMore(ByName(FindActive(repo, init)), LoadActive(repo, last), m);
    }
  }

  lemma {:induction false} KeepsOneMore(cache: map<Name, Manifest>, one: seq<Manifest>, m: Manifest)
    requires |one| <= 1
    ensures Keeps(if one == [] then cache else cache[one[0].name := one[0]], m) <==>
      m in one || (Keeps(cache, m) && forall other :: other in one ==> other.name != m.name)
  {
  }

  /** Names are kept under themselves. */
  lemma {:induction false} KeptByName(loaded: seq<Manifest>, n: Name)
    requires n in ByName(loaded)
    ensures ByName(loaded)[n].name == n && ByName(loaded)[n] in loaded
  {
    if loaded[|loaded|-1].name != n { KeptByName(loaded[..|loaded|-1], n); }
  }

  lemma {:induction false} EveryNameIsKept(loaded: seq<Manifest>, m: Manifest)
    requires m in loaded
    ensures m.name in ByName(loaded)
  {
    if loaded[|loaded|-1] != m { EveryNameIsKept(loaded[..|loaded|-1], m); }
  }

  /** Some app directory offers a manifest of this name. */
  ghost predicate NameOffered(repo: Repository, n: Name) {
    exists dir, m :: Offers(repo, dir, m) && m.name == n
  }

  lemma {:induction false} NamesAreThoseOffered(repo: Repository, dirs: seq<Name>, n: Name)
    requires Lists(dirs, repo.Keys)
    ensures n in ByName(FindActive(repo, dirs)) <==> NameOffered(repo, n)
  {
    if n in ByName(FindActive(repo, dirs)) {
      KeptByName(FindActive(repo, dirs), n);
      FindsWhatIsOffered(repo, dirs, ByName(FindActive(repo, dirs))[n]);
    }
    if dir, m :| Offers(repo, dir, m) && m.name == n {
      FindsWhatIsOffered(repo, dirs, m);
      EveryNameIsKept(FindActive(repo, dirs), m);
    }
  }

  ghost predicate AllLoadable(repo: Repository, classpath: set<string>) {
    forall dir, m :: Offers(repo, dir, m) ==> Loadable(repo, classpath, m)
  }

  ghost predicate ParentsOffered(repo: Repository, dirs: seq<Name>) {
    forall m :: Survives(repo, dirs, m) && m.parent.Some? ==> NameOffered(repo, m.parent.value)
  }

  lemma {:induction false} PluginsLoadExactly(repo: Repository, classpath: set<string>, dirs: seq<Name>)
    requires Lists(dirs, repo.Keys)
    ensures PluginsLoad(repo, classpath, FindActive(repo, dirs)) <==> AllLoadable(repo, classpath)
  {
    var loaded := FindActive(repo, dirs);
    if PluginsLoad(repo, classpath, loaded) {
      forall dir, m | Offers(repo, dir, m) ensures Loadable(repo, classpath, m) {
        FindsWhatIsOffered(repo, dirs, m);
        var i :| 0 <= i < |loaded| && loaded[i] == m;
        PluginLoadsExactly(repo, classpath, loaded[i]);
      }
    }
    if AllLoadable(repo, classpath) {
      forall i | 0 <= i < |loaded| ensures PluginLoads(repo, classpath, loaded[i]) {
        FindsWhatIsOffered(repo, dirs, loaded[i]);
        PluginLoadsExactly(repo, classpath, loaded[i]);
      }
    }
  }

  lemma {:induction false} ParentsPresentExactly(repo: Repository, dirs: seq<Name>)
    requires Lists(dirs, repo.Keys)
    ensures ParentMerging.AllParentsPresent(ByName(FindActive(repo, dirs))) <==> ParentsOffered(repo, dirs)
  {
    var cache := ByName(FindActive(repo, dirs));
    if ParentMerging.AllParentsPresent(cache) {
      forall m | Survives(repo, dirs, m) && m.parent.Some? ensures NameOffered(repo, m.parent.value) {
        KeepsTheSurvivor(repo, dirs, m);
        NamesAreThoseOffered(repo, dirs, m.parent.value);
      }
    }
    if ParentsOffered(repo, dirs) {
      forall n | n in cache && cache[n].parent.Some? ensures cache[n].parent.value in cache {
        KeptByName(FindActive(repo, dirs), n);
        KeepsTheSurvivor(repo, dirs, cache[n]);
        NamesAreThoseOffered(repo, dirs, cache[n].parent.value);
      }
    }
  }

  /**
   initAvailableRuntimes succeeds exactly when every offered plugin is found and every surviving
   parent is offered.
   */
  lemma {:induction false} ComputeSucceedsExactly(repo: Repository, classpath: set<string>, dirs: seq<Name>,
                                                  order: seq<Name>)
    requires Lists(dirs, repo.Keys) && Lists(order, ByName(FindActive(repo, dirs)).Keys)
    ensures Compute(repo, classpath, dirs, order).Some? <==> AllLoadable(repo, classpath) && ParentsOffered(repo, dirs)
  {
    var cache := ByName(FindActive(repo, dirs));
    PluginsLoadExactly(repo, classpath, dirs);
    ParentsPresentExactly(repo, dirs);
    if ParentMerging.AllParentsPresent(cache) {
      ParentMerging.MergeSucceeds(cache, order);
    } else {
      ParentMerging.MissingParentAlwaysFails(cache, order);
    }
  }

  /** Every app that is offered, and no other, is in the map that it computes. */
  lemma {:induction false} ComputeGivesOffered(repo: Repository, classpath: set<string>, dirs: seq<Name>,
                                               order: seq<Name>, n: Name)
    requires Lists(dirs, repo.Keys) && Lists(order, ByName(FindActive(repo, dirs)).Keys)
    requires Compute(repo, classpath, dirs, order).Some?
    ensures n in Compute(repo, classpath, dirs, order).value <==> NameOffered(repo, n)
  {
    NamesAreThoseOffered(repo, dirs, n);
  }

  /** What is computed for a manifest without a parent, and for one whose parent has none. */
  lemma {:induction false} ComputeGivesDeclared(repo: Repository, classpath: set<string>, dirs: seq<Name>,
                                                order: seq<Name>, m: Manifest)
    requires Lists(dirs, repo.Keys) && Lists(order, ByName(FindActive(repo, dirs)).Keys)
    requires Compute(repo, classpath, dirs, order).Some? && Survives(repo, dirs, m)
    ensures m.name in Compute(repo, classpath, dirs, order).value
    ensures m.parent.None? ==>
      Compute(repo, classpath, dirs, order).value[m.name] == Runtime(Declared(m.details), m.auth)
    ensures forall p: Manifest :: m.parent == Some(p.name) && p != m && Survives(repo, dirs, p) && p.parent.None? ==>
      Compute(repo, classpath, dirs, order).value[m.name] ==
      Runtime(Inheriting(Declared(m.details), Declared(p.details)), p.auth)
  {
    var cache := ByName(FindActive(repo, dirs));
    ComputeSucceedsExactly(repo, classpath, dirs, order);
    ParentsPresentExactly(repo, dirs);
    KeepsTheSurvivor(repo, dirs, m);
    if m.parent.None? { ParentMerging.ParentlessNeverChanges(cache, order, m.name); }
    forall p: Manifest | m.parent == Some(p.name) && p != m && Survives(repo, dirs, p) && p.parent.None?
      ensures MergeParents(cache, order).value[m.name] ==
        Runtime(Inheriting(Declared(m.details), Declared(p.details)), p.auth)
    {
      KeepsTheSurvivor(repo, dirs, p);
      ParentMerging.ParentOfNoneMerges(cache, order, m.name);
    }
  }

  // ---------------------------------------------------------------- what the caches give

  /** A fresh map has exactly the apps that are offered, and there is one only if every plugin is found. */
  lemma {:induction false} FreshContents(repo: Repository, classpath: set<string>, m: RuntimeMap)
    requires IsFresh(repo, classpath, m)
    ensures AllLoadable(repo, classpath)
    ensures forall n :: n in m <==> NameOffered(repo, n)
    ensures forall dir, own: Manifest :: Offers(repo, dir, own) && own.parent.None? && OnlyOffer(repo, own) ==>
      own.name in m && m[own.name] == Runtime(Declared(own.details), own.auth)
  {
    var dirs, order :| Lists(dirs, repo.Keys) && Lists(order, ByName(FindActive(repo, dirs)).Keys)
      && Compute(repo, classpath, dirs, order) == Some(m);
    ComputeSucceedsExactly(repo, classpath, dirs, order);
    forall n ensures n in m <==> NameOffered(repo, n) { ComputeGivesOffered(repo, classpath, dirs, order, n); }
    forall dir, own: Manifest | Offers(repo, dir, own) && own.parent.None? && OnlyOffer(repo, own)
      ensures own.name in m && m[own.name] == Runtime(Declared(own.details), own.auth)
    {
      OnlyOfferSurvives(repo, dirs, dir, own);
      ComputeGivesDeclared(repo, classpath, dirs, order, own);
    }
  }

  /** No other manifest of the same name is offered. */
  ghost predicate OnlyOffer(repo: Repository, own: Manifest) {
    forall dir, other :: Offers(repo, dir, other) && other.name == own.name ==> other == own
  }

  lemma {:induction false} OnlyOfferSurvives(repo: Repository, dirs: seq<Name>, dir: Name, own: Manifest)
    requires Lists(dirs, repo.Keys) && Offers(repo, dir, own) && OnlyOffer(repo, own)
    ensures Survives(repo, dirs, own)
  {
    var cache := ByName(FindActive(repo, dirs));
    assert NameOffered(repo, own.name);
    NamesAreThoseOffered(repo, dirs, own.name);
    KeptByName(FindActive(repo, dirs), own.name);
    FindsWhatIsOffered(repo, dirs, cache[own.name]);
    KeepsTheSurvivor(repo, dirs, own);
  }

  /**
   In every run: while the repository is as it was when the caches were last cleared, a filled
   runtime cache has exactly the apps that are offered, and a filled details cache gives for
   exactly these the details that they declare, if no parent adds to them.
   */
  lemma {:induction false} CachesGiveOffered(states: seq<State>, events: seq<Event>, i: nat, j: nat)
    requires IsRun(states, events) && UnchangedSinceClear(states, events, i, j)
    ensures states[j].apps.Some? ==> forall n :: n in states[j].apps.value <==> NameOffered(states[j].repo, n)
    ensures states[j].details.Some? && !BetweenTheClears(states[j]) ==>
      && (forall n :: n in states[j].details.value <==> NameOffered(states[j].repo, n))
      && (forall dir, own: Manifest ::
        Offers(states[j].repo, dir, own) && own.parent.None? && OnlyOffer(states[j].repo, own) ==>
           states[j].details.value[own.name] == Declared(own.details))
  {
    var s := states[j];
    FreshSinceLastClear(states, events, i, j);
    InvAlongRun(states, events, j);
    if s.apps.Some? { FreshContents(s.repo, s.classpath, s.apps.value); }
  }

  // ---------------------------------------------------------------- what the tasks change

  /** All other app directories offer what they did. */
  ghost predicate OthersOfferTheSame(before: Repository, app: Name, after: Repository) {
    forall dir, m :: dir != app ==> (Offers(after, dir, m) <==> Offers(before, dir, m))
  }

  /**
   The write of an install task makes its version the one that the app offers, and changes no file
   of a version or a jar.
   */
  lemma {:induction false} InstallActivates(s: State, t: CallId, app: Name, version: Option<Version>)
    requires t in s.calls && s.calls[t].op == Install(app, version) && s.calls[t].pc == InTask(ChangeRepository)
    requires app in s.repo
    ensures Move(s, t, Go).Some?
    ensures
      var after := Move(s, t, Go).value.repo;
      && after.Keys == s.repo.Keys && OthersOfferTheSame(s.repo, app, after)
      && (forall dir :: dir in s.repo ==>
           after[dir].versions == s.repo[dir].versions && after[dir].pluginJar == s.repo[dir].pluginJar)
      && (forall m :: Offers(after, app, m) <==>
           version.Some? && version.value in s.repo[app].versions && s.repo[app].versions[version.value] == Some(m))
  {
  }

  /** Each deletion of an uninstall task takes from its app only; once the directory is gone the app offers nothing. */
  lemma {:induction false} UninstallRemoves(s: State, t: CallId, app: Name, part: Removal)
    requires t in s.calls && s.calls[t].op == Uninstall(app) && s.calls[t].pc == InTask(ChangeRepository)
    ensures Move(s, t, Remove(part)).Some?
    ensures
      var after := Move(s, t, Remove(part)).value.repo;
      && OthersOfferTheSame(s.repo, app, after)
      && (forall m :: Offers(after, app, m) ==> Offers(s.repo, app, m))
      && (part.RemoveDir? ==> app !in after)
      && (part.RemoveMetadata? || part.RemoveDir? ==> forall m :: !Offers(after, app, m))
      && (part.RemovePluginJar? && app in s.repo ==> app in after && after[app].pluginJar == None)
      && (part.RemoveVersion? && app in s.repo ==> app in after && part.version !in after[app].versions)
      && (forall dir :: dir != app && dir in s.repo ==> dir in after && after[dir] == s.repo[dir])
  {
  }
}

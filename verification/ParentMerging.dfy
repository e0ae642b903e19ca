/**
 What the order of `appCache.values()` and of the directory listing may change in
 the runtimes that initAvailableRuntimes computes.
 */
module ParentMerging {
  import opened Wrappers
  import opened AppRuntimes

  ghost predicate AllParentsPresent(cache: map<Name, Manifest>) {
    forall n :: n in cache && cache[n].parent.Some? ==> cache[n].parent.value in cache
  }

  /** No app has a parent, other than itself, that in turn has a parent. */
  ghost predicate NoGrandparents(cache: map<Name, Manifest>) {
    forall n :: n in cache && cache[n].parent.Some? && cache[n].parent.value != n && cache[n].parent.value in cache
      ==> cache[cache[n].parent.value].parent.None?
  }

  ghost function IndexOf(s: seq<Name>, n: Name): (i: nat)
    requires n in s
    ensures i < |s| && s[i] == n
  {
    var i :| 0 <= i < |s| && s[i] == n; i
  }

  lemma {:induction false} MergeSucceeds(cache: map<Name, Manifest>, order: seq<Name>)
    requires AllParentsPresent(cache)
    ensures MergeParents(cache, order).Some?
  {
    if order != [] { MergeSucceeds(cache, order[..|order|-1]); }
  }

  /** Only the visit of `n` itself changes the runtime of `n`. */
  lemma {:induction false} ChangedOnlyByOwnVisit(cache: map<Name, Manifest>, order: seq<Name>, k: nat, n: Name)
    requires AllParentsPresent(cache) && n in cache
    requires k <= |order| && n !in order[k..]
    ensures MergeParents(cache, order).Some? && MergeParents(cache, order[..k]).Some?
    ensures MergeParents(cache, order).value[n] == MergeParents(cache, order[..k]).value[n]
  {
    MergeSucceeds(cache, order);
    MergeSucceeds(cache, order[..k]);
    if k == |order| {
      assert order[..k] == order;
    } else {
      var init := order[..|order|-1];
      assert order[|order|-1] == order[k..][|order|-1-k];
      assert init[k..] == order[k..][..|order|-1-k];
      assert init[..k] == order[..k];
      ChangedOnlyByOwnVisit(cache, init, k, n);
    }
  }

  // ---------------------------------------------------------------- parents visited first

  /** `chain` runs from an app through its parents to its topmost ancestor. */
  ghost predicate IsChain(cache: map<Name, Manifest>, chain: seq<Name>) {
    && chain != []
    && chain[0] in cache
    && if |chain| == 1 then cache[chain[0]].parent == None
       else cache[chain[0]].parent == Some(chain[1]) && IsChain(cache, chain[1..])
  }

  /** The runtime that inherits along the whole chain. */
  ghost function Inherited(cache: map<Name, Manifest>, chain: seq<Name>): Runtime
    requires IsChain(cache, chain)
  {
    if |chain| == 1 then NewRuntime(cache[chain[0]])
    else Merged(NewRuntime(cache[chain[0]]), Inherited(cache, chain[1..]))
  }

  lemma {:induction false} InheritedAuth(cache: map<Name, Manifest>, chain: seq<Name>)
    requires IsChain(cache, chain)
    ensures chain[|chain|-1] in cache && cache[chain[|chain|-1]].parent == None
    ensures Inherited(cache, chain).auth == cache[chain[|chain|-1]].auth
  {
    if |chain| > 1 { InheritedAuth(cache, chain[1..]); }
  }

  ghost predicate ParentsFirst(cache: map<Name, Manifest>, order: seq<Name>) {
    && Lists(order, cache.Keys)
    && (forall i :: 0 <= i < |order| && cache[order[i]].parent.Some? ==>
         exists j :: 0 <= j < i && order[j] == cache[order[i]].parent.value)
  }

  lemma {:induction false} ParentsFirstPresent(cache: map<Name, Manifest>, order: seq<Name>)
    requires ParentsFirst(cache, order)
    ensures AllParentsPresent(cache)
  {
    forall n | n in cache && cache[n].parent.Some? ensures cache[n].parent.value in cache {
      var i := IndexOf(order, n);
    }
  }

  lemma {:induction false} UnvisitedIsNew(cache: map<Name, Manifest>, order: seq<Name>, k: nat, n: Name)
    requires AllParentsPresent(cache) && n in cache && k <= |order| && n !in order[..k]
    ensures MergeParents(cache, order[..k]).Some?
    ensures MergeParents(cache, order[..k]).value[n] == NewRuntime(cache[n])
  {
    ChangedOnlyByOwnVisit(cache, order[..k], 0, n);
    assert order[..k][..0] == [];
  }

  /** What the visit of an app writes to its runtime. */
  lemma {:induction false} OwnVisit(cache: map<Name, Manifest>, order: seq<Name>, i: nat)
    requires AllParentsPresent(cache) && i < |order| && order[i] in cache && order[i] !in order[..i]
    ensures MergeParents(cache, order[..i]).Some? && MergeParents(cache, order[..i+1]).Some?
    ensures MergeParents(cache, order[..i+1]).value[order[i]] ==
      match cache[order[i]].parent
      case None => NewRuntime(cache[order[i]])
      case Some(p) => Merged(NewRuntime(cache[order[i]]), MergeParents(cache, order[..i]).value[p])
  {
    MergeSucceeds(cache, order[..i]);
    MergeSucceeds(cache, order[..i+1]);
    MergeParentsNext(cache, order, i);
    UnvisitedIsNew(cache, order, i, order[i]);
  }

  /** Nothing after the visit of `order[i]` changes its runtime. */
  lemma {:induction false} KeptAfterVisit(cache: map<Name, Manifest>, order: seq<Name>, i: nat, k: nat)
    requires AllParentsPresent(cache) && Lists(order, cache.Keys) && i < k <= |order|
    ensures order[i] in cache
    ensures MergeParents(cache, order[..i+1]).Some? && MergeParents(cache, order[..k]).Some?
    ensures MergeParents(cache, order[..k]).value[order[i]] == MergeParents(cache, order[..i+1]).value[order[i]]
  {
    assert order[i] in order;
    assert order[..k][..i+1] == order[..i+1];
    assert order[i] !in order[..k][i+1..];
    ChangedOnlyByOwnVisit(cache, order[..k], i + 1, order[i]);
  }

  lemma {:induction false} VisitedInherits(cache: map<Name, Manifest>, order: seq<Name>, i: nat, chain: seq<Name>)
    requires ParentsFirst(cache, order) && i < |order|
    requires IsChain(cache, chain) && chain[0] == order[i]
    ensures MergeParents(cache, order[..i+1]).Some?
    ensures MergeParents(cache, order[..i+1]).value[chain[0]] == Inherited(cache, chain)
    decreases i
  {
    ParentsFirstPresent(cache, order);
    OwnVisit(cache, order, i);
    if |chain| > 1 {
      var j :| 0 <= j < i && order[j] == chain[1];
      VisitedInherits(cache, order, j, chain[1..]);
      KeptAfterVisit(cache, order, j, i);
    }
  }

  /** Visiting every parent before its children, each app inherits along its whole chain of parents, at any depth. */
  lemma {:induction false} ParentsFirstInheritsTopmost(cache: map<Name, Manifest>, order: seq<Name>, chain: seq<Name>)
    requires ParentsFirst(cache, order) && IsChain(cache, chain)
    ensures MergeParents(cache, order).Some?
    ensures MergeParents(cache, order).value[chain[0]] == Inherited(cache, chain)
    ensures chain[|chain|-1] in cache && cache[chain[|chain|-1]].parent == None
    ensures MergeParents(cache, order).value[chain[0]].auth == cache[chain[|chain|-1]].auth
  {
    var i := IndexOf(order, chain[0]);
    VisitedInherits(cache, order, i, chain);
    ParentsFirstPresent(cache, order);
    KeptAfterVisit(cache, order, i, |order|);
    assert order[..|order|] == order;
    InheritedAuth(cache, chain);
  }

  /** In a parents-first order every app has such a chain. */
  lemma {:induction false} ChainExists(cache: map<Name, Manifest>, order: seq<Name>, i: nat) returns (chain: seq<Name>)
    requires ParentsFirst(cache, order) && i < |order|
    ensures IsChain(cache, chain) && chain[0] == order[i]
    decreases i
  {
    if cache[order[i]].parent.None? {
      chain := [order[i]];
    } else {
      var j :| 0 <= j < i && order[j] == cache[order[i]].parent.value;
      var rest := ChainExists(cache, order, j);
      assert ([order[i]] + rest)[1..] == rest;
      chain := [order[i]] + rest;
    }
  }

  // ---------------------------------------------------------------- any order

  ghost function FlatRuntime(cache: map<Name, Manifest>, n: Name): Runtime
    requires AllParentsPresent(cache) && n in cache
  {
    match cache[n].parent
    case None => NewRuntime(cache[n])
    case Some(p) => Merged(NewRuntime(cache[n]), NewRuntime(cache[p]))
  }

  lemma {:induction false} ParentlessNeverChanges(cache: map<Name, Manifest>, order: seq<Name>, p: Name)
    requires AllParentsPresent(cache) && p in cache && cache[p].parent.None?
    ensures MergeParents(cache, order).Some? && MergeParents(cache, order).value[p] == NewRuntime(cache[p])
  {
    MergeSucceeds(cache, order);
    if order != [] { ParentlessNeverChanges(cache, order[..|order|-1], p); }
  }

  /** Under every order an app whose parent has none gets the plain runtime of its parent. */
  lemma {:induction false} ParentOfNoneMerges(cache: map<Name, Manifest>, order: seq<Name>, n: Name)
    requires Lists(order, cache.Keys) && n in cache && AllParentsPresent(cache)
    requires cache[n].parent.Some? && cache[n].parent.value != n ==> cache[cache[n].parent.value].parent.None?
    ensures MergeParents(cache, order).Some? && MergeParents(cache, order).value[n] == FlatRuntime(cache, n)
  {
    var i := IndexOf(order, n);
    assert order[..|order|] == order;
    OwnVisit(cache, order, i);
    KeptAfterVisit(cache, order, i, |order|);
    UnvisitedIsNew(cache, order, i, n);
    if cache[n].parent.Some? && cache[n].parent.value != n {
      ParentlessNeverChanges(cache, order[..i], cache[n].parent.value);
    }
  }

  /** Without grandparents every order gives each app the plain runtime of its parent. */
  lemma {:induction false} FlatMerge(cache: map<Name, Manifest>, order: seq<Name>, n: Name)
    requires Lists(order, cache.Keys) && n in cache
    requires AllParentsPresent(cache) && NoGrandparents(cache)
    ensures MergeParents(cache, order).Some? && MergeParents(cache, order).value[n] == FlatRuntime(cache, n)
  {
    ParentOfNoneMerges(cache, order, n);
  }

  lemma {:induction false} FirstVisit(cache: map<Name, Manifest>, n: Name, order: seq<Name>)
    requires AllParentsPresent(cache) && n in cache && cache[n].parent.Some?
    requires order != [] && order[0] == n
    ensures MergeParents(cache, order[..1]) ==
      Some(NewRuntimes(cache)[n := Merged(NewRuntime(cache[n]), NewRuntime(cache[cache[n].parent.value]))])
  {
    MergeParentsNext(cache, order, 0);
  }

  lemma {:induction false} SecondVisit(cache: map<Name, Manifest>, p: Name, n: Name, order: seq<Name>)
    requires AllParentsPresent(cache) && n in cache && cache[n].parent == Some(p) && p != n && cache[p].parent.Some?
    requires |order| >= 2 && order[0] == p && order[1] == n
    ensures MergeParents(cache, order[..2]).Some?
    ensures MergeParents(cache, order[..2]).value[n] ==
      Merged(NewRuntime(cache[n]), Merged(NewRuntime(cache[p]), NewRuntime(cache[cache[p].parent.value])))
  {
    FirstVisit(cache, p, order);
    MergeParentsNext(cache, order, 1);
  }

  lemma {:induction false} ListsAfter(a: Name, b: Name, others: seq<Name>, names: set<Name>)
    requires a != b && a in names && b in names && Lists(others, names - {a, b})
    ensures Lists([a, b] + others, names)
  {
    var order := [a, b] + others;
    forall n ensures n in order <==> n in names {
      if n in others { assert n == order[2 + IndexOf(others, n)]; }
      assert order[0] == a && order[1] == b;
    }
    forall i, j | 0 <= i < j < |order| ensures order[i] != order[j] {
      assert order[j] in names;
      if j >= 2 { assert order[j] == others[j-2] && others[j-2] in others; }
    }
  }

  /**
   A grandparent makes the order visible: visiting the child first gives it its parent's own
   authentication, visiting the parent first gives it the grandparent's. The symbolic details
   always differ.
   */
  lemma {:induction false} GrandparentShowsOrder(cache: map<Name, Manifest>, n: Name, p: Name, g: Name)
    returns (childFirst: seq<Name>, parentFirst: seq<Name>)
    requires AllParentsPresent(cache)
    requires n in cache && cache[n].parent == Some(p) && p != n && cache[p].parent == Some(g)
    ensures Lists(childFirst, cache.Keys) && Lists(parentFirst, cache.Keys)
    ensures MergeParents(cache, childFirst).Some? && MergeParents(cache, parentFirst).Some?
    ensures MergeParents(cache, childFirst).value[n].auth == cache[p].auth
    ensures MergeParents(cache, parentFirst).value[n].auth == cache[g].auth
    ensures MergeParents(cache, childFirst) != MergeParents(cache, parentFirst)
  {
    var others := ListingExists(cache.Keys - {n, p});
    assert cache.Keys - {n, p} == cache.Keys - {p, n};
    childFirst := [n, p] + others;
    parentFirst := [p, n] + others;
    ListsAfter(n, p, others, cache.Keys);
    ListsAfter(p, n, others, cache.Keys);
    assert n !in others;
    MergeSucceeds(cache, childFirst);
    MergeSucceeds(cache, parentFirst);
    ChildFirst(cache, n, p, others);
    ParentFirst(cache, n, p, others);
  }

  lemma {:induction false} ChildFirst(cache: map<Name, Manifest>, n: Name, p: Name, others: seq<Name>)
    requires AllParentsPresent(cache) && n in cache && cache[n].parent == Some(p) && p != n && n !in others
    ensures MergeParents(cache, [n, p] + others).Some?
    ensures MergeParents(cache, [n, p] + others).value[n] == Merged(NewRuntime(cache[n]), NewRuntime(cache[p]))
  {
    var order := [n, p] + others;
    assert order[1..] == [p] + others;
    ChangedOnlyByOwnVisit(cache, order, 1, n);
    FirstVisit(cache, n, order);
  }

  lemma {:induction false} ParentFirst(cache: map<Name, Manifest>, n: Name, p: Name, others: seq<Name>)
    requires AllParentsPresent(cache) && n in cache && cache[n].parent == Some(p) && p != n
      && cache[p].parent.Some? && n !in others
    ensures MergeParents(cache, [p, n] + others).Some?
    ensures MergeParents(cache, [p, n] + others).value[n] ==
      Merged(NewRuntime(cache[n]), Merged(NewRuntime(cache[p]), NewRuntime(cache[cache[p].parent.value])))
  {
    var order := [p, n] + others;
    assert order[2..] == others;
    ChangedOnlyByOwnVisit(cache, order, 2, n);
    SecondVisit(cache, p, n, order);
  }

  ghost predicate OrderIndependent(cache: map<Name, Manifest>) {
    forall o1, o2 :: Lists(o1, cache.Keys) && Lists(o2, cache.Keys) ==>
      MergeParents(cache, o1) == MergeParents(cache, o2)
  }

  lemma {:induction false} MissingParentAlwaysFails(cache: map<Name, Manifest>, order: seq<Name>)
    requires !AllParentsPresent(cache) && Lists(order, cache.Keys)
    ensures MergeParents(cache, order).None?
  {
    var n :| n in cache && cache[n].parent.Some? && cache[n].parent.value !in cache;
    MissingParentFails(cache, order, IndexOf(order, n));
  }

  ghost function FlatRuntimes(cache: map<Name, Manifest>): RuntimeMap
    requires AllParentsPresent(cache)
  {
    map n | n in cache :: FlatRuntime(cache, n)
  }

  lemma {:induction false} FlatMergeWhole(cache: map<Name, Manifest>, order: seq<Name>)
    requires AllParentsPresent(cache) && NoGrandparents(cache) && Lists(order, cache.Keys)
    ensures MergeParents(cache, order) == Some(FlatRuntimes(cache))
  {
    MergeSucceeds(cache, order);
    var merged := MergeParents(cache, order).value;
    forall n | n in cache ensures merged[n] == FlatRuntimes(cache)[n] { FlatMerge(cache, order, n); }
    assert merged == FlatRuntimes(cache);
  }

  /**
   On symbolic details, where no two merges are taken to give the same, parent merging ignores
   the visiting order exactly when it fails for a missing parent or no app has a grandparent.
   */
  lemma {:induction false} OrderIndependentExactly(cache: map<Name, Manifest>)
    ensures OrderIndependent(cache) <==> (!AllParentsPresent(cache) || NoGrandparents(cache))
  {
    if !AllParentsPresent(cache) || NoGrandparents(cache) {
      forall o1, o2 | Lists(o1, cache.Keys) && Lists(o2, cache.Keys)
        ensures MergeParents(cache, o1) == MergeParents(cache, o2)
      {
        if AllParentsPresent(cache) {
          FlatMergeWhole(cache, o1);
          FlatMergeWhole(cache, o2);
        } else {
          MissingParentAlwaysFails(cache, o1);
          MissingParentAlwaysFails(cache, o2);
        }
      }
    } else {
      var n :| n in cache && cache[n].parent.Some? && cache[n].parent.value != n && cache[n].parent.value in cache
        && cache[cache[n].parent.value].parent.Some?;
      var p := cache[n].parent.value;
      var o1, o2 := GrandparentShowsOrder(cache, n, p, cache[p].parent.value);
    }
  }

  // ---------------------------------------------------------------- any merge of details

  /** A runtime with details of any type. */
  datatype RuntimeWith<D> = RuntimeWith(details: D, auth: Auth)

  /** MergeParents with any reading `declare` of a manifest's details and any merge of two of them. */
  function MergeParentsBy<D>(cache: map<Name, Manifest>, declare: string -> D, merge: (D, D) -> D, order: seq<Name>):
    (r: Option<map<Name, RuntimeWith<D>>>)
    ensures r.Some? ==> r.value.Keys == cache.Keys
  {
    if order == [] then Some(map n | n in cache :: RuntimeWith(declare(cache[n].details), cache[n].auth))
    else
      var before, n := MergeParentsBy(cache, declare, merge, order[..|order|-1]), order[|order|-1];
      if before.None? || n !in cache || cache[n].parent.None? then before
      else if cache[n].parent.value !in cache then None
      else
        var own, parent := before.value[n], before.value[cache[n].parent.value];
        Some(before.value[n := RuntimeWith(merge(own.details, parent.details), parent.auth)])
  }

  /** What symbolic details amount to under a given merge. */
  function Meaning<D>(t: Details, declare: string -> D, merge: (D, D) -> D): D {
    match t
    case Declared(text) => declare(text)
    case Inheriting(own, parent) => merge(Meaning(own, declare, merge), Meaning(parent, declare, merge))
  }

  function RuntimesMeant<D>(m: RuntimeMap, declare: string -> D, merge: (D, D) -> D): map<Name, RuntimeWith<D>> {
    map n | n in m :: RuntimeWith(Meaning(m[n].details, declare, merge), m[n].auth)
  }

  /** The symbolic merge stands for every other: reading its result gives what the loop with that merge gives. */
  lemma {:induction false} SymbolicStandsForAll<D>(cache: map<Name, Manifest>, declare: string -> D,
                                                   merge: (D, D) -> D, order: seq<Name>)
    ensures MergeParentsBy(cache, declare, merge, order) ==
      match MergeParents(cache, order) case None => None case Some(m) => Some(RuntimesMeant(m, declare, merge))
  {
    if order == [] {
      assert RuntimesMeant(NewRuntimes(cache), declare, merge)
        == map n | n in cache :: RuntimeWith(declare(cache[n].details), cache[n].auth);
    } else {
      var init, n := order[..|order|-1], order[|order|-1];
      SymbolicStandsForAll(cache, declare, merge, init);
      if MergeParents(cache, init).Some? && n in cache && cache[n].parent.Some? && cache[n].parent.value in cache {
        OneMoreMeant(cache, declare, merge, MergeParents(cache, init).value, n);
      }
    }
  }

  lemma {:induction false} OneMoreMeant<D>(cache: map<Name, Manifest>, declare: string -> D, merge: (D, D) -> D,
                                           m: RuntimeMap, n: Name)
    requires m.Keys == cache.Keys && n in cache && cache[n].parent.Some? && cache[n].parent.value in cache
    ensures
      var own, parent := RuntimesMeant(m, declare, merge)[n], RuntimesMeant(m, declare, merge)[cache[n].parent.value];
      RuntimesMeant(m[n := Merged(m[n], m[cache[n].parent.value])], declare, merge)
        == RuntimesMeant(m, declare, merge)[n := RuntimeWith(merge(own.details, parent.details), parent.auth)]
  {
  }

  ghost predicate OrderIndependentBy<D(!new)>(cache: map<Name, Manifest>, declare: string -> D, merge: (D, D) -> D) {
    forall o1, o2 :: Lists(o1, cache.Keys) && Lists(o2, cache.Keys) ==>
      MergeParentsBy(cache, declare, merge, o1) == MergeParentsBy(cache, declare, merge, o2)
  }

  /**
   Whatever two details merge to: without grandparents, or with a parent missing, the visiting
   order does not matter.
   */
  lemma {:induction false} IndependentWhateverTheMerge<D(!new)>(cache: map<Name, Manifest>, declare: string -> D,
                                                         merge: (D, D) -> D)
    requires !AllParentsPresent(cache) || NoGrandparents(cache)
    ensures OrderIndependentBy(cache, declare, merge)
  {
    OrderIndependentExactly(cache);
    forall o1, o2 | Lists(o1, cache.Keys) && Lists(o2, cache.Keys)
      ensures MergeParentsBy(cache, declare, merge, o1) == MergeParentsBy(cache, declare, merge, o2)
    {
      assert MergeParents(cache, o1) == MergeParents(cache, o2);
      SymbolicStandsForAll(cache, declare, merge, o1);
      SymbolicStandsForAll(cache, declare, merge, o2);
    }
  }

  /** With a grandparent there is a merge under which two orders disagree: the one that forgets nothing. */
  lemma {:induction false} SomeMergeShowsOrder(cache: map<Name, Manifest>)
    returns (declare: string -> Details, merge: (Details, Details) -> Details)
    requires AllParentsPresent(cache) && !NoGrandparents(cache)
    ensures !OrderIndependentBy(cache, declare, merge)
  {
    declare, merge := (text: string) => Declared(text), (own: Details, parent: Details) => Inheriting(own, parent);
    OrderIndependentExactly(cache);
    if OrderIndependentBy(cache, declare, merge) { FreeMergeIsOneOfThem(cache, declare, merge); }
  }

  /** The orders agree for every possible merge of details exactly under that condition. */
  lemma {:induction false} IndependentForEveryMergeExactly(cache: map<Name, Manifest>)
    ensures (forall declare: string -> Details, merge: (Details, Details) -> Details ::
              OrderIndependentBy(cache, declare, merge))
      <==> (!AllParentsPresent(cache) || NoGrandparents(cache))
  {
    if !AllParentsPresent(cache) || NoGrandparents(cache) {
      forall declare: string -> Details, merge: (Details, Details) -> Details
        ensures OrderIndependentBy(cache, declare, merge)
      {
        IndependentWhateverTheMerge(cache, declare, merge);
      }
    } else {
      var declare, merge := SomeMergeShowsOrder(cache);
    }
  }

  lemma {:induction false} FreeMergeIsOneOfThem(cache: map<Name, Manifest>, declare: string -> Details,
                                                merge: (Details, Details) -> Details)
    requires (forall text :: declare(text) == Declared(text)) && (forall a, b :: merge(a, b) == Inheriting(a, b))
    requires AllParentsPresent(cache) && OrderIndependentBy(cache, declare, merge)
    ensures OrderIndependent(cache)
  {
    forall o1, o2 | Lists(o1, cache.Keys) && Lists(o2, cache.Keys)
      ensures MergeParents(cache, o1) == MergeParents(cache, o2)
    {
      MergeSucceeds(cache, o1);
      MergeSucceeds(cache, o2);
      SymbolicStandsForAll(cache, declare, merge, o1);
      SymbolicStandsForAll(cache, declare, merge, o2);
      SameMeaningSameTerms(MergeParents(cache, o1).value, MergeParents(cache, o2).value, declare, merge);
    }
  }

  lemma {:induction false} SameMeaningSameTerms(m1: RuntimeMap, m2: RuntimeMap, declare: string -> Details,
                                                merge: (Details, Details) -> Details)
    requires (forall text :: declare(text) == Declared(text)) && (forall a, b :: merge(a, b) == Inheriting(a, b))
    requires m1.Keys == m2.Keys && RuntimesMeant(m1, declare, merge) == RuntimesMeant(m2, declare, merge)
    ensures m1 == m2
  {
    forall n | n in m1 ensures m1[n] == m2[n] {
      MeansItself(m1[n].details, declare, merge);
      MeansItself(m2[n].details, declare, merge);
      assert RuntimesMeant(m1, declare, merge)[n] == RuntimesMeant(m2, declare, merge)[n];
    }
  }

  lemma {:induction false} MeansItself(t: Details, declare: string -> Details, merge: (Details, Details) -> Details)
    requires (forall text :: declare(text) == Declared(text)) && (forall a, b :: merge(a, b) == Inheriting(a, b))
    ensures Meaning(t, declare, merge) == t
  {
    if t.Inheriting? {
      MeansItself(t.own, declare, merge);
      MeansItself(t.parent, declare, merge);
    }
  }

  // ---------------------------------------------------------------- authentication

  /** Every parent with a parent of its own declares the authentication that its parent declares. */
  ghost predicate GrandparentsAgree(cache: map<Name, Manifest>)
    requires AllParentsPresent(cache)
  {
    forall n :: n in cache && cache[n].parent.Some? && cache[n].parent.value != n
      && cache[cache[n].parent.value].parent.Some?
      ==> cache[cache[n].parent.value].auth == cache[cache[cache[n].parent.value].parent.value].auth
  }

  ghost predicate AuthOrderIndependent(cache: map<Name, Manifest>)
    requires AllParentsPresent(cache)
  {
    forall o1, o2, n :: Lists(o1, cache.Keys) && Lists(o2, cache.Keys) && n in cache ==>
      AuthAfter(cache, o1, n) == AuthAfter(cache, o2, n)
  }

  ghost function AuthAfter(cache: map<Name, Manifest>, order: seq<Name>, n: Name): Auth
    requires AllParentsPresent(cache) && n in cache
  {
    MergeSucceeds(cache, order);
    MergeParents(cache, order).value[n].auth
  }

  /** If they agree, a visit gives an app the authentication its parent declares, whenever it comes. */
  lemma {:induction false} AuthIsTheParents(cache: map<Name, Manifest>, order: seq<Name>, n: Name)
    requires AllParentsPresent(cache) && GrandparentsAgree(cache) && n in cache
    ensures AuthAfter(cache, order, n) ==
      if n in order && cache[n].parent.Some? then cache[cache[n].parent.value].auth else cache[n].auth
    decreases |order|
  {
    MergeSucceeds(cache, order);
    if order != [] {
      var init, last := order[..|order|-1], order[|order|-1];
      assert order == init + [last];
      MergeSucceeds(cache, init);
      AuthIsTheParents(cache, init, n);
      if last == n && cache[n].parent.Some? { AuthIsTheParents(cache, init, cache[n].parent.value); }
    }
  }

  /**
   Whatever details merge to, all visiting orders give every app the same authentication
   exactly when each parent that has a parent declares the same authentication as that one.
   */
  lemma {:induction false} AuthOrderIndependentExactly(cache: map<Name, Manifest>)
    requires AllParentsPresent(cache)
    ensures AuthOrderIndependent(cache) <==> GrandparentsAgree(cache)
  {
    if GrandparentsAgree(cache) {
      forall o1, o2, n | Lists(o1, cache.Keys) && Lists(o2, cache.Keys) && n in cache
        ensures AuthAfter(cache, o1, n) == AuthAfter(cache, o2, n)
      {
        AuthIsTheParents(cache, o1, n);
        AuthIsTheParents(cache, o2, n);
      }
    } else {
      var n :| n in cache && cache[n].parent.Some? && cache[n].parent.value != n
        && cache[cache[n].parent.value].parent.Some?
        && cache[cache[n].parent.value].auth != cache[cache[cache[n].parent.value].parent.value].auth;
      var p := cache[n].parent.value;
      var childFirst, parentFirst := GrandparentShowsOrder(cache, n, p, cache[p].parent.value);
      assert AuthAfter(cache, childFirst, n) != AuthAfter(cache, parentFirst, n);
    }
  }

  // ---------------------------------------------------------------- one fresh map

  /** Every active manifest carries the name of the directory it lies in. */
  ghost predicate NamesMatchDirectories(repo: Repository) {
    forall d :: d in repo && LoadActive(repo, d) != [] ==> LoadActive(repo, d)[0].name == d
  }

  ghost function ActiveManifests(repo: Repository, dirs: set<Name>): map<Name, Manifest> {
    map d | d in dirs && LoadActive(repo, d) != [] :: LoadActive(repo, d)[0]
  }

  ghost function ToSet(order: seq<Name>): set<Name> { set n | n in order }

  lemma {:induction false} CacheIgnoresListing(repo: Repository, dirs: seq<Name>)
    requires NamesMatchDirectories(repo) && ToSet(dirs) <= repo.Keys
    ensures ByName(FindActive(repo, dirs)) == ActiveManifests(repo, ToSet(dirs))
  {
    if dirs != [] {
      var init, d := dirs[..|dirs|-1], dirs[|dirs|-1];
      assert ToSet(dirs) == ToSet(init) + {d} by { assert dirs == init + [d]; }
      CacheIgnoresListing(repo, init);
      assert d in repo;
      calc {
        ByName(FindActive(repo, dirs));
        ByName(FindActive(repo, init) + LoadActive(repo, d));
        { ByNameAppend(FindActive(repo, init), LoadActive(repo, d)); ActiveManifestsAdd(repo, ToSet(init), d); }
        ActiveManifests(repo, ToSet(init) + {d});
      }
    }
  }

  lemma {:induction false} ActiveManifestsAdd(repo: Repository, dirs: set<Name>, d: Name)
    ensures ActiveManifests(repo, dirs + {d}) ==
      if LoadActive(repo, d) == [] then ActiveManifests(repo, dirs)
      else ActiveManifests(repo, dirs)[d := LoadActive(repo, d)[0]]
  {
  }

  lemma {:induction false} ByNameAppend(found: seq<Manifest>, one: seq<Manifest>)
    requires |one| <= 1
    ensures ByName(found + one) == if one == [] then ByName(found) else ByName(found)[one[0].name := one[0]]
  {
    if one == [] {
      assert found + one == found;
    } else {
      assert (found + one)[..|found + one|-1] == found;
    }
  }

  /** With matching names and no grandparents a repository has at most one fresh runtime map. */
  lemma {:induction false} FreshMapIsUnique(repo: Repository, classpath: set<string>, m1: RuntimeMap, m2: RuntimeMap)
    requires NamesMatchDirectories(repo) && NoGrandparents(ActiveManifests(repo, repo.Keys))
    requires IsFresh(repo, classpath, m1) && IsFresh(repo, classpath, m2)
    ensures m1 == m2
  {
    var cache := ActiveManifests(repo, repo.Keys);
    var o1 := FreshByMerging(repo, classpath, m1);
    var o2 := FreshByMerging(repo, classpath, m2);
    OrderIndependentExactly(cache);
    assert MergeParents(cache, o1) == MergeParents(cache, o2);
  }

  /**
   With matching names, all fresh maps of a repository agree on authentication if grandparents
   declare what parents do.
   */
  lemma {:induction false} FreshAuthIsUnique(repo: Repository, classpath: set<string>, m1: RuntimeMap, m2: RuntimeMap,
                                             n: Name)
    requires NamesMatchDirectories(repo) && IsFresh(repo, classpath, m1) && IsFresh(repo, classpath, m2)
    requires var cache := ActiveManifests(repo, repo.Keys); AllParentsPresent(cache) ==> GrandparentsAgree(cache)
    ensures m1.Keys == m2.Keys
    ensures n in m1 ==> m1[n].auth == m2[n].auth
  {
    var cache := ActiveManifests(repo, repo.Keys);
    var o1 := FreshByMerging(repo, classpath, m1);
    var o2 := FreshByMerging(repo, classpath, m2);
    if !AllParentsPresent(cache) { MissingParentAlwaysFails(cache, o1); }
    AuthOrderIndependentExactly(cache);
    if n in cache { assert AuthAfter(cache, o1, n) == AuthAfter(cache, o2, n); }
  }

  lemma {:induction false} FreshByMerging(repo: Repository, classpath: set<string>, m: RuntimeMap)
    returns (order: seq<Name>)
    requires NamesMatchDirectories(repo) && IsFresh(repo, classpath, m)
    ensures Lists(order, ActiveManifests(repo, repo.Keys).Keys)
    ensures MergeParents(ActiveManifests(repo, repo.Keys), order) == Some(m)
  {
    var dirs, o :| Lists(dirs, repo.Keys) && Lists(o, ByName(FindActive(repo, dirs)).Keys)
      && Compute(repo, classpath, dirs, o) == Some(m);
    order := o;
    ComputedByMerging(repo, classpath, dirs, order);
  }

  lemma {:induction false} ComputedByMerging(repo: Repository, classpath: set<string>, dirs: seq<Name>,
                                             order: seq<Name>)
    requires NamesMatchDirectories(repo) && Lists(dirs, repo.Keys)
    requires Lists(order, ByName(FindActive(repo, dirs)).Keys) && Compute(repo, classpath, dirs, order).Some?
    ensures ByName(FindActive(repo, dirs)) == ActiveManifests(repo, repo.Keys)
    ensures Compute(repo, classpath, dirs, order) == MergeParents(ActiveManifests(repo, repo.Keys), order)
  {
    assert ToSet(dirs) == repo.Keys;
    CacheIgnoresListing(repo, dirs);
  }
}

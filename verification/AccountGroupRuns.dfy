/** What every run of the group operations keeps. */
module AccountGroupRuns {
  import opened Wrappers
  import opened Graphs
  import opened AccountGroups

  // ---------------------------------------------------------------- edges

  ghost predicate SameEdges(g: Graph, g': Graph) {
    forall x: DN, y: DN :: y in Successors(g, x) <==> y in Successors(g', x)
  }

  lemma {:induction false} WalkSameEdges(g: Graph, g': Graph, p: seq<DN>)
    requires SameEdges(g, g') && Walk(g, p)
    ensures Walk(g', p)
  {
    forall i | 0 <= i < |p| - 1 ensures p[i+1] in Successors(g', p[i]) {
      assert p[i+1] in Successors(g, p[i]);
    }
  }

  lemma {:induction false} CycleSameEdges(g: Graph, g': Graph, a: DN)
    requires SameEdges(g, g') && CycleFrom(g, a)
    ensures CycleFrom(g', a)
  {
    var x :| Reaches(g, a, x) && OnCycle(g, x);
    var p :| WalkFromTo(g, p, a, x);
    var q :| WalkFromTo(g, q, x, x) && |q| >= 2;
    WalkSameEdges(g, g', p);
    WalkSameEdges(g, g', q);
    assert WalkFromTo(g', p, a, x) && WalkFromTo(g', q, x, x);
    assert Reaches(g', a, x) && OnCycle(g', x);
  }

  lemma {:induction false} AcyclicSameEdges(g: Graph, g': Graph)
    requires SameEdges(g, g')
    ensures Acyclic(g) <==> Acyclic(g')
  {
    if Acyclic(g) { SubgraphAcyclic(g, g'); }
    if Acyclic(g') { SubgraphAcyclic(g', g); }
  }

  ghost function Store(d: Directory, name: Name, g: Group): Directory {
    d.(groups := d.groups[name := g])
  }

  /** The member graph after storing a group, edge by edge. */
  lemma {:induction false} StoredEdges(d: Directory, name: Name, g: Group, dns: seq<DN>)
    requires forall x :: x in g.members <==> x in dns
    ensures SameEdges(MemberGraph(d)[GroupDN(name) := dns], MemberGraph(Store(d, name, g)))
  {
    var g1, g2 := MemberGraph(d)[GroupDN(name) := dns], MemberGraph(Store(d, name, g));
    forall x, y ensures y in Successors(g1, x) <==> y in Successors(g2, x) {
      EdgesOf(d, x);
      EdgesOf(Store(d, name, g), x);
    }
  }

  /** Directories in which every DN lists the same members have the same edges. */
  lemma {:induction false} SameMembersSameEdges(d: Directory, d': Directory)
    requires forall x :: MembersOf(d, x) == MembersOf(d', x)
    ensures SameEdges(MemberGraph(d), MemberGraph(d'))
  {
    forall x, y ensures y in Successors(MemberGraph(d), x) <==> y in Successors(MemberGraph(d'), x) {
      EdgesOf(d, x);
      EdgesOf(d', x);
      assert MembersOf(d, x) == MembersOf(d', x);
    }
  }

  /** Storing a group with the members `dns` keeps the graph acyclic exactly when createsCircularReference says no. */
  lemma {:induction false} CheckIsExact(d: Directory, name: Name, g: Group, dns: seq<DN>)
    requires Acyclic(MemberGraph(d)) && forall x :: x in g.members <==> x in dns
    ensures Acyclic(MemberGraph(Store(d, name, g))) <==> !WouldBeCircular(d, name, dns)
  {
    ReplacingEdges(MemberGraph(d), GroupDN(name), dns);
    StoredEdges(d, name, g, dns);
    AcyclicSameEdges(MemberGraph(d)[GroupDN(name) := dns], MemberGraph(Store(d, name, g)));
  }

  /** Edges to accounts close no cycle, as accounts have no members. */
  lemma {:induction false} AccountEdgesHarmless(g: Graph, g': Graph)
    requires Acyclic(g)
    requires forall x: DN, y: DN :: y in Successors(g', x) && y.GroupDN? ==> y in Successors(g, x)
    requires forall x: DN :: x.AccountDN? ==> Successors(g', x) == []
    ensures Acyclic(g')
  {
    forall y ensures OnCycle(g', y) ==> y.GroupDN? {
      if p :| WalkFromTo(g', p, y, y) && |p| >= 2 { assert p[1] in Successors(g', p[0]); }
    }
    forall x ensures OnCycle(g', x) ==> OnCycle(g, x) {
      if OnCycle(g', x) { CycleCarries(g, g', x); }
    }
  }

  // ---------------------------------------------------------------- acyclic along every run

  lemma {:induction false} EnsureMirrorsKeepsMembers(d: Directory, mirrors: seq<Name>, x: DN)
    ensures MembersOf(EnsureMirrors(d, mirrors).0, x) == MembersOf(d, x)
    decreases |mirrors|
  {
    if mirrors != [] {
      if mirrors[0] in d.groups {
        EnsureMirrorsKeepsMembers(d, mirrors[1..], x);
      } else if mirrors[0] == DEFAULT_GROUP || mirrors[0] == ADMIN_GROUP {
        EnsureMirrorsKeepsMembers(Store(d, mirrors[0], EmptyGroupEntry()), mirrors[1..], x);
      }
    }
  }

  lemma {:induction false} EnsureMirrorsKeepsAcyclic(d: Directory, mirrors: seq<Name>)
    requires Acyclic(MemberGraph(d))
    ensures Acyclic(MemberGraph(EnsureMirrors(d, mirrors).0))
  {
    var d1 := EnsureMirrors(d, mirrors).0;
    forall x ensures MembersOf(d, x) == MembersOf(d1, x) { EnsureMirrorsKeepsMembers(d, mirrors, x); }
    SameMembersSameEdges(d, d1);
    AcyclicSameEdges(MemberGraph(d), MemberGraph(d1));
  }

  /** Create leaves the directory as validate made it, unless it stores a group that passed the check. */
  lemma {:induction false} CreateEffect(d: Directory, req: Request, stack: nat)
    ensures var d1, outcome := EnsureMirrors(d, req.mirrors).0, Create(d, req, stack).1;
      if outcome == Refused(GroupExists) then Create(d, req, stack).0 == d
      else if outcome != Stored then Create(d, req, stack).0 == d1
      else
        && FindDNs(d1, req.recipients).Some?
        && !WouldBeCircular(d1, req.name, FindDNs(d1, req.recipients).value)
        && req.name in Create(d, req, stack).0.groups
        && Create(d, req, stack).0 == Store(d1, req.name, Create(d, req, stack).0.groups[req.name])
        && Create(d, req, stack).0.groups[req.name].mirrors == req.mirrors
        && EnsureMirrors(d, req.mirrors).1
        && forall x :: x in Create(d, req, stack).0.groups[req.name].members <==> x in FindDNs(d1, req.recipients).value
  {
  }

  lemma {:induction false} CreateKeepsAcyclic(d: Directory, req: Request, stack: nat)
    requires Acyclic(MemberGraph(d))
    ensures Acyclic(MemberGraph(Create(d, req, stack).0))
  {
    var d1 := EnsureMirrors(d, req.mirrors).0;
    EnsureMirrorsKeepsAcyclic(d, req.mirrors);
    CreateEffect(d, req, stack);
    var d2, outcome := Create(d, req, stack).0, Create(d, req, stack).1;
    if outcome == Stored {
      CheckIsExact(d1, req.name, d2.groups[req.name], FindDNs(d1, req.recipients).value);
    }
  }

  lemma {:induction false} DeleteKeepsAcyclic(d: Directory, name: Name)
    requires Acyclic(MemberGraph(d))
    ensures Acyclic(MemberGraph(Delete(d, name).0))
  {
    var d' := Delete(d, name).0;
    forall x, y | y in Successors(MemberGraph(d'), x) ensures y in Successors(MemberGraph(d), x) {
      EdgesOf(d, x);
      EdgesOf(d', x);
    }
    SubgraphAcyclic(MemberGraph(d), MemberGraph(d'));
  }

  lemma {:induction false} UpdateKeepsAcyclic(d: Directory, req: Request)
    requires Acyclic(MemberGraph(d))
    ensures Acyclic(MemberGraph(Update(d, req).0))
  {
    DeleteKeepsAcyclic(d, req.name);
    var (d2, outcome) := Update(d, req);
    if outcome == Stored {
      CheckIsExact(d, req.name, d2.groups[req.name], FindDNs(d, req.recipients).value);
    }
  }

  lemma {:induction false} AddToGroupKeepsAcyclic(d: Directory, name: Name, account: Name)
    requires Acyclic(MemberGraph(d))
    ensures Acyclic(MemberGraph(AddToGroup(d, name, account)))
  {
    var d' := AddToGroup(d, name, account);
    forall x: DN, y: DN | y in Successors(MemberGraph(d'), x) && y.GroupDN? ensures y in Successors(MemberGraph(d), x) {
      EdgesOf(d, x);
      EdgesOf(d', x);
    }
    forall x: DN | x.AccountDN? ensures Successors(MemberGraph(d'), x) == [] { EdgesOf(d', x); }
    AccountEdgesHarmless(MemberGraph(d), MemberGraph(d'));
  }

  lemma {:induction false} ApplyKeepsAcyclic(d: Directory, op: Operation)
    requires Acyclic(MemberGraph(d))
    ensures Acyclic(MemberGraph(Apply(d, op)))
  {
    match op
    case CreateGroup(req, stack) => CreateKeepsAcyclic(d, req, stack);
    case UpdateGroup(req) => UpdateKeepsAcyclic(d, req);
    case DeleteGroup(name) => DeleteKeepsAcyclic(d, name);
    case AddToDefaultGroup(account) => AddToGroupKeepsAcyclic(d, DEFAULT_GROUP, account);
    case AddToAdminGroup(account) => AddToGroupKeepsAcyclic(d, ADMIN_GROUP, account);
    case AccountAdded(_) =>
      SameMembersSameEdges(d, Apply(d, op));
      AcyclicSameEdges(MemberGraph(d), MemberGraph(Apply(d, op)));
    case AccountRemoved(_) =>
      SameMembersSameEdges(d, Apply(d, op));
      AcyclicSameEdges(MemberGraph(d), MemberGraph(Apply(d, op)));
  }

  /** The member graph stays acyclic in every run, dangling member DNs and revived names included. */
  lemma {:induction false} StaysAcyclic(d: Directory, ops: seq<Operation>)
    requires Acyclic(MemberGraph(d))
    ensures Acyclic(MemberGraph(Run(d, ops)))
  {
    if ops != [] {
      StaysAcyclic(d, ops[..|ops|-1]);
      ApplyKeepsAcyclic(Run(d, ops[..|ops|-1]), ops[|ops|-1]);
    }
  }

  /** An update of an existing group with members that all exist is accepted exactly when it creates no cycle. */
  lemma {:induction false} UpdateAcceptedExactlyWhenAcyclic(d: Directory, req: Request)
    requires Acyclic(MemberGraph(d)) && req.name in d.groups && req.recipients != []
    requires FindDNs(d, req.recipients).Some?
    ensures Update(d, req).1 == Stored <==>
      Acyclic(MemberGraph(Store(d, req.name, d.groups[req.name].(members := FindDNs(d, req.recipients).value))))
    ensures Update(d, req).1 == Stored ==>
      Elements(Update(d, req).0.groups[req.name].members) == Elements(FindDNs(d, req.recipients).value)
  {
    var dns := FindDNs(d, req.recipients).value;
    CheckIsExact(d, req.name, d.groups[req.name].(members := dns), dns);
  }

  /**
   Create refuses for a circular reference exactly when nothing else is wrong with the request and
   the new edges close a cycle.
   */
  lemma {:induction false} CreateRefusesExactlyCycles(d: Directory, req: Request, stack: nat)
    requires Acyclic(MemberGraph(d)) && req.name !in d.groups
    ensures Create(d, req, stack).1 == Refused(CircularReference) <==>
      var (d1, mirrorsOk) := EnsureMirrors(d, req.mirrors);
      && mirrorsOk && (req.mirrors != [] || req.recipients != [])
      && req.name !in d1.groups && req.name !in d1.accounts && FindDNs(d1, req.recipients).Some?
      && !Acyclic(MemberGraph(Store(d1, req.name, EmptyGroupEntry().(members := FindDNs(d1, req.recipients).value))))
  {
    var d1 := EnsureMirrors(d, req.mirrors).0;
    EnsureMirrorsKeepsAcyclic(d, req.mirrors);
    if FindDNs(d1, req.recipients).Some? {
      var dns := FindDNs(d1, req.recipients).value;
      CheckIsExact(d1, req.name, EmptyGroupEntry().(members := dns), dns);
    }
  }

  // ---------------------------------------------------------------- mirrors

  /** Every mirror of every group names a group. */
  ghost predicate MirrorsResolve(d: Directory) {
    forall n, m :: n in d.groups && m in d.groups[n].mirrors ==> m in d.groups
  }

  ghost predicate AllGroups(d: Directory, names: seq<Name>) {
    forall m :: m in names ==> m in d.groups
  }

  lemma {:induction false} EnsureMirrorsKeepsMirrors(d: Directory, mirrors: seq<Name>)
    requires MirrorsResolve(d)
    ensures MirrorsResolve(EnsureMirrors(d, mirrors).0)
    ensures d.groups.Keys <= EnsureMirrors(d, mirrors).0.groups.Keys
    ensures EnsureMirrors(d, mirrors).1 ==> AllGroups(EnsureMirrors(d, mirrors).0, mirrors)
    decreases |mirrors|
  {
    if mirrors != [] {
      if mirrors[0] in d.groups {
        EnsureMirrorsKeepsMirrors(d, mirrors[1..]);
      } else if mirrors[0] == DEFAULT_GROUP || mirrors[0] == ADMIN_GROUP {
        EnsureMirrorsKeepsMirrors(Store(d, mirrors[0], EmptyGroupEntry()), mirrors[1..]);
      }
    }
  }

  lemma {:induction false} CreateKeepsMirrors(d: Directory, req: Request, stack: nat)
    requires MirrorsResolve(d)
    ensures MirrorsResolve(Create(d, req, stack).0)
  {
    EnsureMirrorsKeepsMirrors(d, req.mirrors);
    CreateEffect(d, req, stack);
  }

  /** An update is the one way to a dangling mirror: it leaves none exactly when the mirrors it names exist. */
  lemma {:induction false} UpdateDanglesExactly(d: Directory, req: Request)
    requires MirrorsResolve(d) && Update(d, req).1 == Stored
    ensures MirrorsResolve(Update(d, req).0) <==> AllGroups(d, req.mirrors)
  {
    var d' := Update(d, req).0;
    assert d'.groups.Keys == d.groups.Keys;
    assert d'.groups[req.name].mirrors == d.groups[req.name].mirrors + req.mirrors;
  }

  lemma {:induction false} DeleteKeepsMirrors(d: Directory, name: Name)
    requires MirrorsResolve(d)
    ensures MirrorsResolve(Delete(d, name).0)
  {
  }

  /** Every update of the run names mirrors that exist at that moment. */
  ghost predicate UpdatesNameGroups(d: Directory, ops: seq<Operation>) {
    ops != [] ==>
      && UpdatesNameGroups(d, ops[..|ops|-1])
      && (ops[|ops|-1].UpdateGroup? ==> AllGroups(Run(d, ops[..|ops|-1]), ops[|ops|-1].request.mirrors))
  }

  /** No mirror ever dangles in a run whose updates name existing groups. */
  lemma {:induction false} MirrorsNeverDangle(d: Directory, ops: seq<Operation>)
    requires MirrorsResolve(d) && UpdatesNameGroups(d, ops)
    ensures MirrorsResolve(Run(d, ops))
  {
    if ops != [] {
      var before := Run(d, ops[..|ops|-1]);
      MirrorsNeverDangle(d, ops[..|ops|-1]);
      match ops[|ops|-1]
      case CreateGroup(req, stack) => CreateKeepsMirrors(before, req, stack);
      case UpdateGroup(req) =>
        DeleteKeepsMirrors(before, req.name);
        if Update(before, req).1 == Stored { UpdateDanglesExactly(before, req); }
      case DeleteGroup(name) => DeleteKeepsMirrors(before, name);
      case _ =>
    }
  }

  // ---------------------------------------------------------------- what setMirrors amounts to

  lemma {:induction false} EnsureMirrorsKeepsGroups(d: Directory, mirrors: seq<Name>, n: Name)
    requires n in d.groups
    ensures n in EnsureMirrors(d, mirrors).0.groups && EnsureMirrors(d, mirrors).0.groups[n] == d.groups[n]
    decreases |mirrors|
  {
    if mirrors != [] {
      if mirrors[0] in d.groups {
        EnsureMirrorsKeepsGroups(d, mirrors[1..], n);
      } else if mirrors[0] == DEFAULT_GROUP || mirrors[0] == ADMIN_GROUP {
        EnsureMirrorsKeepsGroups(Store(d, mirrors[0], EmptyGroupEntry()), mirrors[1..], n);
      }
    }
  }

  /**
   One operation leaves a group that stays with its mirrors, and perhaps more behind them; what it
   mirrors stays too.
   */
  lemma {:induction false} MirrorsKept(d: Directory, op: Operation, n: Name)
    requires n in d.groups && n in Apply(d, op).groups
    ensures d.groups[n].mirrors <= Apply(d, op).groups[n].mirrors
    ensures forall m :: m in d.groups[n].mirrors && m in d.groups ==> m in Apply(d, op).groups
  {
    match op
    case CreateGroup(req, stack) =>
      CreateEffect(d, req, stack);
      forall x | x in d.groups
        ensures x in EnsureMirrors(d, req.mirrors).0.groups && EnsureMirrors(d, req.mirrors).0.groups[x] == d.groups[x]
      {
        EnsureMirrorsKeepsGroups(d, req.mirrors, x);
      }
    case _ =>
  }

  /** The group is there before and after every operation of the run. */
  ghost predicate StaysAlong(d: Directory, ops: seq<Operation>, n: Name) {
    n in d.groups && n in Run(d, ops).groups && (ops != [] ==> StaysAlong(d, ops[..|ops|-1], n))
  }

  /**
   No update takes a mirror away: along every run in which a group stays, its mirrors only grow
   at the end, and so each existing group that it mirrors can never be deleted.
   */
  lemma {:induction false} MirrorsOnlyGrow(d: Directory, ops: seq<Operation>, n: Name)
    requires StaysAlong(d, ops, n)
    ensures d.groups[n].mirrors <= Run(d, ops).groups[n].mirrors
    ensures forall m :: m in d.groups[n].mirrors && m in d.groups ==> m in Run(d, ops).groups
  {
    if ops != [] {
      var before := Run(d, ops[..|ops|-1]);
      MirrorsOnlyGrow(d, ops[..|ops|-1], n);
      MirrorsKept(before, ops[|ops|-1], n);
      forall m | m in d.groups[n].mirrors ensures m in before.groups[n].mirrors {
        var i :| 0 <= i < |d.groups[n].mirrors| && d.groups[n].mirrors[i] == m;
        assert before.groups[n].mirrors[i] == m;
      }
    }
  }
}

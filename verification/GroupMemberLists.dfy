/**
 buildGroupMemberList: when it ends, and what it returns. A hop goes from a group to the
 groups that are members of its mirror sources.
 */
module GroupMemberLists {
  import opened Wrappers
  import opened Graphs
  import opened AccountGroups
  import opened AccountGroupRuns

  /** `x` is listed by an existing mirror source of `g`. */
  ghost predicate InSource(d: Directory, g: Group, x: DN) {
    exists m :: m in g.mirrors && m in d.groups && x in d.groups[m].members
  }

  function GroupsAmong(members: seq<DN>): (r: seq<DN>)
    ensures forall x :: x in r <==> x in members && x.GroupDN?
  {
    if members == [] then []
    else (if members[0].GroupDN? then [members[0]] else []) + GroupsAmong(members[1..])
  }

  function Hops(d: Directory, mirrors: seq<Name>): (r: seq<DN>)
    ensures forall x :: x in r <==> x.GroupDN? && exists m :: m in mirrors && m in d.groups && x in d.groups[m].members
  {
    if mirrors == [] then []
    else (if mirrors[0] in d.groups then GroupsAmong(d.groups[mirrors[0]].members) else []) + Hops(d, mirrors[1..])
  }

  /** From each group to the groups its buildGroupMemberList call recurses into. */
  function HopGraph(d: Directory): Graph {
    map x | x in GroupDNs(d) :: Hops(d, d.groups[x.group].mirrors)
  }

  lemma {:induction false} HopsOf(d: Directory, n: Name, x: DN)
    requires n in d.groups
    ensures x in Successors(HopGraph(d), GroupDN(n)) <==> x.GroupDN? && InSource(d, d.groups[n], x)
  {
  }

  /** Every DN that a chain of hops from `n` leads to is a group that exists. */
  ghost predicate HopsResolve(d: Directory, n: Name) {
    forall x :: Reaches(HopGraph(d), GroupDN(n), x) ==> x in GroupDNs(d)
  }

  ghost predicate HopsCycle(d: Directory, n: Name) {
    CycleFrom(HopGraph(d), GroupDN(n))
  }

  /** Listed by the group itself, or an account listed by one of its mirror sources. */
  ghost predicate ListedBy(d: Directory, g: Group, x: DN) {
    x in g.members || (x.AccountDN? && InSource(d, g, x))
  }

  /** Listed by some group that a chain of hops from `n` leads to. */
  ghost predicate ListedThroughHops(d: Directory, n: Name, x: DN) {
    exists h :: h in GroupDNs(d) && Reaches(HopGraph(d), GroupDN(n), h) && ListedBy(d, d.groups[h.group], x)
  }

  // ---------------------------------------------------------------- one call

  /** `x` comes from the list of some group in `among` that could be built. */
  ghost predicate FromGroups(d: Directory, among: seq<DN>, stack: nat, x: DN) {
    exists y :: y in among && y in GroupDNs(d)
      && Build(d, d.groups[y.group], stack).Members? && x in Build(d, d.groups[y.group], stack).dns
  }

  ghost predicate AllBuilt(d: Directory, among: seq<DN>, stack: nat) {
    forall y :: y in among && y.GroupDN? ==> y in GroupDNs(d) && Build(d, d.groups[y.group], stack).Members?
  }

  lemma {:induction false} MembersBuilt(d: Directory, members: seq<DN>, sofar: set<DN>, stack: nat)
    ensures OverMembers(d, members, sofar, stack).Members? <==> AllBuilt(d, members, stack)
    ensures OverMembers(d, members, sofar, stack).Members? ==>
      forall x :: x in OverMembers(d, members, sofar, stack).dns <==>
        x in sofar || (x.AccountDN? && x in members) || FromGroups(d, members, stack, x)
    decreases |members|
  {
    if members != [] {
      var rest := members[1..];
      assert members == [members[0]] + rest;
      match members[0]
      case AccountDN(_) => MembersBuilt(d, rest, sofar + {members[0]}, stack);
      case GroupDN(n) =>
        if n in d.groups && Build(d, d.groups[n], stack).Members? {
          MembersBuilt(d, rest, sofar + Build(d, d.groups[n], stack).dns, stack);
        }
    }
  }

  lemma {:induction false} MirrorsBuilt(d: Directory, mirrors: seq<Name>, sofar: set<DN>, stack: nat)
    ensures OverMirrors(d, mirrors, sofar, stack).Members? <==> AllBuilt(d, Hops(d, mirrors), stack)
    ensures OverMirrors(d, mirrors, sofar, stack).Members? ==>
      forall x :: x in OverMirrors(d, mirrors, sofar, stack).dns <==>
        || x in sofar
        || (x.AccountDN? && exists m :: m in mirrors && m in d.groups && x in d.groups[m].members)
        || FromGroups(d, Hops(d, mirrors), stack, x)
    decreases |mirrors|
  {
    if mirrors != [] {
      var rest := mirrors[1..];
      assert mirrors == [mirrors[0]] + rest;
      if mirrors[0] !in d.groups {
        MirrorsBuilt(d, rest, sofar, stack);
      } else {
        var members := d.groups[mirrors[0]].members;
        MembersBuilt(d, members, sofar, stack);
        assert AllBuilt(d, members, stack) <==> AllBuilt(d, GroupsAmong(members), stack);
        var r := OverMembers(d, members, sofar, stack);
        if r.Members? {
          MirrorsBuilt(d, rest, r.dns, stack);
          forall x
            ensures FromGroups(d, Hops(d, mirrors), stack, x)
              == (FromGroups(d, members, stack, x) || FromGroups(d, Hops(d, rest), stack, x)) {}
        }
      }
    }
  }

  /** One call, from what the calls it makes return. */
  lemma {:induction false} BuildOne(d: Directory, g: Group, stack: nat)
    requires stack > 0
    ensures Build(d, g, stack).Members? <==> AllBuilt(d, Hops(d, g.mirrors), stack - 1)
    ensures Build(d, g, stack).Members? ==> forall x :: x in Build(d, g, stack).dns <==>
      || ListedBy(d, g, x)
      || FromGroups(d, Hops(d, g.mirrors), stack - 1, x)
  {
    MirrorsBuilt(d, g.mirrors, Elements(g.members), stack - 1);
  }

  // ---------------------------------------------------------------- what it returns

  lemma {:induction false} ListedByHop(d: Directory, n: Name, x: DN)
    requires n in d.groups
    ensures ListedThroughHops(d, n, x) <==>
      || ListedBy(d, d.groups[n], x)
      || exists y :: y in Hops(d, d.groups[n].mirrors) && y in GroupDNs(d) && ListedThroughHops(d, y.group, x)
  {
    var g := HopGraph(d);
    var hops := Hops(d, d.groups[n].mirrors);
    assert Successors(g, GroupDN(n)) == hops;
    if ListedThroughHops(d, n, x) {
      var h :| h in GroupDNs(d) && Reaches(g, GroupDN(n), h) && ListedBy(d, d.groups[h.group], x);
      ReachesBySuccessor(g, GroupDN(n), h);
      if h != GroupDN(n) {
        var y :| y in hops && Reaches(g, y, h);
        assert y in GroupDNs(d) by { ReachesBySuccessor(g, y, h); }
        assert ListedThroughHops(d, y.group, x);
      }
    }
    if ListedBy(d, d.groups[n], x) { ReachesSelf(g, GroupDN(n)); }
    forall y | y in hops && y in GroupDNs(d) && ListedThroughHops(d, y.group, x) ensures ListedThroughHops(d, n, x) {
      var h :| h in GroupDNs(d) && Reaches(g, y, h) && ListedBy(d, d.groups[h.group], x);
      ReachesBySuccessor(g, GroupDN(n), h);
    }
  }

  /** When it returns a list, that list has exactly the DNs listed along chains of hops. */
  lemma {:induction false} BuiltListIsExact(d: Directory, n: Name, stack: nat, x: DN)
    requires n in d.groups && Build(d, d.groups[n], stack).Members?
    ensures x in Build(d, d.groups[n], stack).dns <==> ListedThroughHops(d, n, x)
    decreases stack
  {
    var hops := Hops(d, d.groups[n].mirrors);
    BuildOne(d, d.groups[n], stack);
    ListedByHop(d, n, x);
    forall y | y in hops
      ensures y in GroupDNs(d) && Build(d, d.groups[y.group], stack - 1).Members?
      ensures x in Build(d, d.groups[y.group], stack - 1).dns <==> ListedThroughHops(d, y.group, x)
    {
      BuiltListIsExact(d, y.group, stack - 1, x);
    }
  }

  // ---------------------------------------------------------------- when it returns

  /** A null pointer comes from a hop to a group that is gone. */
  lemma {:induction false} NullMeansUnresolved(d: Directory, n: Name, stack: nat)
    requires n in d.groups && Build(d, d.groups[n], stack) == NullPointer
    ensures !HopsResolve(d, n)
    decreases stack, 2, 0
  {
    var y := NullInMirrors(d, d.groups[n].mirrors, Elements(d.groups[n].members), stack - 1);
    if y in GroupDNs(d) { NullMeansUnresolved(d, y.group, stack - 1); }
    UnresolvedAhead(d, n, y);
  }

  lemma {:induction false} UnresolvedAhead(d: Directory, n: Name, y: DN)
    requires n in d.groups && y in Hops(d, d.groups[n].mirrors)
    requires y in GroupDNs(d) ==> !HopsResolve(d, y.group)
    ensures !HopsResolve(d, n)
  {
    EdgeReaches(HopGraph(d), GroupDN(n), y);
    if y in GroupDNs(d) {
      var x :| Reaches(HopGraph(d), y, x) && x !in GroupDNs(d);
      ReachesTransitive(HopGraph(d), GroupDN(n), y, x);
    }
  }

  lemma {:induction false} NullInMirrors(d: Directory, mirrors: seq<Name>, sofar: set<DN>, stack: nat) returns (y: DN)
    requires OverMirrors(d, mirrors, sofar, stack) == NullPointer
    ensures y in Hops(d, mirrors)
    ensures y in GroupDNs(d) ==> Build(d, d.groups[y.group], stack) == NullPointer
    decreases |mirrors|
  {
    if mirrors[0] !in d.groups {
      y := NullInMirrors(d, mirrors[1..], sofar, stack);
    } else {
      var r := OverMembers(d, d.groups[mirrors[0]].members, sofar, stack);
      if r.Members? {
        y := NullInMirrors(d, mirrors[1..], r.dns, stack);
      } else {
        y := NullInMembers(d, d.groups[mirrors[0]].members, sofar, stack);
      }
    }
  }

  lemma {:induction false} NullInMembers(d: Directory, members: seq<DN>, sofar: set<DN>, stack: nat) returns (y: DN)
    requires OverMembers(d, members, sofar, stack) == NullPointer
    ensures y in members && y.GroupDN?
    ensures y in GroupDNs(d) ==> Build(d, d.groups[y.group], stack) == NullPointer
    decreases |members|
  {
    match members[0]
    case AccountDN(_) => y := NullInMembers(d, members[1..], sofar + {members[0]}, stack);
    case GroupDN(n) =>
      if n in d.groups && Build(d, d.groups[n], stack).Members? {
        y := NullInMembers(d, members[1..], sofar + Build(d, d.groups[n], stack).dns, stack);
      } else {
        y := members[0];
      }
  }

  /** With a cycle of hops ahead, no stack is deep enough. */
  lemma {:induction false} CycleNeverBuilt(d: Directory, n: Name, stack: nat)
    requires n in d.groups && HopsCycle(d, n)
    ensures !Build(d, d.groups[n], stack).Members?
    decreases stack
  {
    var y := CycleAhead(HopGraph(d), GroupDN(n));
    if stack > 0 {
      if y in GroupDNs(d) { CycleNeverBuilt(d, y.group, stack - 1); }
      BlockedHop(d, n, y, stack);
    }
  }

  lemma {:induction false} BlockedHop(d: Directory, n: Name, y: DN, stack: nat)
    requires n in d.groups && y in Successors(HopGraph(d), GroupDN(n)) && stack > 0
    requires y !in GroupDNs(d) || !Build(d, d.groups[y.group], stack - 1).Members?
    ensures !Build(d, d.groups[n], stack).Members?
  {
    BuildOne(d, d.groups[n], stack);
  }

  lemma {:induction false} CycleAhead(g: Graph, x: DN) returns (y: DN)
    requires CycleFrom(g, x)
    ensures y in Successors(g, x) && CycleFrom(g, y)
  {
    CycleFromSuccessor(g, x);
    y :| y in Successors(g, x) && CycleFrom(g, y);
  }

  /** The groups that chains of hops from `n` lead to. */
  ghost function Ahead(d: Directory, n: Name): (r: set<DN>)
    ensures r <= GroupDNs(d)
  {
    set x | x in GroupDNs(d) && Reaches(HopGraph(d), GroupDN(n), x)
  }

  /** Without a cycle each hop leaves fewer groups ahead. */
  lemma {:induction false} AheadShrinks(d: Directory, n: Name, y: DN)
    requires n in d.groups && !HopsCycle(d, n)
    requires y in Hops(d, d.groups[n].mirrors) && y.GroupDN?
    ensures Ahead(d, y.group) < Ahead(d, n) && !HopsCycle(d, y.group)
  {
    var g := HopGraph(d);
    EdgeReaches(g, GroupDN(n), y);
    forall x | x in Ahead(d, y.group) ensures x in Ahead(d, n) { ReachesTransitive(g, GroupDN(n), y, x); }
    ReachesSelf(g, GroupDN(n));
    assert GroupDN(n) in Ahead(d, n);
    if GroupDN(n) in Ahead(d, y.group) {
      var p :| WalkFromTo(g, p, y, GroupDN(n));
      EdgeWalk(g, GroupDN(n), y);
      JoinWalks(g, [GroupDN(n), y], p, GroupDN(n), y, GroupDN(n));
      assert false;
    }
    CycleFromSuccessor(g, GroupDN(n));
  }

  /** Without a cycle, and with every hop resolving, one frame for each group ahead is enough. */
  lemma {:induction false} AcyclicIsBuilt(d: Directory, n: Name, stack: nat)
    requires n in d.groups && !HopsCycle(d, n) && stack >= |Ahead(d, n)|
    ensures Build(d, d.groups[n], stack).Members? <==> HopsResolve(d, n)
    ensures Build(d, d.groups[n], stack) != Overflow
    decreases stack, 1
  {
    assert stack > 0 by {
      ReachesSelf(HopGraph(d), GroupDN(n));
      assert GroupDN(n) in Ahead(d, n);
    }
    forall y | y in Hops(d, d.groups[n].mirrors) && y in GroupDNs(d)
      ensures Build(d, d.groups[y.group], stack - 1).Members? <==> HopsResolve(d, y.group)
      ensures Build(d, d.groups[y.group], stack - 1) != Overflow
    {
      HopIsBuilt(d, n, y, stack - 1);
    }
    BuiltIfHopsAre(d, n, stack);
    NoOverflow(d, d.groups[n], stack);
  }

  lemma {:induction false} BuiltIfHopsAre(d: Directory, n: Name, stack: nat)
    requires n in d.groups && stack > 0
    requires forall y :: y in Hops(d, d.groups[n].mirrors) && y in GroupDNs(d) ==>
      (Build(d, d.groups[y.group], stack - 1).Members? <==> HopsResolve(d, y.group))
    ensures Build(d, d.groups[n], stack).Members? <==> HopsResolve(d, n)
  {
    BuildOne(d, d.groups[n], stack);
    HopsResolveStep(d, n);
  }

  lemma {:induction false} HopIsBuilt(d: Directory, n: Name, y: DN, stack: nat)
    requires n in d.groups && !HopsCycle(d, n) && stack + 1 >= |Ahead(d, n)|
    requires y in Hops(d, d.groups[n].mirrors) && y in GroupDNs(d)
    ensures Build(d, d.groups[y.group], stack).Members? <==> HopsResolve(d, y.group)
    ensures Build(d, d.groups[y.group], stack) != Overflow
    decreases stack, 2
  {
    AheadShrinks(d, n, y);
    SmallerSet(Ahead(d, y.group), Ahead(d, n));
    AcyclicIsBuilt(d, y.group, stack);
  }

  lemma {:induction false} SmallerSet(a: set<DN>, b: set<DN>)
    requires a < b
    ensures |a| < |b|
  {
    var x :| x in b && x !in a;
    SubsetSize(a, b - {x});
  }

  lemma {:induction false} SubsetSize(a: set<DN>, b: set<DN>)
    requires a <= b
    ensures |a| <= |b|
  {
    if a != {} {
      var x :| x in a;
      SubsetSize(a - {x}, b - {x});
    }
  }

  lemma {:induction false} HopsResolveStep(d: Directory, n: Name)
    requires n in d.groups
    ensures HopsResolve(d, n) <==>
      forall y :: y in Hops(d, d.groups[n].mirrors) ==> y in GroupDNs(d) && HopsResolve(d, y.group)
  {
    var g, hops := HopGraph(d), Hops(d, d.groups[n].mirrors);
    if HopsResolve(d, n) {
      forall y | y in hops ensures y in GroupDNs(d) && HopsResolve(d, y.group) {
        EdgeReaches(g, GroupDN(n), y);
        forall x | Reaches(g, y, x) ensures x in GroupDNs(d) { ReachesTransitive(g, GroupDN(n), y, x); }
      }
    }
    if forall y :: y in hops ==> y in GroupDNs(d) && HopsResolve(d, y.group) {
      forall x | Reaches(g, GroupDN(n), x) ensures x in GroupDNs(d) {
        ReachesBySuccessor(g, GroupDN(n), x);
        if x != GroupDN(n) {
          var y :| y in hops && Reaches(g, y, x);
          assert HopsResolve(d, y.group);
        }
      }
    }
  }

  /** A call overflows only if its stack is empty or a call it makes overflows. */
  lemma {:induction false} NoOverflow(d: Directory, g: Group, stack: nat)
    requires stack > 0
    requires forall y :: y in Hops(d, g.mirrors) && y in GroupDNs(d) ==>
      Build(d, d.groups[y.group], stack - 1) != Overflow
    ensures Build(d, g, stack) != Overflow
  {
    NoOverflowMirrors(d, g.mirrors, Elements(g.members), stack - 1);
  }

  lemma {:induction false} NoOverflowMirrors(d: Directory, mirrors: seq<Name>, sofar: set<DN>, stack: nat)
    requires forall y :: y in Hops(d, mirrors) && y in GroupDNs(d) ==> Build(d, d.groups[y.group], stack) != Overflow
    ensures OverMirrors(d, mirrors, sofar, stack) != Overflow
    decreases |mirrors|
  {
    if mirrors != [] {
      if mirrors[0] !in d.groups {
        NoOverflowMirrors(d, mirrors[1..], sofar, stack);
      } else {
        var members := d.groups[mirrors[0]].members;
        NoOverflowMembers(d, members, sofar, stack);
        var r := OverMembers(d, members, sofar, stack);
        if r.Members? { NoOverflowMirrors(d, mirrors[1..], r.dns, stack); }
      }
    }
  }

  lemma {:induction false} NoOverflowMembers(d: Directory, members: seq<DN>, sofar: set<DN>, stack: nat)
    requires forall y :: y in members && y in GroupDNs(d) ==> Build(d, d.groups[y.group], stack) != Overflow
    ensures OverMembers(d, members, sofar, stack) != Overflow
    decreases |members|
  {
    if members != [] {
      match members[0]
      case AccountDN(_) => NoOverflowMembers(d, members[1..], sofar + {members[0]}, stack);
      case GroupDN(n) =>
        if n in d.groups && Build(d, d.groups[n], stack).Members? {
          NoOverflowMembers(d, members[1..], sofar + Build(d, d.groups[n], stack).dns, stack);
        }
    }
  }

  /**
   buildGroupMemberList of an existing group, all of whose hops resolve, ends exactly when
   no chain of hops runs into a cycle: then a stack as deep as there are groups is enough,
   and otherwise every stack overflows.
   */
  lemma {:induction false} EndsExactlyWithoutHopCycle(d: Directory, n: Name)
    requires n in d.groups && HopsResolve(d, n)
    ensures (exists stack :: Build(d, d.groups[n], stack).Members?) <==> !HopsCycle(d, n)
    ensures !HopsCycle(d, n) ==> forall stack :: stack >= |GroupDNs(d)| ==> Build(d, d.groups[n], stack).Members?
    ensures HopsCycle(d, n) ==> forall stack :: Build(d, d.groups[n], stack) == Overflow
  {
    if HopsCycle(d, n) {
      forall stack ensures Build(d, d.groups[n], stack) == Overflow {
        CycleNeverBuilt(d, n, stack);
        if Build(d, d.groups[n], stack) == NullPointer { NullMeansUnresolved(d, n, stack); }
      }
    } else {
      forall stack | stack >= |GroupDNs(d)| ensures Build(d, d.groups[n], stack).Members? {
        SubsetSize(Ahead(d, n), GroupDNs(d));
        AcyclicIsBuilt(d, n, stack);
      }
      assert Build(d, d.groups[n], |GroupDNs(d)|).Members?;
    }
  }

  /** Without a hop cycle it always ends: with the exact list if every hop resolves, else with the null pointer. */
  lemma {:induction false} WithoutHopCycle(d: Directory, n: Name, stack: nat)
    requires n in d.groups && !HopsCycle(d, n) && stack >= |GroupDNs(d)|
    ensures if HopsResolve(d, n)
      then Build(d, d.groups[n], stack).Members?
        && forall x :: x in Build(d, d.groups[n], stack).dns <==> ListedThroughHops(d, n, x)
      else Build(d, d.groups[n], stack) == NullPointer
  {
    SubsetSize(Ahead(d, n), GroupDNs(d));
    AcyclicIsBuilt(d, n, stack);
    if HopsResolve(d, n) {
      forall x ensures x in Build(d, d.groups[n], stack).dns <==> ListedThroughHops(d, n, x) {
        BuiltListIsExact(d, n, stack, x);
      }
    }
  }

  // ---------------------------------------------------------------- when create succeeds

  /** A list that is returned has come through hops that all resolve, and no cycle. */
  lemma {:induction false} BuiltResolves(d: Directory, n: Name, stack: nat)
    requires n in d.groups && Build(d, d.groups[n], stack).Members?
    ensures HopsResolve(d, n) && !HopsCycle(d, n)
    decreases stack
  {
    BuildOne(d, d.groups[n], stack);
    forall y | y in Hops(d, d.groups[n].mirrors) ensures y in GroupDNs(d) && HopsResolve(d, y.group) {
      BuiltResolves(d, y.group, stack - 1);
    }
    HopsResolveStep(d, n);
    if HopsCycle(d, n) { CycleNeverBuilt(d, n, stack); }
  }

  /** The list of a source can be built. */
  ghost predicate Buildable(d: Directory, n: Name) {
    n in d.groups && HopsResolve(d, n) && !HopsCycle(d, n)
  }

  lemma {:induction false} BuildableExactly(d: Directory, n: Name, stack: nat)
    requires n in d.groups
    ensures Build(d, d.groups[n], stack).Members? ==> Buildable(d, n)
    ensures Buildable(d, n) && stack >= |GroupDNs(d)| ==> Build(d, d.groups[n], stack).Members?
  {
    if Build(d, d.groups[n], stack).Members? { BuiltResolves(d, n, stack); }
    if Buildable(d, n) { EndsExactlyWithoutHopCycle(d, n); }
  }

  /** Some source lists some DN. */
  ghost predicate SomeListed(d: Directory, mirrors: seq<Name>) {
    exists m, x :: m in mirrors && m in d.groups && ListedThroughHops(d, m, x)
  }

  lemma {:induction false} SomeListedStep(d: Directory, mirrors: seq<Name>)
    requires mirrors != []
    ensures SomeListed(d, mirrors) <==>
      (mirrors[0] in d.groups && exists x :: ListedThroughHops(d, mirrors[0], x)) || SomeListed(d, mirrors[1..])
  {
    if m, x :| m in mirrors && m in d.groups && ListedThroughHops(d, m, x) {
      if m != mirrors[0] { assert m in mirrors[1..]; }
    }
    if mirrors[0] in d.groups {
      if x :| ListedThroughHops(d, mirrors[0], x) { assert mirrors[0] in mirrors; }
    }
    if m, x :| m in mirrors[1..] && m in d.groups && ListedThroughHops(d, m, x) { assert m in mirrors; }
  }

  /** The members that create counts: the recipients, and what each source lists. */
  lemma {:induction false} AllBuiltExactly(d: Directory, mirrors: seq<Name>, sofar: set<DN>, stack: nat)
    requires forall m :: m in mirrors ==> m in d.groups
    ensures BuildAll(d, mirrors, sofar, stack).Members? ==>
      && (forall m :: m in mirrors ==> Buildable(d, m))
      && (BuildAll(d, mirrors, sofar, stack).dns == {} <==> sofar == {} && !SomeListed(d, mirrors))
    ensures (forall m :: m in mirrors ==> Buildable(d, m)) && stack >= |GroupDNs(d)| ==>
      BuildAll(d, mirrors, sofar, stack).Members?
    decreases |mirrors|
  {
    if mirrors != [] {
      var m := mirrors[0];
      var r := Build(d, d.groups[m], stack);
      BuildableExactly(d, m, stack);
      SomeListedStep(d, mirrors);
      if r.Members? {
        forall x ensures x in r.dns <==> ListedThroughHops(d, m, x) { BuiltListIsExact(d, m, stack, x); }
        AllBuiltExactly(d, mirrors[1..], sofar + r.dns, stack);
      }
    }
  }

  /**
   What becomes of a create that passes validate: with enough stack it is stored exactly when the
   list of every mirror source can be built and some member comes together; with none it is
   refused as empty; and if some source cannot be built it is refused whatever the stack.
   */
  lemma {:induction false} CreateStoresExactly(d: Directory, req: Request, stack: nat)
    requires req.name !in d.groups && Validate(d, req).1.None?
    ensures
      var d1, outcome := Validate(d, req).0, Create(d, req, stack).1;
      var buildable := forall m :: m in req.mirrors ==> Buildable(d1, m);
      && (!buildable ==> outcome == Refused(NullMember) || outcome == Refused(StackOverflow))
      && (buildable && stack >= |GroupDNs(d1)| ==>
           outcome == if req.recipients == [] && !SomeListed(d1, req.mirrors) then Refused(NoMembers) else Stored)
  {
    var d1 := Validate(d, req).0;
    EnsuredMirrorsExist(d, req.mirrors);
    AllBuiltExactly(d1, req.mirrors, Elements(FindDNs(d1, req.recipients).value), stack);
    assert req.recipients != [] ==> FindDNs(d1, req.recipients).value[0] in Elements(FindDNs(d1, req.recipients).value);
  }

  lemma {:induction false} EnsuredMirrorsExist(d: Directory, mirrors: seq<Name>)
    requires EnsureMirrors(d, mirrors).1
    ensures forall m :: m in mirrors ==> m in EnsureMirrors(d, mirrors).0.groups
    ensures d.groups.Keys <= EnsureMirrors(d, mirrors).0.groups.Keys
    decreases |mirrors|
  {
    if mirrors != [] {
      if mirrors[0] in d.groups {
        EnsuredMirrorsExist(d, mirrors[1..]);
      } else {
        EnsuredMirrorsExist(d.(groups := d.groups[mirrors[0] := EmptyGroupEntry()]), mirrors[1..]);
      }
    }
  }
}

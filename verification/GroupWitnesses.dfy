/** Two concrete runs of the group operations that show where their checks end. */
module GroupWitnesses {
  import opened Wrappers
  import opened Graphs
  import opened AccountGroups
  import opened AccountGroupRuns
  import opened GroupMemberLists

  function Ask(name: Name, recipient: Name, mirrors: seq<Name>): Request {
    Request(name, [recipient], mirrors, "", "")
  }

  function Has(member: DN, mirrors: seq<Name>): Group {
    Group([member], mirrors, "", "")
  }

  lemma {:induction false} OneRecipient(d: Directory, recipient: Name)
    ensures FindDNs(d, [recipient]) ==
      if FindDN(d, recipient).Some? then Some([FindDN(d, recipient).value]) else None
  {
    assert [recipient][..0] == [];
    if FindDN(d, recipient).Some? {
      var dn := FindDN(d, recipient).value;
      assert [] + [dn] == [dn];
    }
  }

  lemma {:induction false} OneMember(x: DN)
    ensures SetMembers([], Dedup([x])) == [x] && Dedup([x]) == [x]
  {
    var none: seq<DN> := [];
    assert [x][..0] == none && none + [x] == [x];
    assert Dedup([x]) == [x] by { assert Dedup(none) == none; }
    assert KeepIn(none, [x]) == none;
    assert AddMissing(none, [x]) == [x] by { assert AddMissing(none, none) == none; }
  }

  lemma {:induction false} LeafHasNoCycle(g: Graph, x: DN)
    requires Successors(g, x) == []
    ensures !CycleFrom(g, x)
  {
    CycleFromSuccessor(g, x);
  }

  lemma {:induction false} OneSuccessor(g: Graph, x: DN, y: DN)
    requires Successors(g, x) == [y]
    ensures CycleFrom(g, x) <==> CycleFrom(g, y)
  {
    CycleFromSuccessor(g, x);
    assert [y][0] == y;
  }

  const EMPTY := Directory({"a"}, map[])
  const WITH_S := Directory({"a"}, map["s" := Has(AccountDN("a"), [])])
  const WITH_G := Directory({"a"}, map["s" := Has(AccountDN("a"), []), "g" := Has(AccountDN("a"), ["s"])])
  const LOOPED := Directory({"a"}, map["s" := Has(GroupDN("g"), []), "g" := Has(AccountDN("a"), ["s"])])

  lemma {:induction false} CreateS()
    ensures Create(EMPTY, Ask("s", "a", []), 1) == (WITH_S, Stored)
  {
    OneRecipient(EMPTY, "a");
    OneMember(AccountDN("a"));
    var graph := MemberGraph(EMPTY)[GroupDN("s") := [AccountDN("a")]];
    EdgesOf(EMPTY, AccountDN("a"));
    LeafHasNoCycle(graph, AccountDN("a"));
    OneSuccessor(graph, GroupDN("s"), AccountDN("a"));
    assert AccountDN("a") in Elements([AccountDN("a")]);
  }

  lemma {:induction false} CreateG()
    ensures Create(WITH_S, Ask("g", "a", ["s"]), 1) == (WITH_G, Stored)
  {
    OneRecipient(WITH_S, "a");
    OneMember(AccountDN("a"));
    var graph := MemberGraph(WITH_S)[GroupDN("g") := [AccountDN("a")]];
    EdgesOf(WITH_S, AccountDN("a"));
    LeafHasNoCycle(graph, AccountDN("a"));
    OneSuccessor(graph, GroupDN("g"), AccountDN("a"));
    assert ["s"][1..] == [];
    assert AccountDN("a") in Elements([AccountDN("a")]);
  }

  lemma {:induction false} UpdateS()
    ensures Update(WITH_G, Ask("s", "g", [])) == (LOOPED, Stored)
  {
    OneRecipient(WITH_G, "g");
    var graph := MemberGraph(WITH_G)[GroupDN("s") := [GroupDN("g")]];
    EdgesOf(WITH_G, AccountDN("a"));
    EdgesOf(WITH_G, GroupDN("g"));
    LeafHasNoCycle(graph, AccountDN("a"));
    OneSuccessor(graph, GroupDN("g"), AccountDN("a"));
    OneSuccessor(graph, GroupDN("s"), GroupDN("g"));
    ReplaceMember(AccountDN("a"), GroupDN("g"));
    var noNames: seq<Name> := [];
    assert noNames + noNames == noNames;
    assert Store(WITH_G, "s", Has(GroupDN("g"), [])) == LOOPED;
  }

  lemma {:induction false} ReplaceMember(x: DN, y: DN)
    requires x != y
    ensures SetMembers([x], Dedup([y])) == [y]
  {
    OneMember(y);
    var none: seq<DN> := [];
    assert [x][..0] == none;
    calc {
      KeepIn([x], [y]);
      KeepIn([x][..0], [y]) + none;
      KeepIn(none, [y]) + none;
      none + none;
      none;
    }
  }

  /** Every walk along hops from `g` stays at `g`. */
  lemma {:induction false} HopsStay(p: seq<DN>, i: nat)
    requires Walk(HopGraph(LOOPED), p) && p[0] == GroupDN("g") && i < |p|
    ensures p[i] == GroupDN("g")
  {
    if i > 0 {
      HopsStay(p, i - 1);
      assert p[i-1+1] in Successors(HopGraph(LOOPED), p[i-1]);
      HopsOf(LOOPED, "g", p[i]);
    }
  }

  function Steps(): seq<Operation> {
    [CreateGroup(Ask("s", "a", []), 1), CreateGroup(Ask("g", "a", ["s"]), 1), UpdateGroup(Ask("s", "g", []))]
  }

  lemma {:induction false} LoopedIsReached()
    ensures Run(EMPTY, Steps()) == LOOPED
  {
    var ops := Steps();
    CreateS();
    CreateG();
    UpdateS();
    assert ops[..1][..0] == [] && ops[..2][..1] == ops[..1];
    assert Run(EMPTY, ops[..1]) == WITH_S;
    assert Run(EMPTY, ops[..2]) == WITH_G;
  }

  lemma {:induction false} NoGroupsNoCycle(d: Directory)
    requires d.groups == map[]
    ensures Acyclic(MemberGraph(d))
  {
    forall x ensures !OnCycle(MemberGraph(d), x) {
      if OnCycle(MemberGraph(d), x) {
        var p :| WalkFromTo(MemberGraph(d), p, x, x) && |p| >= 2;
        assert p[0+1] in Successors(MemberGraph(d), p[0]);
        EdgesOf(d, p[0]);
      }
    }
  }

  lemma {:induction false} LoopedHops()
    ensures HopsCycle(LOOPED, "g") && HopsResolve(LOOPED, "g")
  {
    var hops, g := HopGraph(LOOPED), GroupDN("g");
    assert g in LOOPED.groups["s"].members;
    assert "s" in LOOPED.groups["g"].mirrors;
    HopsOf(LOOPED, "g", g);
    EdgeWalk(hops, g, g);
    assert OnCycle(hops, g);
    ReachesSelf(hops, g);
    forall x | Reaches(hops, g, x) ensures x in GroupDNs(LOOPED) {
      var p :| WalkFromTo(hops, p, g, x);
      HopsStay(p, |p| - 1);
    }
  }

  /**
   Three accepted operations: create s, create g mirroring s, make g a member of s. The member
   graph is acyclic, every mirror and every hop resolves, and still buildGroupMemberList of g
   overflows every stack. So the acyclicity that the operations keep does not make it end.
   */
  lemma {:induction false} AcyclicMembersDoNotEnd()
    ensures Run(EMPTY, Steps()) == LOOPED
    ensures Acyclic(MemberGraph(LOOPED)) && MirrorsResolve(LOOPED) && HopsResolve(LOOPED, "g")
    ensures forall stack :: Build(LOOPED, LOOPED.groups["g"], stack) == Overflow
  {
    LoopedIsReached();
    NoGroupsNoCycle(EMPTY);
    StaysAcyclic(EMPTY, Steps());
    LoopedHops();
    EndsExactlyWithoutHopCycle(LOOPED, "g");
  }

  const DANGLING := Directory({"a"}, map["b" := Has(GroupDN("x"), [])])

  lemma {:induction false} RevivalIsCircular()
    ensures WouldBeCircular(DANGLING, "x", [GroupDN("b")])
  {
    var graph := MemberGraph(DANGLING)[GroupDN("x") := [GroupDN("b")]];
    EdgesOf(DANGLING, GroupDN("b"));
    assert [GroupDN("b")][0] in Successors(graph, GroupDN("x"));
    assert [GroupDN("x")][0] in Successors(graph, GroupDN("b"));
    EdgeWalk(graph, GroupDN("x"), GroupDN("b"));
    EdgeWalk(graph, GroupDN("b"), GroupDN("x"));
    var x, b := GroupDN("x"), GroupDN("b");
    JoinWalks(graph, [x, b], [b, x], x, b, x);
    assert OnCycle(graph, GroupDN("x"));
    ReachesSelf(graph, GroupDN("x"));
  }

  /** Deleting a member leaves its DN behind, and creating it anew is checked against that DN. */
  lemma {:induction false} RevivedNameIsChecked()
    ensures Delete(Directory({"a"}, map["x" := Has(AccountDN("a"), []), "b" := Has(GroupDN("x"), [])]), "x")
      == (DANGLING, Removed)
    ensures Create(DANGLING, Ask("x", "b", []), 1) == (DANGLING, Refused(CircularReference))
  {
    var before := Directory({"a"}, map["x" := Has(AccountDN("a"), []), "b" := Has(GroupDN("x"), [])]);
    assert before.groups - {"x"} == DANGLING.groups;
    OneRecipient(DANGLING, "b");
    RevivalIsCircular();
  }
}

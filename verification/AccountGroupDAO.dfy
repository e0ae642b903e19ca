/** AccountGroup and AccountGroupDAO as the classes they are, proved against the functions on values. */
module AccountGroupDAO {
  import opened Wrappers
  import opened Graphs
  import G = AccountGroups
  import opened AccountGroupRuns

  type Name = G.Name

  /** The list without the first occurrence of `x`. */
  function RemoveFirst(s: seq<DN>, x: DN): seq<DN> {
    if s == [] then []
    else if s[0] == x then s[1..]
    else [s[0]] + RemoveFirst(s[1..], x)
  }

  lemma {:induction false} RemoveFirstAt(s: seq<DN>, i: nat)
    requires i < |s| && s[i] !in s[..i]
    ensures RemoveFirst(s, s[i]) == s[..i] + s[i+1..]
  {
    if i > 0 {
      assert s[0] in s[..i];
      assert s[i] !in s[1..][..i-1] by { assert s[1..][..i-1] == s[..i][1..]; }
      RemoveFirstAt(s[1..], i - 1);
    }
  }

  /** A group object, loaded from its entry and stored back by the DAO. */
  class AccountGroup {
    var members: seq<DN>
    var mirrors: seq<Name>
    var description: string
    var storageQuota: string

    constructor (entry: G.Group)
      ensures Entry() == entry
    {
      members, mirrors := entry.members, entry.mirrors;
      description, storageQuota := entry.description, entry.storageQuota;
    }

    function Entry(): G.Group reads this { G.Group(members, mirrors, description, storageQuota) }

    method AddMember(dn: DN)
      modifies this`members
      ensures members == G.AddMissing(old(members), [dn])
    {
      AddOne(members, dn);
      if dn !in members { members := members + [dn]; }
    }

    method RemoveMember(dn: DN)
      modifies this`members
      ensures members == RemoveFirst(old(members), dn)
    {
      var i := 0;
      while i < |members| && members[i] != dn
        invariant i <= |members| && dn !in members[..i]
      {
        i := i + 1;
      }
      if i < |members| {
        RemoveFirstAt(members, i);
        members := members[..i] + members[i+1..];
      } else {
        assert members[..i] == members;
        NothingToRemove(members, dn);
      }
    }

    /** Walks over a copy of the old members, removing; then over the new ones, adding. */
    method SetMembers(memberDNs: seq<DN>)
      modifies this`members
      ensures members == G.SetMembers(old(members), memberDNs)
    {
      var snapshot := members;
      for i := 0 to |snapshot|
        invariant members == Dropped(snapshot, memberDNs, i)
      {
        DropNext(snapshot, memberDNs, i);
        if snapshot[i] !in memberDNs { RemoveMember(snapshot[i]); }
      }
      DroppedAll(snapshot, memberDNs);
      ghost var kept := members;
      for i := 0 to |memberDNs|
        invariant members == G.AddMissing(kept, memberDNs[..i])
      {
        AddMissingNext(kept, memberDNs, i);
        AddMember(memberDNs[i]);
      }
      assert memberDNs[..|memberDNs|] == memberDNs;
    }

    method HasMirror(name: Name) returns (found: bool)
      ensures found <==> name in mirrors
    {
      for i := 0 to |mirrors|
        invariant name !in mirrors[..i]
      {
        if mirrors[i] == name { return true; }
      }
      found := false;
    }

    /** Despite its name it appends. */
    method SetMirrors(values: seq<Name>)
      modifies this`mirrors
      ensures mirrors == old(mirrors) + values
    {
      mirrors := mirrors + values;
    }
  }

  lemma {:induction false} NothingToRemove(s: seq<DN>, x: DN)
    requires x !in s
    ensures RemoveFirst(s, x) == s
  {
    if s != [] { NothingToRemove(s[1..], x); }
  }

  lemma {:induction false} AddOne(s: seq<DN>, x: DN)
    ensures G.AddMissing(s, [x]) == if x in s then s else s + [x]
  {
    assert [x][..0] == [];
  }

  lemma {:induction false} AddMissingNext(s: seq<DN>, more: seq<DN>, i: nat)
    requires i < |more|
    ensures G.AddMissing(s, more[..i+1]) == G.AddMissing(G.AddMissing(s, more[..i]), [more[i]])
  {
    assert more[..i+1][..i] == more[..i];
    AddOne(G.AddMissing(s, more[..i]), more[i]);
  }

  /** The list when the first `i` members have been looked at. */
  function Dropped(s: seq<DN>, keep: seq<DN>, i: nat): seq<DN>
    requires i <= |s|
  {
    G.KeepIn(s[..i], keep) + s[i..]
  }

  lemma {:induction false} DroppedAll(s: seq<DN>, keep: seq<DN>)
    ensures Dropped(s, keep, |s|) == G.KeepIn(s, keep)
  {
    assert s[..|s|] == s;
  }

  lemma {:induction false} DropNext(s: seq<DN>, keep: seq<DN>, i: nat)
    requires i < |s|
    ensures Dropped(s, keep, i + 1)
      == if s[i] in keep then Dropped(s, keep, i) else RemoveFirst(Dropped(s, keep, i), s[i])
  {
    assert s[..i+1][..i] == s[..i];
    var kept, now := G.KeepIn(s[..i], keep), Dropped(s, keep, i);
    if s[i] in keep {
      assert kept + s[i..] == (kept + [s[i]]) + s[i+1..];
    } else {
      assert now[|kept|] == s[i] && now[..|kept|] == kept && now[|kept|+1..] == s[i+1..];
      RemoveFirstAt(now, |kept|);
    }
  }

  // ---------------------------------------------------------------- setMembers

  /** The values of `s`, once each, that are not in `leave`. */
  function Without(s: seq<DN>, leave: seq<DN>): (r: seq<DN>)
    ensures forall x :: x in r <==> x in s && x !in leave
  {
    if s == [] then []
    else
      var r := Without(s[..|s|-1], leave);
      if s[|s|-1] in r || s[|s|-1] in leave then r else r + [s[|s|-1]]
  }

  lemma {:induction false} AddMissingAppends(s: seq<DN>, more: seq<DN>)
    ensures G.AddMissing(s, more) == s + Without(more, s)
  {
    if more != [] { AddMissingAppends(s, more[..|more|-1]); }
  }

  lemma {:induction false} AddMissingNoDuplicates(s: seq<DN>, more: seq<DN>)
    requires G.NoDuplicates(s)
    ensures G.NoDuplicates(G.AddMissing(s, more))
  {
    if more != [] { AddMissingNoDuplicates(s, more[..|more|-1]); }
  }

  /** The places that the kept members had in the old list, in increasing order. */
  lemma {:induction false} KeptPlaces(s: seq<DN>, keep: seq<DN>) returns (places: seq<nat>)
    ensures |places| == |G.KeepIn(s, keep)|
    ensures forall i :: 0 <= i < |places| ==> places[i] < |s| && s[places[i]] == G.KeepIn(s, keep)[i]
    ensures forall i, j :: 0 <= i < j < |places| ==> places[i] < places[j]
  {
    places := [];
    if s != [] {
      places := KeptPlaces(s[..|s|-1], keep);
      if s[|s|-1] in keep { places := places + [|s|-1]; }
    }
  }

  lemma {:induction false} KeepInNoDuplicates(s: seq<DN>, keep: seq<DN>)
    requires G.NoDuplicates(s)
    ensures G.NoDuplicates(G.KeepIn(s, keep))
  {
    var places := KeptPlaces(s, keep);
  }

  /**
   setMembers on a duplicate-free list: the wanted members and no others, none twice; the kept
   ones first, in their old order, then the new ones as they first occur in the request.
   */
  lemma {:induction false} SetMembersIsExact(current: seq<DN>, wanted: seq<DN>) returns (places: seq<nat>)
    requires G.NoDuplicates(current)
    ensures G.NoDuplicates(G.SetMembers(current, wanted))
    ensures Elements(G.SetMembers(current, wanted)) == Elements(wanted)
    ensures |places| <= |G.SetMembers(current, wanted)|
    ensures forall i :: 0 <= i < |places| ==>
      places[i] < |current| && current[places[i]] == G.SetMembers(current, wanted)[i]
    ensures forall i, j :: 0 <= i < j < |places| ==> places[i] < places[j]
    ensures G.SetMembers(current, wanted)[|places|..] == Without(wanted, current)
  {
    var kept := G.KeepIn(current, wanted);
    places := KeptPlaces(current, wanted);
    KeepInNoDuplicates(current, wanted);
    AddMissingNoDuplicates(kept, wanted);
    AddMissingAppends(kept, wanted);
    SameLeftOut(wanted, wanted, kept, current);
  }

  lemma {:induction false} SameLeftOut(s: seq<DN>, wanted: seq<DN>, kept: seq<DN>, current: seq<DN>)
    requires kept == G.KeepIn(current, wanted) && forall x :: x in s ==> x in wanted
    ensures Without(s, kept) == Without(s, current)
  {
    if s != [] {
      assert s[|s|-1] in s;
      SameLeftOut(s[..|s|-1], wanted, kept, current);
    }
  }

  /** No group lists a member twice, so that setMembers is always exact. */
  ghost predicate DistinctMembers(d: G.Directory) {
    forall n :: n in d.groups ==> G.NoDuplicates(d.groups[n].members)
  }

  lemma {:induction false} SetMembersNoDuplicates(current: seq<DN>, wanted: seq<DN>)
    requires G.NoDuplicates(current)
    ensures G.NoDuplicates(G.SetMembers(current, wanted))
  {
    KeepInNoDuplicates(current, wanted);
    AddMissingNoDuplicates(G.KeepIn(current, wanted), wanted);
  }

  lemma {:induction false} EnsureMirrorsKeepsDistinct(d: G.Directory, mirrors: seq<Name>)
    requires DistinctMembers(d)
    ensures DistinctMembers(G.EnsureMirrors(d, mirrors).0)
    decreases |mirrors|
  {
    if mirrors != [] {
      if mirrors[0] in d.groups {
        EnsureMirrorsKeepsDistinct(d, mirrors[1..]);
      } else if mirrors[0] == G.DEFAULT_GROUP || mirrors[0] == G.ADMIN_GROUP {
        EnsureMirrorsKeepsDistinct(Store(d, mirrors[0], G.EmptyGroupEntry()), mirrors[1..]);
      }
    }
  }

  lemma {:induction false} CreatedMembers(d: G.Directory, req: G.Request, stack: nat)
    requires G.Create(d, req, stack).1 == G.Stored
    ensures G.FindDNs(G.EnsureMirrors(d, req.mirrors).0, req.recipients).Some?
      && req.name in G.Create(d, req, stack).0.groups
    ensures G.Create(d, req, stack).0.groups[req.name].members
      == G.SetMembers([], G.Dedup(G.FindDNs(G.EnsureMirrors(d, req.mirrors).0, req.recipients).value))
  {
  }

  lemma {:induction false} StoreKeepsDistinct(d: G.Directory, name: Name, g: G.Group)
    requires DistinctMembers(d) && G.NoDuplicates(g.members)
    ensures DistinctMembers(Store(d, name, g))
  {
  }

  lemma {:induction false} CreateKeepsDistinct(d: G.Directory, req: G.Request, stack: nat)
    requires DistinctMembers(d)
    ensures DistinctMembers(G.Create(d, req, stack).0)
  {
    EnsureMirrorsKeepsDistinct(d, req.mirrors);
    CreateEffect(d, req, stack);
    var d1, after := G.EnsureMirrors(d, req.mirrors).0, G.Create(d, req, stack);
    if after.1 == G.Stored {
      CreatedMembers(d, req, stack);
      SetMembersNoDuplicates([], G.Dedup(G.FindDNs(d1, req.recipients).value));
      StoreKeepsDistinct(d1, req.name, after.0.groups[req.name]);
    }
  }

  lemma {:induction false} UpdateKeepsDistinct(d: G.Directory, req: G.Request)
    requires DistinctMembers(d)
    ensures DistinctMembers(G.Update(d, req).0)
  {
    if G.Update(d, req).1 == G.Stored {
      SetMembersNoDuplicates(d.groups[req.name].members, G.Dedup(G.FindDNs(d, req.recipients).value));
    }
  }

  lemma {:induction false} AddToGroupKeepsDistinct(d: G.Directory, name: Name, account: Name)
    requires DistinctMembers(d)
    ensures DistinctMembers(G.AddToGroup(d, name, account))
  {
    var group := if name in d.groups then d.groups[name] else G.EmptyGroupEntry();
    AddMissingNoDuplicates(group.members, [AccountDN(account)]);
  }

  /** In every run member lists stay without duplicates. */
  lemma {:induction false} MembersStayDistinct(d: G.Directory, ops: seq<G.Operation>)
    requires DistinctMembers(d)
    ensures DistinctMembers(G.Run(d, ops))
    decreases |ops|
  {
    if ops != [] {
      var before := G.Run(d, ops[..|ops|-1]);
      MembersStayDistinct(d, ops[..|ops|-1]);
      match ops[|ops|-1]
      case CreateGroup(req, stack) => CreateKeepsDistinct(before, req, stack);
      case UpdateGroup(req) => UpdateKeepsDistinct(before, req);
      case DeleteGroup(name) =>
      case AddToDefaultGroup(account) => AddToGroupKeepsDistinct(before, G.DEFAULT_GROUP, account);
      case AddToAdminGroup(account) => AddToGroupKeepsDistinct(before, G.ADMIN_GROUP, account);
      case AccountAdded(_) =>
      case AccountRemoved(_) =>
    }
  }

  // ---------------------------------------------------------------- the DAO

  class AccountGroupDAO {
    /** The names accountDAO finds. */
    var accounts: set<Name>
    /** The group entries in LDAP. */
    var groups: map<Name, G.Group>

    function Dir(): G.Directory reads this { G.Directory(accounts, groups) }

    method FindAccountOrGroupDN(recipient: Name) returns (dn: Option<DN>)
      ensures dn == G.FindDN(Dir(), recipient)
    {
      if recipient in accounts { return Some(AccountDN(recipient)); }
      if recipient in groups { return Some(GroupDN(recipient)); }
      dn := None;
    }

    method FindDNs(recipients: seq<Name>) returns (dns: Option<seq<DN>>)
      ensures dns == G.FindDNs(Dir(), recipients)
    {
      var found: seq<DN> := [];
      for i := 0 to |recipients|
        invariant |found| == i
        invariant forall j :: 0 <= j < i ==> G.FindDN(Dir(), recipients[j]) == Some(found[j])
      {
        var dn := FindAccountOrGroupDN(recipients[i]);
        if dn.None? { return None; }
        found := found + [dn.value];
      }
      dns := Some(found);
      assert forall j :: 0 <= j < |recipients| ==> G.FindDN(Dir(), recipients[j]).Some?;
      assert found == G.FindDNs(Dir(), recipients).value;
    }

    method FindAllMembers() returns (all: seq<(DN, DN)>)
      ensures forall x, y :: (x, y) in all <==> y in G.MembersOf(Dir(), x)
    {
      all := [];
      var rest := groups.Keys;
      while rest != {}
        invariant rest <= groups.Keys
        invariant forall x, y :: (x, y) in all <==> y in G.MembersOf(Dir(), x) && x.GroupDN? && x.group !in rest
        decreases rest
      {
        var n :| n in rest;
        var members := groups[n].members;
        ghost var before := all;
        for i := 0 to |members|
          invariant forall x, y :: (x, y) in all <==> (x, y) in before || (x == GroupDN(n) && y in members[..i])
        {
          all := all + [(GroupDN(n), members[i])];
        }
        assert members[..|members|] == members;
        rest := rest - {n};
      }
    }

    /** None is the exception for a recipient that does not exist. */
    method CreatesCircularReference(group: Name, recipients: seq<Name>) returns (r: Option<bool>)
      ensures G.FindDNs(Dir(), recipients).None? ==> r == None
      ensures G.FindDNs(Dir(), recipients).Some? ==>
        r == Some(G.WouldBeCircular(Dir(), group, G.FindDNs(Dir(), recipients).value))
    {
      var all := FindAllMembers();
      var graph: Graph := map[];
      for i := 0 to |all|
        invariant forall x, y :: y in Successors(graph, x) <==> (x, y) in all[..i]
      {
        var (g, m) := all[i];
        var groupMembers := Successors(graph, g);
        graph := graph[g := groupMembers + [m]];
      }
      assert all[..|all|] == all;
      var dns := FindDNs(recipients);
      if dns.None? { return None; }
      SameAfterPut(Dir(), graph, group, dns.value);
      graph := graph[GroupDN(group) := dns.value];
      var found := ContainsCircularReference(GroupDN(group), graph);
      r := Some(found);
    }

    /** buildGroupMemberList(group), with room for `stack` more calls. */
    method BuildGroupMemberList(group: G.Group, stack: nat) returns (r: G.Built)
      ensures r == G.Build(Dir(), group, stack)
      decreases stack
    {
      if stack == 0 { return G.Overflow; }
      var members := Elements(group.members);
      for i := 0 to |group.mirrors|
        invariant G.OverMirrors(Dir(), group.mirrors[i..], members, stack - 1) == G.Build(Dir(), group, stack)
      {
        assert group.mirrors[i..][1..] == group.mirrors[i+1..];
        if group.mirrors[i] in groups {
          var source := groups[group.mirrors[i]];
          ghost var sofar := members;
          for j := 0 to |source.members|
            invariant G.OverMembers(Dir(), source.members[j..], members, stack - 1)
              == G.OverMembers(Dir(), source.members, sofar, stack - 1)
          {
            var m := source.members[j];
            assert source.members[j..][1..] == source.members[j+1..];
            match m
            case AccountDN(_) => members := members + {m};
            case GroupDN(n) =>
              if n !in groups { return G.NullPointer; }
              var inner := BuildGroupMemberList(groups[n], stack - 1);
              if !inner.Members? { return inner; }
              members := members + inner.dns;
          }
        }
      }
      r := G.Members(members);
    }

    /** The mirror loop of buildGroupMemberList(group, recipients, true). */
    method BuildWithMirrors(mirrors: seq<Name>, recipients: set<DN>, stack: nat) returns (r: G.Built)
      ensures r == G.BuildAll(Dir(), mirrors, recipients, stack)
    {
      var members := recipients;
      for i := 0 to |mirrors|
        invariant G.BuildAll(Dir(), mirrors[i..], members, stack) == G.BuildAll(Dir(), mirrors, recipients, stack)
      {
        assert mirrors[i..][1..] == mirrors[i+1..];
        if mirrors[i] in groups {
          var inner := BuildGroupMemberList(groups[mirrors[i]], stack);
          if !inner.Members? { return inner; }
          members := members + inner.dns;
        }
      }
      r := G.Members(members);
    }

    /** super.create and super.update: write the entry. */
    method Put(name: Name, group: AccountGroup)
      modifies this`groups
      ensures groups == old(groups)[name := old(group.Entry())]
    {
      groups := groups[name := group.Entry()];
    }

    method EnsureMirrors(mirrors: seq<Name>) returns (ok: bool)
      modifies this`groups
      ensures (Dir(), ok) == G.EnsureMirrors(old(Dir()), mirrors)
    {
      for i := 0 to |mirrors|
        invariant G.EnsureMirrors(Dir(), mirrors[i..]) == G.EnsureMirrors(old(Dir()), mirrors)
      {
        assert mirrors[i..][1..] == mirrors[i+1..];
        if mirrors[i] !in groups {
          if mirrors[i] == G.DEFAULT_GROUP || mirrors[i] == G.ADMIN_GROUP {
            var group := new AccountGroup(G.EmptyGroupEntry());
            Put(mirrors[i], group);
          } else {
            return false;
          }
        }
      }
      ok := true;
    }

    method Validate(req: G.Request) returns (refusal: Option<G.Refusal>)
      modifies this`groups
      ensures (Dir(), refusal) == G.Validate(old(Dir()), req)
    {
      var mirrorsOk := EnsureMirrors(req.mirrors);
      if !mirrorsOk { return Some(G.BadMirror); }
      if req.mirrors == [] && req.recipients == [] { return Some(G.EmptyGroup); }
      if req.name in groups { return Some(G.NameNotUnique); }
      if req.name in accounts { return Some(G.NameIsUser); }
      var circular := CreatesCircularReference(req.name, req.recipients);
      if circular == None { return Some(G.MemberNotFound); }
      if circular.value { return Some(G.CircularReference); }
      refusal := None;
    }

    method Create(req: G.Request, stack: nat) returns (outcome: G.Outcome)
      modifies this`groups
      ensures (Dir(), outcome) == G.Create(old(Dir()), req, stack)
    {
      if req.name in groups { return G.Refused(G.GroupExists); }
      var refusal := Validate(req);
      if refusal.Some? { return G.Refused(refusal.value); }
      var dns := FindDNs(req.recipients);
      var all := BuildWithMirrors(req.mirrors, Elements(dns.value), stack);
      if all.NullPointer? { return G.Refused(G.NullMember); }
      if all.Overflow? { return G.Refused(G.StackOverflow); }
      if all.dns == {} { return G.Refused(G.NoMembers); }
      var group := new AccountGroup(G.Group([], req.mirrors, req.description, ""));
      group.SetMembers(G.Dedup(dns.value));
      Put(req.name, group);
      outcome := G.Stored;
    }

    /** findMirrors(name) is not empty. */
    method HasMirrors(name: Name) returns (found: bool)
      ensures found <==> G.IsMirrored(Dir(), name)
    {
      var rest := groups.Keys;
      while rest != {}
        invariant rest <= groups.Keys
        invariant forall n :: n in groups && n !in rest ==> name !in groups[n].mirrors
        decreases rest
      {
        var n :| n in rest;
        var group := new AccountGroup(groups[n]);
        found := group.HasMirror(name);
        if found { return; }
        rest := rest - {n};
      }
      found := false;
    }

    method Delete(name: Name) returns (outcome: G.Outcome)
      modifies this`groups
      ensures (Dir(), outcome) == G.Delete(old(Dir()), name)
    {
      if name !in groups { return G.NothingThere; }
      var mirrored := HasMirrors(name);
      if mirrored { return G.Refused(G.MirrorsExist); }
      if name == G.DEFAULT_GROUP || name == G.ADMIN_GROUP { return G.Refused(G.CannotDeleteDefault); }
      groups := groups - {name};
      outcome := G.Removed;
    }

    method Update(req: G.Request) returns (outcome: G.Outcome)
      modifies this`groups
      ensures (Dir(), outcome) == G.Update(old(Dir()), req)
    {
      if req.name !in groups { return G.Refused(G.GroupNotFound); }
      if req.recipients == [] {
        outcome := Delete(req.name);
        return;
      }
      var circular := CreatesCircularReference(req.name, req.recipients);
      if circular == None { return G.Refused(G.MemberNotFound); }
      if circular.value { return G.Refused(G.CircularReference); }
      var dns := FindDNs(req.recipients);
      var group := new AccountGroup(groups[req.name]);
      group.SetMembers(G.Dedup(dns.value));
      group.description := req.description;
      group.storageQuota := req.storageQuota;
      group.SetMirrors(req.mirrors);
      Put(req.name, group);
      outcome := G.Stored;
    }

    method AddToGroup(name: Name, account: Name)
      modifies this`groups
      ensures Dir() == G.AddToGroup(old(Dir()), name, account)
    {
      if name !in groups {
        var empty := new AccountGroup(G.EmptyGroupEntry());
        Put(name, empty);
      }
      var group := new AccountGroup(groups[name]);
      group.AddMember(AccountDN(account));
      Put(name, group);
    }

    method AddToDefaultGroup(account: Name)
      modifies this`groups
      ensures Dir() == G.AddToGroup(old(Dir()), G.DEFAULT_GROUP, account)
    {
      AddToGroup(G.DEFAULT_GROUP, account);
    }

    method AddToAdminGroup(account: Name)
      modifies this`groups
      ensures Dir() == G.AddToGroup(old(Dir()), G.ADMIN_GROUP, account)
    {
      AddToGroup(G.ADMIN_GROUP, account);
    }
  }

  lemma {:induction false} SameAfterPut(d: G.Directory, graph: Graph, group: Name, dns: seq<DN>)
    requires forall x, y :: y in Successors(graph, x) <==> y in G.MembersOf(d, x)
    ensures CycleFrom(graph[GroupDN(group) := dns], GroupDN(group)) <==> G.WouldBeCircular(d, group, dns)
  {
    var g1, g2 := graph[GroupDN(group) := dns], G.MemberGraph(d)[GroupDN(group) := dns];
    forall x, y ensures y in Successors(g1, x) <==> y in Successors(g2, x) {
      G.EdgesOf(d, x);
      if x != GroupDN(group) { assert y in Successors(graph, x) <==> y in G.MembersOf(d, x); }
    }
    assert SameEdges(g1, g2) && SameEdges(g2, g1);
    if CycleFrom(g1, GroupDN(group)) { CycleSameEdges(g1, g2, GroupDN(group)); }
    if CycleFrom(g2, GroupDN(group)) { CycleSameEdges(g2, g1, GroupDN(group)); }
  }
}

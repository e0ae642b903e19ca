/**
 What each operation on groups does and when it refuses, said of the directory and the request
 alone.
 */
module GroupOperations {
  import opened Wrappers
  import opened Graphs
  import opened AccountGroups
  import opened AccountGroupRuns
  import opened GroupMemberLists

  // ---------------------------------------------------------------- mirrors

  predicate IsBuiltIn(n: Name) { n == "cloudos-users" || n == "cloudos-admins" }

  /** Neither a group nor one that is created on demand. */
  predicate IsBadMirror(d: Directory, m: Name) { m !in d.groups && !IsBuiltIn(m) }

  /** The first `k` mirrors are good, and the next, if there is one, is not. */
  ghost predicate GoodUpTo(d: Directory, mirrors: seq<Name>, k: nat) {
    && k <= |mirrors| && (forall i :: 0 <= i < k ==> !IsBadMirror(d, mirrors[i]))
    && (k < |mirrors| ==> IsBadMirror(d, mirrors[k]))
  }

  /**
   `after` has the groups of `d`, and in addition the missing built-in groups among `names`, without
   members or mirrors.
   */
  ghost predicate AddsBuiltIns(d: Directory, names: seq<Name>, after: Directory) {
    && after.accounts == d.accounts
    && (forall n :: n in d.groups ==> n in after.groups && after.groups[n] == d.groups[n])
    && (forall n :: n in after.groups && n !in d.groups ==>
      IsBuiltIn(n) && n in names && after.groups[n] == Group([], [], "", ""))
    && (forall n :: IsBuiltIn(n) && n in names ==> n in after.groups)
  }

  lemma {:induction false} AddsOneMore(d: Directory, first: Name, names: seq<Name>, middle: Directory, after: Directory)
    requires IsBuiltIn(first) && first !in d.groups
    requires middle == d.(groups := d.groups[first := Group([], [], "", "")]) && AddsBuiltIns(middle, names, after)
    ensures AddsBuiltIns(d, [first] + names, after)
  {
    forall n | n in d.groups ensures n in after.groups && after.groups[n] == d.groups[n] {
      assert middle.groups[n] == d.groups[n];
    }
    assert first in middle.groups && after.groups[first] == Group([], [], "", "");
  }

  /** The mirrors of a request are looked up in turn, up to the first bad one. */
  lemma {:induction false} EnsuresExactly(d: Directory, mirrors: seq<Name>) returns (k: nat)
    ensures GoodUpTo(d, mirrors, k)
    ensures EnsureMirrors(d, mirrors).1 <==> k == |mirrors|
    ensures AddsBuiltIns(d, mirrors[..k], EnsureMirrors(d, mirrors).0)
    decreases |mirrors|
  {
    if mirrors == [] || IsBadMirror(d, mirrors[0]) {
      k := 0;
    } else {
      var first, rest := mirrors[0], mirrors[1..];
      assert mirrors == [first] + rest;
      if first in d.groups {
        var j := EnsuresExactly(d, rest);
        GoodOneMore(d, d, first, rest, j);
        k := j + 1;
      } else {
        var middle := d.(groups := d.groups[first := EmptyGroupEntry()]);
        var j := EnsuresExactly(middle, rest);
        GoodOneMore(d, middle, first, rest, j);
        AddsOneMore(d, first, rest[..j], middle, EnsureMirrors(d, mirrors).0);
        k := j + 1;
      }
    }
  }

  lemma {:induction false} GoodOneMore(d: Directory, middle: Directory, first: Name, rest: seq<Name>, j: nat)
    requires GoodUpTo(middle, rest, j) && !IsBadMirror(d, first)
    requires middle == d || middle == d.(groups := d.groups[first := EmptyGroupEntry()])
    requires IsBuiltIn(first) || middle == d
    ensures GoodUpTo(d, [first] + rest, j + 1) && ([first] + rest)[..j+1] == [first] + rest[..j]
  {
    var mirrors := [first] + rest;
    forall i | 0 <= i < j + 1 ensures !IsBadMirror(d, mirrors[i]) {
      if i > 0 { assert mirrors[i] == rest[i-1] && !IsBadMirror(middle, rest[i-1]); }
    }
    if j < |rest| { assert mirrors[j+1] == rest[j] && IsBadMirror(middle, rest[j]); }
  }

  // ---------------------------------------------------------------- recipients

  predicate Unknown(d: Directory, recipient: Name) { recipient !in d.accounts && recipient !in d.groups }

  /** The account of that name, or else the group. */
  function DNOf(d: Directory, recipient: Name): DN {
    if recipient in d.accounts then AccountDN(recipient) else GroupDN(recipient)
  }

  function DNsOf(d: Directory, recipients: seq<Name>): (r: seq<DN>)
    ensures |r| == |recipients| && forall i :: 0 <= i < |r| ==> r[i] == DNOf(d, recipients[i])
  {
    seq(|recipients|, i requires 0 <= i < |recipients| => DNOf(d, recipients[i]))
  }

  lemma {:induction false} FindsExactly(d: Directory, recipients: seq<Name>)
    ensures FindDNs(d, recipients).None? <==> exists r :: r in recipients && Unknown(d, r)
    ensures FindDNs(d, recipients).Some? ==> FindDNs(d, recipients).value == DNsOf(d, recipients)
  {
    var found := FindDNs(d, recipients);
    if found.Some? {
      forall i | 0 <= i < |recipients| ensures found.value[i] == DNOf(d, recipients[i]) && !Unknown(d, recipients[i]) {
        assert FindDN(d, recipients[i]) == Some(found.value[i]);
      }
    } else {
      var i :| 0 <= i < |recipients| && FindDN(d, recipients[i]).None?;
      assert Unknown(d, recipients[i]);
    }
  }

  /** With these members the group would be on a cycle, or lead to one. */
  ghost predicate ClosesCycle(d: Directory, name: Name, members: seq<DN>) {
    !Acyclic(MemberGraph(Store(d, name, Group(members, [], "", ""))))
  }

  lemma {:induction false} CircularExactly(d: Directory, name: Name, members: seq<DN>)
    requires Acyclic(MemberGraph(d))
    ensures WouldBeCircular(d, name, members) <==> ClosesCycle(d, name, members)
  {
    CheckIsExact(d, name, Group(members, [], "", ""), members);
  }

  /** Exactly these members, none twice, in the order in which they first occur. */
  ghost predicate FirstOccurrences(members: seq<DN>, dns: seq<DN>) {
    && NoDuplicates(members) && Elements(members) == Elements(dns)
    && forall i, j :: 0 <= i < j < |members| ==>
      exists k :: 0 <= k < |dns| && dns[k] == members[i] && members[j] !in dns[..k+1]
  }

  // ---------------------------------------------------------------- create

  /** The first thing that is wrong with a request, if the mirrors are looked up first and leave `after`. */
  ghost function Problem(d: Directory, req: Request, after: Directory): Option<Refusal> {
    if exists m :: m in req.mirrors && IsBadMirror(d, m) then Some(BadMirror)
    else if req.mirrors == [] && req.recipients == [] then Some(EmptyGroup)
    else if IsBuiltIn(req.name) && req.name in req.mirrors then Some(NameNotUnique)
    else if req.name in d.accounts then Some(NameIsUser)
    else if exists r :: r in req.recipients && Unknown(after, r) then Some(MemberNotFound)
    else if ClosesCycle(after, req.name, DNsOf(after, req.recipients)) then Some(CircularReference)
    else None
  }

  lemma {:induction false} ValidateExactly(d: Directory, req: Request) returns (k: nat)
    requires req.name !in d.groups && Acyclic(MemberGraph(d))
    ensures GoodUpTo(d, req.mirrors, k) && AddsBuiltIns(d, req.mirrors[..k], Validate(d, req).0)
    ensures Validate(d, req).1 == Problem(d, req, Validate(d, req).0)
  {
    k := EnsuresExactly(d, req.mirrors);
    var after := EnsureMirrors(d, req.mirrors).0;
    assert Validate(d, req).0 == after;
    if k < |req.mirrors| {
      assert req.mirrors[k] in req.mirrors;
    } else {
      assert req.mirrors[..k] == req.mirrors;
      EnsureMirrorsKeepsAcyclic(d, req.mirrors);
      FindsExactly(after, req.recipients);
      CircularExactly(after, req.name, DNsOf(after, req.recipients));
    }
  }

  lemma {:induction false} DedupFirst(s: seq<DN>)
    ensures FirstOccurrences(Dedup(s), s)
  {
    DedupNoDuplicates(s);
    if s != [] {
      var init, x, r := s[..|s|-1], s[|s|-1], Dedup(s[..|s|-1]);
      DedupFirst(init);
      forall i, j | 0 <= i < j < |Dedup(s)|
        ensures exists k :: 0 <= k < |s| && s[k] == Dedup(s)[i] && Dedup(s)[j] !in s[..k+1]
      {
        assert r[i] in init;
        var k :| 0 <= k < |init| && init[k] == r[i] && (j < |r| ==> r[j] !in init[..k+1]);
        assert s[k] == r[i] && s[..k+1] == init[..k+1];
      }
    }
  }

  lemma {:induction false} AllMissing(more: seq<DN>)
    requires NoDuplicates(more)
    ensures AddMissing([], more) == more
  {
    if more != [] {
      var init, last := more[..|more|-1], more[|more|-1];
      AllMissing(init);
      assert more == init + [last];
      assert last !in init by { assert forall i :: 0 <= i < |init| ==> more[i] != last; }
    }
  }

  /** What is stored for a new group, and that nothing else changes. */
  ghost predicate StoresNew(after: Directory, req: Request, result: Directory) {
    exists members :: FirstOccurrences(members, DNsOf(after, req.recipients))
      && result == Store(after, req.name, Group(members, req.mirrors, req.description, ""))
  }

  lemma {:induction false} StoredEntry(d: Directory, req: Request, stack: nat)
    requires Create(d, req, stack).1 == Stored
    ensures FindDNs(Validate(d, req).0, req.recipients).Some?
    ensures
      var after := Validate(d, req).0;
      var members := SetMembers([], Dedup(FindDNs(after, req.recipients).value));
      Create(d, req, stack).0 == Store(after, req.name, Group(members, req.mirrors, req.description, ""))
  {
  }

  lemma {:induction false} StoredExactly(d: Directory, req: Request, stack: nat, after: Directory)
    requires Create(d, req, stack).1 == Stored && after == Validate(d, req).0
    ensures StoresNew(after, req, Create(d, req, stack).0)
  {
    var dns := DNsOf(after, req.recipients);
    StoredEntry(d, req, stack);
    FindsExactly(after, req.recipients);
    NewMembers(dns);
    assert Create(d, req, stack).0
      == Store(after, req.name, Group(SetMembers([], Dedup(dns)), req.mirrors, req.description, ""));
  }

  lemma {:induction false} NewMembers(dns: seq<DN>)
    ensures FirstOccurrences(SetMembers([], Dedup(dns)), dns)
  {
    var none: seq<DN> := [];
    DedupFirst(dns);
    AllMissing(Dedup(dns));
    assert KeepIn(none, Dedup(dns)) == none;
  }

  /** The rest of create: if some source cannot be listed it fails, and with no members at all it is refused. */
  ghost predicate Settles(after: Directory, req: Request, stack: nat, result: Directory, outcome: Outcome) {
    var listable := forall m :: m in req.mirrors ==> Buildable(after, m);
    && (!listable ==> outcome == Refused(NullMember) || outcome == Refused(StackOverflow))
    && (listable && stack >= |GroupDNs(after)| ==>
         outcome == if req.recipients == [] && !SomeListed(after, req.mirrors) then Refused(NoMembers) else Stored)
    && (outcome == Stored ==> StoresNew(after, req, result))
    && (outcome != Stored ==>
      result == after && outcome in {Refused(NullMember), Refused(StackOverflow), Refused(NoMembers)})
  }

  lemma {:induction false} CreateRefusesExisting(d: Directory, req: Request, stack: nat)
    ensures Create(d, req, stack).1 == Refused(GroupExists) <==> req.name in d.groups
    ensures req.name in d.groups ==> Create(d, req, stack).0 == d
  {
  }

  /**
   create of a new name: the missing built-in groups that it mirrors are created, up to the first
   bad mirror; if there is a problem the first is reported and nothing else changes; and if not,
   it is stored, unless the sources cannot be listed or no member comes together.
   */
  lemma {:induction false} CreateExactly(d: Directory, req: Request, stack: nat) returns (k: nat, after: Directory)
    requires req.name !in d.groups && Acyclic(MemberGraph(d))
    ensures GoodUpTo(d, req.mirrors, k) && AddsBuiltIns(d, req.mirrors[..k], after)
    ensures
      match Problem(d, req, after)
      case Some(p) => Create(d, req, stack) == (after, Refused(p))
      case None => Settles(after, req, stack, Create(d, req, stack).0, Create(d, req, stack).1)
  {
    k := ValidateExactly(d, req);
    after := Validate(d, req).0;
    if Problem(d, req, after).None? {
      CreateStoresExactly(d, req, stack);
      FindsExactly(after, req.recipients);
      if Create(d, req, stack).1 == Stored { StoredExactly(d, req, stack, after); }
    }
  }

  // ---------------------------------------------------------------- delete

  ghost predicate MirroredBySome(d: Directory, name: Name) {
    exists n, i :: n in d.groups && 0 <= i < |d.groups[n].mirrors| && d.groups[n].mirrors[i] == name
  }

  /** delete: only a group that no group mirrors and that is not built in goes, and nothing else changes. */
  lemma {:induction false} DeleteExactly(d: Directory, name: Name)
    ensures Delete(d, name).1 ==
      if name !in d.groups then NothingThere
      else if MirroredBySome(d, name) then Refused(MirrorsExist)
      else if IsBuiltIn(name) then Refused(CannotDeleteDefault)
      else Removed
    ensures Delete(d, name).1 == Removed ==>
      && name !in Delete(d, name).0.groups && Delete(d, name).0.accounts == d.accounts
      && (forall n :: n != name ==> (n in Delete(d, name).0.groups <==> n in d.groups))
      && (forall n :: n != name && n in d.groups ==> Delete(d, name).0.groups[n] == d.groups[n])
    ensures Delete(d, name).1 != Removed ==> Delete(d, name).0 == d
  {
    if n :| n in d.groups && name in d.groups[n].mirrors {
      var i :| 0 <= i < |d.groups[n].mirrors| && d.groups[n].mirrors[i] == name;
      assert MirroredBySome(d, name);
    }
  }

  // ---------------------------------------------------------------- update

  /** The wanted members, the old mirrors and those requested, and the texts of the request. */
  ghost predicate UpdatedEntry(old_: Group, req: Request, dns: seq<DN>, entry: Group) {
    && Elements(entry.members) == Elements(dns)
    && entry.mirrors == old_.mirrors + req.mirrors
    && entry.description == req.description && entry.storageQuota == req.storageQuota
  }

  ghost function UpdateOutcome(d: Directory, req: Request): Outcome {
    if req.name !in d.groups then Refused(GroupNotFound)
    else if exists r :: r in req.recipients && Unknown(d, r) then Refused(MemberNotFound)
    else if ClosesCycle(d, req.name, DNsOf(d, req.recipients)) then Refused(CircularReference)
    else Stored
  }

  /**
   update: an empty request deletes; else the entry alone is replaced, unless a recipient is unknown
   or a cycle would close.
   */
  lemma {:induction false} UpdateExactly(d: Directory, req: Request)
    requires Acyclic(MemberGraph(d))
    ensures req.name in d.groups && req.recipients == [] ==> Update(d, req) == Delete(d, req.name)
    ensures !(req.name in d.groups && req.recipients == []) ==> Update(d, req).1 == UpdateOutcome(d, req)
    ensures Update(d, req).1.Refused? ==> Update(d, req).0 == d
    ensures Update(d, req).1 == Stored ==>
      && req.name in d.groups && req.name in Update(d, req).0.groups
      && Update(d, req).0 == Store(d, req.name, Update(d, req).0.groups[req.name])
      && UpdatedEntry(d.groups[req.name], req, DNsOf(d, req.recipients), Update(d, req).0.groups[req.name])
  {
    FindsExactly(d, req.recipients);
    CircularExactly(d, req.name, DNsOf(d, req.recipients));
    if Update(d, req).1 == Stored {
      var dns := DNsOf(d, req.recipients);
      assert Update(d, req).0.groups[req.name].members == SetMembers(d.groups[req.name].members, Dedup(dns));
      assert Elements(Update(d, req).0.groups[req.name].members) == Elements(dns);
    }
  }

  // ---------------------------------------------------------------- the two built-in groups

  /** Adding an account: it is a member afterwards, the others stay in their order, and no other group changes. */
  lemma {:induction false} AddExactly(d: Directory, name: Name, account: Name)
    ensures
      var after := AddToGroup(d, name, account);
      var before := if name in d.groups then d.groups[name] else Group([], [], "", "");
      && name in after.groups && after == Store(d, name, after.groups[name])
      && after.groups[name] ==
        Group(after.groups[name].members, before.mirrors, before.description, before.storageQuota)
      && (AccountDN(account) in before.members ==> after.groups[name].members == before.members)
      && (AccountDN(account) !in before.members ==> after.groups[name].members == before.members + [AccountDN(account)])
  {
    var before := if name in d.groups then d.groups[name] else Group([], [], "", "");
    var one := [AccountDN(account)];
    assert one[..0] == [];
    assert AddMissing(before.members, one[..0]) == before.members;
    assert AddMissing(before.members, one)
      == if AccountDN(account) in before.members then before.members else before.members + one;
  }
}

/**
 The group directory of AccountGroupDAO: what create, update, delete and the two
 add-to-group operations do to it, on values.
 */
module AccountGroups {
  import opened Wrappers
  import opened Graphs

  type Name = string

  const DEFAULT_GROUP: Name := "cloudos-users"
  const ADMIN_GROUP: Name := "cloudos-admins"

  /** The LDAP entry of a group. Attribute values are kept in the order in which they were written. */
  datatype Group = Group(members: seq<DN>, mirrors: seq<Name>, description: string, storageQuota: string)

  /** Accounts and groups, by lower-case name. */
  datatype Directory = Directory(accounts: set<Name>, groups: map<Name, Group>)

  datatype Request = Request(name: Name, recipients: seq<Name>, mirrors: seq<Name>, description: string,
                             storageQuota: string)

  datatype Refusal =
    | GroupExists | GroupNotFound | BadMirror | EmptyGroup | NameNotUnique | NameIsUser | MemberNotFound
    | CircularReference | MirrorsExist | CannotDeleteDefault | NoMembers | NullMember | StackOverflow

  datatype Outcome = Stored | Removed | NothingThere | Refused(reason: Refusal)

  function EmptyGroupEntry(): Group {
    Group([], [], "", "")
  }

  // ---------------------------------------------------------------- lists

  /** First occurrences, in order: the list made from a HashSet of the values. */
  function Dedup(s: seq<DN>): (r: seq<DN>)
    ensures forall x :: x in r <==> x in s
  {
    if s == [] then []
    else
      var r := Dedup(s[..|s|-1]);
      if s[|s|-1] in r then r else r + [s[|s|-1]]
  }

  ghost predicate NoDuplicates(s: seq<DN>) {
    forall i, j :: 0 <= i < j < |s| ==> s[i] != s[j]
  }

  lemma {:induction false} DedupNoDuplicates(s: seq<DN>)
    ensures NoDuplicates(Dedup(s))
  {
    if s != [] { DedupNoDuplicates(s[..|s|-1]); }
  }

  function KeepIn(s: seq<DN>, keep: seq<DN>): (r: seq<DN>)
    ensures forall x :: x in r <==> x in s && x in keep
  {
    if s == [] then []
    else KeepIn(s[..|s|-1], keep) + if s[|s|-1] in keep then [s[|s|-1]] else []
  }

  /** The values of `more` that `s` lacks, each once, behind those of `s`. */
  function AddMissing(s: seq<DN>, more: seq<DN>): (r: seq<DN>)
    ensures forall x :: x in r <==> x in s || x in more
  {
    if more == [] then s
    else
      var r := AddMissing(s, more[..|more|-1]);
      if more[|more|-1] in r then r else r + [more[|more|-1]]
  }

  /** AccountGroup.setMembers: drop what is not asked for, then add what is missing. */
  function SetMembers(current: seq<DN>, wanted: seq<DN>): (r: seq<DN>)
    ensures forall x :: x in r <==> x in wanted
  {
    AddMissing(KeepIn(current, wanted), wanted)
  }

  // ---------------------------------------------------------------- names and edges

  /** findAccountOrGroupDN: an account of that name comes first; None is the exception. */
  function FindDN(d: Directory, recipient: Name): Option<DN> {
    if recipient in d.accounts then Some(AccountDN(recipient))
    else if recipient in d.groups then Some(GroupDN(recipient))
    else None
  }

  function FindDNs(d: Directory, recipients: seq<Name>): (r: Option<seq<DN>>)
    ensures r.Some? <==> forall i :: 0 <= i < |recipients| ==> FindDN(d, recipients[i]).Some?
    ensures r.Some? ==> |r.value| == |recipients|
    ensures r.Some? ==> forall i :: 0 <= i < |recipients| ==> Some(r.value[i]) == FindDN(d, recipients[i])
  {
    if recipients == [] then Some([])
    else
      var init := FindDNs(d, recipients[..|recipients|-1]);
      var last := FindDN(d, recipients[|recipients|-1]);
      if init.Some? && last.Some? then Some(init.value + [last.value])
      else None
  }

  /** The members listed for a DN: none for an account, nor for a group that is gone. */
  function MembersOf(d: Directory, x: DN): seq<DN> {
    if x.GroupDN? && x.group in d.groups then d.groups[x.group].members else []
  }

  function GroupDNs(d: Directory): set<DN> {
    set n | n in d.groups :: GroupDN(n)
  }

  /** The member graph: the groups that have members, with their member DNs, dangling ones included. */
  function MemberGraph(d: Directory): Graph {
    map x | x in GroupDNs(d) && MembersOf(d, x) != [] :: MembersOf(d, x)
  }

  lemma {:induction false} EdgesOf(d: Directory, x: DN)
    ensures Successors(MemberGraph(d), x) == MembersOf(d, x)
  {
  }

  /** The question createsCircularReference asks. */
  ghost predicate WouldBeCircular(d: Directory, group: Name, members: seq<DN>) {
    CycleFrom(MemberGraph(d)[GroupDN(group) := members], GroupDN(group))
  }

  // ---------------------------------------------------------------- buildGroupMemberList

  datatype Built = Members(dns: set<DN>) | NullPointer | Overflow

  /**
   buildGroupMemberList(group) with room for `stack` more calls: the group's own members and,
   through its mirror sources, their accounts and what buildGroupMemberList gives for their groups.
   */
  function Build(d: Directory, g: Group, stack: nat): Built
    decreases stack, 2, 0
  {
    if stack == 0 then Overflow
    else OverMirrors(d, g.mirrors, Elements(g.members), stack - 1)
  }

  /** The loop over the mirrors; a mirror that is not found is passed over. */
  function OverMirrors(d: Directory, mirrors: seq<Name>, sofar: set<DN>, stack: nat): Built
    decreases stack, 4, |mirrors|
  {
    if mirrors == [] then Members(sofar)
    else if mirrors[0] !in d.groups then OverMirrors(d, mirrors[1..], sofar, stack)
    else
      var r := OverMembers(d, d.groups[mirrors[0]].members, sofar, stack);
      if r.Members? then OverMirrors(d, mirrors[1..], r.dns, stack) else r
  }

  /** The loop over the members of one source; findByDn of a vanished group is null and is dereferenced. */
  function OverMembers(d: Directory, members: seq<DN>, sofar: set<DN>, stack: nat): Built
    decreases stack, 3, |members|
  {
    if members == [] then Members(sofar)
    else
      match members[0]
      case AccountDN(_) => OverMembers(d, members[1..], sofar + {members[0]}, stack)
      case GroupDN(n) =>
        if n !in d.groups then NullPointer
        else
          var r := Build(d, d.groups[n], stack);
          if r.Members? then OverMembers(d, members[1..], sofar + r.dns, stack) else r
  }

  /** buildGroupMemberList(group, recipients, true): the recipients and everything the mirrors give. */
  function BuildAll(d: Directory, mirrors: seq<Name>, sofar: set<DN>, stack: nat): Built
    decreases |mirrors|
  {
    if mirrors == [] then Members(sofar)
    else if mirrors[0] !in d.groups then BuildAll(d, mirrors[1..], sofar, stack)
    else
      var r := Build(d, d.groups[mirrors[0]], stack);
      if r.Members? then BuildAll(d, mirrors[1..], sofar + r.dns, stack) else r
  }

  // ---------------------------------------------------------------- the operations

  /** The loop of validate over the mirrors: the two built-in groups are created on demand. */
  function EnsureMirrors(d: Directory, mirrors: seq<Name>): (r: (Directory, bool))
    ensures r.0.accounts == d.accounts
    decreases |mirrors|
  {
    if mirrors == [] then (d, true)
    else if mirrors[0] in d.groups then EnsureMirrors(d, mirrors[1..])
    else if mirrors[0] == DEFAULT_GROUP || mirrors[0] == ADMIN_GROUP then
      EnsureMirrors(d.(groups := d.groups[mirrors[0] := EmptyGroupEntry()]), mirrors[1..])
    else (d, false)
  }

  /** validate: the directory with the built-in groups it may have created, and why it throws, if it does. */
  ghost function Validate(d: Directory, req: Request): (Directory, Option<Refusal>) {
    var (d1, mirrorsOk) := EnsureMirrors(d, req.mirrors);
    if !mirrorsOk then (d1, Some(BadMirror))
    else if req.mirrors == [] && req.recipients == [] then (d1, Some(EmptyGroup))
    else if req.name in d1.groups then (d1, Some(NameNotUnique))
    else if req.name in d1.accounts then (d1, Some(NameIsUser))
    else if FindDNs(d1, req.recipients).None? then (d1, Some(MemberNotFound))
    else if WouldBeCircular(d1, req.name, FindDNs(d1, req.recipients).value) then (d1, Some(CircularReference))
    else (d1, None)
  }

  ghost function Create(d: Directory, req: Request, stack: nat): (Directory, Outcome) {
    if req.name in d.groups then (d, Refused(GroupExists)) else
    var (d1, refusal) := Validate(d, req);
    if refusal.Some? then (d1, Refused(refusal.value)) else
    var dns := FindDNs(d1, req.recipients).value;
    match BuildAll(d1, req.mirrors, Elements(dns), stack)
    case NullPointer => (d1, Refused(NullMember))
    case Overflow => (d1, Refused(StackOverflow))
    case Members(all) =>
      if all == {} then (d1, Refused(NoMembers))
      else (d1.(groups := d1.groups[req.name :=
              Group(SetMembers([], Dedup(dns)), req.mirrors, req.description, "")]), Stored)
  }

  /** Is the group a mirror source of some group? (findMirrors) */
  predicate IsMirrored(d: Directory, name: Name) {
    exists n :: n in d.groups && name in d.groups[n].mirrors
  }

  function Delete(d: Directory, name: Name): (Directory, Outcome) {
    if name !in d.groups then (d, NothingThere)
    else if IsMirrored(d, name) then (d, Refused(MirrorsExist))
    else if name == DEFAULT_GROUP || name == ADMIN_GROUP then (d, Refused(CannotDeleteDefault))
    else (d.(groups := d.groups - {name}), Removed)
  }

  ghost function Update(d: Directory, req: Request): (Directory, Outcome) {
    if req.name !in d.groups then (d, Refused(GroupNotFound))
    else if req.recipients == [] then Delete(d, req.name)
    else if FindDNs(d, req.recipients).None? then (d, Refused(MemberNotFound))
    else
      var dns := FindDNs(d, req.recipients).value;
      if WouldBeCircular(d, req.name, dns) then (d, Refused(CircularReference))
      else
        var group := d.groups[req.name];
        var members, mirrors := SetMembers(group.members, Dedup(dns)), group.mirrors + req.mirrors;
        (d.(groups := d.groups[req.name := Group(members, mirrors, req.description, req.storageQuota)]), Stored)
  }

  /** addToDefaultGroup and addToAdminGroup: the group is created empty when it is missing. */
  function AddToGroup(d: Directory, name: Name, account: Name): Directory {
    var group := if name in d.groups then d.groups[name] else EmptyGroupEntry();
    d.(groups := d.groups[name := group.(members := AddMissing(group.members, [AccountDN(account)]))])
  }

  // ---------------------------------------------------------------- runs

  datatype Operation =
    | CreateGroup(request: Request, stack: nat)
    | UpdateGroup(request: Request)
    | DeleteGroup(name: Name)
    | AddToDefaultGroup(account: Name)
    | AddToAdminGroup(account: Name)
    | AccountAdded(account: Name)
    | AccountRemoved(account: Name)

  ghost function Apply(d: Directory, op: Operation): Directory {
    match op
    case CreateGroup(req, stack) => Create(d, req, stack).0
    case UpdateGroup(req) => Update(d, req).0
    case DeleteGroup(name) => Delete(d, name).0
    case AddToDefaultGroup(account) => AddToGroup(d, DEFAULT_GROUP, account)
    case AddToAdminGroup(account) => AddToGroup(d, ADMIN_GROUP, account)
    case AccountAdded(account) => d.(accounts := d.accounts + {account})
    case AccountRemoved(account) => d.(accounts := d.accounts - {account})
  }

  ghost function Run(d: Directory, ops: seq<Operation>): Directory {
    if ops == [] then d else Apply(Run(d, ops[..|ops|-1]), ops[|ops|-1])
  }
}

/**
 Queries whose keys are bracket paths, none a prefix of another: the tree that is built has
 exactly the given leaves, and its shape depends on nothing else.
 */
module PurlPaths {
  import opened Wrappers
  import opened Decimals
  import opened JavaScript
  import opened Purl

  type Path = seq<string>

  // ---------------------------------------------------------------- printed keys

  /** A path component: a name or a canonical array index, and not the name of an inherited property. */
  predicate Component(c: string) {
    c != "" && '[' !in c && ']' !in c && (IsInt(c) ==> IsIndex(c)) && c !in INHERITED
  }

  predicate Components(p: Path) {
    forall i :: 0 <= i < |p| ==> Component(p[i])
  }

  lemma {:induction false} ComponentsTail(p: Path)
    requires Components(p) && p != []
    ensures Component(p[0]) && Components(p[1..])
  {
    forall k | 0 <= k < |p[1..]| ensures Component(p[1..][k]) { assert p[1..][k] == p[k+1]; }
  }

  /** A path that can be a key: its first component must not hold the separator. */
  predicate KeyPath(p: Path) {
    p != [] && Components(p) && '=' !in p[0]
  }

  predicate Bracketless(p: Path) {
    forall i :: 0 <= i < |p| ==> '[' !in p[i] && ']' !in p[i]
  }

  lemma {:induction false} BracketlessTail(p: Path)
    requires Bracketless(p) && p != []
    ensures Bracketless(p[1..]) && '[' !in p[0] && ']' !in p[0]
  {
    forall k | 0 <= k < |p[1..]| ensures '[' !in p[1..][k] && ']' !in p[1..][k] { assert p[1..][k] == p[k+1]; }
  }

  /** A path that prints as a key; empty components behind the first print as `[]`. */
  predicate Printable(p: Path) {
    p != [] && p[0] != "" && '=' !in p[0] && Bracketless(p)
  }

  function Brackets(p: Path): string {
    if p == [] then "" else "[" + p[0] + "]" + Brackets(p[1..])
  }

  /** a[b][c] for the path a, b, c. */
  function PrintKey(p: Path): string
    requires p != []
  {
    p[0] + Brackets(p[1..])
  }

  function PrintPair(p: Path, val: string): string
    requires p != []
  {
    PrintKey(p) + "=" + val
  }

  /** The parts that splitting at `[` leaves of the bracketed components. */
  function BracketParts(p: Path): seq<string> {
    if p == [] then [] else [p[0] + "]"] + BracketParts(p[1..])
  }

  lemma {:induction false} IndexOfFirst(s: string, c: char, t: string)
    requires c !in s && (t != "" ==> t[0] == c)
    ensures IndexOf(s + t, c) == |s|
  {
    if s == "" {
      assert s + t == t;
    } else {
      assert (s + t)[1..] == s[1..] + t;
      IndexOfFirst(s[1..], c, t);
    }
  }

  lemma {:induction false} SplitBrackets(head: string, p: Path)
    requires '[' !in head && Bracketless(p)
    ensures Split(head + Brackets(p), '[') == [head] + BracketParts(p)
    decreases |p|
  {
    IndexOfFirst(head, '[', Brackets(p));
    if p == [] {
      assert head + Brackets(p) == head;
    } else {
      var s := head + Brackets(p);
      assert s[..|head|] == head;
      assert s[|head|+1..] == (p[0] + "]") + Brackets(p[1..]);
      BracketlessTail(p);
      SplitBrackets(p[0] + "]", p[1..]);
    }
  }

  /** Inside the brackets of a printed key no `=` counts, and behind them the next one does. */
  lemma {:induction false} SkipComponent(s: string, i: nat, j: nat, inside: bool)
    requires i <= j <= |s|
    requires forall k :: i <= k < j ==> s[k] != '[' && s[k] != ']' && (inside || s[k] != '=')
    ensures FirstOutside(s, i, inside) == FirstOutside(s, j, inside)
    decreases j - i
  {
    if i < j { SkipComponent(s, i + 1, j, inside); }
  }

  lemma {:induction false} SkipOne(s: string, i: nat, c: string, more: string)
    requires i <= |s| && s[i..] == "[" + c + "]" + more && '[' !in c && ']' !in c
    ensures i + |c| + 2 <= |s| && s[i+|c|+2..] == more
    ensures FirstOutside(s, i, false) == FirstOutside(s, i + |c| + 2, false)
  {
    var n, b := |c|, "[" + c + "]";
    assert s[i..] == b + more;
    assert forall k :: 0 <= k < n + 2 ==> s[i+k] == b[k];
    SkipComponent(s, i + 1, i + 1 + n, true);
  }

  lemma {:induction false} SkipBrackets(s: string, i: nat, p: Path, rest: string)
    requires i <= |s| && s[i..] == Brackets(p) + rest && Bracketless(p)
    requires rest != "" && rest[0] == '='
    ensures FirstOutside(s, i, false) == i + |Brackets(p)|
    decreases |p|
  {
    if p == [] {
      assert s[i..] == rest && s[i] == '=';
    } else {
      BracketlessTail(p);
      var n, more := |p[0]|, Brackets(p[1..]) + rest;
      assert s[i..] == "[" + p[0] + "]" + more;
      SkipOne(s, i, p[0], more);
      SkipBrackets(s, i + n + 2, p[1..], rest);
    }
  }

  lemma {:induction false} SeparatorFound(p: Path, val: string)
    requires Printable(p)
    ensures FirstOutside(PrintPair(p, val), 0, false) == |PrintKey(p)|
  {
    var pair, n := PrintPair(p, val), |p[0]|;
    BracketlessTail(p);
    assert pair == p[0] + (Brackets(p[1..]) + ("=" + val));
    assert forall k :: 0 <= k < n ==> pair[k] == p[0][k];
    SkipComponent(pair, 0, n, false);
    assert pair[n..] == Brackets(p[1..]) + ("=" + val);
    SkipBrackets(pair, n, p[1..], "=" + val);
  }

  lemma {:induction false} CutAtSeparator(key: string, val: string)
    requires key != "" && FirstOutside(key + "=" + val, 0, false) == |key|
    ensures KeyValue(key + "=" + val) == (key, val)
  {
    var pair := key + "=" + val;
    assert pair[..|key|] == key && pair[|key|..] == "=" + val;
    assert ("=" + val)[1..] == val;
  }

  /** parseString cuts a printed pair where it was joined, whatever the value holds. */
  lemma {:induction false} CutsPrintedPair(p: Path, val: string)
    requires Printable(p)
    ensures KeyValue(PrintPair(p, val)) == (PrintKey(p), val)
  {
    SeparatorFound(p, val);
    BracketlessTail(p);
    CutAtSeparator(PrintKey(p), val);
  }

  // ---------------------------------------------------------------- leaves of a tree

  /** Reading along `p` from `t` gives the string `v`. */
  predicate LeafAt(t: Js, p: Path, v: string) {
    if p == [] then t == Text(v)
    else (t.Obj? || t.Arr?) && p[0] in t.fields && LeafAt(t.fields[p[0]], p[1..], v)
  }

  /**
   A subtree as the parser builds it: not empty, an array exactly if all its keys are indices, with
   the length they need.
   */
  predicate WellFormed(t: Js) {
    match t
    case Text(_) => true
    case Builtin(_) => false
    case Arr(n, fields) =>
      && fields != map[]
      && (forall k :: k in fields ==> IsIndex(k) && Value(k) < n && WellFormed(fields[k]))
      && (exists k :: k in fields && IsIndex(k) && Value(k) + 1 == n)
    case Obj(fields) =>
      && (exists k :: k in fields && !IsInt(k))
      && (forall k :: k in fields ==> Component(k) && WellFormed(fields[k]))
  }

  /** The base object: like a subtree, but an object whatever its keys are. */
  predicate WellFormedBase(t: Js) {
    t.Obj? && forall k :: k in t.fields ==> Component(k) && WellFormed(t.fields[k])
  }

  lemma {:induction false} HasLeaf(t: Js) returns (p: Path, v: string)
    requires WellFormed(t)
    ensures LeafAt(t, p, v)
    decreases t
  {
    if t.Text? {
      p, v := [], t.text;
    } else {
      var k :| k in t.fields;
      var q;
      q, v := HasLeaf(t.fields[k]);
      p := [k] + q;
      assert p[1..] == q;
    }
  }

  ghost predicate SameLeaves(t: Js, u: Js) {
    forall p, v :: LeafAt(t, p, v) <==> LeafAt(u, p, v)
  }

  lemma {:induction false} SameLeavesBelow(t: Js, u: Js, k: string)
    requires SameLeaves(t, u) && (t.Obj? || t.Arr?) && (u.Obj? || u.Arr?) && k in t.fields && k in u.fields
    ensures SameLeaves(t.fields[k], u.fields[k])
  {
    forall p, v ensures LeafAt(t.fields[k], p, v) <==> LeafAt(u.fields[k], p, v) {
      var q := [k] + p;
      assert q[1..] == p;
      assert LeafAt(t, q, v) <==> LeafAt(u, q, v);
    }
  }

  lemma {:induction false} SameLeavesSameKeys(t: Js, u: Js)
    requires SameLeaves(t, u) && (t.Obj? || t.Arr?) && (u.Obj? || u.Arr?)
    requires forall k :: k in t.fields ==> WellFormed(t.fields[k])
    ensures t.fields.Keys <= u.fields.Keys
  {
    forall k | k in t.fields ensures k in u.fields {
      var p, v := HasLeaf(t.fields[k]);
      var q := [k] + p;
      assert q[1..] == p;
      assert LeafAt(t, q, v) && LeafAt(u, q, v);
    }
  }

  /** The leaves determine a subtree, arrays, objects and lengths included. */
  lemma {:induction false} LeavesDetermineTree(t: Js, u: Js)
    requires WellFormed(t) && WellFormed(u) && SameLeaves(t, u)
    ensures t == u
    decreases t
  {
    if t.Text? {
      assert LeafAt(t, [], t.text) && LeafAt(u, [], t.text);
    } else if u.Text? {
      assert LeafAt(u, [], u.text) && LeafAt(t, [], u.text);
    } else {
      SameLeavesSameKeys(t, u);
      SameLeavesSameKeys(u, t);
      forall k | k in t.fields ensures t.fields[k] == u.fields[k] {
        SameLeavesBelow(t, u, k);
        LeavesDetermineTree(t.fields[k], u.fields[k]);
      }
      assert t.fields == u.fields;
    }
  }

  lemma {:induction false} LeavesDetermineBase(t: Js, u: Js)
    requires WellFormedBase(t) && WellFormedBase(u) && SameLeaves(t, u)
    ensures t == u
  {
    SameLeavesSameKeys(t, u);
    SameLeavesSameKeys(u, t);
    forall k | k in t.fields ensures t.fields[k] == u.fields[k] {
      SameLeavesBelow(t, u, k);
      LeavesDetermineTree(t.fields[k], u.fields[k]);
    }
    assert t.fields == u.fields;
  }

  // ---------------------------------------------------------------- inserting one leaf

  /** What Parse does for a whole path of named parts. */
  function Insert(slot: Option<Js>, p: Path, val: string): Js
    decreases |p|
  {
    if p == [] then Leaf(slot, val)
    else
      var target := PromotedFor(OrNewArray(slot), p[0]);
      Put(target, p[0], Insert(Get(target, p[0]), p[1..], val))
  }

  lemma {:induction false} ParseIsInsert(p: Path, slot: Option<Js>, val: string)
    requires Components(p)
    ensures Parse(BracketParts(p), slot, val) == Insert(slot, p, val)
    decreases |p|
  {
    if p != [] {
      var part := p[0] + "]";
      ComponentsTail(p);
      assert part[|part|-1] == ']' && part[..|part|-1] == p[0];
      assert BracketParts(p)[1..] == BracketParts(p[1..]);
      var target := PromotedFor(OrNewArray(slot), p[0]);
      ParseIsInsert(p[1..], Get(target, p[0]), val);
    }
  }

  predicate IsPrefix(p: Path, q: Path) {
    |p| <= |q| && q[..|p|] == p
  }

  /** No leaf of the value lies above or below `p`. */
  ghost predicate Free(slot: Option<Js>, p: Path) {
    slot.Some? ==> forall q, w :: LeafAt(slot.value, q, w) ==> !IsPrefix(q, p) && !IsPrefix(p, q)
  }

  ghost predicate LeafIn(slot: Option<Js>, q: Path, w: string) {
    slot.Some? && LeafAt(slot.value, q, w)
  }

  lemma {:induction false} IndexIsComponent(k: string)
    requires IsIndex(k)
    ensures Component(k)
  {
    assert IsDigit(k[0]);
    forall c | c in k ensures IsDigit(c) { }
  }

  /** Writing a well-formed child into a subtree keeps it well formed, and changes that one property. */
  lemma {:induction false} PutChild(slot: Option<Js>, k: string, child: Js)
    requires slot.Some? ==> (slot.value.Obj? || slot.value.Arr?) && WellFormed(slot.value)
    requires Component(k) && WellFormed(child)
    ensures var r := Put(PromotedFor(OrNewArray(slot), k), k, child);
      && (r.Obj? || r.Arr?) && WellFormed(r)
      && r.fields == (if slot.None? then map[] else slot.value.fields)[k := child]
  {
    var target := PromotedFor(OrNewArray(slot), k);
    var r := Put(target, k, child);
    if slot.Some? && slot.value.Arr? {
      forall x | x in slot.value.fields ensures Component(x) { IndexIsComponent(x); }
    }
    if r.Arr? {
      assert IsIndex(k);
      if Value(k) + 1 == r.length {
        assert k in r.fields;
      } else {
        var x :| x in slot.value.fields && IsIndex(x) && Value(x) + 1 == slot.value.length;
        assert x in r.fields;
      }
    } else {
      if IsInt(k) {
        var x :| x in slot.value.fields && !IsInt(x);
        assert x in r.fields;
      } else {
        assert k in r.fields;
      }
    }
  }

  lemma {:induction false} FreeMeansNode(slot: Option<Js>, p: Path)
    requires slot.Some? ==> WellFormed(slot.value)
    requires Free(slot, p)
    ensures p == [] ==> slot.None?
    ensures slot.Some? ==> slot.value.Obj? || slot.value.Arr?
  {
    if slot.Some? {
      var q, w := HasLeaf(slot.value);
      assert !IsPrefix(p, q);
      if slot.value.Text? { assert LeafAt(slot.value, [], slot.value.text); }
    }
  }

  lemma {:induction false} PrefixBelow(p: Path, q: Path)
    requires p != [] && q != [] && p[0] == q[0]
    ensures IsPrefix(p, q) <==> IsPrefix(p[1..], q[1..])
  {
    if |p| <= |q| {
      assert q[..|p|] == [q[0]] + q[1..][..|p|-1];
      assert p == [p[0]] + p[1..];
    }
  }

  lemma {:induction false} FreeBelow(t: Js, p: Path)
    requires (t.Obj? || t.Arr?) && p != [] && p[0] in t.fields && Free(Some(t), p)
    ensures Free(Some(t.fields[p[0]]), p[1..])
  {
    forall q, w | LeafAt(t.fields[p[0]], q, w) ensures !IsPrefix(q, p[1..]) && !IsPrefix(p[1..], q) {
      var q' := [p[0]] + q;
      assert q'[1..] == q;
      assert LeafAt(t, q', w);
      PrefixBelow(q', p);
      PrefixBelow(p, q');
    }
  }

  /** Below a node whose property `k` was set, the leaves are those of the other properties and of the new child. */
  lemma {:induction false} LeavesAfterPut(r: Js, k: string, child: Js, q: Path, w: string)
    requires (r.Obj? || r.Arr?) && k in r.fields && r.fields[k] == child
    ensures LeafAt(r, q, w) <==> q != [] && if q[0] == k then LeafAt(child, q[1..], w)
                                            else q[0] in r.fields && LeafAt(r.fields[q[0]], q[1..], w)
  {
  }

  /** Inserting at a free path adds that leaf and keeps all others. */
  lemma {:induction false} InsertAddsLeaf(slot: Option<Js>, p: Path, val: string)
    requires slot.Some? ==> WellFormed(slot.value)
    requires Components(p) && Free(slot, p)
    ensures WellFormed(Insert(slot, p, val))
    ensures forall q, w :: LeafAt(Insert(slot, p, val), q, w) <==> (q == p && w == val) || LeafIn(slot, q, w)
    decreases |p|
  {
    FreeMeansNode(slot, p);
    if p != [] {
      ComponentsTail(p);
      var k := p[0];
      var target := PromotedFor(OrNewArray(slot), k);
      var below := Get(target, k);
      assert below == if slot.Some? && k in slot.value.fields then Some(slot.value.fields[k]) else None;
      if below.Some? { FreeBelow(slot.value, p); }
      InsertAddsLeaf(below, p[1..], val);
      var child := Insert(below, p[1..], val);
      PutChild(slot, k, child);
      var r := Insert(slot, p, val);
      forall q, w ensures LeafAt(r, q, w) <==> (q == p && w == val) || LeafIn(slot, q, w) {
        LeavesAfterPut(r, k, child, q, w);
        if q != [] && q[0] == k { assert q == p <==> q[1..] == p[1..]; }
      }
    }
  }

  // ---------------------------------------------------------------- whole queries

  lemma {:induction false} BaseAddsLeaf(base: Js, p: Path, val: string)
    requires WellFormedBase(base) && p != [] && Components(p) && Free(Some(base), p)
    ensures var r := Put(base, p[0], Insert(Get(base, p[0]), p[1..], val));
      && WellFormedBase(r)
      && forall q, w :: LeafAt(r, q, w) <==> (q == p && w == val) || LeafAt(base, q, w)
  {
    ComponentsTail(p);
    var k, below := p[0], Get(base, p[0]);
    if below.Some? { FreeBelow(base, p); }
    InsertAddsLeaf(below, p[1..], val);
    var child := Insert(below, p[1..], val);
    var r := Put(base, k, child);
    forall q, w ensures LeafAt(r, q, w) <==> (q == p && w == val) || LeafAt(base, q, w) {
      LeavesAfterPut(r, k, child, q, w);
      if q != [] && q[0] == k { assert q == p <==> q[1..] == p[1..]; }
    }
  }

  lemma {:induction false} NoBracketInFirst(p: Path)
    requires Printable(p)
    ensures ']' in PrintKey(p) <==> |p| > 1
    ensures PrintKey(p) != ""
  {
    BracketlessTail(p);
    if |p| == 1 {
      assert PrintKey(p) == p[0];
    } else {
      var q := p[1..];
      assert Brackets(q)[|q[0]|+1] == ']';
      assert PrintKey(p)[|p[0]| + |q[0]| + 1] == ']';
    }
  }

  lemma {:induction false} MergePlain(base: Js, p: Path, val: string)
    requires WellFormedBase(base) && KeyPath(p) && |p| == 1 && Free(Some(base), p)
    ensures Merge(base, PrintKey(p), val) == Put(base, p[0], Insert(Get(base, p[0]), p[1..], val))
  {
    NoBracketInFirst(p);
    ComponentsTail(p);
    assert PrintKey(p) == p[0] && p[1..] == [];
    if p[0] in base.fields {
      FreeBelow(base, p);
      FreeMeansNode(Get(base, p[0]), p[1..]);
    }
  }

  /** A key with brackets is parsed from its second part on, below the property that the first names. */
  lemma {:induction false} MergeBracketedKey(base: Js, p: Path, val: string)
    requires base.Obj? && Printable(p) && |p| > 1
    ensures Merge(base, PrintKey(p), val) == Put(base, p[0], Parse(BracketParts(p[1..]), Get(base, p[0]), val))
  {
    NoBracketInFirst(p);
    BracketlessTail(p);
    SplitBrackets(p[0], p[1..]);
    NamedFirst(base, p[0], BracketParts(p[1..]), val);
  }

  lemma {:induction false} NamedFirst(base: Js, first: string, rest: seq<string>, val: string)
    requires base.Obj? && first != "" && ']' !in first
    ensures Parse([first] + rest, Some(base), val) == Put(base, first, Parse(rest, Get(base, first), val))
  {
    assert ([first] + rest)[1..] == rest;
  }

  lemma {:induction false} MergeBracketed(base: Js, p: Path, val: string)
    requires base.Obj? && KeyPath(p) && |p| > 1
    ensures Merge(base, PrintKey(p), val) == Put(base, p[0], Insert(Get(base, p[0]), p[1..], val))
  {
    ComponentsTail(p);
    MergeBracketedKey(base, p, val);
    ParseIsInsert(p[1..], Get(base, p[0]), val);
  }

  /** Merging a printed pair inserts its leaf. */
  lemma {:induction false} MergePrinted(base: Js, p: Path, val: string)
    requires WellFormedBase(base) && KeyPath(p) && Free(Some(base), p)
    ensures MergePair(base, PrintPair(p, val)) == Put(base, p[0], Insert(Get(base, p[0]), p[1..], val))
  {
    CutsPrintedPair(p, val);
    if |p| > 1 { MergeBracketed(base, p, val); } else { MergePlain(base, p, val); }
  }

  ghost predicate PrefixFree(paths: seq<Path>) {
    forall i, j :: 0 <= i < |paths| && 0 <= j < |paths| && i != j ==> !IsPrefix(paths[i], paths[j])
  }

  /** The pairs are the printed paths with their values. */
  ghost predicate Printed(pairs: seq<string>, paths: seq<Path>, vals: seq<string>) {
    && |pairs| == |paths| == |vals|
    && forall i :: 0 <= i < |pairs| ==> KeyPath(paths[i]) && pairs[i] == PrintPair(paths[i], vals[i])
  }

  ghost predicate Given(paths: seq<Path>, vals: seq<string>, q: Path, w: string)
    requires |paths| == |vals|
  {
    exists i :: 0 <= i < |paths| && q == paths[i] && w == vals[i]
  }

  /** Parsing gives a tree with exactly the printed paths as leaves, each with its value. */
  lemma {:induction false} ParsesToGivenLeaves(pairs: seq<string>, paths: seq<Path>, vals: seq<string>)
    requires Printed(pairs, paths, vals) && PrefixFree(paths)
    ensures WellFormedBase(ParsePairs(pairs))
    ensures forall q, w :: LeafAt(ParsePairs(pairs), q, w) <==> Given(paths, vals, q, w)
    decreases |pairs|
  {
    if pairs != [] {
      var n := |pairs| - 1;
      var before, p, v := ParsePairs(pairs[..n]), paths[n], vals[n];
      ParsesToGivenLeaves(pairs[..n], paths[..n], vals[..n]);
      assert Free(Some(before), p) by {
        forall q, w | LeafAt(before, q, w) ensures !IsPrefix(q, p) && !IsPrefix(p, q) {
          var i :| 0 <= i < n && q == paths[..n][i] && w == vals[..n][i];
          assert q == paths[i];
        }
      }
      MergePrinted(before, p, v);
      BaseAddsLeaf(before, p, v);
      forall q, w ensures LeafAt(ParsePairs(pairs), q, w) <==> Given(paths, vals, q, w) {
        GivenOneMore(paths, vals, q, w);
      }
    }
  }

  lemma {:induction false} GivenOneMore(paths: seq<Path>, vals: seq<string>, q: Path, w: string)
    requires |paths| == |vals| > 0
    ensures Given(paths, vals, q, w) <==>
      || (q == paths[|paths|-1] && w == vals[|paths|-1])
      || Given(paths[..|paths|-1], vals[..|paths|-1], q, w)
  {
    var n := |paths| - 1;
    if Given(paths, vals, q, w) {
      var i :| 0 <= i < |paths| && q == paths[i] && w == vals[i];
      if i < n { assert paths[..n][i] == q && vals[..n][i] == w; }
    }
    if Given(paths[..n], vals[..n], q, w) {
      var i :| 0 <= i < n && q == paths[..n][i] && w == vals[..n][i];
      assert paths[i] == q && vals[i] == w;
    }
  }

  /** The same paths and values give the same tree in every order, arrays, objects and lengths included. */
  lemma {:induction false} OrderOfPairsIsIrrelevant(pairs: seq<string>, paths: seq<Path>, vals: seq<string>,
                                                    pairs': seq<string>, paths': seq<Path>, vals': seq<string>)
    requires Printed(pairs, paths, vals) && PrefixFree(paths)
    requires Printed(pairs', paths', vals') && PrefixFree(paths')
    requires forall q, w :: Given(paths, vals, q, w) <==> Given(paths', vals', q, w)
    ensures ParsePairs(pairs) == ParsePairs(pairs')
  {
    ParsesToGivenLeaves(pairs, paths, vals);
    ParsesToGivenLeaves(pairs', paths', vals');
    forall q, w ensures LeafAt(ParsePairs(pairs), q, w) <==> LeafAt(ParsePairs(pairs'), q, w) {
      assert Given(paths, vals, q, w) <==> Given(paths', vals', q, w);
    }
    LeavesDetermineBase(ParsePairs(pairs), ParsePairs(pairs'));
  }

  // ---------------------------------------------------------------- from the query string

  /** The pairs with the separators between them, as the query string holds them. */
  function Join(raws: seq<string>, seps: string): string
    requires |raws| == |seps| + 1
  {
    if seps == [] then raws[0] else raws[0] + [seps[0]] + Join(raws[1..], seps[1..])
  }

  /** Each separator is `&` or `;`. */
  predicate Separators(seps: string) { forall i :: 0 <= i < |seps| ==> seps[i] == '&' || seps[i] == ';' }

  predicate NoSeparator(s: string) { '&' !in s && ';' !in s }

  lemma {:induction false} AbsentPrefix(s: string, t: string, c: char)
    requires c !in s
    ensures IndexOf(s + t, c) >= |s|
  {
    assert forall i :: 0 <= i < |s| ==> (s + t)[i] == s[i];
  }

  lemma {:induction false} SplitLast(s: string)
    requires NoSeparator(s)
    ensures SplitQuery(s) == [s]
  {
  }

  lemma {:induction false} SplitFirst(s: string, sep: char, rest: string)
    requires NoSeparator(s) && (sep == '&' || sep == ';')
    ensures SplitQuery(s + [sep] + rest) == [s] + SplitQuery(rest)
  {
    var str, more := s + [sep] + rest, [sep] + rest;
    assert str == s + more;
    IndexOfFirst(s, sep, more);
    AbsentPrefix(s, more, '&');
    AbsentPrefix(s, more, ';');
    assert str[|s|] == sep && str[..|s|] == s && str[|s|+1..] == rest;
  }

  lemma {:induction false} SplitJoined(raws: seq<string>, seps: string)
    requires |raws| == |seps| + 1 && Separators(seps) && forall i :: 0 <= i < |raws| ==> NoSeparator(raws[i])
    ensures SplitQuery(Join(raws, seps)) == raws
    decreases |raws|
  {
    if seps == [] {
      SplitLast(raws[0]);
    } else {
      SplitJoined(raws[1..], seps[1..]);
      SplitFirst(raws[0], seps[0], Join(raws[1..], seps[1..]));
      assert raws == [raws[0]] + raws[1..];
    }
  }

  /** The whole way from the query string: pairs that decode to printed paths give exactly their leaves. */
  lemma {:induction false} QueryParsesToGivenLeaves(raws: seq<string>, seps: string, decode: string -> string,
                                                    paths: seq<Path>, vals: seq<string>)
    requires |raws| == |seps| + 1 && Separators(seps) && forall i :: 0 <= i < |raws| ==> NoSeparator(raws[i])
    requires Printed(Map(decode, raws), paths, vals) && PrefixFree(paths)
    ensures forall q, w :: LeafAt(ParseString(Join(raws, seps), decode), q, w) <==> Given(paths, vals, q, w)
  {
    SplitJoined(raws, seps);
    ParsesToGivenLeaves(Map(decode, raws), paths, vals);
  }

  // ---------------------------------------------------------------- round trip

  /** In one tree no leaf lies above another. */
  lemma {:induction false} LeavesArePrefixFree(t: Js, p: Path, v: string, q: Path, w: string)
    requires LeafAt(t, p, v) && LeafAt(t, q, w) && IsPrefix(p, q)
    ensures p == q && v == w
    decreases |p|
  {
    if p != [] {
      assert q[0] == q[..|p|][0] == p[0];
      assert q[1..][..|p[1..]|] == q[..|p|][1..] == p[1..];
      LeavesArePrefixFree(t.fields[p[0]], p[1..], v, q[1..], w);
      assert p == [p[0]] + p[1..] && q == [q[0]] + q[1..];
    }
  }

  /** Printing every leaf of a tree once, in any order, and parsing the pairs gives the tree back. */
  lemma {:induction false} ParsingInvertsPrinting(t: Js, pairs: seq<string>, paths: seq<Path>, vals: seq<string>)
    requires WellFormedBase(t) && Printed(pairs, paths, vals)
    requires forall i, j :: 0 <= i < j < |paths| ==> paths[i] != paths[j]
    requires forall q, w :: LeafAt(t, q, w) <==> Given(paths, vals, q, w)
    ensures ParsePairs(pairs) == t
  {
    forall i, j | 0 <= i < |paths| && 0 <= j < |paths| && i != j ensures !IsPrefix(paths[i], paths[j]) {
      assert Given(paths, vals, paths[i], vals[i]) && Given(paths, vals, paths[j], vals[j]);
      if IsPrefix(paths[i], paths[j]) { LeavesArePrefixFree(t, paths[i], vals[i], paths[j], vals[j]); }
    }
    ParsesToGivenLeaves(pairs, paths, vals);
    assert SameLeaves(ParsePairs(pairs), t);
    LeavesDetermineBase(ParsePairs(pairs), t);
  }
}

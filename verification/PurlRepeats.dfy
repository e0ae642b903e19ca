/**
 Queries whose keys are bracket paths that may be repeated: each path reads its values in order
 of occurrence. And what happens where one key is a prefix of another.
 */
module PurlRepeats {
  import opened Wrappers
  import opened Decimals
  import opened JavaScript
  import opened Purl
  import opened PurlPaths
  import L = PurlLists

  /** A pair, as the path of its key and its value. */
  datatype Item = Item(path: Path, val: string)

  /** Walking along the path. */
  function Read(t: Js, p: Path): Option<Js>
    decreases |p|
  {
    if p == [] then Some(t)
    else if (t.Obj? || t.Arr?) && p[0] in t.fields then Read(t.fields[p[0]], p[1..])
    else None
  }

  /** The values at a path, in order of occurrence. */
  function ValuesAt(items: seq<Item>, p: Path): seq<string> {
    if items == [] then []
    else
      var last := items[|items|-1];
      ValuesAt(items[..|items|-1], p) + if last.path == p then [last.val] else []
  }

  /** The items whose path begins with `k`, from there on. */
  function Below(items: seq<Item>, k: string): seq<Item> {
    if items == [] then []
    else
      var last := items[|items|-1];
      Below(items[..|items|-1], k)
      + if last.path != [] && last.path[0] == k then [Item(last.path[1..], last.val)] else []
  }

  /** Paths that differ are not prefixes of each other. */
  predicate Apart(items: seq<Item>) {
    forall i, j :: 0 <= i < |items| && 0 <= j < |items| && IsPrefix(items[i].path, items[j].path) ==>
      items[i].path == items[j].path
  }

  predicate AllComponents(items: seq<Item>) { forall i :: 0 <= i < |items| ==> Components(items[i].path) }

  /** An object, or an array that is empty if its length is 0. */
  predicate IsNode(t: Js) { t.Obj? || (t.Arr? && (t.length == 0 ==> t.fields == map[])) }

  /** The tree of the items: at each path its values, and nothing else. */
  ghost predicate Holds(t: Js, items: seq<Item>)
    decreases t
  {
    && items != []
    && if items[0].path == [] then L.StoredAs(t, ValuesAt(items, []))
       else
         && IsNode(t)
         && forall k ::
           (k in t.fields <==> Below(items, k) != []) && (k in t.fields ==> Holds(t.fields[k], Below(items, k)))
  }

  // ---------------------------------------------------------------- grouping

  lemma {:induction false} BelowFrom(items: seq<Item>, k: string, b: Item)
    ensures b in Below(items, k) <==> Item([k] + b.path, b.val) in items
  {
    if items != [] {
      var init, last := items[..|items|-1], items[|items|-1];
      BelowFrom(items[..|items|-1], k, b);
      assert items == init + [last];
      if last.path != [] && last.path[0] == k { assert last.path == [k] + last.path[1..]; }
      assert last == Item([k] + b.path, b.val) <==>
        last.path != [] && last.path[0] == k && Item(last.path[1..], last.val) == b;
    }
  }

  lemma {:induction false} PrefixUnder(k: string, p: Path, q: Path)
    ensures IsPrefix([k] + p, [k] + q) <==> IsPrefix(p, q)
    ensures [k] + p == [k] + q <==> p == q
  {
    PrefixBelow([k] + p, [k] + q);
    assert ([k] + p)[1..] == p && ([k] + q)[1..] == q;
  }

  lemma {:induction false} BelowKeeps(items: seq<Item>, k: string)
    requires Apart(items) && AllComponents(items)
    ensures Apart(Below(items, k)) && AllComponents(Below(items, k))
  {
    var r := Below(items, k);
    forall i, j | 0 <= i < |r| && 0 <= j < |r| && IsPrefix(r[i].path, r[j].path) ensures r[i].path == r[j].path {
      BelowFrom(items, k, r[i]);
      BelowFrom(items, k, r[j]);
      PrefixUnder(k, r[i].path, r[j].path);
    }
    forall i | 0 <= i < |r| ensures Components(r[i].path) {
      BelowFrom(items, k, r[i]);
      var p := [k] + r[i].path;
      assert Components(p);
      ComponentsTail(p);
      assert p[1..] == r[i].path;
    }
  }

  lemma {:induction false} ValuesBelow(items: seq<Item>, k: string, p: Path)
    ensures ValuesAt(Below(items, k), p) == ValuesAt(items, [k] + p)
  {
    if items != [] {
      var init, last := items[..|items|-1], items[|items|-1];
      ValuesBelow(init, k, p);
      if last.path != [] && last.path[0] == k {
        var tail := Item(last.path[1..], last.val);
        assert last.path == [k] + tail.path;
        assert Below(items, k) == Below(init, k) + [tail] && Below(items, k)[..|Below(init, k)|] == Below(init, k);
        assert last.path == [k] + p <==> tail.path == p;
      } else {
        assert Below(items, k) == Below(init, k);
        assert last.path != [k] + p;
      }
    }
  }

  lemma {:induction false} OneMoreBelow(items: seq<Item>, it: Item, k: string)
    ensures Below(items + [it], k) ==
      if it.path != [] && it.path[0] == k then Below(items, k) + [Item(it.path[1..], it.val)] else Below(items, k)
    ensures it.path == [] ==> ValuesAt(items + [it], []) == ValuesAt(items, []) + [it.val]
  {
    assert (items + [it])[..|items|] == items;
  }

  /** With the new item the items stay apart, so all of them end here or none does. */
  lemma {:induction false} EndsTogether(items: seq<Item>, it: Item)
    requires Apart(items + [it]) && items != []
    ensures items[0].path == [] <==> it.path == []
    ensures forall i :: 0 <= i < |items| ==> (items[i].path == [] <==> it.path == [])
    ensures Apart(items)
  {
    var all := items + [it];
    assert all[|items|] == it;
    forall i | 0 <= i < |items| ensures items[i].path == [] <==> it.path == [] {
      assert all[i] == items[i];
      assert IsPrefix([], items[i].path) && IsPrefix([], it.path);
    }
    forall i, j | 0 <= i < |items| && 0 <= j < |items| && IsPrefix(items[i].path, items[j].path)
      ensures items[i].path == items[j].path
    {
      assert all[i] == items[i] && all[j] == items[j];
    }
  }

  // ---------------------------------------------------------------- one more item

  ghost predicate HoldsIn(slot: Option<Js>, items: seq<Item>) {
    match slot case None => items == [] case Some(t) => Holds(t, items)
  }

  lemma {:induction false} LeafStores(slot: Option<Js>, vals: seq<string>, val: string)
    requires match slot case None => vals == [] case Some(t) => vals != [] && L.StoredAs(t, vals)
    ensures L.StoredAs(Leaf(slot, val), vals + [val])
  {
    if slot.Some? {
      if |vals| == 1 {
        L.PairStored(vals[0], val);
        assert vals + [val] == [vals[0], val];
      } else {
        L.PushStored(slot.value, vals, val);
      }
    }
  }

  lemma {:induction false} ValuesOfAll(items: seq<Item>)
    requires forall i :: 0 <= i < |items| ==> items[i].path == []
    ensures |ValuesAt(items, [])| == |items|
  {
    if items != [] { ValuesOfAll(items[..|items|-1]); }
  }

  /** Inserting an item into the tree of the others gives the tree of all. */
  lemma {:induction false} InsertHolds(slot: Option<Js>, items: seq<Item>, it: Item)
    requires HoldsIn(slot, items) && Apart(items + [it]) && AllComponents(items + [it])
    ensures Holds(Insert(slot, it.path, it.val), items + [it])
    decreases |it.path|
  {
    var all := items + [it];
    assert all[|items|] == it;
    if items != [] { EndsTogether(items, it); }
    OneMoreBelow(items, it, "");
    if it.path == [] {
      ValuesOfAll(items);
      LeafStores(slot, ValuesAt(items, []), it.val);
    } else {
      InsertBelow(slot, items, it);
    }
  }

  lemma {:induction false} InsertBelow(slot: Option<Js>, items: seq<Item>, it: Item)
    requires HoldsIn(slot, items) && Apart(items + [it]) && AllComponents(items + [it]) && it.path != []
    requires items != [] ==> items[0].path != []
    ensures Holds(Insert(slot, it.path, it.val), items + [it])
    decreases |it.path|, 0
  {
    var k, tail := it.path[0], Item(it.path[1..], it.val);
    TailItems(items, it);
    var below := Get(PromotedFor(OrNewArray(slot), k), k);
    SlotBelow(slot, items, k);
    InsertHolds(below, Below(items, k), tail);
    var child := Insert(below, tail.path, tail.val);
    AddChild(slot, items, it, child);
    assert Insert(slot, it.path, it.val) == Put(PromotedFor(OrNewArray(slot), k), k, child);
  }

  lemma {:induction false} TailItems(items: seq<Item>, it: Item)
    requires Apart(items + [it]) && AllComponents(items + [it]) && it.path != []
    ensures
      var k, tail := it.path[0], Item(it.path[1..], it.val);
      && Component(k) && Below(items + [it], k) == Below(items, k) + [tail]
      && Apart(Below(items, k) + [tail]) && AllComponents(Below(items, k) + [tail])
  {
    assert (items + [it])[|items|] == it;
    ComponentsTail(it.path);
    OneMoreBelow(items, it, it.path[0]);
    BelowKeeps(items + [it], it.path[0]);
  }

  function FieldsOf(slot: Option<Js>): map<string, Js> {
    if slot.Some? && (slot.value.Obj? || slot.value.Arr?) then slot.value.fields else map[]
  }

  lemma {:induction false} SlotBelow(slot: Option<Js>, items: seq<Item>, k: string)
    requires HoldsIn(slot, items) && (items != [] ==> items[0].path != []) && Component(k)
    ensures slot.Some? ==> IsNode(slot.value)
    ensures FieldsHold(FieldsOf(slot), items)
    ensures HoldsIn(Get(PromotedFor(OrNewArray(slot), k), k), Below(items, k))
  {
    if slot.Some? { HoldsIfFields(slot.value, items); }
    assert FieldHolds(FieldsOf(slot), k, Below(items, k));
    TargetReads(slot, k);
  }

  lemma {:induction false} TargetReads(slot: Option<Js>, k: string)
    requires (slot.Some? ==> IsNode(slot.value)) && Component(k)
    ensures Get(PromotedFor(OrNewArray(slot), k), k) ==
      if k in FieldsOf(slot) then Some(FieldsOf(slot)[k]) else None
  {
  }

  lemma {:induction false} AddChild(slot: Option<Js>, items: seq<Item>, it: Item, child: Js)
    requires it.path != [] && Component(it.path[0]) && (slot.Some? ==> IsNode(slot.value))
    requires FieldsHold(FieldsOf(slot), items) && Holds(child, Below(items + [it], it.path[0]))
    requires items != [] ==> items[0].path != []
    ensures Holds(Put(PromotedFor(OrNewArray(slot), it.path[0]), it.path[0], child), items + [it])
  {
    PutIsNode(slot, it.path[0], child);
    FieldsHoldOneMore(FieldsOf(slot), items, it, child);
    HoldsIfFields(Put(PromotedFor(OrNewArray(slot), it.path[0]), it.path[0], child), items + [it]);
  }

  /** A property is there exactly if items are below it, and holds them. */
  ghost predicate FieldHolds(fields: map<string, Js>, k: string, below: seq<Item>) {
    (k in fields <==> below != []) && (k in fields ==> Holds(fields[k], below))
  }

  ghost predicate FieldsHold(fields: map<string, Js>, items: seq<Item>) {
    forall k :: FieldHolds(fields, k, Below(items, k))
  }

  lemma {:induction false} HoldsIfFields(r: Js, items: seq<Item>)
    requires IsNode(r) && items != [] && items[0].path != []
    ensures Holds(r, items) <==> FieldsHold(r.fields, items)
  {
    if Holds(r, items) {
      forall k ensures FieldHolds(r.fields, k, Below(items, k)) { }
    }
    if FieldsHold(r.fields, items) {
      forall k
        ensures (k in r.fields <==> Below(items, k) != []) && (k in r.fields ==> Holds(r.fields[k], Below(items, k)))
      {
        assert FieldHolds(r.fields, k, Below(items, k));
      }
    }
  }

  lemma {:induction false} FieldsHoldOneMore(fields: map<string, Js>, items: seq<Item>, it: Item, child: Js)
    requires FieldsHold(fields, items) && it.path != []
    requires Holds(child, Below(items + [it], it.path[0]))
    ensures FieldsHold(fields[it.path[0] := child], items + [it])
  {
    forall k ensures FieldHolds(fields[it.path[0] := child], k, Below(items + [it], k)) {
      OneMoreBelow(items, it, k);
      assert FieldHolds(fields, k, Below(items, k));
      HoldsSomething(child, Below(items + [it], it.path[0]));
    }
  }

  lemma {:induction false} HoldsSomething(t: Js, items: seq<Item>)
    requires Holds(t, items)
    ensures items != []
  {
  }

  lemma {:induction false} PutIsNode(slot: Option<Js>, k: string, child: Js)
    requires (slot.Some? ==> IsNode(slot.value)) && Component(k)
    ensures
      var r := Put(PromotedFor(OrNewArray(slot), k), k, child);
      IsNode(r) && r.fields == FieldsOf(slot)[k := child]
  {
  }

  // ---------------------------------------------------------------- whole queries

  /** A plain key merges as a path of one component, if what is there is no object. */
  lemma {:induction false} MergePlainCell(base: Js, k: string, val: string)
    requires base.Obj? && KeyPath([k]) && (k in base.fields ==> base.fields[k].Text? || base.fields[k].Arr?)
    ensures MergePair(base, PrintPair([k], val)) == Put(base, k, Leaf(Get(base, k), val))
  {
    var p := [k];
    CutsPrintedPair(p, val);
    NoBracketInFirst(p);
    assert PrintKey(p) == k;
    ComponentsTail(p);
  }

  lemma {:induction false} MergeLonger(base: Js, p: Path, val: string)
    requires base.Obj? && KeyPath(p) && |p| > 1
    ensures MergePair(base, PrintPair(p, val)) == Put(base, p[0], Insert(Get(base, p[0]), p[1..], val))
  {
    CutsPrintedPair(p, val);
    MergeBracketed(base, p, val);
  }

  ghost predicate BaseHolds(base: Js, items: seq<Item>) {
    base.Obj? && FieldsHold(base.fields, items)
  }

  lemma {:induction false} BaseOneMore(base: Js, items: seq<Item>, it: Item)
    requires BaseHolds(base, items) && KeyPath(it.path) && Apart(items + [it]) && AllComponents(items + [it])
    ensures BaseHolds(MergePair(base, PrintPair(it.path, it.val)), items + [it])
  {
    var k, tail := it.path[0], Item(it.path[1..], it.val);
    TailItems(items, it);
    assert FieldHolds(base.fields, k, Below(items, k));
    InsertHolds(Get(base, k), Below(items, k), tail);
    var child := Insert(Get(base, k), tail.path, tail.val);
    if |it.path| == 1 {
      assert it.path == [k];
      if k in base.fields {
        EndsTogether(Below(items, k), tail);
        assert L.StoredAs(base.fields[k], ValuesAt(Below(items, k), []));
      }
      MergePlainCell(base, k, it.val);
      assert tail.path == [];
    } else {
      MergeLonger(base, it.path, it.val);
    }
    FieldsHoldOneMore(base.fields, items, it, child);
  }

  /** The pairs are the printed items. */
  ghost predicate PrintedItems(pairs: seq<string>, items: seq<Item>) {
    && |pairs| == |items|
    && forall i :: 0 <= i < |items| ==> KeyPath(items[i].path) && pairs[i] == PrintPair(items[i].path, items[i].val)
  }

  lemma {:induction false} FirstItems(items: seq<Item>, i: nat)
    requires i < |items| && Apart(items) && AllComponents(items)
    ensures items[..i+1] == items[..i] + [items[i]] && Apart(items[..i+1]) && AllComponents(items[..i+1])
  {
    var s := items[..i+1];
    forall a, b | 0 <= a < |s| && 0 <= b < |s| && IsPrefix(s[a].path, s[b].path) ensures s[a].path == s[b].path {
      assert s[a] == items[a] && s[b] == items[b];
    }
    forall a | 0 <= a < |s| ensures Components(s[a].path) { assert s[a] == items[a]; }
  }

  lemma {:induction false} ParsedHolds(pairs: seq<string>, items: seq<Item>)
    requires PrintedItems(pairs, items) && Apart(items)
    ensures BaseHolds(ParsePairs(pairs), items)
  {
    assert AllComponents(items) by {
      forall i | 0 <= i < |items| ensures Components(items[i].path) { assert KeyPath(items[i].path); }
    }
    var holds := (base: Js, i: nat) => i <= |items| && BaseHolds(base, items[..i]);
    assert holds(Obj(map[]), 0);
    forall base, i | 0 <= i < |pairs| && holds(base, i) ensures holds(MergePair(base, pairs[i]), i + 1) {
      FirstItems(items, i);
      BaseOneMore(base, items[..i], items[i]);
    }
    ParsedStepwise(pairs, holds);
    assert items[..|items|] == items;
  }

  // ---------------------------------------------------------------- reading

  lemma {:induction false} HoldsReads(t: Js, items: seq<Item>, it: Item)
    requires Holds(t, items) && it in items && Apart(items) && AllComponents(items)
    ensures Read(t, it.path).Some? && L.StoredAs(Read(t, it.path).value, ValuesAt(items, it.path))
    decreases |it.path|
  {
    var i :| 0 <= i < |items| && items[i] == it;
    assert IsPrefix([], items[0].path) && IsPrefix([], it.path);
    if it.path != [] {
      var k, tail := it.path[0], Item(it.path[1..], it.val);
      assert it == Item([k] + tail.path, tail.val);
      BelowFrom(items, k, tail);
      BelowKeeps(items, k);
      HoldsReads(t.fields[k], Below(items, k), tail);
      ValuesBelow(items, k, tail.path);
      assert [k] + tail.path == it.path;
    }
  }

  /** Every string in the tree lies at the end of some item's path, or in the array there. */
  lemma {:induction false} HoldsNothingElse(t: Js, items: seq<Item>, q: Path, w: string)
    requires Holds(t, items) && LeafAt(t, q, w)
    ensures exists it :: it in items && IsPrefix(it.path, q)
    decreases |q|
  {
    if items[0].path == [] {
      assert IsPrefix(items[0].path, q);
    } else {
      var k := q[0];
      HoldsNothingElse(t.fields[k], Below(items, k), q[1..], w);
      var b :| b in Below(items, k) && IsPrefix(b.path, q[1..]);
      BelowFrom(items, k, b);
      PrefixUnder(k, b.path, q[1..]);
      assert [k] + q[1..] == q;
      assert IsPrefix(Item([k] + b.path, b.val).path, q);
    }
  }

  lemma {:induction false} BaseReads(base: Js, items: seq<Item>, it: Item)
    requires BaseHolds(base, items) && it in items && KeyPath(it.path) && Apart(items) && AllComponents(items)
    ensures Read(base, it.path).Some? && L.StoredAs(Read(base, it.path).value, ValuesAt(items, it.path))
  {
    var k, tail := it.path[0], Item(it.path[1..], it.val);
    assert it == Item([k] + tail.path, tail.val);
    BelowFrom(items, k, tail);
    BelowKeeps(items, k);
    assert FieldHolds(base.fields, k, Below(items, k));
    HoldsReads(base.fields[k], Below(items, k), tail);
    ValuesBelow(items, k, tail.path);
    assert [k] + tail.path == it.path;
  }

  lemma {:induction false} ReadsAll(base: Js, items: seq<Item>)
    requires BaseHolds(base, items) && Apart(items) && forall i :: 0 <= i < |items| ==> KeyPath(items[i].path)
    ensures forall it :: it in items ==>
      && Read(base, it.path).Some?
      && var v, vals := Read(base, it.path).value, ValuesAt(items, it.path);
         if |vals| == 1 then v == Text(vals[0]) else L.IsListOf(v, vals)
  {
    forall it | it in items
      ensures Read(base, it.path).Some? && L.StoredAs(Read(base, it.path).value, ValuesAt(items, it.path))
    {
      BaseReads(base, items, it);
    }
  }

  /** Every string in the base object lies at the end of some item's path, or in the array there. */
  lemma {:induction false} BaseHoldsNothingElse(base: Js, items: seq<Item>, q: Path, w: string)
    requires BaseHolds(base, items) && LeafAt(base, q, w)
    ensures exists it :: it in items && IsPrefix(it.path, q)
  {
    var k, rest := q[0], q[1..];
    assert FieldHolds(base.fields, k, Below(items, k));
    HoldsNothingElse(base.fields[k], Below(items, k), rest, w);
    var b :| b in Below(items, k) && IsPrefix(b.path, rest);
    BelowFrom(items, k, b);
    PrefixUnder(k, b.path, rest);
    assert [k] + rest == q;
    assert IsPrefix(Item([k] + b.path, b.val).path, q);
  }

  /**
   A query whose keys are bracket paths, repeated and interleaved in any way, but none a prefix of
   a different one: each path reads its value if it occurs once, and an array of exactly its
   values in order of occurrence if it occurs more often; and there are no other strings.
   */
  lemma {:induction false} ParsesRepeatedPaths(pairs: seq<string>, items: seq<Item>)
    requires PrintedItems(pairs, items) && Apart(items)
    ensures forall it :: it in items ==>
      && Read(ParsePairs(pairs), it.path).Some?
      && var v, vals := Read(ParsePairs(pairs), it.path).value, ValuesAt(items, it.path);
         if |vals| == 1 then v == Text(vals[0]) else L.IsListOf(v, vals)
    ensures forall q, w :: LeafAt(ParsePairs(pairs), q, w) ==> exists it :: it in items && IsPrefix(it.path, q)
  {
    var base := ParsePairs(pairs);
    assert AllComponents(items) by {
      forall i | 0 <= i < |items| ensures Components(items[i].path) { assert KeyPath(items[i].path); }
    }
    ParsedHolds(pairs, items);
    ReadsAll(base, items);
    forall q, w | LeafAt(base, q, w) ensures exists it :: it in items && IsPrefix(it.path, q) {
      BaseHoldsNothingElse(base, items, q, w);
    }
  }
}

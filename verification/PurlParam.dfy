/**
 The printer jQuery.param, as the bundled jQuery has it, and what the parser makes of its
 output: strings in arrays are printed with empty brackets, objects and arrays in arrays with
 their index.
 */
module PurlParam {
  import opened Wrappers
  import opened Decimals
  import opened JavaScript
  import opened Purl
  import opened PurlPaths

  /** A value to print. Arrays may have holes, which are undefined; the names of an object are in for-in order. */
  datatype Src = Undefined | Leaf(text: string) | List(elems: seq<Src>) | Record(names: seq<string>, values: seq<Src>)

  predicate IsContainer(t: Src) { t.List? || t.Record? }

  /** An array of a length that JavaScript has, an object with distinct names that are path components. */
  predicate Valid(t: Src) {
    match t
    case Undefined => true
    case Leaf(_) => true
    case List(elems) => |elems| <= INDEX_LIMIT && forall i :: 0 <= i < |elems| ==> Valid(elems[i])
    case Record(names, values) =>
      && |names| == |values| && Components(names)
      && (forall i, j :: 0 <= i < j < |names| ==> names[i] != names[j])
      && (forall i :: 0 <= i < |values| ==> values[i] != Undefined && Valid(values[i]))
  }

  /** The JavaScript value. */
  function Tree(t: Src): Js
    requires Valid(t) && t != Undefined
    decreases t, 1, 0
  {
    match t
    case Leaf(text) => Text(text)
    case List(elems) => Arr(|elems|, ListFields(t, |elems|))
    case Record(names, _) => Obj(RecordFields(t, |names|))
  }

  function ListFields(t: Src, i: nat): map<string, Js>
    requires Valid(t) && t.List? && i <= |t.elems|
    decreases t, 0, i
  {
    if i == 0 then map[]
    else if t.elems[i-1] == Undefined then ListFields(t, i - 1)
    else ListFields(t, i - 1)[ToDecimal(i - 1) := Tree(t.elems[i-1])]
  }

  function RecordFields(t: Src, i: nat): map<string, Js>
    requires Valid(t) && t.Record? && i <= |t.names|
    decreases t, 0, i
  {
    if i == 0 then map[] else RecordFields(t, i - 1)[t.names[i-1] := Tree(t.values[i-1])]
  }

  // ---------------------------------------------------------------- the printer

  /** A printed pair, as its path from here and its value; the component "" is an empty pair of brackets. */
  datatype Item = Item(path: Path, val: string)

  function Below(k: string, items: seq<Item>): (r: seq<Item>)
    ensures |r| == |items|
    ensures forall i :: 0 <= i < |items| ==> r[i] == Item([k] + items[i].path, items[i].val)
  {
    if items == [] then []
    else Below(k, items[..|items|-1]) + [Item([k] + items[|items|-1].path, items[|items|-1].val)]
  }

  /** buildParams: the pairs of a value. */
  function Items(t: Src): seq<Item>
    requires Valid(t)
    decreases t, 1, 0
  {
    match t
    case Undefined => []
    case Leaf(text) => [Item([], text)]
    case List(elems) => ListItems(t, |elems|)
    case Record(names, _) => RecordItems(t, |names|)
  }

  /** An element that is no object is printed below `[]`, undefined as the empty string. */
  function ListItems(t: Src, i: nat): seq<Item>
    requires Valid(t) && t.List? && i <= |t.elems|
    decreases t, 0, i
  {
    if i == 0 then [] else ListItems(t, i - 1) + ElemItems(t.elems[i-1], i - 1)
  }

  function ElemItems(e: Src, i: nat): seq<Item>
    requires Valid(e)
    decreases e, 2, 0
  {
    match e
    case Undefined => [Item([""], "")]
    case Leaf(text) => [Item([""], text)]
    case _ => Below(ToDecimal(i), Items(e))
  }

  function RecordItems(t: Src, i: nat): seq<Item>
    requires Valid(t) && t.Record? && i <= |t.names|
    decreases t, 0, i
  {
    if i == 0 then [] else RecordItems(t, i - 1) + Below(t.names[i-1], Items(t.values[i-1]))
  }

  function PrintItems(items: seq<Item>): (r: seq<string>)
    requires forall i :: 0 <= i < |items| ==> items[i].path != []
    ensures |r| == |items| && forall i :: 0 <= i < |items| ==> r[i] == PrintPair(items[i].path, items[i].val)
  {
    if items == [] then []
    else PrintItems(items[..|items|-1]) + [PrintPair(items[|items|-1].path, items[|items|-1].val)]
  }

  // ---------------------------------------------------------------- parsing below one property

  function Folded<A, B>(f: (A, B) -> A, start: A, s: seq<B>): A {
    if s == [] then start else f(Folded(f, start, s[..|s|-1]), s[|s|-1])
  }

  lemma {:induction false} FoldedAppend<A, B>(f: (A, B) -> A, start: A, a: seq<B>, b: seq<B>)
    ensures Folded(f, start, a + b) == Folded(f, Folded(f, start, a), b)
    decreases |b|
  {
    if b == [] {
      assert a + b == a;
    } else {
      assert (a + b)[..|a + b|-1] == a + b[..|b|-1];
      FoldedAppend(f, start, a, b[..|b|-1]);
    }
  }

  lemma {:induction false} FoldedOne<A, B>(f: (A, B) -> A, start: A, x: B)
    ensures Folded(f, start, [x]) == f(start, x)
  {
    assert [x][..0] == [];
  }

  function ApplyItem(slot: Option<Js>, item: Item): Option<Js> {
    Some(Parse(BracketParts(item.path), slot, item.val))
  }

  /** What parsing the pairs makes of a property. */
  function Applied(slot: Option<Js>, items: seq<Item>): Option<Js> { Folded(ApplyItem, slot, items) }

  /** Undefined, an object, or an array that is empty if its length is 0. */
  predicate IsNode(slot: Option<Js>) {
    match slot
    case None => true
    case Some(v) => v.Obj? || (v.Arr? && (v.length == 0 ==> v.fields == map[]))
  }

  lemma {:induction false} ParseNamedPart(k: string, path: Path, slot: Option<Js>, val: string)
    requires Component(k) && IsNode(slot)
    ensures
      var target := PromotedFor(OrNewArray(slot), k);
      Parse(BracketParts([k] + path), slot, val) == Put(target, k, Parse(BracketParts(path), Get(target, k), val))
  {
    var part := k + "]";
    assert part[|part|-1] == ']' && part[..|part|-1] == k;
    assert ([k] + path)[1..] == path;
    assert BracketParts([k] + path)[0] == part && BracketParts([k] + path)[1..] == BracketParts(path);
  }

  /**
   If `f` does to a whole what `g` does to one part of it, which `put` writes into the whole, then
   all items together do so too.
   */
  lemma {:induction false} FoldedThrough<A>(f: (A, Item) -> A, g: (Option<Js>, Item) -> Option<Js>, put: Js -> A,
                                            k: string, start: A, slot: Option<Js>, items: seq<Item>)
    requires items != [] && forall s, item :: g(s, item).Some?
    requires f(start, Item([k] + items[0].path, items[0].val)) == put(g(slot, items[0]).value)
    requires forall i, v :: 0 < i < |items| ==>
      f(put(v), Item([k] + items[i].path, items[i].val)) == put(g(Some(v), items[i]).value)
    ensures Folded(g, slot, items).Some?
    ensures Folded(f, start, Below(k, items)) == put(Folded(g, slot, items).value)
    decreases |items|
  {
    var init, last := items[..|items|-1], items[|items|-1];
    assert Below(k, items)[..|items|-1] == Below(k, init);
    if init == [] {
      assert Folded(f, start, Below(k, init)) == start;
    } else {
      FoldedThrough(f, g, put, k, start, slot, init);
      assert f(put(Folded(g, slot, init).value), Item([k] + last.path, last.val))
        == put(g(Some(Folded(g, slot, init).value), last).value);
    }
  }

  /** Pairs below a property `k` change that property only, to what they make of it. */
  lemma {:induction false} AppliedBelow(k: string, slot: Option<Js>, items: seq<Item>)
    requires Component(k) && IsNode(slot) && items != []
    ensures
      var target := PromotedFor(OrNewArray(slot), k);
      Applied(slot, Below(k, items)) == Some(Put(target, k, Applied(Get(target, k), items).value))
  {
    var target := PromotedFor(OrNewArray(slot), k);
    var put := (v: Js) => Some(Put(target, k, v));
    ParseNamedPart(k, items[0].path, slot, items[0].val);
    forall i, v | 0 < i < |items|
      ensures ApplyItem(put(v), Item([k] + items[i].path, items[i].val)) == put(ApplyItem(Some(v), items[i]).value)
    {
      var w := ApplyItem(Some(v), items[i]).value;
      PutAgain(target, k, v, w);
      ParseNamedPart(k, items[i].path, put(v), items[i].val);
    }
    FoldedThrough(ApplyItem, ApplyItem, put, k, slot, Get(target, k), items);
  }

  lemma {:induction false} PutAgain(target: Js, k: string, v: Js, w: Js)
    requires Component(k) && (target.Obj? || (target.Arr? && IsInt(k))) && IsNode(Some(target))
    ensures IsNode(Some(Put(target, k, v)))
    ensures PromotedFor(OrNewArray(Some(Put(target, k, v))), k) == Put(target, k, v)
    ensures Get(Put(target, k, v), k) == Some(v)
    ensures Put(Put(target, k, v), k, w) == Put(target, k, w)
  {
    assert target.fields[k := v][k := w] == target.fields[k := w];
  }

  /** What parsing makes of a property from the pairs of one value. */
  function Outcome(t: Src): Option<Js>
    requires Valid(t)
  {
    Applied(None, Items(t))
  }

  // ---------------------------------------------------------------- arrays

  /** The array after one more element. */
  function AddElem(arr: Js, e: Src, i: nat): Js
    requires arr.Arr? && Valid(e)
  {
    match e
    case Undefined => arr
    case Leaf(text) => if text == "" then arr else Push(arr, Text(text))
    case _ => if Outcome(e).None? then arr else Put(arr, ToDecimal(i), Outcome(e).value)
  }

  function ListArr(t: Src, i: nat): (r: Js)
    requires Valid(t) && t.List? && i <= |t.elems|
    ensures r.Arr?
  {
    if i == 0 then Arr(0, map[]) else AddElem(ListArr(t, i - 1), t.elems[i-1], i - 1)
  }

  /** An array made from at most `i` elements; no string in it is empty. */
  predicate IsListArr(arr: Js, i: nat) {
    && arr.Arr? && arr.length <= i
    && forall k :: k in arr.fields ==> IsIndex(k) && Value(k) < arr.length && arr.fields[k] != Text("")
  }

  lemma {:induction false} IndexAtEnd(i: nat)
    requires i < INDEX_LIMIT
    ensures IsIndex(ToDecimal(i)) && Component(ToDecimal(i))
  {
    IndexIsComponent(ToDecimal(i));
  }

  lemma {:induction false} AddElemBounded(arr: Js, e: Src, i: nat)
    requires IsListArr(arr, i) && Valid(e) && i < INDEX_LIMIT
    requires IsContainer(e) ==> Outcome(e) != Some(Text(""))
    ensures IsListArr(AddElem(arr, e, i), i + 1)
  {
    IndexAtEnd(i);
    IndexAtEnd(arr.length);
  }

  lemma {:induction false} NothingAtEnd(arr: Js, i: nat)
    requires IsListArr(arr, i) && i < INDEX_LIMIT
    ensures ToDecimal(i) !in arr.fields && ToDecimal(i) !in INHERITED
  {
    IndexAtEnd(i);
  }

  lemma {:induction false} StringApplied(slot: Option<Js>, val: string)
    requires slot.None? || slot.value.Arr?
    ensures Applied(slot, [Item([""], val)]) ==
      Some(if val == "" then OrNewArray(slot) else Push(OrNewArray(slot), Text(val)))
  {
    FoldedOne(ApplyItem, slot, Item([""], val));
    assert BracketParts([""])[0] == "]";
  }

  lemma {:induction false} BelowIndexApplied(slot: Option<Js>, items: seq<Item>, i: nat)
    requires IsListArr(OrNewArray(slot), i) && (slot.None? || slot.value.Arr?) && items != [] && i < INDEX_LIMIT
    ensures Applied(slot, Below(ToDecimal(i), items))
      == Some(Put(OrNewArray(slot), ToDecimal(i), Applied(None, items).value))
  {
    IndexAtEnd(i);
    NothingAtEnd(OrNewArray(slot), i);
    AppliedBelow(ToDecimal(i), slot, items);
  }

  /** One element's pairs, parsed. */
  lemma {:induction false} ElemApplied(slot: Option<Js>, e: Src, i: nat)
    requires IsListArr(OrNewArray(slot), i) && (slot.None? || slot.value.Arr?) && Valid(e) && i < INDEX_LIMIT
    requires IsContainer(e) ==> (Items(e) == [] <==> Outcome(e) == None)
    ensures OrNewArray(Applied(slot, ElemItems(e, i))) == AddElem(OrNewArray(slot), e, i)
    ensures Applied(slot, ElemItems(e, i)).None? || Applied(slot, ElemItems(e, i)).value.Arr?
  {
    if !IsContainer(e) {
      StringApplied(slot, if e.Leaf? then e.text else "");
    } else if Items(e) != [] {
      BelowIndexApplied(slot, Items(e), i);
    }
  }

  lemma {:induction false} ElemAppended(before: seq<Item>, e: Src, i: nat)
    requires IsListArr(OrNewArray(Applied(None, before)), i) && Valid(e) && i < INDEX_LIMIT
    requires Applied(None, before).None? || Applied(None, before).value.Arr?
    requires IsContainer(e) ==> (Items(e) == [] <==> Outcome(e) == None)
    ensures OrNewArray(Applied(None, before + ElemItems(e, i))) == AddElem(OrNewArray(Applied(None, before)), e, i)
    ensures Applied(None, before + ElemItems(e, i)).None? || Applied(None, before + ElemItems(e, i)).value.Arr?
  {
    FoldedAppend(ApplyItem, None, before, ElemItems(e, i));
    ElemApplied(Applied(None, before), e, i);
  }

  lemma {:induction false} ListArrBounded(t: Src, i: nat)
    requires Valid(t) && t.List? && i <= |t.elems|
    ensures IsListArr(ListArr(t, i), i)
    decreases t, 0, i
  {
    if i > 0 {
      ListArrBounded(t, i - 1);
      if IsContainer(t.elems[i-1]) { ContainerOutcome(t.elems[i-1]); }
      AddElemBounded(ListArr(t, i - 1), t.elems[i-1], i - 1);
    }
  }

  lemma {:induction false} ListApplied(t: Src, i: nat)
    requires Valid(t) && t.List? && i <= |t.elems|
    ensures OrNewArray(Applied(None, ListItems(t, i))) == ListArr(t, i)
    ensures Applied(None, ListItems(t, i)).None? || Applied(None, ListItems(t, i)).value.Arr?
    decreases t, 0, i
  {
    if i > 0 {
      ListApplied(t, i - 1);
      ListArrBounded(t, i - 1);
      if IsContainer(t.elems[i-1]) { ContainerOutcome(t.elems[i-1]); }
      ElemAppended(ListItems(t, i - 1), t.elems[i-1], i - 1);
    }
  }

  /** An object or array is parsed to one, unless nothing was printed for it. */
  lemma {:induction false} ContainerOutcome(t: Src)
    requires Valid(t) && IsContainer(t)
    ensures Outcome(t).None? <==> Items(t) == []
    ensures Outcome(t).None? || Outcome(t).value.Obj? || Outcome(t).value.Arr?
    decreases t, 1, 0
  {
    if t.List? {
      ListApplied(t, |t.elems|);
    } else {
      RecordApplied(t, |t.names|);
      RecordNodeHolds(t, |t.names|);
    }
  }

  // ---------------------------------------------------------------- objects

  function FieldsOf(slot: Option<Js>): map<string, Js> {
    if slot.Some? && (slot.value.Obj? || slot.value.Arr?) then slot.value.fields else map[]
  }

  /** A property printed as `items` is added. */
  function AddProperty(slot: Option<Js>, k: string, items: seq<Item>): Option<Js> {
    if items == [] then slot
    else Some(Put(PromotedFor(OrNewArray(slot), k), k, Applied(None, items).value))
  }

  lemma {:induction false} PropertyApplied(slot: Option<Js>, k: string, items: seq<Item>)
    requires IsNode(slot) && Component(k) && k !in FieldsOf(slot)
    ensures Applied(slot, Below(k, items)) == AddProperty(slot, k, items)
  {
    if items != [] { AppliedBelow(k, slot, items); }
  }

  lemma {:induction false} PropertyAdded(slot: Option<Js>, k: string, items: seq<Item>)
    requires IsNode(slot) && Component(k)
    ensures var r := AddProperty(slot, k, items);
      && IsNode(r)
      && FieldsOf(r) == (if items == [] then FieldsOf(slot) else FieldsOf(slot)[k := Applied(None, items).value])
      && (r.Some? && r.value.Obj? <==> (slot.Some? && slot.value.Obj?) || (items != [] && !IsInt(k)))
  {
  }

  function RecordNode(t: Src, i: nat): Option<Js>
    requires Valid(t) && t.Record? && i <= |t.names|
  {
    if i == 0 then None else AddProperty(RecordNode(t, i - 1), t.names[i-1], Items(t.values[i-1]))
  }

  /** The property is there exactly if something was printed for it, and is what that was parsed to. */
  ghost predicate HoldsRecord(t: Src, i: nat, fields: map<string, Js>)
    requires Valid(t) && t.Record? && i <= |t.names|
  {
    && (forall k :: k in fields ==> exists j :: 0 <= j < i && k == t.names[j])
    && (forall j :: 0 <= j < i ==> (t.names[j] in fields <==> Items(t.values[j]) != []))
    && (forall j :: 0 <= j < i && t.names[j] in fields ==> Some(fields[t.names[j]]) == Outcome(t.values[j]))
  }

  lemma {:induction false} NewName(t: Src, i: nat, fields: map<string, Js>)
    requires Valid(t) && t.Record? && i < |t.names| && HoldsRecord(t, i, fields)
    ensures t.names[i] !in fields && Component(t.names[i])
  {
  }

  lemma {:induction false} HoldsOneMore(t: Src, i: nat, fields: map<string, Js>)
    requires Valid(t) && t.Record? && i < |t.names| && HoldsRecord(t, i, fields)
    ensures t.names[i] !in fields && Component(t.names[i])
    ensures HoldsRecord(t, i + 1,
      if Items(t.values[i]) == [] then fields else fields[t.names[i] := Applied(None, Items(t.values[i])).value])
  {
    NewName(t, i, fields);
    HoldsExtended(t, i, fields, if Items(t.values[i]) == [] then None else Outcome(t.values[i]));
  }

  lemma {:induction false} HoldsExtended(t: Src, i: nat, fields: map<string, Js>, added: Option<Js>)
    requires Valid(t) && t.Record? && i < |t.names| && HoldsRecord(t, i, fields) && t.names[i] !in fields
    requires added.None? <==> Items(t.values[i]) == []
    requires added.Some? ==> added == Outcome(t.values[i])
    ensures HoldsRecord(t, i + 1, if added.None? then fields else fields[t.names[i] := added.value])
  {
    var more := if added.None? then fields else fields[t.names[i] := added.value];
    forall k | k in more ensures exists j :: 0 <= j < i + 1 && k == t.names[j] {
      if k == t.names[i] { assert 0 <= i < i + 1; }
    }
    forall j | 0 <= j < i + 1
      ensures t.names[j] in more <==> Items(t.values[j]) != []
      ensures t.names[j] in more ==> Some(more[t.names[j]]) == Outcome(t.values[j])
    {
      if j < i { assert t.names[j] != t.names[i]; }
    }
  }

  lemma {:induction false} HoldsAfterAdding(t: Src, i: nat, node: Option<Js>)
    requires Valid(t) && t.Record? && i < |t.names| && IsNode(node) && HoldsRecord(t, i, FieldsOf(node))
    ensures IsNode(AddProperty(node, t.names[i], Items(t.values[i])))
    ensures HoldsRecord(t, i + 1, FieldsOf(AddProperty(node, t.names[i], Items(t.values[i]))))
  {
    HoldsOneMore(t, i, FieldsOf(node));
    PropertyAdded(node, t.names[i], Items(t.values[i]));
  }

  lemma {:induction false} RecordNodeHolds(t: Src, i: nat)
    requires Valid(t) && t.Record? && i <= |t.names|
    ensures IsNode(RecordNode(t, i)) && HoldsRecord(t, i, FieldsOf(RecordNode(t, i)))
  {
    for j := 0 to i
      invariant IsNode(RecordNode(t, j)) && HoldsRecord(t, j, FieldsOf(RecordNode(t, j)))
    {
      HoldsAfterAdding(t, j, RecordNode(t, j));
    }
  }

  /** Something other than an array index has been printed. */
  ghost predicate PrintsName(t: Src, i: nat)
    requires Valid(t) && t.Record? && i <= |t.names|
  {
    exists j :: 0 <= j < i && Items(t.values[j]) != [] && !IsInt(t.names[j])
  }

  /** The node is an array as long as only array indices have been printed. */
  lemma {:induction false} ObjectExactly(t: Src, i: nat)
    requires Valid(t) && t.Record? && i <= |t.names|
    ensures RecordNode(t, i).Some? && RecordNode(t, i).value.Obj? <==> PrintsName(t, i)
    decreases i
  {
    if i > 0 {
      ObjectExactly(t, i - 1);
      RecordNodeHolds(t, i - 1);
      assert Component(t.names[i-1]);
      PropertyAdded(RecordNode(t, i - 1), t.names[i-1], Items(t.values[i-1]));
      NamesOneMore(t, i - 1);
    }
  }

  lemma {:induction false} NamesOneMore(t: Src, i: nat)
    requires Valid(t) && t.Record? && i < |t.names|
    ensures PrintsName(t, i + 1) <==> PrintsName(t, i) || (Items(t.values[i]) != [] && !IsInt(t.names[i]))
  {
  }

  lemma {:induction false} PropertyAppended(before: seq<Item>, k: string, items: seq<Item>)
    requires IsNode(Applied(None, before)) && Component(k) && k !in FieldsOf(Applied(None, before))
    ensures Applied(None, before + Below(k, items)) == AddProperty(Applied(None, before), k, items)
  {
    FoldedAppend(ApplyItem, None, before, Below(k, items));
    PropertyApplied(Applied(None, before), k, items);
  }

  lemma {:induction false} RecordApplied(t: Src, i: nat)
    requires Valid(t) && t.Record? && i <= |t.names|
    ensures Applied(None, RecordItems(t, i)) == RecordNode(t, i)
    decreases i
  {
    if i > 0 {
      RecordApplied(t, i - 1);
      RecordNodeHolds(t, i - 1);
      HoldsOneMore(t, i - 1, FieldsOf(RecordNode(t, i - 1)));
      PropertyAppended(RecordItems(t, i - 1), t.names[i-1], Items(t.values[i-1]));
    }
  }

  // ---------------------------------------------------------------- what comes back

  /**
   Nothing is lost or moved: no array is empty, ends in a hole or holds an empty string, no
   string lies directly behind a hole, and every object below the top has a name that is no number.
   */
  predicate RoundTrips(t: Src)
    decreases t, 1
  {
    match t
    case Undefined => false
    case Leaf(_) => true
    case List(elems) =>
      elems != [] && elems[|elems|-1] != Undefined && forall i :: 0 <= i < |elems| ==> ElemRoundTrips(t, i)
    case Record(names, values) =>
      && (exists i :: 0 <= i < |names| && !IsInt(names[i]))
      && forall i :: 0 <= i < |values| ==> RoundTrips(values[i])
  }

  predicate ElemRoundTrips(t: Src, i: nat)
    requires t.List? && i < |t.elems|
    decreases t, 0
  {
    match t.elems[i]
    case Undefined => true
    case Leaf(text) => text != "" && (i > 0 ==> t.elems[i-1] != Undefined)
    case e => RoundTrips(e)
  }

  /** The first `i` elements come back. */
  ghost predicate Good(t: Src, i: nat)
    requires t.List? && i <= |t.elems|
  {
    forall j :: 0 <= j < i ==> ElemRoundTrips(t, j)
  }

  /** One more than the last index below `i` that is no hole. */
  function Span(t: Src, i: nat): (n: nat)
    requires t.List? && i <= |t.elems|
    ensures n <= i && (forall j :: n <= j < i ==> t.elems[j] == Undefined) && (n > 0 ==> t.elems[n-1] != Undefined)
  {
    if i == 0 then 0 else if t.elems[i-1] == Undefined then Span(t, i - 1) else i
  }

  /** What the elements of an array that are objects come back as is settled. */
  ghost predicate ElemsSettled(t: Src)
    requires Valid(t) && t.List?
  {
    forall j :: 0 <= j < |t.elems| && IsContainer(t.elems[j]) ==>
      && (Outcome(t.elems[j]) == Some(Tree(t.elems[j])) <==> RoundTrips(t.elems[j]))
      && (Outcome(t.elems[j]).Some? ==> !Outcome(t.elems[j]).value.Text?)
  }

  lemma {:induction false} PutAtEnd(n: nat, fields: map<string, Js>, i: nat, v: Js)
    requires n <= i < INDEX_LIMIT
    ensures Put(Arr(n, fields), ToDecimal(i), v) == Arr(i + 1, fields[ToDecimal(i) := v])
  {
    IndexAtEnd(i);
  }

  /** An element that comes back keeps the array what the elements so far make it. */
  lemma {:induction false} AddGood(arr: Js, n: nat, fields: map<string, Js>, e: Src, i: nat)
    requires arr == Arr(n, fields) && n <= i < INDEX_LIMIT && Valid(e)
    requires e.Leaf? ==> e.text != "" && n == i
    requires IsContainer(e) ==> Outcome(e) == Some(Tree(e))
    ensures AddElem(arr, e, i) == if e == Undefined then arr else Arr(i + 1, fields[ToDecimal(i) := Tree(e)])
  {
    if IsContainer(e) { PutAtEnd(n, fields, i, Tree(e)); }
  }

  lemma {:induction false} InSync(t: Src, i: nat)
    requires Valid(t) && t.List? && i <= |t.elems| && ElemsSettled(t) && Good(t, i)
    ensures ListArr(t, i) == Arr(Span(t, i), ListFields(t, i))
    decreases i
  {
    if i > 0 {
      var e := t.elems[i-1];
      InSync(t, i - 1);
      assert ElemRoundTrips(t, i - 1);
      AddGood(ListArr(t, i - 1), Span(t, i - 1), ListFields(t, i - 1), e, i - 1);
    }
  }

  /** What is at index `j` differs from the element, and no later element can mend it. */
  ghost predicate Wrong(t: Src, j: nat, fields: map<string, Js>)
    requires Valid(t) && t.List? && j < |t.elems|
  {
    var k := ToDecimal(j);
    match t.elems[j]
    case Undefined => k in fields
    case Leaf(text) => text == ""
    case e => k !in fields || fields[k] != Tree(e)
  }

  lemma {:induction false} WrongStays(t: Src, j: nat, i: nat)
    requires Valid(t) && t.List? && j < i < |t.elems| && ElemsSettled(t)
    requires IsListArr(ListArr(t, i), i) && Wrong(t, j, ListArr(t, i).fields)
    ensures Wrong(t, j, ListArr(t, i + 1).fields)
  {
    ToDecimalInjective(j, i);
    ToDecimalInjective(j, ListArr(t, i).length);
    NothingAtEnd(ListArr(t, i), i);
    IndexAtEnd(ListArr(t, i).length);
    NothingAtEnd(ListArr(t, i), ListArr(t, i).length);
  }

  /** The first element that does not come back leaves something wrong. */
  lemma {:induction false} WrongStarts(t: Src, i: nat) returns (j: nat)
    requires Valid(t) && t.List? && i < |t.elems| && ElemsSettled(t) && Good(t, i) && !Good(t, i + 1)
    requires IsListArr(ListArr(t, i), i)
    ensures j <= i && Wrong(t, j, ListArr(t, i + 1).fields)
  {
    var e := t.elems[i];
    assert !ElemRoundTrips(t, i);
    if e.Leaf? && e.text != "" {
      j := Span(t, i);
      InSync(t, i);
      assert t.elems[j] == Undefined;
      assert ListArr(t, i + 1).fields == ListArr(t, i).fields[ToDecimal(j) := Text(e.text)];
    } else {
      j := i;
      NothingAtEnd(ListArr(t, i), i);
      if e.List? || e.Record? { WrongContainer(ListArr(t, i), e, i); }
    }
  }

  lemma {:induction false} WrongContainer(arr: Js, e: Src, i: nat)
    requires arr.Arr? && Valid(e) && IsContainer(e) && Outcome(e) != Some(Tree(e)) && ToDecimal(i) !in arr.fields
    ensures ToDecimal(i) !in AddElem(arr, e, i).fields || AddElem(arr, e, i).fields[ToDecimal(i)] != Tree(e)
  {
  }

  ghost predicate SomethingWrong(t: Src, i: nat)
    requires Valid(t) && t.List? && i <= |t.elems|
  {
    exists j :: 0 <= j < i && Wrong(t, j, ListArr(t, i).fields)
  }

  lemma {:induction false} WrongNext(t: Src, i: nat)
    requires Valid(t) && t.List? && i < |t.elems| && ElemsSettled(t) && !Good(t, i + 1)
    requires !Good(t, i) ==> SomethingWrong(t, i)
    ensures SomethingWrong(t, i + 1)
  {
    ListArrBounded(t, i);
    if Good(t, i) {
      var j := WrongStarts(t, i);
    } else {
      var j :| 0 <= j < i && Wrong(t, j, ListArr(t, i).fields);
      WrongStays(t, j, i);
    }
  }

  lemma {:induction false} BadIsWrong(t: Src, n: nat)
    requires Valid(t) && t.List? && n <= |t.elems| && ElemsSettled(t)
    ensures !Good(t, n) ==> SomethingWrong(t, n)
  {
    for i := 0 to n
      invariant !Good(t, i) ==> SomethingWrong(t, i)
    {
      if !Good(t, i + 1) { WrongNext(t, i); }
    }
  }

  lemma {:induction false} ListFieldsAre(t: Src, i: nat, j: nat)
    requires Valid(t) && t.List? && j < |t.elems| && i <= |t.elems|
    ensures ToDecimal(j) in ListFields(t, i) <==> j < i && t.elems[j] != Undefined
    ensures j < i && t.elems[j] != Undefined ==> ListFields(t, i)[ToDecimal(j)] == Tree(t.elems[j])
    decreases i
  {
    if i > 0 {
      ListFieldsAre(t, i - 1, j);
      ToDecimalInjective(j, i - 1);
    }
  }

  lemma {:induction false} ListDiffers(t: Src)
    requires Valid(t) && t.List? && ElemsSettled(t) && !Good(t, |t.elems|)
    ensures ListArr(t, |t.elems|).fields != ListFields(t, |t.elems|)
  {
    var n := |t.elems|;
    ListArrBounded(t, n);
    BadIsWrong(t, n);
    var j :| 0 <= j < n && Wrong(t, j, ListArr(t, n).fields);
    ListFieldsAre(t, n, j);
  }

  lemma {:induction false} ListArrExact(t: Src)
    requires Valid(t) && t.List? && ElemsSettled(t)
    ensures t.elems != [] && ListArr(t, |t.elems|) == Tree(t) <==> RoundTrips(t)
  {
    var n := |t.elems|;
    if Good(t, n) { InSync(t, n); } else { ListDiffers(t); }
  }

  lemma {:induction false} ListExact(t: Src)
    requires Valid(t) && t.List? && ElemsSettled(t)
    ensures Outcome(t) == Some(Tree(t)) <==> RoundTrips(t)
  {
    ListApplied(t, |t.elems|);
    ListArrExact(t);
  }

  /** The first `i` names, each with its value. */
  ghost predicate IsMapOf(names: seq<string>, vals: seq<Js>, i: nat, all: map<string, Js>)
    requires i <= |names| == |vals|
  {
    && (forall k :: k in all ==> exists j :: 0 <= j < i && k == names[j])
    && (forall j :: 0 <= j < i ==> names[j] in all && all[names[j]] == vals[j])
  }

  lemma {:induction false} MapOneMore(names: seq<string>, vals: seq<Js>, m: nat, i: nat, all: map<string, Js>)
    requires i == m + 1 <= |names| == |vals| && IsMapOf(names, vals, m, all)
    requires forall j :: 0 <= j < m ==> names[j] != names[m]
    ensures IsMapOf(names, vals, i, all[names[m] := vals[m]])
  {
    var more := all[names[m] := vals[m]];
    forall k | k in more ensures exists j :: 0 <= j < i && k == names[j] {
      if k == names[m] { assert 0 <= m < i; }
    }
  }

  function Trees(t: Src): (r: seq<Js>)
    requires Valid(t) && t.Record?
    ensures |r| == |t.names| && forall j :: 0 <= j < |r| ==> r[j] == Tree(t.values[j])
  {
    seq(|t.values|, j requires 0 <= j < |t.values| => Tree(t.values[j]))
  }

  lemma {:induction false} RecordFieldsNext(t: Src, m: nat, i: nat)
    requires Valid(t) && t.Record? && i == m + 1 <= |t.names|
    ensures RecordFields(t, i) == RecordFields(t, m)[t.names[m] := Trees(t)[m]]
  {
  }

  lemma {:induction false} RecordFieldsAre(t: Src, i: nat)
    requires Valid(t) && t.Record? && i <= |t.names|
    ensures IsMapOf(t.names, Trees(t), i, RecordFields(t, i))
    decreases i
  {
    if i > 0 {
      var m: nat :| i == m + 1;
      RecordFieldsAre(t, m);
      RecordFieldsNext(t, m, i);
      MapOneMore(t.names, Trees(t), m, i, RecordFields(t, m));
    }
  }

  ghost predicate ValuesSettled(t: Src)
    requires Valid(t) && t.Record?
  {
    forall j :: 0 <= j < |t.values| ==>
      && (Outcome(t.values[j]) == Some(Tree(t.values[j])) <==> RoundTrips(t.values[j]))
      && (Outcome(t.values[j]).None? <==> Items(t.values[j]) == [])
  }

  ghost predicate AllRoundTrip(t: Src)
    requires t.Record?
  {
    forall j :: 0 <= j < |t.values| ==> RoundTrips(t.values[j])
  }

  lemma {:induction false} FieldsComeBack(t: Src, fields: map<string, Js>, all: map<string, Js>)
    requires Valid(t) && t.Record? && ValuesSettled(t) && AllRoundTrip(t)
    requires HoldsRecord(t, |t.names|, fields) && IsMapOf(t.names, Trees(t), |t.names|, all)
    ensures fields == all
  {
    forall j | 0 <= j < |t.names| ensures t.names[j] in fields && fields[t.names[j]] == Tree(t.values[j]) {
      assert RoundTrips(t.values[j]);
    }
    SameMap(t.names, Trees(t), fields, all);
  }

  lemma {:induction false} SameMap(names: seq<string>, vals: seq<Js>, fields: map<string, Js>, all: map<string, Js>)
    requires |names| == |vals| && IsMapOf(names, vals, |names|, fields) && IsMapOf(names, vals, |names|, all)
    ensures fields == all
  {
    forall k | k in all ensures k in fields && fields[k] == all[k] {
      var j :| 0 <= j < |names| && k == names[j];
    }
  }

  lemma {:induction false} ThenAllRoundTrip(t: Src, fields: map<string, Js>)
    requires Valid(t) && t.Record? && ValuesSettled(t)
    requires HoldsRecord(t, |t.names|, fields) && IsMapOf(t.names, Trees(t), |t.names|, fields)
    ensures AllRoundTrip(t)
  {
    forall j | 0 <= j < |t.values| ensures RoundTrips(t.values[j]) {
      assert t.names[j] in fields && fields[t.names[j]] == Tree(t.values[j]);
    }
  }

  /** Properties added one by one are those of the object exactly if each value comes back. */
  lemma {:induction false} FieldsExact(t: Src, fields: map<string, Js>)
    requires Valid(t) && t.Record? && ValuesSettled(t) && HoldsRecord(t, |t.names|, fields)
    ensures fields == RecordFields(t, |t.names|) <==> AllRoundTrip(t)
  {
    RecordFieldsAre(t, |t.names|);
    if AllRoundTrip(t) { FieldsComeBack(t, fields, RecordFields(t, |t.names|)); }
    if fields == RecordFields(t, |t.names|) { ThenAllRoundTrip(t, fields); }
  }

  /** With all values printed, the node is an object exactly if some name is no number. */
  lemma {:induction false} ObjectIfNamed(t: Src)
    requires Valid(t) && t.Record? && ValuesSettled(t) && AllRoundTrip(t)
    ensures PrintsName(t, |t.names|) <==> exists j :: 0 <= j < |t.names| && !IsInt(t.names[j])
  {
    forall j | 0 <= j < |t.values| ensures Items(t.values[j]) != [] { assert RoundTrips(t.values[j]); }
  }

  lemma {:induction false} RecordNodeExact(t: Src)
    requires Valid(t) && t.Record? && ValuesSettled(t)
    ensures RecordNode(t, |t.names|) == Some(Tree(t)) <==> RoundTrips(t)
  {
    var n, node := |t.names|, RecordNode(t, |t.names|);
    RecordNodeHolds(t, n);
    ObjectExactly(t, n);
    FieldsExact(t, FieldsOf(node));
    if AllRoundTrip(t) { ObjectIfNamed(t); }
  }

  lemma {:induction false} RecordExact(t: Src)
    requires Valid(t) && t.Record? && ValuesSettled(t)
    ensures Outcome(t) == Some(Tree(t)) <==> RoundTrips(t)
  {
    RecordApplied(t, |t.names|);
    RecordNodeExact(t);
  }

  /** Parsing what is printed for a value gives the value back exactly if it round-trips. */
  lemma {:induction false} OutcomeExact(t: Src)
    requires Valid(t) && t != Undefined
    ensures Outcome(t) == Some(Tree(t)) <==> RoundTrips(t)
    ensures Outcome(t).None? <==> Items(t) == []
    decreases t
  {
    match t
    case Leaf(text) =>
      FoldedOne(ApplyItem, None, Item([], text));
    case List(elems) =>
      ContainerOutcome(t);
      forall j | 0 <= j < |elems| && IsContainer(elems[j])
        ensures Outcome(elems[j]) == Some(Tree(elems[j])) <==> RoundTrips(elems[j])
        ensures Outcome(elems[j]).Some? ==> !Outcome(elems[j]).value.Text?
      {
        OutcomeExact(elems[j]);
        ContainerOutcome(elems[j]);
      }
      ListExact(t);
    case Record(_, values) =>
      ContainerOutcome(t);
      forall j | 0 <= j < |values|
        ensures Outcome(values[j]) == Some(Tree(values[j])) <==> RoundTrips(values[j])
        ensures Outcome(values[j]).None? <==> Items(values[j]) == []
      {
        OutcomeExact(values[j]);
      }
      RecordExact(t);
  }

  // ---------------------------------------------------------------- whole queries

  /** An object that is passed to the printer: its own names must not hold the separator. */
  predicate ValidBase(t: Src) {
    t.Record? && Valid(t) && forall i :: 0 <= i < |t.names| ==> '=' !in t.names[i]
  }

  /** Every pair is printed below a property, and the pairs of an object or array below one of its own. */
  lemma {:induction false} ItemsPrintable(t: Src)
    requires Valid(t)
    ensures forall i :: 0 <= i < |Items(t)| ==>
      Bracketless(Items(t)[i].path) && (IsContainer(t) ==> Items(t)[i].path != [])
    decreases t, 1, 0
  {
    if t.List? { ListItemsPrintable(t, |t.elems|); }
    if t.Record? { RecordItemsPrintable(t, |t.names|); }
  }

  lemma {:induction false} BelowPrintable(k: string, items: seq<Item>)
    requires '[' !in k && ']' !in k && forall i :: 0 <= i < |items| ==> Bracketless(items[i].path)
    ensures forall i :: 0 <= i < |items| ==> Below(k, items)[i].path != [] && Bracketless(Below(k, items)[i].path)
  {
  }

  lemma {:induction false} ListItemsPrintable(t: Src, i: nat)
    requires Valid(t) && t.List? && i <= |t.elems|
    ensures forall j :: 0 <= j < |ListItems(t, i)| ==>
      Bracketless(ListItems(t, i)[j].path) && ListItems(t, i)[j].path != []
    decreases t, 0, i
  {
    if i > 0 {
      var e := t.elems[i-1];
      ListItemsPrintable(t, i - 1);
      IndexAtEnd(i - 1);
      if IsContainer(e) {
        ItemsPrintable(e);
        BelowPrintable(ToDecimal(i - 1), Items(e));
      }
    }
  }

  lemma {:induction false} RecordItemsPrintable(t: Src, i: nat)
    requires Valid(t) && t.Record? && i <= |t.names|
    ensures forall j :: 0 <= j < |RecordItems(t, i)| ==>
      Bracketless(RecordItems(t, i)[j].path) && RecordItems(t, i)[j].path != []
    decreases t, 0, i
  {
    if i > 0 {
      RecordItemsPrintable(t, i - 1);
      ItemsPrintable(t.values[i-1]);
      assert Component(t.names[i-1]);
      BelowPrintable(t.names[i-1], Items(t.values[i-1]));
    }
  }

  /** One turn of the reduce in parseString. */
  function MergeItem(base: Js, item: Item): Js {
    if item.path == [] then base else MergePair(base, PrintPair(item.path, item.val))
  }

  /** The pairs printed as `items`, merged one by one. */
  function MergeItems(base: Js, items: seq<Item>): Js { Folded(MergeItem, base, items) }

  lemma {:induction false} ParsedByMerging(items: seq<Item>)
    requires forall i :: 0 <= i < |items| ==> items[i].path != []
    ensures ParsePairs(PrintItems(items)) == MergeItems(Obj(map[]), items)
    decreases |items|
  {
    if items != [] {
      var init := items[..|items|-1];
      ParsedByMerging(init);
      assert PrintItems(items)[..|items|-1] == PrintItems(init);
    }
  }

  /** A name at the top of a printed object. */
  predicate TopName(k: string) { Component(k) && '=' !in k }

  /** One pair below the property `k`; a plain one only if the property is new. */
  lemma {:induction false} MergeBelow(base: Js, k: string, path: Path, val: string)
    requires base.Obj? && TopName(k) && Bracketless(path) && (path == [] ==> k !in base.fields)
    ensures MergeItem(base, Item([k] + path, val)) == Put(base, k, Parse(BracketParts(path), Get(base, k), val))
  {
    var p := [k] + path;
    assert p[1..] == path;
    assert Printable(p) by {
      forall i | 0 <= i < |p| ensures '[' !in p[i] && ']' !in p[i] { if i > 0 { assert p[i] == path[i-1]; } }
    }
    CutsPrintedPair(p, val);
    if path == [] {
      assert PrintKey(p) == k;
    } else {
      MergeBracketedKey(base, p, val);
    }
  }

  lemma {:induction false} MergedBelow(base: Js, k: string, items: seq<Item>)
    requires base.Obj? && TopName(k) && k !in base.fields && items != []
    requires forall i :: 0 <= i < |items| ==> Bracketless(items[i].path) && (i > 0 ==> items[i].path != [])
    ensures MergeItems(base, Below(k, items)) == Put(base, k, Applied(None, items).value)
  {
    var put := (v: Js) => Put(base, k, v);
    MergeBelow(base, k, items[0].path, items[0].val);
    forall i, v | 0 < i < |items|
      ensures MergeItem(put(v), Item([k] + items[i].path, items[i].val)) == put(ApplyItem(Some(v), items[i]).value)
    {
      MergeBelow(put(v), k, items[i].path, items[i].val);
      PutAgain(base, k, v, ApplyItem(Some(v), items[i]).value);
    }
    FoldedThrough(MergeItem, ApplyItem, put, k, base, None, items);
  }

  /** A whole property is merged. */
  lemma {:induction false} PropertyMerged(base: Js, before: seq<Item>, k: string, items: seq<Item>)
    requires MergeItems(base, before).Obj? && TopName(k) && k !in MergeItems(base, before).fields
    requires forall i :: 0 <= i < |items| ==> Bracketless(items[i].path) && (i > 0 ==> items[i].path != [])
    ensures MergeItems(base, before + Below(k, items)) ==
      if items == [] then MergeItems(base, before) else Put(MergeItems(base, before), k, Applied(None, items).value)
  {
    FoldedAppend(MergeItem, base, before, Below(k, items));
    if items != [] { MergedBelow(MergeItems(base, before), k, items); }
  }

  ghost predicate HoldsBase(t: Src, i: nat, base: Js)
    requires Valid(t) && t.Record? && i <= |t.names|
  {
    base.Obj? && HoldsRecord(t, i, base.fields)
  }

  lemma {:induction false} BaseHoldsNext(t: Src, i: nat, before: seq<Item>)
    requires ValidBase(t) && i < |t.names| && HoldsBase(t, i, MergeItems(Obj(map[]), before))
    ensures HoldsBase(t, i + 1, MergeItems(Obj(map[]), before + Below(t.names[i], Items(t.values[i]))))
  {
    ItemsPrintable(t.values[i]);
    HoldsOneMore(t, i, MergeItems(Obj(map[]), before).fields);
    PropertyMerged(Obj(map[]), before, t.names[i], Items(t.values[i]));
  }

  /** The object that parsing builds from the first `i` properties. */
  function BaseAfter(t: Src, i: nat): Js
    requires Valid(t) && t.Record? && i <= |t.names|
  {
    MergeItems(Obj(map[]), RecordItems(t, i))
  }

  lemma {:induction false} RecordItemsNext(t: Src, i: nat)
    requires Valid(t) && t.Record? && i < |t.names|
    ensures RecordItems(t, i + 1) == RecordItems(t, i) + Below(t.names[i], Items(t.values[i]))
  {
  }

  lemma {:induction false} BaseStart(t: Src)
    requires ValidBase(t)
    ensures HoldsBase(t, 0, BaseAfter(t, 0))
  {
  }

  lemma {:induction false} BaseHoldsStep(t: Src, i: nat)
    requires ValidBase(t) && i < |t.names| && HoldsBase(t, i, BaseAfter(t, i))
    ensures HoldsBase(t, i + 1, BaseAfter(t, i + 1))
  {
    RecordItemsNext(t, i);
    BaseHoldsNext(t, i, RecordItems(t, i));
  }

  /** It has a property for each one printed, with what that is parsed to. */
  lemma {:induction false} BaseHolds(t: Src, i: nat)
    requires ValidBase(t) && i <= |t.names|
    ensures HoldsBase(t, i, BaseAfter(t, i))
    decreases i
  {
    if i == 0 {
      BaseStart(t);
    } else {
      BaseHolds(t, i - 1);
      BaseHoldsStep(t, i - 1);
    }
  }

  /** The pairs that jQuery.param joins, before they are encoded. */
  function Param(t: Src): seq<string>
    requires ValidBase(t)
  {
    RecordItemsPrintable(t, |t.names|);
    PrintItems(RecordItems(t, |t.names|))
  }

  /** Parsing what jQuery.param prints for an object gives the object back exactly if all its values round-trip. */
  lemma {:induction false} ParamRoundTripExactly(t: Src)
    requires ValidBase(t)
    ensures ParsePairs(Param(t)) == Tree(t) <==> AllRoundTrip(t)
  {
    var n := |t.names|;
    RecordItemsPrintable(t, n);
    var items := RecordItems(t, n);
    ParsedByMerging(items);
    BaseHolds(t, n);
    assert ValuesSettled(t) by {
      forall j | 0 <= j < |t.values|
        ensures Outcome(t.values[j]) == Some(Tree(t.values[j])) <==> RoundTrips(t.values[j])
        ensures Outcome(t.values[j]).None? <==> Items(t.values[j]) == []
      {
        OutcomeExact(t.values[j]);
      }
    }
    FieldsExact(t, MergeItems(Obj(map[]), items).fields);
  }

  /** A hole does no harm before an object, which is printed with its index. */
  lemma {:induction false} HoleBeforeObjectComesBack(e: Src)
    requires Valid(e) && e.Record? && RoundTrips(e)
    ensures Valid(List([Undefined, e])) && Outcome(List([Undefined, e])) == Some(Tree(List([Undefined, e])))
  {
    var t := List([Undefined, e]);
    assert t.elems[0] == Undefined && t.elems[1] == e;
    assert ElemRoundTrips(t, 0) && ElemRoundTrips(t, 1);
    OutcomeExact(t);
  }
}

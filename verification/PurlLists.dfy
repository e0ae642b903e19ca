/** Queries of plain key=value pairs, where a key may occur any number of times. */
module PurlLists {
  import opened Wrappers
  import opened Decimals
  import opened JavaScript
  import opened Purl
  import PurlPaths

  datatype Field = Field(key: string, val: string)

  /** A key without brackets or `=`, that is not the name of an inherited property. */
  predicate PlainKey(k: string) {
    k != "" && '[' !in k && ']' !in k && '=' !in k && k !in INHERITED
  }

  function PrintField(f: Field): string {
    f.key + "=" + f.val
  }

  /** The pairs are the printed fields. */
  ghost predicate PrintedFields(pairs: seq<string>, fields: seq<Field>) {
    && |pairs| == |fields|
    && forall i :: 0 <= i < |fields| ==> PlainKey(fields[i].key) && pairs[i] == PrintField(fields[i])
  }

  /** The values of a key, in order of occurrence. */
  function ValuesOf(fields: seq<Field>, k: string): seq<string> {
    if fields == [] then []
    else ValuesOf(fields[..|fields|-1], k) + if fields[|fields|-1].key == k then [fields[|fields|-1].val] else []
  }

  /** An array of the values in order, and nothing else. */
  predicate IsListOf(v: Js, vals: seq<string>) {
    && v.Arr? && v.length == |vals|
    && (forall k :: k in v.fields ==> IsInt(k) && Value(k) < |vals| && k == ToDecimal(Value(k)))
    && (forall i :: 0 <= i < |vals| ==> ToDecimal(i) in v.fields && v.fields[ToDecimal(i)] == Text(vals[i]))
  }

  /** A single value is stored as a string, several as an array. */
  predicate StoredAs(v: Js, vals: seq<string>) {
    if |vals| == 1 then v == Text(vals[0]) else IsListOf(v, vals)
  }

  ghost predicate StoresFields(base: Js, fields: seq<Field>) {
    && base.Obj?
    && (forall k :: k in base.fields <==> ValuesOf(fields, k) != [])
    && (forall k :: k in base.fields ==> StoredAs(base.fields[k], ValuesOf(fields, k)))
  }

  /** The pair is cut at its first `=`, even when the value holds `=` or brackets. */
  lemma {:induction false} CutsPlainPair(f: Field)
    requires PlainKey(f.key)
    ensures KeyValue(PrintField(f)) == (f.key, f.val)
  {
    assert PurlPaths.PrintKey([f.key]) == f.key;
    PurlPaths.CutsPrintedPair([f.key], f.val);
  }

  // ---------------------------------------------------------------- one more pair

  lemma {:induction false} PairStored(a: string, b: string)
    ensures StoredAs(Pair(Text(a), Text(b)), [a, b])
  {
    ToDecimalInjective(0, 1);
  }

  lemma {:induction false} PushStored(v: Js, vals: seq<string>, val: string)
    requires IsListOf(v, vals)
    ensures IsListOf(Push(v, Text(val)), vals + [val])
  {
    var r := Push(v, Text(val));
    forall i | 0 <= i < |vals| + 1
      ensures ToDecimal(i) in r.fields && r.fields[ToDecimal(i)] == Text((vals + [val])[i])
    {
      ToDecimalInjective(i, v.length);
    }
  }

  lemma {:induction false} SetStored(base: Js, k: string, vals: seq<string>, val: string)
    requires base.Obj? && k !in INHERITED
    requires k in base.fields <==> vals != []
    requires k in base.fields ==> StoredAs(base.fields[k], vals)
    ensures Set(base, k, val).Obj? && k in Set(base, k, val).fields
    ensures Set(base, k, val).fields == base.fields[k := Set(base, k, val).fields[k]]
    ensures StoredAs(Set(base, k, val).fields[k], vals + [val])
  {
    if |vals| == 1 {
      PairStored(vals[0], val);
      assert vals + [val] == [vals[0], val];
    } else if |vals| >= 2 {
      PushStored(base.fields[k], vals, val);
    }
  }

  /** Merging a plain pair is one `set` on the base object. */
  lemma {:induction false} PlainStep(base: Js, f: Field)
    requires base.Obj? && PlainKey(f.key)
    ensures MergePair(base, PrintField(f)) == Set(base, f.key, f.val)
  {
    CutsPlainPair(f);
  }

  lemma {:induction false} StoresOneMore(base: Js, fields: seq<Field>, f: Field)
    requires StoresFields(base, fields) && PlainKey(f.key)
    ensures StoresFields(Set(base, f.key, f.val), fields + [f])
  {
    var after, more := Set(base, f.key, f.val), fields + [f];
    assert more[..|more|-1] == fields;
    SetStored(base, f.key, ValuesOf(fields, f.key), f.val);
    forall k ensures k in after.fields <==> ValuesOf(more, k) != [] {
      if k != f.key { assert ValuesOf(more, k) == ValuesOf(fields, k); }
    }
    forall k | k in after.fields ensures StoredAs(after.fields[k], ValuesOf(more, k)) {
      if k != f.key { assert ValuesOf(more, k) == ValuesOf(fields, k); }
    }
  }

  lemma {:induction false} StoresPair(base: Js, fields: seq<Field>, f: Field, pair: string)
    requires StoresFields(base, fields) && PlainKey(f.key) && pair == PrintField(f)
    ensures StoresFields(MergePair(base, pair), fields + [f])
  {
    PlainStep(base, f);
    StoresOneMore(base, fields, f);
  }

  /** Parsing plain pairs stores, for each key, its values in order of occurrence. */
  lemma {:induction false} ParsesToValueLists(pairs: seq<string>, fields: seq<Field>)
    requires PrintedFields(pairs, fields)
    ensures StoresFields(ParsePairs(pairs), fields)
  {
    var holds := (base: Js, i: nat) => i <= |fields| && StoresFields(base, fields[..i]);
    forall base, i | 0 <= i < |pairs| && holds(base, i) ensures holds(MergePair(base, pairs[i]), i + 1) {
      assert fields[..i+1] == fields[..i] + [fields[i]];
      StoresPair(base, fields[..i], fields[i], pairs[i]);
    }
    ParsedStepwise(pairs, holds);
    assert fields[..|fields|] == fields;
  }

  // ---------------------------------------------------------------- as many values as pairs

  function Count(v: Js): nat {
    if v.Arr? then v.length else 1
  }

  /** The number of values stored under all keys. */
  ghost function Total(fields: map<string, Js>): nat
    decreases |fields|
  {
    if fields == map[] then 0
    else
      var k :| k in fields;
      Count(fields[k]) + Total(fields - {k})
  }

  lemma {:induction false} TotalWithout(fields: map<string, Js>, k: string)
    requires k in fields
    ensures Total(fields) == Count(fields[k]) + Total(fields - {k})
    decreases |fields|
  {
    var x :| x in fields && Total(fields) == Count(fields[x]) + Total(fields - {x});
    if x != k {
      TotalWithout(fields - {x}, k);
      TotalWithout(fields - {k}, x);
      assert fields - {x} - {k} == fields - {k} - {x};
    }
  }

  lemma {:induction false} TotalAfterPut(fields: map<string, Js>, k: string, v: Js)
    ensures Total(fields[k := v]) == Total(fields - {k}) + Count(v)
  {
    TotalWithout(fields[k := v], k);
    assert fields[k := v] - {k} == fields - {k};
  }

  lemma {:induction false} OneMoreValue(base: Js, fields: seq<Field>, f: Field)
    requires StoresFields(base, fields) && PlainKey(f.key)
    ensures Set(base, f.key, f.val).Obj? && Total(Set(base, f.key, f.val).fields) == Total(base.fields) + 1
  {
    var after := Set(base, f.key, f.val);
    SetStored(base, f.key, ValuesOf(fields, f.key), f.val);
    TotalAfterPut(base.fields, f.key, after.fields[f.key]);
    if f.key in base.fields {
      TotalWithout(base.fields, f.key);
    } else {
      assert base.fields - {f.key} == base.fields;
    }
  }

  /** No pair is lost: as many values are stored as there are pairs. */
  lemma {:induction false} AsManyValuesAsPairs(pairs: seq<string>, fields: seq<Field>)
    requires PrintedFields(pairs, fields)
    ensures ParsePairs(pairs).Obj? && Total(ParsePairs(pairs).fields) == |pairs|
    decreases |pairs|
  {
    if pairs != [] {
      var n := |pairs| - 1;
      AsManyValuesAsPairs(pairs[..n], fields[..n]);
      ParsesToValueLists(pairs[..n], fields[..n]);
      PlainStep(ParsePairs(pairs[..n]), fields[n]);
      OneMoreValue(ParsePairs(pairs[..n]), fields[..n], fields[n]);
    }
  }

  // ---------------------------------------------------------------- keys with empty brackets

  function NonEmpty(vals: seq<string>): seq<string> {
    if vals == [] then []
    else NonEmpty(vals[..|vals|-1]) + if vals[|vals|-1] == "" then [] else [vals[|vals|-1]]
  }

  /** The pairs are the fields, printed with empty brackets behind the key. */
  ghost predicate PrintedLists(pairs: seq<string>, fields: seq<Field>) {
    && |pairs| == |fields|
    && forall i :: 0 <= i < |fields| ==>
      PlainKey(fields[i].key) && pairs[i] == PurlPaths.PrintPair([fields[i].key, ""], fields[i].val)
  }

  ghost predicate StoresLists(base: Js, fields: seq<Field>) {
    && base.Obj?
    && (forall k :: k in base.fields <==> ValuesOf(fields, k) != [])
    && (forall k :: k in base.fields ==> IsListOf(base.fields[k], NonEmpty(ValuesOf(fields, k))))
  }

  lemma {:induction false} BracketStep(base: Js, f: Field)
    requires base.Obj? && PlainKey(f.key)
    ensures MergePair(base, PurlPaths.PrintPair([f.key, ""], f.val)) ==
      Put(base, f.key, Append(OrNewArray(Get(base, f.key)), f.val))
  {
    var p := [f.key, ""];
    PurlPaths.CutsPrintedPair(p, f.val);
    PurlPaths.MergeBracketedKey(base, p, f.val);
    assert p[1..] == [""];
    assert PurlPaths.BracketParts([""])[0] == "]";
  }

  lemma {:induction false} AppendListed(arr: Js, vals: seq<string>, val: string)
    requires IsListOf(arr, NonEmpty(vals))
    ensures IsListOf(Append(arr, val), NonEmpty(vals + [val]))
  {
    assert (vals + [val])[..|vals|] == vals;
    PushStored(arr, NonEmpty(vals), val);
    assert NonEmpty(vals) + [] == NonEmpty(vals);
  }

  lemma {:induction false} ListsOneMore(base: Js, fields: seq<Field>, f: Field)
    requires StoresLists(base, fields) && PlainKey(f.key)
    ensures StoresLists(Put(base, f.key, Append(OrNewArray(Get(base, f.key)), f.val)), fields + [f])
  {
    var after, more := Put(base, f.key, Append(OrNewArray(Get(base, f.key)), f.val)), fields + [f];
    assert more[..|more|-1] == fields;
    AppendListed(OrNewArray(Get(base, f.key)), ValuesOf(fields, f.key), f.val);
    forall k ensures k in after.fields <==> ValuesOf(more, k) != [] {
      if k != f.key { assert ValuesOf(more, k) == ValuesOf(fields, k); }
    }
    forall k | k in after.fields ensures IsListOf(after.fields[k], NonEmpty(ValuesOf(more, k))) {
      if k != f.key { assert ValuesOf(more, k) == ValuesOf(fields, k); }
    }
  }

  /** Parsing repeated `k[]` gives, for each key, an array of its values that are not empty, in order of occurrence. */
  lemma {:induction false} ParsesBracketLists(pairs: seq<string>, fields: seq<Field>)
    requires PrintedLists(pairs, fields)
    ensures StoresLists(ParsePairs(pairs), fields)
  {
    var holds := (base: Js, i: nat) => i <= |fields| && StoresLists(base, fields[..i]);
    forall base, i | 0 <= i < |pairs| && holds(base, i) ensures holds(MergePair(base, pairs[i]), i + 1) {
      assert fields[..i+1] == fields[..i] + [fields[i]];
      BracketStep(base, fields[i]);
      ListsOneMore(base, fields[..i], fields[i]);
    }
    ParsedStepwise(pairs, holds);
    assert fields[..|fields|] == fields;
  }

  /** An array of one empty string, printed this way, comes back empty. */
  lemma {:induction false} EmptyStringIsLost(k: string)
    requires PlainKey(k)
    ensures ParsePairs([PurlPaths.PrintPair([k, ""], "")]) == Obj(map[k := Arr(0, map[])])
  {
    var base, pair := Obj(map[]), PurlPaths.PrintPair([k, ""], "");
    BracketStep(base, Field(k, ""));
    assert [pair][..0] == [];
    assert ParsePairs([pair]) == MergePair(base, pair);
  }
}

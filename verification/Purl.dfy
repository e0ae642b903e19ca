/**
 The query-string parser of purl.js on values: what each call does to the tree that it
 builds. PurlObjects holds the same code writing into objects in place.
 */
module Purl {
  import opened Wrappers
  import opened Decimals
  import opened JavaScript

  /**
   A JavaScript value of the tree: a string, a plain object, an array with its length, or a
   function inherited from Object.prototype that a key happens to name.
   */
  datatype Js =
    | Text(text: string)
    | Obj(fields: map<string, Js>)
    | Arr(length: nat, fields: map<string, Js>)
    | Builtin(name: string)

  /** `obj[key]`; None is undefined. Strings and functions are read as having no properties. */
  function Get(obj: Js, key: string): Option<Js> {
    if (obj.Obj? || obj.Arr?) && key in obj.fields then Some(obj.fields[key])
    else if (obj.Obj? || obj.Arr?) && key in INHERITED then Some(Builtin(key))
    else None
  }

  /** `obj[key] = v`. An array grows to hold the index; a write to a string or function leaves the tree as it is. */
  function Put(obj: Js, key: string, v: Js): Js {
    match obj
    case Obj(fields) => Obj(fields[key := v])
    case Arr(n, fields) => Arr(if IsIndex(key) && Value(key) >= n then Value(key) + 1 else n, fields[key := v])
    case _ => obj
  }

  /** `arr.push(v)`. */
  function Push(arr: Js, v: Js): Js
    requires arr.Arr?
  {
    Arr(arr.length + 1, arr.fields[ToDecimal(arr.length) := v])
  }

  /** `[a, b]`. */
  function Pair(a: Js, b: Js): Js {
    Arr(2, map[ToDecimal(0) := a, ToDecimal(1) := b])
  }

  /** promote: an array becomes an object with the same properties; one of length 0 becomes `{}`. */
  function Promote(arr: Js): Js
    requires arr.Arr?
  {
    if arr.length == 0 then Obj(map[]) else Obj(arr.fields)
  }

  /** The value that ends up in `parent[key]` when no part of the key is left. */
  function Leaf(slot: Option<Js>, val: string): Js {
    match slot
    case None => Text(val)
    case Some(Arr(n, fields)) => Push(Arr(n, fields), Text(val))
    case Some(Obj(_)) => Text(val)
    case Some(v) => Pair(v, Text(val))
  }

  /** `parent[key] || []`: undefined and the empty string give a new array. */
  function OrNewArray(slot: Option<Js>): Js {
    if slot.None? || slot.value == Text("") then Arr(0, map[]) else slot.value
  }

  /** The part `]` of a key that ends in `[]`. */
  function Append(obj: Js, val: string): Js {
    match obj
    case Arr(_, _) => if val != "" then Push(obj, Text(val)) else obj
    case Obj(fields) => Put(obj, ToDecimal(|fields|), Text(val))
    case _ => Pair(obj, Text(val))
  }

  /** The property a part names: without its last character if it contains `]`. */
  function PartName(part: string): string
    requires part != ""
  {
    if ']' in part then part[..|part|-1] else part
  }

  function PromotedFor(obj: Js, key: string): Js {
    if obj.Arr? && !IsInt(key) then Promote(obj) else obj
  }

  /** parse(parts, parent, key, val): the new value of `parent[key]`, from its value `slot` before. */
  function Parse(parts: seq<string>, slot: Option<Js>, val: string): Js
    decreases |parts|
  {
    if parts == [] || parts[0] == "" then Leaf(slot, val)
    else
      var obj := OrNewArray(slot);
      if parts[0] == "]" then Append(obj, val)
      else
        var key := PartName(parts[0]);
        var target := PromotedFor(obj, key);
        Put(target, key, Parse(parts[1..], Get(target, key), val))
  }

  /** set(obj, key, val). */
  function Set(obj: Js, key: string, val: string): Js {
    match Get(obj, key)
    case None => Put(obj, key, Text(val))
    case Some(v) => Put(obj, key, if v.Arr? then Push(v, Text(val)) else Pair(v, Text(val)))
  }

  /** merge: the new value of `parent.base`. */
  function Merge(base: Js, key: string, val: string): Js {
    if ']' in key then Parse(Split(key, '['), Some(base), val)
    else
      var target := if base.Arr? && !IsInt(key) then Obj(base.fields) else base;
      if key == "" then target else Set(target, key, val)
  }

  // ---------------------------------------------------------------- text

  /** `s.split(c)`. */
  function Split(s: string, c: char): (parts: seq<string>)
    ensures |parts| >= 1
    decreases |s|
  {
    var i := IndexOf(s, c);
    if i == |s| then [s] else [s[..i]] + Split(s[i+1..], c)
  }

  /** The first `=` at or after `i` that is not inside brackets; `inside` says whether `i` is. |s| if there is none. */
  function FirstOutside(s: string, i: nat, inside: bool): (k: nat)
    requires i <= |s|
    ensures i <= k <= |s|
    decreases |s| - i
  {
    if i == |s| then i
    else
      var inside' := s[i] == '[' || (inside && s[i] != ']');
      if s[i] == '=' && !inside' then i else FirstOutside(s, i + 1, inside')
  }

  /** Some `[` before `i` is not closed before `i`. */
  ghost predicate InBrackets(s: string, i: nat)
    requires i <= |s|
  {
    exists o :: 0 <= o < i && s[o] == '[' && forall k :: o < k < i ==> s[k] != ']'
  }

  /** `k` is the first `=` outside brackets at or after `i`, or |s| if there is none. */
  ghost predicate IsFirstOutside(s: string, i: nat, k: nat) {
    && i <= k <= |s|
    && (k < |s| ==> s[k] == '=' && !InBrackets(s, k))
    && forall j :: i <= j < k && s[j] == '=' ==> InBrackets(s, j)
  }

  lemma {:induction false} FirstOutsideIsFirst(s: string, i: nat, inside: bool)
    requires i <= |s| && (inside <==> InBrackets(s, i))
    ensures IsFirstOutside(s, i, FirstOutside(s, i, inside))
    decreases |s| - i
  {
    if i < |s| {
      var inside' := s[i] == '[' || (inside && s[i] != ']');
      if inside { var o :| 0 <= o < i && s[o] == '[' && forall k :: o < k < i ==> s[k] != ']'; }
      assert inside' <==> InBrackets(s, i + 1);
      FirstOutsideIsFirst(s, i + 1, inside');
    }
  }

  /** lastBraceInKey: the loop as written. The result |str| stands for undefined. */
  method LastBraceInKey(str: string) returns (r: nat)
    ensures r == FirstOutside(str, 0, false)
    ensures IsFirstOutside(str, 0, r)
  {
    FirstOutsideIsFirst(str, 0, false);
    var brace := false;
    for i := 0 to |str|
      invariant FirstOutside(str, i, brace) == FirstOutside(str, 0, false)
    {
      var c := str[i];
      if c == ']' { brace := false; }
      if c == '[' { brace := true; }
      if c == '=' && !brace { return i; }
    }
    r := |str|;
  }

  /** The key and the value of one decoded pair, as parseString cuts it. */
  function KeyValue(pair: string): (string, string) {
    var eql := IndexOf(pair, '=');
    var brace := FirstOutside(pair, 0, false);
    // `brace || eql`: a brace of 0 or undefined gives way to eql, which is -1 if there is no `=`
    var cut := if brace == 0 || brace == |pair| then eql else brace;
    if cut == 0 || cut == |pair| then (pair, "")
    else
      var rest := pair[cut..];
      var i := IndexOf(rest, '=');
      (pair[..cut], if i == |rest| then rest else rest[i+1..])
  }

  /** One turn of the reduce in parseString. */
  function MergePair(base: Js, pair: string): Js {
    var (key, val) := KeyValue(pair);
    Merge(base, key, val)
  }

  function ParsePairs(pairs: seq<string>): Js {
    if pairs == [] then Obj(map[]) else MergePair(ParsePairs(pairs[..|pairs|-1]), pairs[|pairs|-1])
  }

  /** What holds of the empty base and is kept by every pair holds of the result. */
  lemma {:induction false} ParsedStepwise(pairs: seq<string>, holds: (Js, nat) -> bool)
    requires holds(Obj(map[]), 0)
    requires forall base, i :: 0 <= i < |pairs| && holds(base, i) ==> holds(MergePair(base, pairs[i]), i + 1)
    ensures holds(ParsePairs(pairs), |pairs|)
    decreases |pairs|
  {
    if pairs != [] { ParsedStepwise(pairs[..|pairs|-1], holds); }
  }

  /** `str.split(/&|;/)`. */
  function SplitQuery(str: string): seq<string>
    decreases |str|
  {
    var i, j := IndexOf(str, '&'), IndexOf(str, ';');
    var k := if i <= j then i else j;
    if k == |str| then [str] else [str[..k]] + SplitQuery(str[k+1..])
  }

  function Map(f: string -> string, s: seq<string>): (r: seq<string>)
    ensures |r| == |s| && forall i :: 0 <= i < |s| ==> r[i] == f(s[i])
  {
    if s == [] then [] else [f(s[0])] + Map(f, s[1..])
  }

  /** parseString; `decode` stands for replacing `+` and decoding percent escapes, or leaving a malformed pair alone. */
  function ParseString(str: string, decode: string -> string): Js {
    ParsePairs(Map(decode, SplitQuery(str)))
  }
}

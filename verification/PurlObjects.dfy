/** purl.js as it runs: parse, promote, merge and set write into objects and arrays in place. */
module PurlObjects {
  import opened Wrappers
  import opened Decimals
  import opened JavaScript
  import P = Purl

  type Js = P.Js

  /** What a property holds: a string, a reference to an object or array, or an inherited function. */
  datatype Value = TextValue(text: string) | Reference(obj: JsObject) | Inherited(name: string)

  class JsObject {
    var isArray: bool
    var length: nat
    var fields: map<string, Value>
    /** The value that the object and everything below it stand for, and all objects it consists of. */
    ghost var Tree: Js
    ghost var Repr: set<JsObject>

    /** `fields[k]` stands for `Tree.fields[k]`. */
    ghost predicate Stands(k: string)
      requires this in Repr && k in fields
      reads this, Repr
      decreases Repr, 0
    {
      && (Tree.Obj? || Tree.Arr?) && k in Tree.fields
      && match fields[k]
         case TextValue(s) => Tree.fields[k] == P.Text(s)
         case Inherited(n) => Tree.fields[k] == P.Builtin(n)
         case Reference(o) => o in Repr && o.Repr <= Repr && this !in o.Repr && o.Valid() && Tree.fields[k] == o.Tree
    }

    /** No object is part of two properties. */
    ghost predicate Separate(j: string, k: string)
      requires j in fields && k in fields
      reads this, if fields[j].Reference? then {fields[j].obj} else {},
        if fields[k].Reference? then {fields[k].obj} else {}
    {
      j != k && fields[j].Reference? && fields[k].Reference? ==> fields[j].obj.Repr !! fields[k].obj.Repr
    }

    /** The objects below form a tree, and an array is longer than its indices. */
    ghost predicate Valid()
      reads this, Repr
      decreases Repr, 1
    {
      && this in Repr
      && (if isArray then Tree.Arr? && Tree.length == length else Tree.Obj?)
      && Tree.fields.Keys == fields.Keys
      && (forall k :: k in fields ==> Stands(k))
      && (forall j, k :: j in fields && k in fields ==> Separate(j, k))
      && (isArray ==> forall k :: k in fields && IsIndex(k) ==> Decimals.Value(k) < length)
    }

    /** As valid, but nothing is said about what `key` holds, nor about a length just grown for it. */
    ghost predicate ValidBut(key: string)
      reads this, Repr
    {
      && this in Repr
      && (if isArray then Tree.Arr? else Tree.Obj?)
      && Tree.fields.Keys + {key} == fields.Keys
      && (forall k :: k in fields && k != key ==> Stands(k))
      && (forall k :: k in fields && k != key && fields[k].Reference? ==> fields[k].obj in Repr)
      && (forall j, k :: j in fields && k in fields && j != key && k != key ==> Separate(j, k))
      && (isArray ==> length == Grown(Tree.length, key))
      && (isArray ==> forall k :: k in fields && IsIndex(k) ==> Decimals.Value(k) < length)
    }

    /** What `key` holds has changed: bring the ghost state up to date. */
    ghost method Attach(key: string)
      requires ValidBut(key)
      requires fields[key].Reference? ==> fields[key].obj.Valid() && this !in fields[key].obj.Repr
      requires forall k :: k in fields ==> Separate(k, key)
      modifies this`Tree, this`Repr
      ensures Valid()
      ensures Repr == old(Repr) + if fields[key].Reference? then fields[key].obj.Repr else {}
      ensures Tree == P.Put(old(Tree), key, ValueOf(fields[key]))
    {
      label before:
      Tree := P.Put(Tree, key, ValueOf(fields[key]));
      if fields[key].Reference? { Repr := Repr + fields[key].obj.Repr; }
      forall k | k in fields
        ensures Stands(k) && (fields[k].Reference? ==> fields[k].obj.Repr == old(fields[k].obj.Repr))
      {
        assert old(k != key ==> Stands(k));
        if fields[k].Reference? { Kept@before(fields[k].obj); }
      }
      forall j, k | j in fields && k in fields ensures Separate(j, k) {
        assert old(Separate(j, key)) && old(Separate(k, key));
        assert old(j != key && k != key ==> Separate(j, k));
      }
    }

    /** What another call did below one property, seen from the object above it. */
    twostate lemma {:induction false} ChangedBelow(key: string)
      requires old(Valid()) && unchanged(this) && key in fields && fields[key].Reference?
      requires forall o :: o in old(Repr) && o !in old(fields[key].obj.Repr) ==> unchanged(o)
      requires fields[key].obj.Valid()
      requires forall o :: o in fields[key].obj.Repr && o !in old(fields[key].obj.Repr) ==> fresh(o)
      ensures ValidBut(key) && this !in fields[key].obj.Repr
      ensures forall k :: k in fields ==> Separate(k, key)
    {
      forall k | k in fields && k != key
        ensures Stands(k) && Separate(k, key)
        ensures fields[k].Reference? ==> fields[k].obj.Repr == old(fields[k].obj.Repr)
      {
        if fields[k].Reference? {
          assert old(Separate(k, key)) && old(Stands(k)) && old(Stands(key));
          var was, now := old(fields[k].obj.Repr), fields[key].obj.Repr;
          assert was !! old(fields[key].obj.Repr) && was <= old(Repr);
          Kept(fields[k].obj);
          assert forall o :: o in was ==> !fresh(o);
          assert was !! now;
        }
      }
      forall j, k | j in fields && k in fields && j != key && k != key ensures Separate(j, k) {
        assert old(Separate(j, k));
      }
    }

    constructor (isArray: bool)
      ensures Valid() && Repr == {this}
      ensures Tree == if isArray then P.Arr(0, map[]) else P.Obj(map[])
    {
      this.isArray, length, fields, Repr := isArray, 0, map[], {this};
      Tree := if isArray then P.Arr(0, map[]) else P.Obj(map[]);
    }
  }

  /** The length of an array of length `n` after a write to `key`. */
  function Grown(n: nat, key: string): nat {
    if IsIndex(key) && Decimals.Value(key) >= n then Decimals.Value(key) + 1 else n
  }

  ghost function ValueOf(v: Value): Js
    reads if v.Reference? then {v.obj} else {}
  {
    match v
    case TextValue(s) => P.Text(s)
    case Inherited(n) => P.Builtin(n)
    case Reference(o) => o.Tree
  }
  
  /** An object none of whose parts has changed stands for what it did. */
  twostate lemma {:induction false} Kept(o: JsObject)
    requires old(o.Valid()) && unchanged(old(o.Repr))
    ensures o.Valid() && o.Tree == old(o.Tree) && o.Repr == old(o.Repr)
  {}

  /** `obj[key] = v`, where `v` is a string, a function, or an object that no other property refers to. */
  method Assign(obj: JsObject, key: string, v: Value)
    requires obj.Valid()
    requires v.Reference? ==> v.obj.Valid() && obj !in v.obj.Repr
    requires v.Reference? ==> forall k :: k in obj.fields && k != key && obj.fields[k].Reference? ==>
      obj.fields[k].obj.Repr !! v.obj.Repr
    modifies obj
    ensures obj.Valid() && obj.fields == old(obj.fields)[key := v]
    ensures obj.Repr == old(obj.Repr) + if v.Reference? then v.obj.Repr else {}
    ensures obj.Tree == P.Put(old(obj.Tree), key, ValueOf(v))
  {
    label before:
    if obj.isArray { obj.length := Grown(obj.length, key); }
    obj.fields := obj.fields[key := v];
    forall k | k in obj.fields && k != key
      ensures obj.Stands(k) && obj.Separate(k, key)
      ensures obj.fields[k].Reference? ==> obj.fields[k].obj.Repr == old(obj.fields[k].obj.Repr)
    {
      assert old(obj.Stands(k));
      if obj.fields[k].Reference? { Kept@before(obj.fields[k].obj); }
    }
    forall j, k | j in obj.fields && k in obj.fields && j != key && k != key ensures obj.Separate(j, k) {
      assert old(obj.Separate(j, k));
    }
    if v.Reference? { Kept@before(v.obj); }
    assert obj.ValidBut(key);
    obj.Attach(key);
  }

  /** `arr.push(val)`. */
  method Push(arr: JsObject, val: string)
    requires arr.Valid() && arr.isArray
    modifies arr
    ensures arr.Valid() && arr.Repr == old(arr.Repr)
    ensures arr.Tree == P.Push(old(arr.Tree), P.Text(val))
  {
    label before:
    arr.fields := arr.fields[ToDecimal(arr.length) := TextValue(val)];
    arr.length := arr.length + 1;
    arr.Tree := P.Push(arr.Tree, P.Text(val));
    forall k | k in arr.fields ensures arr.Stands(k) {
      if arr.fields[k].Reference? { Kept@before(arr.fields[k].obj); }
    }
    forall j, k | j in arr.fields && k in arr.fields ensures arr.Separate(j, k) {
      if arr.fields[j].Reference? && arr.fields[k].Reference? {
        Kept@before(arr.fields[j].obj);
        Kept@before(arr.fields[k].obj);
      }
    }
  }

  /** The loop of promote: a new object with the properties of an array. */
  method CopiedToObject(arr: JsObject) returns (t: JsObject)
    requires arr.Valid() && arr.isArray
    ensures t.Valid() && fresh(t) && t.Repr == arr.Repr - {arr} + {t}
    ensures t.Tree == P.Obj(arr.Tree.fields)
  {
    t := new JsObject(false);
    var names := arr.fields.Keys;
    while names != {}
      invariant names <= arr.fields.Keys
      invariant !t.isArray && t.fields == map k | k in arr.fields && k !in names :: arr.fields[k]
      invariant fresh(t) && unchanged(arr.Repr)
    {
      var i :| i in names;
      t.fields := t.fields[i := arr.fields[i]];
      names := names - {i};
    }
    assert t.fields == arr.fields;
    label copied:
    t.Repr, t.Tree := arr.Repr - {arr} + {t}, P.Obj(arr.Tree.fields);
    forall k | k in t.fields ensures t.Stands(k) {
      assert arr.Stands(k);
      if t.fields[k].Reference? { Kept@copied(t.fields[k].obj); }
    }
    forall j, k | j in t.fields && k in t.fields ensures t.Separate(j, k) {
      assert arr.Separate(j, k);
    }
  }

  /** promote, for the array that `parent[key]` refers to. */
  method Promote(parent: JsObject, key: string) returns (t: JsObject)
    requires parent.Valid() && key in parent.fields && parent.fields[key].Reference?
    requires parent.fields[key].obj.Valid() && parent.fields[key].obj.isArray
    modifies parent
    ensures parent.Valid() && fresh(parent.Repr - old(parent.Repr))
    ensures key in parent.fields && parent.fields[key] == Reference(t)
      && t.Tree == P.Promote(old(parent.fields[key].obj.Tree))
    ensures parent.Tree == P.Put(old(parent.Tree), key, t.Tree)
  {
    assert parent.Stands(key);
    var arr := parent.fields[key].obj;
    assert arr.Valid();
    forall k | k in parent.fields && k != key && parent.fields[k].Reference?
      ensures parent.fields[k].obj.Repr !! arr.Repr
    {
      assert parent.Separate(k, key) && parent.Stands(k);
    }
    if arr.length == 0 {
      t := new JsObject(false);
    } else {
      t := CopiedToObject(arr);
    }
    Assign(parent, key, Reference(t));
  }

  /** `[a, b]`. */
  method NewPair(a: Value, b: string) returns (arr: JsObject)
    requires a.Reference? ==> a.obj.Valid()
    ensures arr.Valid() && fresh(arr) && arr.Repr == {arr} + if a.Reference? then a.obj.Repr else {}
    ensures arr.Tree == P.Pair(ValueOf(a), P.Text(b))
  {
    arr := new JsObject(true);
    ToDecimalInjective(0, 1);
    Assign(arr, ToDecimal(0), a);
    Assign(arr, ToDecimal(1), TextValue(b));
    assert arr.Tree.fields == P.Pair(ValueOf(a), P.Text(b)).fields;
  }

  /** `obj[key]`; None is undefined. */
  function Read(obj: JsObject, key: string): Option<Value>
    reads obj
  {
    if key in obj.fields then Some(obj.fields[key])
    else if key in INHERITED then Some(Inherited(key))
    else None
  }

  /** Reading from an object reads from the value it stands for. */
  lemma {:induction false} ReadIsGet(obj: JsObject, key: string)
    requires obj.Valid()
    ensures P.Get(obj.Tree, key) == match Read(obj, key) case None => None case Some(v) => Some(ValueOf(v))
    ensures key in obj.fields && obj.fields[key].Reference? ==> obj.Stands(key)
  {
    if key in obj.fields { assert obj.Stands(key); }
  }

  /** `parent[key].push(val)`. */
  method PushBelow(parent: JsObject, key: string, val: string)
    requires parent.Valid() && key in parent.fields && parent.fields[key].Reference?
    requires parent.fields[key].obj.Valid() && parent.fields[key].obj.isArray
    modifies parent.Repr
    ensures parent.Valid() && parent.Repr == old(parent.Repr)
    ensures parent.Tree == P.Put(old(parent.Tree), key, P.Push(old(parent.fields[key].obj.Tree), P.Text(val)))
  {
    label before:
    assert parent.Stands(key);
    Push(parent.fields[key].obj, val);
    parent.ChangedBelow@before(key);
    parent.Attach(key);
  }

  lemma {:induction false} OthersApart(obj: JsObject, key: string)
    requires obj.Valid()
    ensures forall k :: k in obj.fields && k != key && obj.fields[k].Reference? ==>
      && obj.fields[k].obj.Repr <= obj.Repr
      && (key in obj.fields && obj.fields[key].Reference? ==> obj.fields[k].obj.Repr !! obj.fields[key].obj.Repr)
  {
    forall k | k in obj.fields && k != key && obj.fields[k].Reference?
      ensures obj.Stands(k) && (key in obj.fields ==> obj.Separate(k, key))
    {
    }
  }

  /** `parent[key] = [parent[key], val]`. */
  method PairUp(parent: JsObject, key: string, val: string)
    requires parent.Valid() && P.Get(parent.Tree, key).Some?
    modifies parent
    ensures parent.Valid() && fresh(parent.Repr - old(parent.Repr))
    ensures parent.Tree == P.Put(old(parent.Tree), key, P.Pair(P.Get(old(parent.Tree), key).value, P.Text(val)))
  {
    ReadIsGet(parent, key);
    OthersApart(parent, key);
    var pair := NewPair(Read(parent, key).value, val);
    Assign(parent, key, Reference(pair));
  }

  /** The end of parse, when no part of the key is left. */
  method WriteLeaf(parent: JsObject, key: string, val: string)
    requires parent.Valid()
    modifies parent.Repr
    ensures parent.Valid() && fresh(parent.Repr - old(parent.Repr))
    ensures parent.Tree == P.Put(old(parent.Tree), key, P.Leaf(P.Get(old(parent.Tree), key), val))
  {
    ReadIsGet(parent, key);
    match Read(parent, key)
    case None => Assign(parent, key, TextValue(val));
    case Some(Reference(o)) =>
      if o.isArray {
        PushBelow(parent, key, val);
      } else {
        Assign(parent, key, TextValue(val));
      }
    case Some(_) => PairUp(parent, key, val);
  }

  /** `parent[key] = parent[key] || []`. */
  method Open(parent: JsObject, key: string)
    requires parent.Valid()
    modifies parent
    ensures parent.Valid() && fresh(parent.Repr - old(parent.Repr)) && key in parent.fields
    ensures parent.Tree == P.Put(old(parent.Tree), key, P.OrNewArray(P.Get(old(parent.Tree), key)))
  {
    ReadIsGet(parent, key);
    var slot := Read(parent, key);
    if slot.None? || slot.value == TextValue("") {
      var arr := new JsObject(true);
      Assign(parent, key, Reference(arr));
    } else {
      OthersApart(parent, key);
      Assign(parent, key, slot.value);
    }
  }

  /** The part `]`: `val` is added to what `parent[key]` holds. */
  method AppendBelow(parent: JsObject, key: string, val: string)
    requires parent.Valid() && key in parent.fields
    modifies parent.Repr
    ensures parent.Valid() && fresh(parent.Repr - old(parent.Repr))
    ensures P.Get(old(parent.Tree), key).Some?
    ensures parent.Tree == P.Put(old(parent.Tree), key, P.Append(P.Get(old(parent.Tree), key).value, val))
  {
    ReadIsGet(parent, key);
    match parent.fields[key]
    case Reference(o) =>
      if !o.isArray {
        SetBelow(parent, key, ToDecimal(|o.fields|), val);
      } else if val != "" {
        PushBelow(parent, key, val);
      }
    case _ => PairUp(parent, key, val);
  }

  /** `parent[key][name] = val`. */
  method SetBelow(parent: JsObject, key: string, name: string, val: string)
    requires parent.Valid() && key in parent.fields && parent.fields[key].Reference?
    requires parent.fields[key].obj.Valid()
    modifies parent.Repr
    ensures parent.Valid() && parent.Repr == old(parent.Repr)
    ensures parent.Tree == P.Put(old(parent.Tree), key, P.Put(old(parent.fields[key].obj.Tree), name, P.Text(val)))
  {
    label before:
    assert parent.Stands(key);
    Assign(parent.fields[key].obj, name, TextValue(val));
    parent.ChangedBelow@before(key);
    parent.Attach(key);
  }

  lemma {:induction false} PutTwice(t: Js, key: string, v: Js, w: Js)
    ensures P.Put(P.Put(t, key, v), key, w) == P.Put(t, key, w)
  {
    if t.Obj? || t.Arr? { assert t.fields[key := v][key := w] == t.fields[key := w]; }
  }

  /** parse(parts, parent, key, val). */
  method Parse(parts: seq<string>, parent: JsObject, key: string, val: string)
    requires parent.Valid()
    modifies parent.Repr
    ensures parent.Valid() && fresh(parent.Repr - old(parent.Repr))
    ensures parent.Tree == P.Put(old(parent.Tree), key, P.Parse(parts, P.Get(old(parent.Tree), key), val))
    decreases |parts|, 1
  {
    if parts == [] || parts[0] == "" {
      WriteLeaf(parent, key, val);
    } else {
      ghost var slot := P.Get(parent.Tree, key);
      ghost var obj := P.OrNewArray(slot);
      Open(parent, key);
      ReadIsGet(parent, key);
      if parts[0] == "]" {
        AppendBelow(parent, key, val);
        PutTwice(old(parent.Tree), key, obj, P.Append(obj, val));
      } else {
        ghost var result := P.Parse(parts, slot, val);
        ParseNamed(parts, parent, key, val);
        PutTwice(old(parent.Tree), key, obj, result);
      }
    }
  }

  /** The part `name` or `name]`, when `parent[key]` exists; a write to a string or a function is lost. */
  method ParseNamed(parts: seq<string>, parent: JsObject, key: string, val: string)
    requires parts != [] && parts[0] != "" && parts[0] != "]"
    requires parent.Valid() && key in parent.fields && P.Get(parent.Tree, key) != Some(P.Text(""))
    modifies parent.Repr
    ensures parent.Valid() && fresh(parent.Repr - old(parent.Repr))
    ensures parent.Tree == P.Put(old(parent.Tree), key, P.Parse(parts, P.Get(old(parent.Tree), key), val))
    decreases |parts|, 0
  {
    ReadIsGet(parent, key);
    if parent.fields[key].Reference? {
      var name, obj := P.PartName(parts[0]), parent.fields[key].obj;
      ghost var target := P.PromotedFor(obj.Tree, name);
      if !IsInt(name) && obj.isArray { obj := Promote(parent, key); }
      assert parent.Stands(key);
      label promoted:
      Parse(parts[1..], obj, name, val);
      parent.ChangedBelow@promoted(key);
      parent.Attach(key);
      assert obj.Tree == P.Parse(parts, P.Get(old(parent.Tree), key), val);
      PutTwice(old(parent.Tree), key, target, obj.Tree);
    }
  }

  /** set(obj, key, val), for an object. */
  method Set(obj: JsObject, key: string, val: string)
    requires obj.Valid()
    modifies obj.Repr
    ensures obj.Valid() && fresh(obj.Repr - old(obj.Repr))
    ensures obj.Tree == P.Set(old(obj.Tree), key, val)
  {
    ReadIsGet(obj, key);
    match Read(obj, key)
    case None => Assign(obj, key, TextValue(val));
    case Some(v) =>
      if v.Reference? && v.obj.isArray {
        PushBelow(obj, key, val);
      } else {
        PairUp(obj, key, val);
      }
  }

  /** The value that reduce carries: an object that holds `base` and nothing else. */
  ghost predicate HoldsBase(ret: JsObject, base: Js)
    reads ret, ret.Repr
  {
    ret.Valid() && ret.Tree == P.Obj(map["base" := base])
  }

  /** set(parent.base, key, val); a write to a string or a function is lost. */
  method SetBase(parent: JsObject, key: string, val: string, ghost base: Js)
    requires HoldsBase(parent, base)
    modifies parent.Repr
    ensures HoldsBase(parent, P.Set(base, key, val)) && fresh(parent.Repr - old(parent.Repr))
  {
    ReadIsGet(parent, "base");
    if parent.fields["base"].Reference? {
      label before:
      Set(parent.fields["base"].obj, key, val);
      parent.ChangedBelow@before("base");
      parent.Attach("base");
    }
  }

  /** merge(parent, key, val). */
  method Merge(parent: JsObject, key: string, val: string, ghost base: Js)
    requires HoldsBase(parent, base)
    modifies parent.Repr
    ensures HoldsBase(parent, P.Merge(base, key, val)) && fresh(parent.Repr - old(parent.Repr))
  {
    ReadIsGet(parent, "base");
    if ']' in key {
      Parse(P.Split(key, '['), parent, "base", val);
    } else {
      ghost var target := base;
      if !IsInt(key) && parent.fields["base"].Reference? && parent.fields["base"].obj.isArray {
        var t := CopiedToObject(parent.fields["base"].obj);
        Assign(parent, "base", Reference(t));
        target := P.Obj(base.fields);
      }
      if key != "" { SetBase(parent, key, val, target); }
    }
  }

  /** `{ base: {} }`. */
  method NewBase() returns (ret: JsObject)
    ensures HoldsBase(ret, P.Obj(map[])) && fresh(ret.Repr)
  {
    var base := new JsObject(false);
    ret := new JsObject(false);
    Assign(ret, "base", Reference(base));
    assert ret.Tree.fields == map["base" := base.Tree];
  }

  lemma {:induction false} OneMorePair(pairs: seq<string>, i: nat)
    requires i < |pairs|
    ensures P.ParsePairs(pairs[..i+1]) == P.MergePair(P.ParsePairs(pairs[..i]), pairs[i])
  {
    assert pairs[..i+1][..i] == pairs[..i];
  }

  /** parseString: the loop of reduce over the decoded pairs, starting with an empty base. */
  method ParseString(str: string, decode: string -> string) returns (ret: JsObject)
    ensures fresh(ret.Repr) && HoldsBase(ret, P.ParseString(str, decode))
  {
    ret := NewBase();
    var pairs := P.Map(decode, P.SplitQuery(str));
    ghost var base := P.Obj(map[]);
    for i := 0 to |pairs|
      invariant fresh(ret.Repr) && HoldsBase(ret, base) && base == P.ParsePairs(pairs[..i])
    {
      OneMorePair(pairs, i);
      var (key, val) := P.KeyValue(pairs[i]);
      Merge(ret, key, val, base);
      base := P.MergePair(base, pairs[i]);
    }
    assert pairs[..|pairs|] == pairs;
  }
}

/**
 What one more pair does to any tree, whatever the pairs before it have left there: keys that end
 above, at or below another key, arrays that turn into objects, and writes that are lost.
 */
module PurlPairs {
  import opened Wrappers
  import opened Decimals
  import opened JavaScript
  import opened Purl
  import opened PurlPaths
  import R = PurlRepeats

  // ---------------------------------------------------------------- what a pair finds

  function Find(slot: Option<Js>, q: Path): Option<Js> {
    if slot.None? then None else R.Read(slot.value, q)
  }

  /** At `p[..i]` lies an array of length 0, which the name behind it turns into `{}`, whatever properties it has. */
  predicate LosesAt(slot: Option<Js>, p: Path, i: nat)
    requires i < |p|
  {
    && Find(slot, p[..i]).Some? && Find(slot, p[..i]).value.Arr?
    && Find(slot, p[..i]).value.length == 0 && !IsInt(p[i])
  }

  ghost predicate Loses(slot: Option<Js>, p: Path, q: Path) {
    exists i: nat :: i < |p| && i < |q| && LosesAt(slot, p, i) && p[..i] == q[..i]
  }

  /** What is at `q` when a pair with the key `p` has passed the arrays on its way. */
  ghost function Kept(slot: Option<Js>, p: Path, q: Path): Option<Js> {
    if Loses(slot, p, q) then None else Find(slot, q)
  }

  /** A string other than the empty one, or a function: nothing can be written below it. */
  predicate Closed(v: Option<Js>) {
    v.Some? && (v.value.Builtin? || (v.value.Text? && v.value.text != ""))
  }

  ghost predicate Blocked(slot: Option<Js>, p: Path) {
    exists i: nat :: i < |p| && Closed(Kept(slot, p, p[..i]))
  }

  predicate Diverge(p: Path, q: Path) { !IsPrefix(p, q) && !IsPrefix(q, p) }

  predicate Proper(q: Path, p: Path) { IsPrefix(q, p) && |q| < |p| }

  // ---------------------------------------------------------------- what it leaves

  /** An array of two. */
  predicate IsPair(v: Js, a: Js, b: Js) { v == Arr(2, map["0" := a, "1" := b]) }

  /** The value a key ends with: `val` alone, behind what is in the array, in place of an object, or paired. */
  predicate Ends(before: Option<Js>, val: string, after: Js) {
    match before
    case None => after == Text(val)
    case Some(Arr(n, fields)) => after == Arr(n + 1, fields[ToDecimal(n) := Text(val)])
    case Some(Obj(_)) => after == Text(val)
    case Some(v) => IsPair(after, v, Text(val))
  }

  /** The same with `[]` behind: an array from the start, in an object the number of its properties as the name. */
  predicate EndsInBrackets(before: Option<Js>, val: string, after: Js) {
    match before
    case Some(Arr(n, fields)) =>
      after == if val == "" then Arr(n, fields) else Arr(n + 1, fields[ToDecimal(n) := Text(val)])
    case Some(Obj(fields)) => after == Obj(fields[ToDecimal(|fields|) := Text(val)])
    case _ =>
      if Closed(before) then IsPair(after, before.value, Text(val))
      else after == if val == "" then Arr(0, map[]) else Arr(1, map["0" := Text(val)])
  }

  /** The key passes `v` with the part `k`: an array stays one only for digits. */
  predicate PassesAs(before: Option<Js>, k: string, after: Option<Js>) {
    after.Some? && (if before.Some? && before.value.Obj? then after.value.Obj? else after.value.Arr? <==> IsInt(k))
  }

  ghost predicate Written(slot: Option<Js>, p: Path, r: Js) {
    && (forall q :: Diverge(p, q) ==> Find(Some(r), q) == Kept(slot, p, q))
    && (forall i: nat :: i < |p| ==> PassesAs(Kept(slot, p, p[..i]), p[i], Find(Some(r), p[..i])))
    && Find(Some(r), p).Some?
  }

  ghost predicate Unwritten(slot: Option<Js>, p: Path, r: Js) {
    forall q :: !Proper(q, p) ==> Find(Some(r), q) == Kept(slot, p, q)
  }

  // ---------------------------------------------------------------- along the path

  lemma {:induction false} FindBelow(slot: Option<Js>, k: string, q: Path)
    requires Component(k)
    ensures Find(slot, [k] + q) == Find(if slot.Some? then Get(slot.value, k) else None, q)
  {
    assert ([k] + q)[1..] == q;
  }

  /** What the key finds below its first part. */
  ghost function Child(slot: Option<Js>, k: string): Option<Js> {
    Get(PromotedFor(OrNewArray(slot), k), k)
  }

  lemma {:induction false} LosesBelow(slot: Option<Js>, k: string, p: Path, q: Path)
    requires Component(k) && !LosesAt(slot, [k] + p, 0)
    ensures Loses(slot, [k] + p, [k] + q) <==> Loses(if slot.Some? then Get(slot.value, k) else None, p, q)
  {
    var kp, kq := [k] + p, [k] + q;
    var below := if slot.Some? then Get(slot.value, k) else None;
    if Loses(slot, kp, kq) {
      var i: nat :| i < |kp| && i < |kq| && LosesAt(slot, kp, i) && kp[..i] == kq[..i];
      var m: nat :| i == m + 1;
      assert kp[..i] == [k] + p[..m] && kq[..i] == [k] + q[..m];
      FindBelow(slot, k, p[..m]);
      assert LosesAt(below, p, m);
      assert p[..m] == kp[..i][1..] && q[..m] == kq[..i][1..];
    }
    if Loses(below, p, q) {
      var m: nat :| m < |p| && m < |q| && LosesAt(below, p, m) && p[..m] == q[..m];
      var i := m + 1;
      assert kp[..i] == [k] + p[..m] && kq[..i] == [k] + q[..m];
      FindBelow(slot, k, p[..m]);
      assert LosesAt(slot, kp, i);
    }
  }

  lemma {:induction false} KeptBelow(slot: Option<Js>, k: string, p: Path, q: Path)
    requires Component(k)
    ensures Kept(slot, [k] + p, [k] + q) == Kept(Child(slot, k), p, q)
  {
    var kp, kq := [k] + p, [k] + q;
    assert kp[..0] == [] == kq[..0];
    if LosesAt(slot, kp, 0) {
      assert Loses(slot, kp, kq);
      assert Child(slot, k) == None;
    } else {
      LosesBelow(slot, k, p, q);
      FindBelow(slot, k, q);
      assert Child(slot, k) == if slot.Some? then Get(slot.value, k) else None;
    }
  }

  lemma {:induction false} DifferFromTheStart(p: Path, q: Path, i: nat)
    requires p != [] && q != [] && q[0] != p[0] && 0 < i <= |p| && i <= |q|
    ensures p[..i] != q[..i]
  {
    assert p[..i][0] == p[0] && q[..i][0] == q[0];
  }

  lemma {:induction false} KeptAside(slot: Option<Js>, p: Path, q: Path)
    requires p != [] && q != [] && q[0] != p[0]
    ensures Kept(slot, p, q) == if LosesAt(slot, p, 0) then None else Find(slot, q)
  {
    assert p[..0] == [] == q[..0];
    forall i: nat | 0 < i <= |p| && i <= |q| ensures p[..i] != q[..i] { DifferFromTheStart(p, q, i); }
  }

  lemma {:induction false} KeptHere(slot: Option<Js>, p: Path)
    ensures Kept(slot, p, []) == slot
  {
  }

  /** `r` is the value in which the key has passed `slot` and left `child` below. */
  predicate Grown(slot: Option<Js>, k: string, child: Js, r: Js) {
    !Closed(slot) && r == Put(PromotedFor(OrNewArray(slot), k), k, child)
  }

  lemma {:induction false} GrownAside(slot: Option<Js>, p: Path, child: Js, r: Js, q: Path)
    requires p != [] && Component(p[0]) && Grown(slot, p[0], child, r) && q != [] && q[0] != p[0]
    ensures Find(Some(r), q) == Kept(slot, p, q)
  {
    KeptAside(slot, p, q);
    assert p[..0] == [];
  }

  lemma {:induction false} GrownHere(slot: Option<Js>, p: Path, child: Js, r: Js)
    requires p != [] && Component(p[0]) && Grown(slot, p[0], child, r)
    ensures PassesAs(slot, p[0], Some(r)) && (r.Arr? || r.Obj?)
    ensures Get(r, p[0]) == Some(child)
  {
  }

  lemma {:induction false} BlockedBelow(slot: Option<Js>, k: string, p: Path)
    requires Component(k)
    ensures Blocked(slot, [k] + p) <==> Closed(slot) || Blocked(Child(slot, k), p)
  {
    var kp := [k] + p;
    KeptHere(slot, kp);
    assert kp[..0] == [];
    if Blocked(slot, kp) && !Closed(slot) {
      var i: nat :| i < |kp| && Closed(Kept(slot, kp, kp[..i]));
      var m: nat :| i == m + 1;
      assert kp[..i] == [k] + p[..m];
      KeptBelow(slot, k, p, p[..m]);
    }
    if Blocked(Child(slot, k), p) {
      var m: nat :| m < |p| && Closed(Kept(Child(slot, k), p, p[..m]));
      var i := m + 1;
      assert kp[..i] == [k] + p[..m];
      KeptBelow(slot, k, p, p[..m]);
    }
  }

  lemma {:induction false} FindGrown(slot: Option<Js>, k: string, p: Path, child: Js, r: Js)
    requires Component(k) && Grown(slot, k, child, r)
    ensures Find(Some(r), [k] + p) == Find(Some(child), p)
  {
    assert ([k] + p)[0] == k;
    GrownHere(slot, [k], child, r);
    FindBelow(Some(r), k, p);
  }

  lemma {:induction false} AsideOrBelow(slot: Option<Js>, k: string, p: Path, child: Js, r: Js, q: Path)
    requires Component(k) && Grown(slot, k, child, r) && q != []
    requires q[0] == k ==> Find(Some(child), q[1..]) == Kept(Child(slot, k), p, q[1..])
    ensures Find(Some(r), q) == Kept(slot, [k] + p, q)
  {
    if q[0] != k {
      assert ([k] + p)[0] == k;
      GrownAside(slot, [k] + p, child, r, q);
    } else {
      var tail := q[1..];
      assert q == [k] + tail;
      KeptBelow(slot, k, p, tail);
      FindGrown(slot, k, tail, child, r);
    }
  }

  lemma {:induction false} PassedBelow(slot: Option<Js>, k: string, p: Path, child: Js, r: Js, i: nat)
    requires Component(k) && Grown(slot, k, child, r) && i < |p| + 1
    requires i > 0 ==> PassesAs(Kept(Child(slot, k), p, p[..i-1]), p[i-1], Find(Some(child), p[..i-1]))
    ensures PassesAs(Kept(slot, [k] + p, ([k] + p)[..i]), ([k] + p)[i], Find(Some(r), ([k] + p)[..i]))
  {
    var kp := [k] + p;
    if i == 0 {
      assert kp[..0] == [] && kp[0] == k;
      KeptHere(slot, kp);
      GrownHere(slot, kp, child, r);
    } else {
      var m: nat :| i == m + 1;
      assert kp[..i] == [k] + p[..m] && kp[i] == p[m];
      KeptBelow(slot, k, p, p[..m]);
      FindGrown(slot, k, p[..m], child, r);
    }
  }

  lemma {:induction false} GrownWritten(slot: Option<Js>, k: string, p: Path, child: Js, r: Js)
    requires Component(k) && Grown(slot, k, child, r) && Written(Child(slot, k), p, child)
    ensures Written(slot, [k] + p, r) && Find(Some(r), [k] + p) == Find(Some(child), p)
  {
    var kp := [k] + p;
    FindGrown(slot, k, p, child, r);
    forall q | Diverge(kp, q) ensures Find(Some(r), q) == Kept(slot, kp, q) {
      if q[0] == k {
        assert q == [k] + q[1..];
        R.PrefixUnder(k, p, q[1..]);
        R.PrefixUnder(k, q[1..], p);
      }
      AsideOrBelow(slot, k, p, child, r, q);
    }
    forall i: nat | i < |kp| ensures PassesAs(Kept(slot, kp, kp[..i]), kp[i], Find(Some(r), kp[..i])) {
      PassedBelow(slot, k, p, child, r, i);
    }
  }

  lemma {:induction false} GrownUnwritten(slot: Option<Js>, k: string, p: Path, child: Js, r: Js)
    requires Component(k) && Grown(slot, k, child, r) && Unwritten(Child(slot, k), p, child)
    ensures Unwritten(slot, [k] + p, r)
  {
    var kp := [k] + p;
    forall q | !Proper(q, kp) ensures Find(Some(r), q) == Kept(slot, kp, q) {
      assert q != [];
      if q[0] == k {
        assert q == [k] + q[1..];
        R.PrefixUnder(k, q[1..], p);
      }
      AsideOrBelow(slot, k, p, child, r, q);
    }
  }

  lemma {:induction false} ClosedUnwritten(slot: Option<Js>, p: Path)
    requires Closed(slot) && p != []
    ensures Unwritten(slot, p, slot.value)
  {
    forall i: nat | i < |p| ensures !LosesAt(slot, p, i) { }
    forall q | !Proper(q, p) ensures Find(slot, q) == Kept(slot, p, q) { }
  }

  lemma {:induction false} OnePart(k: string, rest: seq<string>, slot: Option<Js>, val: string)
    requires k != "" && ']' !in k
    ensures Parse([k + "]"] + rest, slot, val) ==
      Put(PromotedFor(OrNewArray(slot), k), k, Parse(rest, Child(slot, k), val))
  {
    var part := k + "]";
    assert part[|k|] == ']' && part[..|k|] == k && PartName(part) == k;
    assert ([part] + rest)[0] == part && ([part] + rest)[1..] == rest;
  }

  lemma {:induction false} OnePartMore(p: Path, more: seq<string>, slot: Option<Js>, val: string)
    requires p != [] && Components(p)
    ensures Parse(BracketParts(p) + more, slot, val) ==
      Put(PromotedFor(OrNewArray(slot), p[0]), p[0], Parse(BracketParts(p[1..]) + more, Child(slot, p[0]), val))
  {
    ComponentsTail(p);
    var rest := BracketParts(p[1..]) + more;
    assert BracketParts(p) + more == [p[0] + "]"] + rest;
    OnePart(p[0], rest, slot, val);
  }

  /** The parts of a key lead to its end, or are stopped by a string or function. */
  lemma {:induction false} AlongPath(p: Path, more: seq<string>, slot: Option<Js>, val: string)
    requires Components(p)
    ensures
      var r := Parse(BracketParts(p) + more, slot, val);
      if Blocked(slot, p) then Unwritten(slot, p, r)
      else Written(slot, p, r) && Find(Some(r), p) == Some(Parse(more, Kept(slot, p, p), val))
    decreases |p|
  {
    if p == [] {
      assert BracketParts(p) + more == more;
      KeptHere(slot, p);
    } else {
      var k, tail := p[0], p[1..];
      assert p == [k] + tail;
      ComponentsTail(p);
      OnePartMore(p, more, slot, val);
      BlockedBelow(slot, k, tail);
      var r := Parse(BracketParts(p) + more, slot, val);
      if Closed(slot) {
        ClosedUnwritten(slot, p);
      } else {
        AlongPath(tail, more, Child(slot, k), val);
        var child := Parse(BracketParts(tail) + more, Child(slot, k), val);
        KeptBelow(slot, k, tail, tail);
        if Blocked(Child(slot, k), tail) {
          GrownUnwritten(slot, k, tail, child, r);
        } else {
          GrownWritten(slot, k, tail, child, r);
        }
      }
    }
  }

  // ---------------------------------------------------------------- one pair

  lemma {:induction false} SmallDecimals()
    ensures ToDecimal(0) == "0" && ToDecimal(1) == "1"
  {
    CanonicalIsUnique(ToDecimal(0), "0");
    CanonicalIsUnique(ToDecimal(1), "1");
  }

  lemma {:induction false} ParseEnds(slot: Option<Js>, val: string)
    ensures Ends(slot, val, Parse([], slot, val))
  {
    SmallDecimals();
  }

  lemma {:induction false} ParseEndsInBrackets(slot: Option<Js>, more: seq<string>, val: string)
    ensures EndsInBrackets(slot, val, Parse(["]"] + more, slot, val))
  {
    SmallDecimals();
    assert (["]"] + more)[0] == "]";
  }

  /** A key with brackets acts below the property that its first part names. */
  lemma {:induction false} ActsBelow(base: Js, p: Path, more: Path, val: string)
    requires base.Obj? && KeyPath(p) && Bracketless(more) && |p + more| > 1
    ensures MergePair(base, PrintPair(p + more, val)) ==
      Put(base, p[0], Parse(BracketParts(p[1..]) + BracketParts(more), Get(base, p[0]), val))
  {
    var key := p + more;
    PrintableBoth(p, more);
    CutsPrintedPair(key, val);
    MergeBracketedKey(base, key, val);
    PartsOfBoth(p[1..], more);
  }

  lemma {:induction false} PrintableBoth(p: Path, more: Path)
    requires KeyPath(p) && Bracketless(more)
    ensures Printable(p + more) && (p + more)[0] == p[0] && (p + more)[1..] == p[1..] + more
  {
    ComponentsTail(p);
    forall i | 0 <= i < |p + more| ensures '[' !in (p + more)[i] && ']' !in (p + more)[i] {
      if i < |p| { assert Component(p[i]); }
    }
  }

  lemma {:induction false} PartsOfBoth(p: Path, more: Path)
    ensures BracketParts(p + more) == BracketParts(p) + BracketParts(more)
  {
    if p == [] {
      assert p + more == more;
    } else {
      assert (p + more)[1..] == p[1..] + more;
      PartsOfBoth(p[1..], more);
    }
  }

  /** A pair whose key has brackets, followed by parts that decide at its end. */
  lemma {:induction false} KeyActs(base: Js, p: Path, more: Path, val: string)
    requires base.Obj? && KeyPath(p) && Bracketless(more) && |p + more| > 1
    ensures
      var r := MergePair(base, PrintPair(p + more, val));
      if Blocked(Some(base), p) then r.Obj? && Unwritten(Some(base), p, r)
      else
        && r.Obj? && Written(Some(base), p, r)
        && Find(Some(r), p) == Some(Parse(BracketParts(more), Kept(Some(base), p, p), val))
  {
    var k, tail := p[0], p[1..];
    assert p == [k] + tail;
    ComponentsTail(p);
    ActsBelow(base, p, more, val);
    BlockedBelow(Some(base), k, tail);
    KeptBelow(Some(base), k, tail, tail);
    AlongPath(tail, BracketParts(more), Get(base, k), val);
    var child := Parse(BracketParts(tail) + BracketParts(more), Get(base, k), val);
    if Blocked(Get(base, k), tail) {
      GrownUnwritten(Some(base), k, tail, child, Put(base, k, child));
    } else {
      GrownWritten(Some(base), k, tail, child, Put(base, k, child));
    }
  }

  /**
   A pair whose key has brackets, merged into any object. If a string or a function lies on its way,
   nothing is written. Otherwise the key ends with the value, as Ends says; the arrays it passes
   stay arrays only for digits; and whatever lies aside stays, unless it was in an array of length 0.
   */
  lemma {:induction false} BracketPair(base: Js, p: Path, val: string)
    requires base.Obj? && KeyPath(p) && |p| > 1
    ensures
      var r := MergePair(base, PrintPair(p, val));
      if Blocked(Some(base), p) then Unwritten(Some(base), p, r)
      else Written(Some(base), p, r) && Ends(Kept(Some(base), p, p), val, Find(Some(r), p).value)
  {
    assert p + [] == p;
    KeyActs(base, p, [], val);
    ParseEnds(Kept(Some(base), p, p), val);
  }

  /** The same for a key with `[]` behind; what follows the empty brackets is ignored. */
  lemma {:induction false} EmptyBracketsPair(base: Js, p: Path, rest: Path, val: string)
    requires base.Obj? && KeyPath(p) && Bracketless(rest)
    ensures
      var r := MergePair(base, PrintPair(p + [""] + rest, val));
      if Blocked(Some(base), p) then Unwritten(Some(base), p, r)
      else Written(Some(base), p, r) && EndsInBrackets(Kept(Some(base), p, p), val, Find(Some(r), p).value)
  {
    var more := [""] + rest;
    PartsOfEmpty(rest);
    assert p + [""] + rest == p + more;
    KeyActs(base, p, more, val);
    ParseEndsInBrackets(Kept(Some(base), p, p), BracketParts(rest), val);
  }

  lemma {:induction false} PartsOfEmpty(rest: Path)
    requires Bracketless(rest)
    ensures Bracketless([""] + rest) && BracketParts([""] + rest) == ["]"] + BracketParts(rest)
  {
    var more := [""] + rest;
    assert more[1..] == rest && more[0] + "]" == "]";
  }

  /** Digits that are no array index leave an array at length 0, and a name behind it loses what they hold. */
  lemma {:induction false} ValueAtNoIndexIsLost(k: string, digits: string, v: string, name: string, w: string)
    requires KeyPath([k]) && IsInt(digits) && !IsIndex(digits) && Component(name) && !IsInt(name)
    ensures ParsePairs([PrintPair([k, digits], v)]) == Obj(map[k := Arr(0, map[digits := Text(v)])])
    ensures ParsePairs([PrintPair([k, digits], v), PrintPair([k, name], w)]) == Obj(map[k := Obj(map[name := Text(w)])])
  {
    DigitsStored(k, digits, v);
    TwoPairs(PrintPair([k, digits], v), PrintPair([k, name], w));
    NameReplaces(ParsePairs([PrintPair([k, digits], v)]), k, Arr(0, map[digits := Text(v)]), name, w);
  }

  lemma {:induction false} DigitsStored(k: string, digits: string, v: string)
    requires KeyPath([k]) && IsInt(digits) && !IsIndex(digits)
    ensures MergePair(Obj(map[]), PrintPair([k, digits], v)) == Obj(map[k := Arr(0, map[digits := Text(v)])])
  {
    assert Component([k][0]) && Component(k);
    NoBracketInDigits(digits);
    TwoParts(Obj(map[]), k, digits, v, Arr(0, map[digits := Text(v)]));
  }

  lemma {:induction false} NameReplaces(base: Js, k: string, arr: Js, name: string, w: string)
    requires KeyPath([k]) && base == Obj(map[k := arr])
    requires arr.Arr? && arr.length == 0 && Component(name) && !IsInt(name)
    ensures MergePair(base, PrintPair([k, name], w)) == Obj(map[k := Obj(map[name := Text(w)])])
  {
    StartsAnew(arr, name, w);
    OnlyProperty(base, k, arr, Obj(map[name := Text(w)]));
    TwoParts(base, k, name, w, Obj(map[name := Text(w)]));
  }

  lemma {:induction false} OnlyProperty(base: Js, k: string, v: Js, child: Js)
    requires base == Obj(map[k := v])
    ensures Get(base, k) == Some(v) && base.fields[k := child] == map[k := child]
  {
  }

  lemma {:induction false} StartsAnew(arr: Js, name: string, w: string)
    requires arr.Arr? && arr.length == 0 && Component(name) && !IsInt(name)
    ensures PutLeaf(Some(arr), name, w) == Obj(map[name := Text(w)])
    ensures name != "" && '[' !in name && ']' !in name
  {
  }

  /** The value below `slot` is written, the last part of a key being `part`. */
  function PutLeaf(slot: Option<Js>, part: string, val: string): Js {
    var target := PromotedFor(OrNewArray(slot), part);
    Put(target, part, Leaf(Get(target, part), val))
  }

  lemma {:induction false} TwoPairs(first: string, second: string)
    ensures ParsePairs([first]) == MergePair(Obj(map[]), first)
    ensures ParsePairs([first, second]) == MergePair(MergePair(Obj(map[]), first), second)
  {
    assert [first][..0] == [] && [first, second][..1] == [first];
  }

  lemma {:induction false} NoBracketInDigits(digits: string)
    requires IsInt(digits)
    ensures '[' !in digits && ']' !in digits && digits !in INHERITED
  {
    assert IsDigit(digits[0]);
    forall c | c in digits ensures IsDigit(c) { }
  }

  lemma {:induction false} TwoParts(base: Js, k: string, part: string, val: string, child: Js)
    requires base.Obj? && KeyPath([k]) && part != "" && '[' !in part && ']' !in part
    requires child == PutLeaf(Get(base, k), part, val)
    ensures MergePair(base, PrintPair([k, part], val)) == Obj(base.fields[k := child])
  {
    var p := [k, part];
    assert Component([k][0]) && Component(k);
    CutsPrintedPair(p, val);
    MergeBracketedKey(base, p, val);
    assert p[1..] == [part] && BracketParts([part]) == [part + "]"] + [];
    OnePart(part, [], Get(base, k), val);
  }

  /**
   A pair with a plain key: a new string, one more array element, or what is there, an object as
   well, paired with the value; an inherited name finds the function. Nothing else changes.
   */
  lemma {:induction false} PlainPair(base: Js, k: string, val: string)
    requires base.Obj? && k != "" && '=' !in k && '[' !in k && ']' !in k
    ensures
      var r := MergePair(base, k + "=" + val);
      && r.Obj? && r.fields.Keys == base.fields.Keys + {k}
      && (forall k' :: k' in base.fields && k' != k ==> r.fields[k'] == base.fields[k'])
      && if k in base.fields && base.fields[k].Arr? then Ends(Some(base.fields[k]), val, r.fields[k])
         else if k in base.fields then IsPair(r.fields[k], base.fields[k], Text(val))
         else if k in INHERITED then IsPair(r.fields[k], Builtin(k), Text(val))
         else r.fields[k] == Text(val)
  {
    SmallDecimals();
    var p := [k];
    CutsPrintedPair(p, val);
    assert PrintKey(p) == k;
    assert PrintPair(p, val) == k + "=" + val;
  }

  /** A pair without a key, of nothing at all, changes nothing. */
  lemma {:induction false} EmptyPair(base: Js)
    requires base.Obj?
    ensures MergePair(base, "") == base
  {
  }

  /**
   How any pair is cut: without `=`, or with one in front, all of it is the key and the value is
   empty; else at the first `=` outside brackets, or at the first of all if every one is inside.
   */
  lemma {:induction false} CutsAnyPair(pair: string)
    ensures
      var (key, val) := KeyValue(pair);
      if '=' !in pair || pair[0] == '=' then key == pair && val == ""
      else
        && key != "" && pair == key + "=" + val
        && if exists i :: 0 <= i < |pair| && pair[i] == '=' && !InBrackets(pair, i) then IsFirstOutside(pair, 0, |key|)
           else '=' !in key
  {
    FirstOutsideIsFirst(pair, 0, false);
    if '=' in pair && pair[0] != '=' {
      var brace, eql := FirstOutside(pair, 0, false), IndexOf(pair, '=');
      var cut := if brace == |pair| then eql else brace;
      CutAt(pair, cut);
      if brace == |pair| {
        forall i | 0 <= i < |pair| && pair[i] == '=' ensures InBrackets(pair, i) { }
      } else {
        assert pair[brace] == '=' && !InBrackets(pair, brace);
      }
    }
  }

  lemma {:induction false} CutAt(pair: string, cut: nat)
    requires 0 < cut < |pair| && pair[cut] == '='
    requires cut == var brace := FirstOutside(pair, 0, false); if brace == |pair| then IndexOf(pair, '=') else brace
    ensures KeyValue(pair) == (pair[..cut], pair[cut+1..]) && pair == pair[..cut] + "=" + pair[cut+1..]
  {
    var rest := pair[cut..];
    assert rest[0] == '=' && rest[1..] == pair[cut+1..];
    assert IndexOf(rest, '=') == 0;
  }
}

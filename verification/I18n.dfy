/** i18n.js: looking up dotted translation keys, with compiled and missing entries cached in the same table. */
module I18n {
  import opened Wrappers
  import opened JavaScript

  /**
   A function in a table: a compiled template, the marker of a missing translation, or one
   inherited from Object.prototype.
   */
  datatype Fn = Template(text: string) | Missing(key: string) | Builtin(name: string)

  /** An entry of a translation table. */
  datatype Entry = Text(text: string) | Function(fn: Fn) | Table(children: Translations)

  type Translations = map<string, Entry>

  /** What a lookup gives back: undefined, a function, or an exception of the template compiler. */
  datatype Found = Undefined | Gives(fn: Fn) | Throws

  /** `hash[key]`. Strings and functions are read as having no properties. */
  function Child(hash: Entry, key: string): Option<Entry> {
    if !hash.Table? then None
    else if key in hash.children then Some(hash.children[key])
    else if key in INHERITED then Some(Function(Builtin(key)))
    else None
  }

  /** lookupKey. */
  function LookupKey(key: string, hash: Entry): (r: Option<Entry>)
    decreases |key|
  {
    if Child(hash, key).Some? then Child(hash, key)
    else
      var idx := IndexOf(key, '.');
      if idx == |key| then None
      else
        match Child(hash, key[..idx])
        case None => None
        case Some(below) => LookupKey(key[idx+1..], below)
  }

  function Lookup(key: string, t: Translations): Option<Entry> {
    LookupKey(key, Table(t))
  }

  /** findTemplate: the table afterwards and the result. */
  function Find(t: Translations, key: string, setOnMissing: bool): (Translations, Found) {
    match Lookup(key, t)
    case None => if setOnMissing then (t[key := Function(Missing(key))], Gives(Missing(key))) else (t, Undefined)
    case Some(Text(s)) => (t[key := Function(Template(s))], Gives(Template(s)))
    case Some(Function(f)) => (t, Gives(f))
    case Some(Table(_)) => (t, Throws)
  }

  function PluralKey(key: string, suffix: string): string { key + "." + suffix }

  /** template; `suffix` is the plural form of the count, if there is a count. */
  function FindPlural(t: Translations, key: string, suffix: Option<string>): (Translations, Found) {
    if suffix.None? then Find(t, key, true)
    else
      var (t', r) := Find(t, PluralKey(key, suffix.value), false);
      if r.Undefined? then Find(t', key, true) else (t', r)
  }

  predicate IsMarker(e: Entry) { e.Function? && e.fn.Missing? }

  /** keyExists. */
  predicate KeyExists(t: Translations, key: string) {
    Lookup(key, t).Some? && !IsMarker(Lookup(key, t).value)
  }

  class Translator {
    var translations: Translations

    constructor (translations: Translations)
      ensures this.translations == translations
    {
      this.translations := translations;
    }

    method FindTemplate(key: string, setOnMissing: bool) returns (r: Found)
      modifies this
      ensures (translations, r) == Find(old(translations), key, setOnMissing)
    {
      var result := Lookup(key, translations);
      if setOnMissing && result.None? {
        result := Some(Function(Missing(key)));
        translations := translations[key := result.value];
      }
      if result.Some? && !result.value.Function? {
        // the compiler accepts nothing but strings
        if result.value.Table? { return Throws; }
        result := Some(Function(Template(result.value.text)));
        translations := translations[key := result.value];
      }
      r := if result.Some? then Gives(result.value.fn) else Undefined;
    }

    /** The method `template`; `t` applies its result to the context. */
    method TemplateOf(key: string, suffix: Option<string>) returns (r: Found)
      modifies this
      ensures (translations, r) == FindPlural(old(translations), key, suffix)
      ensures !r.Undefined?
    {
      r := Undefined;
      if suffix.Some? { r := FindTemplate(PluralKey(key, suffix.value), false); }
      if r.Undefined? { r := FindTemplate(key, true); }
    }
  }

  // ---------------------------------------------------------------- what a lookup finds

  /** The entry that the names on the path lead to, child by child. */
  function Walk(e: Entry, path: seq<string>): Option<Entry>
    decreases |path|
  {
    if path == [] then Some(e)
    else if e.Table? && path[0] in e.children then Walk(e.children[path[0]], path[1..])
    else None
  }

  /** The path as a key. */
  function Dotted(path: seq<string>): string
    requires path != []
  {
    if |path| == 1 then path[0] else path[0] + "." + Dotted(path[1..])
  }

  /** A name that a path can hold: without a dot, and not inherited from Object.prototype. */
  predicate IsName(s: string) { '.' !in s && s !in INHERITED }

  predicate AreNames(path: seq<string>) { forall i :: 0 <= i < |path| ==> IsName(path[i]) }

  /** No name in the table, at any depth, holds a dot. */
  predicate Undotted(e: Entry) {
    e.Table? ==> forall k :: k in e.children ==> '.' !in k && Undotted(e.children[k])
  }

  lemma {:induction false} DotInDotted(path: seq<string>)
    requires |path| > 1 && AreNames(path)
    ensures '.' in Dotted(path) && IndexOf(Dotted(path), '.') == |path[0]|
    ensures Dotted(path)[..|path[0]|] == path[0] && Dotted(path)[|path[0]|+1..] == Dotted(path[1..])
  {
    var key, n := Dotted(path), |path[0]|;
    assert key == path[0] + "." + Dotted(path[1..]);
    assert key[n] == '.';
    var i := IndexOf(key, '.');
    assert forall j :: 0 <= j < n ==> key[j] == path[0][j];
    assert IsName(path[0]);
  }

  lemma {:induction false} InheritedUndotted(s: string)
    requires s in INHERITED
    ensures '.' !in s
  {
  }

  /**
   A key that is a path of names finds what the path leads to, and nothing exactly if some child on
   the way is missing.
   */
  lemma {:induction false} LookupWalks(path: seq<string>, e: Entry)
    requires path != [] && AreNames(path) && Undotted(e)
    ensures LookupKey(Dotted(path), e) == Walk(e, path)
    decreases |path|
  {
    var key := Dotted(path);
    assert IsName(path[0]);
    if |path| == 1 {
      assert IndexOf(key, '.') == |key|;
      WalkOne(path, e);
    } else {
      DotInDotted(path);
      if key in INHERITED { InheritedUndotted(key); }
      var rest := path[1..];
      assert AreNames(rest) by { forall i | 0 <= i < |rest| ensures IsName(rest[i]) { assert rest[i] == path[i+1]; } }
      if e.Table? && path[0] in e.children { LookupWalks(rest, e.children[path[0]]); }
    }
  }

  lemma {:induction false} WalkOne(path: seq<string>, e: Entry)
    requires |path| == 1
    ensures Walk(e, path) == if e.Table? && path[0] in e.children then Some(e.children[path[0]]) else None
  {
    assert path[1..] == [];
  }

  /** An entry under the whole key, dots and all, comes first. */
  lemma {:induction false} WholeKeyFirst(key: string, t: Translations)
    requires key in t
    ensures Lookup(key, t) == Some(t[key])
  {
  }

  // ---------------------------------------------------------------- lookups without a cache

  /** What a key means in a table that nothing is ever cached in. */
  function Resolved(t: Translations, key: string): Found {
    match Lookup(key, t)
    case None => Gives(Missing(key))
    case Some(Text(s)) => Gives(Template(s))
    case Some(Function(f)) => Gives(f)
    case Some(Table(_)) => Throws
  }

  /** What a key with a plural form means: the plural entry if there is one. */
  function ResolvedPlural(t: Translations, key: string, suffix: Option<string>): Found {
    if suffix.Some? && Lookup(PluralKey(key, suffix.value), t).Some?
    then Resolved(t, PluralKey(key, suffix.value))
    else Resolved(t, key)
  }

  /** `now` is `original` with results of lookups cached in it. */
  ghost predicate Caches(original: Translations, now: Translations) {
    && original.Keys <= now.Keys
    && forall k :: k in now ==>
      || (k in original && now[k] == original[k])
      || (now[k].Function? && Resolved(original, k) == Gives(now[k].fn))
  }

  /** Below a cached entry there is nothing, and there was nothing. */
  lemma {:induction false} SameBelow(original: Translations, now: Translations, first: string, rest: string)
    requires Caches(original, now)
    ensures match (Child(Table(now), first), Child(Table(original), first))
            case (Some(e), Some(o)) => LookupKey(rest, e) == LookupKey(rest, o)
            case (Some(e), None) => LookupKey(rest, e) == None
            case (None, o) => o == None
  {
    if first in now && !(first in original && now[first] == original[first]) {
      NothingBelow(now[first], rest);
      if first in original { NothingBelow(original[first], rest); }
      if Child(Table(original), first).Some? { NothingBelow(Child(Table(original), first).value, rest); }
    }
  }

  lemma {:induction false} NothingBelow(e: Entry, key: string)
    requires !e.Table?
    ensures LookupKey(key, e) == None
  {
  }

  /** A cached table holds the key itself, or is read as the original. */
  lemma {:induction false} CachedLookup(original: Translations, now: Translations, key: string)
    requires Caches(original, now)
    ensures Lookup(key, now) == if key in now then Some(now[key]) else Lookup(key, original)
  {
    var idx := IndexOf(key, '.');
    if Child(Table(now), key).None? && idx < |key| {
      SameBelow(original, now, key[..idx], key[idx+1..]);
    }
  }

  /** A cached table answers every lookup and every question for existence as the original does. */
  lemma {:induction false} CacheIsTransparent(original: Translations, now: Translations, key: string)
    requires Caches(original, now)
    ensures Resolved(now, key) == Resolved(original, key)
    ensures KeyExists(now, key) == KeyExists(original, key)
  {
    CachedLookup(original, now, key);
  }

  /** Nothing that a lookup does is lost or made up: the table still only caches. */
  lemma {:induction false} FindKeepsCaching(original: Translations, now: Translations, key: string, setOnMissing: bool)
    requires Caches(original, now)
    ensures Caches(original, Find(now, key, setOnMissing).0)
  {
    CacheIsTransparent(original, now, key);
  }

  // ---------------------------------------------------------------- any sequence of calls

  datatype Call = Translate(key: string, suffix: Option<string>) | Exists(key: string)

  datatype Answer = Gave(found: Found) | Said(exists_: bool)

  function Answered(t: Translations, c: Call): (Translations, Answer) {
    match c
    case Translate(key, suffix) => var (t', r) := FindPlural(t, key, suffix); (t', Gave(r))
    case Exists(key) => (t, Said(KeyExists(t, key)))
  }

  function After(t: Translations, calls: seq<Call>): Translations {
    if calls == [] then t else Answered(After(t, calls[..|calls|-1]), calls[|calls|-1]).0
  }

  /** One of the two lookups of a call with a count changes nothing. */
  lemma {:induction false} PluralIsOneFind(t: Translations, key: string, suffix: string)
    ensures FindPlural(t, key, Some(suffix)) ==
      if Find(t, PluralKey(key, suffix), false).1.Undefined? then Find(t, key, true)
      else Find(t, PluralKey(key, suffix), false)
  {
  }

  lemma {:induction false} CallKeepsCaching(original: Translations, now: Translations, c: Call)
    requires Caches(original, now)
    ensures Caches(original, Answered(now, c).0)
  {
    match c
    case Exists(_) =>
    case Translate(key, None) => FindKeepsCaching(original, now, key, true);
    case Translate(key, Some(suffix)) =>
      PluralIsOneFind(now, key, suffix);
      FindKeepsCaching(original, now, key, true);
      FindKeepsCaching(original, now, PluralKey(key, suffix), false);
  }

  /** No call, plural or not, does more than cache. */
  lemma {:induction false} CachesAfter(original: Translations, calls: seq<Call>)
    ensures Caches(original, After(original, calls))
    decreases |calls|
  {
    if calls != [] {
      var n := |calls| - 1;
      CachesAfter(original, calls[..n]);
      CallKeepsCaching(original, After(original, calls[..n]), calls[n]);
    }
  }

  /**
   Memoisation does not show: after any calls a lookup without a count and a question for
   existence are answered from the original table.
   */
  lemma {:induction false} MemoisationIsTransparent(original: Translations, calls: seq<Call>, key: string)
    ensures Answered(After(original, calls), Translate(key, None)).1 == Gave(Resolved(original, key))
    ensures Answered(After(original, calls), Exists(key)).1 == Said(KeyExists(original, key))
  {
    CachesAfter(original, calls);
    CacheIsTransparent(original, After(original, calls), key);
  }

  /**
   What an entry gives when it is asked for: a string its compiled template, a table an exception,
   a function itself.
   */
  predicate GivenFor(e: Option<Entry>, key: string, found: Found) {
    match e
    case None => found == Gives(Missing(key))
    case Some(Text(s)) => found == Gives(Template(s))
    case Some(Function(f)) => found == Gives(f)
    case Some(Table(_)) => found == Throws
  }

  /**
   After any calls on a table without dotted names, a path of names is answered with what the
   children of the original table along the path lead to, and exists says whether that is there
   and no marker.
   */
  lemma {:induction false} PathsAreAnswered(original: Translations, calls: seq<Call>, path: seq<string>)
    requires path != [] && AreNames(path) && Undotted(Table(original))
    ensures
      var now, e := After(original, calls), Walk(Table(original), path);
      && (exists found ::
        Answered(now, Translate(Dotted(path), None)).1 == Gave(found) && GivenFor(e, Dotted(path), found))
      && (Answered(now, Exists(Dotted(path))).1 == Said(true) <==>
        e.Some? && !(e.value.Function? && e.value.fn.Missing?))
  {
    LookupWalks(path, Table(original));
    MemoisationIsTransparent(original, calls, Dotted(path));
    assert Answered(After(original, calls), Translate(Dotted(path), None)).1 == Gave(Resolved(original, Dotted(path)));
  }

  /** And an entry under a whole key, whatever dots it has, answers that key. */
  lemma {:induction false} WholeKeysAreAnswered(original: Translations, calls: seq<Call>, key: string)
    requires key in original
    ensures
      var now := After(original, calls);
      && (exists found ::
        Answered(now, Translate(key, None)).1 == Gave(found) && GivenFor(Some(original[key]), key, found))
      && (Answered(now, Exists(key)).1 == Said(true) <==> !(original[key].Function? && original[key].fn.Missing?))
  {
    WholeKeyFirst(key, original);
    MemoisationIsTransparent(original, calls, key);
    assert Answered(After(original, calls), Translate(key, None)).1 == Gave(Resolved(original, key));
  }

  // ---------------------------------------------------------------- plural forms

  /** A table as loaded: no entry says that it is missing. */
  predicate Unmarked(e: Entry) {
    match e
    case Text(_) => true
    case Function(f) => !f.Missing?
    case Table(children) => forall k :: k in children ==> Unmarked(children[k])
  }

  lemma {:induction false} UnmarkedChild(hash: Entry, key: string)
    requires Unmarked(hash)
    ensures Child(hash, key).Some? ==> Unmarked(Child(hash, key).value)
  {
  }

  lemma {:induction false} UnmarkedLookup(key: string, hash: Entry)
    requires Unmarked(hash)
    ensures LookupKey(key, hash).Some? ==> Unmarked(LookupKey(key, hash).value)
    decreases |key|
  {
    UnmarkedChild(hash, key);
    var idx := IndexOf(key, '.');
    if Child(hash, key).None? && idx < |key| {
      UnmarkedChild(hash, key[..idx]);
      if Child(hash, key[..idx]).Some? { UnmarkedLookup(key[idx+1..], Child(hash, key[..idx]).value); }
    }
  }

  lemma {:induction false} PluralAnswer(original: Translations, now: Translations, key: string, suffix: string)
    requires Caches(original, now) && Unmarked(Table(original))
    ensures FindPlural(now, key, Some(suffix)).1 ==
      if KeyExists(original, PluralKey(key, suffix)) then Resolved(original, PluralKey(key, suffix))
      else if PluralKey(key, suffix) in now then Gives(Missing(PluralKey(key, suffix)))
      else Resolved(original, key)
  {
    var pluralKey := PluralKey(key, suffix);
    UnmarkedLookup(pluralKey, Table(original));
    CachedLookup(original, now, pluralKey);
    CacheIsTransparent(original, now, key);
  }

  /** A plural lookup is answered from the original table unless its plural key is recorded as missing. */
  lemma {:induction false} PluralTransparentExactly(original: Translations, calls: seq<Call>, key: string,
                                                    suffix: string)
    requires Unmarked(Table(original))
    ensures
      var now := After(original, calls);
      var pluralKey := PluralKey(key, suffix);
      Answered(now, Translate(key, Some(suffix))).1 == Gave(ResolvedPlural(original, key, Some(suffix)))
      <==> !(pluralKey in now && IsMarker(now[pluralKey]))
  {
    var now, pluralKey := After(original, calls), PluralKey(key, suffix);
    CachesAfter(original, calls);
    PluralAnswer(original, now, key, suffix);
    CacheIsTransparent(original, now, pluralKey);
    UnmarkedLookup(pluralKey, Table(original));
    UnmarkedLookup(key, Table(original));
    assert |pluralKey| > |key|;
  }

  lemma {:induction false} DottedMore(path: seq<string>, last: string)
    requires path != []
    ensures Dotted(path + [last]) == Dotted(path) + "." + last
    decreases |path|
  {
    var more := path + [last];
    if |path| == 1 {
      assert more[1..] == [last];
    } else {
      assert more[1..] == path[1..] + [last];
      DottedMore(path[1..], last);
    }
  }

  /**
   With a count whose plural form is `suffix`, a path is answered by the child `suffix` of what it
   leads to, and by the path itself where there is none, unless the plural key was recorded as
   missing before.
   */
  lemma {:induction false} CountsAreAnswered(original: Translations, calls: seq<Call>, path: seq<string>,
                                             suffix: string)
    requires path != [] && AreNames(path) && IsName(suffix) && Undotted(Table(original)) && Unmarked(Table(original))
    requires Dotted(path + [suffix]) in After(original, calls) ==>
      !IsMarker(After(original, calls)[Dotted(path + [suffix])])
    ensures
      var plural := Walk(Table(original), path + [suffix]);
      var e, key :=
        if plural.Some? then plural else Walk(Table(original), path),
        if plural.Some? then Dotted(path + [suffix]) else Dotted(path);
      exists found ::
        && Answered(After(original, calls), Translate(Dotted(path), Some(suffix))).1 == Gave(found)
        && GivenFor(e, key, found)
  {
    DottedMore(path, suffix);
    LookupWalks(path, Table(original));
    LookupWalks(path + [suffix], Table(original));
    PluralTransparentExactly(original, calls, Dotted(path), suffix);
    assert Answered(After(original, calls), Translate(Dotted(path), Some(suffix))).1
      == Gave(ResolvedPlural(original, Dotted(path), Some(suffix)));
  }

  lemma {:induction false} CallAddsOnly(t: Translations, c: Call)
    ensures t.Keys <= Answered(t, c).0.Keys
  {
    if c.Translate? && c.suffix.Some? { PluralIsOneFind(t, c.key, c.suffix.value); }
  }

  lemma {:induction false} AskingRecords(original: Translations, now: Translations, key: string)
    requires Caches(original, now) && Lookup(key, original) == None
    ensures key in Answered(now, Translate(key, None)).0
  {
    CachedLookup(original, now, key);
  }

  lemma {:induction false} AfterLast(t: Translations, calls: seq<Call>)
    requires calls != []
    ensures After(t, calls) == Answered(After(t, calls[..|calls|-1]), calls[|calls|-1]).0
  {
  }

  /** A key that means nothing and is asked for on its own is recorded from then on. */
  lemma {:induction false} AskedIsRecorded(original: Translations, calls: seq<Call>, key: string)
    requires Lookup(key, original) == None && Translate(key, None) in calls
    ensures key in After(original, calls)
    decreases |calls|
  {
    var init, last := calls[..|calls|-1], calls[|calls|-1];
    AfterLast(original, calls);
    if last == Translate(key, None) {
      CachesAfter(original, init);
      AskingRecords(original, After(original, init), key);
    } else {
      AskedIsRecorded(original, init, key);
      CallAddsOnly(After(original, init), last);
    }
  }

  /**
   Asking for a plural key that does not exist hides, for all later lookups with that count,
   the entry that they would have fallen back on.
   */
  lemma {:induction false} PluralKeyHidesFallback(original: Translations, calls: seq<Call>, key: string, suffix: string)
    requires Unmarked(Table(original)) && Lookup(PluralKey(key, suffix), original) == None
    requires Translate(PluralKey(key, suffix), None) in calls
    ensures ResolvedPlural(original, key, Some(suffix)) == Resolved(original, key)
    ensures Answered(After(original, calls), Translate(key, Some(suffix))).1
      == Gave(Gives(Missing(PluralKey(key, suffix))))
  {
    AskedIsRecorded(original, calls, PluralKey(key, suffix));
    CachesAfter(original, calls);
    PluralAnswer(original, After(original, calls), key, suffix);
  }
}

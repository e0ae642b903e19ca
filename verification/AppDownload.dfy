/**
 AppDownloadTask from the check for an existing bundle to the end of the move loop. Any file
 operation may fail, and the process may stop at any of them.
 */
module AppDownload {
  import opened Wrappers

  type Path = seq<string>

  function Child(dir: Path, name: string): Path { dir + [name] }

  /** A file, or a directory with all that is in it. */
  datatype Node = File(bytes: string) | Directory(children: map<string, Node>)

  /** The app library, and what is left in the directory into which the bundle was unpacked. */
  datatype Disk = Disk(files: map<Path, Node>, temp: map<string, Node>)

  /** How a file operation ends; a directory that is not wholly deleted leaves something or nothing. */
  datatype Luck = Works | Fails(left: Option<Node>) | Stops(left: Option<Node>)

  /** The luck of one turn of the loop. */
  datatype Turn = Turn(deletion: Luck, move: Luck)

  /** `listing` is the order in which listFiles gives the unpacked entries; None is null. */
  datatype Download = Download(
    bundle: Path, dir: Path, overwrite: bool,
    tarball: Node, unpacked: map<string, Node>, listing: Option<seq<string>>)

  /** What the file system does during one download. */
  datatype Fate = Fate(placing: Luck, turns: seq<Turn>)

  datatype Ending = Moved | AlreadyExists | NoFiles | Failed | Stopped

  datatype Result = Result(disk: Disk, ending: Ending)

  /** Every unpacked entry is listed once, in some order, and no operation is left without luck. */
  ghost predicate Fits(d: Download, fate: Fate) {
    d.listing.Some? ==> Listed(d, d.listing.value) && |fate.turns| == |d.listing.value|
  }

  ghost predicate Listed(d: Download, names: seq<string>) {
    && d.listing == Some(names)
    && (forall i, j :: 0 <= i < j < |names| ==> names[i] != names[j])
    && (forall name :: name in names <==> name in d.unpacked)
  }

  /** cleanup removes what was unpacked. */
  function CleanedUp(files: map<Path, Node>, ending: Ending): Result {
    Result(Disk(files, map[]), ending)
  }

  /** The library after a deletion that did not succeed. */
  function Damaged(files: map<Path, Node>, path: Path, left: Option<Node>): map<Path, Node>
    requires path in files
  {
    if files[path].File? then files
    else if left.None? then files - {path}
    else files[path := left.value]
  }

  /** One turn of the loop. */
  function MoveEntry(disk: Disk, dir: Path, overwrite: bool, name: string, entry: Node, turn: Turn): Result {
    var dest := Child(dir, name);
    if dest in disk.files && !overwrite then CleanedUp(disk.files, AlreadyExists)
    else if dest in disk.files && turn.deletion.Fails? then
      CleanedUp(Damaged(disk.files, dest, turn.deletion.left), Failed)
    else if dest in disk.files && turn.deletion.Stops? then
      Result(disk.(files := Damaged(disk.files, dest, turn.deletion.left)), Stopped)
    else
      var files := disk.files - {dest};
      match turn.move
      case Works => Result(Disk(files[dest := entry], disk.temp - {name}), Moved)
      case Fails(_) => CleanedUp(files, Failed)
      case Stops(_) => Result(disk.(files := files), Stopped)
  }

  /** The first `k` turns of the loop. */
  function MoveEntries(disk: Disk, d: Download, turns: seq<Turn>, k: nat): Result
    requires d.listing.Some? && k <= |d.listing.value| == |turns|
    requires forall i :: 0 <= i < k ==> d.listing.value[i] in d.unpacked
  {
    if k == 0 then Result(disk, Moved)
    else
      var before := MoveEntries(disk, d, turns, k - 1);
      var name := d.listing.value[k-1];
      if before.ending != Moved then before
      else MoveEntry(before.disk, d.dir, d.overwrite, name, d.unpacked[name], turns[k-1])
  }

  /** The whole phase, from the unpacked bundle on. */
  ghost function Place(files: map<Path, Node>, d: Download, fate: Fate): Result
    requires Fits(d, fate)
  {
    var disk := Disk(files, d.unpacked);
    if d.bundle in files && !d.overwrite then CleanedUp(files, AlreadyExists)
    else
      match fate.placing
      case Fails(_) => CleanedUp(files, Failed)
      case Stops(_) => Result(disk, Stopped)
      case Works =>
        var placed := files[d.bundle := d.tarball];
        if d.listing.None? then CleanedUp(placed, NoFiles)
        else MoveEntries(disk.(files := placed), d, fate.turns, |d.listing.value|)
  }

  class AppLibrary {
    var files: map<Path, Node>
    var temp: map<string, Node>

    constructor (files: map<Path, Node>)
      ensures this.files == files && temp == map[]
    {
      this.files, temp := files, map[];
    }

    /** renameTo, of an unpacked entry or of the tarball; a file at the destination gives way. */
    method Rename(dest: Path, node: Node, luck: Luck) returns (ok: bool, stopped: bool)
      modifies this`files
      ensures ok == luck.Works? && stopped == luck.Stops?
      ensures files == if luck.Works? then old(files)[dest := node] else old(files)
    {
      ok, stopped := luck.Works?, luck.Stops?;
      if ok { files := files[dest := node]; }
    }

    /** deleteQuietly and delete. */
    method Delete(path: Path, luck: Luck) returns (ok: bool, stopped: bool)
      requires path in files
      modifies this`files
      ensures ok == luck.Works? && stopped == luck.Stops?
      ensures files == if luck.Works? then old(files) - {path} else Damaged(old(files), path, luck.left)
    {
      ok, stopped := luck.Works?, luck.Stops?;
      files := if ok then files - {path} else Damaged(files, path, luck.left);
    }

    method Cleanup(reason: Ending) returns (ending: Ending)
      modifies this`temp
      ensures temp == map[] && ending == reason
    {
      temp := map[];
      ending := reason;
    }

    method Execute(d: Download, fate: Fate) returns (ending: Ending)
      requires Fits(d, fate)
      modifies this
      ensures Result(Disk(files, temp), ending) == Place(old(files), d, fate)
    {
      temp := d.unpacked;
      if d.bundle in files && !d.overwrite { ending := Cleanup(AlreadyExists); return; }
      var ok, stopped := Rename(d.bundle, d.tarball, fate.placing);
      if stopped { return Stopped; }
      if !ok { ending := Cleanup(Failed); return; }
      if d.listing.None? { ending := Cleanup(NoFiles); return; }
      ending := MoveAll(d, fate.turns);
    }

    /** The loop over the unpacked entries. */
    method MoveAll(d: Download, turns: seq<Turn>) returns (ending: Ending)
      requires d.listing.Some? && |d.listing.value| == |turns|
      requires forall i :: 0 <= i < |turns| ==> d.listing.value[i] in d.unpacked
      modifies this
      ensures Result(Disk(files, temp), ending) == MoveEntries(old(Disk(files, temp)), d, turns, |turns|)
    {
      var appFiles := d.listing.value;
      ghost var start := Disk(files, temp);
      for i := 0 to |appFiles|
        invariant Result(Disk(files, temp), Moved) == MoveEntries(start, d, turns, i)
      {
        StaysEnded(start, d, turns, i + 1);
        var f := appFiles[i];
        var dest := Child(d.dir, f);
        if dest in files {
          if !d.overwrite { ending := Cleanup(AlreadyExists); return; }
          var ok, stopped := Delete(dest, turns[i].deletion);
          if stopped { return Stopped; }
          if !ok { ending := Cleanup(Failed); return; }
        }
        assert files == MoveEntries(start, d, turns, i).disk.files - {dest};
        var ok, stopped := Rename(dest, d.unpacked[f], turns[i].move);
        if stopped { return Stopped; }
        if !ok { ending := Cleanup(Failed); return; }
        temp := temp - {f};
      }
      ending := Moved;
    }
  }

  /** Once the loop has been left, the entries behind it change nothing. */
  lemma {:induction false} StaysEnded(disk: Disk, d: Download, turns: seq<Turn>, k: nat)
    requires d.listing.Some? && k <= |d.listing.value| == |turns|
    requires forall i :: 0 <= i < |turns| ==> d.listing.value[i] in d.unpacked
    ensures MoveEntries(disk, d, turns, k).ending != Moved ==>
      MoveEntries(disk, d, turns, |turns|) == MoveEntries(disk, d, turns, k)
    decreases |turns| - k
  {
    if k < |turns| { StaysEnded(disk, d, turns, k + 1); }
  }

  // ---------------------------------------------------------------- without overwrite nothing is lost

  /** Every file of `before` is still there, unchanged. */
  predicate Keeps(before: map<Path, Node>, after: map<Path, Node>) {
    forall p :: p in before ==> p in after && after[p] == before[p]
  }

  lemma {:induction false} MovesKeep(disk: Disk, d: Download, turns: seq<Turn>, k: nat)
    requires d.listing.Some? && k <= |d.listing.value| == |turns| && !d.overwrite
    requires forall i :: 0 <= i < |turns| ==> d.listing.value[i] in d.unpacked
    ensures Keeps(disk.files, MoveEntries(disk, d, turns, k).disk.files)
  {
    if k > 0 { MovesKeep(disk, d, turns, k - 1); }
  }

  /** However a download without overwrite ends, and wherever it stops, no file of the library is changed or removed. */
  lemma {:induction false} NothingIsLost(files: map<Path, Node>, d: Download, fate: Fate)
    requires Fits(d, fate) && !d.overwrite
    ensures Keeps(files, Place(files, d, fate).disk.files)
  {
    if d.listing.Some? {
      MovesKeep(Disk(files[d.bundle := d.tarball], d.unpacked), d, fate.turns, |fate.turns|);
    }
  }

  /** Once the bundle is in place a download without overwrite changes nothing. */
  lemma {:induction false} BundleIsFinal(files: map<Path, Node>, d: Download, fate: Fate)
    requires Fits(d, fate) && !d.overwrite && d.bundle in files
    ensures Place(files, d, fate) == CleanedUp(files, AlreadyExists)
  {
  }

  // ---------------------------------------------------------------- any number of downloads

  datatype Attempt = Attempt(download: Download, fate: Fate)

  ghost predicate Plausible(attempts: seq<Attempt>) {
    forall i :: 0 <= i < |attempts| ==> Fits(attempts[i].download, attempts[i].fate)
  }

  ghost function AfterAll(files: map<Path, Node>, attempts: seq<Attempt>): map<Path, Node>
    requires Plausible(attempts)
  {
    if attempts == [] then files
    else
      var n := |attempts| - 1;
      Place(AfterAll(files, attempts[..n]), attempts[n].download, attempts[n].fate).disk.files
  }

  lemma {:induction false} NothingIsLostInRuns(files: map<Path, Node>, attempts: seq<Attempt>)
    requires Plausible(attempts) && forall i :: 0 <= i < |attempts| ==> !attempts[i].download.overwrite
    ensures Keeps(files, AfterAll(files, attempts))
  {
    if attempts != [] {
      var n := |attempts| - 1;
      NothingIsLostInRuns(files, attempts[..n]);
      NothingIsLost(AfterAll(files, attempts[..n]), attempts[n].download, attempts[n].fate);
    }
  }

  /** Once a bundle is in place, however it got there, downloads of it without overwrite change nothing. */
  lemma {:induction false} LaterDownloadsChangeNothing(files: map<Path, Node>, bundle: Path, attempts: seq<Attempt>)
    requires bundle in files && Plausible(attempts)
    requires forall i :: 0 <= i < |attempts| ==>
      !attempts[i].download.overwrite && attempts[i].download.bundle == bundle
    ensures AfterAll(files, attempts) == files
  {
    if attempts != [] {
      var n := |attempts| - 1;
      LaterDownloadsChangeNothing(files, bundle, attempts[..n]);
      BundleIsFinal(files, attempts[n].download, attempts[n].fate);
    }
  }

  // ---------------------------------------------------------------- what a download leaves

  /** The entries that `k` completed turns have moved are in place and no longer in the unpacked directory. */
  ghost predicate MovedUpTo(d: Download, names: seq<string>, k: nat, after: Disk)
    requires k <= |names| && forall i :: 0 <= i < |names| ==> names[i] in d.unpacked
  {
    forall i :: 0 <= i < k ==>
      && names[i] !in after.temp
      && Child(d.dir, names[i]) in after.files && after.files[Child(d.dir, names[i])] == d.unpacked[names[i]]
  }

  /** The other entries are still in the unpacked directory. */
  ghost predicate LeftFrom(d: Download, names: seq<string>, k: nat, after: Disk)
    requires forall i :: 0 <= i < |names| ==> names[i] in d.unpacked
  {
    forall i :: k <= i < |names| ==> names[i] in after.temp && after.temp[names[i]] == d.unpacked[names[i]]
  }

  /** Only destinations of entries have changed. */
  ghost predicate SameElsewhere(before: map<Path, Node>, d: Download, after: map<Path, Node>) {
    forall p :: (forall name :: name in d.unpacked ==> p != Child(d.dir, name)) ==>
      (p in after <==> p in before) && (p in before ==> after[p] == before[p])
  }

  /** One turn touches its own destination and entry at most. */
  lemma {:induction false} TurnIsLocal(disk: Disk, dir: Path, overwrite: bool, name: string, entry: Node, turn: Turn)
    ensures
      var r := MoveEntry(disk, dir, overwrite, name, entry, turn);
      && (r.ending == Moved ==> r.disk.temp == disk.temp - {name} && Child(dir, name) in r.disk.files
                                && r.disk.files[Child(dir, name)] == entry)
      && (r.ending == Stopped ==> r.disk.temp == disk.temp)
      && r.disk.files - {Child(dir, name)} == disk.files - {Child(dir, name)}
  {
  }

  lemma {:induction false} TurnsMove(disk: Disk, d: Download, names: seq<string>, turns: seq<Turn>, k: nat)
    requires Listed(d, names) && k <= |names| == |turns| && disk.temp == d.unpacked
    requires MoveEntries(disk, d, turns, k).ending == Moved
    ensures MovedUpTo(d, names, k, MoveEntries(disk, d, turns, k).disk)
    ensures LeftFrom(d, names, k, MoveEntries(disk, d, turns, k).disk)
  {
    if k > 0 {
      TurnsMove(disk, d, names, turns, k - 1);
      var before := MoveEntries(disk, d, turns, k - 1).disk;
      TurnIsLocal(before, d.dir, d.overwrite, names[k-1], d.unpacked[names[k-1]], turns[k-1]);
      OneMoreMoved(d, names, k - 1, before, MoveEntries(disk, d, turns, k).disk);
    }
  }

  lemma {:induction false} OneMoreMoved(d: Download, names: seq<string>, k: nat, before: Disk, after: Disk)
    requires Listed(d, names) && k < |names| && MovedUpTo(d, names, k, before) && LeftFrom(d, names, k, before)
    requires after.temp == before.temp - {names[k]}
    requires Child(d.dir, names[k]) in after.files && after.files[Child(d.dir, names[k])] == d.unpacked[names[k]]
    requires after.files - {Child(d.dir, names[k])} == before.files - {Child(d.dir, names[k])}
    ensures MovedUpTo(d, names, k + 1, after) && LeftFrom(d, names, k + 1, after)
  {
    forall i | 0 <= i < k
      ensures Child(d.dir, names[i]) in after.files && after.files[Child(d.dir, names[i])] == d.unpacked[names[i]]
    {
      ChildInjective(d.dir, names[i], names[k]);
      assert Child(d.dir, names[i]) in before.files - {Child(d.dir, names[k])};
    }
  }

  lemma {:induction false} ChildInjective(dir: Path, a: string, b: string)
    ensures Child(dir, a) == Child(dir, b) ==> a == b
  {
    assert Child(dir, a)[|dir|] == a && Child(dir, b)[|dir|] == b;
  }

  lemma {:induction false} SameElsewhereOnceMore(before: map<Path, Node>, d: Download, files: map<Path, Node>,
                                                 name: string, after: map<Path, Node>)
    requires SameElsewhere(before, d, files) && name in d.unpacked
    requires after - {Child(d.dir, name)} == files - {Child(d.dir, name)}
    ensures SameElsewhere(before, d, after)
  {
    forall p | forall n :: n in d.unpacked ==> p != Child(d.dir, n)
      ensures (p in after <==> p in before) && (p in before ==> after[p] == before[p])
    {
      assert p in after <==> p in after - {Child(d.dir, name)};
      assert p in files <==> p in files - {Child(d.dir, name)};
    }
  }

  lemma {:induction false} TurnsTouchNothingElse(disk: Disk, d: Download, names: seq<string>, turns: seq<Turn>, k: nat)
    requires Listed(d, names) && k <= |names| == |turns|
    ensures SameElsewhere(disk.files, d, MoveEntries(disk, d, turns, k).disk.files)
  {
    if k > 0 {
      TurnsTouchNothingElse(disk, d, names, turns, k - 1);
      var before := MoveEntries(disk, d, turns, k - 1).disk;
      TurnIsLocal(before, d.dir, d.overwrite, names[k-1], d.unpacked[names[k-1]], turns[k-1]);
      SameElsewhereOnceMore(disk.files, d, before.files, names[k-1], MoveEntries(disk, d, turns, k).disk.files);
    }
  }

  /**
   A completed move phase has put every entry of the bundle in the version directory with its
   content and left nothing unpacked; the bundle is in place unless an entry has its path, and
   no other file has changed.
   */
  lemma {:induction false} CompletedDownloadIsWhole(files: map<Path, Node>, d: Download, fate: Fate)
    requires Fits(d, fate) && Place(files, d, fate).ending == Moved
    ensures
      var after := Place(files, d, fate).disk;
      && (forall name :: name in d.unpacked ==>
           Child(d.dir, name) in after.files && after.files[Child(d.dir, name)] == d.unpacked[name])
      && (forall name :: name in d.unpacked ==> name !in after.temp)
      && SameElsewhere(files[d.bundle := d.tarball], d, after.files)
  {
    var disk := Disk(files[d.bundle := d.tarball], d.unpacked);
    var names := d.listing.value;
    TurnsMove(disk, d, names, fate.turns, |names|);
    TurnsTouchNothingElse(disk, d, names, fate.turns, |names|);
    forall name | name in d.unpacked
      ensures name !in Place(files, d, fate).disk.temp
      ensures Child(d.dir, name) in Place(files, d, fate).disk.files
      ensures Place(files, d, fate).disk.files[Child(d.dir, name)] == d.unpacked[name]
    {
      var i :| 0 <= i < |names| && names[i] == name;
    }
  }

  /**
   A download that has renamed its bundle leaves a bundle in place, however it ends and wherever
   it stops, unless it overwrites and an entry has the bundle's own path.
   */
  lemma {:induction false} PlacedBundleStays(files: map<Path, Node>, d: Download, fate: Fate)
    requires Fits(d, fate) && fate.placing.Works?
    requires d.overwrite ==> forall name :: name in d.unpacked ==> Child(d.dir, name) != d.bundle
    ensures d.bundle in Place(files, d, fate).disk.files
  {
    if d.listing.Some? {
      var disk := Disk(files[d.bundle := d.tarball], d.unpacked);
      if d.overwrite {
        TurnsTouchNothingElse(disk, d, d.listing.value, fate.turns, |fate.turns|);
      } else {
        MovesKeep(disk, d, fate.turns, |fate.turns|);
      }
    }
  }

  /** If the process stops, each entry is still unpacked or already in place: stopping loses nothing of the bundle. */
  lemma {:induction false} StoppingLosesNoEntry(files: map<Path, Node>, d: Download, fate: Fate, name: string)
    requires Fits(d, fate) && Place(files, d, fate).ending == Stopped && name in d.unpacked
    ensures
      var after := Place(files, d, fate).disk;
      || (name in after.temp && after.temp[name] == d.unpacked[name])
      || (Child(d.dir, name) in after.files && after.files[Child(d.dir, name)] == d.unpacked[name])
  {
    if fate.placing.Works? {
      var disk := Disk(files[d.bundle := d.tarball], d.unpacked);
      var k := StoppedTurn(disk, d, d.listing.value, fate.turns, |fate.turns|);
      TurnsMove(disk, d, d.listing.value, fate.turns, k);
      var i :| 0 <= i < |d.listing.value| && d.listing.value[i] == name;
      if i < k {
        ChildInjective(d.dir, name, d.listing.value[k]);
        var other := Child(d.dir, d.listing.value[k]);
        assert Child(d.dir, name) in MoveEntries(disk, d, fate.turns, k).disk.files - {other};
      }
    }
  }

  /** The turn in which a stopped loop was: the turns before it were completed, and it moved nothing. */
  lemma {:induction false} StoppedTurn(disk: Disk, d: Download, names: seq<string>, turns: seq<Turn>, n: nat)
    returns (k: nat)
    requires Listed(d, names) && n <= |names| == |turns|
    requires MoveEntries(disk, d, turns, n).ending == Stopped
    ensures k < n && MoveEntries(disk, d, turns, k).ending == Moved
    ensures MoveEntries(disk, d, turns, n).disk.temp == MoveEntries(disk, d, turns, k).disk.temp
    ensures MoveEntries(disk, d, turns, n).disk.files - {Child(d.dir, names[k])}
         == MoveEntries(disk, d, turns, k).disk.files - {Child(d.dir, names[k])}
    decreases n
  {
    var before := MoveEntries(disk, d, turns, n - 1);
    if before.ending == Moved {
      k := n - 1;
      TurnIsLocal(before.disk, d.dir, d.overwrite, names[k], d.unpacked[names[k]], turns[k]);
    } else {
      k := StoppedTurn(disk, d, names, turns, n - 1);
    }
  }

  // ---------------------------------------------------------------- when a download succeeds

  /** Every file operation works. */
  predicate Lucky(fate: Fate) {
    fate.placing.Works? && forall i :: 0 <= i < |fate.turns| ==> fate.turns[i] == Turn(Works, Works)
  }

  lemma {:induction false} LuckyTurns(disk: Disk, d: Download, names: seq<string>, turns: seq<Turn>, k: nat)
    requires Listed(d, names) && k <= |names| == |turns| && !d.overwrite
    requires forall i :: 0 <= i < |turns| ==> turns[i] == Turn(Works, Works)
    ensures MoveEntries(disk, d, turns, k).ending == Moved <==>
      forall i :: 0 <= i < k ==> Child(d.dir, names[i]) !in disk.files
    ensures forall i :: k <= i < |names| ==>
      (Child(d.dir, names[i]) in MoveEntries(disk, d, turns, k).disk.files <==> Child(d.dir, names[i]) in disk.files)
  {
    if k > 0 {
      LuckyTurns(disk, d, names, turns, k - 1);
      var before, dest := MoveEntries(disk, d, turns, k - 1).disk, Child(d.dir, names[k-1]);
      var after := MoveEntries(disk, d, turns, k).disk;
      TurnIsLocal(before, d.dir, d.overwrite, names[k-1], d.unpacked[names[k-1]], turns[k-1]);
      forall i | k <= i < |names|
        ensures Child(d.dir, names[i]) in after.files <==> Child(d.dir, names[i]) in disk.files
      {
        ChildInjective(d.dir, names[i], names[k-1]);
        assert Child(d.dir, names[i]) in before.files <==> Child(d.dir, names[i]) in before.files - {dest};
      }
    }
  }

  /**
   With every file operation working, a download without overwrite succeeds exactly when
   neither its bundle nor any of its entries is there yet and no entry has the bundle's path.
   */
  lemma {:induction false} SucceedsExactlyOnFreshPaths(files: map<Path, Node>, d: Download, fate: Fate)
    requires Fits(d, fate) && Lucky(fate) && !d.overwrite && d.listing.Some?
    ensures Place(files, d, fate).ending == Moved <==>
      && d.bundle !in files
      && forall name :: name in d.unpacked ==> Child(d.dir, name) !in files && Child(d.dir, name) != d.bundle
  {
    var placed := files[d.bundle := d.tarball];
    LuckyTurns(Disk(placed, d.unpacked), d, d.listing.value, fate.turns, |fate.turns|);
  }

  lemma {:induction false} LuckyOverwriting(disk: Disk, d: Download, names: seq<string>, turns: seq<Turn>, k: nat)
    requires Listed(d, names) && k <= |names| == |turns| && d.overwrite
    requires forall i :: 0 <= i < |turns| ==> turns[i] == Turn(Works, Works)
    ensures MoveEntries(disk, d, turns, k).ending == Moved
  {
    if k > 0 { LuckyOverwriting(disk, d, names, turns, k - 1); }
  }

  /**
   With every file operation working, an overwriting download of a bundle that has been listed
   always succeeds: whatever was at the paths of its entries or of the bundle is replaced, and
   everything else stays.
   */
  lemma {:induction false} OverwritingReplaces(files: map<Path, Node>, d: Download, fate: Fate)
    requires Fits(d, fate) && Lucky(fate) && d.overwrite && d.listing.Some?
    ensures
      var r := Place(files, d, fate);
      && r.ending == Moved
      && (forall name :: name in d.unpacked ==>
           Child(d.dir, name) in r.disk.files && r.disk.files[Child(d.dir, name)] == d.unpacked[name])
      && ((forall name :: name in d.unpacked ==> Child(d.dir, name) != d.bundle) ==>
           d.bundle in r.disk.files && r.disk.files[d.bundle] == d.tarball)
      && (forall p :: p != d.bundle && (forall name :: name in d.unpacked ==> p != Child(d.dir, name)) ==>
           (p in r.disk.files <==> p in files) && (p in files ==> r.disk.files[p] == files[p]))
  {
    LuckyOverwriting(Disk(files[d.bundle := d.tarball], d.unpacked), d, d.listing.value, fate.turns, |fate.turns|);
    CompletedDownloadIsWhole(files, d, fate);
  }

  // ---------------------------------------------------------------- the other endings

  lemma {:induction false} LoopEndings(disk: Disk, d: Download, names: seq<string>, turns: seq<Turn>, k: nat)
    requires Listed(d, names) && k <= |names| == |turns|
    ensures MoveEntries(disk, d, turns, k).ending in {Moved, AlreadyExists, Failed, Stopped}
    ensures MoveEntries(disk, d, turns, k).ending == AlreadyExists ==> !d.overwrite
    ensures MoveEntries(disk, d, turns, k).ending == Failed ==>
      exists i :: 0 <= i < k && SomeFails(turns[i])
    ensures MoveEntries(disk, d, turns, k).ending == Stopped ==>
      exists i :: 0 <= i < k && SomeStops(turns[i])
    ensures MoveEntries(disk, d, turns, k).ending in {AlreadyExists, Failed} ==>
      MoveEntries(disk, d, turns, k).disk.temp == map[]
  {
    if k > 0 { LoopEndings(disk, d, names, turns, k - 1); }
  }

  /**
   A download is refused only if it may not overwrite, fails or stops only with a file operation
   that does, finds no files only if none are listed, and whenever it ends by itself without
   success it leaves nothing unpacked behind.
   */
  lemma {:induction false} EndingsAreCaused(files: map<Path, Node>, d: Download, fate: Fate)
    requires Fits(d, fate)
    ensures
      var r := Place(files, d, fate);
      && (r.ending == AlreadyExists ==> !d.overwrite)
      && (d.bundle in files && !d.overwrite ==> r.ending == AlreadyExists)
      && (r.ending == NoFiles <==> !(d.bundle in files && !d.overwrite) && fate.placing.Works? && d.listing.None?)
      && (r.ending == Failed ==> fate.placing.Fails? || exists i :: 0 <= i < |fate.turns| && SomeFails(fate.turns[i]))
      && (r.ending == Stopped ==> fate.placing.Stops? || exists i :: 0 <= i < |fate.turns| && SomeStops(fate.turns[i]))
      && (r.ending in {AlreadyExists, Failed, NoFiles} ==> r.disk.temp == map[])
  {
    if d.listing.Some? {
      LoopEndings(Disk(files[d.bundle := d.tarball], d.unpacked), d, d.listing.value, fate.turns, |fate.turns|);
    }
  }

  /** The entries still to come are there or not as before. */
  lemma {:induction false} LaterUntouched(disk: Disk, d: Download, names: seq<string>, turns: seq<Turn>, k: nat, j: nat)
    requires Listed(d, names) && k <= j < |names| == |turns|
    ensures
      Child(d.dir, names[j]) in MoveEntries(disk, d, turns, k).disk.files <==> Child(d.dir, names[j]) in disk.files
    decreases k
  {
    if k > 0 {
      LaterUntouched(disk, d, names, turns, k - 1, j);
      var before, dest := MoveEntries(disk, d, turns, k - 1).disk, Child(d.dir, names[k-1]);
      TurnIsLocal(before, d.dir, d.overwrite, names[k-1], d.unpacked[names[k-1]], turns[k-1]);
      ChildInjective(d.dir, names[j], names[k-1]);
      var path, after := Child(d.dir, names[j]), MoveEntries(disk, d, turns, k).disk.files;
      assert path in before.files <==> path in before.files - {dest};
      assert path in after <==> path in after - {dest};
    }
  }

  lemma {:induction false} MovedTurnsWorked(disk: Disk, d: Download, names: seq<string>, turns: seq<Turn>, k: nat)
    requires Listed(d, names) && k <= |names| == |turns| && MoveEntries(disk, d, turns, k).ending == Moved
    ensures forall i :: 0 <= i < k ==> turns[i].move.Works?
    ensures forall i :: 0 <= i < k && Child(d.dir, names[i]) in disk.files ==> d.overwrite && turns[i].deletion.Works?
    decreases k
  {
    if k > 0 {
      MovedTurnsWorked(disk, d, names, turns, k - 1);
      LaterUntouched(disk, d, names, turns, k - 1, k - 1);
    }
  }

  /** It succeeds only if every operation that it needs has worked: no failure is passed over. */
  lemma {:induction false} SuccessMeansAllWorked(files: map<Path, Node>, d: Download, fate: Fate)
    requires Fits(d, fate) && Place(files, d, fate).ending == Moved
    ensures fate.placing.Works? && d.listing.Some?
    ensures forall i :: 0 <= i < |fate.turns| ==> fate.turns[i].move.Works?
    ensures forall i :: 0 <= i < |fate.turns| && Child(d.dir, d.listing.value[i]) in files ==>
      d.overwrite && fate.turns[i].deletion.Works?
  {
    MovedTurnsWorked(Disk(files[d.bundle := d.tarball], d.unpacked), d, d.listing.value, fate.turns, |fate.turns|);
  }

  /**
   However it ends: unless the bundle is placed nothing changes, and if it is, nothing but the paths
   of the bundle and its entries.
   */
  lemma {:induction false} OnlyItsOwnPathsChange(files: map<Path, Node>, d: Download, fate: Fate)
    requires Fits(d, fate)
    ensures !fate.placing.Works? || (d.bundle in files && !d.overwrite) ==> Place(files, d, fate).disk.files == files
    ensures fate.placing.Works? && (d.bundle !in files || d.overwrite) ==>
      SameElsewhere(files[d.bundle := d.tarball], d, Place(files, d, fate).disk.files)
  {
    if d.listing.Some? {
      var disk := Disk(files[d.bundle := d.tarball], d.unpacked);
      TurnsTouchNothingElse(disk, d, d.listing.value, fate.turns, |fate.turns|);
    }
  }

  /**
   A file, unlike a directory, is untouched if its deletion does not succeed, and gone if only the
   move after it fails.
   */
  lemma {:induction false} FailedTurn(disk: Disk, dir: Path, name: string, entry: Node, turn: Turn)
    requires Child(dir, name) in disk.files && turn.move.Fails?
    ensures
      var r := MoveEntry(disk, dir, true, name, entry, turn);
      && (!turn.deletion.Works? && disk.files[Child(dir, name)].File? ==> r.disk.files == disk.files)
      && (turn.deletion.Works? ==> Child(dir, name) !in r.disk.files)
  {
  }

  predicate SomeFails(t: Turn) { t.deletion.Fails? || t.move.Fails? }

  predicate SomeStops(t: Turn) { t.deletion.Stops? || t.move.Stops? }
}

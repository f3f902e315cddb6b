/** The scan of a share's tree against its saved index. */
module Scan {
  import opened Index
  import opened Metadata
  import opened Order
  import opened Paths
  import opened Prelude
  import opened ScanRules
  import opened Vectors

  /** What the walk meets at a path. */
  datatype Node = Regular(file: File) | Directory(manifest: Manifest) | Symlink | Special

  type Tree = map<Path, Node>

  /** The verdict of all ignore layers on a path, as a directory or as a file. */
  type Ignores = (Path, bool) -> bool

  datatype Change = Change(path: Path, kind: ChangeKind)

  datatype ScanResult = ScanResult(changes: seq<Change>, entries: Entries, directories: map<Path, Manifest>,
                                   skipped: seq<Path>)

  /** The walk descends only through directories that are not ignored. */
  predicate Reached(tree: Tree, ignores: Ignores, path: Path) {
    && path in tree
    && forall i | 0 <= i < |path| && path[i] == '/' ::
         path[..i] in tree && tree[path[..i]].Directory? && !ignores(path[..i], true)
  }

  function SeenAt(tree: Tree, ignores: Ignores, path: Path): Option<File> {
    if Reached(tree, ignores, path) && tree[path].Regular? && !ignores(path, false) then Some(tree[path].file) else None
  }

  function DirectoriesOf(tree: Tree, ignores: Ignores): map<Path, Manifest> {
    map p | p in tree && Reached(tree, ignores, p) && tree[p].Directory? && !ignores(p, true) :: tree[p].manifest
  }

  function ChangeAt(previous: Entries, tree: Tree, ignores: Ignores, path: Path): Option<ChangeKind> {
    ScanChange(EntryAt(previous, path), SeenAt(tree, ignores, path), ignores(path, false))
  }

  /** The entry a scan records at every path. */
  ghost predicate Scanned(previous: Entries, tree: Tree, ignores: Ignores, fingerprint: string, now: int,
                          next: Entries) {
    forall p :: EntryAt(next, p) ==
        ScanOne(EntryAt(previous, p), SeenAt(tree, ignores, p), ignores(p, false), fingerprint, now)
  }

  /** The changes list each changed path once, in order, with its kind. */
  ghost predicate Listed(changes: seq<Change>, kinds: map<Path, ChangeKind>) {
    && |changes| == |Enumerate(kinds.Keys)|
    && forall i | 0 <= i < |changes| ::
        changes[i].path == Enumerate(kinds.Keys)[i] && changes[i].path in kinds
            && changes[i].kind == kinds[changes[i].path]
  }

  predicate Live(entries: Entries, path: Path) {
    path in entries && !entries[path].deleted
  }

  /** What became of the file between two indexes. */
  predicate Happened(previous: Entries, next: Entries, path: Path, kind: ChangeKind) {
    match kind
    case Added => !Live(previous, path) && Live(next, path)
    case Deleted => Live(previous, path) && !Live(next, path)
    case Modified =>
      && Live(previous, path) && Live(next, path)
      && (next[path].hash, next[path].metadata) != (previous[path].hash, previous[path].metadata)
  }

  /** What the walk has collected so far. */
  datatype Walked = Walked(entries: Entries, directories: map<Path, Manifest>, kinds: map<Path, ChangeKind>,
                           skipped: set<Path>)

  function KindAt(kinds: map<Path, ChangeKind>, path: Path): Option<ChangeKind> {
    if path in kinds then Some(kinds[path]) else None
  }

  /** The walk's record of a path it has been to. */
  predicate Visited(w: Walked, tree: Tree, previous: Entries, ignores: Ignores, fingerprint: string, path: Path) {
    var seen := SeenAt(tree, ignores, path);
    && EntryAt(w.entries, path) ==
        (if seen.Some? then Some(ScanFile(EntryAt(previous, path), seen.value, fingerprint)) else None)
    && KindAt(w.kinds, path) == (if seen.Some? then ChangeAt(previous, tree, ignores, path) else None)
    && (path in w.directories <==> path in DirectoriesOf(tree, ignores))
    && (path in w.directories ==> w.directories[path] == DirectoriesOf(tree, ignores)[path])
    && (path in w.skipped <==> Skips(tree, ignores, path))
  }

  /** The walk passes over symbolic links, ignored or not, and over other special files that are not ignored. */
  predicate Skips(tree: Tree, ignores: Ignores, path: Path) {
    Reached(tree, ignores, path) && (tree[path].Symlink? || (tree[path].Special? && !ignores(path, false)))
  }

  /** The finished record of a path. */
  predicate Recorded(entries: Entries, kinds: map<Path, ChangeKind>, tree: Tree, previous: Entries, ignores: Ignores,
                     fingerprint: string, now: int, path: Path)
  {
    && EntryAt(entries, path) ==
        ScanOne(EntryAt(previous, path), SeenAt(tree, ignores, path), ignores(path, false), fingerprint, now)
    && KindAt(kinds, path) == ChangeAt(previous, tree, ignores, path)
  }

  /** Visits every reached path once, in any order, then every previous entry; any file may turn out unreadable. */
  method Reconcile(tree: Tree, previous: Entries, ignores: Ignores, fingerprint: string, now: int)
    returns (result: Result<ScanResult>)
    ensures fingerprint == "" ==> result.Err?
    ensures result.Ok? ==>
      && Scanned(previous, tree, ignores, fingerprint, now, result.value.entries)
      && result.value.directories == DirectoriesOf(tree, ignores)
      && exists kinds :: Listed(result.value.changes, kinds) && forall p ::
          KindAt(kinds, p) == ChangeAt(previous, tree, ignores, p)
    ensures result.Ok? ==>
      forall p | p in tree && tree[p].Regular? && !ignores(p, false)
          && (forall a | Ancestor(a, p) :: a in tree && tree[a].Directory? && !ignores(a, true)) ::
        && p in result.value.entries && !result.value.entries[p].deleted
        && result.value.entries[p].metadata == tree[p].file.metadata
        && result.value.entries[p].size == tree[p].file.size
    ensures result.Ok? ==>
      forall p | p in result.value.entries && !result.value.entries[p].deleted
          && EntryAt(previous, p) != Some(result.value.entries[p]) ::
        && p in tree && tree[p].Regular? && !ignores(p, false)
        && forall a | Ancestor(a, p) :: a in tree && tree[a].Directory? && !ignores(a, true)
    ensures result.Ok? ==>
      forall p | ignores(p, false) :: EntryAt(result.value.entries, p) == EntryAt(previous, p)
    ensures result.Ok? ==>
      forall p :: p in result.value.directories <==>
        && p in tree && tree[p].Directory? && !ignores(p, true)
        && forall a | Ancestor(a, p) :: a in tree && tree[a].Directory? && !ignores(a, true)
    ensures result.Ok? ==>
      && Sorted(result.value.skipped)
      && forall p :: p in result.value.skipped <==>
           && p in tree && (tree[p].Symlink? || (tree[p].Special? && !ignores(p, false)))
           && forall a | Ancestor(a, p) :: a in tree && tree[a].Directory? && !ignores(a, true)
    ensures result.Ok? ==>
      && (forall i, j | 0 <= i < j < |result.value.changes| ::
            Less(result.value.changes[i].path, result.value.changes[j].path))
      && forall p, kind :: Change(p, kind) in result.value.changes <==>
           Happened(previous, result.value.entries, p, kind)
  {
    if fingerprint == "" {
      return Err("local installation fingerprint is required");
    }
    var walk := Walk(tree, previous, ignores, fingerprint);
    if walk.Err? {
      return Err(walk.reason);
    }
    var entries, kinds := FinishScan(walk.value, tree, previous, ignores, fingerprint, now);
    var changes := SortChanges(kinds);
    var skipped := Sort(walk.value.skipped);
    result := Ok(ScanResult(changes, entries, walk.value.directories, skipped));
    forall p
      ensures KindAt(kinds, p) == ChangeAt(previous, tree, ignores, p)
      ensures EntryAt(entries, p) ==
        ScanOne(EntryAt(previous, p), SeenAt(tree, ignores, p), ignores(p, false), fingerprint, now)
    {
      assert Recorded(entries, kinds, tree, previous, ignores, fingerprint, now, p);
    }
    RecordsWhatIsThere(tree, previous, ignores, fingerprint, now, entries);
    forall p ensures Reached(tree, ignores, p) <==>
      p in tree && forall a | Ancestor(a, p) :: a in tree && tree[a].Directory? && !ignores(a, true)
    {
      ReachedByAncestors(tree, ignores, p);
    }
    ListsWhatChanged(tree, previous, ignores, fingerprint, now, entries, kinds, changes);
  }

  /** The way to the path leads through directories that are not ignored. */
  lemma ReachedByAncestors(tree: Tree, ignores: Ignores, path: Path)
    ensures Reached(tree, ignores, path) <==>
      path in tree && forall a | Ancestor(a, path) :: a in tree && tree[a].Directory? && !ignores(a, true)
  {
    if Reached(tree, ignores, path) {
      forall a | Ancestor(a, path) ensures a in tree && tree[a].Directory? && !ignores(a, true) {
        assert path[..|a|] == a;
      }
    }
    if path in tree && forall a | Ancestor(a, path) :: a in tree && tree[a].Directory? && !ignores(a, true) {
      forall i | 0 <= i < |path| && path[i] == '/'
        ensures path[..i] in tree && tree[path[..i]].Directory? && !ignores(path[..i], true)
      {
        assert Ancestor(path[..i], path);
      }
    }
  }

  lemma RecordsWhatIsThere(tree: Tree, previous: Entries, ignores: Ignores, fingerprint: string, now: int,
                           next: Entries)
    requires Scanned(previous, tree, ignores, fingerprint, now, next)
    ensures forall p | p in tree && tree[p].Regular? && !ignores(p, false)
          && (forall a | Ancestor(a, p) :: a in tree && tree[a].Directory? && !ignores(a, true)) ::
      && p in next && !next[p].deleted && next[p].metadata == tree[p].file.metadata
      && next[p].size == tree[p].file.size
    ensures forall p | p in next && !next[p].deleted && EntryAt(previous, p) != Some(next[p]) ::
      && p in tree && tree[p].Regular? && !ignores(p, false)
      && forall a | Ancestor(a, p) :: a in tree && tree[a].Directory? && !ignores(a, true)
    ensures forall p | ignores(p, false) :: EntryAt(next, p) == EntryAt(previous, p)
    ensures forall p :: p in DirectoriesOf(tree, ignores) <==>
      && p in tree && tree[p].Directory? && !ignores(p, true)
      && forall a | Ancestor(a, p) :: a in tree && tree[a].Directory? && !ignores(a, true)
  {
    forall p
      ensures Reached(tree, ignores, p) <==>
        p in tree && forall a | Ancestor(a, p) :: a in tree && tree[a].Directory? && !ignores(a, true)
      ensures EntryAt(next, p) ==
        ScanOne(EntryAt(previous, p), SeenAt(tree, ignores, p), ignores(p, false), fingerprint, now)
    {
      ReachedByAncestors(tree, ignores, p);
    }
  }

  /** The kind of a change is what happened between the two indexes. */
  lemma ChangeBetween(previous: Entries, next: Entries, p: Path, seen: Option<File>, ignored: bool, fingerprint: string,
                      now: int)
    requires EntryAt(next, p) == ScanOne(EntryAt(previous, p), seen, ignored, fingerprint, now)
    ensures forall kind :: ScanChange(EntryAt(previous, p), seen, ignored) == Some(kind) <==>
      Happened(previous, next, p, kind)
  {
    assert p in next ==> EntryAt(next, p) == Some(next[p]);
  }

  lemma ListsEach(kinds: map<Path, ChangeKind>, changes: seq<Change>)
    requires Listed(changes, kinds)
    ensures forall i, j | 0 <= i < j < |changes| :: Less(changes[i].path, changes[j].path)
    ensures forall p, kind :: Change(p, kind) in changes <==> KindAt(kinds, p) == Some(kind)
  {
    forall p | p in kinds ensures Change(p, kinds[p]) in changes {
      assert p in Enumerate(kinds.Keys);
      var i :| 0 <= i < |changes| && Enumerate(kinds.Keys)[i] == p;
      assert changes[i] == Change(p, kinds[p]);
    }
  }

  lemma ListsWhatChanged(tree: Tree, previous: Entries, ignores: Ignores, fingerprint: string, now: int,
                         next: Entries, kinds: map<Path, ChangeKind>, changes: seq<Change>)
    requires Scanned(previous, tree, ignores, fingerprint, now, next) && Listed(changes, kinds)
    requires forall p :: KindAt(kinds, p) == ChangeAt(previous, tree, ignores, p)
    ensures forall i, j | 0 <= i < j < |changes| :: Less(changes[i].path, changes[j].path)
    ensures forall p, kind :: Change(p, kind) in changes <==> Happened(previous, next, p, kind)
  {
    ListsEach(kinds, changes);
    forall p, kind ensures KindAt(kinds, p) == Some(kind) <==> Happened(previous, next, p, kind) {
      ChangeBetween(previous, next, p, SeenAt(tree, ignores, p), ignores(p, false), fingerprint, now);
      assert KindAt(kinds, p) == ChangeAt(previous, tree, ignores, p);
    }
  }

  /** The loop over the previous entries: unseen paths are carried forward or become tombstones. */
  method FinishScan(w: Walked, tree: Tree, previous: Entries, ignores: Ignores, fingerprint: string, now: int)
    returns (entries: Entries, kinds: map<Path, ChangeKind>)
    requires forall p :: Visited(w, tree, previous, ignores, fingerprint, p)
    ensures forall p :: Recorded(entries, kinds, tree, previous, ignores, fingerprint, now, p)
  {
    entries, kinds := w.entries, w.kinds;
    var rest := previous.Keys;
    forall p | p !in rest ensures Recorded(entries, kinds, tree, previous, ignores, fingerprint, now, p) {
      assert Visited(w, tree, previous, ignores, fingerprint, p);
    }
    while rest != {}
      invariant rest <= previous.Keys
      invariant forall p | p in rest ::
        EntryAt(entries, p) == EntryAt(w.entries, p) && KindAt(kinds, p) == KindAt(w.kinds, p)
      invariant forall p | p !in rest :: Recorded(entries, kinds, tree, previous, ignores, fingerprint, now, p)
      decreases rest
    {
      var path :| path in rest;
      var entry := previous[path];
      assert Visited(w, tree, previous, ignores, fingerprint, path);
      if path in w.entries {
      } else if ignores(path, false) || entry.deleted {
        entries := entries[path := entry];
      } else {
        entries := entries[path := Tombstone(Increment(entry.version, fingerprint), now)];
        kinds := kinds[path := Deleted];
      }
      rest := rest - {path};
    }
  }

  /** One visit of every reached path. */
  method Walk(tree: Tree, previous: Entries, ignores: Ignores, fingerprint: string) returns (walked: Result<Walked>)
    ensures walked.Ok? ==> forall p :: Visited(walked.value, tree, previous, ignores, fingerprint, p)
    ensures walked.Ok? ==> walked.value.directories == DirectoriesOf(tree, ignores)
    ensures walked.Ok? ==> forall p :: p in walked.value.skipped <==> Skips(tree, ignores, p)
  {
    var reached := set p | p in tree && Reached(tree, ignores, p);
    var w := Walked(map[], map[], map[], {});
    var rest := reached;
    while rest != {}
      invariant rest <= reached
      invariant forall p | p in rest :: p !in w.entries && p !in w.kinds && p !in w.directories && p !in w.skipped
      invariant forall p | p !in rest :: Visited(w, tree, previous, ignores, fingerprint, p)
      decreases rest
    {
      var path :| path in rest;
      var unreadable: bool := *;
      if unreadable {
        return Err("walk share");
      }
      w := VisitPath(w, path, tree, previous, ignores, fingerprint);
      rest := rest - {path};
    }
    forall p
      ensures p in w.directories <==> p in DirectoriesOf(tree, ignores)
      ensures p in w.directories ==> w.directories[p] == DirectoriesOf(tree, ignores)[p]
      ensures p in w.skipped <==> Skips(tree, ignores, p)
    {
      assert Visited(w, tree, previous, ignores, fingerprint, p);
    }
    walked := Ok(w);
  }

  method VisitPath(w: Walked, path: Path, tree: Tree, previous: Entries, ignores: Ignores, fingerprint: string)
    returns (next: Walked)
    requires Reached(tree, ignores, path)
    requires path !in w.entries && path !in w.kinds && path !in w.directories && path !in w.skipped
    ensures Visited(next, tree, previous, ignores, fingerprint, path)
    ensures forall p | p != path ::
      && EntryAt(next.entries, p) == EntryAt(w.entries, p)
      && KindAt(next.kinds, p) == KindAt(w.kinds, p)
      && (p in next.directories <==> p in w.directories)
      && (p in w.directories ==> next.directories[p] == w.directories[p])
      && (p in next.skipped <==> p in w.skipped)
  {
    next := w;
    match tree[path] {
      case Symlink =>
        next := next.(skipped := next.skipped + {path});
      case Directory(manifest) =>
        if !ignores(path, true) {
          next := next.(directories := next.directories[path := manifest]);
        }
      case Special =>
        if !ignores(path, false) {
          next := next.(skipped := next.skipped + {path});
        }
      case Regular(file) =>
        if !ignores(path, false) {
          var entry, change := VisitFile(EntryAt(previous, path), file, fingerprint);
          next := next.(entries := next.entries[path := entry]);
          if change.Some? {
            next := next.(kinds := next.kinds[path := change.value]);
          }
        }
    }
  }

  /** One regular file: reuse the stored hash on an unchanged triple, else hash; advance the counter if anything
      changed. */
  method VisitFile(previous: Option<Entry>, file: File, fingerprint: string)
    returns (entry: Entry, change: Option<ChangeKind>)
    ensures entry == ScanFile(previous, file, fingerprint)
    ensures change == ScanChange(previous, Some(file), false)
  {
    var found := previous.Some?;
    var old_ := Get(previous);
    var reuseHash := found && !old_.deleted && old_.ino == file.ino && old_.ctime == file.ctime
        && old_.size == file.size;
    var hash := if reuseHash then old_.hash else file.hash;
    var sameMetadata := EqualManifests(file.metadata, old_.metadata);
    var changed := !found || old_.deleted || hash != old_.hash || !sameMetadata;
    var version := old_.version;
    change := None;
    if changed {
      version := IncrementVector(old_.version, fingerprint);
      change := Some(if !found || old_.deleted then Added else Modified);
    }
    entry := Entry(version, false, 0, file.ino, file.ctime, file.size, hash, file.metadata);
  }

  method SortChanges(kinds: map<Path, ChangeKind>) returns (changes: seq<Change>)
    ensures Listed(changes, kinds)
  {
    var ordered := Sort(kinds.Keys);
    changes := [];
    for i := 0 to |ordered|
      invariant |changes| == i
      invariant forall j | 0 <= j < i ::
        changes[j].path == ordered[j] && changes[j].path in kinds && changes[j].kind == kinds[changes[j].path]
    {
      assert ordered[i] in kinds.Keys;
      changes := changes + [Change(ordered[i], kinds[ordered[i]])];
    }
  }

  /** A scan never drops a previous entry, advances exactly the reported paths by exactly one local edit, and carries
      an unseen path that the file-level rules match forward as it is. */
  lemma ScanIsLocalHistory(previous: Entries, tree: Tree, ignores: Ignores, fingerprint: string, now: int,
                           next: Entries)
    requires Scanned(previous, tree, ignores, fingerprint, now, next)
    ensures previous.Keys <= next.Keys
    ensures forall p :: (Lookup(next, p).version ==
      if ChangeAt(previous, tree, ignores, p).Some? then Increment(Lookup(previous, p).version, fingerprint)
      else Lookup(previous, p).version)
    ensures forall p | p in previous && SeenAt(tree, ignores, p).None? && ignores(p, false) :: next[p] == previous[p]
  {
    forall p
      ensures p in previous ==> p in next
      ensures Lookup(next, p).version ==
        if ChangeAt(previous, tree, ignores, p).Some? then Increment(Lookup(previous, p).version, fingerprint)
        else Lookup(previous, p).version
      ensures p in previous && SeenAt(tree, ignores, p).None? && ignores(p, false) ==> next[p] == previous[p]
    {
      ScanAdvances(EntryAt(previous, p), SeenAt(tree, ignores, p), ignores(p, false), fingerprint, now);
      assert EntryAt(next, p) ==
        ScanOne(EntryAt(previous, p), SeenAt(tree, ignores, p), ignores(p, false), fingerprint, now);
    }
  }

  /** Scanning an unchanged tree again, at any time, reports nothing and records the same entries. */
  lemma RescanIsIdempotent(previous: Entries, tree: Tree, ignores: Ignores, fingerprint: string, now: int,
                           next: Entries, later: int, again: Entries)
    requires Scanned(previous, tree, ignores, fingerprint, now, next)
    requires Scanned(next, tree, ignores, fingerprint, later, again)
    ensures forall p :: ChangeAt(next, tree, ignores, p).None?
    ensures again == next
  {
    forall p ensures ChangeAt(next, tree, ignores, p).None? && EntryAt(again, p) == EntryAt(next, p) {
      assert EntryAt(next, p) ==
        ScanOne(EntryAt(previous, p), SeenAt(tree, ignores, p), ignores(p, false), fingerprint, now);
      RescanReportsNothing(EntryAt(previous, p), SeenAt(tree, ignores, p), ignores(p, false), fingerprint, now, later);
    }
    assert forall p :: p in again <==> p in next by {
      forall p ensures p in again <==> p in next { assert EntryAt(again, p) == EntryAt(next, p); }
    }
    forall p | p in next ensures again[p] == next[p] { assert EntryAt(again, p) == EntryAt(next, p); }
  }

  /** An existing file becomes a tombstone exactly when the walk does not see it, it was live, and no file-level rule
      covers it: a rule that only names its directory hides the file from the walk and does not save it. */
  lemma UnseenIsDeleted(previous: Entries, tree: Tree, ignores: Ignores, fingerprint: string, now: int, next: Entries,
                        path: Path)
    requires Scanned(previous, tree, ignores, fingerprint, now, next) && path in previous
    ensures ChangeAt(previous, tree, ignores, path) == Some(Deleted) <==>
      SeenAt(tree, ignores, path).None? && !previous[path].deleted && !ignores(path, false)
    ensures ChangeAt(previous, tree, ignores, path) == Some(Deleted) ==>
      path in next && next[path] == Tombstone(Increment(previous[path].version, fingerprint), now)
  {
  }
}

/** The inode, change-time and size cache never changes what a scan records. */
module HashCache {
  import opened Index
  import opened Order
  import opened PathProtocol
  import opened Prelude
  import opened ScanRules
  import Vectors

  /** The bytes an installation's file had under each cached triple at the path. */
  type Bytes = (nat, int, nat) -> string

  /** An unchanged triple means unchanged bytes, and no file has inode zero. */
  ghost predicate Truthful(spot: Spot, bytes: Bytes) {
    spot.file.Some? ==>
      spot.file.value.ino > 0
          && spot.file.value.hash == bytes(spot.file.value.ino, spot.file.value.ctime, spot.file.value.size)
  }

  /** A cached triple names the bytes the entry's hash was computed from. */
  ghost predicate Sound(entry: Option<Entry>, bytes: Bytes) {
    entry.Some? && !entry.value.deleted && entry.value.ino > 0 ==>
      entry.value.hash == bytes(entry.value.ino, entry.value.ctime, entry.value.size)
  }

  ghost predicate CacheInvariant(s: State, atA: Bytes, atB: Bytes) {
    && Sound(s.a, atA) && Sound(s.b, atB)
    && (!s.phase.Idle? ==> Sound(s.phase.local, atA))
  }

  ghost predicate TruthfulTrees(s: State, atA: Bytes, atB: Bytes) {
    Truthful(s.spotA, atA) && Truthful(s.spotB, atB)
  }

  /** A scan that hashes every file it meets. */
  function ScanHashing(previous: Option<Entry>, seen: Option<File>, ignored: bool, fingerprint: string,
                       now: int): Option<Entry> {
    if seen.None? then ScanOne(previous, seen, ignored, fingerprint, now)
    else
      var file := seen.value;
      var known := Get(previous);
      var changed := previous.None? || known.deleted || file.hash != known.hash || file.metadata != known.metadata;
      var version := if changed then Vectors.Increment(known.version, fingerprint) else known.version;
      Some(Content(version, file.hash, file.metadata)
           .(ino := file.ino, ctime := file.ctime, size := file.size))
  }

  /** The cached scan of the spot records what hashing would. */
  predicate ScansAsHashing(entry: Option<Entry>, spot: Spot, fingerprint: string, now: int) {
    ScanSpot(entry, spot, fingerprint, now) == ScanHashing(entry, Seen(spot), spot.ignored, fingerprint, now)
  }

  lemma CachedScanHashes(entry: Option<Entry>, spot: Spot, fingerprint: string, now: int, bytes: Bytes)
    requires Sound(entry, bytes) && Truthful(spot, bytes)
    ensures ScansAsHashing(entry, spot, fingerprint, now)
    ensures Sound(ScanSpot(entry, spot, fingerprint, now), bytes)
  {
  }

  lemma CacheStep(l: Link, s: State, step: Step, atA: Bytes, atB: Bytes)
    requires Enabled(l, s, step) && CacheInvariant(s, atA, atB) && TruthfulTrees(s, atA, atB)
    ensures CacheInvariant(Apply(l, s, step), atA, atB)
  {
  }

  /** On every run of scans and commits, those by the peer included, each scan records what hashing every file would. */
  lemma {:induction false} CacheAgreesWithHashing(l: Link, states: seq<State>, steps: seq<Step>, n: nat, atA: Bytes,
                                                  atB: Bytes)
    requires |states| == |steps| + 1 && n < |states|
    requires forall i | 0 <= i < |steps| :: Next(l, states[i], steps[i], states[i + 1])
    requires forall i | 0 <= i < |states| :: TruthfulTrees(states[i], atA, atB)
    requires states[0].a.None? && states[0].b.None? && states[0].phase.Idle?
    ensures CacheInvariant(states[n], atA, atB)
    ensures forall f, now ::
      ScansAsHashing(states[n].a, states[n].spotA, f, now) && ScansAsHashing(states[n].b, states[n].spotB, f, now)
  {
    if n > 0 {
      CacheAgreesWithHashing(l, states, steps, n - 1, atA, atB);
      assert Next(l, states[n - 1], steps[n - 1], states[n - 1 + 1]);
      CacheStep(l, states[n - 1], steps[n - 1], atA, atB);
    }
    forall f, now
      ensures ScansAsHashing(states[n].a, states[n].spotA, f, now)
      ensures ScansAsHashing(states[n].b, states[n].spotB, f, now)
    {
      CachedScanHashes(states[n].a, states[n].spotA, f, now, atA);
      CachedScanHashes(states[n].b, states[n].spotB, f, now, atB);
    }
  }
}

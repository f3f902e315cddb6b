/** Executing directory decisions: deletions deepest first, then manifests on both sides, deepest first. */
module DirectoryExecution {
  import opened Engine
  import EngineProperties
  import opened Index
  import opened Installations
  import opened Metadata
  import opened Order
  import opened Paths
  import opened Prelude
  import opened Scan

  /** The number of separators in a path. */
  function Depth(path: Path): nat {
    if path == [] then 0 else Depth(path[..|path| - 1]) + if path[|path| - 1] == '/' then 1 else 0
  }

  lemma {:induction false} DepthGrows(p: Path, n: nat)
    requires n <= |p|
    ensures Depth(p[..n]) <= Depth(p)
    ensures n < |p| && p[n] == '/' ==> Depth(p[..n]) < Depth(p)
    decreases |p|
  {
    if n < |p| {
      var before := p[..|p| - 1];
      assert before[..n] == p[..n];
      DepthGrows(before, n);
    } else {
      assert p[..n] == p;
    }
  }

  /** No path comes before one of its descendants. */
  ghost predicate DescendantsFirst(paths: seq<Path>) {
    forall i, j | 0 <= i < j < |paths| :: !Ancestor(paths[i], paths[j])
  }

  lemma DepthOrder(paths: seq<Path>)
    requires ByDepth(paths, (p: Path) => p)
    ensures DescendantsFirst(paths)
  {
    forall i, j | 0 <= i < j < |paths| ensures !Ancestor(paths[i], paths[j]) {
      if Ancestor(paths[i], paths[j]) {
        DepthGrows(paths[j], |paths[i]|);
      }
    }
  }

  function PathsOf(actions: seq<Action>): (paths: seq<Path>)
    ensures |paths| == |actions| && forall i | 0 <= i < |actions| :: paths[i] == actions[i].path
  {
    seq(|actions|, i requires 0 <= i < |actions| => actions[i].path)
  }

  ghost predicate ByDepth<T>(items: seq<T>, key: T -> Path) {
    forall i, j | 0 <= i < j < |items| :: Depth(key(items[i])) >= Depth(key(items[j]))
  }

  /** A stable sort by decreasing depth; `key` gives an item's path. */
  method SortByDepth<T(==)>(items: seq<T>, key: T -> Path) returns (sorted: seq<T>)
    ensures multiset(sorted) == multiset(items)
    ensures ByDepth(sorted, key)
  {
    sorted := [];
    for i := 0 to |items|
      invariant multiset(sorted) == multiset(items[..i])
      invariant ByDepth(sorted, key)
    {
      assert items[..i + 1] == items[..i] + [items[i]];
      sorted := InsertByDepth(sorted, items[i], key);
    }
    assert items[..|items|] == items;
  }

  /** After every item at least as deep. */
  method InsertByDepth<T(==)>(items: seq<T>, item: T, key: T -> Path) returns (longer: seq<T>)
    requires ByDepth(items, key)
    ensures multiset(longer) == multiset(items) + multiset{item}
    ensures ByDepth(longer, key)
  {
    var at := 0;
    while at < |items| && Depth(key(items[at])) >= Depth(key(item))
      invariant 0 <= at <= |items|
      invariant forall j | 0 <= j < at :: Depth(key(items[j])) >= Depth(key(item))
    {
      at := at + 1;
    }
    longer := items[..at] + ([item] + items[at..]);
    assert items == items[..at] + items[at..];
    InsertedByDepth(items, item, key, at);
  }

  lemma InsertedByDepth<T>(items: seq<T>, item: T, key: T -> Path, at: nat)
    requires ByDepth(items, key) && at <= |items|
    requires forall j | 0 <= j < at :: Depth(key(items[j])) >= Depth(key(item))
    requires at < |items| ==> Depth(key(items[at])) <= Depth(key(item))
    ensures ByDepth(items[..at] + ([item] + items[at..]), key)
  {
  }

  /** Both trees and both directory tables. */
  datatype Shares = Shares(tree: Tree, directories: Directories, peerTree: Tree, peerDirectories: Directories)

  function SharesOf(local: Installation, peer: Installation): Shares
    reads local, peer
  {
    Shares(local.tree, local.directories, peer.tree, peer.directories)
  }

  /** The deletion did what it can on the side that still had the directory, and that side's index agrees. */
  predicate DeletionDone(s: Shares, provider: string, action: Action) {
    action.kind.Delete? ==>
      if action.source == provider then Cleared(s.tree, action.path) && action.path !in s.directories
      else Cleared(s.peerTree, action.path) && (action.path in s.peerDirectories ==> action.path in s.peerTree)
  }

  /** At most the one path is gone, from the trees and from the tables. */
  ghost predicate Dropped(s: Shares, s': Shares, path: Path) {
    && Elsewhere(s.tree, s'.tree, {path}) && Elsewhere(s.peerTree, s'.peerTree, {path})
    && s'.directories - {path} == s.directories - {path}
    && s'.peerDirectories - {path} == s.peerDirectories - {path}
  }

  predicate SameTables(s: Shares, s': Shares, path: Path) {
    Held(s'.directories, path) == Held(s.directories, path)
        && Held(s'.peerDirectories, path) == Held(s.peerDirectories, path)
  }

  ghost predicate TablesKeptBut(s: Shares, s': Shares, actions: seq<Action>) {
    forall p | !EngineProperties.Plans(actions, p) :: SameTables(s, s', p)
  }

  lemma TablesKept(start: Shares, s: Shares, s': Shares, actions: seq<Action>, i: nat)
    requires i < |actions| && TablesKeptBut(start, s, actions) && Dropped(s, s', actions[i].path)
    ensures TablesKeptBut(start, s', actions)
  {
    var dropped := actions[i].path;
    assert EngineProperties.Plans(actions, dropped);
    forall p | !EngineProperties.Plans(actions, p) ensures SameTables(start, s', p) {
      assert Held(s'.directories - {dropped}, p) == Held(s.directories - {dropped}, p);
      assert Held(s'.peerDirectories - {dropped}, p) == Held(s.peerDirectories - {dropped}, p);
    }
  }

  /** Removing one path empties none but its ancestors. */
  lemma StillCleared(before: Tree, after: Tree, removed: Path, path: Path)
    requires Elsewhere(before, after, {removed})
    requires Cleared(before, path) && path != removed && !Ancestor(path, removed)
    ensures Cleared(after, path)
  {
  }

  lemma DonePersists(s: Shares, s': Shares, provider: string, done: Action, path: Path)
    requires DeletionDone(s, provider, done) && Dropped(s, s', path)
    requires done.path != path && !Ancestor(done.path, path)
    ensures DeletionDone(s', provider, done)
  {
    if done.kind.Delete? {
      if done.source == provider {
        StillCleared(s.tree, s'.tree, path, done.path);
        assert done.path in s'.directories ==> done.path in s'.directories - {path};
      } else {
        StillCleared(s.peerTree, s'.peerTree, path, done.path);
        assert done.path in s'.peerDirectories ==> done.path in s'.peerDirectories - {path};
      }
    }
  }

  ghost predicate AllDone(s: Shares, provider: string, actions: seq<Action>) {
    forall i | 0 <= i < |actions| :: DeletionDone(s, provider, actions[i])
  }

  lemma DoneExtends(s: Shares, s': Shares, provider: string, ordered: seq<Action>, n: nat)
    requires n < |ordered| && AllDone(s, provider, ordered[..n])
    requires DescendantsFirst(PathsOf(ordered)) && Distinct(ordered)
    requires Dropped(s, s', ordered[n].path) && DeletionDone(s', provider, ordered[n])
    ensures AllDone(s', provider, ordered[..n + 1])
  {
    var upto := ordered[..n + 1];
    forall i | 0 <= i < |upto| ensures DeletionDone(s', provider, upto[i]) {
      if i < n {
        assert ordered[..n][i] == ordered[i];
        assert !Ancestor(PathsOf(ordered)[i], PathsOf(ordered)[n]);
        DonePersists(s, s', provider, ordered[i], ordered[n].path);
      }
    }
  }

  ghost predicate Distinct(actions: seq<Action>) {
    forall i, j | 0 <= i < j < |actions| :: actions[i].path != actions[j].path
  }

  /** Deletes directories on the side that still has them, each after everything below it. */
  method DeleteDirectories(local: Installation, peer: Installation, ordered: seq<Action>) returns (o: Outcome)
    requires local != peer && DescendantsFirst(PathsOf(ordered)) && Distinct(ordered)
    modifies local`tree, local`directories, peer`tree, peer`directories
    ensures o.Done? ==> AllDone(SharesOf(local, peer), peer.fingerprint, ordered)
    ensures TablesKeptBut(old(SharesOf(local, peer)), SharesOf(local, peer), ordered)
  {
    ghost var start := SharesOf(local, peer);
    for i := 0 to |ordered|
      invariant AllDone(SharesOf(local, peer), peer.fingerprint, ordered[..i])
      invariant TablesKeptBut(start, SharesOf(local, peer), ordered)
    {
      ghost var before := SharesOf(local, peer);
      if ordered[i].kind.Delete? {
        o := DeleteOne(local, peer, ordered[i]);
        TablesKept(start, before, SharesOf(local, peer), ordered, i);
        if o.Failed? { return; }
      }
      DoneExtends(before, SharesOf(local, peer), peer.fingerprint, ordered, i);
    }
    assert ordered[..|ordered|] == ordered;
    o := Done;
  }

  method DeleteOne(local: Installation, peer: Installation, action: Action) returns (o: Outcome)
    requires local != peer && action.kind.Delete?
    modifies local`tree, local`directories, peer`tree, peer`directories
    ensures Dropped(old(SharesOf(local, peer)), SharesOf(local, peer), action.path)
    ensures o.Done? ==> DeletionDone(SharesOf(local, peer), peer.fingerprint, action)
  {
    if action.source == peer.fingerprint {
      o := local.RemoveDirectory(action.path);
      if o.Done? {
        o := local.RemoveDirectoryEntry(action.path);
      }
    } else {
      o := peer.DirectoryDeleter(action.path);
      var lost: bool := *;
      if lost { o := Failed("connection lost"); }
    }
  }

  /** A directory outlives its deletion only because of something that was not to be deleted: in a tree where every
      target is cleared, whatever target remains has a remaining descendant that is no target. */
  lemma {:induction false} SurvivorHasReason(tree: Tree, targets: set<Path>, path: Path)
    requires forall t | t in targets :: Cleared(tree, t)
    requires path in targets && path in tree
    ensures exists q | q in tree :: Ancestor(path, q) && q !in targets
    decreases set q | q in tree && |q| > |path|
  {
    var q :| q in tree && Ancestor(path, q);
    if q in targets {
      var deeper, below := set p | p in tree && |p| > |q|, set p | p in tree && |p| > |path|;
      assert deeper <= below && q in below && q !in deeper;
      SurvivorHasReason(tree, targets, q);
      var r :| r in tree && Ancestor(q, r) && r !in targets;
      assert r[..|path|] == r[..|q|][..|path|] && r[|path|] == r[..|q|][|path|];
    }
  }

  /** The manifest both sides must hold at a path: the action's source decides, otherwise what is here, otherwise
      what is there. */
  function Chosen(path: Path, actions: map<Path, Action>, provider: string, local: Directories,
                  remote: Directories): Option<Manifest> {
    if path in actions && actions[path].source == provider then Held(remote, path)
    else if path in local then Some(local[path])
    else Held(remote, path)
  }

  /** Every directory that was decided on, except deletions, and every ancestor of a file that moved. */
  function Restored(fileActions: seq<Action>, directoryActions: seq<Action>): set<Path> {
    (set a | a in directoryActions && !a.kind.Delete? :: a.path) +
    (set a, i | a in fileActions && 0 <= i < |a.path| && a.path[i] == '/' :: a.path[..i])
  }

  /** The restored directories, by what stands above a moved file. */
  lemma RestoredExactly(fileActions: seq<Action>, directoryActions: seq<Action>)
    ensures forall p :: p in Restored(fileActions, directoryActions) <==>
      || (exists a :: a in fileActions && Ancestor(p, a.path))
      || (exists a :: a in directoryActions && a.path == p && !a.kind.Delete?)
  {
    forall p, a | a in fileActions && Ancestor(p, a.path) ensures p in Restored(fileActions, directoryActions) {
      assert a.path[..|p|] == p;
    }
    forall p | p in Restored(fileActions, directoryActions)
      ensures (exists a :: a in fileActions && Ancestor(p, a.path))
        || exists a :: a in directoryActions && a.path == p && !a.kind.Delete?
    {
      if !exists a :: a in directoryActions && a.path == p && !a.kind.Delete? {
        var a, i :| a in fileActions && 0 <= i < |a.path| && a.path[i] == '/' && a.path[..i] == p;
        assert Ancestor(p, a.path);
      }
    }
  }

  /** Nothing changed at the path, in the trees or in the tables. */
  predicate Untouched(s: Shares, s': Shares, path: Path) {
    && SameTables(s, s', path)
    && (path in s'.tree <==> path in s.tree) && (path in s.tree ==> s'.tree[path] == s.tree[path])
    && (path in s'.peerTree <==> path in s.peerTree) && (path in s.peerTree ==> s'.peerTree[path] == s.peerTree[path])
  }

  predicate Removes(byPath: map<Path, Action>, path: Path) {
    path in byPath && byPath[path].kind.Delete?
  }

  /** Outside the given paths, and wherever a directory is removed, nothing changed. */
  ghost predicate OthersUntouched(s: Shares, s': Shares, paths: seq<Path>, byPath: map<Path, Action>) {
    forall p | p !in paths || Removes(byPath, p) :: Untouched(s, s', p)
  }

  lemma UntouchedStays(start: Shares, s: Shares, s': Shares, paths: seq<Path>, n: nat, byPath: map<Path, Action>)
    requires n < |paths| && OthersUntouched(start, s, paths, byPath) && OthersUntouched(s, s', [paths[n]], byPath)
    ensures OthersUntouched(start, s', paths, byPath)
  {
    forall p | p !in paths || Removes(byPath, p) ensures Untouched(start, s', p) {
      assert paths[n] in paths;
      assert Untouched(start, s, p) && Untouched(s, s', p);
    }
  }

  /** Both sides have the directory with this manifest, on disk and in the index. */
  predicate OnBoth(s: Shares, path: Path, manifest: Manifest) {
    && path in s.tree && s.tree[path] == Directory(manifest) && Held(s.directories, path) == Some(manifest)
    && path in s.peerTree && s.peerTree[path] == Directory(manifest) && Held(s.peerDirectories, path) == Some(manifest)
  }

  predicate Chose(s: Shares, path: Path, choice: Option<Manifest>) {
    choice.Some? ==> OnBoth(s, path, choice.value)
  }

  /** Each table keeps what it had at the path or takes the chosen manifest. */
  predicate KeptOrChosen(s: Shares, s': Shares, path: Path, choice: Option<Manifest>) {
    && (Held(s'.directories, path) == Held(s.directories, path)
        || (choice.Some? && Held(s'.directories, path) == choice))
    && (Held(s'.peerDirectories, path) == Held(s.peerDirectories, path)
        || (choice.Some? && Held(s'.peerDirectories, path) == choice))
  }

  ghost predicate AllKeptOrChosen(s: Shares, s': Shares, byPath: map<Path, Action>, provider: string,
                                  local: Directories, remote: Directories) {
    forall p :: KeptOrChosen(s, s', p, Chosen(p, byPath, provider, local, remote))
  }

  function ByPath(actions: seq<Action>): map<Path, Action>
    requires Distinct(actions)
  {
    map a | a in actions :: a.path := a
  }

  /** Sets the chosen manifest on both sides at every restored directory, deepest first. */
  method RestoreDirectoryMetadata(local: Installation, peer: Installation, fileActions: seq<Action>,
                                  directoryActions: seq<Action>,
                                  localDirectories: Directories, remote: Directories)
    returns (o: Outcome)
    requires local != peer && Distinct(directoryActions)
    modifies local`tree, local`directories, peer`tree, peer`directories
    ensures o.Done? ==>
      forall p | p in Restored(fileActions, directoryActions) && !Removes(ByPath(directoryActions), p) ::
      Chose(SharesOf(local, peer), p, Chosen(p, ByPath(directoryActions), peer.fingerprint, localDirectories, remote))
    ensures AllDone(old(SharesOf(local, peer)), peer.fingerprint, directoryActions) ==>
      AllDone(SharesOf(local, peer), peer.fingerprint, directoryActions)
    ensures AllKeptOrChosen(old(SharesOf(local, peer)), SharesOf(local, peer), ByPath(directoryActions),
        peer.fingerprint, localDirectories, remote)
    ensures o.Done? ==>
      forall p | !Removes(ByPath(directoryActions), p)
          && ((exists a :: a in fileActions && Ancestor(p, a.path))
              || exists a :: a in directoryActions && a.path == p) ::
        Chose(SharesOf(local, peer), p, Chosen(p, ByPath(directoryActions), peer.fingerprint, localDirectories, remote))
    ensures forall p | (forall a | a in fileActions :: !Ancestor(p, a.path))
          && (forall a | a in directoryActions && !a.kind.Delete? :: a.path != p) ::
      Untouched(old(SharesOf(local, peer)), SharesOf(local, peer), p)
  {
    RestoredExactly(fileActions, directoryActions);
    var byPath := ByPath(directoryActions);
    var ordered := DeepestFirst(Restored(fileActions, directoryActions));
    ghost var before := SharesOf(local, peer);
    o := RestoreAll(local, peer, ordered, byPath, localDirectories, remote);
    DoneRestored(before, SharesOf(local, peer), peer.fingerprint, directoryActions);
  }

  method DeepestFirst(paths: set<Path>) returns (ordered: seq<Path>)
    ensures forall p :: p in ordered <==> p in paths
    ensures DescendantsFirst(ordered)
  {
    var unordered := Sort(paths);
    ordered := SortByDepth(unordered, (p: Path) => p);
    forall p ensures p in ordered <==> p in paths {
      assert p in ordered <==> p in multiset(ordered);
      assert p in unordered <==> p in multiset(unordered);
    }
    DepthOrder(ordered);
  }

  /** Nothing at a removed path changed, and nothing disappeared. */
  ghost predicate Grown(s: Shares, s': Shares, byPath: map<Path, Action>) {
    && s.tree.Keys <= s'.tree.Keys && s.peerTree.Keys <= s'.peerTree.Keys
    && forall p | Removes(byPath, p) ::
        && (p in s'.tree <==> p in s.tree) && (p in s'.peerTree <==> p in s.peerTree)
        && (p in s'.directories <==> p in s.directories) && (p in s'.peerDirectories <==> p in s.peerDirectories)
  }

  lemma DoneRestored(s: Shares, s': Shares, provider: string, actions: seq<Action>)
    requires Distinct(actions) && Grown(s, s', ByPath(actions))
    ensures AllDone(s, provider, actions) ==> AllDone(s', provider, actions)
  {
  }

  /** Deepest first, so that writing below a directory never follows the setting of its manifest. */
  method RestoreAll(local: Installation, peer: Installation, ordered: seq<Path>, byPath: map<Path, Action>,
                    localDirectories: Directories, remote: Directories)
    returns (o: Outcome)
    requires local != peer && DescendantsFirst(ordered)
    modifies local`tree, local`directories, peer`tree, peer`directories
    ensures o.Done? ==> forall p | p in ordered && !Removes(byPath, p) ::
      Chose(SharesOf(local, peer), p, Chosen(p, byPath, peer.fingerprint, localDirectories, remote))
    ensures Grown(old(SharesOf(local, peer)), SharesOf(local, peer), byPath)
    ensures AllKeptOrChosen(old(SharesOf(local, peer)), SharesOf(local, peer), byPath, peer.fingerprint,
        localDirectories, remote)
    ensures OthersUntouched(old(SharesOf(local, peer)), SharesOf(local, peer), ordered, byPath)
  {
    ghost var start, f := SharesOf(local, peer), peer.fingerprint;
    for i := 0 to |ordered|
      invariant RestoredSoFar(start, SharesOf(local, peer), ordered[..i], byPath, f, localDirectories, remote)
      invariant OthersUntouched(start, SharesOf(local, peer), ordered, byPath)
    {
      o := RestoreNext(local, peer, ordered, i, byPath, localDirectories, remote, start);
      if o.Failed? { return; }
    }
    assert ordered[..|ordered|] == ordered;
    o := Done;
  }

  /** One directory: nothing if it is being removed or nobody has a manifest for it. */
  method RestoreNext(local: Installation, peer: Installation, ordered: seq<Path>, n: nat, byPath: map<Path, Action>,
                     localDirectories: Directories, remote: Directories, ghost start: Shares)
    returns (o: Outcome)
    requires local != peer && n < |ordered|
    requires RestoredSoFar(start, SharesOf(local, peer), ordered[..n], byPath, peer.fingerprint, localDirectories,
        remote)
    requires OthersUntouched(start, SharesOf(local, peer), ordered, byPath)
    modifies local`tree, local`directories, peer`tree, peer`directories
    ensures o.Done? ==>
      RestoredSoFar(start, SharesOf(local, peer), ordered[..n + 1], byPath, peer.fingerprint, localDirectories, remote)
    ensures Grown(start, SharesOf(local, peer), byPath)
    ensures AllKeptOrChosen(start, SharesOf(local, peer), byPath, peer.fingerprint, localDirectories, remote)
    ensures OthersUntouched(start, SharesOf(local, peer), ordered, byPath)
  {
    var path := ordered[n];
    ghost var f, before := peer.fingerprint, SharesOf(local, peer);
    var manifest := if Removes(byPath, path) then None
        else Chosen(path, byPath, peer.fingerprint, localDirectories, remote);
    o := Done;
    if manifest.Some? {
      o := SetDirectory(local, peer, path, manifest.value);
      SetOne(start, before, SharesOf(local, peer), path, byPath, f, localDirectories, remote);
      UntouchedStays(start, before, SharesOf(local, peer), ordered, n, byPath);
    }
    if o.Done? {
      RestoredNext(start, before, SharesOf(local, peer), ordered, n, byPath, f, localDirectories, remote);
    }
  }

  /** The first paths have their manifests, nothing has disappeared, and the tables hold what they did or what was
      chosen. */
  ghost predicate RestoredSoFar(start: Shares, s: Shares, done: seq<Path>, byPath: map<Path, Action>, provider: string,
                                local: Directories, remote: Directories)
  {
    && (forall p | p in done && !Removes(byPath, p) :: Chose(s, p, Chosen(p, byPath, provider, local, remote)))
    && Grown(start, s, byPath)
    && AllKeptOrChosen(start, s, byPath, provider, local, remote)
  }

  lemma RestoredNext(start: Shares, s: Shares, s': Shares, ordered: seq<Path>, n: nat, byPath: map<Path, Action>,
                     provider: string,
                     local: Directories, remote: Directories)
    requires n < |ordered| && RestoredSoFar(start, s, ordered[..n], byPath, provider, local, remote)
    requires s' == s || (Grown(s, s', byPath) && AllKeptOrChosen(start, s', byPath, provider, local, remote))
    requires !Removes(byPath, ordered[n]) ==> Chose(s', ordered[n], Chosen(ordered[n], byPath, provider, local, remote))
    requires forall p, m | p != ordered[n] && OnBoth(s, p, m) :: OnBoth(s', p, m)
    ensures RestoredSoFar(start, s', ordered[..n + 1], byPath, provider, local, remote)
  {
    forall p | p in ordered[..n + 1] && !Removes(byPath, p)
      ensures Chose(s', p, Chosen(p, byPath, provider, local, remote))
    {
      if p != ordered[n] {
        assert p in ordered[..n];
        assert Chose(s, p, Chosen(p, byPath, provider, local, remote));
      }
    }
  }

  lemma SetOne(start: Shares, s: Shares, s': Shares, path: Path, byPath: map<Path, Action>, provider: string,
               local: Directories, remote: Directories)
    requires AllKeptOrChosen(start, s, byPath, provider, local, remote)
    requires forall p | p != path :: Untouched(s, s', p)
    requires KeptOrChosen(s, s', path, Chosen(path, byPath, provider, local, remote))
    ensures AllKeptOrChosen(start, s', byPath, provider, local, remote)
  {
    forall p ensures KeptOrChosen(start, s', p, Chosen(p, byPath, provider, local, remote)) {
      assert KeptOrChosen(start, s, p, Chosen(p, byPath, provider, local, remote));
      assert p != path ==> Untouched(s, s', p);
    }
  }

  method SetDirectory(local: Installation, peer: Installation, path: Path, manifest: Manifest) returns (o: Outcome)
    requires local != peer
    modifies local`tree, local`directories, peer`tree, peer`directories
    ensures o.Done? ==> OnBoth(SharesOf(local, peer), path, manifest)
    ensures forall p, m | p != path && old(OnBoth(SharesOf(local, peer), p, m)) :: OnBoth(SharesOf(local, peer), p, m)
    ensures forall p | p != path :: Untouched(old(SharesOf(local, peer)), SharesOf(local, peer), p)
    ensures KeptOrChosen(old(SharesOf(local, peer)), SharesOf(local, peer), path, Some(manifest))
    ensures forall byPath | !Removes(byPath, path) :: Grown(old(SharesOf(local, peer)), SharesOf(local, peer), byPath)
  {
    o := local.DirectoryWriter(path, manifest);
    if o.Done? {
      o := peer.DirectoryWriter(path, manifest);
    }
  }

  /** What is restored for a planned action is exactly what the three-way decision installs. */
  lemma ChosenIsInstalled(path: Path, local: string, left: Directories, provider: string, right: Directories,
                          previous: Directories)
    requires local != provider
    requires DecideDirectory(path, local, Held(left, path), provider, Held(right, path), Held(previous, path)).Some?
    ensures var a := DecideDirectory(path, local, Held(left, path), provider, Held(right, path),
        Held(previous, path)).value;
      !a.kind.Delete? ==>
        forall byPath | path in byPath && byPath[path] == a ::
          && Chosen(path, byPath, provider, left, right) ==
              EngineProperties.Installed(a, local, Held(left, path), Held(right, path))
          && Chosen(path, byPath, provider, left, right).Some?
  {
  }
}

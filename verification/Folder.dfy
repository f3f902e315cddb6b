/** One whole cycle of the initiator for one folder. */
module FolderCycle {
  import opened Cycle
  import opened DirectoryExecution
  import opened Engine
  import EngineProperties
  import opened Index
  import opened Installations
  import opened Metadata
  import opened Order
  import PathProtocol
  import opened Paths
  import opened Prelude
  import opened Scan
  import opened Sequences
  import Vectors

  /** Wherever the indexes satisfied the protocol's invariant between cycles, they do so after. */
  ghost predicate KeepsFit(f: string, g: string, before: Pair, after: Pair) {
    forall p | Fits(f, g, before.local, before.peer, p, PathProtocol.Idle) ::
      Fits(f, g, after.local, after.peer, p, PathProtocol.Idle)
  }

  function SpotAt(tree: Tree, ignores: Ignores, path: Path): PathProtocol.Spot {
    PathProtocol.Spot(SeenAt(tree, ignores, path), false, ignores(path, false))
  }

  ghost predicate ScannedBy(side: Installation, before: Entries, after: Entries, now: int)
    reads side`tree
  {
    Scanned(before, side.tree, side.ignores, side.fingerprint, now, after)
  }

  /** Wherever the invariant held, both scans together put the cycle at the start of its plan, and the first alone keeps
      the invariant. */
  lemma ScansFit(local: Installation, peer: Installation, a: Entries, b: Entries, a': Entries, b': Entries, now: int,
                 later: int)
    requires ScannedBy(local, a, a', now)
    ensures forall p | Fits(local.fingerprint, peer.fingerprint, a, b, p, PathProtocol.Idle) ::
      && Fits(local.fingerprint, peer.fingerprint, a', b, p, PathProtocol.Idle)
      && (ScannedBy(peer, b, b', later) ==>
            && Fits(local.fingerprint, peer.fingerprint, a', b', p, PathProtocol.Idle)
            && StartsAt(local.fingerprint, peer.fingerprint, a', b', p))
  {
    var f, g := local.fingerprint, peer.fingerprint;
    forall p | Fits(f, g, a, b, p, PathProtocol.Idle)
      ensures Fits(f, g, a', b, p, PathProtocol.Idle)
      ensures ScannedBy(peer, b, b', later) ==> Fits(f, g, a', b', p, PathProtocol.Idle) && StartsAt(f, g, a', b', p)
    {
      PlannedAfterScans(PathProtocol.Link(f, g, p), EntryAt(a, p), EntryAt(b, p), SpotAt(local.tree, local.ignores, p),
                        SpotAt(peer.tree, peer.ignores, p), now, later);
    }
  }

  function StartPhase(f: string, g: string, a: Entries, b: Entries, path: Path): PathProtocol.Phase {
    var remote := PathProtocol.ListedOption(EntryAt(b, path));
    PathProtocol.Planned(EntryAt(a, path), remote,
      if PathProtocol.ActionFor(PathProtocol.Link(f, g, path), EntryAt(a, path), remote).Some? then PathProtocol.Waiting
      else PathProtocol.Settled)
  }

  ghost predicate StartsAt(f: string, g: string, a: Entries, b: Entries, path: Path) {
    Fits(f, g, a, b, path, StartPhase(f, g, a, b, path))
  }

  /** The planner's actions are exactly those the protocol waits for. */
  lemma PlanIsUnderway(f: string, g: string, a: Entries, b: Entries, remote: Entries, actions: seq<Action>)
    requires remote == ListedEntries(b)
    requires actions == PlanFiles(Enumerate(a.Keys + remote.Keys), f, a, g, remote)
    ensures EngineProperties.Increasing(actions)
    ensures forall x | x in actions ::
      PathProtocol.ActionFor(PathProtocol.Link(f, g, x.path), EntryAt(a, x.path), EntryAt(remote, x.path)) == Some(x)
    ensures forall p | StartsAt(f, g, a, b, p) :: Underway(f, g, a, b, actions, a, remote, p)
  {
    EngineProperties.PlanFilesExact(Enumerate(a.Keys + remote.Keys), f, a, g, remote);
    EngineProperties.DivergedIsKnown(a, remote);
    forall p | StartsAt(f, g, a, b, p) ensures Underway(f, g, a, b, actions, a, remote, p) {
      assert Awaits(actions, p) <==> EngineProperties.Plans(actions, p);
      EngineProperties.DecidesDivergence(p, f, a, g, remote);
      assert EntryAt(remote, p) == PathProtocol.ListedOption(EntryAt(b, p));
    }
  }

  lemma DistinctPermuted(s: seq<Action>, t: seq<Action>)
    requires multiset(s) == multiset(t) && Distinct(s)
    ensures Distinct(t) && forall a :: a in t <==> a in s
  {
    forall a ensures a in t <==> a in s {
      assert a in t <==> a in multiset(t);
      assert a in s <==> a in multiset(s);
    }
    forall i, j | 0 <= i < j < |t| ensures t[i].path != t[j].path {
      assert t[i] in s && t[j] in s;
      var x :| 0 <= x < |s| && s[x] == t[i];
      var y :| 0 <= y < |s| && s[y] == t[j];
      if t[i] == t[j] {
        CountsTwice(t, i, j);
        CountsOnce(s, x);
      }
    }
  }

  lemma IncreasingDistinct(s: seq<Action>)
    requires EngineProperties.Increasing(s)
    ensures Distinct(s)
  {
    forall i, j | 0 <= i < j < |s| ensures s[i].path != s[j].path {
      LessIrreflexive(s[i].path);
    }
  }

  /** The path stands above a file that the plan acts on. */
  ghost predicate AboveMoved(left: Side, right: Side, path: Path) {
    exists a :: a in FilePlan(left, right) && Ancestor(path, a.path)
  }

  /** What a completed cycle leaves of the directory at a path, given both tables after their scans and the table
      before. Above a file that was acted on, both sides have its manifest on disk again. */
  ghost predicate DirectoryReconciled(s: Shares, left: Side, right: Side, previous: Directories, path: Path) {
    match EngineProperties.DirectoryDecision(path, left, right, previous)
    case None =>
      && Held(s.directories, path) == Held(left.directories, path) == Held(s.peerDirectories, path)
      && (path in left.directories && AboveMoved(left, right, path) ==> OnBoth(s, path, left.directories[path]))
    case Some(a) =>
      if a.kind.Delete? then DeletionDone(s, right.name, a)
      else
        var m := EngineProperties.Installed(a, left.name, Held(left.directories, path), Held(right.directories, path));
        m.Some? && OnBoth(s, path, m.value)
  }

  ghost predicate DirectoriesReconciled(s: Shares, left: Side, right: Side, previous: Directories) {
    forall p :: DirectoryReconciled(s, left, right, previous, p)
  }

  /** Executes the directory half of a plan. */
  method ReconcileDirectories(local: Installation, peer: Installation, plan: Plan, ghost left: Side, right: Side,
                              ghost previous: Directories)
    returns (o: Outcome)
    requires local != peer && left.name == local.fingerprint != peer.fingerprint == right.name
    requires local.directories == left.directories && peer.directories == right.directories
    requires plan.directoryActions == DirectoryPlan(left, right, previous) && plan.actions == FilePlan(left, right)
    modifies local`tree, local`directories, peer`tree, peer`directories
    ensures o.Done? ==> DirectoriesReconciled(SharesOf(local, peer), left, right, previous)
  {
    var localDirectories := local.directories;
    ghost var keys := left.directories.Keys + right.directories.Keys + previous.Keys;
    EngineProperties.PlanDirectoriesExact(Enumerate(keys), left, right, previous);
    var ordered := SortByDepth(plan.directoryActions, (a: Action) => a.path);
    IncreasingDistinct(plan.directoryActions);
    DistinctPermuted(plan.directoryActions, ordered);
    ActionsDepthOrder(ordered);
    ghost var start := SharesOf(local, peer);
    o := DeleteDirectories(local, peer, ordered);
    if o.Failed? { return; }
    ghost var middle := SharesOf(local, peer);
    o := RestoreDirectoryMetadata(local, peer, plan.actions, ordered, localDirectories, right.directories);
    if o.Done? {
      forall p ensures DirectoryReconciled(SharesOf(local, peer), left, right, previous, p) {
        PlannedDirectory(left, right, previous, ordered, p);
        RestoredExactly(plan.actions, ordered);
        DirectoryIsReconciled(start, middle, SharesOf(local, peer), left, right, previous, ordered, p);
      }
    }
  }

  lemma ActionsDepthOrder(ordered: seq<Action>)
    requires ByDepth(ordered, (a: Action) => a.path)
    ensures DescendantsFirst(PathsOf(ordered))
  {
    var paths := PathsOf(ordered);
    forall i, j | 0 <= i < j < |paths| ensures Depth(paths[i]) >= Depth(paths[j]) {
      assert paths[i] == ordered[i].path && paths[j] == ordered[j].path;
    }
    assert ByDepth(paths, (p: Path) => p);
    DepthOrder(paths);
  }

  /** Whatever order they are executed in, the directory actions are the decisions. */
  ghost predicate Decides(ordered: seq<Action>, path: Path, decision: Option<Action>) {
    && (decision.None? ==> !EngineProperties.Plans(ordered, path))
    && (decision.Some? ==> decision.value in ordered && decision.value.path == path)
  }

  lemma PlannedDirectory(left: Side, right: Side, previous: Directories, ordered: seq<Action>, path: Path)
    requires forall a :: a in ordered <==> a in DirectoryPlan(left, right, previous)
    ensures Decides(ordered, path, EngineProperties.DirectoryDecision(path, left, right, previous))
  {
    var keys := left.directories.Keys + right.directories.Keys + previous.Keys;
    var actions := DirectoryPlan(left, right, previous);
    var decision := EngineProperties.DirectoryDecision(path, left, right, previous);
    EngineProperties.PlanDirectoriesExact(Enumerate(keys), left, right, previous);
    if EngineProperties.Plans(ordered, path) {
      var i :| 0 <= i < |ordered| && ordered[i].path == path;
      assert ordered[i] in actions;
    }
    if decision.Some? {
      assert path in keys;
      assert EngineProperties.Plans(actions, path);
      var i :| 0 <= i < |actions| && actions[i].path == path;
      assert actions[i] in actions;
    }
  }

  lemma DirectoryIsReconciled(start: Shares, middle: Shares, end: Shares, left: Side, right: Side,
                              previous: Directories, ordered: seq<Action>, path: Path)
    requires left.name != right.name && Distinct(ordered)
    requires Decides(ordered, path, EngineProperties.DirectoryDecision(path, left, right, previous))
    requires start.directories == left.directories && start.peerDirectories == right.directories
    requires TablesKeptBut(start, middle, ordered)
    requires AllDone(end, right.name, ordered)
    requires KeptOrChosen(middle, end, path,
        Chosen(path, ByPath(ordered), right.name, left.directories, right.directories))
    requires AboveMoved(left, right, path) || EngineProperties.Plans(ordered, path) ==>
      !Removes(ByPath(ordered), path) ==>
      Chose(end, path, Chosen(path, ByPath(ordered), right.name, left.directories, right.directories))
    ensures DirectoryReconciled(end, left, right, previous, path)
  {
    var d := EngineProperties.DirectoryDecision(path, left, right, previous);
    EngineProperties.DirectoryThreeWay(path, left.name, Held(left.directories, path), right.name,
                                       Held(right.directories, path), Held(previous, path));
    if d.None? {
      assert SameTables(start, middle, path);
      assert path !in ByPath(ordered);
    } else if d.value.kind.Delete? {
      var i :| 0 <= i < |ordered| && ordered[i] == d.value;
      assert DeletionDone(end, right.name, ordered[i]);
    } else {
      assert path in ByPath(ordered) && ByPath(ordered)[path] == d.value;
      ChosenIsInstalled(path, left.name, left.directories, right.name, right.directories, previous);
    }
  }

  /** A plan is ready to run: its actions are the decisions at their paths, in order. */
  ghost predicate Ready(local: Installation, peer: Installation, mine: Side, remote: Side, actions: seq<Action>)
    reads local, peer
  {
    && mine == Side(local.fingerprint, local.entries, local.directories)
    && remote == Side(peer.fingerprint, ListedEntries(peer.entries), peer.directories)
    && EngineProperties.Increasing(actions)
    && (forall x | x in actions :: Decided(local, peer, x, mine.entries, remote.entries))
    && actions == FilePlan(mine, remote)
  }

  /** Wherever the invariant held, the actions wait at their paths and every other path is settled. */
  ghost predicate SetsOut(f: string, g: string, before: Pair, after: Pair, actions: seq<Action>, mine: Entries,
                          remote: Entries) {
    forall p | Fits(f, g, before.local, before.peer, p, PathProtocol.Idle) ::
      Underway(f, g, after.local, after.peer, actions, mine, remote, p)
  }

  /** One version is strictly ahead of the other. */
  predicate Ordered(u: Vectors.Vector, v: Vectors.Vector) {
    Vectors.Compare(u, v).Greater? || Vectors.Compare(u, v).Lesser?
  }

  /** Neither tree has a file at the path, neither index lists it live, and yet one side's tombstone is ahead of what
      the other side knows. */
  ghost predicate Wedged(pair: Pair, path: Path) {
    && path !in pair.localTree && path !in pair.peerTree
    && !Live(pair.local, path) && !Live(pair.peer, path)
    && Ordered(Lookup(pair.local, path).version, Lookup(pair.peer, path).version)
    && !SomeConflictName(path)
  }

  ghost predicate StillWedged(before: Pair, after: Pair) {
    forall p | Wedged(before, p) :: Wedged(after, p)
  }

  /** Scans find nothing to change at a wedged path. */
  lemma ScansKeepWedges(local: Installation, peer: Installation, before: Pair, after: Pair, now: int, later: int)
    requires before.localTree == after.localTree == local.tree && before.peerTree == after.peerTree == peer.tree
    requires after.local == before.local || ScannedBy(local, before.local, after.local, now)
    requires after.peer == before.peer || ScannedBy(peer, before.peer, after.peer, later)
    ensures StillWedged(before, after)
  {
    forall p | Wedged(before, p) ensures Wedged(after, p) {
      assert SeenAt(local.tree, local.ignores, p).None? && SeenAt(peer.tree, peer.ignores, p).None?;
      assert EntryAt(after.local, p) == EntryAt(before.local, p) && EntryAt(after.peer, p) == EntryAt(before.peer, p);
      EntryDecides(before.local, after.local, p);
      EntryDecides(before.peer, after.peer, p);
    }
  }

  lemma EntryDecides(before: Entries, after: Entries, path: Path)
    requires EntryAt(after, path) == EntryAt(before, path)
    ensures Lookup(after, path) == Lookup(before, path) && (Live(after, path) <==> Live(before, path))
  {
  }

  /** Both sides as they stand after their scans, and wherever the invariant held the plan can start. */
  ghost predicate Surveyed(local: Installation, peer: Installation, before: Pair, mine: Side, remote: Side)
    reads local, peer
  {
    && mine == Side(local.fingerprint, local.entries, local.directories)
    && remote == Side(peer.fingerprint, ListedEntries(peer.entries), peer.directories)
    && forall p | Fits(local.fingerprint, peer.fingerprint, before.local, before.peer, p, PathProtocol.Idle) ::
         StartsAt(local.fingerprint, peer.fingerprint, local.entries, peer.entries, p)
  }

  /** Scans here, then has the peer scan and list. */
  method Survey(local: Installation, peer: Installation, now: int, later: int) returns (r: Result<(Side, Side)>)
    requires local != peer
    modifies local`entries, local`directories, local`acknowledged, peer`entries, peer`directories, peer`acknowledged
    ensures KeepsFit(local.fingerprint, peer.fingerprint, old(PairOf(local, peer)), PairOf(local, peer))
    ensures r.Ok? ==> Surveyed(local, peer, old(PairOf(local, peer)), r.value.0, r.value.1)
    ensures StillWedged(old(PairOf(local, peer)), PairOf(local, peer))
  {
    ghost var before := PairOf(local, peer);
    var o := local.ScanShare(now);
    if o.Failed? {
      ScansKeepWedges(local, peer, before, PairOf(local, peer), now, later);
      return Err(o.reason);
    }
    ghost var a' := local.entries;
    var listing := ListFiles(peer, later);
    ScansFit(local, peer, before.local, before.peer, a', peer.entries, now, later);
    ScansKeepWedges(local, peer, before, PairOf(local, peer), now, later);
    if listing.Err? {
      return Err(listing.reason);
    }
    r := Ok((Side(local.fingerprint, local.entries, local.directories), listing.value));
  }

  /** The first half of a cycle: both scans, the listing and the plan. */
  method Prepare(local: Installation, peer: Installation, now: int, later: int) returns (r: Result<(Plan, Side, Side)>)
    requires local != peer
    modifies local`entries, local`directories, local`acknowledged, peer`entries, peer`directories, peer`acknowledged
    ensures KeepsFit(local.fingerprint, peer.fingerprint, old(PairOf(local, peer)), PairOf(local, peer))
    ensures r.Ok? ==> Ready(local, peer, r.value.1, r.value.2, r.value.0.actions)
    ensures r.Ok? ==> SetsOut(local.fingerprint, peer.fingerprint, old(PairOf(local, peer)), PairOf(local, peer),
                              r.value.0.actions, r.value.1.entries, r.value.2.entries)
    ensures r.Ok? ==> r.value.0.directoryActions == DirectoryPlan(r.value.1, r.value.2, old(local.directories))
    ensures StillWedged(old(PairOf(local, peer)), PairOf(local, peer))
  {
    var previous := local.directories;
    ghost var before := PairOf(local, peer);
    var survey := Survey(local, peer, now, later);
    if survey.Err? {
      return Err(survey.reason);
    }
    var (mine, remote) := survey.value;
    var plan := PlanStates(mine, remote, previous);
    if plan.halted {
      return Err("halted");
    }
    PlanIsReady(local, peer, before, mine, remote, previous, plan);
    r := Ok((plan, mine, remote));
  }

  lemma PlanIsReady(local: Installation, peer: Installation, before: Pair, mine: Side, remote: Side,
                    previous: Directories, plan: Plan)
    requires Surveyed(local, peer, before, mine, remote) && plan == PlanOf(mine, remote, previous) && !plan.halted
    ensures Ready(local, peer, mine, remote, plan.actions)
    ensures SetsOut(local.fingerprint, peer.fingerprint, before, PairOf(local, peer), plan.actions, mine.entries,
                    remote.entries)
    ensures plan.directoryActions == DirectoryPlan(mine, remote, previous)
  {
    PlanIsUnderway(local.fingerprint, peer.fingerprint, local.entries, peer.entries, remote.entries, plan.actions);
  }

  predicate DeletesAt(actions: seq<Action>, k: int, path: Path) {
    0 <= k < |actions| && actions[k].path == path && actions[k].kind.Delete?
  }

  function DecisionAt(mine: Side, remote: Side, path: Path): Option<Action> {
    Decide(path, mine.name, Lookup(mine.entries, path), remote.name, Lookup(remote.entries, path))
  }

  predicate ActsAt(actions: seq<Action>, k: int, path: Path) {
    0 <= k < |actions| && actions[k].path == path
  }

  /** What the plan does at a path is the decision there. */
  lemma PlannedDecision(mine: Side, remote: Side, path: Path)
    ensures forall k | ActsAt(FilePlan(mine, remote), k, path) ::
      DecisionAt(mine, remote, path) == Some(FilePlan(mine, remote)[k])
    ensures DecisionAt(mine, remote, path).Some? ==> exists k :: ActsAt(FilePlan(mine, remote), k, path)
  {
    var keys, actions := mine.entries.Keys + remote.entries.Keys, FilePlan(mine, remote);
    EngineProperties.PlanFilesExact(Enumerate(keys), mine.name, mine.entries, remote.name, remote.entries);
    forall k | ActsAt(actions, k, path) ensures DecisionAt(mine, remote, path) == Some(actions[k]) {
      assert actions[k] in actions;
    }
    if DecisionAt(mine, remote, path).Some? {
      assert EngineProperties.Diverged(path, mine.entries, remote.entries);
      assert EngineProperties.Plans(actions, path);
      var k :| 0 <= k < |actions| && actions[k].path == path;
      assert ActsAt(actions, k, path);
    }
  }

  /** Between two entries that are not live the decision is a deletion exactly when one version is ahead. */
  lemma DecidesDeletion(path: Path, leftName: string, left: Entry, rightName: string, right: Entry)
    requires left.deleted || Vectors.Zero(left.version)
    requires right.deleted || Vectors.Zero(right.version)
    ensures var d := Decide(path, leftName, left, rightName, right);
      && (d.Some? && d.value.kind.Delete? <==> Ordered(left.version, right.version))
      && (d.Some? && d.value.kind.Delete? ==>
            d.value.source == if Vectors.Compare(left.version, right.version).Greater? then leftName else rightName)
  {
  }

  /** Where neither index lists the path live, the plan deletes it exactly when one side is strictly ahead, and has the
      other side do it, whatever the trees hold. */
  lemma DeletionPlanned(mine: Side, remote: Side, path: Path)
    requires !Live(mine.entries, path) && !Live(remote.entries, path)
    ensures var u, v := Lookup(mine.entries, path).version, Lookup(remote.entries, path).version;
      && ((exists k :: DeletesAt(FilePlan(mine, remote), k, path)) <==> Ordered(u, v))
      && forall k | DeletesAt(FilePlan(mine, remote), k, path) ::
           FilePlan(mine, remote)[k].source == if Vectors.Compare(u, v).Greater? then mine.name else remote.name
  {
    var actions := FilePlan(mine, remote);
    PlannedDecision(mine, remote, path);
    DecidesDeletion(path, mine.name, Lookup(mine.entries, path), remote.name, Lookup(remote.entries, path));
    forall k | DeletesAt(actions, k, path) ensures DecisionAt(mine, remote, path) == Some(actions[k]) {
      assert ActsAt(actions, k, path);
    }
    if Ordered(Lookup(mine.entries, path).version, Lookup(remote.entries, path).version) {
      var k :| ActsAt(actions, k, path);
      assert DeletesAt(actions, k, path);
    }
  }

  /** The second half: the file actions, in order. */
  method ExecuteFiles(local: Installation, peer: Installation, actions: seq<Action>, mine: Side, remote: Side, now: int,
                      format: int -> string)
    returns (o: Outcome)
    requires local != peer && |peer.fingerprint| >= FINGERPRINT_PREFIX && Less(local.fingerprint, peer.fingerprint)
    requires Ready(local, peer, mine, remote, actions)
    modifies local`tree, local`entries, peer`tree, peer`entries
    ensures Executed(local.fingerprint, peer.fingerprint, old(PairOf(local, peer)), PairOf(local, peer), o, actions,
                     mine.entries, remote.entries)
    ensures forall p | Wedged(old(PairOf(local, peer)), p) :: o.Failed? && Wedged(PairOf(local, peer), p)
  {
    ghost var before := PairOf(local, peer);
    o := ExecutePlan(local, peer, actions, mine.entries, remote.entries, now, format);
    forall p | Wedged(before, p) ensures o.Failed? && Wedged(PairOf(local, peer), p) {
      var k := WedgeIsStuck(mine, remote, before, p);
      WedgeStays(before, PairOf(local, peer), p);
    }
  }

  /** The plan's deletion at a wedged path has nothing to delete. */
  lemma WedgeIsStuck(mine: Side, remote: Side, pair: Pair, path: Path) returns (k: nat)
    requires Wedged(pair, path) && pair.local == mine.entries && remote.entries == ListedEntries(pair.peer)
    ensures Stuck(pair, FilePlan(mine, remote), remote.name, k) && FilePlan(mine, remote)[k].path == path
  {
    ListedKeeps(pair.peer, path);
    DeletionPlanned(mine, remote, path);
    k :| DeletesAt(FilePlan(mine, remote), k, path);
  }

  lemma ListedKeeps(entries: Entries, path: Path)
    ensures Lookup(ListedEntries(entries), path).version == Lookup(entries, path).version
    ensures Live(ListedEntries(entries), path) <==> Live(entries, path)
  {
  }

  lemma WedgeStays(before: Pair, after: Pair, path: Path)
    requires Wedged(before, path) && SameAround(before, after, path)
    ensures Wedged(after, path)
  {
    EntryDecides(before.local, after.local, path);
    EntryDecides(before.peer, after.peer, path);
  }

  /** One cycle: scan, list the peer, plan, execute, acknowledge. It stops at the first failure, and then the invariant
      still holds wherever it held; if it completes, both indexes hold the same content at every such path, both sides
      agree on every directory, and unless an acknowledgement was lost no tombstone remains. Whatever the indexes hold
      elsewhere, no cycle completes while a path is wedged: the deletion has nothing to delete, and the next cycle
      finds the same. */
  method PlanFolder(local: Installation, peer: Installation, now: int, later: int, format: int -> string)
    returns (o: Outcome, pruning: Pruning, ghost left: Side, ghost right: Side)
    requires local != peer && |peer.fingerprint| >= FINGERPRINT_PREFIX && Less(local.fingerprint, peer.fingerprint)
    modifies local, peer
    ensures o.Failed? ==>
      KeepsFit(local.fingerprint, peer.fingerprint, old(PairOf(local, peer)), PairOf(local, peer))
    ensures o.Done? ==>
      forall p |
          Fits(local.fingerprint, peer.fingerprint, old(local.entries), old(peer.entries), p, PathProtocol.Idle) ::
        ReconciledAt(local.fingerprint, peer.fingerprint, local.entries, peer.entries, pruning, p)
    ensures o.Done? ==> DirectoriesReconciled(SharesOf(local, peer), left, right, old(local.directories))
    ensures forall p | Wedged(old(PairOf(local, peer)), p) :: o.Failed? && Wedged(PairOf(local, peer), p)
  {
    left, right := Side("", map[], map[]), Side("", map[], map[]);
    pruning := Neither;
    ghost var f, g, before := local.fingerprint, peer.fingerprint, PairOf(local, peer);
    var prepared := Prepare(local, peer, now, later);
    if prepared.Err? {
      o := Failed(prepared.reason);
      return;
    }
    var (plan, mine, remote) := prepared.value;
    left, right := mine, remote;
    ghost var planned := PairOf(local, peer);
    o := ExecuteFiles(local, peer, plan.actions, mine, remote, later, format);
    ghost var executed := PairOf(local, peer);
    RunsThrough(f, g, before, planned, executed, o, plan.actions, mine.entries, remote.entries);
    if o.Failed? { return; }
    LessIrreflexive(local.fingerprint);
    o := ReconcileDirectories(local, peer, plan, left, remote, old(local.directories));
    if o.Failed? { return; }
    ghost var shares := SharesOf(local, peer);
    pruning := AcknowledgeCycle(local, peer, mine.entries, remote.entries);
    assert SharesOf(local, peer) == shares;
  }

  /** Runs the cycle if this installation is elected; the other one refuses and changes nothing. */
  method RunInitiatorFolderCycle(local: Installation, peer: Installation, now: int, later: int, format: int -> string)
    returns (o: Outcome, pruning: Pruning, ghost left: Side, ghost right: Side)
    requires local != peer && |peer.fingerprint| >= FINGERPRINT_PREFIX
    modifies local, peer
    ensures LocalInitiatesCycle(local.fingerprint, peer.fingerprint) != Ok(true) ==>
      o.Failed? && PairOf(local, peer) == old(PairOf(local, peer))
    ensures o.Failed? ==>
      KeepsFit(local.fingerprint, peer.fingerprint, old(PairOf(local, peer)), PairOf(local, peer))
    ensures o.Done? ==>
      forall p |
          Fits(local.fingerprint, peer.fingerprint, old(local.entries), old(peer.entries), p, PathProtocol.Idle) ::
        ReconciledAt(local.fingerprint, peer.fingerprint, local.entries, peer.entries, pruning, p)
    ensures o.Done? ==> DirectoriesReconciled(SharesOf(local, peer), left, right, old(local.directories))
    ensures forall p | Wedged(old(PairOf(local, peer)), p) :: o.Failed? && Wedged(PairOf(local, peer), p)
  {
    left, right := Side("", map[], map[]), Side("", map[], map[]);
    pruning := Neither;
    var initiates := LocalInitiatesCycle(local.fingerprint, peer.fingerprint);
    if initiates.Err? {
      o := Failed(initiates.reason);
      return;
    }
    if !initiates.value {
      o := Failed("this installation is not the cycle initiator");
      return;
    }
    o, pruning, left, right := PlanFolder(local, peer, now, later, format);
  }

  /** From the scans through the plan, wherever the invariant held. */
  lemma RunsThrough(f: string, g: string, before: Pair, planned: Pair, executed: Pair, o: Outcome,
                    actions: seq<Action>, mine: Entries, remote: Entries)
    requires SetsOut(f, g, before, planned, actions, mine, remote)
    requires Executed(f, g, planned, executed, o, actions, mine, remote)
    ensures KeepsFit(f, g, before, executed)
    ensures o.Done? ==> forall p | Fits(f, g, before.local, before.peer, p, PathProtocol.Idle) ::
      Settles(f, g, executed.local, executed.peer, mine, remote, p)
  {
    forall p | Fits(f, g, before.local, before.peer, p, PathProtocol.Idle)
      ensures Fits(f, g, executed.local, executed.peer, p, PathProtocol.Idle)
      ensures o.Done? ==> Settles(f, g, executed.local, executed.peer, mine, remote, p)
    {
      assert Underway(f, g, planned.local, planned.peer, actions, mine, remote, p);
      if o.Done? {
        SettledAgrees(f, g, executed.local, executed.peer, mine, remote, p);
      }
    }
  }

  /** Where such a path comes from: a cycle completed and its acknowledgement reached only the initiator. Every path
      that the peer still holds deleted and that neither tree has a file at is wedged from then on. */
  lemma LostAcknowledgementWedges(f: string, g: string, pair: Pair, path: Path)
    requires ReconciledAt(f, g, pair.local, pair.peer, InitiatorOnly, path) && Buried(pair.peer, path)
    requires path !in pair.localTree && path !in pair.peerTree && !SomeConflictName(path)
    ensures Wedged(pair, path)
  {
    Vectors.LeqAt(map[], pair.peer[path].version);
  }

  /** A file the initiator has deleted again before any listing told the peer of it leaves such a path too. */
  lemma NeverSharedWedges(pair: Pair, path: Path)
    requires Buried(pair.local, path) && !Vectors.Zero(pair.local[path].version) && path !in pair.peer
    requires path !in pair.localTree && path !in pair.peerTree && !SomeConflictName(path)
    ensures Wedged(pair, path)
  {
    Vectors.LeqAt(map[], pair.local[path].version);
  }

  /** A deletion is left with the peer alone. */
  ghost predicate LeftBehind(pair: Pair, path: Path) {
    Buried(pair.peer, path) && path !in pair.localTree && path !in pair.peerTree && !SomeConflictName(path)
  }

  /** Two cycles with nothing in between: if the acknowledgement of the first reached only the initiator and it left a
      deletion behind, the second fails and so will the next. */
  method CycleAfterLostAcknowledgement(local: Installation, peer: Installation, times: (int, int), again: (int, int),
                                       format: int -> string)
    returns (first: Outcome, pruning: Pruning, second: Outcome, ghost between: Pair)
    requires local != peer && |peer.fingerprint| >= FINGERPRINT_PREFIX
    modifies local, peer
    ensures first.Done? && pruning.InitiatorOnly? ==>
      forall p | LeftBehind(between, p)
          && Fits(local.fingerprint, peer.fingerprint, old(local.entries), old(peer.entries), p, PathProtocol.Idle) ::
        second.Failed? && Wedged(between, p) && Wedged(PairOf(local, peer), p)
  {
    ghost var f, g, before := local.fingerprint, peer.fingerprint, PairOf(local, peer);
    ghost var left, right;
    first, pruning, left, right := RunInitiatorFolderCycle(local, peer, times.0, times.1, format);
    between := PairOf(local, peer);
    if first.Done? && pruning.InitiatorOnly? {
      forall p | LeftBehind(between, p) && Fits(f, g, before.local, before.peer, p, PathProtocol.Idle)
        ensures Wedged(between, p)
      {
        LostAcknowledgementWedges(f, g, between, p);
      }
    }
    var nextPruning;
    second, nextPruning, left, right := RunInitiatorFolderCycle(local, peer, again.0, again.1, format);
  }
}

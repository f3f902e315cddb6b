/** The initiator's cycle: scan, list the peer, plan, execute every action, acknowledge. Each index commit is a step of
    the path protocol, so whatever operation fails the pair of indexes stays consistent. */
module Cycle {
  import opened Engine
  import opened EngineProperties
  import opened Index
  import opened Installations
  import opened Metadata
  import opened Order
  import opened PathProtocol
  import opened Paths
  import opened Prelude
  import opened Scan
  import opened ScanRules
  import opened Vectors

  /** Exactly one of two distinct installations initiates: the one with the smaller fingerprint. */
  function LocalInitiatesCycle(localIdentity: string, remoteIdentity: string): (initiates: Result<bool>)
  {
    if localIdentity == "" || remoteIdentity == "" then Err("cycle fingerprints are required")
    else if localIdentity == remoteIdentity then Err("cycle fingerprints are equal")
    else Ok(Less(localIdentity, remoteIdentity))
  }

  lemma OneInitiator(x: string, y: string)
    requires x != "" && y != "" && x != y
    ensures LocalInitiatesCycle(x, y).Ok? && LocalInitiatesCycle(y, x).Ok?
    ensures LocalInitiatesCycle(x, y).value <==> !LocalInitiatesCycle(y, x).value
  {
    LessTotal(x, y);
  }

  /** Unnamed and equal installations elect nobody. */
  lemma ElectionRefuses(x: string)
    ensures LocalInitiatesCycle("", x).Err? && LocalInitiatesCycle(x, "").Err? && LocalInitiatesCycle(x, x).Err?
  {
  }

  /** Whoever is elected wins every conflict its cycle plans, whatever the two indexes hold. */
  lemma ElectedWins(l: Link, local: Option<Entry>, remote: Option<Entry>)
    requires LocalInitiatesCycle(l.initiator, l.peer) == Ok(true)
    requires ActionFor(l, local, remote).Some? && ActionFor(l, local, remote).value.kind.Conflict?
    ensures ActionFor(l, local, remote).value.winner == l.initiator
    ensures ActionFor(l, local, remote).value.loser == l.peer
  {
    InitiatorWins(l, local, remote);
  }

  const FINGERPRINT_PREFIX := 12

  /** Both replicas compute one conflict name from the newer modification time and the loser. */
  function ConflictSuffix(left: Entry, right: Entry, loser: string, format: int -> string): string
    requires |loser| >= FINGERPRINT_PREFIX
  {
    var stamp := if right.metadata.mtime > left.metadata.mtime then right.metadata.mtime else left.metadata.mtime;
    format(stamp) + "-" + loser[..FINGERPRINT_PREFIX]
  }

  /** Both sides name the same copy, with the newer of the two time stamps. */
  lemma SuffixOfNewer(left: Entry, right: Entry, loser: string, format: int -> string)
    requires |loser| >= FINGERPRINT_PREFIX
    ensures ConflictSuffix(left, right, loser, format) == ConflictSuffix(right, left, loser, format)
    ensures left.metadata.mtime >= right.metadata.mtime ==>
      ConflictSuffix(left, right, loser, format) == format(left.metadata.mtime) + "-" + loser[..12]
  {
  }

  const NOWHERE := Spot(None, false, false)

  /** The path protocol's state over two entries; the invariant does not look at the trees. */
  function StateOf(a: Option<Entry>, b: Option<Entry>, phase: Phase): State {
    State(a, b, NOWHERE, NOWHERE, phase, true)
  }

  function LinkOf(local: Installation, peer: Installation, path: Path): Link {
    Link(local.fingerprint, peer.fingerprint, path)
  }

  /** The action is the planner's decision for its path. */
  predicate Decided(local: Installation, peer: Installation, action: Action, localIndex: Entries, remote: Entries) {
    ActionFor(LinkOf(local, peer, action.path), EntryAt(localIndex, action.path), EntryAt(remote, action.path)) ==
        Some(action)
  }

  ghost predicate Stands(local: Installation, peer: Installation, path: Path, phase: Phase)
    reads local`entries, peer`entries
  {
    Fits(local.fingerprint, peer.fingerprint, local.entries, peer.entries, path, phase)
  }

  ghost predicate Fits(initiator: string, peer: string, a: Entries, b: Entries, path: Path, phase: Phase) {
    Invariant(Link(initiator, peer, path), StateOf(EntryAt(a, path), EntryAt(b, path), phase))
  }

  /** The path protocol has the action at this task. */
  ghost predicate Pending(local: Installation, peer: Installation, action: Action, localIndex: Entries, remote: Entries,
                          task: Task)
    reads local`entries, peer`entries
  {
    Stands(local, peer, action.path, Planned(EntryAt(localIndex, action.path), EntryAt(remote, action.path), task))
  }

  /** Completed, the action is at the task; stopped, it leaves the invariant. */
  ghost predicate Leaves(o: Outcome, local: Installation, peer: Installation, action: Action, localIndex: Entries,
                         remote: Entries, task: Task)
    reads local`entries, peer`entries
  {
    if o.Done? then Pending(local, peer, action, localIndex, remote, task) else Stands(local, peer, action.path, Idle)
  }

  lemma InitiatorCommitted(l: Link, a: Option<Entry>, b: Option<Entry>, local: Option<Entry>, remote: Option<Entry>,
                           action: Action, now: int)
    requires ActionFor(l, local, remote) == Some(action) && OnInitiator(l, action)
    ensures Invariant(l, StateOf(a, b, Planned(local, remote, Waiting))) ==>
      Invariant(l, StateOf(Some(InitiatorResult(action, Get(local), Get(remote), now)), b,
                           Planned(local, remote, if TwoHalves(action) then Half else Settled)))
  {
    if Invariant(l, StateOf(a, b, Planned(local, remote, Waiting))) {
      var file := File(Get(remote).hash, 0, 0, 0, Get(remote).metadata);
      InvariantCommitInitiator(l, StateOf(a, b, Planned(local, remote, Waiting)), now, file);
    }
  }

  lemma PeerCommitted(l: Link, a: Option<Entry>, b: Option<Entry>, local: Option<Entry>, remote: Option<Entry>,
                      action: Action, now: int)
    requires ActionFor(l, local, remote) == Some(action) && (TwoHalves(action) || !OnInitiator(l, action))
    requires action.kind.Merge? ==> b.Some?
    ensures Invariant(l, StateOf(a, b, Planned(local, remote, if TwoHalves(action) then Half else Waiting))) ==>
      Invariant(l, StateOf(a, Some(PeerResult(action, Get(local), Get(b), now)), Planned(local, remote, Settled)))
  {
    var before := StateOf(a, b, Planned(local, remote, if TwoHalves(action) then Half else Waiting));
    if Invariant(l, before) {
      var file := File(Get(local).hash, 0, 0, 0, Get(local).metadata);
      InvariantCommitPeer(l, before, now, file);
    }
  }

  /** The initiator's commit, done or failed, as its part of the action. */
  lemma InitiatorLeaves(local: Installation, peer: Installation, a: Entries, action: Action, localIndex: Entries,
                        remote: Entries, now: int, o: Outcome)
    requires Decided(local, peer, action, localIndex, remote) && OnInitiator(LinkOf(local, peer, action.path), action)
    requires EntryAt(local.entries, action.path) ==
      if o.Done? then Some(InitiatorResult(action, Lookup(localIndex, action.path), Lookup(remote, action.path), now))
      else EntryAt(a, action.path)
    ensures Fits(local.fingerprint, peer.fingerprint, a, peer.entries, action.path,
                 Planned(EntryAt(localIndex, action.path), EntryAt(remote, action.path), Waiting)) ==>
      Leaves(o, local, peer, action, localIndex, remote, if TwoHalves(action) then Half else Settled)
  {
    InitiatorCommitted(LinkOf(local, peer, action.path), EntryAt(a, action.path), EntryAt(peer.entries, action.path),
                       EntryAt(localIndex, action.path), EntryAt(remote, action.path), action, now);
  }

  /** The peer's commit, landed or not; its answer may be lost. */
  lemma PeerLeaves(local: Installation, peer: Installation, b: Entries, action: Action, localIndex: Entries,
                   remote: Entries, now: int, o: Outcome, landed: bool)
    requires Decided(local, peer, action, localIndex, remote)
    requires TwoHalves(action) || !OnInitiator(LinkOf(local, peer, action.path), action)
    requires o.Done? ==> landed
    requires action.kind.Merge? && landed ==> action.path in b
    requires EntryAt(peer.entries, action.path) ==
      if landed then Some(PeerResult(action, Lookup(localIndex, action.path), Lookup(b, action.path), now))
      else EntryAt(b, action.path)
    ensures Fits(local.fingerprint, peer.fingerprint, local.entries, b, action.path,
                 Planned(EntryAt(localIndex, action.path), EntryAt(remote, action.path),
                         if TwoHalves(action) then Half else Waiting)) ==>
      Leaves(o, local, peer, action, localIndex, remote, Settled)
  {
    if landed {
      PeerCommitted(LinkOf(local, peer, action.path), EntryAt(local.entries, action.path), EntryAt(b, action.path),
                    EntryAt(localIndex, action.path), EntryAt(remote, action.path), action, now);
    }
  }

  lemma PlannedAfterScans(l: Link, a: Option<Entry>, b: Option<Entry>, spotA: Spot, spotB: Spot, now: int, later: int)
    requires Invariant(l, StateOf(a, b, Idle))
    ensures Invariant(l, StateOf(ScanSpot(a, spotA, l.initiator, now), b, Idle))
    ensures var local, peer := ScanSpot(a, spotA, l.initiator, now), ScanSpot(b, spotB, l.peer, later);
      var remote := ListedOption(peer);
      Invariant(l, StateOf(local, peer,
          Planned(local, remote, if ActionFor(l, local, remote).Some? then Waiting else Settled)))
  {
    var s0 := State(a, b, spotA, spotB, Idle, true);
    InvariantBegin(l, s0, now);
    InvariantList(l, Apply(l, s0, Begin(now)), later);
  }

  /** Stopping a cycle between commits leaves the invariant. */
  lemma Interrupted(local: Installation, peer: Installation, path: Path, phase: Phase)
    ensures Stands(local, peer, path, phase) ==> Stands(local, peer, path, Idle)
  {
  }

  lemma ConflictNameLonger(path: Path, suffix: string)
    ensures ConflictName(path, suffix) != path
  {
  }

  method PullFile(local: Installation, peer: Installation, path: Path, entry: Entry, vec: Vector) returns (o: Outcome)
    modifies local`tree, local`entries
    ensures o.Done? ==> local.Wrote(path, entry.hash, entry.metadata, vec)
    ensures o.Failed? ==> local.entries == old(local.entries) && Elsewhere(old(local.tree), local.tree, {path})
    ensures !HoldsHash(old(peer.tree), path, entry.hash) ==>
      o.Failed? && local.tree == old(local.tree) && local.entries == old(local.entries)
  {
    o := peer.ReadFile(path, entry.hash);
    if o.Done? {
      o := local.FileWriter(path, entry.hash, entry.metadata, vec);
    }
  }

  /** The peer may have done the work although its answer is lost. */
  method PushFile(local: Installation, peer: Installation, path: Path, entry: Entry, vec: Vector)
    returns (o: Outcome, landed: bool)
    requires local != peer
    modifies peer`tree, peer`entries
    ensures landed ==> peer.Wrote(path, entry.hash, entry.metadata, vec)
    ensures !landed ==> peer.entries == old(peer.entries) && Elsewhere(old(peer.tree), peer.tree, {path})
    ensures o.Done? ==> landed && HoldsHash(local.tree, path, entry.hash)
    ensures !HoldsHash(old(local.tree), path, entry.hash) ==>
      o.Failed? && peer.tree == old(peer.tree) && peer.entries == old(peer.entries)
  {
    landed := false;
    o := local.ReadFile(path, entry.hash);
    if o.Done? {
      o := peer.FileWriter(path, entry.hash, entry.metadata, vec);
      landed := o.Done?;
      var lost: bool := *;
      if lost { o := Failed("connection lost"); }
    }
  }

  /** Both trees and both indexes. */
  datatype Pair = Pair(localTree: Tree, peerTree: Tree, local: Entries, peer: Entries)

  function PairOf(local: Installation, peer: Installation): Pair
    reads local, peer
  {
    Pair(local.tree, peer.tree, local.entries, peer.entries)
  }

  ghost predicate SomeConflictName(path: Path) {
    exists p: Path, suffix: string :: path == ConflictName(p, suffix)
  }

  /** Whether there is a file at the path on either side, and what the indexes say there, is as before. */
  ghost predicate SameAround(before: Pair, after: Pair, path: Path) {
    && (path in after.localTree <==> path in before.localTree) && (path in after.peerTree <==> path in before.peerTree)
    && EntryAt(after.local, path) == EntryAt(before.local, path)
    && EntryAt(after.peer, path) == EntryAt(before.peer, path)
  }

  ghost predicate OthersKept(a: Entries, b: Entries, a': Entries, b': Entries, path: Path) {
    forall q | q != path :: EntryAt(a', q) == EntryAt(a, q) && EntryAt(b', q) == EntryAt(b, q)
  }

  /** An action on `path` touches nothing else but a conflict name. */
  ghost predicate TouchesOnly(before: Pair, after: Pair, path: Path) {
    forall p | p != path && !SomeConflictName(p) :: SameAround(before, after, p)
  }

  /** A deletion that the side which has to execute it has no file for. */
  predicate Blocked(pair: Pair, action: Action, provider: string) {
    action.kind.Delete? && action.path !in if action.source == provider then pair.localTree else pair.peerTree
  }

  /** What a completed action leaves in the two trees. */
  ghost predicate Effect(action: Action, local: Installation, peer: Installation, localEntry: Entry, remoteEntry: Entry,
                         suffix: string)
    reads local, peer
  {
    var p := action.path;
    match action.kind
    case Push => HoldsFile(peer.tree, p, localEntry.hash, localEntry.metadata)
    case Pull => HoldsFile(local.tree, p, remoteEntry.hash, remoteEntry.metadata)
    case Resurrect =>
      if action.source == peer.fingerprint then HoldsFile(local.tree, p, remoteEntry.hash, remoteEntry.metadata)
      else HoldsFile(peer.tree, p, localEntry.hash, localEntry.metadata)
    case Delete => if action.source == peer.fingerprint then p !in local.tree else p !in peer.tree
    case Merge => true
    case Conflict =>
      && action.winner == local.fingerprint
      && HoldsHash(local.tree, p, localEntry.hash)
      && HoldsFile(peer.tree, p, localEntry.hash, localEntry.metadata)
      && HoldsFile(local.tree, ConflictName(p, suffix), remoteEntry.hash, remoteEntry.metadata)
      && HoldsHash(peer.tree, ConflictName(p, suffix), remoteEntry.hash)
      && Lookup(local.entries, p).version == action.vector && Lookup(peer.entries, p).version == action.vector
  }

  /** Executes one decision. Whatever happens the entries of all other paths stay, and the invariant stays at this one
      if it held; if it completes, both replicas are settled here and the trees show the action's effect. A deletion
      with nothing to delete fails, whatever the indexes hold. */
  method ApplyAction(local: Installation, peer: Installation, action: Action, localIndex: Entries, remote: Entries,
                     now: int, format: int -> string)
    returns (o: Outcome)
    requires local != peer && |peer.fingerprint| >= FINGERPRINT_PREFIX
    requires Less(local.fingerprint, peer.fingerprint)
    requires Decided(local, peer, action, localIndex, remote)
    modifies local`tree, local`entries, peer`tree, peer`entries
    ensures forall q | q != action.path ::
      EntryAt(local.entries, q) == old(EntryAt(local.entries, q)) &&
      EntryAt(peer.entries, q) == old(EntryAt(peer.entries, q))
    ensures old(Pending(local, peer, action, localIndex, remote, Waiting)) ==>
      Leaves(o, local, peer, action, localIndex, remote, Settled)
    ensures o.Done? ==> Effect(action, local, peer, Lookup(localIndex, action.path), Lookup(remote, action.path),
                               ConflictSuffix(Lookup(localIndex, action.path), Lookup(remote, action.path),
                                              peer.fingerprint, format))
    ensures TouchesOnly(old(PairOf(local, peer)), PairOf(local, peer), action.path)
    ensures Blocked(old(PairOf(local, peer)), action, peer.fingerprint) ==>
      o.Failed? && SameAround(old(PairOf(local, peer)), PairOf(local, peer), action.path)
  {
    var path := action.path;
    var localEntry, remoteEntry := Lookup(localIndex, path), Lookup(remote, path);
    var remoteSource := action.source == peer.fingerprint || action.winner == peer.fingerprint;
    ghost var before := PairOf(local, peer);
    if action.kind.Conflict? {
      o := ApplyConflict(local, peer, action, localIndex, remote, format);
    } else if action.kind.Merge? {
      o := ApplyMerge(local, peer, action, localIndex, remote);
      SideTouchesOnly(before, PairOf(local, peer), path);
    } else {
      ghost var suffix := ConflictSuffix(localEntry, remoteEntry, peer.fingerprint, format);
      ActionSides(local, peer, action, localIndex, remote);
      if remoteSource {
        o := ApplyLocally(local, peer, action, localIndex, remote, now, suffix);
      } else {
        o := ApplyRemotely(local, peer, action, localIndex, remote, now, suffix);
      }
    }
  }

  /** Only a conflict has a winner. */
  lemma ActionSides(local: Installation, peer: Installation, action: Action, localIndex: Entries, remote: Entries)
    requires Decided(local, peer, action, localIndex, remote) && !action.kind.Conflict?
    ensures action.winner == ""
    ensures Less(local.fingerprint, peer.fingerprint) ==> action.winner != peer.fingerprint
  {
  }

  /** The actions only the initiator commits: pulls, resurrections from the peer, and the peer's deletions. */
  method ApplyLocally(local: Installation, peer: Installation, action: Action, localIndex: Entries, remote: Entries,
                      now: int, ghost suffix: string)
    returns (o: Outcome)
    requires local != peer && Less(local.fingerprint, peer.fingerprint)
    requires Decided(local, peer, action, localIndex, remote)
    requires !TwoHalves(action) && action.source == peer.fingerprint
    modifies local`tree, local`entries
    ensures forall q | q != action.path :: EntryAt(local.entries, q) == old(EntryAt(local.entries, q))
    ensures old(Pending(local, peer, action, localIndex, remote, Waiting)) ==>
      Leaves(o, local, peer, action, localIndex, remote, Settled)
    ensures o.Done? ==>
      Effect(action, local, peer, Lookup(localIndex, action.path), Lookup(remote, action.path), suffix)
    ensures TouchesOnly(old(PairOf(local, peer)), PairOf(local, peer), action.path)
    ensures Blocked(old(PairOf(local, peer)), action, peer.fingerprint) ==>
      o.Failed? && SameAround(old(PairOf(local, peer)), PairOf(local, peer), action.path)
  {
    var path := action.path;
    LessIrreflexive(local.fingerprint);
    ghost var before := PairOf(local, peer);
    if action.kind.Delete? {
      o := local.FileDeleter(path, action.vector, now);
    } else {
      o := PullFile(local, peer, path, Lookup(remote, path), action.vector);
    }
    InitiatorLeaves(local, peer, before.local, action, localIndex, remote, now, o);
    SideTouchesOnly(before, PairOf(local, peer), path);
  }

  /** An action that only touches one path of the trees and indexes. */
  lemma SideTouchesOnly(before: Pair, after: Pair, path: Path)
    requires Elsewhere(before.localTree, after.localTree, {path}) && Elsewhere(before.peerTree, after.peerTree, {path})
    requires OthersKept(before.local, before.peer, after.local, after.peer, path)
    ensures TouchesOnly(before, after, path)
  {
  }

  /** The actions only the peer commits: pushes, resurrections from here, and deletions made here. */
  method ApplyRemotely(local: Installation, peer: Installation, action: Action, localIndex: Entries, remote: Entries,
                       now: int, ghost suffix: string)
    returns (o: Outcome)
    requires local != peer && Less(local.fingerprint, peer.fingerprint)
    requires Decided(local, peer, action, localIndex, remote)
    requires !TwoHalves(action) && action.source != peer.fingerprint
    modifies peer`tree, peer`entries
    ensures forall q | q != action.path :: EntryAt(peer.entries, q) == old(EntryAt(peer.entries, q))
    ensures old(Pending(local, peer, action, localIndex, remote, Waiting)) ==>
      Leaves(o, local, peer, action, localIndex, remote, Settled)
    ensures o.Done? ==>
      Effect(action, local, peer, Lookup(localIndex, action.path), Lookup(remote, action.path), suffix)
    ensures TouchesOnly(old(PairOf(local, peer)), PairOf(local, peer), action.path)
    ensures Blocked(old(PairOf(local, peer)), action, peer.fingerprint) ==>
      o.Failed? && SameAround(old(PairOf(local, peer)), PairOf(local, peer), action.path)
  {
    var path := action.path;
    LessIrreflexive(local.fingerprint);
    ghost var before := PairOf(local, peer);
    var landed;
    if action.kind.Delete? {
      o := peer.FileDeleter(path, action.vector, now);
      landed := o.Done?;
      var lost: bool := *;
      if lost { o := Failed("connection lost"); }
    } else {
      o, landed := PushFile(local, peer, path, Lookup(localIndex, path), action.vector);
    }
    PeerLeaves(local, peer, before.peer, action, localIndex, remote, now, o, landed);
    SideTouchesOnly(before, PairOf(local, peer), path);
  }

  /** Equal content under incomparable versions: the vector alone is committed here, then on the peer. */
  method ApplyMerge(local: Installation, peer: Installation, action: Action, localIndex: Entries, remote: Entries)
    returns (o: Outcome)
    requires local != peer
    requires Decided(local, peer, action, localIndex, remote)
    requires action.kind.Merge?
    modifies local`entries, peer`entries
    ensures forall q | q != action.path ::
      EntryAt(local.entries, q) == old(EntryAt(local.entries, q)) &&
      EntryAt(peer.entries, q) == old(EntryAt(peer.entries, q))
    ensures old(Pending(local, peer, action, localIndex, remote, Waiting)) ==>
      Leaves(o, local, peer, action, localIndex, remote, Settled)
  {
    var path := action.path;
    var merged := Lookup(localIndex, path).(version := action.vector);
    ghost var before := local.entries;
    o := local.CommitEntry(path, merged);
    InitiatorLeaves(local, peer, before, action, localIndex, remote, 0, o);
    if o.Done? {
      o := SendMerge(local, peer, action, localIndex, remote);
    }
  }

  /** The peer's half of a vector-only merge. */
  method SendMerge(local: Installation, peer: Installation, action: Action, localIndex: Entries, remote: Entries)
    returns (o: Outcome)
    requires local != peer
    requires Decided(local, peer, action, localIndex, remote)
    requires action.kind.Merge?
    modifies peer`entries
    ensures forall q | q != action.path :: EntryAt(peer.entries, q) == old(EntryAt(peer.entries, q))
    ensures old(Pending(local, peer, action, localIndex, remote, Half)) ==>
      Leaves(o, local, peer, action, localIndex, remote, Settled)
  {
    ghost var before := peer.entries;
    o := peer.MergeVector(action.path, action.vector);
    ghost var landed := o.Done?;
    var lost: bool := *;
    if lost { o := Failed("connection lost"); }
    PeerLeaves(local, peer, before, action, localIndex, remote, 0, o, landed);
  }

  /** The initiator wins. The loser's bytes are saved here under the conflict name and committed with the merged
      vector, then the peer sets its own copy aside under the same name and takes the winner. */
  method ApplyConflict(local: Installation, peer: Installation, action: Action, localIndex: Entries, remote: Entries,
                       format: int -> string)
    returns (o: Outcome)
    requires local != peer && |peer.fingerprint| >= FINGERPRINT_PREFIX
    requires Less(local.fingerprint, peer.fingerprint)
    requires Decided(local, peer, action, localIndex, remote)
    requires action.kind.Conflict?
    modifies local`tree, local`entries, peer`tree, peer`entries
    ensures forall q | q != action.path ::
      EntryAt(local.entries, q) == old(EntryAt(local.entries, q)) &&
      EntryAt(peer.entries, q) == old(EntryAt(peer.entries, q))
    ensures old(Pending(local, peer, action, localIndex, remote, Waiting)) ==>
      Leaves(o, local, peer, action, localIndex, remote, Settled)
    ensures o.Done? ==> Effect(action, local, peer, Lookup(localIndex, action.path), Lookup(remote, action.path),
                               ConflictSuffix(Lookup(localIndex, action.path), Lookup(remote, action.path),
                                              peer.fingerprint, format))
    ensures TouchesOnly(old(PairOf(local, peer)), PairOf(local, peer), action.path)
    ensures var suffix := ConflictSuffix(Lookup(localIndex, action.path), Lookup(remote, action.path), peer.fingerprint,
                                         format);
      var copy := ConflictName(action.path, suffix);
      copy in old(local.tree) || copy in old(peer.tree) ==>
        o.Failed? && PairOf(local, peer) == old(PairOf(local, peer))
  {
    var path := action.path;
    var localEntry, remoteEntry := Lookup(localIndex, path), Lookup(remote, path);
    Interrupted(local, peer, path, Planned(EntryAt(localIndex, path), EntryAt(remote, path), Waiting));
    ConflictNames(local, peer, action, localIndex, remote);
    var suffix := ConflictSuffix(localEntry, remoteEntry, action.loser, format);
    if action.winner == peer.fingerprint {
      assert false;
    }
    var data := ReadBoth(local, peer, path, suffix, remoteEntry.hash);
    if data.Err? {
      return Failed(data.reason);
    }
    ghost var before := PairOf(local, peer);
    o := CommitConflict(local, peer, action, suffix, localIndex, remote, data.value);
    ConflictTouchesOnly(before, PairOf(local, peer), path, suffix);
  }

  lemma ConflictTouchesOnly(before: Pair, after: Pair, path: Path, suffix: string)
    requires Elsewhere(before.localTree, after.localTree, {ConflictName(path, suffix)})
    requires Elsewhere(before.peerTree, after.peerTree, {path, ConflictName(path, suffix)})
    requires OthersKept(before.local, before.peer, after.local, after.peer, path)
    ensures TouchesOnly(before, after, path)
  {
  }

  /** Both halves of a conflict once the contents are read. */
  method CommitConflict(local: Installation, peer: Installation, action: Action, suffix: string,
                        localIndex: Entries, remote: Entries, data: string)
    returns (o: Outcome)
    requires local != peer && Decided(local, peer, action, localIndex, remote)
    requires action.kind.Conflict? && action.winner == local.fingerprint
    requires HoldsHash(local.tree, action.path, data)
    requires HoldsHash(peer.tree, action.path, Lookup(remote, action.path).hash)
    modifies local`tree, local`entries, peer`tree, peer`entries
    ensures forall q | q != action.path ::
      EntryAt(local.entries, q) == old(EntryAt(local.entries, q)) &&
      EntryAt(peer.entries, q) == old(EntryAt(peer.entries, q))
    ensures old(Pending(local, peer, action, localIndex, remote, Waiting)) ==>
      Leaves(o, local, peer, action, localIndex, remote, Settled)
    ensures o.Done? ==>
      Effect(action, local, peer, Lookup(localIndex, action.path), Lookup(remote, action.path), suffix)
    ensures Elsewhere(old(local.tree), local.tree, {ConflictName(action.path, suffix)})
    ensures Elsewhere(old(peer.tree), peer.tree, {action.path, ConflictName(action.path, suffix)})
  {
    var path := action.path;
    var localEntry, remoteEntry := Lookup(localIndex, path), Lookup(remote, path);
    o := SaveLoser(local, peer, action, suffix, localIndex, remote);
    if o.Failed? { return; }
    HeldBeside(old(local.tree), local.tree, path, suffix, data);
    if data != localEntry.hash {
      Interrupted(local, peer, path, Planned(EntryAt(localIndex, path), EntryAt(remote, path), Half));
      return Failed("local file hash mismatch");
    }
    o := SendWinner(local, peer, action, suffix, localIndex, remote);
    if o.Done? {
      assert HoldsHash(local.tree, path, localEntry.hash);
      assert HoldsFile(local.tree, ConflictName(path, suffix), remoteEntry.hash, remoteEntry.metadata);
    }
  }

  /** A file written under the conflict name leaves the canonical file alone. */
  lemma HeldBeside(before: Tree, after: Tree, path: Path, suffix: string, hash: string)
    requires Elsewhere(before, after, {ConflictName(path, suffix)}) && HoldsHash(before, path, hash)
    ensures HoldsHash(after, path, hash)
  {
    ConflictNameLonger(path, suffix);
  }

  /** Checks that the conflict name is free on both sides and reads the winner here and the loser there. */
  method ReadBoth(local: Installation, peer: Installation, path: Path, suffix: string, remoteHash: string)
    returns (data: Result<string>)
    ensures data.Ok? ==> HoldsHash(local.tree, path, data.value) && HoldsHash(peer.tree, path, remoteHash)
    ensures data.Ok? ==> ConflictName(path, suffix) !in local.tree && ConflictName(path, suffix) !in peer.tree
  {
    if ConflictName(path, suffix) in local.tree || ConflictName(path, suffix) in peer.tree {
      return Err("conflict destination already exists on one or both replicas");
    }
    data := local.ReadShareFile(path);
    if data.Ok? {
      var losing := peer.ReadFile(path, remoteHash);
      if losing.Failed? {
        return Err(losing.reason);
      }
    }
  }

  lemma ConflictNames(local: Installation, peer: Installation, action: Action, localIndex: Entries, remote: Entries)
    requires Less(local.fingerprint, peer.fingerprint) && action.kind.Conflict?
    requires Decided(local, peer, action, localIndex, remote)
    ensures action.winner == local.fingerprint && action.loser == peer.fingerprint && action.winner != peer.fingerprint
  {
    LessIrreflexive(local.fingerprint);
    InitiatorWins(LinkOf(local, peer, action.path), EntryAt(localIndex, action.path), EntryAt(remote, action.path));
  }

  /** The initiator's half of a conflict. */
  method SaveLoser(local: Installation, peer: Installation, action: Action, suffix: string, localIndex: Entries,
                   remote: Entries)
    returns (o: Outcome)
    requires local != peer
    requires Decided(local, peer, action, localIndex, remote)
    requires action.kind.Conflict?
    modifies local`tree, local`entries
    ensures forall q | q != action.path :: EntryAt(local.entries, q) == old(EntryAt(local.entries, q))
    ensures old(Pending(local, peer, action, localIndex, remote, Waiting)) ==>
      Leaves(o, local, peer, action, localIndex, remote, Half)
    ensures Elsewhere(old(local.tree), local.tree, {ConflictName(action.path, suffix)})
    ensures o.Done? ==>
      && HoldsFile(local.tree, ConflictName(action.path, suffix), Lookup(remote, action.path).hash,
          Lookup(remote, action.path).metadata)
      && Lookup(local.entries, action.path).version == action.vector
  {
    var path := action.path;
    var localEntry, remoteEntry := Lookup(localIndex, path), Lookup(remote, path);
    ghost var before := local.entries;
    o := local.WriteConflictCopy(path, suffix, remoteEntry.hash, remoteEntry.metadata);
    if o.Done? {
      o := local.CommitEntry(path, Content(action.vector, localEntry.hash, localEntry.metadata));
    }
    InitiatorLeaves(local, peer, before, action, localIndex, remote, 0, o);
  }

  /** The peer's half of a conflict. */
  method SendWinner(local: Installation, peer: Installation, action: Action, suffix: string, localIndex: Entries,
                    remote: Entries)
    returns (o: Outcome)
    requires local != peer
    requires Decided(local, peer, action, localIndex, remote)
    requires action.kind.Conflict?
    requires HoldsHash(peer.tree, action.path, Lookup(remote, action.path).hash)
    modifies peer`tree, peer`entries
    ensures forall q | q != action.path :: EntryAt(peer.entries, q) == old(EntryAt(peer.entries, q))
    ensures old(Pending(local, peer, action, localIndex, remote, Half)) ==>
      Leaves(o, local, peer, action, localIndex, remote, Settled)
    ensures o.Done? ==>
      && HoldsFile(peer.tree, action.path, Lookup(localIndex, action.path).hash,
          Lookup(localIndex, action.path).metadata)
      && HoldsHash(peer.tree, ConflictName(action.path, suffix), Lookup(remote, action.path).hash)
      && Lookup(peer.entries, action.path).version == action.vector
    ensures Elsewhere(old(peer.tree), peer.tree, {action.path, ConflictName(action.path, suffix)})
  {
    var path := action.path;
    var localEntry := Lookup(localIndex, path);
    ConflictNameLonger(path, suffix);
    ghost var before := peer.entries;
    o := peer.ConflictWriter(path, suffix, localEntry.hash, localEntry.metadata, action.vector);
    ghost var landed := o.Done?;
    var lost: bool := *;
    if lost { o := Failed("connection lost"); }
    PeerLeaves(local, peer, before, action, localIndex, remote, 0, o, landed);
  }

  /** The entries as the peer's listing carries them. */
  function ListedEntries(entries: Entries): Entries {
    map p | p in entries :: PathProtocol.Listed(entries[p])
  }

  /** The peer scans its tree, saves, and answers with what it holds. */
  method ListFiles(peer: Installation, now: int) returns (listing: Result<Side>)
    modifies peer`entries, peer`directories, peer`acknowledged
    ensures listing.Ok? ==>
      && Scanned(old(peer.entries), peer.tree, peer.ignores, peer.fingerprint, now, peer.entries)
      && peer.directories == DirectoriesOf(peer.tree, peer.ignores)
      && listing.value == Side(peer.fingerprint, ListedEntries(peer.entries), peer.directories)
    ensures listing.Err? ==>
      peer.entries == old(peer.entries)
          || Scanned(old(peer.entries), peer.tree, peer.ignores, peer.fingerprint, now, peer.entries)
  {
    var o := peer.ScanShare(now);
    if o.Failed? {
      return Err(o.reason);
    }
    var lost: bool := *;
    if lost {
      return Err("connection lost");
    }
    listing := Ok(Side(peer.fingerprint, ListedEntries(peer.entries), peer.directories));
  }

  /** What an acknowledgement has reached: nobody pruned, the initiator alone, or both. */
  datatype Pruning = Neither | InitiatorOnly | Both

  ghost predicate Pruned(before: Entries, after: Entries) {
    after == map p | p in before && !before[p].deleted :: before[p]
  }

  /** The contents agree at the path, and the versions do unless one side's is strictly behind. */
  ghost predicate AgreesAt(local: Entries, peer: Entries, path: Path) {
    && Lookup(local, path).deleted == Lookup(peer, path).deleted
    && Lookup(local, path).hash == Lookup(peer, path).hash
    && Compare(Lookup(local, path).version, Lookup(peer, path).version) != Concurrent
  }

  ghost predicate Settles(f: string, g: string, a: Entries, b: Entries, localIndex: Entries, remote: Entries,
                          path: Path) {
    Fits(f, g, a, b, path, Planned(EntryAt(localIndex, path), EntryAt(remote, path), Settled))
  }

  lemma SettledAgrees(f: string, g: string, a: Entries, b: Entries, localIndex: Entries, remote: Entries, path: Path)
    requires Settles(f, g, a, b, localIndex, remote, path)
    ensures AgreesAt(a, b, path) && Fits(f, g, a, b, path, Idle)
  {
  }

  predicate Buried(entries: Entries, path: Path) {
    path in entries && entries[path].deleted
  }

  /** What an acknowledgement leaves at a path: no tombstone, unless it was lost. If the peer alone still has one, the
      initiator has forgotten the path. */
  ghost predicate ReconciledAt(f: string, g: string, a: Entries, b: Entries, pruning: Pruning, path: Path) {
    if pruning.InitiatorOnly? && Buried(b, path) then path !in a && !Zero(b[path].version)
    else
      && Fits(f, g, a, b, path, Idle) && AgreesAt(a, b, path)
      && (!pruning.Neither? ==> !Buried(a, path) && !Buried(b, path))
  }

  /** The initiator prunes first; the peer's failure is only logged, and leaves the acknowledgement half done. */
  method AcknowledgeCycle(local: Installation, peer: Installation, ghost localIndex: Entries, ghost remote: Entries)
    returns (pruning: Pruning)
    requires local != peer
    modifies local`entries, peer`entries, local`acknowledged, peer`acknowledged
    ensures if pruning.Neither? then local.entries == old(local.entries) else Pruned(old(local.entries), local.entries)
    ensures !pruning.Both? ==> peer.entries == old(peer.entries)
    ensures exists global ::
      && IsGlobal(old(local.entries), global)
      && local.acknowledged ==
           (if pruning.Neither? then old(local.acknowledged) else old(local.acknowledged)[peer.fingerprint := global])
      && peer.acknowledged ==
           (if pruning.Both? then old(peer.acknowledged)[local.fingerprint := global] else old(peer.acknowledged))
    ensures forall p |
        Settles(local.fingerprint, peer.fingerprint, old(local.entries), old(peer.entries), localIndex, remote, p) ::
      && (Buried(old(local.entries), p) <==> Buried(old(peer.entries), p))
      && (pruning.Both? ==> PrunedAt(old(peer.entries), peer.entries, p))
      && ReconciledAt(local.fingerprint, peer.fingerprint, local.entries, peer.entries, pruning, p)
  {
    ghost var a, b, f, g := local.entries, peer.entries, local.fingerprint, peer.fingerprint;
    var global := local.GlobalVector();
    AcknowledgedPruned(f, g, a, b, localIndex, remote, global);
    var o := local.AcknowledgeVector(peer.fingerprint, global);
    if o.Failed? {
      return Neither;
    }
    PrunedMap(a, local.entries, global);
    o := peer.AcknowledgeVector(local.fingerprint, global);
    pruning := if o.Failed? then InitiatorOnly else Both;
    forall p | Settles(f, g, a, b, localIndex, remote, p)
      ensures pruning.Both? ==> PrunedAt(b, peer.entries, p)
      ensures ReconciledAt(f, g, local.entries, peer.entries, pruning, p)
    {
      AcknowledgedPath(f, g, a, b, local.entries, peer.entries, localIndex, remote, global, pruning, p);
    }
  }

  /** At this path exactly the tombstone is gone. */
  ghost predicate PrunedAt(before: Entries, after: Entries, path: Path) {
    EntryAt(after, path) == if Buried(before, path) then None else EntryAt(before, path)
  }

  lemma AcknowledgedPath(f: string, g: string, a: Entries, b: Entries, a': Entries, b': Entries, localIndex: Entries,
                         remote: Entries, global: Vector, pruning: Pruning, p: Path)
    requires Settles(f, g, a, b, localIndex, remote, p)
    requires AcknowledgedAt(Link(f, g, p), EntryAt(a, p), EntryAt(b, p), global)
    requires !pruning.Neither? && EntryAt(a', p) == Collect(EntryAt(a, p), global)
    requires EntryAt(b', p) == if pruning.Both? then Collect(EntryAt(b, p), global) else EntryAt(b, p)
    ensures pruning.Both? ==> PrunedAt(b, b', p)
    ensures ReconciledAt(f, g, a', b', pruning, p)
  {
    SettledAgrees(f, g, a, b, localIndex, remote, p);
  }

  ghost predicate AcknowledgedAt(l: Link, a: Option<Entry>, b: Option<Entry>, global: Vector) {
    && Collect(a, global) == (if a.Some? && a.value.deleted then None else a)
    && Collect(b, global) == (if b.Some? && b.value.deleted then None else b)
    && Invariant(l, StateOf(Collect(a, global), Collect(b, global), Idle))
    && Get(Collect(a, global)).deleted == Get(Collect(b, global)).deleted
    && Get(Collect(a, global)).hash == Get(Collect(b, global)).hash
    && Compare(Get(Collect(a, global)).version, Get(Collect(b, global)).version) != Concurrent
  }

  lemma AcknowledgedPruned(f: string, g: string, a: Entries, b: Entries, localIndex: Entries, remote: Entries,
                           global: Vector)
    requires IsGlobal(a, global)
    ensures forall p :: Collect(EntryAt(a, p), global) == (if Buried(a, p) then None else EntryAt(a, p))
    ensures forall p | Settles(f, g, a, b, localIndex, remote, p) ::
      AcknowledgedAt(Link(f, g, p), EntryAt(a, p), EntryAt(b, p), global) && (Buried(a, p) <==> Buried(b, p))
      && AgreesAt(a, b, p) && Fits(f, g, a, b, p, Idle)
  {
    forall p | Settles(f, g, a, b, localIndex, remote, p)
      ensures AcknowledgedAt(Link(f, g, p), EntryAt(a, p), EntryAt(b, p), global)
      ensures AgreesAt(a, b, p) && Fits(f, g, a, b, p, Idle)
    {
      AcknowledgedOne(Link(f, g, p), EntryAt(a, p), EntryAt(b, p), EntryAt(localIndex, p), EntryAt(remote, p), global);
    }
  }

  lemma AcknowledgedOne(l: Link, a: Option<Entry>, b: Option<Entry>, local: Option<Entry>, remote: Option<Entry>,
                        global: Vector)
    requires Invariant(l, StateOf(a, b, Planned(local, remote, Settled))) && Leq(Get(a).version, global)
    ensures AcknowledgedAt(l, a, b, global)
  {
    InvariantAcknowledge(l, StateOf(a, b, Planned(local, remote, Settled)), global);
  }

  lemma PrunedMap(before: Entries, after: Entries, global: Vector)
    requires forall p :: EntryAt(after, p) == Collect(EntryAt(before, p), global)
    requires forall p :: Collect(EntryAt(before, p), global) == (if Buried(before, p) then None else EntryAt(before, p))
    ensures Pruned(before, after)
  {
    forall p ensures EntryAt(after, p) == (if Buried(before, p) then None else EntryAt(before, p)) {
    }
    assert forall p | p in after :: EntryAt(after, p) == Some(after[p]);
    assert forall p | p in before && !Buried(before, p) :: EntryAt(after, p).Some?;
  }

  predicate Awaits(rest: seq<Action>, path: Path) {
    exists i | 0 <= i < |rest| :: rest[i].path == path
  }

  function UnderwayPhase(rest: seq<Action>, localIndex: Entries, remote: Entries, path: Path): Phase {
    Planned(EntryAt(localIndex, path), EntryAt(remote, path), if Awaits(rest, path) then Waiting else Settled)
  }

  /** At this path the cycle is where it should be with the actions of `rest` still to come. */
  ghost predicate Underway(initiator: string, peer: string, a: Entries, b: Entries, rest: seq<Action>,
                           localIndex: Entries, remote: Entries, path: Path) {
    Fits(initiator, peer, a, b, path, UnderwayPhase(rest, localIndex, remote, path))
  }

  /** Wherever the cycle was underway before the first of `rest`, it is after it, or has stopped with the invariant. */
  ghost predicate Proceeds(f: string, g: string, before: Pair, after: Pair, o: Outcome, rest: seq<Action>,
                           localIndex: Entries, remote: Entries)
    requires rest != []
  {
    forall p | Underway(f, g, before.local, before.peer, rest, localIndex, remote, p) ::
      if o.Done? then Underway(f, g, after.local, after.peer, rest[1..], localIndex, remote, p)
      else Fits(f, g, after.local, after.peer, p, Idle)
  }

  /** The same after the whole plan. */
  ghost predicate Executed(f: string, g: string, before: Pair, after: Pair, o: Outcome, actions: seq<Action>,
                           localIndex: Entries, remote: Entries) {
    forall p | Underway(f, g, before.local, before.peer, actions, localIndex, remote, p) ::
      if o.Done? then Settles(f, g, after.local, after.peer, localIndex, remote, p)
      else Fits(f, g, after.local, after.peer, p, Idle)
  }

  ghost predicate Continues(f: string, g: string, start: Pair, now: Pair, actions: seq<Action>, n: nat,
                            localIndex: Entries, remote: Entries)
    requires n <= |actions|
  {
    forall p | Underway(f, g, start.local, start.peer, actions, localIndex, remote, p) ::
      Underway(f, g, now.local, now.peer, actions[n..], localIndex, remote, p)
  }

  /** Taking the first of the remaining actions removes exactly its own path from those that wait. */
  lemma AwaitsRest(rest: seq<Action>)
    requires rest != [] && Increasing(rest)
    ensures forall p :: Awaits(rest, p) <==> Awaits(rest[1..], p) || p == rest[0].path
    ensures !Awaits(rest[1..], rest[0].path)
    ensures Increasing(rest[1..])
  {
    forall p ensures Awaits(rest, p) <==> Awaits(rest[1..], p) || p == rest[0].path {
      if i :| 0 <= i < |rest[1..]| && rest[1..][i].path == p { assert rest[i + 1].path == p; }
      if i :| 0 <= i < |rest| && rest[i].path == p { assert i > 0 ==> rest[1..][i - 1].path == p; }
    }
    LessIrreflexive(rest[0].path);
    forall i | 0 <= i < |rest[1..]| ensures rest[1..][i].path != rest[0].path {
      assert rest[1..][i] == rest[i + 1] && Less(rest[0].path, rest[i + 1].path);
    }
  }

  lemma Advanced(f: string, g: string, before: Pair, after: Pair, o: Outcome, rest: seq<Action>, localIndex: Entries,
                 remote: Entries)
    requires rest != [] && Increasing(rest)
    requires OthersKept(before.local, before.peer, after.local, after.peer, rest[0].path)
    requires Underway(f, g, before.local, before.peer, rest, localIndex, remote, rest[0].path) ==>
      if o.Done? then Settles(f, g, after.local, after.peer, localIndex, remote, rest[0].path)
      else Fits(f, g, after.local, after.peer, rest[0].path, Idle)
    ensures Proceeds(f, g, before, after, o, rest, localIndex, remote)
  {
    AwaitsRest(rest);
  }

  /** The blocked deletions, apart from those at conflict names. */
  ghost predicate Stuck(start: Pair, actions: seq<Action>, provider: string, k: nat) {
    k < |actions| && Blocked(start, actions[k], provider) && !SomeConflictName(actions[k].path)
  }

  /** None of the first `n` actions was stuck, and around the stuck ones that are left nothing has changed. */
  ghost predicate StuckAhead(start: Pair, now: Pair, actions: seq<Action>, provider: string, n: nat) {
    && (forall k | 0 <= k < n :: !Stuck(start, actions, provider, k))
    && (forall k | n <= k && Stuck(start, actions, provider, k) :: SameAround(start, now, actions[k].path))
  }

  lemma StuckStays(start: Pair, before: Pair, after: Pair, actions: seq<Action>, provider: string, n: nat)
    requires n < |actions| && Increasing(actions) && StuckAhead(start, before, actions, provider, n)
    requires TouchesOnly(before, after, actions[n].path)
    requires Stuck(start, actions, provider, n) ==> SameAround(before, after, actions[n].path)
    ensures StuckAhead(start, after, actions, provider, n)
  {
    forall k | n <= k && Stuck(start, actions, provider, k) ensures SameAround(start, after, actions[k].path) {
      if k > n {
        LessIrreflexive(actions[n].path);
        assert Less(actions[n].path, actions[k].path);
      }
      assert SameAround(before, after, actions[k].path);
    }
  }

  /** Runs the planned file actions in order; whichever fails, the invariant stays wherever it held. A deletion whose
      side has no file stops the plan, and stays as it is. */
  method ExecutePlan(local: Installation, peer: Installation, actions: seq<Action>, localIndex: Entries,
                     remote: Entries, now: int, format: int -> string)
    returns (o: Outcome)
    requires local != peer && |peer.fingerprint| >= FINGERPRINT_PREFIX && Less(local.fingerprint, peer.fingerprint)
    requires Increasing(actions)
    requires forall a | a in actions :: Decided(local, peer, a, localIndex, remote)
    modifies local`tree, local`entries, peer`tree, peer`entries
    ensures Executed(local.fingerprint, peer.fingerprint, old(PairOf(local, peer)), PairOf(local, peer), o, actions,
                     localIndex, remote)
    ensures forall k: nat | Stuck(old(PairOf(local, peer)), actions, peer.fingerprint, k) ::
      o.Failed? && SameAround(old(PairOf(local, peer)), PairOf(local, peer), actions[k].path)
  {
    ghost var f, g, start := local.fingerprint, peer.fingerprint, PairOf(local, peer);
    assert actions[0..] == actions;
    for i := 0 to |actions|
      invariant Increasing(actions[i..])
      invariant Continues(f, g, start, PairOf(local, peer), actions, i, localIndex, remote)
      invariant StuckAhead(start, PairOf(local, peer), actions, g, i)
    {
      ghost var before, rest := PairOf(local, peer), actions[i..];
      assert rest[0] == actions[i] && rest[1..] == actions[i + 1..];
      o := ExecuteNext(local, peer, actions[i], localIndex, remote, now, format, rest);
      StuckStep(start, before, PairOf(local, peer), actions, g, i);
      if o.Failed? {
        return;
      }
    }
    AllExecuted(f, g, start, PairOf(local, peer), actions, localIndex, remote);
    o := Done;
  }

  lemma StuckStep(start: Pair, before: Pair, after: Pair, actions: seq<Action>, provider: string, n: nat)
    requires n < |actions| && Increasing(actions) && StuckAhead(start, before, actions, provider, n)
    requires TouchesOnly(before, after, actions[n].path)
    requires Blocked(before, actions[n], provider) ==> SameAround(before, after, actions[n].path)
    ensures StuckAhead(start, after, actions, provider, n)
  {
    if Stuck(start, actions, provider, n) {
      assert SameAround(start, before, actions[n].path);
    }
    StuckStays(start, before, after, actions, provider, n);
  }

  lemma AllExecuted(f: string, g: string, start: Pair, end: Pair, actions: seq<Action>, localIndex: Entries,
                    remote: Entries)
    requires Continues(f, g, start, end, actions, |actions|, localIndex, remote)
    ensures Executed(f, g, start, end, Done, actions, localIndex, remote)
  {
    forall p | Underway(f, g, start.local, start.peer, actions, localIndex, remote, p)
      ensures Settles(f, g, end.local, end.peer, localIndex, remote, p)
    {
      assert Underway(f, g, end.local, end.peer, actions[|actions|..], localIndex, remote, p);
    }
  }

  /** Executes the first of the remaining actions. */
  method ExecuteNext(local: Installation, peer: Installation, action: Action, localIndex: Entries, remote: Entries,
                     now: int, format: int -> string, ghost rest: seq<Action>)
    returns (o: Outcome)
    requires local != peer && |peer.fingerprint| >= FINGERPRINT_PREFIX && Less(local.fingerprint, peer.fingerprint)
    requires rest != [] && rest[0] == action && Increasing(rest) && Decided(local, peer, action, localIndex, remote)
    modifies local`tree, local`entries, peer`tree, peer`entries
    ensures Increasing(rest[1..])
    ensures Proceeds(local.fingerprint, peer.fingerprint, old(PairOf(local, peer)), PairOf(local, peer), o, rest,
                     localIndex, remote)
    ensures TouchesOnly(old(PairOf(local, peer)), PairOf(local, peer), action.path)
    ensures Blocked(old(PairOf(local, peer)), action, peer.fingerprint) ==>
      o.Failed? && SameAround(old(PairOf(local, peer)), PairOf(local, peer), action.path)
  {
    ghost var f, g, before := local.fingerprint, peer.fingerprint, PairOf(local, peer);
    AwaitsRest(rest);
    assert rest[0].path == action.path && Awaits(rest, action.path);
    o := ApplyAction(local, peer, action, localIndex, remote, now, format);
    Advanced(f, g, before, PairOf(local, peer), o, rest, localIndex, remote);
  }
}

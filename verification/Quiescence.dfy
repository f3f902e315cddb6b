/** Without user edits the protocol comes to rest: after two completed cycles nothing is scanned, planned or behind. */
module Quiescence {
  import opened Engine
  import opened Index
  import opened Order
  import opened PathProtocol
  import opened Prelude
  import opened ScanRules
  import opened Vectors

  /** A scan of the tree as it stands reports nothing here. */
  predicate Quiet(entry: Option<Entry>, spot: Spot) {
    ScanChange(entry, Seen(spot), spot.ignored).None?
  }

  /** A scan of the tree as it stands records the very same entry. */
  ghost predicate Fixed(entry: Option<Entry>, spot: Spot) {
    Quiet(entry, spot) && forall f, now :: ScanSpot(entry, spot, f, now) == entry
  }

  /** The walk does not reach the path and no file-level rule covers it: a scan takes a file there for deleted. */
  predicate Blind(spot: Spot) {
    spot.hidden && !spot.ignored
  }

  /** A live entry where the scan is blind becomes a tombstone at the next scan. */
  predicate Stray(entry: Option<Entry>, spot: Spot) {
    entry.Some? && !entry.value.deleted && Blind(spot)
  }

  /** An unchanged cached triple means unchanged bytes. */
  predicate Faithful(entry: Option<Entry>, spot: Spot) {
    Seen(spot).Some? && CacheHit(entry, Seen(spot).value) ==> entry.value.hash == Seen(spot).value.hash
  }

  /** The trees match the indexes as far as the current cycle has scanned or written them. */
  ghost predicate Resting(l: Link, s: State) {
    && Faithful(s.a, s.spotA) && Faithful(s.b, s.spotB)
    && match s.phase
       case Idle => true
       case Begun(local) => s.clean && s.a == local && Fixed(s.a, s.spotA)
       case Planned(local, remote, task) =>
         && (task != Settled ==> s.clean && Quiet(s.a, s.spotA) && ListedOption(s.b) == remote && Fixed(s.b, s.spotB))
         && (task == Waiting ==> s.a == local && Fixed(s.a, s.spotA))
         && (task == Settled && s.clean ==> Landed(l, s, ActionFor(l, local, remote)))
  }

  /** At most the file that the action installed is stray. */
  predicate Landed(l: Link, s: State, action: Option<Action>) {
    && (Quiet(s.a, s.spotA) ||
        (Stray(s.a, s.spotA) && action.Some? && InstallsOnInitiator(action.value) && OnInitiator(l, action.value)))
    && (Quiet(s.b, s.spotB) ||
        (Stray(s.b, s.spotB) && action.Some? && InstallsOnPeer(action.value) && !OnInitiator(l, action.value)))
  }

  lemma ScanFixes(entry: Option<Entry>, spot: Spot, f: string, now: int)
    ensures Fixed(ScanSpot(entry, spot, f, now), spot)
    ensures Quiet(entry, spot) <==> Same(Get(ScanSpot(entry, spot, f, now)).version, Get(entry).version)
    ensures Faithful(entry, spot) ==> Faithful(ScanSpot(entry, spot, f, now), spot)
  {
    IncrementAhead(Get(entry).version, f);
  }

  /** A committed entry whose bytes were installed is what the next scan finds, unless the scan is blind there. */
  lemma InstalledQuiet(entry: Entry, spot: Spot, file: File)
    requires !entry.deleted && Holds(file, entry)
    ensures var installed := spot.(file := Some(file));
      && Faithful(Some(entry), installed)
      && if Blind(spot) then Stray(Some(entry), installed) else Quiet(Some(entry), installed)
  {
  }

  lemma RemovedQuiet(entry: Entry, spot: Spot)
    requires entry.deleted
    ensures Quiet(Some(entry), spot.(file := None)) && Faithful(Some(entry), spot.(file := None))
  {
  }

  /** The vector alone never makes a scan report anything. */
  lemma RevisedQuiet(entry: Entry, version: Vector, spot: Spot)
    requires Quiet(Some(entry), spot)
    ensures Quiet(Some(entry.(version := version)), spot)
    ensures Faithful(Some(entry), spot) ==> Faithful(Some(entry.(version := version)), spot)
  {
  }

  /** Nobody edits. */
  ghost predicate Undisturbed(step: Step) { !step.Edit? }

  lemma RestingStep(l: Link, s: State, step: Step)
    requires Invariant(l, s) && Resting(l, s) && Undisturbed(step) && Enabled(l, s, step)
    ensures Resting(l, Apply(l, s, step))
  {
    match step {
      case Rescan(who, now) => RestingRescan(l, s, step);
      case Begin(now) => ScanFixes(s.a, s.spotA, l.initiator, now);
      case List(now) => RestingList(l, s, now);
      case CommitInitiator(now, file) => RestingCommitInitiator(l, s, now, file);
      case CommitPeer(now, file) => RestingCommitPeer(l, s, now, file);
      case _ =>
    }
  }

  lemma RestingRescan(l: Link, s: State, step: Step)
    requires Resting(l, s) && step.Rescan?
    ensures Resting(l, Apply(l, s, step))
  {
    if step.who == Initiator {
      ScanFixes(s.a, s.spotA, l.initiator, step.now);
    } else {
      ScanFixes(s.b, s.spotB, l.peer, step.now);
    }
  }

  lemma RestingList(l: Link, s: State, now: int)
    requires Resting(l, s) && s.phase.Begun?
    ensures Resting(l, Apply(l, s, List(now)))
  {
    ScanFixes(s.b, s.spotB, l.peer, now);
  }

  /** The content a commit copies is live unless the action is a deletion or a vector-only merge. */
  lemma CopiedContentIsLive(l: Link, local: Option<Entry>, remote: Option<Entry>)
    requires l.initiator != l.peer && ActionFor(l, local, remote).Some?
    ensures var action := ActionFor(l, local, remote).value;
      && (InstallsOnInitiator(action) && OnInitiator(l, action) ==> !Get(remote).deleted)
      && (InstallsOnPeer(action) && (TwoHalves(action) || !OnInitiator(l, action)) ==> !Get(local).deleted)
      && (action.kind.Merge? ==> local.Some? && remote.Some?)
  {
  }

  lemma RestingCommitInitiator(l: Link, s: State, now: int, file: File)
    requires Invariant(l, s) && Resting(l, s) && Enabled(l, s, CommitInitiator(now, file))
    ensures Resting(l, Apply(l, s, CommitInitiator(now, file)))
  {
    LessIrreflexive(l.initiator);
    var action := ActionFor(l, s.phase.local, s.phase.remote).value;
    var local, remote := Get(s.phase.local), Get(s.phase.remote);
    var a := InitiatorResult(action, local, remote, now);
    CopiedContentIsLive(l, s.phase.local, s.phase.remote);
    ConflictIsLive(l, s.phase.local, s.phase.remote);
    match action.kind {
      case Delete => RemovedQuiet(a, s.spotA);
      case Merge => RevisedQuiet(local, action.vector, s.spotA);
      case Conflict => KeptQuiet(local, a, s.spotA);
      case _ => InstalledQuiet(a, s.spotA, file);
    }
  }

  lemma ConflictIsLive(l: Link, local: Option<Entry>, remote: Option<Entry>)
    requires ActionFor(l, local, remote).Some?
    ensures ActionFor(l, local, remote).value.kind.Conflict? ==>
      local.Some? && remote.Some? && !Get(local).deleted && !Get(remote).deleted
  {
  }

  /** The winner's own entry loses its cached triple and nothing a scan would notice. */
  lemma KeptQuiet(entry: Entry, kept: Entry, spot: Spot)
    requires Fixed(Some(entry), spot) && !entry.deleted && Faithful(Some(entry), spot)
    requires kept == Content(kept.version, entry.hash, entry.metadata)
    ensures Quiet(Some(kept), spot) && Faithful(Some(kept), spot)
  {
  }

  lemma RestingCommitPeer(l: Link, s: State, now: int, file: File)
    requires Invariant(l, s) && Resting(l, s) && Enabled(l, s, CommitPeer(now, file))
    ensures Resting(l, Apply(l, s, CommitPeer(now, file)))
  {
    LessIrreflexive(l.initiator);
    var action := ActionFor(l, s.phase.local, s.phase.remote).value;
    var b := PeerResult(action, Get(s.phase.local), Get(s.b), now);
    CopiedContentIsLive(l, s.phase.local, s.phase.remote);
    ConflictIsLive(l, s.phase.local, s.phase.remote);
    match action.kind {
      case Delete => RemovedQuiet(b, s.spotB);
      case Merge => RevisedQuiet(Get(s.b), action.vector, s.spotB);
      case _ => InstalledQuiet(b, s.spotB, file);
    }
  }

  /** One content on both sides or none on either, one side at most behind, and at most one stray, which is not the
      one behind. */
  predicate Agreeing(s: State) {
    && s.a.Some? == s.b.Some?
    && !Get(s.a).deleted && !Get(s.b).deleted
    && Get(s.a).hash == Get(s.b).hash
    && (Leq(Get(s.a).version, Get(s.b).version) || Leq(Get(s.b).version, Get(s.a).version))
    && (Quiet(s.a, s.spotA) || (Stray(s.a, s.spotA) && Leq(Get(s.b).version, Get(s.a).version) && Quiet(s.b, s.spotB)))
    && (Quiet(s.b, s.spotB) || (Stray(s.b, s.spotB) && Leq(Get(s.a).version, Get(s.b).version) && Quiet(s.a, s.spotA)))
  }

  /** `x` is a tombstone strictly ahead of `y`, which is live or forgotten. */
  predicate Removing(x: Option<Entry>, y: Option<Entry>) {
    && x.Some? && x.value.deleted && !Get(y).deleted
    && Leq(Get(y).version, x.value.version) && !Leq(x.value.version, Get(y).version)
  }

  /** Two tombstones of one version. */
  predicate Removed(s: State) {
    s.a.Some? && s.a.value.deleted && s.b.Some? && s.b.value.deleted && Same(s.a.value.version, s.b.value.version)
  }

  /** Where a file can be after one completed cycle: agreed on, being removed by one side, or removed by both. */
  predicate Related(s: State) {
    Agreeing(s) || (Quiet(s.a, s.spotA) && Quiet(s.b, s.spotB)
        && (Removing(s.a, s.b) || Removing(s.b, s.a) || Removed(s)))
  }

  /** Between cycles and while they go on, from the first completed one. */
  ghost predicate Rested(l: Link, s: State) {
    && Resting(l, s)
    && Related(s)
    && (s.phase.Planned? ==>
          && s.clean && Quiet(s.a, s.spotA) && Quiet(s.b, s.spotB) && s.phase.task != Half
          && (s.phase.task == Settled ==> Same(Get(s.a).version, Get(s.b).version)))
  }

  /** After two cycles the versions agree and nothing is stray. */
  ghost predicate AtRest(l: Link, s: State) {
    && Rested(l, s) && Agreeing(s)
    && Same(Get(s.a).version, Get(s.b).version)
    && Quiet(s.a, s.spotA) && Quiet(s.b, s.spotB)
    && (s.phase.Planned? ==> s.phase.task == Settled)
  }

  lemma FirstCycleRests(l: Link, s: State, global: Vector)
    requires Invariant(l, s) && Resting(l, s) && Enabled(l, s, Acknowledge(global))
    ensures Rested(l, Apply(l, s, Acknowledge(global)))
  {
    InvariantAcknowledge(l, s, global);
    var action := ActionFor(l, s.phase.local, s.phase.remote);
    assert Converged(l, action, Get(s.a), Get(s.b));
    if Same(Get(s.a).version, Get(s.b).version) {
      SameZero(Get(s.a).version, Get(s.b).version);
    }
  }

  /** A scan where nothing is stray changes at most the cached triple. */
  predicate Unmoved(entry: Option<Entry>, next: Option<Entry>) {
    && next.Some? == entry.Some?
    && Get(next).version == Get(entry).version
    && Get(next).deleted == Get(entry).deleted
    && Get(next).hash == Get(entry).hash
  }

  lemma QuietScan(entry: Option<Entry>, spot: Spot, f: string, now: int)
    requires Quiet(entry, spot)
    ensures Unmoved(entry, ScanSpot(entry, spot, f, now)) && Quiet(ScanSpot(entry, spot, f, now), spot)
  {
  }

  /** A stray turns into a tombstone ahead of whatever it was not behind. */
  lemma StrayScan(entry: Option<Entry>, spot: Spot, f: string, now: int, other: Vector)
    requires Stray(entry, spot) && Leq(other, Get(entry).version)
    ensures var next := ScanSpot(entry, spot, f, now);
      && next.Some? && next.value.deleted && Quiet(next, spot)
      && Leq(other, next.value.version) && !Leq(next.value.version, other)
  {
    var next := Increment(entry.value.version, f);
    IncrementAhead(entry.value.version, f);
    LeqTransitive(other, entry.value.version, next);
    if Leq(next, other) { LeqTransitive(next, other, entry.value.version); }
  }

  lemma ScanRelated(l: Link, s: State, who: Who, now: int)
    requires Related(s)
    ensures var s' := Apply(l, s, Rescan(who, now));
      && Related(s')
      && (if who == Initiator then Quiet(s'.a, s.spotA) else Quiet(s'.b, s.spotB))
      && (who == Initiator && Quiet(s.b, s.spotB) ==> Quiet(s'.b, s.spotB))
      && (who == Peer && Quiet(s.a, s.spotA) ==> Quiet(s'.a, s.spotA))
  {
    if who == Initiator {
      if Quiet(s.a, s.spotA) {
        QuietScan(s.a, s.spotA, l.initiator, now);
      } else {
        StrayScan(s.a, s.spotA, l.initiator, now, Get(s.b).version);
      }
    } else if Quiet(s.b, s.spotB) {
      QuietScan(s.b, s.spotB, l.peer, now);
    } else {
      StrayScan(s.b, s.spotB, l.peer, now, Get(s.a).version);
    }
  }

  /** What a plan between two such entries is: a one-sided copy of one content, or one side's deletion. */
  lemma RestedPlan(l: Link, s: State, remote: Option<Entry>)
    requires l.initiator != l.peer
    requires Related(s) && remote == ListedOption(s.b) && ActionFor(l, s.a, remote).Some?
    ensures var action := ActionFor(l, s.a, remote).value;
      && (Agreeing(s) ==> if OnInitiator(l, action) then action.kind.Pull? else action.kind.Push?)
      && (Removing(s.a, s.b) ==> action.kind.Delete? && !OnInitiator(l, action))
      && (Removing(s.b, s.a) ==> action.kind.Delete? && OnInitiator(l, action))
      && !Removed(s)
      && action.vector == if OnInitiator(l, action) then Get(s.b).version else Get(s.a).version
  {
  }

  lemma RestedStep(l: Link, s: State, step: Step)
    requires Invariant(l, s) && Rested(l, s) && Undisturbed(step) && Enabled(l, s, step)
    ensures Rested(l, Apply(l, s, step))
    ensures AtRest(l, s) || step.Acknowledge? ==> AtRest(l, Apply(l, s, step))
  {
    RestingStep(l, s, step);
    match step {
      case Rescan(who, now) => RestedScan(l, s, step);
      case Begin(now) => RestedBegin(l, s, now);
      case List(now) => RestedList(l, s, now);
      case CommitInitiator(now, file) => RestedCommitInitiator(l, s, now, file);
      case CommitPeer(now, file) => RestedCommitPeer(l, s, now, file);
      case Acknowledge(global) => InvariantAcknowledge(l, s, global);
      case PartialAcknowledge(global, landed) => RestedPruning(l, s, global, landed);
      case _ =>
    }
  }

  /** A lost acknowledgement leaves at most the peer's tombstone. */
  lemma RestedPruning(l: Link, s: State, global: Vector, landed: bool)
    requires Invariant(l, s) && Rested(l, s) && Enabled(l, s, PartialAcknowledge(global, landed))
    ensures Rested(l, Apply(l, s, PartialAcknowledge(global, landed)))
    ensures AtRest(l, s) ==> AtRest(l, Apply(l, s, PartialAcknowledge(global, landed)))
  {
    SameAt(Get(s.a).version, Get(s.b).version);
  }

  lemma RestedScan(l: Link, s: State, step: Step)
    requires Rested(l, s) && step.Rescan? && Resting(l, Apply(l, s, step))
    ensures Rested(l, Apply(l, s, step))
    ensures AtRest(l, s) ==> AtRest(l, Apply(l, s, step))
  {
    ScanRelated(l, s, step.who, step.now);
    if Quiet(s.a, s.spotA) { QuietScan(s.a, s.spotA, l.initiator, step.now); }
    if Quiet(s.b, s.spotB) { QuietScan(s.b, s.spotB, l.peer, step.now); }
  }

  lemma RestedBegin(l: Link, s: State, now: int)
    requires Rested(l, s) && Resting(l, Apply(l, s, Begin(now)))
    ensures Rested(l, Apply(l, s, Begin(now)))
    ensures AtRest(l, s) ==> AtRest(l, Apply(l, s, Begin(now)))
  {
    ScanRelated(l, s, Initiator, now);
    if Quiet(s.a, s.spotA) { QuietScan(s.a, s.spotA, l.initiator, now); }
  }

  lemma RestedList(l: Link, s: State, now: int)
    requires Rested(l, s) && s.phase.Begun? && Resting(l, Apply(l, s, List(now)))
    ensures Rested(l, Apply(l, s, List(now)))
    ensures AtRest(l, s) ==> AtRest(l, Apply(l, s, List(now)))
  {
    ScanRelated(l, s, Peer, now);
    if Quiet(s.b, s.spotB) { QuietScan(s.b, s.spotB, l.peer, now); }
    SilentPlan(l, s.a, ScanSpot(s.b, s.spotB, l.peer, now));
  }

  lemma SilentPlan(l: Link, a: Option<Entry>, b: Option<Entry>)
    ensures ActionFor(l, a, ListedOption(b)).None? <==> Same(Get(a).version, Get(b).version)
  {
  }

  lemma RestedCommitInitiator(l: Link, s: State, now: int, file: File)
    requires Invariant(l, s) && Rested(l, s) && Enabled(l, s, CommitInitiator(now, file))
    requires Resting(l, Apply(l, s, CommitInitiator(now, file)))
    ensures Rested(l, Apply(l, s, CommitInitiator(now, file)))
    ensures !AtRest(l, s)
  {
    LessIrreflexive(l.initiator);
    RestedPlan(l, s, s.phase.remote);
    var s' := Apply(l, s, CommitInitiator(now, file));
    SameAt(Get(s'.a).version, Get(s'.a).version);
    if Agreeing(s) {
      InstalledQuiet(Get(s'.a), s.spotA, file);
    }
  }

  lemma RestedCommitPeer(l: Link, s: State, now: int, file: File)
    requires Invariant(l, s) && Rested(l, s) && Enabled(l, s, CommitPeer(now, file))
    requires Resting(l, Apply(l, s, CommitPeer(now, file)))
    ensures Rested(l, Apply(l, s, CommitPeer(now, file)))
    ensures !AtRest(l, s)
  {
    LessIrreflexive(l.initiator);
    RestedPlan(l, s, s.phase.remote);
    var s' := Apply(l, s, CommitPeer(now, file));
    SameAt(Get(s'.b).version, Get(s'.b).version);
    if Agreeing(s) {
      InstalledQuiet(Get(s'.b), s.spotB, file);
    }
  }

  ghost predicate PathRun(l: Link, states: seq<State>, steps: seq<Step>) {
    && |states| == |steps| + 1
    && forall i | 0 <= i < |steps| :: Next(l, states[i], steps[i], states[i + 1])
  }

  /** A stretch of a run in which nothing disturbs the cycles. */
  ghost predicate QuietRun(l: Link, states: seq<State>, steps: seq<Step>) {
    && PathRun(l, states, steps)
    && Invariant(l, states[0]) && Resting(l, states[0])
    && forall i | 0 <= i < |steps| :: Undisturbed(steps[i])
  }

  lemma {:induction false} QuietRunRests(l: Link, states: seq<State>, steps: seq<Step>, n: nat)
    requires QuietRun(l, states, steps) && n < |states|
    ensures Invariant(l, states[n]) && Resting(l, states[n])
    ensures Blind(states[n].spotA) == Blind(states[0].spotA) && Blind(states[n].spotB) == Blind(states[0].spotB)
  {
    if n > 0 {
      QuietRunRests(l, states, steps, n - 1);
      assert Next(l, states[n - 1], steps[n - 1], states[n - 1 + 1]);
      InvariantStep(l, states[n - 1], steps[n - 1]);
      RestingStep(l, states[n - 1], steps[n - 1]);
      BlindStays(l, states[n - 1], steps[n - 1]);
    }
  }

  lemma BlindStays(l: Link, s: State, step: Step)
    requires Undisturbed(step) && Enabled(l, s, step)
    ensures var s' := Apply(l, s, step); Blind(s'.spotA) == Blind(s.spotA) && Blind(s'.spotB) == Blind(s.spotB)
  {
  }

  lemma {:induction false} OneCycleRests(l: Link, states: seq<State>, steps: seq<Step>, first: nat, n: nat)
    requires QuietRun(l, states, steps) && first < n < |states| && steps[first].Acknowledge?
    ensures Rested(l, states[n])
    decreases n
  {
    QuietRunRests(l, states, steps, n - 1);
    assert Next(l, states[n - 1], steps[n - 1], states[n - 1 + 1]);
    if n == first + 1 {
      FirstCycleRests(l, states[first], steps[first].global);
    } else {
      OneCycleRests(l, states, steps, first, n - 1);
      RestedStep(l, states[n - 1], steps[n - 1]);
    }
  }

  /** From the second acknowledgement on the versions agree and every scan is silent, whatever the ignore rules hide. */
  lemma {:induction false} TwoCyclesRest(l: Link, states: seq<State>, steps: seq<Step>, first: nat, second: nat, n: nat)
    requires QuietRun(l, states, steps) && first < second < n < |states|
    requires steps[first].Acknowledge? && steps[second].Acknowledge?
    ensures AtRest(l, states[n])
    decreases n
  {
    QuietRunRests(l, states, steps, n - 1);
    OneCycleRests(l, states, steps, first, n - 1);
    assert Next(l, states[n - 1], steps[n - 1], states[n - 1 + 1]);
    if n > second + 1 {
      TwoCyclesRest(l, states, steps, first, second, n - 1);
    }
    RestedStep(l, states[n - 1], steps[n - 1]);
  }

  /** A file that one side cannot see where its scan is blind does not survive two cycles anywhere: the blind side
      takes it for deleted and the other side deletes its own copy. */
  lemma BlindPathEmpties(l: Link, states: seq<State>, steps: seq<Step>, first: nat, second: nat, n: nat)
    requires QuietRun(l, states, steps) && first < second < n < |states|
    requires steps[first].Acknowledge? && steps[second].Acknowledge?
    requires Blind(states[0].spotA) || Blind(states[0].spotB)
    ensures states[n].a.None? && states[n].b.None?
    ensures Seen(states[n].spotA).None? && Seen(states[n].spotB).None?
  {
    TwoCyclesRest(l, states, steps, first, second, n);
    QuietRunRests(l, states, steps, n);
  }

  /** One live content on both sides, which every scan finds as it is. */
  ghost predicate Synced(l: Link, s: State, hash: string) {
    && Rested(l, s) && Agreeing(s)
    && s.a.Some? && Get(s.a).hash == hash
    && Quiet(s.a, s.spotA) && Quiet(s.b, s.spotB)
  }

  lemma FirstCycleSyncs(l: Link, s: State, global: Vector)
    requires Invariant(l, s) && Resting(l, s) && Enabled(l, s, Acknowledge(global))
    requires !Blind(s.spotA) && !Blind(s.spotB)
    ensures var s' := Apply(l, s, Acknowledge(global)); s'.a.Some? ==> Synced(l, s', Get(s'.a).hash)
  {
    FirstCycleRests(l, s, global);
    InvariantAcknowledge(l, s, global);
  }

  lemma SyncedStep(l: Link, s: State, step: Step, hash: string)
    requires Invariant(l, s) && Synced(l, s, hash) && Undisturbed(step) && Enabled(l, s, step)
    requires !Blind(s.spotA) && !Blind(s.spotB)
    ensures Synced(l, Apply(l, s, step), hash)
  {
    LessIrreflexive(l.initiator);
    RestedStep(l, s, step);
    match step {
      case Rescan(who, now) => SyncedScans(l, s, now);
      case Begin(now) => SyncedScans(l, s, now);
      case List(now) => SyncedScans(l, s, now);
      case CommitInitiator(now, file) =>
        RestedPlan(l, s, s.phase.remote);
        InstalledQuiet(Get(Apply(l, s, step).a), s.spotA, file);
      case CommitPeer(now, file) =>
        RestedPlan(l, s, s.phase.remote);
        InstalledQuiet(Get(Apply(l, s, step).b), s.spotB, file);
      case _ =>
    }
  }

  lemma SyncedScans(l: Link, s: State, now: int)
    requires Quiet(s.a, s.spotA) && Quiet(s.b, s.spotB)
    ensures var a := ScanSpot(s.a, s.spotA, l.initiator, now); Unmoved(s.a, a) && Quiet(a, s.spotA)
    ensures var b := ScanSpot(s.b, s.spotB, l.peer, now); Unmoved(s.b, b) && Quiet(b, s.spotB)
  {
    QuietScan(s.a, s.spotA, l.initiator, now);
    QuietScan(s.b, s.spotB, l.peer, now);
  }

  /** A file that one completed cycle has left and that neither scan is blind to stays, with its content, on both
      sides. */
  lemma {:induction false} SeenFileStays(l: Link, states: seq<State>, steps: seq<Step>, first: nat, n: nat)
    requires QuietRun(l, states, steps) && first < n < |states| && steps[first].Acknowledge?
    requires !Blind(states[0].spotA) && !Blind(states[0].spotB) && states[first + 1].a.Some?
    ensures Synced(l, states[n], Get(states[first + 1].a).hash)
    decreases n
  {
    QuietRunRests(l, states, steps, n - 1);
    assert Next(l, states[n - 1], steps[n - 1], states[n - 1 + 1]);
    if n == first + 1 {
      FirstCycleSyncs(l, states[first], steps[first].global);
    } else {
      SeenFileStays(l, states, steps, first, n - 1);
      SyncedStep(l, states[n - 1], steps[n - 1], Get(states[first + 1].a).hash);
    }
  }

  /** So a file that one completed cycle has left survives the second exactly where neither scan is blind. */
  lemma SurvivesUnlessBlind(l: Link, states: seq<State>, steps: seq<Step>, first: nat, second: nat, n: nat)
    requires QuietRun(l, states, steps) && first < second < n < |states|
    requires steps[first].Acknowledge? && steps[second].Acknowledge? && states[first + 1].a.Some?
    ensures states[n].a.Some? <==> !Blind(states[0].spotA) && !Blind(states[0].spotB)
    ensures states[n].a.Some? <==> states[n].b.Some?
    ensures states[n].a.Some? ==> Synced(l, states[n], Get(states[first + 1].a).hash)
  {
    if Blind(states[0].spotA) || Blind(states[0].spotB) {
      BlindPathEmpties(l, states, steps, first, second, n);
    } else {
      SeenFileStays(l, states, steps, first, n);
    }
  }

  /** At rest the trees agree where their rules let the scans see: two files seen have one content, and where no rule
      covers the path one side sees a file exactly when the other does. */
  lemma TreesAgree(l: Link, s: State)
    requires AtRest(l, s)
    ensures Seen(s.spotA).Some? && Seen(s.spotB).Some? ==> Seen(s.spotA).value.hash == Seen(s.spotB).value.hash
    ensures !s.spotA.ignored && !s.spotB.ignored ==> (Seen(s.spotA).Some? <==> Seen(s.spotB).Some?)
  {
  }
}

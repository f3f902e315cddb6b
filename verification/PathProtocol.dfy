/** The two-replica protocol seen at one path: every scan, listing and index commit is a step of its own, so a run may
    stop between the two halves of an action. The initiator is the installation with the smaller fingerprint. */
module PathProtocol {
  import opened Engine
  import opened Index
  import opened Metadata
  import opened Order
  import opened Prelude
  import opened ScanRules
  import opened Vectors

  datatype Link = Link(initiator: string, peer: string, path: Path)

  /** One replica's tree at the path: the file there, whether the walk is kept from reaching it, and the
      file-level ignore verdict. */
  datatype Spot = Spot(file: Option<File>, hidden: bool, ignored: bool)

  datatype Task = Waiting | Half | Settled

  /** `local` and `remote` are the entries the plan was computed from. */
  datatype Phase =
    | Idle
    | Begun(local: Option<Entry>)
    | Planned(local: Option<Entry>, remote: Option<Entry>, task: Task)

  /** `clean`: since the cycle's own scans no scan has advanced either entry. */
  datatype State = State(a: Option<Entry>, b: Option<Entry>, spotA: Spot, spotB: Spot, phase: Phase, clean: bool)

  datatype Who = Initiator | Peer

  datatype Step =
    | Edit(spotA: Spot, spotB: Spot)
    | Rescan(who: Who, now: int)
    | Begin(now: int)
    | List(now: int)
    | CommitInitiator(now: int, file: File)
    | CommitPeer(now: int, file: File)
    | Acknowledge(global: Vector)
    | PartialAcknowledge(global: Vector, landed: bool)
    | Abandon
    | Pass

  function Seen(spot: Spot): Option<File> {
    if spot.hidden then None else spot.file
  }

  function ScanSpot(entry: Option<Entry>, spot: Spot, fingerprint: string, now: int): Option<Entry> {
    ScanOne(entry, Seen(spot), spot.ignored, fingerprint, now)
  }

  /** What a listing carries across: a tombstone keeps its vector and time, a live entry loses the cached triple's
      inode and change time. */
  function Listed(entry: Entry): Entry {
    if entry.deleted then Tombstone(entry.version, entry.deletedAt)
    else Content(entry.version, entry.hash, entry.metadata).(size := entry.size)
  }

  function ListedOption(entry: Option<Entry>): Option<Entry> {
    if entry.Some? then Some(Listed(entry.value)) else None
  }

  function ActionFor(l: Link, local: Option<Entry>, remote: Option<Entry>): Option<Action> {
    Decide(l.path, l.initiator, Get(local), l.peer, Get(remote))
  }

  predicate TwoHalves(action: Action) {
    action.kind.Merge? || action.kind.Conflict?
  }

  /** The initiator's index commits (first) for this action. */
  predicate OnInitiator(l: Link, action: Action) {
    TwoHalves(action) || action.kind.Pull?
        || ((action.kind.Resurrect? || action.kind.Delete?) && action.source == l.peer)
  }

  /** Installing bytes at the path on the initiator, on the peer. */
  predicate InstallsOnInitiator(action: Action) { action.kind.Pull? || action.kind.Resurrect? }

  predicate InstallsOnPeer(action: Action) { action.kind.Push? || action.kind.Resurrect? || action.kind.Conflict? }

  function InitiatorResult(action: Action, local: Entry, remote: Entry, now: int): Entry {
    match action.kind
    case Delete => Tombstone(action.vector, now)
    case Merge => local.(version := action.vector)
    case Conflict => Content(action.vector, local.hash, local.metadata)
    case _ => Content(action.vector, remote.hash, remote.metadata)
  }

  function PeerResult(action: Action, local: Entry, current: Entry, now: int): Entry {
    match action.kind
    case Delete => Tombstone(action.vector, now)
    case Merge => current.(version := action.vector)
    case _ => Content(action.vector, local.hash, local.metadata)
  }

  predicate Holds(file: File, entry: Entry) {
    file.hash == entry.hash && file.metadata == entry.metadata
  }

  /** Drops a tombstone the acknowledged vector dominates. */
  function Collect(entry: Option<Entry>, global: Vector): Option<Entry> {
    if entry.Some? && entry.value.deleted && Leq(entry.value.version, global) then None else entry
  }

  /** A vector-only merge may land: the initiator has moved on, or the peer still holds the listed content. */
  predicate MergeFits(s: State, action: Action)
    requires s.phase.Planned?
  {
    var remote := Get(s.phase.remote);
    s.b.Some? && (Same(Get(s.a).version, action.vector) ==>
        s.b.value.deleted == remote.deleted && s.b.value.hash == remote.hash)
  }

  /** Entries may be dropped: what one side forgets counts no edit of its own in what the other side keeps. */
  predicate PruningFits(l: Link, a: Option<Entry>, b: Option<Entry>) {
    && (a.None? && b.Some? ==> At(b.value.version, l.initiator) == 0)
    && (b.None? && a.Some? ==> At(a.value.version, l.peer) == 0)
  }

  /** `PartialAcknowledge` is an acknowledgement that reached only the initiator, or that scans have overtaken. */
  predicate Enabled(l: Link, s: State, step: Step) {
    match step
    case Edit(_, _) => true
    case Rescan(_, _) => true
    case Begin(_) => true
    case List(_) => s.phase.Begun?
    case CommitInitiator(_, file) =>
      && s.phase.Planned? && s.phase.task == Waiting
      && var action := ActionFor(l, s.phase.local, s.phase.remote);
      && action.Some? && OnInitiator(l, action.value)
      && (InstallsOnInitiator(action.value) ==> Holds(file, Get(s.phase.remote)))
    case CommitPeer(_, file) =>
      && s.phase.Planned?
      && var action := ActionFor(l, s.phase.local, s.phase.remote);
      && action.Some?
      && s.phase.task == (if TwoHalves(action.value) then Half else Waiting)
      && (TwoHalves(action.value) || !OnInitiator(l, action.value))
      && (action.value.kind.Merge? ==> MergeFits(s, action.value))
      && (InstallsOnPeer(action.value) ==> Holds(file, Get(s.phase.local)))
    case Acknowledge(global) =>
      s.phase.Planned? && s.phase.task == Settled && s.clean && Leq(Get(s.a).version, global)
    case PartialAcknowledge(global, landed) =>
      && s.phase.Planned? && s.phase.task == Settled && Leq(Get(s.a).version, global)
      && PruningFits(l, Collect(s.a, global), if landed then Collect(s.b, global) else s.b)
    case Abandon => true
    case Pass => true
  }

  function Apply(l: Link, s: State, step: Step): State
    requires Enabled(l, s, step)
  {
    match step
    case Edit(spotA, spotB) => s.(spotA := spotA, spotB := spotB)
    case Rescan(Initiator, now) =>
      var a := ScanSpot(s.a, s.spotA, l.initiator, now);
      s.(a := a, clean := s.clean && Same(Get(a).version, Get(s.a).version))
    case Rescan(Peer, now) =>
      var b := ScanSpot(s.b, s.spotB, l.peer, now);
      s.(b := b, clean := s.clean && (s.phase.Planned? ==> Same(Get(b).version, Get(s.b).version)))
    case Begin(now) =>
      var a := ScanSpot(s.a, s.spotA, l.initiator, now);
      s.(a := a, phase := Begun(a), clean := true)
    case List(now) =>
      var b := ScanSpot(s.b, s.spotB, l.peer, now);
      var remote := ListedOption(b);
      s.(b := b, phase :=
          Planned(s.phase.local, remote, if ActionFor(l, s.phase.local, remote).Some? then Waiting else Settled))
    case CommitInitiator(now, file) =>
      var action := ActionFor(l, s.phase.local, s.phase.remote).value;
      s.(a := Some(InitiatorResult(action, Get(s.phase.local), Get(s.phase.remote), now)),
         spotA := s.spotA.(file := if action.kind.Delete? then None
                                   else if InstallsOnInitiator(action) then Some(file) else s.spotA.file),
         phase := s.phase.(task := if TwoHalves(action) then Half else Settled))
    case CommitPeer(now, file) =>
      var action := ActionFor(l, s.phase.local, s.phase.remote).value;
      s.(b := Some(PeerResult(action, Get(s.phase.local), Get(s.b), now)),
         spotB := s.spotB.(file := if action.kind.Delete? then None
                                   else if InstallsOnPeer(action) then Some(file) else s.spotB.file),
         phase := s.phase.(task := Settled))
    case Acknowledge(global) =>
      s.(a := Collect(s.a, global), b := Collect(s.b, global), phase := Idle)
    case PartialAcknowledge(global, landed) =>
      s.(a := Collect(s.a, global), b := if landed then Collect(s.b, global) else s.b, phase := Idle)
    case Abandon => s.(phase := Idle)
    case Pass => s
  }

  /** Neither side lags behind the other's copy of its own counter, and equal versions mean equal content. */
  predicate Consistent(l: Link, x: Entry, y: Entry) {
    && At(y.version, l.initiator) <= At(x.version, l.initiator)
    && At(x.version, l.peer) <= At(y.version, l.peer)
    && (Same(x.version, y.version) ==> x.deleted == y.deleted && x.hash == y.hash)
  }

  /** A recorded entry knows at least one event, and a tombstone has no content. */
  predicate Shaped(entry: Option<Entry>) {
    entry.Some? ==> !Zero(entry.value.version) && (entry.value.deleted ==> entry.value.hash == "")
  }

  /** `now` is what `then` becomes by later scans at installation `f` alone. */
  ghost predicate Follows(f: string, then_: Entry, now: Entry) {
    && (forall g :: g != f ==> At(now.version, g) == At(then_.version, g))
    && At(then_.version, f) <= At(now.version, f)
    && (At(then_.version, f) == At(now.version, f) ==> now.deleted == then_.deleted && now.hash == then_.hash)
  }

  /** Equal content on both sides under equal versions, except that a resurrection leaves its source behind. */
  predicate Converged(l: Link, action: Option<Action>, a: Entry, b: Entry) {
    && a.deleted == b.deleted
    && a.hash == b.hash
    && (Same(a.version, b.version) ||
        (action.Some? && action.value.kind.Resurrect? && !a.deleted && !Zero(a.version) && !Zero(b.version) &&
         Compare(a.version, b.version) == if action.value.source == l.peer then Greater else Lesser))
  }

  ghost predicate Invariant(l: Link, s: State) {
    && Less(l.initiator, l.peer)
    && Shaped(s.a) && Shaped(s.b)
    && Consistent(l, Get(s.a), Get(s.b))
    && PhaseInvariant(l, s)
  }

  ghost predicate PhaseInvariant(l: Link, s: State) {
    match s.phase
    case Idle => true
    case Begun(local) =>
      && Shaped(local)
      && Consistent(l, Get(local), Get(s.b))
      && Follows(l.initiator, Get(local), Get(s.a))
      && (s.clean ==> Same(Get(s.a).version, Get(local).version))
    case Planned(local, remote, task) =>
      && Shaped(local) && Shaped(remote)
      && Consistent(l, Get(local), Get(remote))
      && TaskInvariant(l, s, ActionFor(l, local, remote), task)
  }

  ghost predicate TaskInvariant(l: Link, s: State, action: Option<Action>, task: Task)
    requires s.phase.Planned?
  {
    var local, remote := Get(s.phase.local), Get(s.phase.remote);
    match task
    case Waiting =>
      && action.Some?
      && Follows(l.initiator, local, Get(s.a))
      && Follows(l.peer, remote, Get(s.b))
      && (s.clean ==> Same(Get(s.a).version, local.version) && Same(Get(s.b).version, remote.version))
    case Half =>
      && action.Some? && TwoHalves(action.value)
      && Follows(l.initiator, InitiatorResult(action.value, local, remote, 0), Get(s.a))
      && Follows(l.peer, remote, Get(s.b))
      && (s.clean ==> Same(Get(s.a).version, action.value.vector) && Same(Get(s.b).version, remote.version))
    case Settled =>
      s.clean ==> Converged(l, action, Get(s.a), Get(s.b))
  }

  ghost predicate Next(l: Link, s: State, step: Step, s': State) {
    Enabled(l, s, step) && s' == Apply(l, s, step)
  }

  lemma SameAt(u: Vector, v: Vector)
    ensures Same(u, v) <==> forall f :: At(u, f) == At(v, f)
  {
  }

  lemma SameZero(u: Vector, v: Vector)
    requires Same(u, v)
    ensures Zero(u) <==> Zero(v)
  {
  }

  lemma ScanFollows(entry: Option<Entry>, spot: Spot, f: string, now: int)
    requires Shaped(entry)
    ensures var next := ScanSpot(entry, spot, f, now);
      Shaped(next) && Follows(f, Get(entry), Get(next))
      && (Same(Get(next).version, Get(entry).version) <==> ScanChange(entry, Seen(spot), spot.ignored).None?)
  {
  }

  lemma FollowsTransitive(f: string, x: Entry, y: Entry, z: Entry)
    requires Follows(f, x, y) && Follows(f, y, z)
    ensures Follows(f, x, z)
  {
  }

  /** Scans at either end keep the pair consistent: a fresh increment cannot be known to the other side. */
  lemma ConsistentFollows(l: Link, x: Entry, y: Entry, x': Entry, y': Entry)
    requires l.initiator != l.peer
    requires Consistent(l, x, y) && Follows(l.initiator, x, x') && Follows(l.peer, y, y')
    ensures Consistent(l, x', y')
  {
    SameAt(x'.version, y'.version);
    SameAt(x.version, y.version);
    if Same(x'.version, y'.version) {
      assert At(x'.version, l.initiator) == At(x.version, l.initiator);
      assert At(y'.version, l.peer) == At(y.version, l.peer);
      assert forall f :: At(x.version, f) == At(y.version, f) by {
        forall f ensures At(x.version, f) == At(y.version, f) {
          assert At(x'.version, f) == At(y'.version, f);
        }
      }
    }
  }

  lemma FollowsSelf(f: string, e: Entry)
    ensures Follows(f, e, e)
  {
  }

  /** Wherever it happens, a scan keeps the invariant. */
  lemma InvariantRescan(l: Link, s: State, step: Step)
    requires Invariant(l, s) && step.Rescan?
    ensures Invariant(l, Apply(l, s, step))
  {
    LessIrreflexive(l.initiator);
    var s' := Apply(l, s, step);
    var a, b := Get(s.a), Get(s.b);
    if step.who == Initiator {
      ScanFollows(s.a, s.spotA, l.initiator, step.now);
    } else {
      ScanFollows(s.b, s.spotB, l.peer, step.now);
    }
    FollowsSelf(l.initiator, a);
    FollowsSelf(l.peer, b);
    ConsistentFollows(l, a, b, Get(s'.a), Get(s'.b));
    SameAt(Get(s'.a).version, a.version);
    SameAt(Get(s'.b).version, b.version);
    match s.phase {
      case Idle =>
      case Begun(local) =>
        FollowsTransitive(l.initiator, Get(local), a, Get(s'.a));
        FollowsSelf(l.initiator, Get(local));
        ConsistentFollows(l, Get(local), b, Get(local), Get(s'.b));
        SameAt(a.version, Get(local).version);
        SameAt(Get(s'.a).version, Get(local).version);
      case Planned(local, remote, task) =>
        RescanTask(l, s, step);
    }
  }

  lemma RescanTask(l: Link, s: State, step: Step)
    requires Invariant(l, s) && step.Rescan? && s.phase.Planned?
    ensures var s' := Apply(l, s, step);
      TaskInvariant(l, s', ActionFor(l, s.phase.local, s.phase.remote), s.phase.task)
  {
    var action, task := ActionFor(l, s.phase.local, s.phase.remote), s.phase.task;
    if step.who == Initiator {
      var a := RescannedEntry(s.a, s.spotA, l.initiator, step.now);
      FollowsSelf(l.peer, Get(s.b));
      MovedTask(l, s, action, task, a, s.b, s.clean && Same(Get(a).version, Get(s.a).version));
    } else {
      var b := RescannedEntry(s.b, s.spotB, l.peer, step.now);
      FollowsSelf(l.initiator, Get(s.a));
      MovedTask(l, s, action, task, s.a, b, s.clean && Same(Get(b).version, Get(s.b).version));
    }
  }

  lemma RescannedEntry(entry: Option<Entry>, spot: Spot, f: string, now: int) returns (next: Option<Entry>)
    requires Shaped(entry)
    ensures next == ScanSpot(entry, spot, f, now) && Follows(f, Get(entry), Get(next))
  {
    next := ScanSpot(entry, spot, f, now);
    ScanFollows(entry, spot, f, now);
  }

  lemma MovedTask(l: Link, s: State, action: Option<Action>, task: Task, a: Option<Entry>, b: Option<Entry>,
                  clean: bool)
    requires s.phase.Planned? && TaskInvariant(l, s, action, task)
    requires Follows(l.initiator, Get(s.a), Get(a)) && Follows(l.peer, Get(s.b), Get(b))
    requires clean ==> s.clean
    requires clean ==>
      (a == s.a || Same(Get(a).version, Get(s.a).version)) && (b == s.b || Same(Get(b).version, Get(s.b).version))
    ensures TaskInvariant(l, s.(a := a, b := b, clean := clean), action, task)
  {
    SameAt(Get(s.a).version, Get(s.a).version);
    SameAt(Get(s.b).version, Get(s.b).version);
    if task == Settled {
      if clean { UnmovedConverged(l, action, Get(s.a), Get(s.b), Get(a), Get(b)); }
    } else {
      var local, remote := Get(s.phase.local), Get(s.phase.remote);
      MovedFollower(l.initiator, if task == Half then InitiatorResult(action.value, local, remote, 0) else local,
                    Get(s.a), Get(a));
      MovedFollower(l.peer, remote, Get(s.b), Get(b));
    }
  }

  lemma MovedFollower(f: string, x: Entry, y: Entry, z: Entry)
    requires Follows(f, x, y) && Follows(f, y, z)
    ensures Follows(f, x, z)
    ensures Same(z.version, y.version) && Same(y.version, x.version) ==> Same(z.version, x.version)
  {
  }

  lemma UnmovedConverged(l: Link, action: Option<Action>, a: Entry, b: Entry, a': Entry, b': Entry)
    requires Converged(l, action, a, b)
    requires Follows(l.initiator, a, a') && Same(a'.version, a.version)
    requires Follows(l.peer, b, b') && Same(b'.version, b.version)
    ensures Converged(l, action, a', b')
  {
  }

  lemma InvariantBegin(l: Link, s: State, now: int)
    requires Invariant(l, s)
    ensures Invariant(l, Apply(l, s, Begin(now)))
  {
    var s' := Apply(l, s, Begin(now));
    InvariantRescan(l, s.(phase := Idle), Rescan(Initiator, now));
    FollowsSelf(l.initiator, Get(s'.a));
    SameAt(Get(s'.a).version, Get(s'.a).version);
  }

  /** Equal versions decide nothing, so the plan is silent only where both sides already agree. */
  lemma SilentConverged(l: Link, local: Option<Entry>, remote: Option<Entry>, a: Entry, b: Entry)
    requires Consistent(l, Get(local), Get(remote)) && ActionFor(l, local, remote).None?
    requires Follows(l.initiator, Get(local), a) && Same(a.version, Get(local).version)
    requires Follows(l.peer, Get(remote), b) && Same(b.version, Get(remote).version)
    ensures Converged(l, None, a, b)
  {
    assert Converged(l, None, Get(local), Get(remote));
    UnmovedConverged(l, None, Get(local), Get(remote), a, b);
  }

  lemma InvariantList(l: Link, s: State, now: int)
    requires Invariant(l, s) && s.phase.Begun?
    ensures Invariant(l, Apply(l, s, List(now)))
  {
    LessIrreflexive(l.initiator);
    var s' := Apply(l, s, List(now));
    var local, remote := s.phase.local, s'.phase.remote;
    InvariantRescan(l, s, Rescan(Peer, now));
    ScanFollows(s.b, s.spotB, l.peer, now);
    assert Follows(l.peer, Get(remote), Get(s'.b));
    assert Get(remote).version == Get(s'.b).version;
    assert Consistent(l, Get(local), Get(s'.b));
    SameAt(Get(s'.b).version, Get(remote).version);
    if ActionFor(l, local, remote).None? && s.clean {
      SilentConverged(l, local, remote, Get(s'.a), Get(s'.b));
    }
  }

  /** The vector an action carries, by the side it comes from. */
  lemma ActionVector(l: Link, local: Option<Entry>, remote: Option<Entry>)
    requires ActionFor(l, local, remote).Some?
    ensures var x, y, action := Get(local).version, Get(remote).version, ActionFor(l, local, remote).value;
      if Leq(x, y) then action.vector == y && (action.kind.Pull? || action.kind.Delete?)
      else if Leq(y, x) then action.vector == x && (action.kind.Push? || action.kind.Delete?)
      else action.vector == Vectors.Merge(x, y) && (action.kind.Resurrect? || TwoHalves(action))
  {
  }

  /** The merged vector of two incomparable entries of a consistent pair takes each side's own counter from its owner
      and is strictly ahead of both. */
  lemma MergedPair(l: Link, x: Entry, y: Entry)
    requires Consistent(l, x, y) && !Leq(x.version, y.version) && !Leq(y.version, x.version)
    ensures var v := Vectors.Merge(x.version, y.version);
      && (forall f :: At(v, f) == Max(At(x.version, f), At(y.version, f)))
      && (exists f :: f != l.peer && At(x.version, f) > At(y.version, f))
      && (exists f :: f != l.initiator && At(y.version, f) > At(x.version, f))
      && !Zero(v) && !Zero(x.version) && !Zero(y.version)
  {
  }

  /** The first commit of a two-half action, or the only commit of an action the initiator executes. */
  lemma InvariantCommitInitiator(l: Link, s: State, now: int, file: File)
    requires Invariant(l, s) && Enabled(l, s, CommitInitiator(now, file))
    ensures Invariant(l, Apply(l, s, CommitInitiator(now, file)))
  {
    var action := ActionFor(l, s.phase.local, s.phase.remote).value;
    var a := InitiatorResult(action, Get(s.phase.local), Get(s.phase.remote), now);
    InitiatorEntry(l, s, action, a);
    var s' := Apply(l, s, CommitInitiator(now, file));
    assert s'.a == Some(a) && s'.b == s.b && s'.clean == s.clean;
    assert s'.phase == s.phase.(task := if TwoHalves(action) then Half else Settled);
  }

  lemma InitiatorEntry(l: Link, s: State, action: Action, a: Entry)
    requires Invariant(l, s) && s.phase.Planned? && s.phase.task == Waiting
    requires ActionFor(l, s.phase.local, s.phase.remote) == Some(action) && OnInitiator(l, action)
    requires a == InitiatorResult(action, Get(s.phase.local), Get(s.phase.remote), a.deletedAt)
    ensures Consistent(l, a, Get(s.b)) && Shaped(Some(a))
    ensures s.clean && !TwoHalves(action) ==> Converged(l, Some(action), a, Get(s.b))
    ensures TwoHalves(action) ==>
      Follows(l.initiator, InitiatorResult(action, Get(s.phase.local), Get(s.phase.remote), 0), a)
    ensures Same(a.version, action.vector)
  {
    if Leq(Get(s.phase.local).version, Get(s.phase.remote).version) {
      InitiatorEntryTaken(l, s, action, a);
    } else {
      InitiatorEntryMerged(l, s, action, a);
    }
    SameAt(action.vector, action.vector);
    FollowsSelf(l.initiator, a);
  }

  lemma InitiatorEntryTaken(l: Link, s: State, action: Action, a: Entry)
    requires Invariant(l, s) && s.phase.Planned? && s.phase.task == Waiting
    requires ActionFor(l, s.phase.local, s.phase.remote) == Some(action) && OnInitiator(l, action)
    requires Leq(Get(s.phase.local).version, Get(s.phase.remote).version)
    requires a == InitiatorResult(action, Get(s.phase.local), Get(s.phase.remote), a.deletedAt)
    ensures Consistent(l, a, Get(s.b)) && Shaped(Some(a)) && !TwoHalves(action)
    ensures s.clean ==> Converged(l, Some(action), a, Get(s.b))
  {
    var local, remote := Get(s.phase.local), Get(s.phase.remote);
    LessIrreflexive(l.initiator);
    ActionVector(l, s.phase.local, s.phase.remote);
    if Zero(remote.version) { LeqTransitive(remote.version, map[], local.version); }
    InitiatorTakesRemote(l, action, local, remote, a, Get(s.b));
    if s.clean { TakenConverged(l, action, remote, a, Get(s.b)); }
  }

  lemma InitiatorEntryMerged(l: Link, s: State, action: Action, a: Entry)
    requires Invariant(l, s) && s.phase.Planned? && s.phase.task == Waiting
    requires ActionFor(l, s.phase.local, s.phase.remote) == Some(action) && OnInitiator(l, action)
    requires !Leq(Get(s.phase.local).version, Get(s.phase.remote).version)
    requires a == InitiatorResult(action, Get(s.phase.local), Get(s.phase.remote), a.deletedAt)
    ensures Consistent(l, a, Get(s.b)) && Shaped(Some(a))
    ensures s.clean && !TwoHalves(action) ==> Converged(l, Some(action), a, Get(s.b))
  {
    var local, remote := Get(s.phase.local), Get(s.phase.remote);
    LessIrreflexive(l.initiator);
    ActionVector(l, s.phase.local, s.phase.remote);
    InitiatorTakesMerged(l, action, local, remote, a, Get(s.b));
    if !TwoHalves(action) && s.clean {
      ResurrectedConverged(l, action, local, remote, a, Get(s.b));
    }
  }

  lemma InitiatorTakesRemote(l: Link, action: Action, local: Entry, remote: Entry, a: Entry, b: Entry)
    requires Less(l.initiator, l.peer)
    requires Consistent(l, local, remote) && !Zero(remote.version) && Follows(l.peer, remote, b)
    requires a.version == remote.version && a.deleted == remote.deleted && a.hash == remote.hash
    ensures Consistent(l, a, b)
  {
    LessIrreflexive(l.initiator);
    SameAt(a.version, b.version);
  }

  lemma TakenConverged(l: Link, action: Action, from: Entry, a: Entry, b: Entry)
    requires a.version == from.version && a.deleted == from.deleted && a.hash == from.hash
    requires Follows(l.peer, from, b) && Same(b.version, from.version)
    ensures Converged(l, Some(action), a, b)
  {
  }

  lemma InitiatorTakesMerged(l: Link, action: Action, local: Entry, remote: Entry, a: Entry, b: Entry)
    requires Less(l.initiator, l.peer)
    requires Consistent(l, local, remote) && !Leq(local.version, remote.version) && !Leq(remote.version, local.version)
    requires Follows(l.peer, remote, b)
    requires a.version == Vectors.Merge(local.version, remote.version)
    ensures Consistent(l, a, b) && !Zero(a.version)
  {
    LessIrreflexive(l.initiator);
    MergedPair(l, local, remote);
    var f :| f != l.peer && At(local.version, f) > At(remote.version, f);
    assert At(a.version, f) > At(b.version, f);
    SameAt(a.version, b.version);
  }

  lemma ResurrectedConverged(l: Link, action: Action, local: Entry, remote: Entry, a: Entry, b: Entry)
    requires Consistent(l, local, remote) && !Leq(local.version, remote.version) && !Leq(remote.version, local.version)
    requires action.kind.Resurrect? && action.source == l.peer
    requires Follows(l.peer, remote, b) && Same(b.version, remote.version)
    requires a.version == Vectors.Merge(local.version, remote.version)
    requires !a.deleted && !remote.deleted && a.hash == remote.hash
    ensures Converged(l, Some(action), a, b)
  {
  }

  /** The peer's commit: the only one of an action it executes, or the second of a two-half action. */
  lemma InvariantCommitPeer(l: Link, s: State, now: int, file: File)
    requires Invariant(l, s) && Enabled(l, s, CommitPeer(now, file))
    ensures Invariant(l, Apply(l, s, CommitPeer(now, file)))
  {
    var action := ActionFor(l, s.phase.local, s.phase.remote).value;
    var s' := Apply(l, s, CommitPeer(now, file));
    PeerEntry(l, s, action, PeerResult(action, Get(s.phase.local), Get(s.b), now));
    assert s'.phase == s.phase.(task := Settled);
  }

  lemma PeerEntry(l: Link, s: State, action: Action, b: Entry)
    requires Invariant(l, s) && s.phase.Planned? && ActionFor(l, s.phase.local, s.phase.remote) == Some(action)
    requires s.phase.task == (if TwoHalves(action) then Half else Waiting)
    requires TwoHalves(action) || !OnInitiator(l, action)
    requires action.kind.Merge? ==> MergeFits(s, action)
    requires b == PeerResult(action, Get(s.phase.local), Get(s.b), b.deletedAt)
    ensures Consistent(l, Get(s.a), b) && Shaped(Some(b))
    ensures s.clean ==> Converged(l, Some(action), Get(s.a), b)
  {
    if Leq(Get(s.phase.remote).version, Get(s.phase.local).version) {
      PeerEntryTaken(l, s, action, b);
    } else {
      PeerEntryMerged(l, s, action, b);
    }
  }

  lemma PeerEntryTaken(l: Link, s: State, action: Action, b: Entry)
    requires Invariant(l, s) && s.phase.Planned? && ActionFor(l, s.phase.local, s.phase.remote) == Some(action)
    requires s.phase.task == (if TwoHalves(action) then Half else Waiting)
    requires TwoHalves(action) || !OnInitiator(l, action)
    requires action.kind.Merge? ==> MergeFits(s, action)
    requires b == PeerResult(action, Get(s.phase.local), Get(s.b), b.deletedAt)
    requires Leq(Get(s.phase.remote).version, Get(s.phase.local).version)
    ensures Consistent(l, Get(s.a), b) && Shaped(Some(b))
    ensures s.clean ==> Converged(l, Some(action), Get(s.a), b)
  {
    var local, remote := Get(s.phase.local), Get(s.phase.remote);
    LessIrreflexive(l.initiator);
    ActionVector(l, s.phase.local, s.phase.remote);
    if Zero(local.version) { LeqTransitive(local.version, map[], remote.version); }
    PeerTakesLocal(l, action, local, Get(s.a), b);
  }

  lemma PeerEntryMerged(l: Link, s: State, action: Action, b: Entry)
    requires Invariant(l, s) && s.phase.Planned? && ActionFor(l, s.phase.local, s.phase.remote) == Some(action)
    requires s.phase.task == (if TwoHalves(action) then Half else Waiting)
    requires TwoHalves(action) || !OnInitiator(l, action)
    requires action.kind.Merge? ==> MergeFits(s, action)
    requires b == PeerResult(action, Get(s.phase.local), Get(s.b), b.deletedAt)
    requires !Leq(Get(s.phase.remote).version, Get(s.phase.local).version)
    ensures Consistent(l, Get(s.a), b) && Shaped(Some(b))
    ensures s.clean ==> Converged(l, Some(action), Get(s.a), b)
  {
    var local, remote := Get(s.phase.local), Get(s.phase.remote);
    LessIrreflexive(l.initiator);
    ActionVector(l, s.phase.local, s.phase.remote);
    if TwoHalves(action) {
      MergedPair(l, local, remote);
      PeerFinishes(l, s, action, b);
    } else {
      PeerEntryResurrected(l, s, action, b);
    }
  }

  lemma PeerEntryResurrected(l: Link, s: State, action: Action, b: Entry)
    requires Invariant(l, s) && s.phase.Planned? && s.phase.task == Waiting
    requires ActionFor(l, s.phase.local, s.phase.remote) == Some(action) && action.kind.Resurrect?
    requires !OnInitiator(l, action)
    requires b == PeerResult(action, Get(s.phase.local), Get(s.b), b.deletedAt)
    ensures Consistent(l, Get(s.a), b) && Shaped(Some(b))
    ensures s.clean ==> Converged(l, Some(action), Get(s.a), b)
  {
    var local, remote := Get(s.phase.local), Get(s.phase.remote);
    LessIrreflexive(l.initiator);
    ActionVector(l, s.phase.local, s.phase.remote);
    PeerTakesMerged(l, action, local, remote, Get(s.a), b);
    if s.clean { PeerResurrected(l, action, local, remote, Get(s.a), b); }
  }

  lemma PeerTakesLocal(l: Link, action: Action, local: Entry, a: Entry, b: Entry)
    requires l.initiator != l.peer
    requires Follows(l.initiator, local, a)
    requires b.version == local.version && b.deleted == local.deleted && b.hash == local.hash
    ensures Consistent(l, a, b)
    ensures Same(a.version, local.version) ==> Converged(l, Some(action), a, b)
  {
  }

  lemma PeerTakesMerged(l: Link, action: Action, local: Entry, remote: Entry, a: Entry, b: Entry)
    requires l.initiator != l.peer
    requires Consistent(l, local, remote) && !Leq(local.version, remote.version) && !Leq(remote.version, local.version)
    requires Follows(l.initiator, local, a)
    requires b.version == Vectors.Merge(local.version, remote.version)
    ensures Consistent(l, a, b) && !Zero(b.version)
  {
    MergedPair(l, local, remote);
    var f :| f != l.initiator && At(remote.version, f) > At(local.version, f);
    assert At(b.version, f) > At(a.version, f);
    SameAt(a.version, b.version);
  }

  lemma PeerResurrected(l: Link, action: Action, local: Entry, remote: Entry, a: Entry, b: Entry)
    requires l.initiator != l.peer
    requires Consistent(l, local, remote) && !Leq(local.version, remote.version) && !Leq(remote.version, local.version)
    requires action.kind.Resurrect? && action.source == l.initiator
    requires Follows(l.initiator, local, a) && Same(a.version, local.version)
    requires b.version == Vectors.Merge(local.version, remote.version)
    requires !b.deleted && !local.deleted && b.hash == local.hash
    ensures Converged(l, Some(action), a, b)
  {
  }

  /** After both halves the two entries carry one vector; the initiator may since have scanned an edit of its own. */
  lemma PeerFinishes(l: Link, s: State, action: Action, b: Entry)
    requires l.initiator != l.peer && s.phase.Planned? && s.b.Some?
    requires TwoHalves(action) && TaskInvariant(l, s, Some(action), Half)
    requires Consistent(l, Get(s.phase.local), Get(s.phase.remote))
    requires ActionFor(l, s.phase.local, s.phase.remote) == Some(action)
    requires action.vector == Vectors.Merge(Get(s.phase.local).version, Get(s.phase.remote).version)
    requires b.version == action.vector
    requires action.kind.Merge? ==> MergeFits(s, action)
    requires action.kind.Conflict? ==> b == Content(action.vector, Get(s.phase.local).hash, Get(s.phase.local).metadata)
    requires action.kind.Merge? ==> b.deleted == Get(s.b).deleted && b.hash == Get(s.b).hash
    requires Shaped(s.phase.local) && Shaped(s.phase.remote)
    ensures Consistent(l, Get(s.a), b)
    ensures s.clean ==> Converged(l, Some(action), Get(s.a), b)
  {
    var half := InitiatorResult(action, Get(s.phase.local), Get(s.phase.remote), 0);
    SameAt(Get(s.a).version, b.version);
    SameAt(Get(s.b).version, Get(s.phase.remote).version);
    assert half.version == b.version;
    assert Same(Get(s.a).version, action.vector) ==> half.deleted == b.deleted && half.hash == b.hash;
  }

  /** Acknowledging after a completed, undisturbed cycle drops every tombstone at the path, on both sides or on
      neither. */
  lemma InvariantAcknowledge(l: Link, s: State, global: Vector)
    requires Invariant(l, s) && Enabled(l, s, Acknowledge(global))
    ensures var s' := Apply(l, s, Acknowledge(global));
      && Invariant(l, s')
      && s'.a == (if s.a.Some? && s.a.value.deleted then None else s.a)
      && s'.b == (if s.b.Some? && s.b.value.deleted then None else s.b)
  {
    if s.a.Some? && s.a.value.deleted {
      LeqTransitive(Get(s.b).version, Get(s.a).version, global);
      assert Get(s.b).deleted;
    }
  }

  /** Forgetting an entry on either side, on both or on neither keeps the pair consistent exactly when no forgotten
      counter is behind the other side's copy of it. */
  lemma PruningConsistent(l: Link, s: State, a: Option<Entry>, b: Option<Entry>)
    requires Invariant(l, s) && (a == s.a || a.None?) && (b == s.b || b.None?)
    ensures Consistent(l, Get(a), Get(b)) <==> PruningFits(l, a, b)
  {
  }

  /** The action puts the kept entry of `keeper` in the new file's place. */
  predicate Overrules(action: Action, kept: Entry, keeper: string) {
    && action.source == keeper
    && (if kept.deleted then action.kind.Delete? else action.kind.Pull? || action.kind.Push?)
  }

  /** The new file of `author` survives a tombstone and competes with a file. */
  predicate Respects(action: Action, kept: Entry, author: string) {
    if kept.deleted then action.kind.Resurrect? && action.source == author
    else action.kind.Merge? || action.kind.Conflict?
  }

  /** What that condition means to a user. The initiator has forgotten the path and the peer keeps an entry that knows
      some edit; now a file appears here anew. If the kept entry counts an edit of the initiator, the new file is taken
      for something old: a tombstone deletes it, a file replaces it, or nothing is done about it. If not, it counts as
      an edit of its own. */
  lemma RecreatedOnInitiator(l: Link, kept: Entry, spot: Spot, now: int)
    requires l.initiator != l.peer && !Zero(kept.version) && Seen(spot).Some?
    ensures var action := ActionFor(l, ScanSpot(None, spot, l.initiator, now), Some(Listed(kept)));
      if At(kept.version, l.initiator) > 0 then action.None? || Overrules(action.value, kept, l.peer)
      else action.Some? && Respects(action.value, kept, l.initiator)
  {
    IncrementAhead(map[], l.initiator);
    var first := Increment(map[], l.initiator);
    LeqAt(first, kept.version);
    LeqAt(kept.version, first);
  }

  /** The same where the peer has forgotten it. */
  lemma RecreatedOnPeer(l: Link, kept: Entry, spot: Spot, now: int)
    requires l.initiator != l.peer && !Zero(kept.version) && Seen(spot).Some?
    ensures var action := ActionFor(l, Some(kept), ListedOption(ScanSpot(None, spot, l.peer, now)));
      if At(kept.version, l.peer) > 0 then action.None? || Overrules(action.value, kept, l.initiator)
      else action.Some? && Respects(action.value, kept, l.peer)
  {
    IncrementAhead(map[], l.peer);
    var first := Increment(map[], l.peer);
    LeqAt(first, kept.version);
    LeqAt(kept.version, first);
  }

  /** Every step of a run keeps the invariant, whatever was cut off before it. */
  lemma InvariantStep(l: Link, s: State, step: Step)
    requires Invariant(l, s) && Enabled(l, s, step)
    ensures Invariant(l, Apply(l, s, step))
  {
    match step {
      case Edit(_, _) =>
      case Rescan(_, _) => InvariantRescan(l, s, step);
      case Begin(now) => InvariantBegin(l, s, now);
      case List(now) => InvariantList(l, s, now);
      case CommitInitiator(now, file) => InvariantCommitInitiator(l, s, now, file);
      case CommitPeer(now, file) => InvariantCommitPeer(l, s, now, file);
      case Acknowledge(global) => InvariantAcknowledge(l, s, global);
      case PartialAcknowledge(global, landed) => PruningConsistent(l, s, Apply(l, s, step).a, Apply(l, s, step).b);
      case Abandon =>
      case Pass =>
    }
  }

  /** The initiator always wins a conflict: the cycle is run by the smaller fingerprint. */
  lemma InitiatorWins(l: Link, local: Option<Entry>, remote: Option<Entry>)
    requires Less(l.initiator, l.peer)
    requires ActionFor(l, local, remote).Some? && ActionFor(l, local, remote).value.kind.Conflict?
    ensures ActionFor(l, local, remote).value.winner == l.initiator
    ensures ActionFor(l, local, remote).value.loser == l.peer
  {
  }

  /** A vector-only merge on the peer keeps the pair consistent exactly when the initiator has moved on or the peer
      still holds the content that was listed. */
  lemma MergeNeedsListedContent(l: Link, s: State, action: Action)
    requires Invariant(l, s) && s.phase.Planned? && s.phase.task == Half && s.b.Some?
    requires ActionFor(l, s.phase.local, s.phase.remote) == Some(action) && action.kind.Merge?
    ensures var b, remote := Get(s.b), Get(s.phase.remote);
      Consistent(l, Get(s.a), b.(version := action.vector)) <==>
        (Same(Get(s.a).version, action.vector) ==> b.deleted == remote.deleted && b.hash == remote.hash)
  {
    LessIrreflexive(l.initiator);
    SameAt(Get(s.a).version, action.vector);
  }

  lemma EqualFilesMerge(l: Link, local: Entry, remote: Entry)
    requires !Leq(local.version, remote.version) && !Leq(remote.version, local.version)
    requires !local.deleted && !remote.deleted && local.hash == remote.hash
    ensures ActionFor(l, Some(local), Some(remote)) ==
      Some(FileAction(l.path, ActionKind.Merge, "", Vectors.Merge(local.version, remote.version)))
  {
  }

  /** When only the initiator prunes, scans or not, the pair stays consistent exactly unless the initiator dropped a
      tombstone while the peer keeps an entry that counts an edit of the initiator: that counter restarts behind the
      peer's copy. */
  lemma HalfAcknowledgement(l: Link, s: State, global: Vector)
    requires Invariant(l, s)
    ensures Consistent(l, Get(Collect(s.a, global)), Get(s.b)) <==>
      !(s.a.Some? && Collect(s.a, global).None? && At(Get(s.b).version, l.initiator) > 0)
  {
    PruningConsistent(l, s, Collect(s.a, global), s.b);
  }

  /** When both prune after a scan has overtaken the cycle, it stays consistent exactly unless one side dropped its
      tombstone and the other kept an entry that counts an edit of the forgetful side. */
  lemma OvertakenAcknowledgement(l: Link, s: State, global: Vector)
    requires Invariant(l, s)
    ensures var a, b := Collect(s.a, global), Collect(s.b, global);
      Consistent(l, Get(a), Get(b)) <==>
        && !(s.a.Some? && a.None? && b.Some? && At(b.value.version, l.initiator) > 0)
        && !(s.b.Some? && b.None? && a.Some? && At(a.value.version, l.peer) > 0)
  {
    PruningConsistent(l, s, Collect(s.a, global), Collect(s.b, global));
  }
}

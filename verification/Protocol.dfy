/** Whole-folder runs of the protocol: one step acts on every path at once, and the guarantees hold on every run. */
module Protocol {
  import opened Causality
  import opened Engine
  import HashCache
  import opened Index
  import opened Order
  import PathProtocol
  import opened Prelude
  import opened Quiescence
  import opened ScanRules
  import opened Vectors

  datatype Net = Net(initiator: string, peer: string)

  /** `todo` and `half` are the planned paths not yet started and those whose initiator half alone is committed. */
  datatype CyclePhase =
    | Idle
    | Begun(local: Entries)
    | Planned(local: Entries, remote: Entries, todo: set<Path>, half: set<Path>)

  /** Two indexes, two trees, the initiator's cycle, and the paths disturbed by a scan since that cycle's own scans. */
  datatype System = System(
    a: Entries,
    b: Entries,
    treeA: Path -> PathProtocol.Spot,
    treeB: Path -> PathProtocol.Spot,
    phase: CyclePhase,
    disturbed: set<Path>
  )

  datatype Step =
    | Edit(treeA: Path -> PathProtocol.Spot, treeB: Path -> PathProtocol.Spot)
    | Rescan(who: PathProtocol.Who, now: int)
    | Begin(now: int)
    | List(now: int)
    | CommitInitiator(path: Path, now: int, file: File)
    | CommitPeer(path: Path, now: int, file: File)
    | Acknowledge(global: Vector)
    | PartialAcknowledge(global: Vector, landed: bool)
    | Abandon

  function LinkAt(net: Net, path: Path): PathProtocol.Link {
    PathProtocol.Link(net.initiator, net.peer, path)
  }

  /** The system as one path sees it. */
  function View(s: System, path: Path): PathProtocol.State {
    var phase := match s.phase
      case Idle => PathProtocol.Phase.Idle
      case Begun(local) => PathProtocol.Phase.Begun(EntryAt(local, path))
      case Planned(local, remote, todo, half) =>
        PathProtocol.Phase.Planned(EntryAt(local, path), EntryAt(remote, path),
                      if path in todo then PathProtocol.Waiting
                      else if path in half then PathProtocol.Half
                      else PathProtocol.Settled);
    PathProtocol.State(EntryAt(s.a, path), EntryAt(s.b, path), s.treeA(path), s.treeB(path), phase,
        path !in s.disturbed)
  }

  function StepAt(step: Step, path: Path): PathProtocol.Step {
    match step
    case Edit(treeA, treeB) => PathProtocol.Step.Edit(treeA(path), treeB(path))
    case Rescan(who, now) => PathProtocol.Step.Rescan(who, now)
    case Begin(now) => PathProtocol.Step.Begin(now)
    case List(now) => PathProtocol.Step.List(now)
    case CommitInitiator(p, now, file) =>
        if p == path then PathProtocol.Step.CommitInitiator(now, file) else PathProtocol.Pass
    case CommitPeer(p, now, file) => if p == path then PathProtocol.Step.CommitPeer(now, file) else PathProtocol.Pass
    case Acknowledge(global) => PathProtocol.Step.Acknowledge(global)
    case PartialAcknowledge(global, landed) => PathProtocol.Step.PartialAcknowledge(global, landed)
    case Abandon => PathProtocol.Step.Abandon
  }

  /** A cycle has run every planned action to its end. */
  predicate Finished(s: System) {
    s.phase.Planned? && s.phase.todo == {} && s.phase.half == {}
  }

  /** Scans, listings and acknowledgements act on every path; a commit acts on its own path; the acknowledged vector is
      the initiator's global vector. */
  ghost predicate Next(net: Net, s: System, step: Step, s': System) {
    && (step.Acknowledge? || step.PartialAcknowledge? ==> Finished(s) && IsGlobal(s.a, step.global))
    && (step.Acknowledge? ==> s.disturbed == {})
    && forall p :: PathProtocol.Next(LinkAt(net, p), View(s, p), StepAt(step, p), View(s', p))
  }

  /** Two new installations: no index yet, any trees. */
  ghost predicate Initial(s: System) {
    s.a == map[] && s.b == map[] && s.phase.Idle?
  }

  ghost predicate Run(net: Net, run: seq<System>, steps: seq<Step>) {
    && Less(net.initiator, net.peer)
    && |run| == |steps| + 1
    && Initial(run[0])
    && forall i | 0 <= i < |steps| :: Next(net, run[i], steps[i], run[i + 1])
  }

  ghost predicate Holds(net: Net, s: System) {
    forall p :: PathProtocol.Invariant(LinkAt(net, p), View(s, p))
  }

  lemma {:induction false} RunKeepsInvariant(net: Net, run: seq<System>, steps: seq<Step>, n: nat)
    requires Run(net, run, steps) && n < |run|
    ensures Holds(net, run[n])
    decreases n
  {
    if n > 0 {
      RunKeepsInvariant(net, run, steps, n - 1);
      forall p ensures PathProtocol.Invariant(LinkAt(net, p), View(run[n], p)) {
        assert PathProtocol.Next(LinkAt(net, p), View(run[n - 1], p), StepAt(steps[n - 1], p), View(run[n], p));
        PathProtocol.InvariantStep(LinkAt(net, p), View(run[n - 1], p), StepAt(steps[n - 1], p));
      }
    }
  }

  /** On every run, however it was cut off: each installation's own counter for a path is never behind the other's
      copy of it, and equal versions mean the same deletion state and the same bytes. */
  lemma CountersAndContent(net: Net, run: seq<System>, steps: seq<Step>, n: nat, path: Path)
    requires Run(net, run, steps) && n < |run|
    ensures var x, y := Lookup(run[n].a, path), Lookup(run[n].b, path);
      && At(y.version, net.initiator) <= At(x.version, net.initiator)
      && At(x.version, net.peer) <= At(y.version, net.peer)
      && (Compare(x.version, y.version) == Equal ==> x.deleted == y.deleted && x.hash == y.hash)
  {
    RunKeepsInvariant(net, run, steps, n);
    assert PathProtocol.Invariant(LinkAt(net, path), View(run[n], path));
  }

  /** Wherever a cycle has nothing left to do and no scan has come between, whatever happens at other paths, it
      leaves the same content on both sides, and equal versions except where it resurrected a file: there the source
      is strictly behind. */
  lemma CompletedCycleConverges(net: Net, run: seq<System>, steps: seq<Step>, n: nat, path: Path)
    requires Run(net, run, steps) && n < |run| && run[n].phase.Planned?
    requires path !in run[n].phase.todo && path !in run[n].phase.half && path !in run[n].disturbed
    ensures var x, y, d := Lookup(run[n].a, path), Lookup(run[n].b, path),
          Decide(path, net.initiator, Lookup(run[n].phase.local, path), net.peer, Lookup(run[n].phase.remote, path));
      && x.deleted == y.deleted && x.hash == y.hash
      && (Compare(x.version, y.version) == Equal ||
          (d.Some? && d.value.kind.Resurrect? &&
           Compare(x.version, y.version) == if d.value.source == net.peer then Greater else Lesser))
  {
    RunKeepsInvariant(net, run, steps, n);
    assert PathProtocol.Invariant(LinkAt(net, path), View(run[n], path));
  }

  /** Acknowledging drops every tombstone and no live entry, and exactly the same paths on both sides. */
  lemma AcknowledgementPrunes(net: Net, run: seq<System>, steps: seq<Step>, n: nat)
    requires Run(net, run, steps) && n < |steps| && steps[n].Acknowledge?
    ensures var s, s' := run[n], run[n + 1];
      && (forall p :: p in s.a && s.a[p].deleted <==> p in s.b && s.b[p].deleted)
      && s'.a == (map p | p in s.a && !s.a[p].deleted :: s.a[p])
      && s'.b == (map p | p in s.b && !s.b[p].deleted :: s.b[p])
  {
    RunKeepsInvariant(net, run, steps, n);
    var s, s' := run[n], run[n + 1];
    forall p ensures PrunedAt(s, s', p) {
      var l := LinkAt(net, p);
      assert PathProtocol.Next(l, View(s, p), StepAt(steps[n], p), View(s', p));
      assert PathProtocol.Invariant(l, View(s, p));
      PrunedAtPath(l, s, s', steps[n].global, p);
    }
    forall p | p in s'.a ensures p in s.a && s'.a[p] == s.a[p] && !s.a[p].deleted { assert PrunedAt(s, s', p); }
    forall p | p in s'.b ensures p in s.b && s'.b[p] == s.b[p] && !s.b[p].deleted { assert PrunedAt(s, s', p); }
    forall p | p in s.a && !s.a[p].deleted ensures p in s'.a { assert PrunedAt(s, s', p); }
    forall p | p in s.b && !s.b[p].deleted ensures p in s'.b { assert PrunedAt(s, s', p); }
    forall p ensures p in s.a && s.a[p].deleted <==> p in s.b && s.b[p].deleted { assert PrunedAt(s, s', p); }
  }

  ghost predicate PrunedAt(s: System, s': System, p: Path) {
    && (p in s.a && s.a[p].deleted <==> p in s.b && s.b[p].deleted)
    && EntryAt(s'.a, p) == (if p in s.a && s.a[p].deleted then None else EntryAt(s.a, p))
    && EntryAt(s'.b, p) == (if p in s.b && s.b[p].deleted then None else EntryAt(s.b, p))
  }

  lemma PrunedAtPath(l: PathProtocol.Link, s: System, s': System, global: Vector, p: Path)
    requires PathProtocol.Invariant(l, View(s, p))
    requires PathProtocol.Next(l, View(s, p), PathProtocol.Step.Acknowledge(global), View(s', p))
    ensures PrunedAt(s, s', p)
  {
    PathProtocol.InvariantAcknowledge(l, View(s, p), global);
    assert EntryAt(s'.a, p) == View(s', p).a && EntryAt(s'.b, p) == View(s', p).b;
    assert EntryAt(s.a, p) == View(s, p).a && EntryAt(s.b, p) == View(s, p).b;
    assert Get(View(s, p).a).deleted == Get(View(s, p).b).deleted;
  }

  /** Neither index and no plan in progress knows the path. */
  ghost predicate Forgotten(s: PathProtocol.State) {
    && s.a.None? && s.b.None?
    && (s.phase.Begun? ==> s.phase.local.None?)
    && (s.phase.Planned? ==> s.phase.local.None? && s.phase.remote.None? && s.phase.task == PathProtocol.Settled)
  }

  lemma ForgottenStep(l: PathProtocol.Link, s: PathProtocol.State, step: PathProtocol.Step)
    requires Forgotten(s) && PathProtocol.Enabled(l, s, step)
    requires PathProtocol.Seen(s.spotA).None? && PathProtocol.Seen(s.spotB).None?
    ensures Forgotten(PathProtocol.Apply(l, s, step))
  {
  }

  /** A deletion that was acknowledged stays: until one of the trees shows a file at the path again, no index and no
      later plan mentions it. */
  lemma {:induction false} DeletionStays(net: Net, run: seq<System>, steps: seq<Step>, n: nat, m: nat, path: Path)
    requires Run(net, run, steps) && n < m < |run| && steps[n].Acknowledge?
    requires path in run[n].a && run[n].a[path].deleted
    requires forall k | n < k < m ::
      PathProtocol.Seen(run[k].treeA(path)).None? && PathProtocol.Seen(run[k].treeB(path)).None?
    ensures path !in run[m].a && path !in run[m].b
    ensures Forgotten(View(run[m], path))
    decreases m
  {
    assert Next(net, run[m - 1], steps[m - 1], run[m - 1 + 1]);
    if m == n + 1 {
      AcknowledgementPrunes(net, run, steps, n);
      AcknowledgedForgets(LinkAt(net, path), View(run[n], path), StepAt(steps[n], path), View(run[m], path));
    } else {
      DeletionStays(net, run, steps, n, m - 1, path);
      ForgottenStep(LinkAt(net, path), View(run[m - 1], path), StepAt(steps[m - 1], path));
    }
    ForgottenPaths(run[m], path);
  }

  lemma AcknowledgedForgets(l: PathProtocol.Link, s: PathProtocol.State, step: PathProtocol.Step,
                            s': PathProtocol.State)
    requires step.Acknowledge? && PathProtocol.Next(l, s, step, s') && s'.a.None? && s'.b.None?
    ensures Forgotten(s')
  {
  }

  lemma ForgottenPaths(s: System, path: Path)
    requires Forgotten(View(s, path))
    ensures path !in s.a && path !in s.b
  {
  }

  /** The histories collected at one path along the first `n` steps. */
  ghost function TraceAt(net: Net, run: seq<System>, steps: seq<Step>, path: Path, n: nat): Trace
    requires Run(net, run, steps) && n < |run|
  {
    if n == 0 then Trace({}, {}, {}, {}, 0)
    else
      assert PathProtocol.Next(LinkAt(net, path), View(run[n - 1], path), StepAt(steps[n - 1], path),
          View(run[n], path));
      Trail(LinkAt(net, path), View(run[n - 1], path), StepAt(steps[n - 1], path),
          TraceAt(net, run, steps, path, n - 1))
  }

  /** Every vector-only merge among the first `n` steps found the peer's entry at the version that was listed. */
  ghost predicate MergesListedUpTo(net: Net, run: seq<System>, steps: seq<Step>, path: Path, n: nat)
    requires n <= |steps| < |run|
  {
    forall i | 0 <= i < n :: MergesListed(LinkAt(net, path), View(run[i], path), StepAt(steps[i], path))
  }

  lemma {:induction false} TraceIsCausal(net: Net, run: seq<System>, steps: seq<Step>, path: Path, n: nat)
    requires Run(net, run, steps) && n < |run| && MergesListedUpTo(net, run, steps, path, n)
    ensures CausalInvariant(LinkAt(net, path), View(run[n], path), TraceAt(net, run, steps, path, n))
  {
    if n > 0 {
      TraceIsCausal(net, run, steps, path, n - 1);
      RunKeepsInvariant(net, run, steps, n - 1);
      assert PathProtocol.Invariant(LinkAt(net, path), View(run[n - 1], path));
      assert PathProtocol.Next(LinkAt(net, path), View(run[n - 1], path), StepAt(steps[n - 1], path),
          View(run[n], path));
      CausalStep(LinkAt(net, path), View(run[n - 1], path), StepAt(steps[n - 1], path),
                 TraceAt(net, run, steps, path, n - 1));
    }
  }

  /** The comparison of two entries is the comparison of their causal histories on every run in which the peer's scans
      come before the listing or after the merges. */
  lemma VersionsEncodeHistories(net: Net, run: seq<System>, steps: seq<Step>, path: Path, n: nat)
    requires Run(net, run, steps) && n < |run| && MergesListedUpTo(net, run, steps, path, n)
    ensures var t := TraceAt(net, run, steps, path, n);
      match Compare(Lookup(run[n].a, path).version, Lookup(run[n].b, path).version)
      case Equal => t.a == t.b
      case Greater => t.b < t.a
      case Lesser => t.a < t.b
      case Concurrent => !(t.a <= t.b) && !(t.b <= t.a)
  {
    TraceIsCausal(net, run, steps, path, n);
    CompareIsCausality(LinkAt(net, path), View(run[n], path), TraceAt(net, run, steps, path, n));
  }

  /** And the first merge that finds the peer's entry advanced ends that: the comparison says that the initiator knows
      all the peer's entry derives from, and it does not. */
  lemma MergeHidesEdits(net: Net, run: seq<System>, steps: seq<Step>, path: Path, n: nat)
    requires Run(net, run, steps) && n < |steps| && MergesListedUpTo(net, run, steps, path, n)
    requires MergesPeer(LinkAt(net, path), View(run[n], path), StepAt(steps[n], path))
    ensures Leq(Lookup(run[n + 1].b, path).version, Lookup(run[n + 1].a, path).version)
    ensures var t := TraceAt(net, run, steps, path, n + 1);
      t.b <= t.a <==> MergesListed(LinkAt(net, path), View(run[n], path), StepAt(steps[n], path))
  {
    var l, s, step, t := LinkAt(net, path), View(run[n], path), StepAt(steps[n], path),
      TraceAt(net, run, steps, path, n);
    TraceIsCausal(net, run, steps, path, n);
    RunKeepsInvariant(net, run, steps, n);
    assert PathProtocol.Invariant(l, s);
    assert PathProtocol.Next(l, s, step, View(run[n + 1], path));
    MergeKeepsHistory(l, s, step, t);
  }

  /** The bytes each installation's files had at each path under each cached triple. */
  type FolderBytes = Path -> HashCache.Bytes

  /** Up to step `n` an unchanged triple meant unchanged bytes in both trees. */
  ghost predicate TruthfulUpTo(run: seq<System>, n: nat, atA: FolderBytes, atB: FolderBytes)
    requires n < |run|
  {
    forall i, p | 0 <= i <= n :: HashCache.TruthfulTrees(View(run[i], p), atA(p), atB(p))
  }

  lemma {:induction false} RunCacheSound(net: Net, run: seq<System>, steps: seq<Step>, n: nat, atA: FolderBytes,
                                         atB: FolderBytes, path: Path)
    requires Run(net, run, steps) && n < |run| && TruthfulUpTo(run, n, atA, atB)
    ensures HashCache.CacheInvariant(View(run[n], path), atA(path), atB(path))
    decreases n
  {
    if n > 0 {
      RunCacheSound(net, run, steps, n - 1, atA, atB, path);
      assert Next(net, run[n - 1], steps[n - 1], run[n - 1 + 1]);
      assert PathProtocol.Next(LinkAt(net, path), View(run[n - 1], path), StepAt(steps[n - 1], path),
          View(run[n], path));
      HashCache.CacheStep(LinkAt(net, path), View(run[n - 1], path), StepAt(steps[n - 1], path), atA(path), atB(path));
    }
  }

  /** On every run every scan of the folder, at either end, records what hashing every file would. */
  lemma ScansAreHashing(net: Net, run: seq<System>, steps: seq<Step>, n: nat, atA: FolderBytes, atB: FolderBytes,
                        path: Path, fingerprint: string, now: int)
    requires Run(net, run, steps) && n < |run| && TruthfulUpTo(run, n, atA, atB)
    ensures HashCache.ScansAsHashing(EntryAt(run[n].a, path), run[n].treeA(path), fingerprint, now)
    ensures HashCache.ScansAsHashing(EntryAt(run[n].b, path), run[n].treeB(path), fingerprint, now)
    ensures Faithful(EntryAt(run[n].a, path), run[n].treeA(path))
    ensures Faithful(EntryAt(run[n].b, path), run[n].treeB(path))
  {
    RunCacheSound(net, run, steps, n, atA, atB, path);
    assert HashCache.TruthfulTrees(View(run[n], path), atA(path), atB(path));
    HashCache.CachedScanHashes(EntryAt(run[n].a, path), run[n].treeA(path), fingerprint, now, atA(path));
    HashCache.CachedScanHashes(EntryAt(run[n].b, path), run[n].treeB(path), fingerprint, now, atB(path));
  }

  /** From here on, which is between two cycles, nobody edits. */
  ghost predicate QuietFrom(run: seq<System>, steps: seq<Step>, from: nat)
    requires |run| == |steps| + 1
  {
    && from < |run|
    && run[from].phase.Idle?
    && forall i | from <= i < |steps| :: !steps[i].Edit?
  }

  function PathStates(run: seq<System>, path: Path, from: nat): seq<PathProtocol.State>
    requires from < |run|
  {
    seq(|run| - from, i requires 0 <= i < |run| - from => View(run[from + i], path))
  }

  function PathSteps(steps: seq<Step>, path: Path, from: nat): seq<PathProtocol.Step>
    requires from <= |steps|
  {
    seq(|steps| - from, i requires 0 <= i < |steps| - from => StepAt(steps[from + i], path))
  }

  /** A quiet stretch of a whole-folder run is one of the path protocol at every path. */
  lemma RunAtPath(net: Net, run: seq<System>, steps: seq<Step>, path: Path, from: nat)
    requires Run(net, run, steps) && QuietFrom(run, steps, from)
    requires Resting(LinkAt(net, path), View(run[from], path))
    ensures QuietRun(LinkAt(net, path), PathStates(run, path, from), PathSteps(steps, path, from))
  {
    var states, pathSteps := PathStates(run, path, from), PathSteps(steps, path, from);
    RunKeepsInvariant(net, run, steps, from);
    assert PathProtocol.Invariant(LinkAt(net, path), View(run[from], path));
    forall i | 0 <= i < |pathSteps|
      ensures PathProtocol.Next(LinkAt(net, path), states[i], pathSteps[i], states[i + 1]) && Undisturbed(pathSteps[i])
    {
      assert Next(net, run[from + i], steps[from + i], run[from + i + 1]);
      assert states[i] == View(run[from + i], path) && states[i + 1] == View(run[from + i + 1], path);
      assert !steps[from + i].Edit? && pathSteps[i] == StepAt(steps[from + i], path);
    }
  }

  /** The states and steps of one path in a quiet stretch. */
  lemma QuietStretch(net: Net, run: seq<System>, steps: seq<Step>, path: Path, from: nat, atA: FolderBytes,
                     atB: FolderBytes)
    returns (states: seq<PathProtocol.State>, pathSteps: seq<PathProtocol.Step>)
    requires Run(net, run, steps) && QuietFrom(run, steps, from) && TruthfulUpTo(run, from, atA, atB)
    ensures QuietRun(LinkAt(net, path), states, pathSteps) && |states| == |run| - from
    ensures forall i | from <= i < |steps| :: pathSteps[i - from].Acknowledge? <==> steps[i].Acknowledge?
    ensures forall i | from <= i < |run| :: ShowsPath(run[i], path, states[i - from])
  {
    ScansAreHashing(net, run, steps, from, atA, atB, path, net.initiator, 0);
    states, pathSteps := PathStates(run, path, from), PathSteps(steps, path, from);
    RunAtPath(net, run, steps, path, from);
    forall i | from <= i < |steps| ensures pathSteps[i - from].Acknowledge? <==> steps[i].Acknowledge? {
      assert pathSteps[i - from] == StepAt(steps[i], path);
    }
    forall i | from <= i < |run| ensures ShowsPath(run[i], path, states[i - from]) {
      assert states[i - from] == View(run[i], path);
    }
  }

  /** What the system holds at the path, in both indexes and both trees. */
  ghost predicate ShowsPath(s: System, path: Path, at: PathProtocol.State) {
    && at.a == EntryAt(s.a, path) && at.b == EntryAt(s.b, path)
    && at.spotA == s.treeA(path) && at.spotB == s.treeB(path)
  }

  ghost predicate TreesAgreeAt(s: System, path: Path) {
    var x, y := PathProtocol.Seen(s.treeA(path)), PathProtocol.Seen(s.treeB(path));
    && (x.Some? && y.Some? ==> x.value.hash == y.value.hash)
    && (!s.treeA(path).ignored && !s.treeB(path).ignored ==> (x.Some? <==> y.Some?))
  }

  /** With no user edits, after two completed cycles both versions agree at every path, a rescan of either tree
      reports nothing, and the next plan has no file action, whatever the ignore rules hide and however many other
      acknowledgements were lost. The trees agree: two files seen at a path have one content, and where no rule covers
      the path one tree shows a file exactly when the other does. */
  lemma TwoCyclesComeToRest(net: Net, run: seq<System>, steps: seq<Step>, from: nat, first: nat, second: nat, n: nat,
                            path: Path, atA: FolderBytes, atB: FolderBytes)
    requires Run(net, run, steps) && QuietFrom(run, steps, from) && TruthfulUpTo(run, from, atA, atB)
    requires from <= first < second < n < |run| && steps[first].Acknowledge? && steps[second].Acknowledge?
    ensures Compare(Lookup(run[n].a, path).version, Lookup(run[n].b, path).version) == Equal
    ensures Quiet(EntryAt(run[n].a, path), run[n].treeA(path)) && Quiet(EntryAt(run[n].b, path), run[n].treeB(path))
    ensures Decide(path, net.initiator, Lookup(run[n].a, path), net.peer, Lookup(run[n].b, path)).None?
    ensures TreesAgreeAt(run[n], path)
  {
    var states, pathSteps := QuietStretch(net, run, steps, path, from, atA, atB);
    assert ShowsPath(run[n], path, states[n - from]) && ShowsPath(run[from], path, states[0]);
    TwoCyclesRest(LinkAt(net, path), states, pathSteps, first - from, second - from, n - from);
    TreesAgree(LinkAt(net, path), states[n - from]);
  }

  /** A path one tree hides from its scan without a rule for the file itself is empty everywhere after two cycles:
      what the other side had there has been deleted. */
  lemma HiddenPathsEmpty(net: Net, run: seq<System>, steps: seq<Step>, from: nat, first: nat, second: nat, n: nat,
                         path: Path, atA: FolderBytes, atB: FolderBytes)
    requires Run(net, run, steps) && QuietFrom(run, steps, from) && TruthfulUpTo(run, from, atA, atB)
    requires from <= first < second < n < |run| && steps[first].Acknowledge? && steps[second].Acknowledge?
    requires Blind(run[from].treeA(path)) || Blind(run[from].treeB(path))
    ensures path !in run[n].a && path !in run[n].b
    ensures PathProtocol.Seen(run[n].treeA(path)).None? && PathProtocol.Seen(run[n].treeB(path)).None?
  {
    var states, pathSteps := QuietStretch(net, run, steps, path, from, atA, atB);
    assert ShowsPath(run[n], path, states[n - from]) && ShowsPath(run[from], path, states[0]);
    BlindPathEmpties(LinkAt(net, path), states, pathSteps, first - from, second - from, n - from);
  }

  /** A file that one completed cycle has left is still there after the second exactly when neither tree hides it
      without a rule for the file itself; then both sides hold it live with the content it had. */
  lemma SyncedFileSurvives(net: Net, run: seq<System>, steps: seq<Step>, from: nat, first: nat, second: nat, n: nat,
                           path: Path, atA: FolderBytes, atB: FolderBytes)
    requires Run(net, run, steps) && QuietFrom(run, steps, from) && TruthfulUpTo(run, from, atA, atB)
    requires from <= first < second < n < |run| && steps[first].Acknowledge? && steps[second].Acknowledge?
    requires path in run[first + 1].a
    ensures path in run[n].a <==> !Blind(run[from].treeA(path)) && !Blind(run[from].treeB(path))
    ensures path in run[n].a <==> path in run[n].b
    ensures path in run[n].a ==>
      && !run[n].a[path].deleted && !run[n].b[path].deleted
      && run[n].a[path].hash == run[n].b[path].hash == run[first + 1].a[path].hash
  {
    var states, pathSteps := QuietStretch(net, run, steps, path, from, atA, atB);
    assert ShowsPath(run[n], path, states[n - from]) && ShowsPath(run[from], path, states[0]);
    assert ShowsPath(run[first + 1], path, states[first + 1 - from]);
    SurvivesUnlessBlind(LinkAt(net, path), states, pathSteps, first - from, second - from, n - from);
  }
}

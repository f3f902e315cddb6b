/** Runs that lead to the states in which a step of the source would break the protocol. */
module Witnesses {
  import Causality
  import opened Engine
  import opened Index
  import opened Metadata
  import opened Order
  import opened PathProtocol
  import opened Prelude
  import Protocol
  import opened Quiescence
  import opened ScanRules
  import opened Vectors

  const NO_FILE := Spot(None, false, false)

  /** A folder in which nothing but one path ever existed. */
  function SystemOf(path: Path, s: State): Protocol.System {
    var phase := match s.phase
      case Idle => Protocol.Idle
      case Begun(local) => Protocol.Begun(One(path, local))
      case Planned(local, remote, task) =>
        Protocol.Planned(One(path, local), One(path, remote), if task == Waiting then {path} else {},
                         if task == Half then {path} else {});
    Protocol.System(One(path, s.a), One(path, s.b), OnePlace(path, s.spotA), OnePlace(path, s.spotB), phase,
                    if s.clean then {} else {path})
  }

  function One(path: Path, entry: Option<Entry>): Entries {
    if entry.Some? then map[path := entry.value] else map[]
  }

  function OnePlace(path: Path, spot: Spot): Path -> Spot {
    p => if p == path then spot else NO_FILE
  }

  function StepOf(path: Path, step: Step): Protocol.Step
    requires SingleFolder(step)
  {
    match step
    case Edit(spotA, spotB) => Protocol.Edit(OnePlace(path, spotA), OnePlace(path, spotB))
    case Rescan(who, now) => Protocol.Rescan(who, now)
    case Begin(now) => Protocol.Begin(now)
    case List(now) => Protocol.List(now)
    case CommitInitiator(now, file) => Protocol.CommitInitiator(path, now, file)
    case CommitPeer(now, file) => Protocol.CommitPeer(path, now, file)
    case _ => Protocol.Abandon
  }

  /** Every step that needs nothing from other paths. */
  predicate SingleFolder(step: Step) {
    !step.Acknowledge? && !step.PartialAcknowledge? && !step.Pass?
  }

  /** What every other path sees of such a folder. */
  function Elsewhere(s: State): State {
    var phase := match s.phase
      case Idle => Idle
      case Begun(_) => Begun(None)
      case Planned(_, _, _) => Planned(None, None, Settled);
    State(None, None, NO_FILE, NO_FILE, phase, true)
  }

  lemma Views(path: Path, s: State, p: Path)
    ensures Protocol.View(SystemOf(path, s), p) == if p == path then s else Elsewhere(s)
  {
  }

  lemma ElsewhereStep(net: Protocol.Net, path: Path, s: State, step: Step, s': State, p: Path)
    requires p != path && SingleFolder(step)
    requires Next(Protocol.LinkAt(net, path), s, step, s')
    ensures Next(Protocol.LinkAt(net, p), Elsewhere(s), Protocol.StepAt(StepOf(path, step), p), Elsewhere(s'))
  {
  }

  lemma FolderStep(net: Protocol.Net, path: Path, s: State, step: Step, s': State)
    requires SingleFolder(step) && Next(Protocol.LinkAt(net, path), s, step, s')
    ensures Protocol.Next(net, SystemOf(path, s), StepOf(path, step), SystemOf(path, s'))
  {
    var before, after, folder := SystemOf(path, s), SystemOf(path, s'), StepOf(path, step);
    forall p
      ensures Next(Protocol.LinkAt(net, p), Protocol.View(before, p), Protocol.StepAt(folder, p),
          Protocol.View(after, p))
    {
      Views(path, s, p);
      Views(path, s', p);
      if p != path {
        ElsewhereStep(net, path, s, step, s', p);
      }
    }
  }

  ghost predicate FreshRun(net: Protocol.Net, path: Path, states: seq<State>, steps: seq<Step>) {
    && PathRun(Protocol.LinkAt(net, path), states, steps)
    && states[0].a.None? && states[0].b.None? && states[0].phase.Idle?
    && forall i | 0 <= i < |steps| :: SingleFolder(steps[i])
  }

  function Systems(path: Path, states: seq<State>): (run: seq<Protocol.System>)
    ensures |run| == |states| && forall i | 0 <= i < |states| :: run[i] == SystemOf(path, states[i])
  {
    seq(|states|, i requires 0 <= i < |states| => SystemOf(path, states[i]))
  }

  function FolderSteps(path: Path, steps: seq<Step>): (folder: seq<Protocol.Step>)
    requires forall i | 0 <= i < |steps| :: SingleFolder(steps[i])
    ensures |folder| == |steps| && forall i | 0 <= i < |steps| :: folder[i] == StepOf(path, steps[i])
  {
    seq(|steps|, i requires 0 <= i < |steps| => StepOf(path, steps[i]))
  }

  /** A run of the path protocol from two new installations is a run of a whole folder. */
  lemma PathRunIsFolderRun(net: Protocol.Net, path: Path, states: seq<State>, steps: seq<Step>)
    requires Less(net.initiator, net.peer) && FreshRun(net, path, states, steps)
    ensures Protocol.Run(net, Systems(path, states), FolderSteps(path, steps))
    ensures forall i | 0 <= i < |states| :: Protocol.View(Systems(path, states)[i], path) == states[i]
  {
    var run, folder := Systems(path, states), FolderSteps(path, steps);
    forall i | 0 <= i < |steps| ensures Protocol.Next(net, run[i], folder[i], run[i + 1]) {
      assert Next(Protocol.LinkAt(net, path), states[i], steps[i], states[i + 1]);
      FolderStep(net, path, states[i], steps[i], states[i + 1]);
    }
    forall i | 0 <= i < |states| ensures Protocol.View(run[i], path) == states[i] {
      Views(path, states[i], path);
    }
  }

  const NET := Protocol.Net("a", "b")
  const L := Link("a", "b", "f")

  function Bytes(hash: string): Option<File> {
    Some(File(hash, 1, 1, 0, NO_METADATA))
  }

  function Place(hash: string): Spot {
    Spot(Bytes(hash), false, false)
  }

  /** What a scan records for the file. */
  function Scanned(version: Vector, hash: string): Option<Entry> {
    Some(Content(version, hash, NO_METADATA).(size := 1, ino := 1))
  }

  const NEW := State(None, None, NO_FILE, NO_FILE, Idle, true)

  /** Reading a state off the run. */
  ghost predicate Reached(s: State) {
    exists run, steps :: Protocol.Run(NET, run, steps) && Protocol.View(run[|steps|], "f") == s
  }

  lemma RunReaches(states: seq<State>, steps: seq<Step>)
    requires FreshRun(NET, "f", states, steps)
    ensures Reached(states[|steps|]) && Invariant(L, states[|steps|])
  {
    assert Less("a", "b");
    PathRunIsFolderRun(NET, "f", states, steps);
    Protocol.RunKeepsInvariant(NET, Systems("f", states), FolderSteps("f", steps), |steps|);
    assert Protocol.View(Systems("f", states)[|FolderSteps("f", steps)|], "f") == states[|steps|];
  }

  /** Two edits by the same installation. */
  lemma Increments()
    ensures Increment(map[], "a") == map["a" := 1] && Increment(map["a" := 1], "a") == map["a" := 2]
    ensures Increment(map[], "b") == map["b" := 1] && Increment(map["b" := 1], "b") == map["b" := 2]
    ensures Increment(map["a" := 2], "b") == map["a" := 2, "b" := 1]
  {
  }

  const EDITED := Spot(Some(File("y", 2, 1, 0, NO_METADATA)), false, false)

  const CREATED_A := Content(map["a" := 1], "x", NO_METADATA).(size := 1, ino := 1)
  const CREATED_B := Content(map["b" := 1], "x", NO_METADATA).(size := 1, ino := 1)
  const LISTED_B := Content(map["b" := 1], "x", NO_METADATA).(size := 1)
  const MERGED := map["a" := 1, "b" := 1]
  const EDITED_B := Content(map["b" := 2], "y", NO_METADATA).(size := 2, ino := 1)

  const HALF_MERGED := State(Some(CREATED_A.(version := MERGED)), Some(EDITED_B), Place("x"), EDITED,
                             Planned(Some(CREATED_A), Some(LISTED_B), Half), false)

  lemma ConcurrentCreation()
    ensures Vectors.Merge(map["a" := 1], map["b" := 1]) == MERGED
    ensures ActionFor(L, Some(CREATED_A), Some(LISTED_B)) == Some(FileAction("f", ActionKind.Merge, "", MERGED))
  {
    assert CREATED_A.version["a"] > At(LISTED_B.version, "a") && LISTED_B.version["b"] > At(CREATED_A.version, "b");
    assert Vectors.Merge(map["a" := 1], map["b" := 1]) == MERGED;
    EqualFilesMerge(L, CREATED_A, LISTED_B);
  }

  lemma Extend(states: seq<State>, steps: seq<Step>, step: Step, next: State)
    returns (longer: seq<State>, more: seq<Step>)
    requires FreshRun(NET, "f", states, steps) && SingleFolder(step) && Next(L, states[|steps|], step, next)
    ensures longer == states + [next] && more == steps + [step] && FreshRun(NET, "f", longer, more)
  {
    longer, more := states + [next], steps + [step];
    forall i | 0 <= i < |more| ensures Next(L, longer[i], more[i], longer[i + 1]) {
      if i < |steps| {
        assert Next(L, states[i], steps[i], states[i + 1]);
      }
    }
  }

  const HALF_DONE := State(Some(CREATED_A.(version := MERGED)), Some(CREATED_B), Place("x"), Place("x"),
                           Planned(Some(CREATED_A), Some(LISTED_B), Half), true)

  /** Both sides create the same file and the initiator commits its half of the merge. */
  lemma HalfMergedRun() returns (states: seq<State>, steps: seq<Step>)
    ensures FreshRun(NET, "f", states, steps) && |steps| == 4 && states[4] == HALF_DONE
    ensures forall i | 0 <= i < 4 :: !steps[i].CommitPeer?
  {
    ConcurrentCreation();
    Increments();
    var s1 := NEW.(spotA := Place("x"), spotB := Place("x"));
    var s2 := s1.(a := Some(CREATED_A), phase := Begun(Some(CREATED_A)));
    var s3 := s2.(b := Some(CREATED_B), phase := Planned(Some(CREATED_A), Some(LISTED_B), Waiting));
    assert Next(L, NEW, Edit(Place("x"), Place("x")), s1);
    assert Next(L, s1, Begin(0), s2);
    assert Next(L, s2, List(0), s3);
    assert Next(L, s3, CommitInitiator(0, Bytes("x").value), HALF_DONE);
    states := [NEW, s1, s2, s3, HALF_DONE];
    steps := [Edit(Place("x"), Place("x")), Begin(0), List(0), CommitInitiator(0, Bytes("x").value)];
  }

  /** Then the peer edits its copy and is scanned before its half arrives. */
  lemma RescannedRun() returns (states: seq<State>, steps: seq<Step>)
    ensures FreshRun(NET, "f", states, steps) && |steps| == 6 && states[6] == HALF_MERGED
    ensures forall i | 0 <= i < 6 :: !steps[i].CommitPeer?
  {
    states, steps := HalfMergedRun();
    Increments();
    var s5 := HALF_DONE.(spotB := EDITED);
    assert CREATED_B.version["b"] == 1 && EDITED_B.version["b"] == 2;
    states, steps := Extend(states, steps, Edit(Place("x"), EDITED), s5);
    states, steps := Extend(states, steps, Rescan(Peer, 0), HALF_MERGED);
  }

  /** The merge the peer would receive now leaves equal versions over different contents. */
  lemma MergeAfterRescanDiverges()
    ensures Reached(HALF_MERGED) && Invariant(L, HALF_MERGED)
    ensures ActionFor(L, HALF_MERGED.phase.local, HALF_MERGED.phase.remote) ==
      Some(FileAction("f", ActionKind.Merge, "", MERGED))
    ensures !Consistent(L, HALF_MERGED.a.value,
        PeerResult(FileAction("f", ActionKind.Merge, "", MERGED), CREATED_A, EDITED_B, 0))
  {
    var states, steps := RescannedRun();
    ConcurrentCreation();
    RunReaches(states, steps);
    LandingMerge();
  }

  lemma LandingMerge()
    ensures !Consistent(L, HALF_MERGED.a.value,
        PeerResult(FileAction("f", ActionKind.Merge, "", MERGED), CREATED_A, EDITED_B, 0))
  {
    SameAt(MERGED, MERGED);
  }

  const REWRITTEN := Spot(Some(File("z", 2, 1, 0, NO_METADATA)), false, false)
  const REWRITTEN_A := Content(map["a" := 2, "b" := 1], "z", NO_METADATA).(size := 2, ino := 1)
  const MOVED_ON := HALF_MERGED.(a := Some(REWRITTEN_A), spotA := REWRITTEN)
  const MERGED_OVER := MOVED_ON.(b := Some(EDITED_B.(version := MERGED)),
                                 phase := Planned(Some(CREATED_A), Some(LISTED_B), Settled))

  /** If the initiator edits and scans its copy too, the merge lands: the peer's edit now stands under a version that
      does not count it, the initiator's version dominates it without having seen it, and the next plan pushes over
      it. Edited on both sides, the file should have been a conflict. */
  lemma MergeHidesPeerEdit() returns (run: seq<Protocol.System>, steps: seq<Protocol.Step>)
    ensures Protocol.Run(NET, run, steps) && |steps| == 9 && Protocol.View(run[9], "f") == MERGED_OVER
    ensures MERGED_OVER.a.value.hash == "z" && MERGED_OVER.b.value.hash == "y"
    ensures var t := Protocol.TraceAt(NET, run, steps, "f", 9); !(t.b <= t.a)
    ensures Compare(MERGED_OVER.a.value.version, MERGED_OVER.b.value.version) == Greater
    ensures ActionFor(L, MERGED_OVER.a, ListedOption(MERGED_OVER.b)) ==
      Some(FileAction("f", Push, "a", REWRITTEN_A.version))
  {
    run, steps := MergedOverFolder();
    MovedOnMerge();
    PushesOver();
    HiddenEdit(run, steps);
  }

  lemma HiddenEdit(run: seq<Protocol.System>, steps: seq<Protocol.Step>)
    requires Protocol.Run(NET, run, steps) && |steps| == 9
    requires Protocol.View(run[8], "f") == MOVED_ON && Protocol.StepAt(steps[8], "f") == CommitPeer(0, Bytes("x").value)
    requires Protocol.MergesListedUpTo(NET, run, steps, "f", 8)
    ensures var t := Protocol.TraceAt(NET, run, steps, "f", 9); !(t.b <= t.a)
  {
    ConcurrentCreation();
    MovedOnMerge();
    Protocol.MergeHidesEdits(NET, run, steps, "f", 8);
  }

  lemma PushesOver()
    ensures ActionFor(L, MERGED_OVER.a, ListedOption(MERGED_OVER.b)) ==
      Some(FileAction("f", Push, "a", REWRITTEN_A.version))
  {
    MovedOnMerge();
  }

  /** The run as one of a folder. */
  lemma MergedOverFolder() returns (run: seq<Protocol.System>, steps: seq<Protocol.Step>)
    ensures Protocol.Run(NET, run, steps) && |steps| == 9
    ensures Protocol.View(run[8], "f") == MOVED_ON && Protocol.StepAt(steps[8], "f") == CommitPeer(0, Bytes("x").value)
    ensures Protocol.View(run[9], "f") == MERGED_OVER
    ensures Protocol.MergesListedUpTo(NET, run, steps, "f", 8)
  {
    var states, path := MergedOverRun();
    run, steps := FolderRun(states, path);
    CommitsLast(run, steps, path);
  }

  lemma CommitsLast(run: seq<Protocol.System>, steps: seq<Protocol.Step>, path: seq<Step>)
    requires |run| == |steps| + 1 && |steps| == |path| == 9
    requires forall i | 0 <= i < 9 :: Protocol.StepAt(steps[i], "f") == path[i]
    requires forall i | 0 <= i < 8 :: !path[i].CommitPeer?
    ensures Protocol.MergesListedUpTo(NET, run, steps, "f", 8)
  {
  }

  lemma FolderRun(states: seq<State>, path: seq<Step>) returns (run: seq<Protocol.System>, steps: seq<Protocol.Step>)
    requires FreshRun(NET, "f", states, path)
    ensures Protocol.Run(NET, run, steps) && |steps| == |path| && |run| == |states|
    ensures forall i | 0 <= i < |run| :: Protocol.View(run[i], "f") == states[i]
    ensures forall i | 0 <= i < |steps| :: Protocol.StepAt(steps[i], "f") == path[i]
  {
    assert Less("a", "b");
    PathRunIsFolderRun(NET, "f", states, path);
    run, steps := Systems("f", states), FolderSteps("f", path);
    forall i | 0 <= i < |steps| ensures Protocol.StepAt(steps[i], "f") == path[i] {
      StepRead("f", path[i]);
    }
  }

  lemma StepRead(path: Path, step: Step)
    requires SingleFolder(step)
    ensures Protocol.StepAt(StepOf(path, step), path) == step
  {
  }

  lemma MovedOnMerge()
    ensures !Same(EDITED_B.version, LISTED_B.version) && !Same(REWRITTEN_A.version, MERGED)
    ensures Compare(REWRITTEN_A.version, MERGED) == Greater
  {
    assert EDITED_B.version["b"] > At(LISTED_B.version, "b") && REWRITTEN_A.version["a"] > At(MERGED, "a");
  }

  lemma MergedOverRun() returns (states: seq<State>, steps: seq<Step>)
    ensures FreshRun(NET, "f", states, steps) && |steps| == 9 && states[8] == MOVED_ON && states[9] == MERGED_OVER
    ensures steps[8] == CommitPeer(0, Bytes("x").value) && forall i | 0 <= i < 8 :: !steps[i].CommitPeer?
  {
    states, steps := RescannedRun();
    ConcurrentCreation();
    MovedOnMerge();
    assert Increment(MERGED, "a") == REWRITTEN_A.version;
    states, steps := Extend(states, steps, Edit(REWRITTEN, EDITED), HALF_MERGED.(spotA := REWRITTEN));
    states, steps := Extend(states, steps, Rescan(Initiator, 0), MOVED_ON);
    states, steps := Extend(states, steps, CommitPeer(0, Bytes("x").value), MERGED_OVER);
  }

  const GONE := Tombstone(map["a" := 2], 0)
  const PUSHED := Content(map["a" := 1], "x", NO_METADATA)
  const LISTED_A := Content(map["a" := 1], "x", NO_METADATA).(size := 1)
  const PUSH := FileAction("f", Push, "a", map["a" := 1])
  const DELETE := FileAction("f", Delete, "a", map["a" := 2])

  const DELETED := State(Some(GONE), Some(GONE), NO_FILE, NO_FILE, Planned(Some(GONE), Some(LISTED_A), Settled), true)

  lemma OneSidedPlans()
    ensures ActionFor(L, Some(CREATED_A), None) == Some(PUSH)
    ensures ActionFor(L, Some(GONE), Some(LISTED_A)) == Some(DELETE)
  {
    assert CREATED_A.version["a"] > At(map[], "a") && GONE.version["a"] > At(LISTED_A.version, "a");
  }

  const PUSHED_BOTH :=
    State(Some(CREATED_A), Some(PUSHED), Place("x"), Place("x"), Planned(Some(CREATED_A), None, Settled), true)

  lemma PushedRun() returns (states: seq<State>, steps: seq<Step>)
    ensures FreshRun(NET, "f", states, steps) && |steps| == 4 && states[4] == PUSHED_BOTH
  {
    Increments();
    OneSidedPlans();
    var s1 := NEW.(spotA := Place("x"));
    var s2 := s1.(a := Some(CREATED_A), phase := Begun(Some(CREATED_A)));
    var s3 := s2.(phase := Planned(Some(CREATED_A), None, Waiting));
    assert Next(L, NEW, Edit(Place("x"), NO_FILE), s1);
    assert Next(L, s1, Begin(0), s2);
    assert Next(L, s2, List(0), s3);
    assert Next(L, s3, CommitPeer(0, Bytes("x").value), PUSHED_BOTH);
    states := [NEW, s1, s2, s3, PUSHED_BOTH];
    steps := [Edit(Place("x"), NO_FILE), Begin(0), List(0), CommitPeer(0, Bytes("x").value)];
  }

  /** The first installation creates a file, the peer receives it, the first deletes it again and the peer follows. */
  lemma DeletedRun() returns (states: seq<State>, steps: seq<Step>)
    ensures FreshRun(NET, "f", states, steps) && |steps| == 8 && states[8] == DELETED
  {
    states, steps := PushedRun();
    Increments();
    OneSidedPlans();
    var s5 := PUSHED_BOTH.(spotA := NO_FILE);
    var s6 := s5.(a := Some(GONE), phase := Begun(Some(GONE)));
    var s7 := s6.(b := Some(CREATED_A), phase := Planned(Some(GONE), Some(LISTED_A), Waiting));
    states, steps := Extend(states, steps, Edit(NO_FILE, Place("x")), s5);
    states, steps := Extend(states, steps, Begin(0), s6);
    states, steps := Extend(states, steps, List(0), s7);
    states, steps := Extend(states, steps, CommitPeer(0, Bytes("x").value), DELETED);
  }

  /** If only the first installation's half of the acknowledgement lands now, its counter restarts behind the peer's
      copy. */
  lemma HalfAcknowledgementDiverges()
    ensures Reached(DELETED) && Invariant(L, DELETED) && Enabled(L, DELETED, Acknowledge(GONE.version))
    ensures Collect(DELETED.a, GONE.version).None?
    ensures !Consistent(L, Get(Collect(DELETED.a, GONE.version)), Get(DELETED.b))
  {
    var states, steps := DeletedRun();
    RunReaches(states, steps);
  }

  const RECREATED := Content(map["a" := 2, "b" := 1], "y", NO_METADATA).(size := 2, ino := 1)
  const OVERTAKEN := DELETED.(b := Some(RECREATED), spotB := EDITED, clean := false)

  /** If the peer's user creates the file anew and a scan sees it before the acknowledgement, even an acknowledgement
      that lands on both sides leaves the first installation behind the peer's copy of its counter. */
  lemma OvertakenAcknowledgementDiverges()
    ensures Reached(OVERTAKEN) && Invariant(L, OVERTAKEN)
    ensures var a, b := Collect(OVERTAKEN.a, GONE.version), Collect(OVERTAKEN.b, GONE.version);
      a.None? && b == OVERTAKEN.b && !Consistent(L, Get(a), Get(b))
  {
    var states, steps := DeletedRun();
    Increments();
    var s9 := DELETED.(spotB := EDITED);
    assert RECREATED.version["b"] > At(GONE.version, "b");
    states, steps := Extend(states, steps, Edit(NO_FILE, EDITED), s9);
    states, steps := Extend(states, steps, Rescan(Peer, 0), OVERTAKEN);
    RunReaches(states, steps);
  }
}

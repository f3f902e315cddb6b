/** Plans reconciliation from two indexes; it applies nothing. */
module Engine {
  import opened Index
  import opened Metadata
  import opened Order
  import opened Prelude
  import opened Vectors

  datatype ActionKind = Push | Pull | Delete | Resurrect | Conflict | Merge

  /** `vector` is what both replicas must hold for `path` once the action lands. */
  datatype Action = Action(
    path: Path,
    kind: ActionKind,
    source: string,
    winner: string,
    loser: string,
    directory: bool,
    vector: Vector
  )

  datatype Plan = Plan(actions: seq<Action>, directoryActions: seq<Action>, halted: bool, reason: string)

  type Directories = map<Path, Manifest>

  const DELETE_FLOOR := 10

  /** More deletions than the larger of ten and a fifth of the paths, rounded up. */
  predicate DeleteThreshold(deletes: nat, total: nat) {
    deletes > Max(DELETE_FLOOR, (total + 4) / 5)
  }

  function FileAction(path: Path, kind: ActionKind, source: string, vector: Vector): Action {
    Action(path, kind, source, "", "", false, vector)
  }

  function OneSidedAction(path: Path, winnerName: string, winner: Entry, contentKind: ActionKind): Action {
    FileAction(path, if winner.deleted then Delete else contentKind, winnerName, winner.version)
  }

  function ResolveConflict(leftName: string, rightName: string): (string, string) {
    if Less(leftName, rightName) then (leftName, rightName) else (rightName, leftName)
  }

  function ConcurrentAction(path: Path, leftName: string, left: Entry, rightName: string, right: Entry): Action {
    var merged := Vectors.Merge(left.version, right.version);
    if left.deleted && right.deleted then
      FileAction(path, Merge, "", merged)
    else if left.deleted then
      FileAction(path, Resurrect, rightName, merged)
    else if right.deleted then
      FileAction(path, Resurrect, leftName, merged)
    else if left.hash == right.hash then
      FileAction(path, Merge, "", merged)
    else
      var (winner, loser) := ResolveConflict(leftName, rightName);
      Action(path, Conflict, "", winner, loser, false, merged)
  }

  /** Plans one path. A missing entry is the zero entry, so it never reads as a deletion. */
  function Decide(path: Path, leftName: string, left: Entry, rightName: string, right: Entry): Option<Action> {
    match Compare(left.version, right.version)
    case Equal => None
    case Greater => Some(OneSidedAction(path, leftName, left, Push))
    case Lesser => Some(OneSidedAction(path, rightName, right, Pull))
    case Concurrent => Some(ConcurrentAction(path, leftName, left, rightName, right))
  }

  /** The file actions for a sequence of paths, in its order. */
  function PlanFiles(paths: seq<Path>, leftName: string, left: Entries, rightName: string,
                     right: Entries): seq<Action> {
    if paths == [] then [] else
      var last := |paths| - 1;
      var before := PlanFiles(paths[..last], leftName, left, rightName, right);
      match Decide(paths[last], leftName, Lookup(left, paths[last]), rightName, Lookup(right, paths[last]))
      case None => before
      case Some(action) => before + [action]
  }

  function CountDeletes(actions: seq<Action>): nat {
    if actions == [] then 0 else
      CountDeletes(actions[..|actions| - 1]) + if actions[|actions| - 1].kind == Delete then 1 else 0
  }

  function Held(directories: Directories, path: Path): Option<Manifest> {
    if path in directories then Some(directories[path]) else None
  }

  function DirectoryAction(path: Path, kind: ActionKind, source: string): Action {
    Action(path, kind, source, "", "", true, map[])
  }

  /** Three-way comparison of one directory against the manifest last committed locally. */
  function DecideDirectory(path: Path, leftName: string, left: Option<Manifest>, rightName: string,
                           right: Option<Manifest>, previous: Option<Manifest>): Option<Action>
  {
    var leftChanged := left.Some? != previous.Some? || (left.Some? && previous.Some? && left.value != previous.value);
    var rightChanged := right.Some? != previous.Some?
        || (right.Some? && previous.Some? && right.value != previous.value);
    var stable := !leftChanged && !rightChanged;
    var converged := leftChanged && rightChanged && left.Some? && right.Some? && left.value == right.value;
    var bothDeleted := leftChanged && rightChanged && left.None? && right.None?;
    if stable || converged || bothDeleted then None
    else Some(
      if leftChanged && rightChanged && left.None? then DirectoryAction(path, Resurrect, rightName)
      else if leftChanged && rightChanged && right.None? then DirectoryAction(path, Resurrect, leftName)
      else if leftChanged && rightChanged then
        if ResolveConflict(leftName, rightName).0 == leftName then DirectoryAction(path, Push, leftName)
        else DirectoryAction(path, Pull, rightName)
      else if leftChanged && left.Some? then DirectoryAction(path, Push, leftName)
      else if leftChanged then DirectoryAction(path, Delete, leftName)
      else if right.Some? then DirectoryAction(path, Pull, rightName)
      else DirectoryAction(path, Delete, rightName))
  }

  function PlanDirectoryPaths(paths: seq<Path>, leftName: string, left: Directories, rightName: string,
                              right: Directories, previous: Directories): seq<Action>
  {
    if paths == [] then [] else
      var last := |paths| - 1;
      var before := PlanDirectoryPaths(paths[..last], leftName, left, rightName, right, previous);
      var path := paths[last];
      match DecideDirectory(path, leftName, Held(left, path), rightName, Held(right, path), Held(previous, path))
      case None => before
      case Some(action) => before + [action]
  }

  /** The two halves of an index that planning reads. */
  datatype Side = Side(name: string, entries: Entries, directories: Directories)

  ghost function FilePlan(left: Side, right: Side): seq<Action> {
    PlanFiles(Enumerate(left.entries.Keys + right.entries.Keys), left.name, left.entries, right.name, right.entries)
  }

  ghost function DirectoryPlan(left: Side, right: Side, previous: Directories): seq<Action> {
    PlanDirectoryPaths(Enumerate(left.directories.Keys + right.directories.Keys + previous.Keys),
                       left.name, left.directories, right.name, right.directories, previous)
  }

  /** The plan as a function of its inputs. */
  ghost function PlanOf(left: Side, right: Side, previous: Directories): Plan {
    if left.name == "" || right.name == "" || left.name == right.name then
      Plan([], [], true, "replica identities must be distinct and non-empty")
    else
      Limited(FilePlan(left, right), |left.entries.Keys + right.entries.Keys|, DirectoryPlan(left, right, previous))
  }

  /** Halts instead of planning too many deletions. */
  function Limited(actions: seq<Action>, total: nat, directoryActions: seq<Action>): Plan {
    if DeleteThreshold(CountDeletes(actions), total) then
      Plan([], [], true, "deletion threshold exceeded")
    else
      Plan(actions, directoryActions, false, "")
  }

  method PlanStates(left: Side, right: Side, previous: Directories) returns (plan: Plan)
    ensures plan == PlanOf(left, right, previous)
  {
    if left.name == "" || right.name == "" || left.name == right.name {
      return Plan([], [], true, "replica identities must be distinct and non-empty");
    }
    var ordered := Sort(left.entries.Keys + right.entries.Keys);
    EnumerateSize(left.entries.Keys + right.entries.Keys);
    var actions, deletes := PlanFileActions(ordered, left, right);
    if DeleteThreshold(deletes, |ordered|) {
      return Plan([], [], true, "deletion threshold exceeded");
    }
    var directoryActions := PlanDirectories(left, right, previous);
    plan := Plan(actions, directoryActions, false, "");
  }

  /** The loop of `PlanStates` over the ordered paths. */
  method PlanFileActions(ordered: seq<Path>, left: Side, right: Side) returns (actions: seq<Action>, deletes: nat)
    ensures actions == PlanFiles(ordered, left.name, left.entries, right.name, right.entries)
    ensures deletes == CountDeletes(actions)
  {
    actions, deletes := [], 0;
    for i := 0 to |ordered|
      invariant actions == PlanFiles(ordered[..i], left.name, left.entries, right.name, right.entries)
      invariant deletes == CountDeletes(actions)
    {
      assert ordered[..i + 1][..i] == ordered[..i];
      var decision := Decide(ordered[i], left.name, Lookup(left.entries, ordered[i]), right.name,
          Lookup(right.entries, ordered[i]));
      if decision.Some? {
        if decision.value.kind == Delete {
          deletes := deletes + 1;
        }
        assert (actions + [decision.value])[..|actions|] == actions;
        actions := actions + [decision.value];
      }
    }
    assert ordered[..|ordered|] == ordered;
  }

  method PlanDirectories(left: Side, right: Side, previous: Directories) returns (actions: seq<Action>)
    ensures actions == DirectoryPlan(left, right, previous)
  {
    var ordered := Sort(left.directories.Keys + right.directories.Keys + previous.Keys);
    actions := [];
    for i := 0 to |ordered|
      invariant actions ==
        PlanDirectoryPaths(ordered[..i], left.name, left.directories, right.name, right.directories, previous)
    {
      assert ordered[..i + 1][..i] == ordered[..i];
      var path := ordered[i];
      var decision := DecideDirectory(path, left.name, Held(left.directories, path), right.name,
          Held(right.directories, path), Held(previous, path));
      match decision {
        case None =>
        case Some(action) => actions := actions + [action];
      }
    }
    assert ordered[..|ordered|] == ordered;
  }
}

/** What a plan promises: exactly the diverged paths, in order, and the mirror image for the other side. */
module EngineProperties {
  import opened Engine
  import opened Index
  import opened Metadata
  import opened Order
  import opened Prelude
  import opened Vectors

  ghost predicate Diverged(path: Path, left: Entries, right: Entries) {
    !Same(Lookup(left, path).version, Lookup(right, path).version)
  }

  ghost predicate Plans(actions: seq<Action>, path: Path) {
    exists i | 0 <= i < |actions| :: actions[i].path == path
  }

  ghost predicate Increasing(actions: seq<Action>) {
    forall i, j | 0 <= i < j < |actions| :: Less(actions[i].path, actions[j].path)
  }

  /** Every action is the decision for its own path, paths increase, and the planned paths are the diverged ones. */
  lemma {:induction false} PlanFilesExact(paths: seq<Path>, ln: string, left: Entries, rn: string, right: Entries)
    requires Sorted(paths)
    ensures var actions := PlanFiles(paths, ln, left, rn, right);
      && Increasing(actions)
      && (forall p :: Plans(actions, p) <==> p in paths && Diverged(p, left, right))
      && (forall a | a in actions :: Decide(a.path, ln, Lookup(left, a.path), rn, Lookup(right, a.path)) == Some(a))
  {
    var actions := PlanFiles(paths, ln, left, rn, right);
    if paths != [] {
      var last := |paths| - 1;
      var p := paths[last];
      PlanFilesExact(paths[..last], ln, left, rn, right);
      var before := PlanFiles(paths[..last], ln, left, rn, right);
      forall i | 0 <= i < |before| ensures Less(before[i].path, p) {
        assert Plans(before, before[i].path);
      }
      DecidesDivergence(p, ln, left, rn, right);
      PlansAppend(before, Decide(p, ln, Lookup(left, p), rn, Lookup(right, p)));
      assert forall q :: q in paths <==> q in paths[..last] || q == p;
    }
  }

  lemma DecidesDivergence(path: Path, ln: string, left: Entries, rn: string, right: Entries)
    ensures var d := Decide(path, ln, Lookup(left, path), rn, Lookup(right, path));
      && (d.Some? <==> Diverged(path, left, right))
      && (d.Some? ==> d.value.path == path)
  {
  }

  lemma PlansAppend(before: seq<Action>, decision: Option<Action>)
    ensures decision.Some? ==> forall q :: Plans(before + [decision.value], q) <==>
      Plans(before, q) || q == decision.value.path
  {
    if decision.Some? {
      var actions := before + [decision.value];
      assert actions[|before|] == decision.value;
      forall q | Plans(before, q) ensures Plans(actions, q) {
        var i :| 0 <= i < |before| && before[i].path == q;
        assert actions[i].path == q;
      }
    }
  }

  /** A plan that is not halted has one action for each diverged path, sorted, and respects the deletion limit. */
  lemma PlanCoversDivergence(left: Side, right: Side, previous: Directories)
    requires !PlanOf(left, right, previous).halted
    ensures var actions := PlanOf(left, right, previous).actions;
      && Increasing(actions)
      && (forall p :: Plans(actions, p) <==> Diverged(p, left.entries, right.entries))
      && CountDeletes(actions) <= Max(DELETE_FLOOR, (|left.entries.Keys + right.entries.Keys| + 4) / 5)
  {
    var keys := left.entries.Keys + right.entries.Keys;
    PlanFilesExact(Enumerate(keys), left.name, left.entries, right.name, right.entries);
    DivergedIsKnown(left.entries, right.entries);
  }

  lemma DivergedIsKnown(left: Entries, right: Entries)
    ensures forall p | Diverged(p, left, right) :: p in left.Keys + right.Keys
  {
  }

  /** One side's tombstone is strictly ahead of what the other side knows. */
  ghost predicate Doomed(left: Entries, right: Entries, path: Path) {
    var l, r := Lookup(left, path), Lookup(right, path);
    (Compare(l.version, r.version) == Greater && l.deleted) || (Compare(l.version, r.version) == Lesser && r.deleted)
  }

  lemma DecidesDoomed(path: Path, ln: string, left: Entries, rn: string, right: Entries)
    ensures var d := Decide(path, ln, Lookup(left, path), rn, Lookup(right, path));
      Doomed(left, right, path) <==> d.Some? && d.value.kind == Delete
  {
  }

  ghost function AllDoomed(paths: seq<Path>, left: Entries, right: Entries): set<Path> {
    set p | p in paths && Doomed(left, right, p)
  }

  lemma DoomedExtends(paths: seq<Path>, p: Path, left: Entries, right: Entries)
    requires p !in paths
    ensures |AllDoomed(paths + [p], left, right)| ==
      |AllDoomed(paths, left, right)| + if Doomed(left, right, p) then 1 else 0
  {
    assert AllDoomed(paths + [p], left, right) ==
      if Doomed(left, right, p) then AllDoomed(paths, left, right) + {p} else AllDoomed(paths, left, right);
  }

  lemma {:induction false} DeletesCounted(paths: seq<Path>, ln: string, left: Entries, rn: string, right: Entries)
    requires Sorted(paths)
    ensures CountDeletes(PlanFiles(paths, ln, left, rn, right)) == |AllDoomed(paths, left, right)|
  {
    if paths == [] {
      assert AllDoomed(paths, left, right) == {};
    } else {
      var last := |paths| - 1;
      var p := paths[last];
      DeletesCounted(paths[..last], ln, left, rn, right);
      DecidesDoomed(p, ln, left, rn, right);
      LessIrreflexive(p);
      assert paths == paths[..last] + [p] && p !in paths[..last];
      DoomedExtends(paths[..last], p, left, right);
      CountsOneMore(PlanFiles(paths[..last], ln, left, rn, right),
                    Decide(p, ln, Lookup(left, p), rn, Lookup(right, p)));
    }
  }

  lemma CountsOneMore(before: seq<Action>, decision: Option<Action>)
    ensures decision.Some? ==>
      CountDeletes(before + [decision.value]) == CountDeletes(before) + if decision.value.kind == Delete then 1 else 0
  {
    if decision.Some? {
      assert (before + [decision.value])[..|before|] == before;
    }
  }

  lemma LimitReached(actions: seq<Action>, total: nat, n: nat, directoryActions: seq<Action>)
    requires n == CountDeletes(actions)
    ensures Limited(actions, total, directoryActions).halted <==> n > 10 && total <= 5 * (n - 1)
  {
  }

  /** A plan is halted exactly when the names are unusable, or more than ten deletions are due and they are more than a
      fifth, rounded up, of all known paths. */
  lemma PlanHaltsExactly(left: Side, right: Side, previous: Directories)
    ensures var known := left.entries.Keys + right.entries.Keys;
      var n := |set p | p in known && Doomed(left.entries, right.entries, p)|;
      PlanOf(left, right, previous).halted <==>
        || left.name == "" || right.name == "" || left.name == right.name
        || (n > 10 && |known| <= 5 * (n - 1))
    ensures PlanOf(left, right, previous).halted ==> Refuses(PlanOf(left, right, previous))
  {
    var known := left.entries.Keys + right.entries.Keys;
    var doomed := set p | p in known && Doomed(left.entries, right.entries, p);
    DoomedCounted(left, right, known, doomed);
    if left.name != "" && right.name != "" && left.name != right.name {
      NamedPlanHalts(left, right, previous, |known|, |doomed|);
    } else {
      UnnamedPlanHalts(left, right, previous);
    }
  }

  lemma UnnamedPlanHalts(left: Side, right: Side, previous: Directories)
    requires left.name == "" || right.name == "" || left.name == right.name
    ensures Refuses(PlanOf(left, right, previous))
  {
  }

  /** The plan is halted and does nothing. */
  predicate Refuses(plan: Plan) {
    plan.halted && plan.actions == [] && plan.directoryActions == []
  }

  lemma DoomedCounted(left: Side, right: Side, known: set<Path>, doomed: set<Path>)
    requires known == left.entries.Keys + right.entries.Keys
    requires doomed == set p | p in known && Doomed(left.entries, right.entries, p)
    ensures CountDeletes(FilePlan(left, right)) == |doomed|
  {
    DeletesCounted(Enumerate(known), left.name, left.entries, right.name, right.entries);
    assert AllDoomed(Enumerate(known), left.entries, right.entries) == doomed;
  }

  lemma NamedPlanHalts(left: Side, right: Side, previous: Directories, total: nat, n: nat)
    requires left.name != right.name && left.name != "" && right.name != ""
    requires total == |left.entries.Keys + right.entries.Keys| && n == CountDeletes(FilePlan(left, right))
    ensures PlanOf(left, right, previous).halted <==> n > 10 && total <= 5 * (n - 1)
    ensures PlanOf(left, right, previous).halted ==> Refuses(PlanOf(left, right, previous))
  {
    PlanOfNamed(left, right, previous, total);
    LimitReached(FilePlan(left, right), total, n, DirectoryPlan(left, right, previous));
  }

  function MirrorKind(kind: ActionKind): ActionKind {
    match kind
    case Push => Pull
    case Pull => Push
    case other => other
  }

  /** The same resolution seen from the other replica. */
  ghost predicate Mirrors(a: Action, b: Action) {
    && b.(kind := a.kind, vector := a.vector) == a
    && b.kind == MirrorKind(a.kind)
    && Same(a.vector, b.vector)
  }

  ghost predicate AllMirror(s: seq<Action>, t: seq<Action>) {
    |s| == |t| && forall i | 0 <= i < |s| :: Mirrors(s[i], t[i])
  }

  lemma DecideMirrors(path: Path, ln: string, left: Entry, rn: string, right: Entry)
    requires ln != rn
    ensures Decide(path, ln, left, rn, right).Some? <==> Decide(path, rn, right, ln, left).Some?
    ensures Decide(path, ln, left, rn, right).Some? ==>
      Mirrors(Decide(path, ln, left, rn, right).value, Decide(path, rn, right, ln, left).value)
  {
    LessTotal(ln, rn);
    MergeSymmetric(left.version, right.version);
  }

  lemma DecideDirectoryMirrors(path: Path, ln: string, left: Option<Manifest>, rn: string, right: Option<Manifest>,
                               previous: Option<Manifest>)
    requires ln != rn
    ensures DecideDirectory(path, ln, left, rn, right, previous).Some? <==>
      DecideDirectory(path, rn, right, ln, left, previous).Some?
    ensures DecideDirectory(path, ln, left, rn, right, previous).Some? ==>
      Mirrors(DecideDirectory(path, ln, left, rn, right, previous).value,
          DecideDirectory(path, rn, right, ln, left, previous).value)
  {
    LessTotal(ln, rn);
  }

  lemma {:induction false} PlanFilesMirrors(paths: seq<Path>, ln: string, left: Entries, rn: string, right: Entries)
    requires ln != rn
    ensures AllMirror(PlanFiles(paths, ln, left, rn, right), PlanFiles(paths, rn, right, ln, left))
    ensures CountDeletes(PlanFiles(paths, ln, left, rn, right)) == CountDeletes(PlanFiles(paths, rn, right, ln, left))
  {
    if paths != [] {
      var last := |paths| - 1;
      PlanFilesMirrors(paths[..last], ln, left, rn, right);
      DecideMirrors(paths[last], ln, Lookup(left, paths[last]), rn, Lookup(right, paths[last]));
      var s, t := PlanFiles(paths, ln, left, rn, right), PlanFiles(paths, rn, right, ln, left);
      var s', t' := PlanFiles(paths[..last], ln, left, rn, right), PlanFiles(paths[..last], rn, right, ln, left);
      if s != s' {
        assert s[..|s| - 1] == s' && t[..|t| - 1] == t';
      }
    }
  }

  lemma {:induction false} PlanDirectoriesMirror(paths: seq<Path>, ln: string, left: Directories, rn: string,
                                                 right: Directories, previous: Directories)
    requires ln != rn
    ensures AllMirror(PlanDirectoryPaths(paths, ln, left, rn, right, previous),
        PlanDirectoryPaths(paths, rn, right, ln, left, previous))
  {
    if paths != [] {
      var last := |paths| - 1;
      PlanDirectoriesMirror(paths[..last], ln, left, rn, right, previous);
      DecideDirectoryMirrors(paths[last], ln, Held(left, paths[last]), rn, Held(right, paths[last]),
                             Held(previous, paths[last]));
    }
  }

  lemma FilePlanMirrors(left: Side, right: Side)
    requires left.name != right.name
    ensures AllMirror(FilePlan(left, right), FilePlan(right, left))
    ensures CountDeletes(FilePlan(left, right)) == CountDeletes(FilePlan(right, left))
  {
    assert left.entries.Keys + right.entries.Keys == right.entries.Keys + left.entries.Keys;
    PlanFilesMirrors(Enumerate(left.entries.Keys + right.entries.Keys), left.name, left.entries, right.name,
                     right.entries);
  }

  lemma DirectoryPlanMirrors(left: Side, right: Side, previous: Directories)
    requires left.name != right.name
    ensures AllMirror(DirectoryPlan(left, right, previous), DirectoryPlan(right, left, previous))
  {
    var keys := left.directories.Keys + right.directories.Keys + previous.Keys;
    assert keys == right.directories.Keys + left.directories.Keys + previous.Keys;
    PlanDirectoriesMirror(Enumerate(keys), left.name, left.directories, right.name, right.directories, previous);
  }

  ghost predicate PlansMirror(p: Plan, q: Plan) {
    && p.halted == q.halted && p.reason == q.reason
    && AllMirror(p.actions, q.actions)
    && AllMirror(p.directoryActions, q.directoryActions)
  }

  lemma LimitedMirrors(s: seq<Action>, t: seq<Action>, total: nat, d: seq<Action>, e: seq<Action>)
    requires AllMirror(s, t) && CountDeletes(s) == CountDeletes(t) && AllMirror(d, e)
    ensures PlansMirror(Limited(s, total, d), Limited(t, total, e))
  {
  }

  lemma PlanOfNamed(left: Side, right: Side, previous: Directories, total: nat)
    requires left.name != right.name && left.name != "" && right.name != ""
    requires total == |left.entries.Keys + right.entries.Keys|
    ensures PlanOf(left, right, previous) == Limited(FilePlan(left, right), total, DirectoryPlan(left, right, previous))
  {
  }

  lemma NamedPlansMirror(left: Side, right: Side, previous: Directories, total: nat,
                         s: seq<Action>, t: seq<Action>, d: seq<Action>, e: seq<Action>)
    requires left.name != right.name
    requires s == FilePlan(left, right) && t == FilePlan(right, left)
    requires d == DirectoryPlan(left, right, previous) && e == DirectoryPlan(right, left, previous)
    ensures PlansMirror(Limited(s, total, d), Limited(t, total, e))
  {
    FilePlanMirrors(left, right);
    DirectoryPlanMirrors(left, right, previous);
    LimitedMirrors(s, t, total, d, e);
  }

  /** Swapping the replicas mirrors the whole plan, files and directories alike. */
  lemma PlanMirrors(left: Side, right: Side, previous: Directories)
    ensures PlansMirror(PlanOf(left, right, previous), PlanOf(right, left, previous))
  {
    if left.name != right.name && left.name != "" && right.name != "" {
      assert left.entries.Keys + right.entries.Keys == right.entries.Keys + left.entries.Keys;
      var total := |left.entries.Keys + right.entries.Keys|;
      PlanOfNamed(left, right, previous, total);
      PlanOfNamed(right, left, previous, total);
      NamedPlansMirror(left, right, previous, total, FilePlan(left, right), FilePlan(right, left),
                       DirectoryPlan(left, right, previous), DirectoryPlan(right, left, previous));
    }
  }

  /** The manifest a directory action installs on both sides; `None` removes the directory. */
  function Installed(action: Action, leftName: string, left: Option<Manifest>,
                     right: Option<Manifest>): Option<Manifest> {
    if action.kind == Delete then None else if action.source == leftName then left else right
  }

  /** Directory planning is a three-way merge against the last committed manifest: it is silent exactly when both
      sides agree, a lone change wins whatever it is, an edit beats a removal, and the smaller name wins the rest. */
  lemma DirectoryThreeWay(path: Path, ln: string, left: Option<Manifest>, rn: string, right: Option<Manifest>,
                          previous: Option<Manifest>)
    requires ln != rn
    ensures var d := DecideDirectory(path, ln, left, rn, right, previous);
      && (d.None? <==> left == right)
      && (d.Some? ==>
            && (d.value.kind == Delete <==>
                previous.Some? && ((left.None? && right == previous) || (right.None? && left == previous)))
            && Installed(d.value, ln, left, right) ==
                 (if left == previous then right
                  else if right == previous then left
                  else if left.None? then right
                  else if right.None? then left
                  else if Less(ln, rn) then left else right))
  {
  }

  ghost function DirectoryDecision(path: Path, left: Side, right: Side, previous: Directories): Option<Action> {
    DecideDirectory(path, left.name, Held(left.directories, path), right.name, Held(right.directories, path),
        Held(previous, path))
  }

  ghost predicate ExactFor(actions: seq<Action>, paths: seq<Path>, decision: Path -> Option<Action>) {
    && Increasing(actions)
    && (forall p :: Plans(actions, p) <==> p in paths && decision(p).Some?)
    && (forall a | a in actions :: decision(a.path) == Some(a))
  }

  lemma ExactExtends(before: seq<Action>, paths: seq<Path>, p: Path, decision: Path -> Option<Action>)
    requires ExactFor(before, paths, decision) && Sorted(paths + [p])
    requires decision(p).Some? ==> decision(p).value.path == p
    ensures ExactFor(if decision(p).Some? then before + [decision(p).value] else before, paths + [p], decision)
  {
    forall i | 0 <= i < |before| ensures Less(before[i].path, p) {
      assert Plans(before, before[i].path);
      var j :| 0 <= j < |paths| && paths[j] == before[i].path;
      assert (paths + [p])[j] == paths[j] && (paths + [p])[|paths|] == p;
    }
    PlansAppend(before, decision(p));
  }

  /** Every directory action is the decision for its own path, paths increase, and no decision is left out. */
  lemma {:induction false} PlanDirectoriesExact(paths: seq<Path>, left: Side, right: Side, previous: Directories)
    requires Sorted(paths)
    ensures ExactFor(PlanDirectoryPaths(paths, left.name, left.directories, right.name, right.directories, previous),
        paths, p => DirectoryDecision(p, left, right, previous))
  {
    if paths != [] {
      var last := |paths| - 1;
      PlanDirectoriesExact(paths[..last], left, right, previous);
      var before := PlanDirectoryPaths(paths[..last], left.name, left.directories, right.name, right.directories,
          previous);
      ExactExtends(before, paths[..last], paths[last], p => DirectoryDecision(p, left, right, previous));
      assert paths == paths[..last] + [paths[last]];
    }
  }
}

/** Version vectors encode causal history: alongside a run, each copy of the entry collects the edits it derives
    from. */
module Causality {
  import opened Engine
  import opened Index
  import opened Metadata
  import opened Order
  import opened PathProtocol
  import opened Prelude
  import opened ScanRules
  import opened Vectors

  /** One edit confirmed by a scan at one installation; identities come from a clock of their own, not from the
      vectors. */
  datatype Event = Event(who: Who, id: nat)

  /** The edits behind the two current entries and the two planned-from entries; `clock` is the next identity. */
  datatype Trace = Trace(a: set<Event>, b: set<Event>, local: set<Event>, remote: set<Event>, clock: nat)

  function Of(events: set<Event>, who: Who): set<Event> {
    set e | e in events && e.who == who
  }

  predicate Reports(entry: Option<Entry>, spot: Spot) {
    ScanChange(entry, Seen(spot), spot.ignored).Some?
  }

  /** A scan that reports a change is a new edit on top of the entry it found; a commit derives from what it copies,
      and a vector-only merge from the entry that it leaves in place; an entry dropped by an acknowledgement starts
      over. */
  function Trail(l: Link, s: State, step: Step, t: Trace): Trace
    requires Enabled(l, s, step)
  {
    match step
    case Rescan(Initiator, _) =>
      if Reports(s.a, s.spotA) then t.(a := t.a + {Event(Initiator, t.clock)}, clock := t.clock + 1) else t
    case Rescan(Peer, _) =>
      if Reports(s.b, s.spotB) then t.(b := t.b + {Event(Peer, t.clock)}, clock := t.clock + 1) else t
    case Begin(_) =>
      if Reports(s.a, s.spotA) then
        t.(a := t.a + {Event(Initiator, t.clock)}, local := t.a + {Event(Initiator, t.clock)}, clock := t.clock + 1)
      else t.(local := t.a)
    case List(_) =>
      if Reports(s.b, s.spotB) then
        t.(b := t.b + {Event(Peer, t.clock)}, remote := t.b + {Event(Peer, t.clock)}, clock := t.clock + 1)
      else t.(remote := t.b)
    case CommitInitiator(_, _) =>
      var kind := ActionFor(l, s.phase.local, s.phase.remote).value.kind;
      t.(a := if kind.Pull? || kind.Delete? then t.remote else t.local + t.remote)
    case CommitPeer(_, _) =>
      var kind := ActionFor(l, s.phase.local, s.phase.remote).value.kind;
      t.(b := if kind.Push? || kind.Delete? then t.local
              else if kind.Merge? then t.local + t.b
              else t.local + t.remote)
    case Acknowledge(global) =>
      t.(a := if Collect(s.a, global) == s.a then t.a else {}, b := if Collect(s.b, global) == s.b then t.b else {})
    case PartialAcknowledge(global, landed) =>
      t.(a := if Collect(s.a, global) == s.a then t.a else {},
         b := if !landed || Collect(s.b, global) == s.b then t.b else {})
    case _ => t
  }

  /** Each counter is the number of that installation's edits in the history. */
  ghost predicate Counts(l: Link, v: Vector, events: set<Event>) {
    && At(v, l.initiator) == |Of(events, Initiator)|
    && At(v, l.peer) == |Of(events, Peer)|
    && forall f :: f != l.initiator && f != l.peer ==> At(v, f) == 0
  }

  /** No side knows an edit its author does not. */
  predicate AuthorsKnow(x: set<Event>, y: set<Event>) {
    Of(y, Initiator) <= Of(x, Initiator) && Of(x, Peer) <= Of(y, Peer)
  }

  function Other(who: Who): Who { if who == Initiator then Peer else Initiator }

  /** `y` adds only edits by `who`. */
  predicate Extends(who: Who, x: set<Event>, y: set<Event>) {
    x <= y && Of(y, Other(who)) == Of(x, Other(who))
  }

  predicate Issued(t: Trace) {
    forall e | e in t.a + t.b + t.local + t.remote :: e.id < t.clock
  }

  ghost predicate CausalInvariant(l: Link, s: State, t: Trace) {
    && Issued(t)
    && Counts(l, Get(s.a).version, t.a)
    && Counts(l, Get(s.b).version, t.b)
    && AuthorsKnow(t.a, t.b)
    && match s.phase
       case Idle => true
       case Begun(local) =>
         Counts(l, Get(local).version, t.local) && AuthorsKnow(t.local, t.b) && Extends(Initiator, t.local, t.a)
       case Planned(local, remote, task) =>
         && Counts(l, Get(local).version, t.local)
         && Counts(l, Get(remote).version, t.remote)
         && AuthorsKnow(t.local, t.remote)
         && (task == Waiting ==> Extends(Initiator, t.local, t.a) && Extends(Peer, t.remote, t.b))
         && (task == Half ==> Extends(Initiator, t.local + t.remote, t.a) && Extends(Peer, t.remote, t.b))
  }

  lemma OfOneMore(events: set<Event>, who: Who, id: nat)
    requires forall e | e in events :: e.id < id
    ensures Of(events + {Event(who, id)}, who) == Of(events, who) + {Event(who, id)}
    ensures |Of(events + {Event(who, id)}, who)| == |Of(events, who)| + 1
    ensures Of(events + {Event(who, id)}, Other(who)) == Of(events, Other(who))
  {
  }

  lemma CountsIncrement(l: Link, v: Vector, events: set<Event>, who: Who, id: nat)
    requires l.initiator != l.peer && Counts(l, v, events)
    requires forall e | e in events :: e.id < id
    ensures Counts(l, Increment(v, if who == Initiator then l.initiator else l.peer), events + {Event(who, id)})
    ensures Of(events + {Event(who, id)}, who) == Of(events, who) + {Event(who, id)}
    ensures Of(events + {Event(who, id)}, Other(who)) == Of(events, Other(who))
  {
    OfOneMore(events, who, id);
    IncrementAhead(v, if who == Initiator then l.initiator else l.peer);
  }

  lemma OfUnion(x: set<Event>, y: set<Event>, who: Who)
    ensures Of(x + y, who) == Of(x, who) + Of(y, who)
  {
  }

  /** Merging vectors is joining histories. */
  lemma CountsMerge(l: Link, x: Vector, y: Vector, hx: set<Event>, hy: set<Event>)
    requires Counts(l, x, hx) && Counts(l, y, hy) && AuthorsKnow(hx, hy)
    ensures Counts(l, Vectors.Merge(x, y), hx + hy)
    ensures Of(hx + hy, Initiator) == Of(hx, Initiator) && Of(hx + hy, Peer) == Of(hy, Peer)
  {
    MergeAt(x, y);
    OfUnion(hx, hy, Initiator);
    OfUnion(hx, hy, Peer);
    assert Of(hx + hy, Initiator) == Of(hx, Initiator);
    assert Of(hx + hy, Peer) == Of(hy, Peer);
    SubsetSize(Of(hy, Initiator), Of(hx, Initiator));
    SubsetSize(Of(hx, Peer), Of(hy, Peer));
  }

  lemma ScanReports(entry: Option<Entry>, spot: Spot, f: string, now: int)
    ensures Get(ScanSpot(entry, spot, f, now)).version ==
      if Reports(entry, spot) then Increment(Get(entry).version, f) else Get(entry).version
  {
  }

  lemma CausalScan(l: Link, s: State, step: Step, t: Trace)
    requires Less(l.initiator, l.peer) && CausalInvariant(l, s, t)
    requires step.Rescan? || step.Begin? || (step.List? && s.phase.Begun?)
    ensures CausalInvariant(l, Apply(l, s, step), Trail(l, s, step, t))
  {
    if step.List? {
      CausalList(l, s, step, t);
    } else if step.Rescan? && step.who == Peer {
      CausalPeerScan(l, s, step, t);
    } else {
      CausalInitiatorScan(l, s, step, t);
    }
  }

  lemma CausalInitiatorScan(l: Link, s: State, step: Step, t: Trace)
    requires Less(l.initiator, l.peer) && CausalInvariant(l, s, t)
    requires step.Begin? || (step.Rescan? && step.who == Initiator)
    ensures CausalInvariant(l, Apply(l, s, step), Trail(l, s, step, t))
  {
    LessIrreflexive(l.initiator);
    ScanReports(s.a, s.spotA, l.initiator, step.now);
    CountsIncrement(l, Get(s.a).version, t.a, Initiator, t.clock);
  }

  /** The peer's history after its scan: the same, or one edit of its own longer. */
  function PeerHistory(s: State, t: Trace): set<Event> {
    if Reports(s.b, s.spotB) then t.b + {Event(Peer, t.clock)} else t.b
  }

  lemma PeerHistoryCounts(l: Link, s: State, now: int, t: Trace)
    requires Less(l.initiator, l.peer) && Issued(t) && Counts(l, Get(s.b).version, t.b)
    ensures Counts(l, Get(ScanSpot(s.b, s.spotB, l.peer, now)).version, PeerHistory(s, t))
    ensures Of(PeerHistory(s, t), Initiator) == Of(t.b, Initiator)
    ensures Of(t.b, Peer) <= Of(PeerHistory(s, t), Peer)
    ensures Extends(Peer, t.b, PeerHistory(s, t))
  {
    LessIrreflexive(l.initiator);
    ScanReports(s.b, s.spotB, l.peer, now);
    CountsIncrement(l, Get(s.b).version, t.b, Peer, t.clock);
  }

  lemma CausalPeerScan(l: Link, s: State, step: Step, t: Trace)
    requires Less(l.initiator, l.peer) && CausalInvariant(l, s, t)
    requires step.Rescan? && step.who == Peer
    ensures CausalInvariant(l, Apply(l, s, step), Trail(l, s, step, t))
  {
    PeerHistoryCounts(l, s, step.now, t);
    assert Trail(l, s, step, t).b == PeerHistory(s, t);
  }

  lemma CausalList(l: Link, s: State, step: Step, t: Trace)
    requires Less(l.initiator, l.peer) && CausalInvariant(l, s, t)
    requires step.List? && s.phase.Begun?
    ensures CausalInvariant(l, Apply(l, s, step), Trail(l, s, step, t))
  {
    PeerHistoryCounts(l, s, step.now, t);
    var s', t' := Apply(l, s, step), Trail(l, s, step, t);
    assert t'.b == t'.remote == PeerHistory(s, t);
    assert Get(s'.phase.remote).version == Get(s'.b).version;
    assert Extends(Peer, t'.remote, t'.b) && AuthorsKnow(t'.local, t'.remote);
  }

  lemma CausalCommitInitiator(l: Link, s: State, step: Step, t: Trace)
    requires Invariant(l, s) && CausalInvariant(l, s, t) && step.CommitInitiator? && Enabled(l, s, step)
    ensures CausalInvariant(l, Apply(l, s, step), Trail(l, s, step, t))
  {
    LessIrreflexive(l.initiator);
    ActionVector(l, s.phase.local, s.phase.remote);
    CountsMerge(l, Get(s.phase.local).version, Get(s.phase.remote).version, t.local, t.remote);
  }

  /** The peer's half of a vector-only merge. */
  predicate MergesPeer(l: Link, s: State, step: Step) {
    && step.CommitPeer? && s.phase.Planned?
    && var action := ActionFor(l, s.phase.local, s.phase.remote);
       action.Some? && action.value.kind.Merge?
  }

  /** A vector-only merge finds the peer's entry at the version that was listed. */
  predicate MergesListed(l: Link, s: State, step: Step) {
    MergesPeer(l, s, step) ==> Same(Get(s.b).version, Get(s.phase.remote).version)
  }

  lemma CausalCommitPeer(l: Link, s: State, step: Step, t: Trace)
    requires Invariant(l, s) && CausalInvariant(l, s, t) && step.CommitPeer? && Enabled(l, s, step)
    requires MergesListed(l, s, step)
    ensures CausalInvariant(l, Apply(l, s, step), Trail(l, s, step, t))
  {
    LessIrreflexive(l.initiator);
    ActionVector(l, s.phase.local, s.phase.remote);
    CountsMerge(l, Get(s.phase.local).version, Get(s.phase.remote).version, t.local, t.remote);
    if MergesPeer(l, s, step) {
      UnmovedHistory(l, Get(s.phase.remote).version, Get(s.b).version, t.remote, t.b);
    }
  }

  /** A history that only the peer has added to is the same exactly when its version is. */
  lemma UnmovedHistory(l: Link, u: Vector, v: Vector, hu: set<Event>, hv: set<Event>)
    requires Counts(l, u, hu) && Counts(l, v, hv) && Extends(Peer, hu, hv)
    ensures Same(u, v) <==> hu == hv
    ensures Same(u, v) <==> Of(hv, Peer) <= Of(hu, Peer)
  {
    LeqAt(u, v);
    LeqAt(v, u);
    assert Of(hu, Peer) <= Of(hv, Peer) by {
      forall e | e in Of(hu, Peer) ensures e in Of(hv, Peer) { assert e in hu; }
    }
    if Same(u, v) {
      SubsetOfEqualSize(Of(hu, Peer), Of(hv, Peer));
    }
    if Of(hv, Peer) <= Of(hu, Peer) {
      forall e | e in hv ensures e in hu { assert e in Of(hv, e.who); }
    }
  }

  /** After the peer's half of a vector-only merge the initiator's version dominates the peer's. That is the truth
      about their histories, and the versions still count edits, exactly when no scan had advanced the peer's entry
      since the listing. */
  lemma MergeKeepsHistory(l: Link, s: State, step: Step, t: Trace)
    requires Invariant(l, s) && CausalInvariant(l, s, t) && Enabled(l, s, step) && MergesPeer(l, s, step)
    ensures var s', t' := Apply(l, s, step), Trail(l, s, step, t);
      && Leq(Get(s'.b).version, Get(s'.a).version)
      && (t'.b <= t'.a <==> MergesListed(l, s, step))
      && (CausalInvariant(l, s', t') <==> MergesListed(l, s, step))
  {
    LessIrreflexive(l.initiator);
    ActionVector(l, s.phase.local, s.phase.remote);
    CountsMerge(l, Get(s.phase.local).version, Get(s.phase.remote).version, t.local, t.remote);
    UnmovedHistory(l, Get(s.phase.remote).version, Get(s.b).version, t.remote, t.b);
    MergedHistory(l, s, step, t);
    MergedCounts(l, Apply(l, s, step).b.value.version, t);
    if MergesListed(l, s, step) {
      CausalCommitPeer(l, s, step, t);
    }
  }

  lemma MergedCounts(l: Link, merged: Vector, t: Trace)
    requires At(merged, l.peer) == |Of(t.remote, Peer)| && Extends(Peer, t.remote, t.b)
    ensures Counts(l, merged, t.local + t.b) ==> Of(t.b, Peer) <= Of(t.remote, Peer)
  {
    if Counts(l, merged, t.local + t.b) {
      assert Of(t.remote, Peer) <= Of(t.local + t.b, Peer);
      SubsetOfEqualSize(Of(t.remote, Peer), Of(t.local + t.b, Peer));
      forall e | e in Of(t.b, Peer) ensures e in Of(t.remote, Peer) {
        assert e in Of(t.local + t.b, Peer);
      }
    }
  }

  lemma MergedHistory(l: Link, s: State, step: Step, t: Trace)
    requires Invariant(l, s) && CausalInvariant(l, s, t) && Enabled(l, s, step) && MergesPeer(l, s, step)
    ensures var s', t' := Apply(l, s, step), Trail(l, s, step, t);
      && Leq(Get(s'.b).version, Get(s'.a).version)
      && (t'.b <= t'.a <==> Of(t.b, Peer) <= Of(t.remote, Peer))
  {
    LessIrreflexive(l.initiator);
    ActionVector(l, s.phase.local, s.phase.remote);
    CountsMerge(l, Get(s.phase.local).version, Get(s.phase.remote).version, t.local, t.remote);
    if Of(t.b, Peer) <= Of(t.remote, Peer) {
      forall e | e in t.b ensures e in t.a {
        assert e in Of(t.b, e.who);
        assert e in Of(t.remote, e.who);
      }
    }
    if t.b <= t.a {
      forall e | e in Of(t.b, Peer) ensures e in Of(t.remote, Peer) {
        assert e in Of(t.a, Peer);
      }
    }
  }

  lemma CausalAcknowledge(l: Link, s: State, step: Step, t: Trace)
    requires Invariant(l, s) && CausalInvariant(l, s, t) && step.Acknowledge? && Enabled(l, s, step)
    ensures CausalInvariant(l, Apply(l, s, step), Trail(l, s, step, t))
  {
    InvariantAcknowledge(l, s, step.global);
  }

  lemma CausalPruning(l: Link, s: State, step: Step, t: Trace)
    requires Invariant(l, s) && CausalInvariant(l, s, t) && step.PartialAcknowledge? && Enabled(l, s, step)
    ensures CausalInvariant(l, Apply(l, s, step), Trail(l, s, step, t))
  {
  }

  /** Every step keeps vectors and histories in agreement, between and across acknowledgements, unless it merges a
      vector over an entry that a scan has advanced. */
  lemma CausalStep(l: Link, s: State, step: Step, t: Trace)
    requires Invariant(l, s) && CausalInvariant(l, s, t) && Enabled(l, s, step)
    requires MergesListed(l, s, step)
    ensures CausalInvariant(l, Apply(l, s, step), Trail(l, s, step, t))
  {
    match step {
      case Rescan(_, _) => CausalScan(l, s, step, t);
      case Begin(_) => CausalScan(l, s, step, t);
      case List(_) => CausalScan(l, s, step, t);
      case CommitInitiator(_, _) => CausalCommitInitiator(l, s, step, t);
      case CommitPeer(_, _) => CausalCommitPeer(l, s, step, t);
      case Acknowledge(_) => CausalAcknowledge(l, s, step, t);
      case PartialAcknowledge(_, _) => CausalPruning(l, s, step, t);
      case _ =>
    }
  }

  lemma ShorterHistory(l: Link, u: Vector, v: Vector, hu: set<Event>, hv: set<Event>)
    requires Counts(l, u, hu) && Counts(l, v, hv) && hu <= hv
    ensures Leq(u, v)
  {
    LeqAt(u, v);
    SubsetSize(Of(hu, Initiator), Of(hv, Initiator));
    SubsetSize(Of(hu, Peer), Of(hv, Peer));
  }

  lemma HistoryOrder(l: Link, u: Vector, v: Vector, hu: set<Event>, hv: set<Event>)
    requires Counts(l, u, hu) && Counts(l, v, hv) && AuthorsKnow(hu, hv)
    ensures Leq(u, v) <==> hu <= hv
    ensures Leq(v, u) <==> hv <= hu
  {
    LeqAt(u, v);
    LeqAt(v, u);
    if hu <= hv { ShorterHistory(l, u, v, hu, hv); }
    if hv <= hu { ShorterHistory(l, v, u, hv, hu); }
    if Leq(u, v) {
      SubsetOfEqualSize(Of(hv, Initiator), Of(hu, Initiator));
      forall e | e in hu ensures e in hv { assert e in Of(hu, e.who); }
    }
    if Leq(v, u) {
      SubsetOfEqualSize(Of(hu, Peer), Of(hv, Peer));
      forall e | e in hv ensures e in hu { assert e in Of(hv, e.who); }
    }
  }

  /** Comparing versions answers exactly how the causal histories are related. */
  lemma CompareIsCausality(l: Link, s: State, t: Trace)
    requires CausalInvariant(l, s, t)
    ensures match Compare(Get(s.a).version, Get(s.b).version)
      case Equal => t.a == t.b
      case Greater => t.b < t.a
      case Lesser => t.a < t.b
      case Concurrent => !(t.a <= t.b) && !(t.b <= t.a)
  {
    HistoryOrder(l, Get(s.a).version, Get(s.b).version, t.a, t.b);
  }
}

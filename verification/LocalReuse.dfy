/** Serving a pull from a local file instead of the wire. */
module LocalReuse {
  import opened Cycle
  import opened Engine
  import opened Index
  import opened Installations
  import opened Metadata
  import opened Order
  import opened PathProtocol
  import opened Prelude
  import opened Scan
  import opened ScanRules
  import opened Vectors

  /** Copies any tracked live file with the offered digest. With the peer's entry as the offer this is what a
      transfer leaves. */
  method ReuseOffered(local: Installation, path: Path, vec: Vector, localIndex: Entries, offered: Entry)
    returns (reused: bool, o: Outcome)
    modifies local`tree, local`entries
    ensures o.Done? && reused ==>
      local.Wrote(path, offered.hash, offered.metadata, vec) && Available(localIndex, offered.hash)
    ensures o.Done? && !reused ==> local.tree == old(local.tree) && local.entries == old(local.entries)
    ensures o.Failed? ==> local.entries == old(local.entries) && Elsewhere(old(local.tree), local.tree, {path})
  {
    reused := false;
    var rest := localIndex.Keys;
    while rest != {}
      invariant rest <= localIndex.Keys
      invariant local.tree == old(local.tree) && local.entries == old(local.entries)
      decreases rest
    {
      var source :| source in rest;
      rest := rest - {source};
      if !localIndex[source].deleted && localIndex[source].hash == offered.hash {
        var mismatch := local.ReuseMismatch(source, offered.hash);
        if !mismatch {
          o := local.FileWriter(path, offered.hash, offered.metadata, vec);
          reused := o.Done?;
          return;
        }
      }
    }
    o := Done;
  }

  predicate Available(index: Entries, hash: string) {
    exists p | p in index :: !index[p].deleted && index[p].hash == hash
  }

  /** The offer is looked up in the local index, so a file that exists here is offered its own old content. */
  method ReuseLocal(local: Installation, path: Path, vec: Vector, localIndex: Entries)
    returns (reused: bool, o: Outcome)
    modifies local`tree, local`entries
    ensures o.Done? && reused ==>
      local.Wrote(path, Lookup(localIndex, path).hash, Lookup(localIndex, path).metadata, vec)
    ensures o.Done? && !reused ==> local.tree == old(local.tree) && local.entries == old(local.entries)
    ensures o.Failed? ==> local.entries == old(local.entries) && Elsewhere(old(local.tree), local.tree, {path})
  {
    reused, o := ReuseOffered(local, path, vec, localIndex, Lookup(localIndex, path));
  }

  /** The entry `ReuseLocal` commits for a pull keeps the pair consistent exactly when the peer has moved on since
      the listing or the two files had equal content already. */
  lemma LocalReuseNeedsEqualContent(l: Link, s: State, action: Action)
    requires Invariant(l, s) && s.phase.Planned? && s.phase.task == Waiting
    requires ActionFor(l, s.phase.local, s.phase.remote) == Some(action) && action.kind.Pull?
    ensures var offered, remote := Get(s.phase.local), Get(s.phase.remote);
      Consistent(l, Content(action.vector, offered.hash, offered.metadata), Get(s.b)) <==>
        (Same(Get(s.b).version, remote.version) ==> offered.hash == remote.hash)
  {
    LessIrreflexive(l.initiator);
    ActionVector(l, s.phase.local, s.phase.remote);
    SameAt(action.vector, Get(s.b).version);
    SameAt(Get(s.b).version, Get(s.phase.remote).version);
  }

  /** A file the peer has edited since both agreed: the pull is served from the old local bytes under the peer's new
      version. */
  lemma LocalReuseDiverges() returns (localIndex: Entries, remote: Entries, action: Action)
    ensures Decide("f", "a", Lookup(localIndex, "f"), "b", Lookup(remote, "f")) == Some(action) && action.kind.Pull?
    ensures Available(localIndex, Lookup(localIndex, "f").hash)
    ensures var committed := Content(action.vector, Lookup(localIndex, "f").hash, Lookup(localIndex, "f").metadata);
      Compare(committed.version, Lookup(remote, "f").version) == Equal && committed.hash != Lookup(remote, "f").hash
  {
    var older, newer := Content(map["a" := 1], "x", NO_METADATA), Content(map["a" := 1, "b" := 1], "y", NO_METADATA);
    localIndex, remote := map["f" := older], map["f" := newer];
    assert newer.version["b"] > At(older.version, "b");
    action := FileAction("f", Pull, "b", newer.version);
    assert localIndex["f"].hash == older.hash;
    SameAt(newer.version, newer.version);
  }
}

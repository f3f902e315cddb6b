/** One installation's share: its tree, its index, and the mutations it performs on itself or for its peer. Every
    external operation may fail, and a failure may come after the tree changed and before the index did. */
module Installations {
  import opened Index
  import opened Metadata
  import opened PathProtocol
  import opened Paths
  import opened Prelude
  import opened Scan
  import opened ScanRules
  import opened Vectors

  predicate HoldsHash(tree: Tree, path: Path, hash: string) {
    path in tree && tree[path].Regular? && tree[path].file.hash == hash
  }

  predicate HoldsFile(tree: Tree, path: Path, hash: string, metadata: Manifest) {
    HoldsHash(tree, path, hash) && tree[path].file.metadata == metadata
  }

  predicate Occupied(tree: Tree, path: Path) {
    exists q | q in tree :: Ancestor(path, q)
  }

  /** The path is gone, or something still stands under it. */
  predicate Cleared(tree: Tree, path: Path) {
    path !in tree || Occupied(tree, path)
  }

  /** The path has what it had, nothing, or the complete new file. */
  predicate OldNoneOrNew(before: Tree, after: Tree, path: Path, hash: string, metadata: Manifest) {
    || path !in after
    || (path in before && after[path] == before[path])
    || HoldsFile(after, path, hash, metadata)
  }

  /** Nothing outside `paths` changed. */
  ghost predicate Elsewhere(before: Tree, after: Tree, paths: set<Path>) {
    forall p | p !in paths :: (p in after <==> p in before) && (p in after ==> after[p] == before[p])
  }

  /** What was at `path` is at `target`, which was free. */
  predicate MovedTo(before: Tree, after: Tree, path: Path, target: Path) {
    path in before && target !in before && target in after && after[target] == before[path]
  }

  predicate KeptOrMoved(before: Tree, after: Tree, path: Path, target: Path) {
    path in before && ((path in after && after[path] == before[path]) || MovedTo(before, after, path, target))
  }

  class Installation {
    const fingerprint: string
    const ignores: Ignores
    var tree: Tree
    var entries: Entries
    var directories: map<Path, Manifest>
    var acknowledged: map<string, Vector>

    constructor (fingerprint: string, ignores: Ignores, tree: Tree)
      ensures this.fingerprint == fingerprint && this.ignores == ignores && this.tree == tree
      ensures entries == map[] && directories == map[] && acknowledged == map[]
    {
      this.fingerprint, this.ignores, this.tree := fingerprint, ignores, tree;
      entries, directories, acknowledged := map[], map[], map[];
    }

    /** A write of the given file's content and metadata is complete: bytes, metadata and index entry. */
    twostate predicate Wrote(path: Path, hash: string, metadata: Manifest, vec: Vector)
      reads this
    {
      && entries == old(entries)[path := Content(vec, hash, metadata)]
      && HoldsFile(tree, path, hash, metadata)
      && Elsewhere(old(tree), tree, {path})
    }

    method CommitEntry(path: Path, entry: Entry) returns (o: Outcome)
      modifies this`entries
      ensures o.Done? ==> entries == old(entries)[path := entry]
      ensures o.Failed? ==> entries == old(entries)
    {
      var fault: bool := *;
      if fault {
        return Failed("save index");
      }
      entries := entries[path := entry];
      o := Done;
    }

    /** Replaces the file: the old version leaves the path before the new one arrives. */
    method Install(path: Path, hash: string, metadata: Manifest) returns (o: Outcome)
      modifies this`tree
      ensures Elsewhere(old(tree), tree, {path}) && OldNoneOrNew(old(tree), tree, path, hash, metadata)
      ensures o.Done? ==> HoldsFile(tree, path, hash, metadata)
    {
      var fault: bool := *;
      if fault || (path in tree && !tree[path].Regular?) {
        return Failed("write temporary file");
      }
      tree := tree - {path};
      fault := *;
      if fault {
        return Failed("replace");
      }
      var size: nat, ino: nat, ctime: int := *, *, *;
      tree := tree[path := Regular(File(hash, size, ino, ctime, metadata))];
      fault := *;
      o := if fault then Failed("verify installed") else Done;
    }

    /** Moves the file to trash; a missing file is an error. */
    method Remove(path: Path) returns (o: Outcome)
      modifies this`tree
      ensures Elsewhere(old(tree), tree, {path}) && tree.Keys <= old(tree).Keys
      ensures o.Done? ==> path in old(tree) && path !in tree
    {
      if path !in tree {
        return Failed("trash: file does not exist");
      }
      var fault: bool := *;
      if fault {
        return Failed("move to trash");
      }
      tree := tree - {path};
      o := Done;
    }

    /** Sets the canonical file aside under its conflict name and installs the winner. */
    method InstallWinner(path: Path, suffix: string, hash: string, metadata: Manifest) returns (o: Outcome)
      modifies this`tree
      ensures Elsewhere(old(tree), tree, {path, ConflictName(path, suffix)})
      ensures OldNoneOrNew(old(tree), tree, path, hash, metadata)
      ensures path in old(tree) ==> KeptOrMoved(old(tree), tree, path, ConflictName(path, suffix))
      ensures o.Done? ==> HoldsFile(tree, path, hash, metadata)
      ensures o.Done? && path in old(tree) && ConflictName(path, suffix) != path ==>
        MovedTo(old(tree), tree, path, ConflictName(path, suffix))
    {
      var conflict := ConflictName(path, suffix);
      if path in tree {
        if !tree[path].Regular? || conflict in tree {
          return Failed("conflict destination already exists");
        }
        tree := tree[conflict := tree[path]] - {path};
      }
      o := Install(path, hash, metadata);
    }

    /** Writes the loser beside the canonical file; an existing artifact is never replaced. */
    method WriteConflictCopy(path: Path, suffix: string, hash: string, metadata: Manifest) returns (o: Outcome)
      modifies this`tree
      ensures Elsewhere(old(tree), tree, {ConflictName(path, suffix)})
      ensures o.Done? ==>
        ConflictName(path, suffix) !in old(tree) && HoldsFile(tree, ConflictName(path, suffix), hash, metadata)
    {
      if ConflictName(path, suffix) in tree {
        return Failed("conflict destination already exists");
      }
      o := Install(ConflictName(path, suffix), hash, metadata);
    }

    /** Reads the file; the result is the digest of the bytes read. */
    method ReadShareFile(path: Path) returns (r: Result<string>)
      ensures r.Ok? ==> HoldsHash(tree, path, r.value)
    {
      var fault: bool := *;
      if fault || path !in tree || !tree[path].Regular? {
        return Err("read file");
      }
      r := Ok(tree[path].file.hash);
    }

    /** Reads the file and checks its digest. */
    method ReadFile(path: Path, expectedHash: string) returns (o: Outcome)
      ensures o.Done? ==> HoldsHash(tree, path, expectedHash)
    {
      var data := ReadShareFile(path);
      o := if data.Ok? && data.value == expectedHash then Done else Failed("hash mismatch");
    }

    /** Scans the tree and saves the result, which carries no acknowledgements over. */
    method ScanShare(now: int) returns (o: Outcome)
      modifies this`entries, this`directories, this`acknowledged
      ensures o.Done? ==> Scanned(old(entries), tree, ignores, fingerprint, now, entries)
      ensures o.Done? ==> directories == DirectoriesOf(tree, ignores) && acknowledged == map[]
      ensures o.Failed? ==>
        entries == old(entries) && directories == old(directories) && acknowledged == old(acknowledged)
    {
      var result := Reconcile(tree, entries, ignores, fingerprint, now);
      if result.Err? {
        return Failed(result.reason);
      }
      var fault: bool := *;
      if fault {
        return Failed("save index");
      }
      entries, directories, acknowledged := result.value.entries, result.value.directories, map[];
      o := Done;
    }

    method FileWriter(path: Path, hash: string, metadata: Manifest, vec: Vector) returns (o: Outcome)
      modifies this`tree, this`entries
      ensures o.Done? ==> Wrote(path, hash, metadata, vec)
      ensures o.Failed? ==> entries == old(entries) && Elsewhere(old(tree), tree, {path})
      ensures OldNoneOrNew(old(tree), tree, path, hash, metadata)
    {
      o := Install(path, hash, metadata);
      if o.Done? {
        o := CommitEntry(path, Content(vec, hash, metadata));
      }
    }

    method FileDeleter(path: Path, vec: Vector, now: int) returns (o: Outcome)
      modifies this`tree, this`entries
      ensures Elsewhere(old(tree), tree, {path}) && tree.Keys <= old(tree).Keys
      ensures o.Done? ==> path in old(tree) && path !in tree && entries == old(entries)[path := Tombstone(vec, now)]
      ensures o.Failed? ==> entries == old(entries)
    {
      o := Remove(path);
      if o.Done? {
        o := CommitEntry(path, Tombstone(vec, now));
      }
    }

    method ConflictWriter(path: Path, suffix: string, hash: string, metadata: Manifest, vec: Vector)
      returns (o: Outcome)
      modifies this`tree, this`entries
      ensures Elsewhere(old(tree), tree, {path, ConflictName(path, suffix)})
      ensures OldNoneOrNew(old(tree), tree, path, hash, metadata)
      ensures path in old(tree) ==> KeptOrMoved(old(tree), tree, path, ConflictName(path, suffix))
      ensures o.Done? ==>
        HoldsFile(tree, path, hash, metadata) && entries == old(entries)[path := Content(vec, hash, metadata)]
      ensures o.Done? && path in old(tree) && ConflictName(path, suffix) != path ==>
        MovedTo(old(tree), tree, path, ConflictName(path, suffix))
      ensures o.Failed? ==> entries == old(entries)
    {
      o := InstallWinner(path, suffix, hash, metadata);
      if o.Done? {
        o := CommitEntry(path, Content(vec, hash, metadata));
      }
    }

    method MergeVector(path: Path, vec: Vector) returns (o: Outcome)
      modifies this`entries
      ensures o.Done? ==> path in old(entries) && entries == old(entries)[path := old(entries)[path].(version := vec)]
      ensures o.Failed? ==> entries == old(entries)
    {
      if path !in entries {
        return Failed("cannot merge vector for untracked path");
      }
      o := CommitEntry(path, entries[path].(version := vec));
    }

    /** Serves a write from some tracked file with the right bytes: when it answers yes, exactly what `FileWriter`
        would have left; when it answers no, nothing changed. */
    method FileReuser(path: Path, hash: string, metadata: Manifest, vec: Vector) returns (reused: bool, o: Outcome)
      modifies this`tree, this`entries
      ensures o.Done? && reused ==> Wrote(path, hash, metadata, vec)
      ensures o.Done? && !reused ==> tree == old(tree) && entries == old(entries)
      ensures o.Failed? ==> !reused && entries == old(entries) && Elsewhere(old(tree), tree, {path})
    {
      reused := false;
      var rest := entries.Keys;
      while rest != {}
        invariant rest <= entries.Keys
        invariant tree == old(tree) && entries == old(entries)
        decreases rest
      {
        var source :| source in rest;
        rest := rest - {source};
        if !entries[source].deleted && entries[source].hash == hash {
          var mismatch := ReuseMismatch(source, hash);
          if !mismatch {
            o := FileWriter(path, hash, metadata, vec);
            reused := o.Done?;
            return;
          }
        }
      }
      o := Done;
    }

    /** The source is gone, no longer a regular file, no longer has the digest, or changes while it is copied. */
    method ReuseMismatch(source: Path, hash: string) returns (mismatch: bool)
      ensures !mismatch ==> HoldsHash(tree, source, hash)
    {
      var changes: bool := *;
      mismatch := changes || source !in tree || !tree[source].Regular? || tree[source].file.hash != hash;
    }

    /** Records the member's acknowledgement and prunes every tombstone it dominates. */
    method AcknowledgeVector(member: string, vec: Vector) returns (o: Outcome)
      modifies this`entries, this`acknowledged
      ensures o.Done? ==> acknowledged == old(acknowledged)[member := vec]
      ensures o.Done? ==> forall p :: EntryAt(entries, p) == Collect(old(EntryAt(entries, p)), vec)
      ensures o.Failed? ==> entries == old(entries) && acknowledged == old(acknowledged)
    {
      var fault: bool := *;
      if fault {
        return Failed("save index");
      }
      var index := new FolderIndex("");
      index.entries, index.acknowledged := entries, acknowledged;
      index.Acknowledge(member, vec, [member]);
      forall p | p in entries
        ensures Collected(entries[p], index.acknowledged, [member]) <==>
          entries[p].deleted && Leq(entries[p].version, vec)
      {
        assert [member][0] == member;
        assert member in [member];
      }
      entries, acknowledged := index.entries, index.acknowledged;
      o := Done;
    }

    /** Creates the directory when needed, sets its metadata and commits its manifest. */
    method DirectoryWriter(path: Path, manifest: Manifest) returns (o: Outcome)
      modifies this`tree, this`directories
      ensures Elsewhere(old(tree), tree, {path})
      ensures o.Done? ==>
        path in tree && tree[path] == Directory(manifest) && directories == old(directories)[path := manifest]
      ensures o.Failed? ==> directories == old(directories) && old(tree).Keys <= tree.Keys
    {
      var fault: bool := *;
      if fault || (path in tree && !tree[path].Directory?) {
        return Failed("apply directory");
      }
      tree := tree[path := Directory(manifest)];
      fault := *;
      if fault {
        return Failed("save index");
      }
      directories := directories[path := manifest];
      o := Done;
    }

    /** Moves an empty directory to trash; a directory that still has anything in it is kept. */
    method RemoveDirectory(path: Path) returns (o: Outcome)
      modifies this`tree
      ensures Elsewhere(old(tree), tree, {path})
      ensures o.Done? ==> path in old(tree) && (path in tree <==> old(Occupied(tree, path)))
      ensures path in tree ==> tree == old(tree)
    {
      var fault: bool := *;
      if fault || path !in tree || !tree[path].Directory? {
        return Failed("open directory");
      }
      if !Occupied(tree, path) {
        tree := tree - {path};
      }
      o := Done;
    }

    /** The peer forgets the directory only when it is really gone. */
    method DirectoryDeleter(path: Path) returns (o: Outcome)
      modifies this`tree, this`directories
      ensures Elsewhere(old(tree), tree, {path})
      ensures o.Done? ==> Cleared(tree, path)
      ensures o.Done? ==> directories == if path in tree then old(directories) else old(directories) - {path}
      ensures o.Failed? ==> directories == old(directories)
    {
      o := RemoveDirectory(path);
      if o.Done? && path !in tree {
        o := RemoveDirectoryEntry(path);
      }
    }

    method RemoveDirectoryEntry(path: Path) returns (o: Outcome)
      modifies this`directories
      ensures directories == if o.Done? then old(directories) - {path} else old(directories)
    {
      var fault: bool := *;
      if fault {
        return Failed("save index");
      }
      directories := directories - {path};
      o := Done;
    }

    method GlobalVector() returns (global: Vector)
      ensures IsGlobal(entries, global)
    {
      var index := new FolderIndex("");
      index.entries := entries;
      global := index.GlobalVector();
    }
  }
}

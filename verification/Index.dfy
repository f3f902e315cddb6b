/** Portable metadata of one file or directory. */
module Metadata {
  import opened Prelude

  /** Instants are integers; an absent ACL and an empty one compare equal, as they do in the source. */
  datatype Manifest = Manifest(
    mode: nat,
    mtime: int,
    xattrs: map<string, seq<byte>>,
    aclAccess: seq<byte>,
    aclDefault: seq<byte>
  )

  const NO_METADATA := Manifest(0, 0, map[], [], [])

  /** Attribute by attribute with an early return; equal sizes make one direction enough for the xattrs. */
  method EqualManifests(left: Manifest, right: Manifest) returns (equal: bool)
    ensures equal <==> left == right
  {
    if left.mode != right.mode || left.mtime != right.mtime || left.aclAccess != right.aclAccess
      || left.aclDefault != right.aclDefault || |left.xattrs| != |right.xattrs| {
      return false;
    }
    var rest := left.xattrs.Keys;
    while rest != {}
      invariant rest <= left.xattrs.Keys
      invariant forall n | n in left.xattrs.Keys - rest :: n in right.xattrs && right.xattrs[n] == left.xattrs[n]
      decreases rest
    {
      var name :| name in rest;
      if name !in right.xattrs || left.xattrs[name] != right.xattrs[name] {
        return false;
      }
      rest := rest - {name};
    }
    SubsetOfEqualSize(left.xattrs.Keys, right.xattrs.Keys);
    assert left.xattrs == right.xattrs;
    return true;
  }

  lemma SubsetOfEqualSize<T>(a: set<T>, b: set<T>)
    requires a <= b && |a| >= |b|
    ensures a == b
  {
    if a != b {
      assert !(b <= a);
      var x :| x in b && x !in a;
      SubsetSize(a, b - {x});
    }
  }

  lemma {:induction false} SubsetSize<T>(a: set<T>, b: set<T>)
    requires a <= b
    ensures |a| <= |b|
  {
    if a != {} {
      var x :| x in a;
      SubsetSize(a - {x}, b - {x});
    }
  }
}

/** One folder's causality record. */
module Index {
  import opened Metadata
  import opened Prelude
  import opened Vectors

  type Path = string

  /** A live entry carries content and metadata; a tombstone carries only its vector and deletion time.
      `ino`, `ctime` and `size` cache the file state whose bytes had `hash`. */
  datatype Entry = Entry(
    version: Vector,
    deleted: bool,
    deletedAt: int,
    ino: nat,
    ctime: int,
    size: nat,
    hash: string,
    metadata: Manifest
  )

  type Entries = map<Path, Entry>

  const ZERO_ENTRY := Entry(map[], false, 0, 0, 0, 0, "", NO_METADATA)

  /** What Go reads for a key that may be missing. */
  function Lookup(entries: Entries, path: Path): Entry {
    if path in entries then entries[path] else ZERO_ENTRY
  }

  function EntryAt(entries: Entries, path: Path): Option<Entry> {
    if path in entries then Some(entries[path]) else None
  }

  function Content(version: Vector, hash: string, metadata: Manifest): Entry {
    ZERO_ENTRY.(version := version, hash := hash, metadata := metadata)
  }

  function Tombstone(version: Vector, at: int): Entry {
    ZERO_ENTRY.(version := version, deleted := true, deletedAt := at)
  }

  /** The least vector dominating every entry, live or deleted. */
  ghost predicate IsGlobal(entries: Entries, g: Vector) {
    && (forall p | p in entries :: Leq(entries[p].version, g))
    && (forall u | (forall p | p in entries :: Leq(entries[p].version, u)) :: Leq(g, u))
  }

  /** Every iteration order of `GlobalVector` yields the same knowledge. */
  lemma GlobalUnique(entries: Entries, g: Vector, h: Vector)
    requires IsGlobal(entries, g) && IsGlobal(entries, h)
    ensures Same(g, h)
  {
  }

  /** The tombstone is dominated by what every member has acknowledged. */
  predicate Collected(entry: Entry, acknowledged: map<string, Vector>, members: seq<string>) {
    && entry.deleted
    && members != []
    && forall m | m in members :: m in acknowledged && Leq(entry.version, acknowledged[m])
  }

  function Pruned(entries: Entries, acknowledged: map<string, Vector>, members: seq<string>): Entries {
    map p | p in entries && !Collected(entries[p], acknowledged, members) :: entries[p]
  }

  class FolderIndex {
    const id: string
    var entries: Entries
    var directories: map<Path, Manifest>
    var acknowledged: map<string, Vector>

    constructor (id: string)
      ensures this.id == id && entries == map[] && directories == map[] && acknowledged == map[]
    {
      this.id := id;
      entries, directories, acknowledged := map[], map[], map[];
    }

    method GlobalVector() returns (result: Vector)
      ensures IsGlobal(entries, result)
    {
      result := map[];
      var rest := entries.Keys;
      while rest != {}
        invariant rest <= entries.Keys
        invariant forall p | p in entries.Keys - rest :: Leq(entries[p].version, result)
        invariant forall u | (forall p | p in entries.Keys - rest :: Leq(entries[p].version, u)) :: Leq(result, u)
        decreases rest
      {
        var path :| path in rest;
        ghost var before := result;
        result := MergeVectors(result, entries[path].version);
        MergeLeast(before, entries[path].version);
        forall p | p in entries.Keys - rest ensures Leq(entries[p].version, result) {
          LeqTransitive(entries[p].version, before, result);
        }
        rest := rest - {path};
      }
    }

    /** Overwrites the member's acknowledgement, then prunes. */
    method Acknowledge(member: string, vec: Vector, members: seq<string>)
      modifies this`entries, this`acknowledged
      ensures acknowledged == old(acknowledged)[member := vec]
      ensures entries == Pruned(old(entries), acknowledged, members)
    {
      acknowledged := acknowledged[member := vec];
      Prune(members);
    }

    method Prune(members: seq<string>)
      modifies this`entries
      ensures entries == Pruned(old(entries), acknowledged, members)
      ensures |members| == 0 ==> entries == old(entries)
      ensures |members| > 0 ==>
        forall p :: p in entries <==>
          && p in old(entries)
          && !(old(entries)[p].deleted
               && forall m | m in members :: m in acknowledged && Leq(old(entries)[p].version, acknowledged[m]))
      ensures forall p | p in entries :: entries[p] == old(entries)[p]
    {
      if |members| == 0 {
        return;
      }
      ghost var before := entries;
      var rest := entries.Keys;
      while rest != {}
        invariant rest <= before.Keys
        invariant entries ==
          map p | p in before && (p in rest || !Collected(before[p], acknowledged, members)) :: before[p]
        decreases rest
      {
        var path :| path in rest;
        if entries[path].deleted {
          var collected := AllAcknowledge(members, entries[path].version);
          if collected {
            entries := entries - {path};
          }
        }
        rest := rest - {path};
      }
    }

    method AllAcknowledge(members: seq<string>, target: Vector) returns (all: bool)
      ensures all <==> forall m | m in members :: m in acknowledged && Leq(target, acknowledged[m])
    {
      for i := 0 to |members|
        invariant forall m | m in members[..i] :: m in acknowledged && Leq(target, acknowledged[m])
      {
        if members[i] !in acknowledged {
          return false;
        }
        var c := CompareVectors(target, acknowledged[members[i]]);
        if c != Equal && c != Lesser {
          return false;
        }
      }
      return true;
    }
  }
}

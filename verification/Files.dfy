/** The files of one installation, inside its share and in the trash areas around it. */
module Filesystem {
  import opened Metadata
  import opened Prelude

  /** `Records` holds the notes that describe what the home trash contains; they are not content of any share. */
  datatype Area = Share | HomeTrash | MountTrash | Records

  datatype Place = Place(area: Area, name: string)

  datatype Object = Regular(content: seq<byte>, manifest: Manifest) | Other

  type Files = map<Place, Object>

  function ObjectAt(files: Files, place: Place): Option<Object> {
    if place in files then Some(files[place]) else None
  }

  /** The files differ at most in the trash records. */
  ghost predicate SameFiles(before: Files, after: Files) {
    forall p: Place | !p.area.Records? :: ObjectAt(after, p) == ObjectAt(before, p)
  }

  class Disk {
    const digest: seq<byte> -> string
    var files: Files

    constructor (digest: seq<byte> -> string, files: Files)
      ensures this.digest == digest && this.files == files
    {
      this.digest, this.files := digest, files;
    }

    /** An atomic rename, which replaces an existing destination unless that is excluded. */
    method Rename(source: Place, destination: Place, replace: bool) returns (renamed: bool)
      modifies this`files
      ensures !renamed ==> files == old(files)
      ensures renamed ==> source in old(files) && (replace || destination !in old(files))
      ensures renamed && source != destination ==> files == old(files)[destination := old(files)[source]] - {source}
    {
      var fault: bool := *;
      if fault || source !in files || (!replace && destination in files) {
        return false;
      }
      if source != destination {
        files := files[destination := files[source]] - {source};
      }
      renamed := true;
    }
  }
}

/** Moving files to recoverable trash. */
module Trash {
  import opened Filesystem
  import opened Index
  import opened Metadata
  import opened Prelude

  const TRASH_DIRECTORY := ".l2sync-trash/"

  predicate IsTrash(p: Place) {
    p.area.HomeTrash? || p.area.MountTrash? || (p.area.Share? && TRASH_DIRECTORY <= p.name)
  }

  function Itoa(n: nat): (s: string)
    ensures s != []
  {
    var digit := [('0' as int + n % 10) as char];
    if n < 10 then digit else Itoa(n / 10) + digit
  }

  lemma {:induction false} ItoaInjective(m: nat, n: nat)
    requires Itoa(m) == Itoa(n)
    ensures m == n
  {
    var s, t := Itoa(m), Itoa(n);
    assert s[|s| - 1] == ('0' as int + m % 10) as char && t[|t| - 1] == ('0' as int + n % 10) as char;
    assert m % 10 == n % 10;
    assert m >= 10 ==> s[..|s| - 1] == Itoa(m / 10);
    assert n >= 10 ==> t[..|t| - 1] == Itoa(n / 10);
    if m >= 10 && n >= 10 {
      ItoaInjective(m / 10, n / 10);
    }
  }

  /** The path itself, then path.1, path.2 and so on. */
  function Candidate(path: Place, index: nat): Place {
    if index == 0 then path else path.(name := path.name + "." + Itoa(index))
  }

  lemma CandidatesDiffer(path: Place, i: nat, j: nat)
    requires i != j
    ensures Candidate(path, i) != Candidate(path, j)
  {
    var name := path.name;
    if i == 0 {
      LongerDiffers(name, "." + Itoa(j));
    } else if j == 0 {
      LongerDiffers(name, "." + Itoa(i));
    } else if Itoa(i) == Itoa(j) {
      ItoaInjective(i, j);
    } else {
      SuffixesDiffer(name + ".", Itoa(i), Itoa(j));
      assert name + "." + Itoa(i) != name + "." + Itoa(j);
    }
  }

  lemma LongerDiffers(name: string, suffix: string)
    requires suffix != ""
    ensures name + suffix != name
  {
    assert |name + suffix| > |name|;
  }

  lemma SuffixesDiffer(name: string, s: string, t: string)
    requires s != t
    ensures name + s != name + t
  {
    if |s| == |t| {
      var k :| 0 <= k < |s| && s[k] != t[k];
      assert (name + s)[|name| + k] != (name + t)[|name| + k];
    } else {
      assert |name + s| != |name + t|;
    }
  }

  /** The first free candidate. The files are finitely many and the candidates distinct, so the search ends. */
  method UniquePath(d: Disk, path: Place) returns (free: Place)
    ensures free !in d.files
    ensures exists k: nat :: free == Candidate(path, k) && forall j | 0 <= j < k :: Candidate(path, j) in d.files
  {
    if path !in d.files {
      assert path == Candidate(path, 0);
      return path;
    }
    var index := 1;
    assert path == Candidate(path, 0);
    ghost var tried := set j | 0 <= j < 1 :: Candidate(path, j);
    assert tried == {path};
    while Candidate(path, index) in d.files
      invariant index >= 1
      invariant forall j | 0 <= j < index :: Candidate(path, j) in d.files
      invariant tried == set j | 0 <= j < index :: Candidate(path, j)
      invariant tried <= d.files.Keys && |tried| == index
      decreases |d.files.Keys| - index
    {
      var candidate := Candidate(path, index);
      forall j | 0 <= j < index ensures Candidate(path, j) != candidate {
        CandidatesDiffer(path, j, index);
      }
      SubsetSize(tried + {candidate}, d.files.Keys);
      tried := tried + {candidate};
      index := index + 1;
    }
    free := Candidate(path, index);
  }

  /** The source is at the fresh target, and nowhere else; all other files are as they were. */
  ghost predicate Relocated(before: Files, after: Files, source: Place, target: Place) {
    && source in before && target !in before && IsTrash(target)
    && forall p: Place | !p.area.Records? ::
        ObjectAt(after, p) ==
          if p == target then ObjectAt(before, source)
          else if p == source then None
          else ObjectAt(before, p)
  }

  method MoveTo(d: Disk, source: Place, destination: Place) returns (moved: Option<Place>)
    requires source in d.files && IsTrash(destination)
    modifies d`files
    ensures moved.None? ==> d.files == old(d.files)
    ensures moved.Some? ==> Relocated(old(d.files), d.files, source, moved.value)
  {
    var free := UniquePath(d, destination);
    var renamed := d.Rename(source, free, true);
    moved := if renamed then Some(free) else None;
  }

  /** The last segment of a path. */
  function Base(path: Path): (b: string)
    ensures |b| <= |path|
  {
    if path == [] || path[|path| - 1] == '/' then "" else Base(path[..|path| - 1]) + [path[|path| - 1]]
  }

  /** Picks a free name in the home trash and writes its record, over an older record of that name. */
  method XdgDestination(d: Disk, relative: Path) returns (destination: Option<Place>)
    modifies d`files
    ensures SameFiles(old(d.files), d.files)
    ensures destination.Some? ==> IsTrash(destination.value)
  {
    var elsewhere: bool := *;
    if elsewhere {
      return None;
    }
    var free := UniquePath(d, Place(HomeTrash, Base(relative)));
    var fault: bool := *;
    if fault {
      return None;
    }
    var contents: seq<byte> := *;
    d.files := d.files[Place(Records, free.name + ".trashinfo") := Regular(contents, NO_METADATA)];
    destination := Some(free);
  }

  /** Tries the home trash, then the mount's trash, then the trash directory inside the share. */
  method Move(d: Disk, relative: Path, date: string) returns (moved: Result<Place>)
    modifies d`files
    ensures moved.Err? ==> SameFiles(old(d.files), d.files)
    ensures moved.Ok? ==> Relocated(old(d.files), d.files, Place(Share, relative), moved.value)
  {
    var source := Place(Share, relative);
    if source !in d.files {
      return Err("trash: file does not exist");
    }
    var target: Option<Place> := None;
    var home := XdgDestination(d, relative);
    assert ObjectAt(d.files, source) == ObjectAt(old(d.files), source);
    if home.Some? {
      target := MoveTo(d, source, home.value);
    }
    if target.None? {
      var mounted: bool := *;
      if mounted {
        target := MoveTo(d, source, Place(MountTrash, relative));
      }
    }
    if target.None? {
      target := MoveTo(d, source, Place(Share, TRASH_DIRECTORY + date + "/" + relative));
    }
    moved := if target.Some? then Ok(target.value) else Err("move to fallback trash");
  }
}

/** Recoverable changes of a share's files. Every step may be the last one that happens. */
module Apply {
  import opened Digests
  import opened Filesystem
  import opened Index
  import opened Metadata
  import opened Paths
  import opened Prelude
  import opened Trash

  datatype Report = Complete | Mismatch | Fault(reason: string)

  predicate IsTemporary(p: Place) {
    p.area.Share? && exists i | 0 <= i <= |p.name| ::
        (i == 0 || p.name[i - 1] == '/') && TEMPORARY_PREFIX <= p.name[i..]
  }

  ghost predicate IsConflict(p: Place) {
    p.area.Share? && exists path: Path, suffix: string :: p.name == ConflictName(path, suffix)
  }

  /** Where displaced content may be found. */
  ghost predicate Safe(p: Place) {
    IsTrash(p) || IsConflict(p)
  }

  /** The object that was at `p` is at `q` now: where it was, or under a fresh trash or conflict name. */
  ghost predicate KeptAt(before: Files, after: Files, p: Place, q: Place) {
    p in before && q in after && after[q] == before[p] && (q == p || (Safe(q) && q !in before))
  }

  /** One operation on `destination` leaves every other file alone, keeps the displaced object, and creates nothing
      but the destination, temporaries, trash, conflict copies and trash records. */
  ghost predicate Preserves(before: Files, after: Files, destination: Place) {
    && (forall p | p in before && p != destination && !p.area.Records? :: p in after && after[p] == before[p])
    && (destination in before ==> exists q :: KeptAt(before, after, destination, q))
    && (forall p | p in after && p !in before && p != destination :: Safe(p) || IsTemporary(p) || p.area.Records?)
  }

  /** The complete, checked new content. */
  predicate Arrived(files: Files, destination: Place, digest: seq<byte> -> string, expectedHash: string,
                    manifest: Option<Manifest>) {
    && destination in files && files[destination].Regular?
    && (expectedHash != "" ==> EqualFold(digest(files[destination].content), expectedHash))
    && (manifest.Some? ==> files[destination].manifest == manifest.value)
  }

  /** The destination holds what it held, nothing, or the complete new content. */
  predicate NeverPartial(before: Files, after: Files, destination: Place, digest: seq<byte> -> string,
                         expectedHash: string, manifest: Option<Manifest>) {
    || ObjectAt(after, destination) == ObjectAt(before, destination)
    || destination !in after
    || Arrived(after, destination, digest, expectedHash, manifest)
  }

  /** Only temporaries and trash records came or went. */
  ghost predicate Untouched(before: Files, after: Files) {
    && (forall p | p in before && !p.area.Records? :: p in after && after[p] == before[p])
    && (forall p | p in after && p !in before :: IsTemporary(p) || p.area.Records?)
  }

  /** A fresh temporary beside the path; the random part may collide, and then nothing is created. */
  method CreateTemporary(d: Disk, relative: Path) returns (temporary: Option<Place>)
    modifies d`files
    ensures temporary.None? ==> d.files == old(d.files)
    ensures temporary.Some? ==>
      && temporary.value !in old(d.files) && IsTemporary(temporary.value) && temporary.value != Place(Share, relative)
      && d.files == old(d.files)[temporary.value := Regular([], NO_METADATA)]
  {
    var random: string := *;
    var directory := relative[..|relative| - |Base(relative)|];
    var t := Place(Share, directory + TEMPORARY_PREFIX + random);
    if t in d.files || t == Place(Share, relative) {
      return None;
    }
    DirectoryEndsInSlash(relative);
    assert TEMPORARY_PREFIX <= t.name[|directory|..];
    d.files := d.files[t := Regular([], NO_METADATA)];
    temporary := Some(t);
  }

  lemma {:induction false} DirectoryEndsInSlash(path: Path)
    ensures var n := |path| - |Base(path)|; n > 0 ==> path[n - 1] == '/'
  {
    if path != [] && path[|path| - 1] != '/' {
      DirectoryEndsInSlash(path[..|path| - 1]);
    }
  }

  /** Copies the source, checks its digest, sets and verifies the metadata. Interrupted, it leaves the temporary as
      it is. */
  method FillTemporary(d: Disk, t: Place, source: seq<byte>, expectedHash: string, manifest: Option<Manifest>)
    returns (report: Report)
    requires t in d.files
    modifies d`files
    ensures t in d.files && d.files - {t} == old(d.files) - {t}
    ensures report.Complete? ==> Arrived(d.files, t, d.digest, expectedHash, manifest) && d.files[t].content == source
    ensures report.Complete? && expectedHash != "" ==> EqualFold(d.digest(source), expectedHash)
  {
    var written: int := *;
    if 0 <= written < |source| {
      d.files := d.files[t := Regular(source[..written], NO_METADATA)];
      return Fault("write temporary file");
    }
    d.files := d.files[t := Regular(source, NO_METADATA)];
    if expectedHash != "" && !EqualFold(d.digest(source), expectedHash) {
      return Mismatch;
    }
    if manifest.Some? {
      d.files := d.files[t := Regular(source, manifest.value)];
    }
    var fault: bool := *;
    report := if fault then Fault("sync temporary file") else Complete;
  }

  /** The deferred clean-up; it may fail, or not run at all. */
  method Discard(d: Disk, t: Place)
    modifies d`files
    ensures d.files == old(d.files) || d.files == old(d.files) - {t}
  {
    var removed: bool := *;
    if removed {
      d.files := d.files - {t};
    }
  }

  /** Sets the canonical file aside under its conflict name; a name already taken is never overwritten. */
  method PreserveConflictWithSuffix(d: Disk, relative: Path, suffix: string) returns (o: Outcome)
    modifies d`files
    ensures o.Done? && d.files == old(d.files) ==> Place(Share, relative) !in d.files
    ensures SetAside(old(d.files), d.files, relative, suffix) || d.files == old(d.files)
    ensures suffix in {"", ".", ".."} || '/' in suffix ==> o.Failed? && d.files == old(d.files)
  {
    if !ValidName(suffix) {
      return Failed("invalid peer name");
    }
    var source, conflict := Place(Share, relative), Place(Share, ConflictName(relative, suffix));
    if source !in d.files {
      return Done;
    }
    if !d.files[source].Regular? || conflict in d.files {
      return Failed("conflict destination already exists");
    }
    assert |ConflictName(relative, suffix)| > |relative|;
    var renamed := d.Rename(source, conflict, false);
    var synced: bool := *;
    o := if renamed && synced then Done else Failed("preserve conflict");
  }

  predicate SetAside(before: Files, after: Files, relative: Path, suffix: string) {
    var source, conflict := Place(Share, relative), Place(Share, ConflictName(relative, suffix));
    source in before && conflict !in before && after == before[conflict := before[source]] - {source}
  }

  /** Takes the old file away, to its conflict name if there is one and to trash otherwise. */
  method Displace(d: Disk, relative: Path, suffix: string, date: string) returns (o: Outcome)
    modifies d`files
    ensures Preserves(old(d.files), d.files, Place(Share, relative))
    ensures o.Done? ==> Place(Share, relative) !in d.files
    ensures ObjectAt(d.files, Place(Share, relative)) in {None, ObjectAt(old(d.files), Place(Share, relative))}
    ensures o.Done? && suffix != "" && Place(Share, relative) in old(d.files) ==>
      && Place(Share, ConflictName(relative, suffix)) !in old(d.files)
      && ObjectAt(d.files, Place(Share, ConflictName(relative, suffix))) ==
          ObjectAt(old(d.files), Place(Share, relative))
    ensures forall p | IsTemporary(p) && p in old(d.files) && p != Place(Share, relative) ::
      p in d.files && d.files[p] == old(d.files)[p]
  {
    var destination := Place(Share, relative);
    ghost var before := d.files;
    if destination !in d.files {
      return Done;
    }
    if suffix != "" {
      o := PreserveConflictWithSuffix(d, relative, suffix);
      var conflict := Place(Share, ConflictName(relative, suffix));
      assert |ConflictName(relative, suffix)| > |relative|;
      assert IsConflict(conflict);
      assert KeptAt(before, d.files, destination, conflict) || KeptAt(before, d.files, destination, destination);
    } else {
      var moved := Move(d, relative, date);
      o := if moved.Ok? then Done else Failed(moved.reason);
      RelocationPreserves(before, d.files, destination, moved);
    }
  }

  lemma RelocationPreserves(before: Files, after: Files, destination: Place, moved: Result<Place>)
    requires destination in before && destination.area.Share?
    requires moved.Err? ==> SameFiles(before, after)
    requires moved.Ok? ==> Relocated(before, after, destination, moved.value)
    ensures Preserves(before, after, destination)
    ensures moved.Ok? ==> destination !in after
    ensures ObjectAt(after, destination) in {None, ObjectAt(before, destination)}
    ensures forall p | p in before && p != destination && !p.area.Records? :: p in after && after[p] == before[p]
  {
    var q := if moved.Ok? then moved.value else destination;
    assert ObjectAt(after, q) == ObjectAt(before, destination);
    assert KeptAt(before, after, destination, q);
    forall p | p in before && p != destination && !p.area.Records? ensures p in after && after[p] == before[p] {
      assert ObjectAt(after, p) == ObjectAt(before, p);
    }
    forall p | p in after && p !in before && p != destination ensures Safe(p) || p.area.Records? {
      assert !p.area.Records? ==> p == q;
    }
  }

  /** Replaces a file: new content is complete and checked beside it before the old version is displaced. */
  method Write(d: Disk, relative: Path, source: seq<byte>, expectedHash: string, manifest: Option<Manifest>,
               suffix: string, date: string)
    returns (report: Report)
    modifies d`files
    ensures Preserves(old(d.files), d.files, Place(Share, relative))
    ensures NeverPartial(old(d.files), d.files, Place(Share, relative), d.digest, expectedHash, manifest)
    ensures report.Complete? ==> Arrived(d.files, Place(Share, relative), d.digest, expectedHash, manifest)
    ensures report.Complete? ==> Place(Share, relative) in d.files && d.files[Place(Share, relative)].Regular?
    ensures report.Complete? ==> d.files[Place(Share, relative)].content == source
    ensures report.Complete? && manifest.Some? ==> d.files[Place(Share, relative)].manifest == manifest.value
    ensures expectedHash != "" && !EqualFold(d.digest(source), expectedHash) ==>
      !report.Complete? && Untouched(old(d.files), d.files)
    ensures report.Complete? && suffix != "" && Place(Share, relative) in old(d.files) ==>
      && Place(Share, ConflictName(relative, suffix)) !in old(d.files)
      && ObjectAt(d.files, Place(Share, ConflictName(relative, suffix))) ==
          ObjectAt(old(d.files), Place(Share, relative))
    ensures report.Mismatch? ==> Untouched(old(d.files), d.files)
  {
    var destination := Place(Share, relative);
    ghost var before := d.files;
    Unchanged(before, destination);
    if destination in d.files && !d.files[destination].Regular? {
      return Fault("destination is not a regular file");
    }
    var created := CreateTemporary(d, relative);
    if created.None? {
      return Fault("create temporary file");
    }
    var t := created.value;
    report := FillTemporary(d, t, source, expectedHash, manifest);
    TemporaryOnly(before, d.files, t, destination);
    if !report.Complete? {
      ghost var partial := d.files;
      Discard(d, t);
      TemporaryOnly(before, d.files, t, destination);
      return;
    }
    report := Replace(d, t, relative, suffix, date, before);
  }

  /** The last part of a write: the old version goes, the complete temporary takes its place. */
  method Replace(d: Disk, t: Place, relative: Path, suffix: string, date: string, ghost before: Files)
    returns (report: Report)
    requires t in d.files && t !in before && IsTemporary(t) && t != Place(Share, relative) && d.files - {t} == before
    modifies d`files
    ensures !report.Mismatch? && Preserves(before, d.files, Place(Share, relative))
    ensures ObjectAt(d.files, Place(Share, relative)) in
      {None, ObjectAt(before, Place(Share, relative)), ObjectAt(old(d.files), t)}
    ensures report.Complete? ==> ObjectAt(d.files, Place(Share, relative)) == ObjectAt(old(d.files), t)
    ensures report.Complete? && suffix != "" && Place(Share, relative) in before ==>
      && Place(Share, ConflictName(relative, suffix)) !in before
      && ObjectAt(d.files, Place(Share, ConflictName(relative, suffix))) == ObjectAt(before, Place(Share, relative))
  {
    var destination := Place(Share, relative);
    ghost var filled := d.files;
    assert ObjectAt(filled - {t}, destination) == ObjectAt(filled, destination);
    var o := Displace(d, relative, suffix, date);
    ghost var displaced := d.files;
    DisplacedPreserves(before, filled, displaced, t, destination);
    if o.Failed? {
      Discard(d, t);
      DiscardPreserves(before, displaced, d.files, t, destination);
      return Fault(o.reason);
    }
    var renamed := d.Rename(t, destination, true);
    if !renamed {
      Discard(d, t);
      DiscardPreserves(before, displaced, d.files, t, destination);
      return Fault("replace");
    }
    assert |ConflictName(relative, suffix)| > |relative|;
    InstalledPreserves(before, displaced, d.files, t, destination);
    var verified: bool := *;
    report := if verified then Complete else Fault("verify installed file");
  }

  /** Nothing but the temporary and trash records has changed so far. */
  lemma TemporaryOnly(before: Files, after: Files, t: Place, destination: Place)
    requires t !in before && IsTemporary(t) && t != destination && destination.area.Share?
    requires after - {t} == before
    ensures Preserves(before, after, destination) && Untouched(before, after)
    ensures ObjectAt(after, destination) == ObjectAt(before, destination)
  {
    forall p | p != t ensures ObjectAt(after, p) == ObjectAt(before, p) {
      assert ObjectAt(after - {t}, p) == ObjectAt(after, p);
    }
    forall p | p in before ensures p in after && after[p] == before[p] {
      assert ObjectAt(after, p) == ObjectAt(before, p);
    }
    forall p | p in after && p !in before ensures p == t {
      assert ObjectAt(after, p) == ObjectAt(before, p) || p == t;
    }
    assert destination in before ==> KeptAt(before, after, destination, destination);
  }

  lemma Unchanged(files: Files, destination: Place)
    ensures Preserves(files, files, destination) && Untouched(files, files)
  {
    assert destination in files ==> KeptAt(files, files, destination, destination);
  }

  lemma DisplacedPreserves(before: Files, filled: Files, displaced: Files, t: Place, destination: Place)
    requires t !in before && IsTemporary(t) && t != destination && destination.area.Share?
    requires t in filled && filled - {t} == before
    requires Preserves(filled, displaced, destination)
    ensures Preserves(before, displaced - {t}, destination)
    ensures ObjectAt(displaced, t) == ObjectAt(filled, t)
  {
    assert filled == before[t := filled[t]];
    if destination in before {
      var q :| KeptAt(filled, displaced, destination, q);
      assert KeptAt(before, displaced - {t}, destination, q);
    }
  }

  lemma DiscardPreserves(before: Files, displaced: Files, after: Files, t: Place, destination: Place)
    requires IsTemporary(t) && t !in before && t != destination
    requires Preserves(before, displaced - {t}, destination)
    requires after == displaced || after == displaced - {t}
    ensures Preserves(before, after, destination)
  {
    if destination in before {
      var q :| KeptAt(before, displaced - {t}, destination, q);
      assert KeptAt(before, after, destination, q);
    }
  }

  lemma InstalledPreserves(before: Files, displaced: Files, after: Files, t: Place, destination: Place)
    requires t in displaced && t !in before && destination !in displaced
    requires Preserves(before, displaced - {t}, destination)
    requires after == displaced[destination := displaced[t]] - {t}
    ensures Preserves(before, after, destination)
  {
    if destination in before {
      var q :| KeptAt(before, displaced - {t}, destination, q);
      assert KeptAt(before, after, destination, q);
    }
  }

  /** Seen from the share, without artifacts, an operation changes nothing but its destination. */
  lemma VisibleElsewhere(before: Files, after: Files, destination: Place, path: Path)
    requires Preserves(before, after, destination) && Place(Share, path) != destination
    requires !Safe(Place(Share, path)) && !IsTemporary(Place(Share, path))
    ensures ObjectAt(after, Place(Share, path)) == ObjectAt(before, Place(Share, path))
  {
    var p := Place(Share, path);
    assert p in after && p !in before ==> Safe(p) || IsTemporary(p) || p.area.Records?;
  }

  /** Copies a tracked file of this share; the bytes may change between the check and the copy. */
  method Reuse(d: Disk, relative: Path, sourceRelative: Path, expectedHash: string, manifest: Manifest, date: string)
    returns (report: Report)
    modifies d`files
    ensures Preserves(old(d.files), d.files, Place(Share, relative))
    ensures NeverPartial(old(d.files), d.files, Place(Share, relative), d.digest, expectedHash, Some(manifest))
    ensures report.Complete? ==> Arrived(d.files, Place(Share, relative), d.digest, expectedHash, Some(manifest))
    ensures report.Mismatch? ==> Untouched(old(d.files), d.files)
  {
    var source := Place(Share, sourceRelative);
    Unchanged(d.files, Place(Share, relative));
    if source !in d.files || !d.files[source].Regular?
        || !EqualFold(d.digest(d.files[source].content), expectedHash) {
      return Mismatch;
    }
    var copied, changed: bool := d.files[source].content, *;
    if changed {
      copied := *;
    }
    report := Write(d, relative, copied, expectedHash, Some(manifest), "", date);
  }

  /** Writes the losing version beside the canonical file; an existing artifact is never replaced. */
  method WriteConflictCopy(d: Disk, relative: Path, suffix: string, source: seq<byte>, expectedHash: string,
                           manifest: Manifest)
    returns (report: Report)
    modifies d`files
    ensures Preserves(old(d.files), d.files, Place(Share, ConflictName(relative, suffix)))
    ensures NeverPartial(old(d.files), d.files, Place(Share, ConflictName(relative, suffix)), d.digest, expectedHash,
        Some(manifest))
    ensures Place(Share, ConflictName(relative, suffix)) in old(d.files) ==>
      !report.Complete? && Untouched(old(d.files), d.files)
    ensures report.Complete? ==>
      Arrived(d.files, Place(Share, ConflictName(relative, suffix)), d.digest, expectedHash, Some(manifest))
    ensures suffix in {"", ".", ".."} || '/' in suffix ==> !report.Complete? && d.files == old(d.files)
  {
    var conflict := Place(Share, ConflictName(relative, suffix));
    Unchanged(d.files, conflict);
    if !ValidName(suffix) {
      return Fault("invalid peer name");
    }
    if conflict in d.files {
      return Fault("conflict destination already exists");
    }
    report := WriteExact(d, conflict.name, source, expectedHash, Some(manifest));
  }

  /** Like `Write`, but never over an existing file. */
  method WriteExact(d: Disk, relative: Path, source: seq<byte>, expectedHash: string, manifest: Option<Manifest>)
    returns (report: Report)
    modifies d`files
    ensures Preserves(old(d.files), d.files, Place(Share, relative))
    ensures NeverPartial(old(d.files), d.files, Place(Share, relative), d.digest, expectedHash, manifest)
    ensures Place(Share, relative) in old(d.files) ==> !report.Complete? && Untouched(old(d.files), d.files)
    ensures report.Complete? ==> Arrived(d.files, Place(Share, relative), d.digest, expectedHash, manifest)
    ensures report.Complete? ==> d.files[Place(Share, relative)].content == source
    ensures expectedHash != "" && !EqualFold(d.digest(source), expectedHash) ==>
      !report.Complete? && Untouched(old(d.files), d.files)
  {
    var destination := Place(Share, relative);
    ghost var before := d.files;
    Unchanged(before, destination);
    var created := CreateTemporary(d, relative);
    if created.None? {
      return Fault("create temporary file");
    }
    var t := created.value;
    report := FillTemporary(d, t, source, expectedHash, manifest);
    TemporaryOnly(before, d.files, t, destination);
    ghost var filled := d.files;
    if !report.Complete? {
      Discard(d, t);
      TemporaryOnly(before, d.files, t, destination);
      return;
    }
    var renamed := d.Rename(t, destination, false);
    if !renamed {
      Discard(d, t);
      TemporaryOnly(before, d.files, t, destination);
      return Fault("conflict destination already exists");
    }
    DisplacedPreserves(before, filled, filled, t, destination);
    InstalledPreserves(before, filled, d.files, t, destination);
    var verified: bool := *;
    if !verified {
      report := Fault("verify installed file");
    }
  }

  /** Moves a file to trash; a missing file is an error. */
  method Delete(d: Disk, relative: Path, date: string) returns (o: Outcome)
    modifies d`files
    ensures Preserves(old(d.files), d.files, Place(Share, relative))
    ensures o.Done? ==> Place(Share, relative) in old(d.files) && Place(Share, relative) !in d.files
    ensures o.Failed? ==> SameFiles(old(d.files), d.files)
  {
    ghost var before := d.files;
    Unchanged(before, Place(Share, relative));
    var moved := Move(d, relative, date);
    if Place(Share, relative) in before {
      RelocationPreserves(before, d.files, Place(Share, relative), moved);
    }
    o := if moved.Ok? then Done else Failed(moved.reason);
  }

  datatype Operation =
    | WriteFile(relative: Path, source: seq<byte>, expectedHash: string, manifest: Manifest)
    | InstallWinner(relative: Path, suffix: string, source: seq<byte>, expectedHash: string, manifest: Manifest)
    | SaveLoser(relative: Path, suffix: string, source: seq<byte>, expectedHash: string, manifest: Manifest)
    | ReuseContent(relative: Path, sourceRelative: Path, expectedHash: string, manifest: Manifest)
    | DeleteFile(relative: Path)

  function Target(op: Operation): Place {
    Place(Share, if op.SaveLoser? then ConflictName(op.relative, op.suffix) else op.relative)
  }

  /** Runs one operation; every stopping point satisfies the postconditions. */
  method Perform(d: Disk, op: Operation, date: string)
    modifies d`files
    ensures Preserves(old(d.files), d.files, Target(op))
    ensures op.DeleteFile? ==> ObjectAt(d.files, Target(op)) in {None, ObjectAt(old(d.files), Target(op))}
    ensures !op.DeleteFile? ==>
      NeverPartial(old(d.files), d.files, Target(op), d.digest, op.expectedHash, Some(op.manifest))
  {
    match op {
      case WriteFile(relative, source, hash, manifest) =>
        var report := Write(d, relative, source, hash, Some(manifest), "", date);
      case InstallWinner(relative, suffix, source, hash, manifest) =>
        var report := Write(d, relative, source, hash, Some(manifest), suffix, date);
      case SaveLoser(relative, suffix, source, hash, manifest) =>
        var report := WriteConflictCopy(d, relative, suffix, source, hash, manifest);
      case ReuseContent(relative, from, hash, manifest) =>
        var report := Reuse(d, relative, from, hash, manifest, date);
      case DeleteFile(relative) =>
        var o := Delete(d, relative, date);
    }
  }

  /** Whatever was somewhere is there still, or at a trash or conflict name. */
  ghost predicate Conserved(before: Files, after: Files) {
    forall p | p in before && !p.area.Records? :: exists q :: SurvivesAt(before, after, p, q)
  }

  ghost predicate SurvivesAt(before: Files, after: Files, p: Place, q: Place) {
    p in before && q in after && !q.area.Records? && after[q] == before[p] && (q == p || Safe(q))
  }

  lemma PreservesConserves(before: Files, after: Files, destination: Place)
    requires Preserves(before, after, destination)
    ensures Conserved(before, after)
  {
    forall p | p in before && !p.area.Records? ensures exists q :: SurvivesAt(before, after, p, q) {
      if p == destination {
        var q :| KeptAt(before, after, destination, q);
        assert SurvivesAt(before, after, p, q);
      } else {
        assert SurvivesAt(before, after, p, p);
      }
    }
  }

  lemma ConservedTransitive(a: Files, b: Files, c: Files)
    requires Conserved(a, b) && Conserved(b, c)
    ensures Conserved(a, c)
  {
    forall p | p in a && !p.area.Records? ensures exists r :: SurvivesAt(a, c, p, r) {
      var q :| SurvivesAt(a, b, p, q);
      var r :| SurvivesAt(b, c, q, r);
      assert SurvivesAt(a, c, p, r);
    }
  }

  /** No sequence of operations, each stopped wherever it happens to stop, destroys any content. */
  method PerformAll(d: Disk, operations: seq<Operation>, date: string)
    modifies d`files
    ensures Conserved(old(d.files), d.files)
  {
    ghost var start := d.files;
    Unchanged(start, Place(Share, ""));
    PreservesConserves(start, start, Place(Share, ""));
    for i := 0 to |operations|
      invariant Conserved(start, d.files)
    {
      ghost var before := d.files;
      Perform(d, operations[i], date);
      PreservesConserves(before, d.files, Target(operations[i]));
      ConservedTransitive(start, before, d.files);
    }
  }
}

/** What one scan records for one path. */
module ScanRules {
  import opened Index
  import opened Metadata
  import opened Prelude
  import opened Vectors

  /** A regular file as a scan opens it; `hash` is the digest of the bytes it holds now. */
  datatype File = File(hash: string, size: nat, ino: nat, ctime: int, metadata: Manifest)

  datatype ChangeKind = Added | Modified | Deleted

  function Get(entry: Option<Entry>): Entry {
    if entry.Some? then entry.value else ZERO_ENTRY
  }

  /** The cached triple is unchanged, so the stored hash is used instead of reading the bytes. */
  predicate CacheHit(previous: Option<Entry>, file: File) {
    && previous.Some?
    && !previous.value.deleted
    && previous.value.ino == file.ino
    && previous.value.ctime == file.ctime
    && previous.value.size == file.size
  }

  function ScanHash(previous: Option<Entry>, file: File): string {
    if CacheHit(previous, file) then previous.value.hash else file.hash
  }

  predicate Changed(previous: Option<Entry>, file: File) {
    || previous.None?
    || previous.value.deleted
    || ScanHash(previous, file) != previous.value.hash
    || file.metadata != previous.value.metadata
  }

  function ScanFile(previous: Option<Entry>, file: File, fingerprint: string): Entry {
    Entry(if Changed(previous, file) then Increment(Get(previous).version, fingerprint) else Get(previous).version,
          false, 0, file.ino, file.ctime, file.size, ScanHash(previous, file), file.metadata)
  }

  /** `seen` is the file the walk reached at this path, if any; `ignored` the file-level ignore verdict. */
  function ScanOne(previous: Option<Entry>, seen: Option<File>, ignored: bool, fingerprint: string,
                   now: int): Option<Entry> {
    match seen
    case Some(file) => Some(ScanFile(previous, file, fingerprint))
    case None =>
      if previous.None? || ignored || previous.value.deleted then previous
      else Some(Tombstone(Increment(previous.value.version, fingerprint), now))
  }

  function ScanChange(previous: Option<Entry>, seen: Option<File>, ignored: bool): Option<ChangeKind> {
    match seen
    case Some(file) =>
      if !Changed(previous, file) then None
      else if previous.None? || previous.value.deleted then Some(Added)
      else Some(Modified)
    case None =>
      if previous.None? || ignored || previous.value.deleted then None else Some(Deleted)
  }

  /** A scan reports a change exactly when it advances the local counter, and then by one; everything else it
      keeps, and an unreported path keeps its content. */
  lemma ScanAdvances(previous: Option<Entry>, seen: Option<File>, ignored: bool, fingerprint: string, now: int)
    ensures var next := ScanOne(previous, seen, ignored, fingerprint, now);
      && (previous.Some? ==> next.Some?)
      && (ScanChange(previous, seen, ignored).Some? ==>
          next.Some? && next.value.version == Increment(Get(previous).version, fingerprint))
      && (ScanChange(previous, seen, ignored).None? ==>
            && next.Some? == previous.Some?
            && Get(next).version == Get(previous).version
            && Get(next).deleted == Get(previous).deleted
            && Get(next).hash == Get(previous).hash
            && Get(next).metadata == Get(previous).metadata)
  {
  }

  /** Scanning the same tree again reports nothing and records the same entry. */
  lemma RescanReportsNothing(previous: Option<Entry>, seen: Option<File>, ignored: bool, fingerprint: string, now: int,
                             later: int)
    ensures var next := ScanOne(previous, seen, ignored, fingerprint, now);
      && ScanChange(next, seen, ignored).None?
      && ScanOne(next, seen, ignored, fingerprint, later) == next
  {
  }
}

/** Folder listings on the wire: what a peer may send, and what the receiver rebuilds from it. */
module Listing {
  import opened Digests
  import opened Frames
  import opened Index
  import opened Metadata
  import opened Order
  import opened Paths
  import opened Prelude
  import opened Responses
  import opened Sequences
  import Transfers
  import opened Vectors

  /** A live file, a directory or a tombstone. */
  datatype PeerFile = PeerFile(path: Path, size: int, hash: string, metadata: Manifest, directory: bool, deleted: bool,
                               deletedAt: int, version: Vector)

  /** Paths already listed, and whether each is a directory. */
  type Seen = map<Path, bool>

  function CheckEntry(path: Path, hash: string, directory: bool, deleted: bool, seen: Seen): Result<Seen> {
    if path in seen then Err("duplicate peer listing path")
    else if exists a | a in seen :: Ancestor(a, path) && !seen[a] then Err("peer listing path descends from file")
    else if directory then
      if hash != "" then Err("peer directory has a content hash")
      else if deleted then Err("peer directory cannot be a tombstone")
      else Ok(seen[path := true])
    else if exists e | e in seen :: Ancestor(path, e) then Err("peer listing file collides with descendant")
    else if deleted && hash != "" then Err("peer tombstone has a content hash")
    else if !deleted && !IsSha256(hash) then Err("invalid hash for peer file")
    else Ok(seen[path := false])
  }

  /** Looks at the path's ancestors, nearest first, then for a file at everything seen so far. */
  method ValidateListingEntry(path: Path, hash: string, directory: bool, deleted: bool, seen: Seen)
    returns (r: Result<Seen>)
    ensures r == CheckEntry(path, hash, directory, deleted, seen)
  {
    if path in seen {
      return Err("duplicate peer listing path");
    }
    var ancestor := Dir(path);
    while ancestor.Some?
      invariant forall a | Ancestor(a, path)
          && (ancestor.None? || (a != ancestor.value && !Ancestor(a, ancestor.value))) ::
        a in seen ==> seen[a]
      invariant ancestor.Some? ==> Ancestor(ancestor.value, path)
      invariant ancestor.Some? ==> forall a | Ancestor(a, ancestor.value) :: Ancestor(a, path)
      decreases if ancestor.Some? then |ancestor.value| + 1 else 0
    {
      if ancestor.value in seen && !seen[ancestor.value] {
        return Err("peer listing path descends from file");
      }
      ancestor := Dir(ancestor.value);
    }
    if directory {
      if hash != "" {
        return Err("peer directory has a content hash");
      }
      if deleted {
        return Err("peer directory cannot be a tombstone");
      }
      return Ok(seen[path := true]);
    }
    var rest := seen.Keys;
    while rest != {}
      invariant rest <= seen.Keys
      invariant forall e | e in seen.Keys - rest :: !Ancestor(path, e)
      decreases rest
    {
      var existing :| existing in rest;
      if Ancestor(path, existing) {
        return Err("peer listing file collides with descendant");
      }
      rest := rest - {existing};
    }
    if deleted {
      if hash != "" {
        return Err("peer tombstone has a content hash");
      }
    } else if !IsSha256(hash) {
      return Err("invalid hash for peer file");
    }
    r := Ok(seen[path := false]);
  }

  /** The checks on one listed file, in the order they are made. */
  function CheckFile(f: PeerFile, seen: Seen): Result<Seen> {
    if f.path == "" then Err("peer returned an empty file path")
    else if !ValidPath(f.path) then Err("invalid peer file path")
    else if f.size < 0 then Err("peer returned a negative file size")
    else CheckEntry(f.path, f.hash, f.directory, f.deleted, seen)
  }

  function CheckFiles(files: seq<PeerFile>, seen: Seen): Result<Seen> {
    if files == [] then Ok(seen)
    else match CheckFile(files[0], seen)
      case Err(reason) => Err(reason)
      case Ok(next) => CheckFiles(files[1..], next)
  }

  /** The entry's own form: a digest exactly for live files. */
  predicate WellFormed(f: PeerFile) {
    && ValidPath(f.path) && f.size >= 0
    && (if f.directory then f.hash == "" && !f.deleted else if f.deleted then f.hash == "" else IsSha256(f.hash))
  }

  /** Two entries of one tree: distinct paths, and whatever stands above the other is a directory. */
  predicate Compatible(e: PeerFile, f: PeerFile) {
    && e.path != f.path
    && (Ancestor(e.path, f.path) ==> e.directory)
    && (Ancestor(f.path, e.path) ==> f.directory)
  }

  predicate Acceptable(files: seq<PeerFile>) {
    && (forall f | f in files :: WellFormed(f))
    && forall i, j | 0 <= i < j < |files| :: Compatible(files[i], files[j])
  }

  ghost predicate Records(seen: Seen, files: seq<PeerFile>) {
    && (forall f | f in files :: f.path in seen && seen[f.path] == f.directory)
    && (forall p | p in seen :: exists f :: f in files && f.path == p)
  }

  lemma EmptyPathInvalid()
    ensures !ValidPath("")
  {
    assert Split("")[0] == "" && "" in Split("");
  }

  lemma CheckedIsAcceptable(before: seq<PeerFile>, f: PeerFile, seen: Seen)
    requires Acceptable(before) && Records(seen, before) && CheckFile(f, seen).Ok?
    ensures Acceptable(before + [f])
  {
    EmptyPathInvalid();
    var after := before + [f];
    assert forall i | 0 <= i < |before| :: after[i] == before[i];
    forall g | g in before ensures Compatible(g, f) {
      assert g.path in seen && seen[g.path] == g.directory;
    }
    forall i, j | 0 <= i < j < |after| ensures Compatible(after[i], after[j]) {
      if j < |before| {
        assert Compatible(before[i], before[j]);
      } else {
        assert before[i] in before;
      }
    }
  }

  lemma CheckedIsRecorded(before: seq<PeerFile>, f: PeerFile, seen: Seen)
    requires Records(seen, before) && CheckFile(f, seen).Ok?
    ensures Records(CheckFile(f, seen).value, before + [f])
  {
    var after, next := before + [f], CheckFile(f, seen).value;
    forall p | p in next ensures exists g :: g in after && g.path == p {
      if p == f.path {
        assert f in after;
      } else {
        var g :| g in before && g.path == p;
        assert g in after;
      }
    }
  }

  lemma AcceptableIsChecked(before: seq<PeerFile>, f: PeerFile, seen: Seen)
    requires Records(seen, before) && Acceptable(before + [f])
    ensures CheckFile(f, seen).Ok?
  {
    EmptyPathInvalid();
    var after := before + [f];
    assert WellFormed(f) by { assert f in after; }
    forall p | p in seen
      ensures p != f.path && (Ancestor(p, f.path) ==> seen[p]) && (Ancestor(f.path, p) ==> f.directory)
    {
      var g :| g in before && g.path == p;
      var i :| 0 <= i < |before| && before[i] == g;
      assert after[i] == g && after[|before|] == f;
      assert Compatible(after[i], after[|before|]);
    }
  }

  /** One step of the incremental check is the pairwise condition against everything before. */
  lemma CheckOne(before: seq<PeerFile>, f: PeerFile, seen: Seen)
    requires Acceptable(before) && Records(seen, before)
    ensures CheckFile(f, seen).Ok? <==> Acceptable(before + [f])
    ensures CheckFile(f, seen).Ok? ==> Records(CheckFile(f, seen).value, before + [f])
  {
    if CheckFile(f, seen).Ok? {
      CheckedIsAcceptable(before, f, seen);
      CheckedIsRecorded(before, f, seen);
    }
    if Acceptable(before + [f]) {
      AcceptableIsChecked(before, f, seen);
    }
  }

  /** The incremental check accepts a listing exactly when it is pairwise acceptable. */
  lemma {:induction false} CheckedPairwise(before: seq<PeerFile>, files: seq<PeerFile>, seen: Seen)
    requires Acceptable(before) && Records(seen, before)
    ensures CheckFiles(files, seen).Ok? <==> Acceptable(before + files)
    decreases |files|
  {
    if files == [] {
      assert before + files == before;
    } else {
      CheckOne(before, files[0], seen);
      var longer, all := before + [files[0]], before + files;
      assert longer + files[1..] == all;
      if CheckFile(files[0], seen).Ok? {
        CheckedPairwise(longer, files[1..], CheckFile(files[0], seen).value);
      } else if Acceptable(all) {
        assert forall f | f in longer :: f in all;
        forall i, j | 0 <= i < j < |longer| ensures Compatible(longer[i], longer[j]) {
          assert all[i] == longer[i] && all[j] == longer[j];
          assert Compatible(all[i], all[j]);
        }
        assert Acceptable(longer);
        assert false;
      }
    }
  }

  lemma ListingAccepted(files: seq<PeerFile>)
    ensures CheckFiles(files, map[]).Ok? <==> Acceptable(files)
  {
    CheckedPairwise([], files, map[]);
    assert [] + files == files;
  }

  lemma PairCompatible(files: seq<PeerFile>, i: nat, j: nat)
    requires Acceptable(files) && i < |files| && j < |files| && i != j
    ensures Compatible(files[i], files[j])
  {
  }

  lemma AcceptablePermuted(s: seq<PeerFile>, t: seq<PeerFile>)
    requires multiset(s) == multiset(t) && Acceptable(s)
    ensures Acceptable(t)
  {
    forall f ensures f in t <==> f in s {
      assert f in t <==> f in multiset(t);
      assert f in s <==> f in multiset(s);
    }
    forall i, j | 0 <= i < j < |t| ensures Compatible(t[i], t[j]) {
      assert t[i] in s && t[j] in s;
      var x :| 0 <= x < |s| && s[x] == t[i];
      var y :| 0 <= y < |s| && s[y] == t[j];
      if x != y {
        PairCompatible(s, x, y);
      } else {
        CountsTwice(t, i, j);
        forall k | 0 <= k < |s| && k != x ensures s[k] != s[x] {
          PairCompatible(s, k, x);
        }
        CountsOnce(s, x);
        assert false;
      }
    }
  }

  /** Acceptance does not depend on the order of the entries. */
  lemma OrderIrrelevant(s: seq<PeerFile>, t: seq<PeerFile>)
    requires multiset(s) == multiset(t)
    ensures CheckFiles(s, map[]).Ok? <==> CheckFiles(t, map[]).Ok?
  {
    ListingAccepted(s);
    ListingAccepted(t);
    if Acceptable(s) { AcceptablePermuted(s, t); }
    if Acceptable(t) { AcceptablePermuted(t, s); }
  }

  function FileMessage(f: PeerFile): Message {
    EMPTY.(kind := Kind.File, path := f.path, size := f.size, hash := ToLower(f.hash), metadata := f.metadata,
           directory := f.directory, deleted := f.deleted, deletedAt := f.deletedAt, version := f.version)
  }

  function FileFrom(m: Message): PeerFile {
    PeerFile(m.path, m.size, ToLower(m.hash), m.metadata, m.directory, m.deleted, m.deletedAt, m.version)
  }

  function EndMessage(id: string): Message {
    EMPTY.(id := id)
  }

  function FileMessages(files: seq<PeerFile>): (messages: seq<Message>)
    ensures |messages| == |files| && forall i | 0 <= i < |files| :: messages[i] == FileMessage(files[i])
  {
    seq(|files|, i requires 0 <= i < |files| => FileMessage(files[i]))
  }

  datatype Received = Received(files: seq<PeerFile>, seen: Seen)

  const NOTHING := Received([], map[])

  function ListingStep(s: Received, m: Message): Verdict<Received, (seq<PeerFile>, string)> {
    match m.kind
    case File =>
      (match CheckFile(PeerFile(m.path, m.size, m.hash, m.metadata, m.directory, m.deleted, m.deletedAt, m.version),
          s.seen)
       case Ok(seen) => More(Received(s.files + [FileFrom(m)], seen))
       case Err(reason) => Reject(reason))
    case End => Accept((s.files, m.id))
    case _ => Reject("unexpected peer message")
  }

  predicate LowerHashes(files: seq<PeerFile>) {
    forall f | f in files :: ToLower(f.hash) == f.hash
  }

  /** Lowering the digest of a checked file keeps it checked. */
  lemma ReceiveOne(files: seq<PeerFile>, m: Message, seen: Seen)
    requires Acceptable(files) && Records(seen, files) && LowerHashes(files)
    ensures var checked := CheckFile(PeerFile(m.path, m.size, m.hash, m.metadata, m.directory, m.deleted, m.deletedAt,
                                              m.version), seen);
      checked.Ok? ==>
        && Acceptable(files + [FileFrom(m)]) && Records(checked.value, files + [FileFrom(m)])
        && LowerHashes(files + [FileFrom(m)])
  {
    var f := PeerFile(m.path, m.size, m.hash, m.metadata, m.directory, m.deleted, m.deletedAt, m.version);
    LoweredChecks(f, seen);
    assert FileFrom(m) == f.(hash := ToLower(f.hash));
    CheckOne(files, FileFrom(m), seen);
    LowerTwice(m.hash);
    LowerExtends(files, FileFrom(m));
  }

  lemma LoweredChecks(f: PeerFile, seen: Seen)
    ensures CheckFile(f.(hash := ToLower(f.hash)), seen) == CheckFile(f, seen)
  {
    LowerTwice(f.hash);
    assert ToLower(f.hash) == "" <==> f.hash == "";
  }

  lemma LowerExtends(files: seq<PeerFile>, f: PeerFile)
    requires LowerHashes(files) && ToLower(f.hash) == f.hash
    ensures LowerHashes(files + [f])
  {
  }

  lemma AcceptableForm(files: seq<PeerFile>)
    requires Acceptable(files)
    ensures forall f | f in files ::
      && Canonical(f.path) && f.size >= 0
      && (if f.directory || f.deleted then f.hash == "" else IsSha256(f.hash))
    ensures forall i, j | 0 <= i < |files| && 0 <= j < |files| && i != j ::
      files[i].path != files[j].path && (Ancestor(files[i].path, files[j].path) ==> files[i].directory)
  {
    forall f | f in files ensures Canonical(f.path) {
      ValidPathExact(f.path);
    }
    forall i, j | 0 <= i < |files| && 0 <= j < |files| && i != j
      ensures files[i].path != files[j].path && (Ancestor(files[i].path, files[j].path) ==> files[i].directory)
    {
      PairCompatible(files, i, j);
    }
  }

  method ReadFiles(reader: Reader) returns (result: Result<(seq<PeerFile>, string)>)
    modifies reader`pending
    ensures match Consume(reader.codec, ListingStep, NOTHING, old(reader.pending))
      case Ok((listing, rest)) => result == Ok(listing) && reader.pending == rest
      case Err(reason) => result == Err(reason) || result == Err(reader.ending)
    ensures result.Ok? ==>
      forall f | f in result.value.0 ::
        && Canonical(f.path) && f.size >= 0
        && (if f.directory || f.deleted then f.hash == "" else IsSha256(f.hash) && ToLower(f.hash) == f.hash)
    ensures result.Ok? ==>
      forall i, j | 0 <= i < |result.value.0| && 0 <= j < |result.value.0| && i != j ::
        && result.value.0[i].path != result.value.0[j].path
        && (Ancestor(result.value.0[i].path, result.value.0[j].path) ==> result.value.0[i].directory)
  {
    var files: seq<PeerFile>, seen: Seen := [], map[];
    while true
      invariant Acceptable(files) && Records(seen, files) && LowerHashes(files)
      invariant Consume(reader.codec, ListingStep, NOTHING, old(reader.pending))
             == Consume(reader.codec, ListingStep, Received(files, seen), reader.pending)
      decreases |reader.pending|
    {
      var message := reader.Read();
      if message.Err? {
        return Err(message.reason);
      }
      var m := message.value;
      match m.kind {
        case File =>
          if m.path == "" {
            return Err("peer returned an empty file path");
          }
          if !ValidPath(m.path) {
            return Err("invalid peer file path");
          }
          if m.size < 0 {
            return Err("peer returned a negative file size");
          }
          var checked := ValidateListingEntry(m.path, m.hash, m.directory, m.deleted, seen);
          if checked.Err? {
            return Err(checked.reason);
          }
          ReceiveOne(files, m, seen);
          files, seen := files + [FileFrom(m)], checked.value;
        case End =>
          AcceptableForm(files);
          return Ok((files, m.id));
        case _ =>
          return Err("unexpected peer message");
      }
    }
  }

  ghost predicate ByPath(files: seq<PeerFile>) {
    forall i, j | 0 <= i < j < |files| :: !Less(files[j].path, files[i].path)
  }

  method SortFiles(files: seq<PeerFile>) returns (ordered: seq<PeerFile>)
    ensures multiset(ordered) == multiset(files) && ByPath(ordered)
  {
    ordered := [];
    for i := 0 to |files|
      invariant multiset(ordered) == multiset(files[..i]) && ByPath(ordered)
    {
      assert files[..i + 1] == files[..i] + [files[i]];
      ordered := InsertFile(ordered, files[i]);
    }
    assert files[..|files|] == files;
  }

  method InsertFile(files: seq<PeerFile>, f: PeerFile) returns (longer: seq<PeerFile>)
    requires ByPath(files)
    ensures multiset(longer) == multiset(files) + multiset{f} && ByPath(longer)
  {
    var at := 0;
    while at < |files| && !Less(f.path, files[at].path)
      invariant 0 <= at <= |files|
      invariant forall j | 0 <= j < at :: !Less(f.path, files[j].path)
    {
      at := at + 1;
    }
    longer := files[..at] + ([f] + files[at..]);
    assert files == files[..at] + files[at..];
    InsertedByPath(files, f, at);
  }

  lemma InsertedByPath(files: seq<PeerFile>, f: PeerFile, at: nat)
    requires ByPath(files) && at <= |files|
    requires forall j | 0 <= j < at :: !Less(f.path, files[j].path)
    requires at < |files| ==> Less(f.path, files[at].path)
    ensures ByPath(files[..at] + ([f] + files[at..]))
  {
    var longer := files[..at] + ([f] + files[at..]);
    assert longer[at] == f;
    forall i, j | 0 <= i < j < |longer| ensures !Less(longer[j].path, longer[i].path) {
      if i == at {
        assert longer[j] == files[j - 1];
        LessTotal(f.path, files[at].path);
        if j - 1 > at && Less(files[j - 1].path, f.path) {
          LessTransitive(files[j - 1].path, f.path, files[at].path);
          assert false;
        }
      } else {
        assert i < at ==> longer[i] == files[i];
        assert i > at ==> longer[i] == files[i - 1];
        assert j < at ==> longer[j] == files[j];
        assert j > at ==> longer[j] == files[j - 1];
      }
    }
  }

  /** The receiver does not accept these bytes as a listing. */
  ghost predicate Refused(codec: Codec, sent: seq<byte>) {
    Faithful(codec) ==> Consume(codec, ListingStep, NOTHING, sent).Err?
  }

  /** At most a part of the frame was sent. */
  predicate Partial(codec: Codec, m: Message, before: seq<byte>, after: seq<byte>) {
    after == before || (Fits(codec, m) && before <= after < before + FrameOf(codec, m))
  }

  /** A listing stops before its end marker when a frame could not be sent, whole or in part. */
  lemma StoppedRefused(codec: Codec, files: seq<PeerFile>, m: Message, start: seq<byte>, before: seq<byte>,
                       after: seq<byte>)
    requires AllFit(codec, FileMessages(files)) && before == start + Stream(codec, FileMessages(files))
    requires Partial(codec, m, before, after)
    ensures start <= after && Refused(codec, after[|start|..])
  {
    var cut := PartialCut(codec, m, before, after);
    var stream := Stream(codec, FileMessages(files));
    assert after[|start|..] == stream + cut;
    if Faithful(codec) {
      UnfinishedRefused(codec, ListingStep, NOTHING, FileMessages(files), cut);
    }
  }

  /** The part of a frame that was sent does not read as a frame. */
  lemma PartialCut(codec: Codec, m: Message, before: seq<byte>, after: seq<byte>) returns (cut: seq<byte>)
    requires Partial(codec, m, before, after)
    ensures after == before + cut && (Faithful(codec) ==> ReadFrame(codec, cut).Short?)
  {
    cut := after[|before|..];
    if cut != [] && Faithful(codec) {
      var frame := FrameOf(codec, m);
      assert |cut| < |frame|;
      assert cut == (before + frame)[|before|..|after|] == frame[..|cut|];
      BrokenFrame(codec, m, |cut|);
    }
  }

  /** Sends a listing in path order, checking every entry before it goes out. A listing that is not sent to its end
      is one the receiver does not accept. */
  method WriteFiles(w: Writer, share: string, id: string, files: seq<PeerFile>)
    returns (o: Outcome, ghost ordered: seq<PeerFile>)
    modifies w`written
    ensures multiset(ordered) == multiset(files)
    ensures o.Done? ==>
      && share != "" && Acceptable(ordered) && ByPath(ordered)
      && AllFit(w.codec, FileMessages(ordered) + [EndMessage(id)])
      && w.written == old(w.written) + Stream(w.codec, FileMessages(ordered) + [EndMessage(id)])
    ensures o.Failed? ==> old(w.written) <= w.written && Refused(w.codec, w.written[|old(w.written)|..])
  {
    ghost var start := w.written;
    ordered := files;
    assert FileMessages([]) == [] && start + [] == start;
    if share == "" {
      StoppedRefused(w.codec, [], EMPTY, start, start, start);
      o := Failed("cannot serve an empty share name");
      return;
    }
    var sorted := SortFiles(files);
    ordered := sorted;
    o := SendFiles(w, sorted);
    if o.Failed? { return; }
    ghost var before := w.written;
    o := w.Write(EndMessage(id));
    if o.Done? {
      Transfers.SentOne(w.codec, FileMessages(sorted), EndMessage(id));
    } else {
      StoppedRefused(w.codec, sorted, EndMessage(id), start, before, w.written);
    }
  }

  method SendFiles(w: Writer, sorted: seq<PeerFile>) returns (o: Outcome)
    modifies w`written
    ensures o.Done? ==> Acceptable(sorted) && AllFit(w.codec, FileMessages(sorted))
    ensures o.Done? ==> w.written == old(w.written) + Stream(w.codec, FileMessages(sorted))
    ensures o.Failed? ==> old(w.written) <= w.written && Refused(w.codec, w.written[|old(w.written)|..])
  {
    ghost var start := w.written;
    var seen: Seen := map[];
    SentNone(w.codec, start, sorted);
    for i := 0 to |sorted|
      invariant SentUpTo(w.codec, start, w.written, sorted, i, seen)
    {
      ghost var before, checked := w.written, seen;
      o, seen := SendFile(w, sorted[i], seen);
      if o.Failed? {
        StoppedRefused(w.codec, sorted[..i], FileMessage(sorted[i]), start, before, w.written);
        return;
      }
      SentNext(w.codec, start, before, w.written, sorted, i, checked, seen);
    }
    ListingAccepted(sorted);
    assert sorted[..|sorted|] == sorted;
    o := Done;
  }

  /** The first `n` entries are checked and sent. */
  predicate SentUpTo(codec: Codec, start: seq<byte>, written: seq<byte>, sorted: seq<PeerFile>, n: nat, seen: Seen) {
    && n <= |sorted|
    && AllFit(codec, FileMessages(sorted[..n]))
    && written == start + Stream(codec, FileMessages(sorted[..n]))
    && CheckFiles(sorted, map[]) == CheckFiles(sorted[n..], seen)
  }

  lemma SentNone(codec: Codec, start: seq<byte>, sorted: seq<PeerFile>)
    ensures SentUpTo(codec, start, start, sorted, 0, map[])
  {
  }

  lemma SentNext(codec: Codec, start: seq<byte>, before: seq<byte>, after: seq<byte>, sorted: seq<PeerFile>, n: nat,
                 seen: Seen, next: Seen)
    requires n < |sorted| && SentUpTo(codec, start, before, sorted, n, seen)
    requires CheckFile(sorted[n], seen) == Ok(next) && Fits(codec, FileMessage(sorted[n]))
    requires after == before + FrameOf(codec, FileMessage(sorted[n]))
    ensures SentUpTo(codec, start, after, sorted, n + 1, next)
  {
    assert sorted[n..][1..] == sorted[n + 1..];
    Transfers.SentOne(codec, FileMessages(sorted[..n]), FileMessage(sorted[n]));
    assert FileMessages(sorted[..n + 1]) == FileMessages(sorted[..n]) + [FileMessage(sorted[n])];
  }

  /** Checks one entry and sends it. */
  method SendFile(w: Writer, file: PeerFile, seen: Seen) returns (o: Outcome, next: Seen)
    modifies w`written
    ensures o.Done? ==> CheckFile(file, seen) == Ok(next) && Fits(w.codec, FileMessage(file))
    ensures o.Done? ==> w.written == old(w.written) + FrameOf(w.codec, FileMessage(file))
    ensures o.Failed? ==> Partial(w.codec, FileMessage(file), old(w.written), w.written)
  {
    next := seen;
    EmptyPathInvalid();
    if !ValidPath(file.path) || file.size < 0 {
      o := Failed("invalid peer file");
      return;
    }
    var checked := ValidateListingEntry(file.path, file.hash, file.directory, file.deleted, seen);
    if checked.Err? {
      o := Failed(checked.reason);
      return;
    }
    next := checked.value;
    o := w.Write(FileMessage(file));
  }

  function Lowered(f: PeerFile): PeerFile {
    f.(hash := ToLower(f.hash))
  }

  function AllLowered(files: seq<PeerFile>): (lowered: seq<PeerFile>)
    ensures |lowered| == |files| && forall i | 0 <= i < |files| :: lowered[i] == Lowered(files[i])
  {
    seq(|files|, i requires 0 <= i < |files| => Lowered(files[i]))
  }

  lemma CheckLowered(f: PeerFile, seen: Seen)
    ensures CheckFile(Lowered(f), seen).Ok? <==> CheckFile(f, seen).Ok?
    ensures CheckFile(f, seen).Ok? ==> CheckFile(Lowered(f), seen) == CheckFile(f, seen)
  {
    LowerTwice(f.hash);
  }

  lemma FileReceived(before: seq<PeerFile>, f: PeerFile, seen: Seen)
    requires CheckFile(f, seen).Ok?
    ensures ListingStep(Received(before, seen), FileMessage(f)) ==
      More(Received(before + [Lowered(f)], CheckFile(f, seen).value))
  {
    CheckLowered(f, seen);
    LowerTwice(f.hash);
  }

  /** The receiver's loop over an acceptable listing collects every entry, digests in lower case. */
  lemma {:induction false} ListingFolds(before: seq<PeerFile>, files: seq<PeerFile>, seen: Seen)
    requires CheckFiles(files, seen).Ok?
    ensures Fold(ListingStep, Received(before, seen), FileMessages(files)) ==
      More(Received(before + AllLowered(files), CheckFiles(files, seen).value))
    decreases |files|
  {
    if files == [] {
      assert before + AllLowered(files) == before;
    } else {
      var lowered, seen' := before + [Lowered(files[0])], CheckFile(files[0], seen).value;
      FileReceived(before, files[0], seen);
      MessagesRest(files);
      FoldOne(ListingStep, Received(before, seen), FileMessages(files), Received(lowered, seen'));
      ListingFolds(lowered, files[1..], seen');
      LoweredRest(before, files);
    }
  }

  lemma MessagesRest(files: seq<PeerFile>)
    requires files != []
    ensures FileMessages(files) != [] && FileMessages(files)[0] == FileMessage(files[0])
    ensures FileMessages(files)[1..] == FileMessages(files[1..])
  {
  }

  lemma LoweredRest(before: seq<PeerFile>, files: seq<PeerFile>)
    requires files != []
    ensures before + AllLowered(files) == before + [Lowered(files[0])] + AllLowered(files[1..])
  {
  }

  /** A listing that was sent to its end reads back entry by entry, with the folder's id. */
  lemma ListingReadsBack(codec: Codec, files: seq<PeerFile>, id: string, rest: seq<byte>)
    requires Faithful(codec) && Acceptable(files) && AllFit(codec, FileMessages(files) + [EndMessage(id)])
    ensures Consume(codec, ListingStep, NOTHING, Stream(codec, FileMessages(files) + [EndMessage(id)]) + rest) ==
      Ok(((AllLowered(files), id), rest))
  {
    var seen := ListingFolded(files);
    var read := Received(AllLowered(files), seen);
    assert ListingStep(read, EndMessage(id)) == Accept((read.files, id));
    ResponseReadsBack(codec, ListingStep, NOTHING, FileMessages(files), EndMessage(id), rest);
  }

  lemma ListingFolded(files: seq<PeerFile>) returns (seen: Seen)
    requires Acceptable(files)
    ensures Fold(ListingStep, NOTHING, FileMessages(files)) == More(Received(AllLowered(files), seen))
  {
    ListingAccepted(files);
    seen := CheckFiles(files, map[]).value;
    ListingFolds([], files, map[]);
    assert [] + AllLowered(files) == AllLowered(files);
  }
}

/** The index a listing describes, at both ends. */
module RemoteIndex {
  import Cycle
  import opened Digests
  import opened Engine
  import EngineProperties
  import opened Frames
  import opened Index
  import opened Listing
  import opened Metadata
  import opened Order
  import PathProtocol
  import opened Paths
  import opened Prelude
  import opened Responses
  import Scan
  import ScanRules
  import opened Sequences
  import opened Vectors

  function EntryFile(path: Path, e: Entry): PeerFile {
    if e.deleted then PeerFile(path, 0, "", NO_METADATA, false, true, e.deletedAt, e.version)
    else PeerFile(path, e.size, e.hash, e.metadata, false, false, 0, e.version)
  }

  function DirectoryFile(path: Path, manifest: Manifest): PeerFile {
    PeerFile(path, 0, "", manifest, true, false, 0, map[])
  }

  predicate FileIn(f: PeerFile, entries: Entries, directories: Directories) {
    if f.directory then f.path in directories && f == DirectoryFile(f.path, directories[f.path])
    else f.path in entries && f == EntryFile(f.path, entries[f.path])
  }

  /** The listing has one file for every entry and every directory, and nothing else. */
  ghost predicate Lists(files: seq<PeerFile>, entries: Entries, directories: Directories) {
    && (forall f | f in files :: FileIn(f, entries, directories))
    && (forall p | p in entries :: EntryFile(p, entries[p]) in files)
    && (forall p | p in directories :: DirectoryFile(p, directories[p]) in files)
    && (forall i, j | 0 <= i < j < |files| :: files[i] != files[j])
  }

  /** The same for the paths dealt with so far. */
  ghost predicate ListsPart(files: seq<PeerFile>, entries: Entries, directories: Directories, es: set<Path>,
                            ds: set<Path>) {
    && es <= entries.Keys && ds <= directories.Keys
    && (forall f | f in files :: FileIn(f, entries, directories) && f.path in if f.directory then ds else es)
    && (forall p | p in es :: EntryFile(p, entries[p]) in files)
    && (forall p | p in ds :: DirectoryFile(p, directories[p]) in files)
    && (forall i, j | 0 <= i < j < |files| :: files[i] != files[j])
  }

  method ListEntries(entries: Entries, directories: Directories) returns (files: seq<PeerFile>)
    ensures Lists(files, entries, directories) && ByPath(files)
  {
    var unordered: seq<PeerFile> := [];
    var rest := entries.Keys;
    while rest != {}
      invariant rest <= entries.Keys
      invariant ListsPart(unordered, entries, directories, entries.Keys - rest, {})
      decreases rest
    {
      var path :| path in rest;
      unordered := unordered + [EntryFile(path, entries[path])];
      rest := rest - {path};
    }
    rest := directories.Keys;
    while rest != {}
      invariant rest <= directories.Keys
      invariant ListsPart(unordered, entries, directories, entries.Keys, directories.Keys - rest)
      decreases rest
    {
      var path :| path in rest;
      unordered := unordered + [DirectoryFile(path, directories[path])];
      rest := rest - {path};
    }
    files := SortFiles(unordered);
    ListsPermuted(unordered, files, entries, directories);
  }

  lemma ListsPermuted(s: seq<PeerFile>, t: seq<PeerFile>, entries: Entries, directories: Directories)
    requires Lists(s, entries, directories) && multiset(s) == multiset(t)
    ensures Lists(t, entries, directories)
  {
    forall f ensures f in t <==> f in s {
      assert f in t <==> f in multiset(t);
      assert f in s <==> f in multiset(s);
    }
    forall i, j | 0 <= i < j < |t| ensures t[i] != t[j] {
      if t[i] == t[j] {
        CountsTwice(t, i, j);
        assert t[i] in s;
        var x :| 0 <= x < |s| && s[x] == t[i];
        CountsOnce(s, x);
      }
    }
  }

  /** No path is both a file and a directory, nothing stands below a file or a tombstone, and the digests have their
      form. */
  ghost predicate TreeConsistent(entries: Entries, directories: Directories) {
    && (forall p | p in entries ::
        ValidPath(p) && p !in directories && (!entries[p].deleted ==> IsSha256(entries[p].hash)))
    && (forall p | p in directories :: ValidPath(p))
    && (forall p, q | p in entries && (q in entries || q in directories) :: !Ancestor(p, q))
  }

  lemma ListsEach(files: seq<PeerFile>, entries: Entries, directories: Directories, p: Path)
    requires Lists(files, entries, directories)
    ensures p in entries ==> exists i :: 0 <= i < |files| && files[i].path == p && !files[i].directory
    ensures p in directories ==> exists i :: 0 <= i < |files| && files[i].path == p && files[i].directory
  {
  }

  lemma ConsistentAccepted(files: seq<PeerFile>, entries: Entries, directories: Directories)
    requires Lists(files, entries, directories) && TreeConsistent(entries, directories)
    ensures Acceptable(files)
  {
    forall f | f in files ensures WellFormed(f) {
      assert FileIn(f, entries, directories);
    }
    forall i, j | 0 <= i < j < |files| ensures Compatible(files[i], files[j]) {
      assert files[i] in files && files[j] in files;
      assert FileIn(files[i], entries, directories) && FileIn(files[j], entries, directories);
    }
  }

  lemma AcceptedConsistent(files: seq<PeerFile>, entries: Entries, directories: Directories)
    requires Lists(files, entries, directories) && Acceptable(files)
    ensures TreeConsistent(entries, directories)
  {
    forall p | p in entries
      ensures ValidPath(p) && p !in directories && (!entries[p].deleted ==> IsSha256(entries[p].hash))
    {
      assert WellFormed(EntryFile(p, entries[p]));
      ListsEach(files, entries, directories, p);
      if p in directories {
        var i :| 0 <= i < |files| && files[i].path == p && !files[i].directory;
        var j :| 0 <= j < |files| && files[j].path == p && files[j].directory;
        PairCompatible(files, i, j);
      }
    }
    forall p | p in directories ensures ValidPath(p) {
      assert WellFormed(DirectoryFile(p, directories[p]));
    }
    forall p, q | p in entries && (q in entries || q in directories) ensures !Ancestor(p, q) {
      ListsEach(files, entries, directories, p);
      ListsEach(files, entries, directories, q);
      var i :| 0 <= i < |files| && files[i].path == p && !files[i].directory;
      var j :| 0 <= j < |files| && files[j].path == q;
      if Ancestor(p, q) {
        PairCompatible(files, i, j);
      }
    }
  }

  /** A peer can list its index exactly when the index is tree-consistent. */
  lemma ListableIffConsistent(files: seq<PeerFile>, entries: Entries, directories: Directories)
    requires Lists(files, entries, directories)
    ensures CheckFiles(files, map[]).Ok? <==> TreeConsistent(entries, directories)
  {
    ListingAccepted(files);
    if TreeConsistent(entries, directories) { ConsistentAccepted(files, entries, directories); }
    if Acceptable(files) { AcceptedConsistent(files, entries, directories); }
  }

  /** A tracked file that became a directory leaves a tombstone and a directory at one path, so the peer cannot list
      its index. */
  lemma ReplacedFileCannotBeListed(previous: Entries, tree: Scan.Tree, ignores: Scan.Ignores, fingerprint: string,
                                   now: int, next: Entries, path: Path,
                                   files: seq<PeerFile>)
    requires Scan.Scanned(previous, tree, ignores, fingerprint, now, next)
    requires path in previous && !previous[path].deleted
    requires Scan.Reached(tree, ignores, path) && tree[path].Directory? && !ignores(path, true) && !ignores(path, false)
    requires Lists(files, next, Scan.DirectoriesOf(tree, ignores))
    ensures CheckFiles(files, map[]).Err?
  {
    Scan.UnseenIsDeleted(previous, tree, ignores, fingerprint, now, next, path);
    assert path in next && path in Scan.DirectoriesOf(tree, ignores);
    ListableIffConsistent(files, next, Scan.DirectoriesOf(tree, ignores));
  }

  /** A directory of tracked files that became a file stands above their tombstones, with the same consequence. */
  lemma ReplacedDirectoryCannotBeListed(previous: Entries, tree: Scan.Tree, ignores: Scan.Ignores, fingerprint: string,
                                        now: int,
                                        next: Entries, path: Path, below: Path, files: seq<PeerFile>)
    requires Scan.Scanned(previous, tree, ignores, fingerprint, now, next)
    requires below in previous && !previous[below].deleted && !ignores(below, false) && Ancestor(path, below)
    requires Scan.SeenAt(tree, ignores, path).Some?
    requires Lists(files, next, Scan.DirectoriesOf(tree, ignores))
    ensures CheckFiles(files, map[]).Err?
  {
    assert !Scan.Reached(tree, ignores, below) by {
      assert below[|path|] == '/' && below[..|path|] == path;
    }
    Scan.UnseenIsDeleted(previous, tree, ignores, fingerprint, now, next, below);
    assert EntryAt(next, path) == ScanRules.ScanOne(EntryAt(previous, path), Scan.SeenAt(tree, ignores, path),
                                                    ignores(path, false), fingerprint, now);
    assert path in next && below in next;
    ListableIffConsistent(files, next, Scan.DirectoriesOf(tree, ignores));
  }

  function FileEntry(f: PeerFile): Entry
    requires f.size >= 0
  {
    if f.deleted then Tombstone(f.version, f.deletedAt) else Content(f.version, f.hash, f.metadata).(size := f.size)
  }

  function AddFile(side: Side, f: PeerFile): Side
    requires f.size >= 0
  {
    if f.directory then side.(directories := side.directories[f.path := f.metadata])
    else side.(entries := side.entries[f.path := FileEntry(f)])
  }

  predicate Sized(files: seq<PeerFile>) {
    forall f | f in files :: f.size >= 0
  }

  function FromListing(name: string, files: seq<PeerFile>): Side
    requires Sized(files)
  {
    if files == [] then Side(name, map[], map[])
    else AddFile(FromListing(name, files[..|files| - 1]), files[|files| - 1])
  }

  method RemoteIndexFromListing(name: string, files: seq<PeerFile>) returns (side: Side)
    requires Sized(files)
    ensures side == FromListing(name, files)
  {
    side := Side(name, map[], map[]);
    for i := 0 to |files|
      invariant side == FromListing(name, files[..i])
    {
      assert files[..i + 1][..i] == files[..i];
      var file := files[i];
      if file.directory {
        side := side.(directories := side.directories[file.path := file.metadata]);
      } else if file.deleted {
        side := side.(entries := side.entries[file.path := Tombstone(file.version, file.deletedAt)]);
      } else {
        side := side.(entries :=
            side.entries[file.path := Content(file.version, file.hash, file.metadata).(size := file.size)]);
      }
    }
    assert files[..|files|] == files;
  }

  /** The rebuilt index has exactly the listed files and directories. */
  ghost predicate Rebuilt(side: Side, files: seq<PeerFile>)
    requires Sized(files)
  {
    && (forall f | f in files && f.directory :: f.path in side.directories && side.directories[f.path] == f.metadata)
    && (forall f | f in files && !f.directory :: f.path in side.entries && side.entries[f.path] == FileEntry(f))
    && (forall p | p in side.directories :: exists f :: f in files && f.directory && f.path == p)
    && (forall p | p in side.entries :: exists f :: f in files && !f.directory && f.path == p)
  }

  lemma {:induction false} ListingRebuilt(name: string, files: seq<PeerFile>)
    requires Acceptable(files)
    ensures Sized(files) && Rebuilt(FromListing(name, files), files) && FromListing(name, files).name == name
  {
    if files != [] {
      var before, last := files[..|files| - 1], files[|files| - 1];
      LastDiffers(files);
      ListingRebuilt(name, before);
      assert Sized(files);
      RebuiltOne(FromListing(name, before), before, files, last);
    }
  }

  lemma LastDiffers(files: seq<PeerFile>)
    requires Acceptable(files) && files != []
    ensures var before, last := files[..|files| - 1], files[|files| - 1];
      && Acceptable(before) && last.size >= 0
      && (forall f :: f in files <==> f in before || f == last)
      && (forall f | f in before :: f.path != last.path)
  {
    var before, last := files[..|files| - 1], files[|files| - 1];
    assert files == before + [last];
    assert WellFormed(last) by { assert last in files; }
    forall f | f in before ensures f.path != last.path {
      var i :| 0 <= i < |before| && before[i] == f;
      PairCompatible(files, i, |files| - 1);
    }
    forall i, j | 0 <= i < j < |before| ensures Compatible(before[i], before[j]) {
      PairCompatible(files, i, j);
    }
  }

  lemma RebuiltOne(side: Side, before: seq<PeerFile>, files: seq<PeerFile>, last: PeerFile)
    requires Sized(files) && Sized(before) && Rebuilt(side, before) && last.size >= 0
    requires forall f :: f in files <==> f in before || f == last
    requires forall f | f in before :: f.path != last.path
    ensures Rebuilt(AddFile(side, last), files)
  {
    var next := AddFile(side, last);
    forall p | p in next.directories ensures exists f :: f in files && f.directory && f.path == p {
      if p in side.directories {
        var f :| f in before && f.directory && f.path == p;
        assert f in files;
      } else {
        assert last in files;
      }
    }
    forall p | p in next.entries ensures exists f :: f in files && !f.directory && f.path == p {
      if p in side.entries {
        var f :| f in before && !f.directory && f.path == p;
        assert f in files;
      } else {
        assert last in files;
      }
    }
  }

  lemma EntriesRebuilt(side: Side, files: seq<PeerFile>, entries: Entries, directories: Directories)
    requires Sized(files) && Rebuilt(side, files) && Lists(files, entries, directories)
    ensures side.entries == Cycle.ListedEntries(entries)
  {
    forall p | p in entries ensures p in side.entries && side.entries[p] == PathProtocol.Listed(entries[p]) {
      var f := EntryFile(p, entries[p]);
      assert f in files && FileEntry(f) == PathProtocol.Listed(entries[p]);
    }
    forall p | p in side.entries ensures p in entries {
      var f :| f in files && !f.directory && f.path == p;
      assert FileIn(f, entries, directories);
    }
  }

  lemma DirectoriesRebuilt(side: Side, files: seq<PeerFile>, entries: Entries, directories: Directories)
    requires Sized(files) && Rebuilt(side, files) && Lists(files, entries, directories)
    ensures side.directories == directories
  {
  }

  /** Digests as scans record them. */
  ghost predicate LowerCase(entries: Entries) {
    forall p | p in entries :: ToLower(entries[p].hash) == entries[p].hash
  }

  lemma AlreadyLower(files: seq<PeerFile>, entries: Entries, directories: Directories)
    requires Lists(files, entries, directories) && LowerCase(entries)
    ensures AllLowered(files) == files
  {
    forall i | 0 <= i < |files| ensures Lowered(files[i]) == files[i] {
      assert files[i] in files && FileIn(files[i], entries, directories);
      assert ToLower("") == "";
    }
  }

  /** The rebuilt index after the wire is the peer's own, less the cached inode and change time and what tombstones
      do not carry. */
  lemma IndexAcrossTheWire(codec: Codec, name: string, id: string, entries: Entries, directories: Directories,
                           files: seq<PeerFile>, rest: seq<byte>)
    requires Faithful(codec) && Lists(files, entries, directories) && TreeConsistent(entries, directories)
    requires LowerCase(entries)
    requires AllFit(codec, FileMessages(files) + [EndMessage(id)])
    ensures Consume(codec, ListingStep, NOTHING, Stream(codec, FileMessages(files) + [EndMessage(id)]) + rest) ==
      Ok(((files, id), rest))
    ensures Sized(files) && FromListing(name, files) == Side(name, Cycle.ListedEntries(entries), directories)
  {
    ConsistentAccepted(files, entries, directories);
    ListingReadsBack(codec, files, id, rest);
    AlreadyLower(files, entries, directories);
    ListingRebuilt(name, files);
    EntriesRebuilt(FromListing(name, files), files, entries, directories);
    DirectoriesRebuilt(FromListing(name, files), files, entries, directories);
  }

  /** Field by field: versions, deletions, digests, sizes and metadata arrive; inodes and change times stay behind. */
  lemma FieldsAcrossTheWire(entries: Entries, p: Path)
    ensures Cycle.ListedEntries(entries).Keys == entries.Keys
    ensures p in entries ==>
      var received := Cycle.ListedEntries(entries)[p];
      && received.version == entries[p].version && received.deleted == entries[p].deleted
      && (if entries[p].deleted then received.deletedAt == entries[p].deletedAt
          else received == entries[p].(ino := 0, ctime := 0, deletedAt := 0))
  {
  }

  lemma DecideListed(path: Path, ln: string, left: Entry, rn: string, right: Entry)
    ensures Decide(path, ln, left, rn, PathProtocol.Listed(right)) == Decide(path, ln, left, rn, right)
  {
  }

  lemma {:induction false} PlanFilesListed(paths: seq<Path>, ln: string, left: Entries, rn: string, right: Entries)
    ensures PlanFiles(paths, ln, left, rn, Cycle.ListedEntries(right)) == PlanFiles(paths, ln, left, rn, right)
  {
    if paths != [] {
      var p := paths[|paths| - 1];
      PlanFilesListed(paths[..|paths| - 1], ln, left, rn, right);
      DecideListed(p, ln, Lookup(left, p), rn, Lookup(right, p));
      assert Lookup(Cycle.ListedEntries(right), p) == if p in right then PathProtocol.Listed(right[p]) else ZERO_ENTRY;
    }
  }

  /** Planning against what came over the wire is planning against the peer's index itself. */
  lemma PlanAcrossTheWire(codec: Codec, left: Side, right: Side, previous: Directories, id: string,
                          files: seq<PeerFile>)
    requires Faithful(codec) && Lists(files, right.entries, right.directories)
    requires TreeConsistent(right.entries, right.directories) && LowerCase(right.entries)
    requires AllFit(codec, FileMessages(files) + [EndMessage(id)])
    ensures var received := Consume(codec, ListingStep, NOTHING, Stream(codec, FileMessages(files) + [EndMessage(id)]));
      && received.Ok? && Sized(received.value.0.0)
      && PlanOf(left, FromListing(right.name, received.value.0.0), previous) == PlanOf(left, right, previous)
  {
    IndexAcrossTheWire(codec, right.name, id, right.entries, right.directories, files, []);
    assert Stream(codec, FileMessages(files) + [EndMessage(id)]) + [] ==
      Stream(codec, FileMessages(files) + [EndMessage(id)]);
    PlanOfListed(left, right, previous);
  }

  lemma PlanOfListed(left: Side, right: Side, previous: Directories)
    ensures PlanOf(left, Side(right.name, Cycle.ListedEntries(right.entries), right.directories), previous) ==
      PlanOf(left, right, previous)
  {
    var listed := Side(right.name, Cycle.ListedEntries(right.entries), right.directories);
    assert listed.entries.Keys == right.entries.Keys;
    PlanFilesListed(Enumerate(left.entries.Keys + right.entries.Keys), left.name, left.entries, right.name,
                    right.entries);
    assert FilePlan(left, listed) == FilePlan(left, right);
    assert DirectoryPlan(left, listed, previous) == DirectoryPlan(left, right, previous);
  }

  /** The peer lists its index, the bytes travel as far as they get, and the initiator rebuilds what it can read: if
      anything is rebuilt, it is the peer's whole index, and not that of another folder. */
  method FetchListing(codec: Codec, share: string, id: string, expectedId: string, name: string, entries: Entries,
                      directories: Directories)
    returns (r: Result<Side>)
    requires Faithful(codec) && LowerCase(entries)
    ensures r.Ok? && expectedId != "" && id != "" ==> id == expectedId
    ensures r.Ok? ==>
      TreeConsistent(entries, directories) && r.value == Side(name, Cycle.ListedEntries(entries), directories)
  {
    var files := ListEntries(entries, directories);
    var w := new Writer(codec);
    var o, ordered := WriteFiles(w, share, id, files);
    var reader := new Reader(codec, w.written, UNEXPECTED_END);
    var received := ReadFiles(reader);
    if received.Err? {
      return Err(received.reason);
    }
    assert w.written[0..] == w.written && [] + w.written == w.written;
    if o.Failed? {
      assert false;
    }
    ListsPermuted(files, ordered, entries, directories);
    AcceptedConsistent(ordered, entries, directories);
    IndexAcrossTheWire(codec, name, id, entries, directories, ordered, []);
    assert w.written == Stream(codec, FileMessages(ordered) + [EndMessage(id)]) + [];
    if expectedId != "" && received.value.1 != "" && received.value.1 != expectedId {
      return Err("folder identity mismatch");
    }
    var side := RemoteIndexFromListing(name, received.value.0);
    r := Ok(side);
  }
}

/** The peer's end of a write request: nothing happens before the whole contents are there. */
module ServedWrites {
  import opened Digests
  import opened Frames
  import opened Index
  import opened Installations
  import opened Metadata
  import opened Paths
  import opened Prelude
  import opened Responses
  import opened Scan
  import opened Sequences
  import Transfers
  import opened Vectors

  /** What the peer checks of a request before it reads the contents. */
  predicate Servable(request: Message) {
    && ValidPath(request.path) && request.size >= 0 && IsSha256(request.hash)
    && (request.peer != "" ==> ValidName(request.peer))
  }

  /** The whole contents arrived: as many bytes as declared, with the declared digest. */
  ghost predicate Complete(codec: Codec, request: Message, input: seq<byte>, digest: seq<byte> -> string) {
    var received := Consume(codec, Transfers.Upload(request.size), [], input);
    received.Ok? && |received.value.0| == request.size && EqualFold(digest(received.value.0), request.hash)
  }

  /** The path, and in a conflict the name its former file is kept under. */
  function Touched(request: Message): set<string> {
    if request.peer == "" then {request.path} else {request.path, ConflictName(request.path, request.peer)}
  }

  /** Serves one write. The peer's tree and index change only for a valid request whose contents arrived completely;
      the answer goes out only after the index has the entry. */
  method ServeWrite(reader: Reader, w: Writer, peer: Installation, request: Message, digest: seq<byte> -> string)
    returns (o: Outcome)
    modifies reader`pending, w`written, peer`tree, peer`entries
    ensures peer.tree != old(peer.tree) || peer.entries != old(peer.entries) || w.written != old(w.written) ==>
      Servable(request) && Complete(reader.codec, request, old(reader.pending), digest)
    ensures o.Done? ==> w.written == old(w.written) + (if Fits(w.codec, EMPTY) then FrameOf(w.codec, EMPTY) else [])
    ensures o.Done? && request.peer == "" ==>
      peer.Wrote(request.path, ToLower(request.hash), request.metadata, request.version)
    ensures o.Done? && request.peer != "" ==>
      && HoldsFile(peer.tree, request.path, ToLower(request.hash), request.metadata)
      && peer.entries ==
          old(peer.entries)[request.path := Content(request.version, ToLower(request.hash), request.metadata)]
    ensures request.path in old(peer.tree) && request.peer != "" ==>
      KeptOrMoved(old(peer.tree), peer.tree, request.path, ConflictName(request.path, request.peer))
    ensures peer.tree != old(peer.tree) || peer.entries != old(peer.entries) ==>
      Canonical(request.path) && (request.peer == "" || (request.peer !in {".", ".."} && '/' !in request.peer))
    ensures Elsewhere(old(peer.tree), peer.tree, Touched(request))
  {
    ValidPathExact(request.path);
    if !ValidPath(request.path) || request.size < 0 || !IsSha256(request.hash)
        || (request.peer != "" && !ValidName(request.peer)) {
      return Failed("invalid write request");
    }
    if request.peer != "" {
      ValidNameIsSegment(request.peer);
    }
    o := ReadAndWriteFile(reader, w, peer, request, digest);
  }

  method ReadAndWriteFile(reader: Reader, w: Writer, peer: Installation, request: Message, digest: seq<byte> -> string)
    returns (o: Outcome)
    modifies reader`pending, w`written, peer`tree, peer`entries
    ensures peer.tree != old(peer.tree) || peer.entries != old(peer.entries) || w.written != old(w.written) ==>
      Complete(reader.codec, request, old(reader.pending), digest)
    ensures o.Done? ==> w.written == old(w.written) + (if Fits(w.codec, EMPTY) then FrameOf(w.codec, EMPTY) else [])
    ensures o.Done? && request.peer == "" ==>
      peer.Wrote(request.path, ToLower(request.hash), request.metadata, request.version)
    ensures o.Done? && request.peer != "" ==>
      && HoldsFile(peer.tree, request.path, ToLower(request.hash), request.metadata)
      && peer.entries ==
          old(peer.entries)[request.path := Content(request.version, ToLower(request.hash), request.metadata)]
    ensures request.path in old(peer.tree) && request.peer != "" ==>
      KeptOrMoved(old(peer.tree), peer.tree, request.path, ConflictName(request.path, request.peer))
    ensures Elsewhere(old(peer.tree), peer.tree, Touched(request))
  {
    var contents := Transfers.ReceiveContents(reader, request.size);
    if contents.Err? {
      return Failed(contents.reason);
    }
    if !EqualFold(digest(contents.value), request.hash) {
      return Failed("content hash mismatch");
    }
    if request.peer != "" {
      o := peer.ConflictWriter(request.path, request.peer, ToLower(request.hash), request.metadata, request.version);
    } else {
      o := peer.FileWriter(request.path, ToLower(request.hash), request.metadata, request.version);
    }
    if o.Done? {
      o := w.Write(EMPTY);
    }
  }

  /** However much of an upload arrives, its contents are accepted only if all of it did. */
  lemma CutUpload(codec: Codec, header: Message, chunks: seq<seq<byte>>, data: seq<byte>, n: nat)
    requires Faithful(codec) && Transfers.Cuts(chunks, data) && header.size == |data|
    requires AllFit(codec, [header] + Transfers.ChunkMessages(chunks) + [EMPTY])
    requires n <= |Stream(codec, [header] + Transfers.ChunkMessages(chunks) + [EMPTY])|
    ensures var stream := Stream(codec, [header] + Transfers.ChunkMessages(chunks) + [EMPTY]);
      Arriving(codec, header, data, stream[..n])
  {
    var stream := Stream(codec, [header] + Transfers.ChunkMessages(chunks) + [EMPTY]);
    Transfers.UploadReadsBack(codec, header, chunks, data, []);
    assert stream + [] == stream;
    ArrivingCut(codec, header, data, stream, n);
  }

  /** What is there of an upload is too short for its request, or the request followed by contents that are accepted
      as the sender's data or not at all. */
  ghost predicate Arriving(codec: Codec, header: Message, data: seq<byte>, input: seq<byte>) {
    match ReadFrame(codec, input)
    case Got(request, rest) =>
      && request == header
      && (Consume(codec, Transfers.Upload(header.size), [], rest).Ok? ==>
            Consume(codec, Transfers.Upload(header.size), [], rest).value.0 == data)
    case Short => true
    case Bad(_) => false
  }

  lemma ArrivingCut(codec: Codec, header: Message, data: seq<byte>, stream: seq<byte>, n: nat)
    requires n <= |stream| && ReadFrame(codec, stream).Got? && ReadFrame(codec, stream).message == header
    requires Consume(codec, Transfers.Upload(header.size), [], ReadFrame(codec, stream).rest) == Ok((data, []))
    ensures Arriving(codec, header, data, stream[..n])
  {
    var rest := ReadFrame(codec, stream).rest;
    var used := |stream| - |rest|;
    FrameCut(codec, stream, n);
    if used <= n < |stream| {
      TruncationRefused(codec, Transfers.Upload(header.size), [], rest, n - used);
    } else if n == |stream| {
      assert stream[..n] == stream;
    }
  }

  /** A push over the wire, of which any part may arrive. If the peer changes at all, it received exactly the
      sender's data; if the push completes, the peer wrote it. */
  method Push(codec: Codec, answers: Writer, peer: Installation, share: string, path: Path, data: seq<byte>,
              hash: string,
              metadata: Manifest, version: Vector, digest: seq<byte> -> string)
    returns (o: Outcome)
    requires Faithful(codec)
    modifies answers`written, peer`tree, peer`entries
    ensures peer.tree != old(peer.tree) || peer.entries != old(peer.entries) ==> EqualFold(digest(data), hash)
    ensures o.Done? ==> peer.Wrote(path, ToLower(hash), metadata, version)
  {
    var w := new Writer(codec);
    var sent, chunks := Transfers.WriteFile(w, "write-file", share, path, data, hash, "", metadata, version, digest);
    if sent.Failed? {
      return Failed(sent.reason);
    }
    var arrived: int := *;
    if !(0 <= arrived <= |w.written|) {
      return Failed("connection lost");
    }
    ghost var header := Transfers.WriteRequest("write-file", share, path, |data|, ToLower(hash), "", metadata, version);
    assert w.written == Stream(codec, [header] + Transfers.ChunkMessages(chunks) + [EMPTY]);
    CutUpload(codec, header, chunks, data, arrived);
    o := ServeArrived(codec, answers, peer, w.written[..arrived], digest, header, data);
    LowerTwice(hash);
  }

  method ServeArrived(codec: Codec, answers: Writer, peer: Installation, input: seq<byte>, digest: seq<byte> -> string,
                      ghost header: Message, ghost data: seq<byte>)
    returns (o: Outcome)
    requires Arriving(codec, header, data, input) && header.peer == ""
    modifies answers`written, peer`tree, peer`entries
    ensures peer.tree != old(peer.tree) || peer.entries != old(peer.entries) ==> EqualFold(digest(data), header.hash)
    ensures o.Done? ==> peer.Wrote(header.path, ToLower(header.hash), header.metadata, header.version)
  {
    var reader := new Reader(codec, input, UNEXPECTED_END);
    var request := reader.Read();
    if request.Err? {
      return Failed(request.reason);
    }
    o := ServeWrite(reader, answers, peer, request.value, digest);
  }
}

/** SHA-256 digests as text. */
module Digests {
  const SHA256_DIGITS := 64

  predicate IsHex(c: char) {
    '0' <= c <= '9' || 'a' <= c <= 'f' || 'A' <= c <= 'F'
  }

  predicate IsSha256(value: string) {
    |value| == SHA256_DIGITS && forall c | c in value :: IsHex(c)
  }

  function Lower(c: char): char {
    if 'A' <= c <= 'Z' then (c as int + 32) as char else c
  }

  function ToLower(s: string): (r: string)
    ensures |r| == |s| && forall i | 0 <= i < |s| :: r[i] == Lower(s[i])
  {
    seq(|s|, i requires 0 <= i < |s| => Lower(s[i]))
  }

  /** Equal up to letter case. */
  predicate EqualFold(s: string, t: string) {
    ToLower(s) == ToLower(t)
  }

  lemma LowerTwice(s: string)
    ensures ToLower(ToLower(s)) == ToLower(s)
    ensures IsSha256(ToLower(s)) <==> IsSha256(s)
  {
    if IsSha256(s) {
      forall c | c in ToLower(s) ensures IsHex(c) {
        var i :| 0 <= i < |s| && ToLower(s)[i] == c;
        assert s[i] in s;
      }
    }
    if IsSha256(ToLower(s)) {
      forall c | c in s ensures IsHex(c) {
        var i :| 0 <= i < |s| && s[i] == c;
        assert ToLower(s)[i] in ToLower(s);
      }
    }
  }
}

/** Length-prefixed frames: four bytes of big-endian length, then the encoded message. */
module Frames {
  import opened Index
  import opened Metadata
  import opened Prelude
  import opened Sequences
  import opened Vectors

  const HEADER := 4
  const MAX_FRAME := 0x100_0000
  const UNEXPECTED_END := "peer listing ended without an end-of-stream marker"

  datatype Kind = ShareName | File | Chunk | End | Request(name: string)

  /** The fields of a wire message that listings and file streams use. */
  datatype Message = Message(
    kind: Kind,
    share: string,
    id: string,
    path: Path,
    size: int,
    hash: string,
    data: seq<byte>,
    peer: string,
    metadata: Manifest,
    directory: bool,
    deleted: bool,
    deletedAt: int,
    version: Vector
  )

  const EMPTY := Message(End, "", "", "", 0, "", [], "", NO_METADATA, false, false, 0, map[])

  /** The message encoding, which is opaque. */
  datatype Codec = Codec(encode: Message -> seq<byte>, decode: seq<byte> -> Option<Message>)

  ghost predicate Faithful(codec: Codec) {
    forall m :: codec.decode(codec.encode(m)) == Some(m)
  }

  function BigEndian(n: nat): (h: seq<byte>)
    requires n < 0x1_0000_0000
    ensures |h| == HEADER
  {
    [(n / 0x100_0000) as byte, (n / 0x1_0000 % 0x100) as byte, (n / 0x100 % 0x100) as byte, (n % 0x100) as byte]
  }

  function FromBigEndian(h: seq<byte>): nat
    requires |h| == HEADER
  {
    h[0] as nat * 0x100_0000 + h[1] as nat * 0x1_0000 + h[2] as nat * 0x100 + h[3] as nat
  }

  lemma BigEndianReadsBack(n: nat)
    requires n < 0x1_0000_0000
    ensures FromBigEndian(BigEndian(n)) == n
  {
    assert n / 0x100 / 0x100 == n / 0x1_0000 && n / 0x1_0000 / 0x100 == n / 0x100_0000;
  }

  predicate Fits(codec: Codec, m: Message) {
    |codec.encode(m)| <= MAX_FRAME
  }

  predicate AllFit(codec: Codec, messages: seq<Message>) {
    forall m | m in messages :: Fits(codec, m)
  }

  function FrameOf(codec: Codec, m: Message): (f: seq<byte>)
    requires Fits(codec, m)
    ensures |f| >= HEADER
  {
    BigEndian(|codec.encode(m)|) + codec.encode(m)
  }

  function Stream(codec: Codec, messages: seq<Message>): seq<byte>
    requires AllFit(codec, messages)
  {
    if messages == [] then [] else FrameOf(codec, messages[0]) + Stream(codec, messages[1..])
  }

  /** What one read of the input gives: a message and the rest, the end of the input inside a frame, or an error. */
  datatype Parsed = Got(message: Message, rest: seq<byte>) | Short | Bad(reason: string)

  function ReadFrame(codec: Codec, input: seq<byte>): (p: Parsed)
    ensures p.Got? ==> |p.rest| + HEADER <= |input|
  {
    if |input| < HEADER then Short
    else
      var size := FromBigEndian(input[..HEADER]);
      if size > MAX_FRAME then Bad("peer message is too large")
      else if |input| - HEADER < size then Short
      else match codec.decode(input[HEADER..HEADER + size])
        case None => Bad("decode peer message")
        case Some(m) => Got(m, input[HEADER + size..])
  }

  /** The first four bytes declare the length, the highest first. More than sixteen mebibytes are refused before the
      contents arrive; anything else that is there and can be decoded is read. */
  lemma OversizedRefused(codec: Codec, input: seq<byte>)
    requires |input| >= 4
    ensures var declared := input[0] as nat * 16777216 + input[1] as nat * 65536 + input[2] as nat * 256
        + input[3] as nat;
      && (declared > 16777216 ==> ReadFrame(codec, input).Bad?)
      && (declared <= 16777216 && |input| - 4 < declared ==> ReadFrame(codec, input).Short?)
      && (declared <= 16777216 && declared <= |input| - 4 && codec.decode(input[4..4 + declared]).Some? ==>
            ReadFrame(codec, input) == Got(codec.decode(input[4..4 + declared]).value, input[4 + declared..]))
  {
  }

  lemma FrameReadsBack(codec: Codec, m: Message, rest: seq<byte>)
    requires Faithful(codec) && Fits(codec, m)
    ensures ReadFrame(codec, FrameOf(codec, m) + rest) == Got(m, rest)
  {
    var payload := codec.encode(m);
    var input := FrameOf(codec, m) + rest;
    BigEndianReadsBack(|payload|);
    assert input[..HEADER] == BigEndian(|payload|);
    assert input[HEADER..HEADER + |payload|] == payload;
    assert input[HEADER + |payload|..] == rest;
  }

  /** A frame cut anywhere is short, whatever would have followed; cut later, it is read as before. */
  lemma FrameCut(codec: Codec, input: seq<byte>, n: nat)
    requires n <= |input| && ReadFrame(codec, input).Got?
    ensures var rest := ReadFrame(codec, input).rest;
      ReadFrame(codec, input[..n]) ==
        if n < |input| - |rest| then Short else Got(ReadFrame(codec, input).message, rest[..n - (|input| - |rest|)])
  {
    if n >= HEADER {
      var size := FromBigEndian(input[..HEADER]);
      assert input[..n][..HEADER] == input[..HEADER];
      if n >= HEADER + size {
        assert input[..n][HEADER..HEADER + size] == input[HEADER..HEADER + size];
      }
    }
  }

  /** The reading end of a connection. `ending` is what it reports when it runs out: the end of the input, or a read
      error. */
  class Reader {
    const codec: Codec
    const ending: string
    var pending: seq<byte>

    constructor (codec: Codec, pending: seq<byte>, ending: string)
      ensures this.codec == codec && this.pending == pending && this.ending == ending
    {
      this.codec, this.pending, this.ending := codec, pending, ending;
    }

    method ReadFull(n: nat) returns (r: Option<seq<byte>>)
      modifies this`pending
      ensures n <= |old(pending)| ==> r == Some(old(pending)[..n]) && pending == old(pending)[n..]
      ensures n > |old(pending)| ==> r.None? && pending == []
    {
      if n > |pending| {
        pending := [];
        return None;
      }
      r := Some(pending[..n]);
      pending := pending[n..];
    }

    method Read() returns (r: Result<Message>)
      modifies this`pending
      ensures match ReadFrame(codec, old(pending))
        case Got(m, rest) => r == Ok(m) && pending == rest
        case Short => r == Err(ending)
        case Bad(reason) => r == Err(reason)
    {
      var header := ReadFull(HEADER);
      if header.None? {
        return Err(ending);
      }
      var size := FromBigEndian(header.value);
      if size > MAX_FRAME {
        return Err("peer message is too large");
      }
      var payload := ReadFull(size);
      if payload.None? {
        return Err(ending);
      }
      var m := codec.decode(payload.value);
      assert old(pending)[HEADER..][..size] == old(pending)[HEADER..HEADER + size];
      r := if m.None? then Err("decode peer message") else Ok(m.value);
    }
  }

  /** The writing end; a write may break off anywhere. */
  class Writer {
    const codec: Codec
    var written: seq<byte>

    constructor (codec: Codec)
      ensures this.codec == codec && written == []
    {
      this.codec, written := codec, [];
    }

    method Write(m: Message) returns (o: Outcome)
      modifies this`written
      ensures o.Done? ==> Fits(codec, m) && written == old(written) + FrameOf(codec, m)
      ensures o.Failed? ==>
        written == old(written) || (Fits(codec, m) && old(written) <= written < old(written) + FrameOf(codec, m))
    {
      var payload := codec.encode(m);
      if |payload| > MAX_FRAME {
        return Failed("peer message is too large");
      }
      ghost var before := written;
      var frame := BigEndian(|payload|) + payload;
      var sent: int := *;
      if 0 <= sent < |frame| {
        written := written + frame[..sent];
        assert written == (before + frame)[..|written|];
        return Failed("write peer message");
      }
      written := written + frame;
      o := Done;
    }
  }
}

/** Reading a whole response frame by frame until its end marker. */
module Responses {
  import opened Frames
  import opened Prelude
  import opened Sequences

  datatype Verdict<S, R> = More(state: S) | Accept(result: R) | Reject(reason: string)

  type Step<!S, !R> = (S, Message) -> Verdict<S, R>

  /** Feeds frames to `step` until it accepts, and returns its result and the input after the last frame read. */
  function Consume<S, R>(codec: Codec, step: Step<S, R>, state: S, input: seq<byte>): Result<(R, seq<byte>)>
    decreases |input|
  {
    match ReadFrame(codec, input)
    case Short => Err(UNEXPECTED_END)
    case Bad(reason) => Err(reason)
    case Got(m, rest) =>
      match step(state, m)
      case More(next) => Consume(codec, step, next, rest)
      case Accept(result) => Ok((result, rest))
      case Reject(reason) => Err(reason)
  }

  function Fold<S, R>(step: Step<S, R>, state: S, messages: seq<Message>): Verdict<S, R> {
    if messages == [] then More(state)
    else match step(state, messages[0])
      case More(next) => Fold(step, next, messages[1..])
      case other => other
  }

  lemma FoldOne<S, R>(step: Step<S, R>, state: S, messages: seq<Message>, next: S)
    requires messages != [] && step(state, messages[0]) == More(next)
    ensures Fold(step, state, messages) == Fold(step, next, messages[1..])
  {
  }

  /** No strict prefix of an accepted response is accepted: every cut reads as an unexpected end. */
  lemma {:induction false} TruncationRefused<S, R>(codec: Codec, step: Step<S, R>, state: S, input: seq<byte>, n: nat)
    requires Consume(codec, step, state, input).Ok?
    requires n < |input| - |Consume(codec, step, state, input).value.1|
    ensures Consume(codec, step, state, input[..n]) == Err(UNEXPECTED_END)
    decreases |input|
  {
    FrameCut(codec, input, n);
    var p := ReadFrame(codec, input);
    var used := |input| - |p.rest|;
    if n >= used && step(state, p.message).More? {
      TruncationRefused(codec, step, step(state, p.message).state, p.rest, n - used);
    }
  }

  /** Reading a stream of whole frames is folding its messages. */
  lemma {:induction false} StreamFolds<S, R>(codec: Codec, step: Step<S, R>, state: S, messages: seq<Message>,
                                             rest: seq<byte>)
    requires Faithful(codec) && AllFit(codec, messages)
    ensures var fold := Fold(step, state, messages);
      && (fold.More? ==>
          Consume(codec, step, state, Stream(codec, messages) + rest) == Consume(codec, step, fold.state, rest))
      && (fold.Reject? ==> Consume(codec, step, state, Stream(codec, messages) + rest) == Err(fold.reason))
      && (fold.Accept? ==>
          (var r := Consume(codec, step, state, Stream(codec, messages) + rest); r.Ok? && r.value.0 == fold.result))
  {
    if messages == [] {
      assert Stream(codec, messages) + rest == rest;
    } else {
      var tail := Stream(codec, messages[1..]) + rest;
      assert Stream(codec, messages) + rest == FrameOf(codec, messages[0]) + tail;
      FrameReadsBack(codec, messages[0], tail);
      var verdict := step(state, messages[0]);
      if verdict.More? {
        StreamFolds(codec, step, verdict.state, messages[1..], rest);
      }
    }
  }

  /** A response whose last message alone is accepted reads back exactly, and leaves what follows it. */
  lemma ResponseReadsBack<S, R>(codec: Codec, step: Step<S, R>, state: S, body: seq<Message>, end: Message,
                                rest: seq<byte>)
    requires Faithful(codec) && AllFit(codec, body + [end])
    requires Fold(step, state, body).More? && step(Fold(step, state, body).state, end).Accept?
    ensures Consume(codec, step, state, Stream(codec, body + [end]) + rest) ==
      Ok((step(Fold(step, state, body).state, end).result, rest))
  {
    assert forall m | m in body :: m in body + [end];
    assert end in body + [end];
    StreamAppend(codec, body, [end]);
    assert Stream(codec, [end]) == FrameOf(codec, end);
    assert Stream(codec, body + [end]) + rest == Stream(codec, body) + (FrameOf(codec, end) + rest);
    StreamFolds(codec, step, state, body, FrameOf(codec, end) + rest);
    FrameReadsBack(codec, end, rest);
  }

  lemma {:induction false} StreamAppend(codec: Codec, s: seq<Message>, t: seq<Message>)
    requires AllFit(codec, s) && AllFit(codec, t)
    ensures AllFit(codec, s + t) && Stream(codec, s + t) == Stream(codec, s) + Stream(codec, t)
  {
    if s == [] {
      assert s + t == t;
    } else {
      StreamAppend(codec, s[1..], t);
      assert (s + t)[1..] == s[1..] + t;
      assert (s + t)[0] == s[0];
    }
  }

  /** Any sequence of messages reads back as written, whatever follows it. */
  lemma {:induction false} StreamReadsBack(codec: Codec, messages: seq<Message>, rest: seq<byte>)
    requires Faithful(codec) && AllFit(codec, messages)
    ensures ReadMany(codec, |messages|, Stream(codec, messages) + rest) == Ok((messages, rest))
  {
    if messages == [] {
      assert Stream(codec, messages) + rest == rest;
    } else {
      var tail := Stream(codec, messages[1..]) + rest;
      assert Stream(codec, messages) + rest == FrameOf(codec, messages[0]) + tail;
      FrameReadsBack(codec, messages[0], tail);
      StreamReadsBack(codec, messages[1..], rest);
      ReadOneMore(codec, messages, Stream(codec, messages) + rest, tail, rest);
    }
  }

  lemma ReadOneMore(codec: Codec, messages: seq<Message>, input: seq<byte>, tail: seq<byte>, rest: seq<byte>)
    requires messages != [] && ReadFrame(codec, input) == Got(messages[0], tail)
    requires ReadMany(codec, |messages| - 1, tail) == Ok((messages[1..], rest))
    ensures ReadMany(codec, |messages|, input) == Ok((messages, rest))
  {
    assert messages == [messages[0]] + messages[1..];
  }

  function ReadMany(codec: Codec, count: nat, input: seq<byte>): Result<(seq<Message>, seq<byte>)> {
    if count == 0 then Ok(([], input))
    else match ReadFrame(codec, input)
      case Short => Err(UNEXPECTED_END)
      case Bad(reason) => Err(reason)
      case Got(m, rest) =>
        match ReadMany(codec, count - 1, rest)
        case Err(reason) => Err(reason)
        case Ok((more, left)) => Ok(([m] + more, left))
  }

  /** A frame that broke off reads as an unexpected end. */
  lemma BrokenFrame(codec: Codec, m: Message, n: nat)
    requires Faithful(codec) && Fits(codec, m) && n < |FrameOf(codec, m)|
    ensures ReadFrame(codec, FrameOf(codec, m)[..n]).Short?
  {
    FrameReadsBack(codec, m, []);
    assert FrameOf(codec, m) + [] == FrameOf(codec, m);
    FrameCut(codec, FrameOf(codec, m), n);
  }

  /** What broke off before its end marker, between frames or inside one, is never accepted. */
  lemma {:induction false} UnfinishedRefused<S(!new), R>(codec: Codec, step: Step<S, R>, state: S,
                                                         messages: seq<Message>, cut: seq<byte>)
    requires Faithful(codec) && AllFit(codec, messages) && ReadFrame(codec, cut).Short?
    requires forall s, m | m in messages :: !step(s, m).Accept?
    ensures Consume(codec, step, state, Stream(codec, messages) + cut).Err?
  {
    if messages == [] {
      assert Stream(codec, messages) + cut == cut;
    } else {
      var tail := Stream(codec, messages[1..]) + cut;
      assert Stream(codec, messages) + cut == FrameOf(codec, messages[0]) + tail;
      FrameReadsBack(codec, messages[0], tail);
      if step(state, messages[0]).More? {
        UnfinishedRefused(codec, step, step(state, messages[0]).state, messages[1..], cut);
      }
    }
  }
}

/** Share listings and file contents on the wire. */
module Transfers {
  import opened Digests
  import opened Frames
  import opened Index
  import opened Metadata
  import opened Paths
  import opened Prelude
  import opened Responses
  import opened Sequences
  import opened Vectors

  const CHUNK_SIZE := 0x10_0000

  function ChunkMessage(data: seq<byte>): Message {
    EMPTY.(kind := Chunk, data := data)
  }

  function ChunkMessages(chunks: seq<seq<byte>>): (messages: seq<Message>)
    ensures |messages| == |chunks| && forall i | 0 <= i < |chunks| :: messages[i] == ChunkMessage(chunks[i])
  {
    seq(|chunks|, i requires 0 <= i < |chunks| => ChunkMessage(chunks[i]))
  }

  /** Non-empty pieces of at most a chunk's size that make up the data. */
  ghost predicate Cuts(chunks: seq<seq<byte>>, data: seq<byte>) {
    Concat(chunks) == data && forall c | c in chunks :: 0 < |c| <= 1048576
  }

  function ShareStep(shares: seq<string>, m: Message): (v: Verdict<seq<string>, seq<string>>)
    ensures v.More? ==> v.state == shares + [m.share] && m.share != ""
    ensures v.More? || v.Accept? ==> (v.More? <==> m.kind.ShareName?) && (v.Accept? <==> m.kind.End?)
  {
    match m.kind
    case ShareName => if m.share == "" then Reject("peer returned an empty share name") else More(shares + [m.share])
    case End => Accept(shares)
    case _ => Reject("unexpected peer message")
  }

  method ReadShares(reader: Reader) returns (result: Result<seq<string>>)
    modifies reader`pending
    ensures match Consume(reader.codec, ShareStep, [], old(reader.pending))
      case Ok((shares, rest)) => result == Ok(shares) && reader.pending == rest
      case Err(reason) => result == Err(reason) || result == Err(reader.ending)
  {
    var shares: seq<string> := [];
    while true
      invariant Consume(reader.codec, ShareStep, [], old(reader.pending))
             == Consume(reader.codec, ShareStep, shares, reader.pending)
      decreases |reader.pending|
    {
      var message := reader.Read();
      if message.Err? {
        return Err(message.reason);
      }
      match message.value.kind {
        case ShareName =>
          if message.value.share == "" {
            return Err("peer returned an empty share name");
          }
          shares := shares + [message.value.share];
        case End =>
          return Ok(shares);
        case _ =>
          return Err("unexpected peer message");
      }
    }
  }

  /** The contents received so far never exceed the declared size. */
  function UploadStep(declared: int, received: seq<byte>, m: Message): (v: Verdict<seq<byte>, seq<byte>>)
    ensures |received| <= declared && v.More? ==> received < v.state && |v.state| <= declared
    ensures v.Accept? ==> |v.result| == declared
    ensures v.More? || v.Accept? ==> (v.More? <==> m.kind.Chunk?) && (v.Accept? <==> m.kind.End?)
  {
    match m.kind
    case Chunk =>
      if m.data == [] then Reject("peer returned an empty file chunk")
      else if |m.data| > declared - |received| then Reject("received content beyond declared size")
      else More(received + m.data)
    case End => if |received| != declared then Reject("received size differs") else Accept(received)
    case _ => Reject("unexpected peer mutation frame")
  }

  function Upload(declared: int): Step<seq<byte>, seq<byte>> {
    (received, m) => UploadStep(declared, received, m)
  }

  /** Buffers a peer's upload; only a complete one of exactly the declared size reaches the file writer. */
  method ReceiveContents(reader: Reader, declared: int) returns (contents: Result<seq<byte>>)
    modifies reader`pending
    ensures match Consume(reader.codec, Upload(declared), [], old(reader.pending))
      case Ok((data, rest)) => contents == Ok(data) && reader.pending == rest && |data| == declared
      case Err(reason) => contents == Err(reason) || contents == Err(reader.ending)
  {
    var buffer: seq<byte>, received := [], 0;
    while true
      invariant received == |buffer|
      invariant received > 0 ==> received <= declared
      invariant Consume(reader.codec, Upload(declared), [], old(reader.pending))
             == Consume(reader.codec, Upload(declared), buffer, reader.pending)
      decreases |reader.pending|
    {
      var frame := reader.Read();
      if frame.Err? {
        return Err(frame.reason);
      }
      match frame.value.kind {
        case Chunk =>
          if |frame.value.data| == 0 {
            return Err("peer returned an empty file chunk");
          }
          if |frame.value.data| > declared - received {
            return Err("received content beyond declared size");
          }
          received := received + |frame.value.data|;
          buffer := buffer + frame.value.data;
        case End =>
          if received != declared {
            return Err("received size differs");
          }
          return Ok(buffer);
        case _ =>
          return Err("unexpected peer mutation frame");
      }
    }
  }

  function DownloadStep(digest: seq<byte> -> string, expectedHash: string, received: seq<byte>,
                        m: Message): (v: Verdict<seq<byte>, seq<byte>>)
    ensures v.More? ==> received < v.state && v.state[|received|..] == m.data
    ensures v.More? || v.Accept? ==> (v.More? <==> m.kind.Chunk?) && (v.Accept? <==> m.kind.End?)
    ensures v.Accept? ==> v.result == received
  {
    match m.kind
    case Chunk => if m.data == [] then Reject("peer returned an empty file chunk") else More(received + m.data)
    case End => if expectedHash != "" && !EqualFold(digest(received), expectedHash)
        then Reject("peer file hash mismatch") else Accept(received)
    case _ => Reject("unexpected peer message")
  }

  function Download(digest: seq<byte> -> string, expectedHash: string): Step<seq<byte>, seq<byte>> {
    (received, m) => DownloadStep(digest, expectedHash, received, m)
  }

  method ReadFile(reader: Reader, digest: seq<byte> -> string, expectedHash: string)
    returns (contents: Result<seq<byte>>)
    modifies reader`pending
    ensures match Consume(reader.codec, Download(digest, expectedHash), [], old(reader.pending))
      case Ok((data, rest)) => contents == Ok(data) && reader.pending == rest
      case Err(reason) => contents == Err(reason) || contents == Err(reader.ending)
    ensures contents.Ok? && expectedHash != "" ==> EqualFold(digest(contents.value), expectedHash)
  {
    var buffer: seq<byte> := [];
    while true
      invariant Consume(reader.codec, Download(digest, expectedHash), [], old(reader.pending))
             == Consume(reader.codec, Download(digest, expectedHash), buffer, reader.pending)
      decreases |reader.pending|
    {
      var frame := reader.Read();
      if frame.Err? {
        return Err(frame.reason);
      }
      match frame.value.kind {
        case Chunk =>
          if |frame.value.data| == 0 {
            return Err("peer returned an empty file chunk");
          }
          buffer := buffer + frame.value.data;
        case End =>
          if expectedHash != "" && !EqualFold(digest(buffer), expectedHash) {
            return Err("peer file hash mismatch");
          }
          return Ok(buffer);
        case _ =>
          return Err("unexpected peer message");
      }
    }
  }

  /** What a writer has sent of a file: the leading messages and the pieces so far. */
  ghost predicate Sent(w: Writer, start: seq<byte>, lead: seq<Message>, chunks: seq<seq<byte>>, data: seq<byte>)
    reads w`written
  {
    && Cuts(chunks, data)
    && AllFit(w.codec, lead + ChunkMessages(chunks))
    && w.written == start + Stream(w.codec, lead + ChunkMessages(chunks))
  }

  /** What it has sent when the file is complete. */
  ghost predicate SentAll(w: Writer, start: seq<byte>, lead: seq<Message>, chunks: seq<seq<byte>>, data: seq<byte>)
    reads w`written
  {
    && Cuts(chunks, data)
    && AllFit(w.codec, lead + ChunkMessages(chunks) + [EMPTY])
    && w.written == start + Stream(w.codec, lead + ChunkMessages(chunks) + [EMPTY])
  }

  /** Sends the piece of the file from `offset` to `end`. */
  method SendChunk(w: Writer, data: seq<byte>, offset: nat, end: nat, ghost start: seq<byte>, ghost lead: seq<Message>,
                   ghost chunks: seq<seq<byte>>)
    returns (o: Outcome, ghost longer: seq<seq<byte>>)
    requires offset < end <= |data| && end - offset <= CHUNK_SIZE
    requires Sent(w, start, lead, chunks, data[..offset])
    modifies w`written
    ensures o.Done? ==> Sent(w, start, lead, longer, data[..end])
  {
    var chunk := data[offset..end];
    longer := chunks + [chunk];
    o := w.Write(ChunkMessage(chunk));
    if o.Done? {
      SentOne(w.codec, lead + ChunkMessages(chunks), ChunkMessage(chunk));
      AnotherCut(chunks, data, offset, end);
      LongerMessages(lead, chunks, chunk);
    }
  }

  lemma LongerMessages(lead: seq<Message>, chunks: seq<seq<byte>>, chunk: seq<byte>)
    ensures lead + ChunkMessages(chunks + [chunk]) == lead + ChunkMessages(chunks) + [ChunkMessage(chunk)]
  {
  }

  /** Ends the stream. */
  method SendEnd(w: Writer, ghost data: seq<byte>, ghost start: seq<byte>, ghost lead: seq<Message>,
                 ghost chunks: seq<seq<byte>>)
    returns (o: Outcome)
    requires Sent(w, start, lead, chunks, data)
    modifies w`written
    ensures o.Done? ==> SentAll(w, start, lead, chunks, data)
  {
    o := w.Write(EMPTY);
    if o.Done? {
      SentOne(w.codec, lead + ChunkMessages(chunks), EMPTY);
    }
  }

  /** The request that leads an upload; `peer` names the losing version where the contents win a conflict. */
  function WriteRequest(kind: string, share: string, path: Path, size: int, hash: string, peer: string,
                        metadata: Manifest,
                        version: Vector): Message
  {
    EMPTY.(kind := Request(kind), share := share, path := path, size := size, hash := hash, peer := peer,
           metadata := metadata,
           version := version)
  }

  /** What a sender checks before a byte goes out. */
  predicate Sendable(share: string, path: Path, expectedHash: string, loser: string, actual: string) {
    && share != "" && ValidPath(path) && IsSha256(expectedHash)
    && (loser != "" ==> ValidName(loser))
    && EqualFold(actual, expectedHash)
  }

  /** Sends a file in full chunks with a shorter last one, between the request and the end marker. */
  method WriteFile(w: Writer, kind: string, share: string, path: Path, data: seq<byte>, expectedHash: string,
                   loser: string,
                   metadata: Manifest, version: Vector, digest: seq<byte> -> string)
    returns (o: Outcome, ghost chunks: seq<seq<byte>>)
    modifies w`written
    ensures !Sendable(share, path, expectedHash, loser, digest(data)) ==> o.Failed? && w.written == old(w.written)
    ensures w.written != old(w.written) ==>
      && share != "" && Canonical(path) && IsSha256(expectedHash) && EqualFold(digest(data), expectedHash)
    ensures o.Done? ==>
      SentAll(w, old(w.written),
          [WriteRequest(kind, share, path, |data|, ToLower(expectedHash), loser, metadata, version)],
              chunks, data)
  {
    chunks := [];
    ValidPathExact(path);
    if share == "" {
      return Failed("share is required"), chunks;
    }
    if !ValidPath(path) {
      return Failed("invalid peer file path"), chunks;
    }
    if !IsSha256(expectedHash) {
      return Failed("invalid write hash"), chunks;
    }
    if loser != "" && !ValidName(loser) {
      return Failed("invalid peer name"), chunks;
    }
    if !EqualFold(digest(data), expectedHash) {
      return Failed("local file hash mismatch"), chunks;
    }
    o, chunks := SendContents(w,
        WriteRequest(kind, share, path, |data|, ToLower(expectedHash), loser, metadata, version), data);
  }

  method SendContents(w: Writer, header: Message, data: seq<byte>) returns (o: Outcome, ghost chunks: seq<seq<byte>>)
    modifies w`written
    ensures o.Done? ==> SentAll(w, old(w.written), [header], chunks, data)
  {
    chunks := [];
    ghost var start := w.written;
    o := w.Write(header);
    if o.Failed? { return; }
    assert [header] + ChunkMessages(chunks) == [header];
    assert Stream(w.codec, [header]) == FrameOf(w.codec, header);
    var offset := 0;
    while offset < |data|
      invariant 0 <= offset <= |data|
      invariant Sent(w, start, [header], chunks, data[..offset])
    {
      var end := if offset + CHUNK_SIZE > |data| then |data| else offset + CHUNK_SIZE;
      o, chunks := SendChunk(w, data, offset, end, start, [header], chunks);
      if o.Failed? { return; }
      offset := end;
    }
    assert data[..offset] == data;
    o := SendEnd(w, data, start, [header], chunks);
  }

  /** Serves a file in whatever pieces the file system hands out. */
  method ServeFile(w: Writer, data: seq<byte>) returns (o: Outcome, ghost chunks: seq<seq<byte>>)
    modifies w`written
    ensures o.Done? ==> SentAll(w, old(w.written), [], chunks, data)
  {
    chunks := [];
    ghost var start := w.written;
    assert [] + ChunkMessages(chunks) == [];
    assert start + [] == start;
    var offset := 0;
    while offset < |data|
      invariant 0 <= offset <= |data|
      invariant Sent(w, start, [], chunks, data[..offset])
      decreases |data| - offset
    {
      var count: int := *;
      if !(0 < count <= CHUNK_SIZE && offset + count <= |data|) {
        o := Failed("read peer file");
        return;
      }
      o, chunks := SendChunk(w, data, offset, offset + count, start, [], chunks);
      if o.Failed? { return; }
      offset := offset + count;
    }
    assert data[..offset] == data;
    o := SendEnd(w, data, start, [], chunks);
  }

  lemma SentOne(codec: Codec, messages: seq<Message>, m: Message)
    requires AllFit(codec, messages) && Fits(codec, m)
    ensures AllFit(codec, messages + [m])
    ensures Stream(codec, messages + [m]) == Stream(codec, messages) + FrameOf(codec, m)
  {
    StreamAppend(codec, messages, [m]);
    assert Stream(codec, [m]) == FrameOf(codec, m);
  }

  lemma AnotherCut(chunks: seq<seq<byte>>, data: seq<byte>, offset: nat, end: nat)
    requires offset < end <= |data| && end - offset <= CHUNK_SIZE && Cuts(chunks, data[..offset])
    ensures Cuts(chunks + [data[offset..end]], data[..end])
  {
    ConcatAppend(chunks, [data[offset..end]]);
    assert Concat([data[offset..end]]) == data[offset..end];
    assert data[..end] == data[..offset] + data[offset..end];
  }

  /** A step that appends every chunk while the total stays within the bound collects the whole contents. */
  lemma {:induction false} ChunksFold(step: Step<seq<byte>, seq<byte>>, received: seq<byte>, chunks: seq<seq<byte>>,
                                      bound: nat)
    requires |received| + |Concat(chunks)| <= bound
    requires forall r: seq<byte>, c | c in chunks && |r| + |c| <= bound :: step(r, ChunkMessage(c)) == More(r + c)
    ensures Fold(step, received, ChunkMessages(chunks)) == More(received + Concat(chunks))
    decreases |chunks|
  {
    if chunks == [] {
      assert received + [] == received;
    } else {
      var next, tail := received + chunks[0], chunks[1..];
      assert step(received, ChunkMessage(chunks[0])) == More(next);
      assert forall c | c in tail :: c in chunks;
      ChunksTail(received, chunks);
      FoldOne(step, received, ChunkMessages(chunks), next);
      ChunksFold(step, next, tail, bound);
    }
  }

  lemma ChunksTail(received: seq<byte>, chunks: seq<seq<byte>>)
    requires chunks != []
    ensures ChunkMessages(chunks) != [] && ChunkMessages(chunks)[0] == ChunkMessage(chunks[0])
    ensures ChunkMessages(chunks)[1..] == ChunkMessages(chunks[1..])
    ensures received + Concat(chunks) == received + chunks[0] + Concat(chunks[1..])
  {
  }

  /** However the contents were cut, the receiver of a write request of the declared size gets exactly the contents. */
  lemma UploadReadsBack(codec: Codec, header: Message, chunks: seq<seq<byte>>, data: seq<byte>, rest: seq<byte>)
    requires Faithful(codec) && Cuts(chunks, data) && header.size == |data|
    requires AllFit(codec, [header] + ChunkMessages(chunks) + [EMPTY])
    ensures var request := ReadFrame(codec, Stream(codec, [header] + ChunkMessages(chunks) + [EMPTY]) + rest);
      request.Got? && request.message == header
          && Consume(codec, Upload(header.size), [], request.rest) == Ok((data, rest))
  {
    var all, body := [header] + ChunkMessages(chunks) + [EMPTY], ChunkMessages(chunks) + [EMPTY];
    assert all[1..] == body;
    assert forall m | m in body :: m in all;
    assert Stream(codec, all) + rest == FrameOf(codec, header) + (Stream(codec, body) + rest);
    FrameReadsBack(codec, header, Stream(codec, body) + rest);
    UploadBodyReadsBack(codec, chunks, data, rest);
  }

  /** The receiver of a write request finds every field where the sender put it. */
  lemma RequestReadsBack(codec: Codec, kind: string, share: string, path: Path, hash: string, loser: string,
                         metadata: Manifest, version: Vector, chunks: seq<seq<byte>>, data: seq<byte>, rest: seq<byte>)
    requires Faithful(codec) && Cuts(chunks, data)
    requires AllFit(codec, [WriteRequest(kind, share, path, |data|, hash, loser, metadata, version)]
                           + ChunkMessages(chunks) + [EMPTY])
    ensures var header := WriteRequest(kind, share, path, |data|, hash, loser, metadata, version);
      var request := ReadFrame(codec, Stream(codec, [header] + ChunkMessages(chunks) + [EMPTY]) + rest);
      && request.Got? && request.message.kind == Request(kind)
      && request.message.share == share && request.message.path == path && request.message.size == |data|
      && request.message.hash == hash && request.message.peer == loser
      && request.message.metadata == metadata && request.message.version == version
  {
    UploadReadsBack(codec, WriteRequest(kind, share, path, |data|, hash, loser, metadata, version), chunks, data, rest);
  }

  lemma UploadBodyReadsBack(codec: Codec, chunks: seq<seq<byte>>, data: seq<byte>, rest: seq<byte>)
    requires Faithful(codec) && Cuts(chunks, data) && AllFit(codec, ChunkMessages(chunks) + [EMPTY])
    ensures Consume(codec, Upload(|data|), [], Stream(codec, ChunkMessages(chunks) + [EMPTY]) + rest) ==
      Ok((data, rest))
  {
    ChunksFold(Upload(|data|), [], chunks, |data|);
    assert [] + Concat(chunks) == data;
    ResponseReadsBack(codec, Upload(|data|), [], ChunkMessages(chunks), EMPTY, rest);
  }

  /** The same for a download, whose contents are checked against the expected digest. */
  lemma DownloadReadsBack(codec: Codec, chunks: seq<seq<byte>>, data: seq<byte>, rest: seq<byte>,
                          digest: seq<byte> -> string)
    requires Faithful(codec) && Cuts(chunks, data) && AllFit(codec, ChunkMessages(chunks) + [EMPTY])
    ensures Consume(codec, Download(digest, digest(data)), [], Stream(codec, ChunkMessages(chunks) + [EMPTY]) + rest) ==
      Ok((data, rest))
  {
    var step := Download(digest, digest(data));
    ChunksFold(step, [], chunks, |data|);
    assert [] + Concat(chunks) == data;
    ResponseReadsBack(codec, step, [], ChunkMessages(chunks), EMPTY, rest);
  }

  /** A share listing reads back as the names that were sent. */
  lemma {:induction false} SharesFold(before: seq<string>, shares: seq<string>)
    requires forall s | s in shares :: s != ""
    ensures Fold(ShareStep, before, ShareMessages(shares)) == More(before + shares)
    decreases |shares|
  {
    if shares == [] {
      assert before + shares == before;
    } else {
      assert forall s | s in shares[1..] :: s in shares;
      assert shares[0] in shares && ShareStep(before, ShareMessages(shares)[0]) == More(before + [shares[0]]);
      SharesFold(before + [shares[0]], shares[1..]);
      assert ShareMessages(shares)[1..] == ShareMessages(shares[1..]);
      assert before + shares == before + [shares[0]] + shares[1..];
    }
  }

  function ShareMessages(shares: seq<string>): (messages: seq<Message>)
    ensures |messages| == |shares|
    ensures forall i | 0 <= i < |shares| :: messages[i] == EMPTY.(kind := ShareName, share := shares[i])
  {
    seq(|shares|, i requires 0 <= i < |shares| => EMPTY.(kind := ShareName, share := shares[i]))
  }

  lemma SharesReadBack(codec: Codec, shares: seq<string>, rest: seq<byte>)
    requires Faithful(codec) && AllFit(codec, ShareMessages(shares) + [EMPTY])
    requires forall s | s in shares :: s != ""
    ensures Consume(codec, ShareStep, [], Stream(codec, ShareMessages(shares) + [EMPTY]) + rest) == Ok((shares, rest))
  {
    SharesFold([], shares);
    assert [] + shares == shares;
    ResponseReadsBack(codec, ShareStep, [], ShareMessages(shares), EMPTY, rest);
  }
}

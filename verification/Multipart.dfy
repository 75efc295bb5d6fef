/** Uploading a stream of unknown length in parts, through one buffer. */
module Multipart {
  import opened Model

  type Bytes = seq<bv8>

  const CHUNK_SIZE := 10 * 1024 * 1024

  /** The highest part number the object store accepts. */
  const MAX_PARTS := 10_000

  // What the parts of a stream should be.

  /** The stream cut into pieces of `size`; only the last may be shorter, and none is empty. */
  function Chunks(s: Bytes, size: nat): seq<Bytes>
    requires size > 0
    decreases |s|
  {
    if s == [] then [] else if |s| <= size then [s] else [s[..size]] + Chunks(s[size..], size)
  }

  function Join(pieces: seq<Bytes>): Bytes {
    if pieces == [] then [] else pieces[0] + Join(pieces[1..])
  }

  lemma {:induction false} ChunksJoin(s: Bytes, size: nat)
    requires size > 0
    ensures Join(Chunks(s, size)) == s
    decreases |s|
  {
    if 0 < |s| <= size {
      assert Join([s]) == s + Join([]);
    } else if s != [] {
      ChunksJoin(s[size..], size);
      assert s[..size] + s[size..] == s;
    }
  }

  /** All chunks but the last have exactly the chunk size, the last is not empty, and their number is
      the stream's length over the chunk size, rounded up. */
  lemma {:induction false} ChunksFit(s: Bytes, size: nat)
    requires size > 0
    ensures forall i :: 0 <= i < |Chunks(s, size)| - 1 ==> |Chunks(s, size)[i]| == size
    ensures s == [] <==> Chunks(s, size) == []
    ensures s != [] ==> 0 < |Chunks(s, size)[|Chunks(s, size)| - 1]| <= size
    ensures s != [] ==> (|Chunks(s, size)| - 1) * size < |s| <= |Chunks(s, size)| * size
    decreases |s|
  {
    if |s| > size {
      ChunksFit(s[size..], size);
      var rest := Chunks(s[size..], size);
      assert Chunks(s, size)[1..] == rest;
      assert |Chunks(s, size)| * size == size + |rest| * size && |rest| * size == size + (|rest| - 1) * size;
    }
  }

  /** The i-th chunk is the stream's i-th stretch of the chunk size. */
  lemma {:induction false} ChunkAt(s: Bytes, size: nat, i: nat, from: nat)
    requires size > 0 && i < |Chunks(s, size)| && from == i * size
    ensures from < |s| && Chunks(s, size)[i] == s[from..if |s| <= from + size then |s| else from + size]
    decreases |s|
  {
    if i > 0 {
      assert |s| > size;
      OneLess(i, size);
      ChunkAt(s[size..], size, i - 1, from - size);
      assert Chunks(s, size)[i] == Chunks(s[size..], size)[i - 1];
      var to := if |s| <= from + size then |s| else from + size;
      assert s[size..][from - size..to - size] == s[from..to];
    } else {
      assert from == 0;
    }
  }

  lemma OneLess(i: nat, size: nat)
    requires i > 0
    ensures i * size == (i - 1) * size + size
  {}

  /** A stream has not too many chunks if and only if it is not too long. */
  lemma ChunksWithin(s: Bytes)
    ensures |Chunks(s, CHUNK_SIZE)| <= MAX_PARTS <==> |s| <= 10_000 * 10_485_760
  {
    ChunksFit(s, CHUNK_SIZE);
  }

  // The stream.

  datatype ReadError = NoError | EndOfFile | UnexpectedEndOfFile | OtherError

  predicate IsEnd(e: ReadError) {
    e.EndOfFile? || e.UnexpectedEndOfFile?
  }

  /** A reader that delivers `data` in reads of any length, even none, and then reports `end`. Reads
      that deliver nothing run out after a while. */
  class Reader {
    const data: Bytes
    const end: ReadError
    var pos: nat
    var patience: nat

    ghost predicate Valid()
      reads this
    {
      pos <= |data| && !end.NoError?
    }

    constructor (data: Bytes, end: ReadError, patience: nat)
      requires !end.NoError?
      ensures Valid() && this.data == data && this.end == end && pos == 0
    {
      this.data, this.end, this.patience := data, end, patience;
      pos := 0;
    }

    /** Copies the next `n` bytes into the buffer. */
    method Fill(buffer: array<bv8>, from: nat, n: nat)
      requires pos + n <= |data| && from + n <= buffer.Length
      modifies buffer
      ensures buffer[..from] == old(buffer[..from]) && buffer[from..from + n] == data[pos..pos + n]
    {
      for i := 0 to n
        invariant buffer[..from] == old(buffer[..from])
        invariant buffer[from..from + i] == data[pos..pos + i]
      {
        buffer[from + i] := data[pos + i];
        assert data[pos..pos + i + 1] == data[pos..pos + i] + [data[pos + i]];
        assert buffer[from..from + i + 1] == buffer[from..from + i] + [buffer[from + i]];
      }
    }

    /** One read into the buffer from position `from` on. */
    method Read(buffer: array<bv8>, from: nat) returns (n: nat, error: ReadError)
      requires Valid() && from < buffer.Length
      modifies this, buffer
      ensures Valid() && n <= buffer.Length - from && pos == old(pos) + n
      ensures buffer[..from] == old(buffer[..from]) && buffer[from..from + n] == data[old(pos)..pos]
      ensures error.NoError? ==> n > 0 || patience < old(patience)
      ensures !error.NoError? ==> error == end && pos == |data|
      ensures patience <= old(patience)
    {
      var available := |data| - pos;
      var room := buffer.Length - from;
      var most := if available < room then available else room;
      var some: int := *;
      n := if 0 <= some < most then some else most;
      if n == 0 && available > 0 {
        if patience > 0 {
          patience := patience - 1;
          return 0, NoError;
        }
        n := 1;
      }
      Fill(buffer, from, n);
      pos := pos + n;
      var early: bool := *;
      if pos == |data| && (n == 0 || early) {
        return n, end;
      }
      return n, NoError;
    }
  }

  /** Reads until the buffer is full or the stream ends. A stream that ends after some bytes ends
      unexpectedly; an error that comes with the last byte needed is not reported yet. */
  method ReadFull(r: Reader, buffer: array<bv8>) returns (n: nat, error: ReadError)
    requires r.Valid() && buffer.Length > 0
    modifies r, buffer
    ensures r.Valid() && n <= buffer.Length && r.pos == old(r.pos) + n
    ensures buffer[..n] == r.data[old(r.pos)..r.pos]
    ensures error.NoError? <==> n == buffer.Length
    ensures n < buffer.Length ==> r.pos == |r.data| && error == if r.end.EndOfFile? && n > 0 then UnexpectedEndOfFile else r.end
  {
    n, error := 0, NoError;
    while n < buffer.Length && error.NoError?
      invariant r.Valid() && n <= buffer.Length && r.pos == old(r.pos) + n
      invariant buffer[..n] == r.data[old(r.pos)..r.pos]
      invariant !error.NoError? ==> error == r.end && r.pos == |r.data|
      decreases buffer.Length - n, r.patience, error.NoError?
    {
      ghost var pos := r.pos;
      var more;
      more, error := r.Read(buffer, n);
      assert buffer[..n + more] == buffer[..n] + buffer[n..n + more];
      assert r.data[old(r.pos)..r.pos] == r.data[old(r.pos)..pos] + r.data[pos..r.pos];
      n := n + more;
    }
    if n == buffer.Length {
      error := NoError;
    } else if n > 0 && error.EndOfFile? {
      error := UnexpectedEndOfFile;
    }
  }

  // The object store.

  datatype Call =
    | Initiate(ok: bool)
    | UploadPart(number: nat, data: Bytes, ok: bool)
    | Complete(numbers: seq<nat>, ok: bool)
    | Abort

  /** A client that may refuse any call, unless it is reliable. It remembers the calls and the
      assembled object. */
  class Client {
    const reliable: bool
    var calls: seq<Call>
    var parts: map<nat, Bytes>
    var assembled: Option<Bytes>

    constructor (reliable: bool)
      ensures calls == [] && assembled == None && this.reliable == reliable
    {
      this.reliable := reliable;
      calls, parts, assembled := [], map[], None;
    }

    method InitiateUpload() returns (ok: bool)
      modifies this
      ensures calls == old(calls) + [Initiate(ok)] && assembled == old(assembled)
      ensures ok ==> parts == map[]
      ensures reliable ==> ok
    {
      ok := *;
      ok := ok || reliable;
      calls := calls + [Initiate(ok)];
      if ok {
        parts := map[];
      }
    }

    /** Uploads the first `n` bytes of the buffer as they are now. */
    method Upload(number: nat, buffer: array<bv8>, n: nat) returns (ok: bool)
      requires n <= buffer.Length
      modifies this
      ensures calls == old(calls) + [UploadPart(number, buffer[..n], ok)] && assembled == old(assembled)
      ensures parts == if ok then old(parts)[number := buffer[..n]] else old(parts)
      ensures ok ==> 1 <= number <= MAX_PARTS
      ensures reliable && 1 <= number <= MAX_PARTS ==> ok
    {
      ok := *;
      ok := (ok || reliable) && 1 <= number <= MAX_PARTS;
      calls := calls + [UploadPart(number, buffer[..n], ok)];
      if ok {
        parts := parts[number := buffer[..n]];
      }
    }

    /** Assembles the object from the listed parts, of which there must be at least one. */
    method CompleteUpload(numbers: seq<nat>) returns (ok: bool)
      requires forall k :: k in numbers ==> k in parts
      modifies this
      ensures calls == old(calls) + [Complete(numbers, ok)]
      ensures assembled == if ok then Some(Join(PartsOf(old(parts), numbers))) else old(assembled)
      ensures ok ==> numbers != []
      ensures reliable && numbers != [] ==> ok
    {
      ok := *;
      ok := (ok || reliable) && numbers != [];
      calls := calls + [Complete(numbers, ok)];
      if ok {
        assembled := Some(Join(PartsOf(parts, numbers)));
      }
    }

    method AbortUpload()
      modifies this
      ensures calls == old(calls) + [Abort] && assembled == old(assembled)
    {
      calls := calls + [Abort];
    }
  }

  function PartsOf(parts: map<nat, Bytes>, numbers: seq<nat>): (r: seq<Bytes>)
    requires forall k :: k in numbers ==> k in parts
    ensures |r| == |numbers|
  {
    seq(|numbers|, i requires 0 <= i < |numbers| => parts[numbers[i]])
  }

  // The upload.

  datatype Outcome = Uploaded(size: nat) | NotInitiated | PartRefused | StreamFailed | NotCompleted

  function Numbers(n: nat): (r: seq<nat>)
    ensures |r| == n && forall i :: 0 <= i < n ==> r[i] == i + 1
  {
    seq(n, i => i + 1)
  }

  /** The calls that upload these parts, numbered from 1 on. */
  function PartCalls(pieces: seq<Bytes>): (r: seq<Call>)
    ensures |r| == |pieces| && forall i :: 0 <= i < |r| ==> r[i] == UploadPart(i + 1, pieces[i], true)
  {
    seq(|pieces|, i requires 0 <= i < |pieces| => UploadPart(i + 1, pieces[i], true))
  }

  /** The calls of a whole upload, by its outcome. `sent` is how many chunks were accepted. */
  function UploadCalls(chunks: seq<Bytes>, sent: nat, outcome: Outcome): seq<Call>
    requires sent <= |chunks| && (outcome.PartRefused? ==> sent < |chunks|)
  {
    var accepted := [Initiate(true)] + PartCalls(chunks[..sent]);
    match outcome
    case Uploaded(_) => accepted + [Complete(Numbers(sent), true)]
    case NotInitiated => [Initiate(false)]
    case PartRefused => accepted + [UploadPart(sent + 1, chunks[sent], false), Abort]
    case StreamFailed => accepted + [Abort]
    case NotCompleted => accepted + [Complete(Numbers(sent), false)]
  }

  lemma NextChunk(rest: Bytes, size: nat)
    requires size > 0 && rest != []
    ensures var n := if |rest| <= size then |rest| else size;
            Chunks(rest, size) == [rest[..n]] + Chunks(rest[n..], size)
  {
    if |rest| <= size {
      assert rest[..|rest|] == rest && rest[|rest|..] == [];
    }
  }

  /** The parts accepted so far are the first chunks, under their numbers. */
  ghost predicate Accepted(parts: map<nat, Bytes>, chunks: seq<Bytes>, sent: nat) {
    sent <= |chunks| && forall i :: 1 <= i <= sent ==> i in parts && parts[i] == chunks[i - 1]
  }

  lemma OnePartMore(parts: map<nat, Bytes>, chunks: seq<Bytes>, sent: nat, data: Bytes, rest: seq<Bytes>)
    requires Accepted(parts, chunks, sent) && chunks[sent..] == [data] + rest
    ensures sent < |chunks| && chunks[sent] == data && chunks[sent + 1..] == rest
    ensures Accepted(parts[sent + 1 := data], chunks, sent + 1)
    ensures PartCalls(chunks[..sent + 1]) == PartCalls(chunks[..sent]) + [UploadPart(sent + 1, data, true)]
    ensures Numbers(sent + 1) == Numbers(sent) + [sent + 1]
  {}

  lemma NothingSent(parts: map<nat, Bytes>, chunks: seq<Bytes>)
    ensures Accepted(parts, chunks, 0) && Numbers(0) == [] && PartCalls(chunks[..0]) == []
  {}

  lemma AcceptedIsAll(parts: map<nat, Bytes>, chunks: seq<Bytes>)
    requires Accepted(parts, chunks, |chunks|)
    ensures forall k :: k in Numbers(|chunks|) ==> k in parts
    ensures PartsOf(parts, Numbers(|chunks|)) == chunks
  {}

  lemma CallsTogether(calls: seq<Call>, chunks: seq<Bytes>, sent: nat)
    requires sent <= |chunks|
    ensures var accepted := calls + [Initiate(true)] + PartCalls(chunks[..sent]);
            && (forall size :: sent == |chunks| ==> accepted + [Complete(Numbers(sent), true)] == calls + UploadCalls(chunks, sent, Uploaded(size)))
            && (sent == |chunks| ==> accepted + [Complete(Numbers(sent), false)] == calls + UploadCalls(chunks, sent, NotCompleted))
            && accepted + [Abort] == calls + UploadCalls(chunks, sent, StreamFailed)
            && (sent < |chunks| ==>
                  accepted + [UploadPart(sent + 1, chunks[sent], false)] + [Abort] == calls + UploadCalls(chunks, sent, PartRefused))
  {}

  /** The calls of a successful upload, spelled out: the i-th part holds the i-th 10 MiB of the stream, and
      all are completed in order. */
  lemma SuccessfulCalls(stream: Bytes, size: nat)
    ensures var calls := UploadCalls(Chunks(stream, CHUNK_SIZE), |Chunks(stream, CHUNK_SIZE)|, Uploaded(size));
            var n := |calls| - 2;
            && n >= 0 && calls[0] == Initiate(true) && calls[n + 1] == Complete(Numbers(n), true)
            && (forall i :: 0 < i <= n ==>
                  && (i - 1) * 10_485_760 < |stream|
                  && calls[i] == UploadPart(i, stream[(i - 1) * 10_485_760..if |stream| <= i * 10_485_760 then |stream| else i * 10_485_760], true))
            && (if n == 0 then stream == [] else (n - 1) * 10_485_760 < |stream| <= n * 10_485_760)
  {
    var chunks := Chunks(stream, CHUNK_SIZE);
    var calls := UploadCalls(chunks, |chunks|, Uploaded(size));
    ChunksFit(stream, CHUNK_SIZE);
    assert chunks[..|chunks|] == chunks;
    forall i | 0 < i <= |chunks|
      ensures (i - 1) * 10_485_760 < |stream|
      ensures calls[i] == UploadPart(i, stream[(i - 1) * 10_485_760..if |stream| <= i * 10_485_760 then |stream| else i * 10_485_760], true)
    {
      ChunkAt(stream, CHUNK_SIZE, i - 1, (i - 1) * 10_485_760);
    }
  }

  lemma NothingCompleted(chunks: seq<Bytes>, sent: nat, outcome: Outcome)
    requires sent <= |chunks| && (outcome.PartRefused? ==> sent < |chunks|)
    requires !outcome.Uploaded? && !outcome.NotCompleted?
    ensures forall c :: c in UploadCalls(chunks, sent, outcome) ==> !c.Complete?
  {}

  /** Fills the buffer with the next chunk of the stream, if there is one. */
  method ReadChunk(r: Reader, buffer: array<bv8>) returns (n: nat, error: ReadError)
    requires r.Valid() && buffer.Length == CHUNK_SIZE
    modifies r, buffer
    ensures r.Valid() && n <= buffer.Length && r.pos == old(r.pos) + n
    ensures n == 0 ==> !error.NoError? && r.pos == |r.data|
    ensures n > 0 ==> Chunks(r.data[old(r.pos)..], CHUNK_SIZE) == [buffer[..n]] + Chunks(r.data[r.pos..], CHUNK_SIZE)
    ensures !error.NoError? ==> r.pos == |r.data| && (IsEnd(error) <==> IsEnd(r.end))
  {
    ghost var rest := r.data[r.pos..];
    n, error := ReadFull(r, buffer);
    if n > 0 {
      NextChunk(rest, CHUNK_SIZE);
      assert buffer[..n] == rest[..n] && rest[n..] == r.data[r.pos..];
    }
  }

  datatype PartsOutcome = AllSent | Refused | Broken

  /** The loop over the parts: fills the one buffer, uploads what is in it, and stops at the end of
      the stream, at an error of the stream, or at a refused part. */
  method UploadParts(client: Client, r: Reader) returns (outcome: PartsOutcome, completedParts: seq<nat>, totalSize: int)
    requires r.Valid() && client.parts == map[]
    modifies client, r
    ensures r.Valid() && old(r.pos) <= r.pos && client.assembled == old(client.assembled)
    ensures outcome.Refused? && client.reliable ==> |completedParts| == MAX_PARTS
    ensures var chunks, sent := Chunks(r.data[old(r.pos)..], CHUNK_SIZE), |completedParts|;
            && sent <= |chunks| && sent <= MAX_PARTS && completedParts == Numbers(sent)
            && Accepted(client.parts, chunks, sent)
            && match outcome
               case AllSent => sent == |chunks| && IsEnd(r.end) && totalSize == |r.data| - old(r.pos)
                            && client.calls == old(client.calls) + PartCalls(chunks[..sent])
               case Broken => r.end.OtherError? && client.calls == old(client.calls) + PartCalls(chunks[..sent])
               case Refused =>
                 && sent < |chunks|
                 && client.calls == old(client.calls) + PartCalls(chunks[..sent]) + [UploadPart(sent + 1, chunks[sent], false)]
  {
    ghost var calls0, chunks := client.calls, Chunks(r.data[r.pos..], CHUNK_SIZE);
    NothingSent(client.parts, chunks);
    hide Chunks, Accepted, Numbers, PartCalls;
    completedParts, totalSize := [], 0;
    var partNumber := 1;
    var buffer := new bv8[CHUNK_SIZE];
    var more := true;
    while more
      invariant r.Valid() && fresh(buffer) && buffer.Length == CHUNK_SIZE && client.assembled == old(client.assembled)
      invariant partNumber == |completedParts| + 1 && totalSize == r.pos - old(r.pos) && totalSize >= 0
      invariant |completedParts| <= MAX_PARTS && |completedParts| <= |chunks| && completedParts == Numbers(|completedParts|)
      invariant Accepted(client.parts, chunks, |completedParts|)
      invariant client.calls == calls0 + PartCalls(chunks[..|completedParts|])
      invariant chunks[|completedParts|..] == Chunks(r.data[r.pos..], CHUNK_SIZE)
      invariant !more ==> IsEnd(r.end) && r.pos == |r.data|
      decreases |r.data| - r.pos, more
    {
      var n, readError := ReadChunk(r, buffer);
      if !readError.NoError? && !IsEnd(readError) {
        return Broken, completedParts, totalSize;
      }
      if n == 0 {
        more := false;
        continue;
      }
      OnePartMore(client.parts, chunks, |completedParts|, buffer[..n], Chunks(r.data[r.pos..], CHUNK_SIZE));
      var accepted := client.Upload(partNumber, buffer, n);
      if !accepted {
        return Refused, completedParts, totalSize;
      }
      completedParts := completedParts + [partNumber];
      totalSize := totalSize + n;
      partNumber := partNumber + 1;
      more := !IsEnd(readError);
    }
    ChunksFit(r.data[r.pos..], CHUNK_SIZE);
    assert |chunks[|completedParts|..]| == 0;
    return AllSent, completedParts, totalSize;
  }

  /** Uploads the rest of the stream. However the reader splits its reads, the accepted parts are the
      chunks of the stream, numbered from one on; the upload is completed once, with all of them, or
      aborted once. If no call fails, every stream that ends, is not empty and has not too many parts
      is uploaded. */
  method StreamUpload(client: Client, r: Reader) returns (outcome: Outcome, ghost sent: nat)
    requires r.Valid()
    modifies client, r
    ensures r.Valid() && old(r.pos) <= r.pos
    ensures var stream := r.data[old(r.pos)..];
            var chunks := Chunks(stream, CHUNK_SIZE);
            && sent <= |chunks| && sent <= MAX_PARTS
            && (outcome.PartRefused? ==> sent < |chunks|)
            && (outcome.Uploaded? || outcome.NotCompleted? ==> sent == |chunks|)
            && client.calls == old(client.calls) + UploadCalls(chunks, sent, outcome)
            && (outcome.Uploaded? ==> outcome.size == |stream| && client.assembled == Some(stream))
    ensures !outcome.Uploaded? ==> client.assembled == old(client.assembled)
    ensures outcome.Uploaded? || outcome.NotCompleted? ==> IsEnd(r.end)
    ensures outcome.StreamFailed? ==> r.end.OtherError?
    ensures outcome.Uploaded? ==> old(r.pos) < |r.data|
    ensures client.reliable && IsEnd(r.end) && |Chunks(r.data[old(r.pos)..], CHUNK_SIZE)| <= MAX_PARTS ==>
              outcome.Uploaded? || (outcome.NotCompleted? && old(r.pos) == |r.data|)
  {
    ghost var stream := r.data[r.pos..];
    ghost var chunks := Chunks(stream, CHUNK_SIZE);
    ghost var calls0 := client.calls;
    assert UploadCalls(chunks, 0, NotInitiated) == [Initiate(false)];
    hide Chunks, Join, PartsOf, Accepted, Numbers, PartCalls, UploadCalls;
    var initiated := client.InitiateUpload();
    if !initiated {
      return NotInitiated, 0;
    }
    var parts, completedParts, totalSize := UploadParts(client, r);
    sent := |completedParts|;
    CallsTogether(calls0, chunks, sent);
    match parts {
      case Refused =>
        client.AbortUpload();
        return PartRefused, sent;
      case Broken =>
        client.AbortUpload();
        return StreamFailed, sent;
      case AllSent =>
        AcceptedIsAll(client.parts, chunks);
        ChunksJoin(stream, CHUNK_SIZE);
        var completed := client.CompleteUpload(completedParts);
        if !completed {
          return NotCompleted, sent;
        }
        return Uploaded(totalSize), sent;
    }
  }

  // A backup: a producer writes an archive into a pipe that the upload reads.

  /** What the producer wrote before it closed the pipe, and the error it closed it with. */
  datatype Production = Production(bytes: Bytes, error: ReadError)

  /** What the reading end of the pipe reports once it is drained. */
  function PipeEnd(production: Production): ReadError {
    if production.error.NoError? then EndOfFile else production.error
  }

  /** Uploads what the producer writes. The backup succeeds only if both sides do. The object is
      assembled only from a stream that ended like a file; then it holds everything written. If no
      call fails, it is assembled exactly if something was written and the producer succeeded, or
      failed with an end-of-file kind of error; in the latter case the backup fails nevertheless. */
  method PerformBackup(client: Client, production: Production, patience: nat) returns (ok: bool, ghost outcome: Outcome)
    modifies client
    ensures ok <==> production.error.NoError? && outcome.Uploaded?
    ensures outcome.Uploaded? ==> IsEnd(PipeEnd(production)) && client.assembled == Some(production.bytes)
    ensures !outcome.Uploaded? ==> client.assembled == old(client.assembled)
    ensures production.error.OtherError? ==> !ok && client.assembled == old(client.assembled)
    ensures production.error.OtherError? ==>
              forall i :: |old(client.calls)| <= i < |client.calls| ==> !client.calls[i].Complete?
    ensures client.reliable && |production.bytes| <= 10_000 * 10_485_760 ==>
              (outcome.Uploaded? <==> !production.error.OtherError? && production.bytes != [])
  {
    ChunksWithin(production.bytes);
    hide Chunks, Join, UploadCalls;
    var r := new Reader(production.bytes, PipeEnd(production), patience);
    assert production.bytes[0..] == production.bytes;
    var uploaded;
    ghost var sent;
    uploaded, sent := StreamUpload(client, r);
    outcome := uploaded;
    if production.error.OtherError? {
      ghost var chunks := Chunks(production.bytes, CHUNK_SIZE);
      NothingCompleted(chunks, sent, outcome);
      forall i | |old(client.calls)| <= i < |client.calls|
        ensures !client.calls[i].Complete?
      {
        assert client.calls[i] == UploadCalls(chunks, sent, outcome)[i - |old(client.calls)|];
      }
    }
    ok := production.error.NoError? && uploaded.Uploaded?;
  }
}

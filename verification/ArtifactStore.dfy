// `store.rs`, `writer.rs` and `reader.rs` as one process runs them, one call at
// a time, on a disk that works. What other processes may do in between, and
// what may fail, is StoreProtocol's subject.
module ArtifactStore {
  import opened Prelude
  import opened Digests
  import opened ArtifactPaths
  import opened BoundedCapture

  // The reader's buffer is 64 KiB, so one read yields 1 to 65536 bytes.
  const BUFFER: nat := 64 * 1024
  type Chunk = c: seq<byte> | 0 < |c| <= BUFFER witness [0]

  // An input stream: its reads in order, then end of file, or an abort or read
  // error instead.
  datatype Source = Source(chunks: seq<Chunk>, broken: bool)

  datatype WriteError = Io | TooLarge(limit: nat, observed: nat)

  datatype ReadError = NotFound | IntegrityFailed(expected: Sha256Hex, actual: Sha256Hex)

  datatype Written = Written(digest: Sha256Hex, written: nat, observed: nat)

  datatype Record = Record(digest: Sha256Hex, path: Path, size: nat)

  datatype TruncationInfo = TruncationInfo(
    limitBytes: nat, observedBeforeTruncate: nat, storedBytes: nat, truncated: bool)

  type Disk = map<Path, seq<byte>>

  // ---- What a put does, as a function of the whole input ---------------------

  // The observed count reported on refusal covers the input through the chunk
  // that crossed the cap.
  ghost predicate CrossesAt(chunks: seq<Chunk>, limit: nat, observed: nat) {
    exists k | 0 < k <= |chunks| ::
      && |Concat(chunks[..k - 1])| <= limit < |Concat(chunks[..k])|
      && observed == Min(|Concat(chunks[..k])|, U64_MAX)
  }

  ghost predicate WriteResult(
    sha: Sha256, source: Source, cap: Option<nat>, truncate: bool, r: Result<Written, WriteError>)
  {
    var input := Concat(source.chunks);
    var kept := Kept(cap, input);
    if !truncate && !Fits(cap, input) then
      r.Err? && r.error.TooLarge? && r.error.limit == cap.value
      && CrossesAt(source.chunks, cap.value, r.error.observed)
    else if source.broken then
      r == Err(Io)
    else
      r == Ok(Written(DigestOf(sha, kept), |kept|, Min(|input|, U64_MAX)))
  }

  // The new file goes under its final path unless something is there already;
  // the temp file is gone either way.
  function Stored(root: Path, disk: Disk, temp: Path, digest: Sha256Hex, kept: seq<byte>): Disk {
    var path := FinalPathFor(root, digest);
    var swept := disk - {temp};
    if path in disk then swept else swept[path := kept]
  }

  function DiskAfter(
    root: Path, disk: Disk, temp: Path, source: Source, cap: Option<nat>, r: Result<Written, WriteError>): Disk
  {
    var kept := Kept(cap, Concat(source.chunks));
    match r
    case Ok(w) => Stored(root, disk, temp, w.digest, kept)
    case Err(TooLarge(_, _)) => disk - {temp}
    case Err(Io) => disk[temp := kept]
  }

  // `read_all` on the bytes found under a path.
  function Fetched(sha: Sha256, content: Option<seq<byte>>, expected: Sha256Hex): Result<seq<byte>, ReadError> {
    match content
    case None => Err(NotFound)
    case Some(bytes) =>
      if DigestOf(sha, bytes) == expected then Ok(bytes)
      else Err(IntegrityFailed(expected, DigestOf(sha, bytes)))
  }

  function Content(disk: Disk, path: Path): Option<seq<byte>> {
    if path in disk then Some(disk[path]) else None
  }

  // The input through the first i reads.
  function InputTo(chunks: seq<Chunk>, i: nat): seq<byte>
    requires i <= |chunks|
  {
    Concat(chunks[..i])
  }

  lemma NextChunk(chunks: seq<Chunk>, i: nat, cap: Option<nat>)
    requires i < |chunks|
    ensures var input := InputTo(chunks, i);
      var n := Accepted(cap, |Kept(cap, input)|, chunks[i]);
      && InputTo(chunks, i + 1) == input + chunks[i]
      && Kept(cap, InputTo(chunks, i + 1)) == Kept(cap, input) + chunks[i][..n]
      && (Fits(cap, input) ==> (n == |chunks[i]| <==> Fits(cap, InputTo(chunks, i + 1))))
      && SaturatingAdd(Min(|input|, U64_MAX), |chunks[i]|) == Min(|InputTo(chunks, i + 1)|, U64_MAX)
  {
    assert chunks[..i + 1] == chunks[..i] + [chunks[i]];
    ConcatSnoc(chunks[..i], chunks[i]);
    AcceptedExtendsKept(cap, InputTo(chunks, i), chunks[i]);
    if Fits(cap, InputTo(chunks, i)) {
      AcceptedAllIff(cap, InputTo(chunks, i), chunks[i]);
    }
  }

  // Every path after a put: the temp file is gone, the kept bytes are under the
  // final path unless something was, and nothing else has changed.
  lemma StoredFiles(root: Path, disk: Disk, temp: StorePath, digest: Sha256Hex, kept: seq<byte>, q: Path)
    requires temp.Partial?
    ensures var from, path := Render(root, temp), FinalPathFor(root, digest);
      Content(Stored(root, disk, from, digest, kept), q) ==
        if q == from then None
        else if q == path && q !in disk then Some(kept)
        else Content(disk, q)
  {
    LayoutIsFaithful(root, temp, Shard(digest));
  }

  // Moving a complete temp file into place, or dropping it when the place is taken.
  lemma PlacedIsStored(root: Path, disk: Disk, temp: StorePath, digest: Sha256Hex, kept: seq<byte>)
    requires temp.Partial?
    ensures var from, path := Render(root, temp), FinalPathFor(root, digest);
      var full := disk[from := kept];
      Stored(root, disk, from, digest, kept) ==
        if path in full then full - {from} else (full - {from})[path := full[from]]
  {
    LayoutIsFaithful(root, temp, Shard(digest));
    var from := Render(root, temp);
    assert disk[from := kept] - {from} == disk - {from};
  }

  lemma Crossing(chunks: seq<Chunk>, i: nat, cap: Option<nat>)
    requires i < |chunks| && Fits(cap, InputTo(chunks, i)) && !Fits(cap, InputTo(chunks, i + 1))
    ensures CrossesAt(chunks, cap.value, Min(|InputTo(chunks, i + 1)|, U64_MAX))
    ensures !Fits(cap, Concat(chunks))
  {
    assert chunks[..i + 1 - 1] == chunks[..i];
    PrefixConcat(chunks, i + 1);
  }

  // ---- Splitting a byte slice into reads ---------------------------------------

  function Reads(bytes: seq<byte>): (chunks: seq<Chunk>)
    ensures Concat(chunks) == bytes
  {
    if |bytes| == 0 then []
    else
      var n := Min(BUFFER, |bytes|);
      [bytes[..n]] + Reads(bytes[n..])
  }

  // The process-wide staging counter.
  class StagingCounter {
    var next: nat

    method FetchAdd() returns (seqno: nat)
      modifies this
      ensures seqno == old(next) && next == (old(next) + 1) % (U64_MAX + 1)
    {
      seqno := next;
      next := (next + 1) % (U64_MAX + 1);
    }
  }

  class ArtifactStore {
    const sha: Sha256
    const root: Path
    const pid: nat
    const counter: StagingCounter
    const cap: Option<nat>
    var disk: Disk

    ghost function NextTemp(): Path
      reads this, counter
    {
      Render(root, Partial(pid, counter.next))
    }

    // Opening a store sweeps what a crashed process left in `staging/`.
    constructor OpenWith(
      sha: Sha256, root: Path, pid: nat, counter: StagingCounter, cap: Option<nat>, disk: Disk)
      ensures this.sha == sha && this.root == root && this.pid == pid
      ensures this.counter == counter && this.cap == cap
      ensures this.disk == map p | p in disk && !Sweepable(root, p) :: disk[p]
    {
      this.sha, this.root, this.pid, this.counter, this.cap := sha, root, pid, counter, cap;
      this.disk := disk;
      new;
      SweepStaging();
    }

    method SweepStaging()
      modifies this`disk
      ensures disk == map p | p in old(disk) && !Sweepable(root, p) :: old(disk)[p]
    {
      var entries := disk.Keys;
      while entries != {}
        invariant entries <= old(disk).Keys
        invariant disk.Keys <= old(disk).Keys
        invariant forall p | p in old(disk) ::
          (p in disk <==> p in entries || !Sweepable(root, p))
        invariant forall p | p in disk :: disk[p] == old(disk)[p]
        decreases entries
      {
        var path :| path in entries;
        if Sweepable(root, path) {
          disk := disk - {path};
        }
        entries := entries - {path};
      }
    }

    // The accepted part of a chunk goes to the hasher and to the temp file.
    method Append(temp: Path, hasher: Sha256Writer, chunk: seq<byte>, accepted: nat)
      requires temp in disk && disk[temp] == hasher.absorbed && accepted <= |chunk|
      modifies this`disk, hasher
      ensures hasher.absorbed == old(hasher.absorbed) + chunk[..accepted]
      ensures disk == old(disk)[temp := hasher.absorbed]
    {
      if accepted == 0 {
        assert hasher.absorbed + chunk[..0] == hasher.absorbed;
        return;
      }
      var slice := chunk[..accepted];
      hasher.Update(slice);
      disk := disk[temp := disk[temp] + slice];
    }

    // The read/hash/write loop of write_common. Stops early, with `over`, at
    // the first read that does not fit when it may not be cut.
    method CopyChunks(temp: Path, hasher: Sha256Writer, chunks: seq<Chunk>, cap: Option<nat>, truncate: bool)
        returns (over: bool, written: nat, observed: nat)
      requires hasher.absorbed == []
      modifies this`disk, hasher
      ensures over <==> !truncate && !Fits(cap, Concat(chunks))
      ensures over ==> CrossesAt(chunks, cap.value, observed)
      ensures !over ==>
        && hasher.absorbed == Kept(cap, Concat(chunks))
        && written == |hasher.absorbed| && observed == Min(|Concat(chunks)|, U64_MAX)
      ensures disk == old(disk)[temp := hasher.absorbed]
    {
      written, observed := 0, 0;
      disk := disk[temp := []];
      assert chunks[..0] == [];
      for i := 0 to |chunks|
        invariant hasher.absorbed == Kept(cap, InputTo(chunks, i))
        invariant written == |hasher.absorbed|
        invariant observed == Min(|InputTo(chunks, i)|, U64_MAX)
        invariant truncate || Fits(cap, InputTo(chunks, i))
        invariant disk == old(disk)[temp := hasher.absorbed]
        invariant Fits(cap, disk[temp])
      {
        NextChunk(chunks, i, cap);
        var chunk := chunks[i];
        observed := SaturatingAdd(observed, |chunk|);
        var accepted := Accepted(cap, written, chunk);
        if accepted < |chunk| && !truncate {
          Crossing(chunks, i, cap);
          return true, written, observed;
        }
        Append(temp, hasher, chunk, accepted);
        written := written + accepted;
      }
      assert chunks[..|chunks|] == chunks;
      over := false;
    }

    // write_common
    method Write(source: Source, cap: Option<nat>, truncate: bool) returns (r: Result<Written, WriteError>)
      requires truncate ==> cap.Some?
      modifies this`disk, counter
      ensures WriteResult(sha, source, cap, truncate, r)
      ensures disk == DiskAfter(root, old(disk), old(NextTemp()), source, cap, r)
      ensures counter.next == (old(counter.next) + 1) % (U64_MAX + 1)
    {
      var seqno := counter.FetchAdd();
      var temp := Render(root, Partial(pid, seqno));
      var hasher := new Sha256Writer(sha);
      var over, written, observed := CopyChunks(temp, hasher, source.chunks, cap, truncate);
      if over {
        disk := disk - {temp};
        return Err(TooLarge(cap.value, observed));
      }
      if source.broken {
        return Err(Io);
      }
      var digest := hasher.Finalize();
      var path := FinalPathFor(root, digest);
      PlacedIsStored(root, old(disk), Partial(pid, seqno), digest, hasher.absorbed);
      if path in disk {
        disk := disk - {temp};
      } else {
        disk := (disk - {temp})[path := disk[temp]];
      }
      return Ok(Written(digest, written, observed));
    }

    method PutBytes(bytes: seq<byte>) returns (r: Result<Record, WriteError>)
      requires |bytes| <= U64_MAX
      modifies this`disk, counter
      ensures counter.next == (old(counter.next) + 1) % (U64_MAX + 1)
      ensures r.Ok? <==> Fits(cap, bytes)
      ensures r.Ok? ==>
        && r.value == RecordFor(sha, root, bytes)
        && r.value.size == |bytes| && r.value.digest == DigestOf(sha, bytes)
        && r.value.path == FinalPathFor(root, r.value.digest)
        && disk == Stored(root, old(disk), old(NextTemp()), r.value.digest, bytes)
      ensures r.Err? ==>
        && r.error.TooLarge? && r.error.limit == cap.value < r.error.observed <= |bytes|
        && disk == old(disk) - {old(NextTemp())}
    {
      var digest := DigestOf(sha, bytes);
      var w := Write(Source(Reads(bytes), false), cap, false);
      if w.Err? {
        CrossingBounds(Reads(bytes), cap.value, w.error.observed);
        return Err(w.error);
      }
      return Ok(Record(digest, FinalPathFor(root, digest), |bytes|));
    }

    method PutBytesTruncating(bytes: seq<byte>, limit: nat) returns (r: Result<(Record, TruncationInfo), WriteError>)
      requires |bytes| <= U64_MAX
      modifies this`disk, counter
      ensures counter.next == (old(counter.next) + 1) % (U64_MAX + 1)
      ensures r == Ok(Truncating(sha, root, bytes, limit))
      ensures var (record, info) := r.value;
        && info.limitBytes == limit
        && info.observedBeforeTruncate == |bytes|
        && info.storedBytes == record.size == Min(limit, |bytes|)
        && (info.truncated <==> limit < |bytes|)
        && record.digest == DigestOf(sha, bytes[..Min(limit, |bytes|)])
        && record.path == FinalPathFor(root, record.digest)
      ensures disk == Stored(root, old(disk), old(NextTemp()), r.value.0.digest, Kept(Some(limit), bytes))
    {
      var truncated := |bytes| > limit;
      var keptLen := if truncated then limit else |bytes|;
      var kept := bytes[..keptLen];
      var digest := DigestOf(sha, kept);
      // The cut is the caller's policy, so the store's own cap does not apply.
      var _ := Write(Source(Reads(kept), false), None, false);
      var info := TruncationInfo(limit, |bytes|, keptLen, truncated);
      return Ok((Record(digest, FinalPathFor(root, digest), keptLen), info));
    }

    method PutStream(source: Source) returns (r: Result<Record, WriteError>)
      modifies this`disk, counter
      ensures counter.next == (old(counter.next) + 1) % (U64_MAX + 1)
      ensures var input := Concat(source.chunks);
        && (r.Ok? <==> Fits(cap, input) && !source.broken)
        && (r.Ok? ==>
          && r.value == RecordFor(sha, root, input)
          && r.value.size == |input| && r.value.digest == DigestOf(sha, input)
          && r.value.path == FinalPathFor(root, r.value.digest)
          && disk == Stored(root, old(disk), old(NextTemp()), r.value.digest, input))
        && (!Fits(cap, input) ==>
          && r.Err? && r.error.TooLarge? && r.error.limit == cap.value
          && CrossesAt(source.chunks, cap.value, r.error.observed)
          && disk == old(disk) - {old(NextTemp())})
        && (Fits(cap, input) && source.broken ==>
          r == Err(Io) && disk == old(disk)[old(NextTemp()) := input])
    {
      var w := Write(source, cap, false);
      if w.Err? {
        return Err(w.error);
      }
      return Ok(Record(w.value.digest, FinalPathFor(root, w.value.digest), w.value.written));
    }

    method PutStreamTruncating(source: Source, limit: nat) returns (r: Result<(Record, TruncationInfo), WriteError>)
      modifies this`disk, counter
      ensures counter.next == (old(counter.next) + 1) % (U64_MAX + 1)
      ensures var input := Concat(source.chunks);
        var effective := Effective(limit, cap);
        && (source.broken ==> r == Err(Io) && disk == old(disk)[old(NextTemp()) := Kept(Some(effective), input)])
        && (!source.broken ==>
          && r == Ok(Truncating(sha, root, input, effective))
          && disk == Stored(root, old(disk), old(NextTemp()), r.value.0.digest, Kept(Some(effective), input)))
      ensures !source.broken ==>
        var input, (record, info) := Concat(source.chunks), r.value;
        && info.limitBytes == (if cap.Some? && cap.value < limit then cap.value else limit)
        && info.observedBeforeTruncate == Min(|input|, U64_MAX)
        && info.storedBytes == record.size == Min(info.limitBytes, |input|)
        && (info.truncated <==> info.limitBytes < Min(|input|, U64_MAX))
        && record.digest == DigestOf(sha, input[..Min(info.limitBytes, |input|)])
        && record.path == FinalPathFor(root, record.digest)
    {
      var effective := Effective(limit, cap);
      var w := Write(source, Some(effective), true);
      if w.Err? {
        return Err(w.error);
      }
      var Written(digest, written, observed) := w.value;
      var info := TruncationInfo(effective, observed, written, observed > effective);
      return Ok((Record(digest, FinalPathFor(root, digest), written), info));
    }

    method Get(digest: Sha256Hex) returns (r: Result<seq<byte>, ReadError>)
      ensures r == Fetched(sha, Content(disk, FinalPathFor(root, digest)), digest)
      ensures var path := FinalPathFor(root, digest);
        && (r.Ok? <==> path in disk && DigestOf(sha, disk[path]) == digest)
        && (r.Ok? ==> r.value == disk[path])
    {
      r := ReadAll(FinalPathFor(root, digest), digest);
    }

    // read_all: hash what is read, and refuse to return what does not match.
    method ReadAll(path: Path, expected: Sha256Hex) returns (r: Result<seq<byte>, ReadError>)
      ensures r == Fetched(sha, Content(disk, path), expected)
      ensures r.Ok? <==> path in disk && DigestOf(sha, disk[path]) == expected
      ensures r.Ok? ==> r.value == disk[path]
      ensures r == Err(NotFound) <==> path !in disk
      ensures r.Err? && path in disk ==> r == Err(IntegrityFailed(expected, DigestOf(sha, disk[path])))
    {
      if path !in disk {
        return Err(NotFound);
      }
      var file := disk[path];
      var hasher := new Sha256Writer(sha);
      var out := [];
      while |out| < |file|
        invariant out <= file
        invariant hasher.sha == sha && hasher.absorbed == out
      {
        var n := Min(BUFFER, |file| - |out|);
        var piece := file[|out|..|out| + n];
        assert file[..|out|] == out && file[..|out| + n] == out + piece;
        hasher.Update(piece);
        out := out + piece;
      }
      assert out == file;
      var actual := hasher.Finalize();
      if actual != expected {
        return Err(IntegrityFailed(expected, actual));
      }
      return Ok(out);
    }
  }

  // ---- Records, and how batch and streaming puts compare -----------------------

  function RecordFor(sha: Sha256, root: Path, kept: seq<byte>): Record {
    var digest := DigestOf(sha, kept);
    Record(digest, FinalPathFor(root, digest), |kept|)
  }

  // A streaming put is also bound by the store's own cap.
  function Effective(limit: nat, cap: Option<nat>): nat {
    match cap
    case None => limit
    case Some(storeCap) => Min(limit, storeCap)
  }

  // What a truncating put reports: "truncated" exactly when bytes were lost,
  // and then the limit is what was stored.
  function Truncating(sha: Sha256, root: Path, input: seq<byte>, limit: nat): (r: (Record, TruncationInfo))
    ensures r.1.truncated <==> r.1.storedBytes < r.1.observedBeforeTruncate
    ensures |input| <= U64_MAX ==> (r.1.truncated <==> Kept(Some(limit), input) != input)
    ensures r.0.size == r.1.storedBytes == Min(limit, |input|)
    ensures r.1.limitBytes == limit && r.1.observedBeforeTruncate == Min(|input|, U64_MAX)
  {
    var kept := Kept(Some(limit), input);
    var observed := Min(|input|, U64_MAX);
    (RecordFor(sha, root, kept), TruncationInfo(limit, observed, |kept|, observed > limit))
  }

  lemma {:induction false} PrefixConcat(chunks: seq<Chunk>, k: nat)
    requires k <= |chunks|
    ensures Concat(chunks[..k]) <= Concat(chunks)
    decreases |chunks| - k
  {
    if k == |chunks| {
      assert chunks[..k] == chunks;
    } else {
      assert chunks[..k + 1] == chunks[..k] + [chunks[k]];
      ConcatSnoc(chunks[..k], chunks[k]);
      PrefixConcat(chunks, k + 1);
    }
  }

  lemma CrossingBounds(chunks: seq<Chunk>, limit: nat, observed: nat)
    requires CrossesAt(chunks, limit, observed) && |Concat(chunks)| <= U64_MAX
    ensures limit < observed <= |Concat(chunks)|
  {
    var k :| 0 < k <= |chunks|
      && |Concat(chunks[..k - 1])| <= limit < |Concat(chunks[..k])|
      && observed == Min(|Concat(chunks[..k])|, U64_MAX);
    PrefixConcat(chunks, k);
  }

  // ---- Main results --------------------------------------------------------------

  // Two stores in the same state, but for sharing no object.
  ghost predicate Twins(a: ArtifactStore, b: ArtifactStore)
    reads a, b, a.counter, b.counter
  {
    && a != b && a.counter != b.counter
    && a.sha == b.sha && a.root == b.root && a.pid == b.pid && a.cap == b.cap
    && a.disk == b.disk && a.counter.next == b.counter.next
  }

  // The same bytes, put in one go into one store and streamed in any chunks
  // into its twin: both puts are accepted or neither, with the same record,
  // and the stores stay twins.
  method PutBothWays(batch: ArtifactStore, stream: ArtifactStore, bytes: seq<byte>, chunks: seq<Chunk>)
      returns (b: Result<Record, WriteError>, t: Result<Record, WriteError>)
    requires Twins(batch, stream) && Concat(chunks) == bytes && |bytes| <= U64_MAX
    modifies batch`disk, batch.counter, stream`disk, stream.counter
    ensures Twins(batch, stream)
    ensures b.Ok? <==> t.Ok?
    ensures b.Ok? ==> b == t
    ensures b.Err? ==> t.Err? && b.error.TooLarge? && t.error.TooLarge? && b.error.limit == t.error.limit
  {
    b := batch.PutBytes(bytes);
    t := stream.PutStream(Source(chunks, false));
  }

  // The truncating puts: always accepted, with the same record and the same
  // disk if and only if the store's cap does not cut more than the limit does,
  // and the same report if and only if it is not below the limit.
  method PutTruncatingBothWays(
    batch: ArtifactStore, stream: ArtifactStore, bytes: seq<byte>, chunks: seq<Chunk>, limit: nat)
      returns (b: Result<(Record, TruncationInfo), WriteError>, t: Result<(Record, TruncationInfo), WriteError>)
    requires Twins(batch, stream) && Concat(chunks) == bytes && |bytes| <= U64_MAX
    modifies batch`disk, batch.counter, stream`disk, stream.counter
    ensures b.Ok? && t.Ok?
    ensures b.value.0 == t.value.0 <==> CapCutsNoMore(bytes, limit, batch.cap)
    ensures b.value.1 == t.value.1 <==> (batch.cap.Some? ==> limit <= batch.cap.value)
    ensures CapCutsNoMore(bytes, limit, batch.cap) ==> Twins(batch, stream)
  {
    b := batch.PutBytesTruncating(bytes, limit);
    t := stream.PutStreamTruncating(Source(chunks, false), limit);
    BatchAndStreamAgree(batch.sha, batch.root, bytes, limit, batch.cap);
  }

  predicate CapCutsNoMore(bytes: seq<byte>, limit: nat, cap: Option<nat>) {
    cap.Some? ==> limit <= cap.value || |bytes| <= cap.value
  }

  // The record and the kept bytes are a matter of what is cut, the report also
  // of the limit it names.
  lemma BatchAndStreamAgree(sha: Sha256, root: Path, bytes: seq<byte>, limit: nat, cap: Option<nat>)
    ensures var b, t := Truncating(sha, root, bytes, limit), Truncating(sha, root, bytes, Effective(limit, cap));
      && (b.0 == t.0 <==> CapCutsNoMore(bytes, limit, cap))
      && (b.1 == t.1 <==> (cap.Some? ==> limit <= cap.value))
    ensures CapCutsNoMore(bytes, limit, cap) <==> Kept(Some(limit), bytes) == Kept(Some(Effective(limit, cap)), bytes)
  {
    var b, t := Truncating(sha, root, bytes, limit), Truncating(sha, root, bytes, Effective(limit, cap));
    assert b.0.size == Min(limit, |bytes|) && t.0.size == Min(Effective(limit, cap), |bytes|);
  }

  // After an Ok put, `get` succeeds if and only if no corrupt file was already
  // under the final path: the put does not look inside a file it finds there.
  lemma PutThenGet(sha: Sha256, root: Path, disk: Disk, pid: nat, seqno: nat, kept: seq<byte>)
    ensures var d := DigestOf(sha, kept);
      var path := FinalPathFor(root, d);
      var got := Fetched(sha, Content(Stored(root, disk, Render(root, Partial(pid, seqno)), d, kept), path), d);
      && (got.Ok? <==> (path in disk ==> DigestOf(sha, disk[path]) == d))
      && (got.Ok? && NoCollision(sha, got.value, kept) ==> got.value == kept)
  {
    var d := DigestOf(sha, kept);
    var path := FinalPathFor(root, d);
    LayoutIsFaithful(root, Partial(pid, seqno), Shard(d));
    if path in disk && NoCollision(sha, disk[path], kept) {
      DigestSeparates(sha, disk[path], kept);
    }
  }

  // Neither a put of other bytes nor a sweep changes what a digest reads back.
  lemma OtherDigestsKeep(sha: Sha256, root: Path, disk: Disk, pid: nat, seqno: nat, kept: seq<byte>, e: Sha256Hex)
    ensures var path := FinalPathFor(root, e);
      && (e != DigestOf(sha, kept) ==>
        Content(Stored(root, disk, Render(root, Partial(pid, seqno)), DigestOf(sha, kept), kept), path)
          == Content(disk, path))
      && Content(map p | p in disk && !Sweepable(root, p) :: disk[p], path) == Content(disk, path)
  {
    LayoutIsFaithful(root, Partial(pid, seqno), Shard(e));
    LayoutIsFaithful(root, Shard(DigestOf(sha, kept)), Shard(e));
    LayoutIsFaithful(root, Shard(e), Shard(e));
  }
}

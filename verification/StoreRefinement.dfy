// The put of ArtifactStore is one of the runs of StoreProtocol: the run in
// which one writer goes through undisturbed. It is legal from any reachable
// state, whatever else is in flight, and leaves the disk ArtifactStore says.
module StoreRefinement {
  import opened Prelude
  import opened Digests
  import opened ArtifactPaths
  import opened BoundedCapture
  import opened StoreProtocol
  import AS = ArtifactStore

  // The store's files, as the disk has them.
  ghost predicate OnDisk(root: Path, s: State, disk: AS.Disk) {
    forall p: StorePath :: AS.Content(disk, Render(root, p)) == FileAt(s, p)
  }

  function FileAt(s: State, p: StorePath): Option<seq<byte>> {
    if p in s.dir && s.dir[p] in s.data then Some(s.data[s.dir[p]]) else None
  }

  // One read, and one write of whatever of it is accepted.
  function CopySteps(w: nat, cap: Option<nat>, input: seq<byte>, chunks: seq<AS.Chunk>): seq<Step>
    decreases |chunks|
  {
    if chunks == [] then []
    else
      var chunk := chunks[0];
      var n := Accepted(cap, |Kept(cap, input)|, chunk);
      [Read(w, chunk)] + (if n > 0 then [Write(w, n)] else [])
        + CopySteps(w, cap, input + chunk, chunks[1..])
  }

  function FinishSteps(w: nat, present: bool): seq<Step> {
    [Eof(w)] + ([Sync(w)] + CheckSteps(w, present))
  }

  function CheckSteps(w: nat, present: bool): seq<Step> {
    [Check(w, false)] + PlaceSteps(w, present)
  }

  function PlaceSteps(w: nat, present: bool): seq<Step> {
    if present then [Drop(w, true)] else [Rename(w), Clean(w, true)]
  }

  // The state in mid-copy, with `input` read so far.
  function MidCopy(s: State, w: nat, input: seq<byte>): State
    requires w in s.writers
  {
    var writer := s.writers[w];
    var kept := Kept(writer.cap, input);
    SetWriter(s, w, writer.(input := input, absorbed := kept, pending := []))
      .(data := s.data[writer.inode := kept])
  }

  lemma OneStep(sha: Sha256, s: State, step: Step, rest: seq<Step>)
    requires Enabled(s, step) && Legal(sha, Apply(sha, s, step), rest)
    ensures Legal(sha, s, [step] + rest)
    ensures Run(sha, s, [step] + rest) == Run(sha, Apply(sha, s, step), rest)
  {
    assert ([step] + rest)[1..] == rest;
  }

  // After reading `chunk` and before writing what was accepted of it.
  function MidChunk(s: State, w: nat, input: seq<byte>, chunk: seq<byte>): State
    requires w in s.writers
  {
    var mid := MidCopy(s, w, input);
    SetWriter(mid, w, TakeChunk(mid.writers[w], chunk))
  }

  lemma ChunkWritten(s: State, w: nat, input: seq<byte>, chunk: seq<byte>)
    requires At(s, w, Copying) && (s.writers[w].truncate || Fits(s.writers[w].cap, input + chunk))
    ensures var n := Accepted(s.writers[w].cap, |Kept(s.writers[w].cap, input)|, chunk);
      var read := MidChunk(s, w, input, chunk);
      && At(read, w, Copying) && read.writers[w].pending == chunk[..n]
      && WriteSome(read, w, n) == MidCopy(s, w, input + chunk)
      && (n == 0 ==> read == MidCopy(s, w, input + chunk))
  {
    var writer, goal := s.writers[w], MidCopy(s, w, input + chunk);
    var kept := Kept(writer.cap, input);
    var n := Accepted(writer.cap, |kept|, chunk);
    AcceptedExtendsKept(writer.cap, input, chunk);
    if !writer.truncate {
      AcceptedAllIff(writer.cap, input, chunk);
    }
    var read := MidChunk(s, w, input, chunk);
    var wrote := WriteSome(read, w, n);
    assert chunk[..n][n..] == [] && chunk[..n][..n] == chunk[..n];
    assert wrote.writers == goal.writers;
    assert wrote.data == goal.data;
    if n == 0 {
      assert kept + chunk[..0] == kept;
      assert read.writers == goal.writers;
      assert read.data == goal.data;
    }
  }

  lemma CopyOneChunk(sha: Sha256, s: State, w: nat, input: seq<byte>, chunk: AS.Chunk)
    requires At(s, w, Copying) && (s.writers[w].truncate || Fits(s.writers[w].cap, input + chunk))
    ensures var n := Accepted(s.writers[w].cap, |Kept(s.writers[w].cap, input)|, chunk);
      var mid, read := MidCopy(s, w, input), MidChunk(s, w, input, chunk);
      && Enabled(mid, Read(w, chunk)) && Apply(sha, mid, Read(w, chunk)) == read
      && if n > 0 then Enabled(read, Write(w, n)) && Apply(sha, read, Write(w, n)) == MidCopy(s, w, input + chunk)
        else read == MidCopy(s, w, input + chunk)
  {
    ChunkWritten(s, w, input, chunk);
  }

  lemma ChunkSteps(sha: Sha256, s: State, w: nat, chunk: AS.Chunk, n: nat, rest: seq<Step>)
    requires Enabled(s, Read(w, chunk))
    requires n > 0 ==> Enabled(Apply(sha, s, Read(w, chunk)), Write(w, n))
    requires var read := Apply(sha, s, Read(w, chunk));
      Legal(sha, if n > 0 then Apply(sha, read, Write(w, n)) else read, rest)
    ensures var read := Apply(sha, s, Read(w, chunk));
      var steps := [Read(w, chunk)] + (if n > 0 then [Write(w, n)] else []) + rest;
      && Legal(sha, s, steps)
      && Run(sha, s, steps) == Run(sha, if n > 0 then Apply(sha, read, Write(w, n)) else read, rest)
  {
    if n > 0 {
      OneStep(sha, Apply(sha, s, Read(w, chunk)), Write(w, n), rest);
      OneStep(sha, s, Read(w, chunk), [Write(w, n)] + rest);
      ConcatAssoc([Read(w, chunk)], [Write(w, n)], rest);
    } else {
      OneStep(sha, s, Read(w, chunk), rest);
      assert [Read(w, chunk)] + [] + rest == [Read(w, chunk)] + rest;
    }
  }

  lemma {:induction false} CopyRuns(sha: Sha256, s: State, w: nat, input: seq<byte>, chunks: seq<AS.Chunk>)
    requires At(s, w, Copying)
    requires s.writers[w].truncate || Fits(s.writers[w].cap, input + Concat(chunks))
    ensures var steps := CopySteps(w, s.writers[w].cap, input, chunks);
      && Legal(sha, MidCopy(s, w, input), steps)
      && Run(sha, MidCopy(s, w, input), steps) == MidCopy(s, w, input + Concat(chunks))
    decreases |chunks|
  {
    if chunks == [] {
      assert input + [] == input;
    } else {
      var cap, mid, chunk := s.writers[w].cap, MidCopy(s, w, input), chunks[0];
      var rest := CopySteps(w, cap, input + chunk, chunks[1..]);
      ConcatAssoc(input, chunk, Concat(chunks[1..]));
      CopyOneChunk(sha, s, w, input, chunk);
      CopyRuns(sha, s, w, input + chunk, chunks[1..]);
      ChunkSteps(sha, mid, w, chunk, Accepted(cap, |Kept(cap, input)|, chunk), rest);
    }
  }

  // ---- Opening and finishing ---------------------------------------------------

  ghost predicate CanPut(s: State, w: nat, pid: nat, inode: nat) {
    w !in s.writers && pid in s.procs && TicketsFresh(s, pid) && inode !in s.data
  }

  function Opened(s: State, w: nat, pid: nat, inode: nat, cap: Option<nat>, truncate: bool): State
    requires pid in s.procs
  {
    OpenTemp(Start(s, w, pid, cap, truncate), w, inode)
  }

  lemma OpenRuns(sha: Sha256, s: State, w: nat, pid: nat, inode: nat, cap: Option<nat>, truncate: bool, rest: seq<Step>)
    requires Inv(sha, s) && CanPut(s, w, pid, inode) && (truncate ==> cap.Some?)
    requires Legal(sha, Opened(s, w, pid, inode, cap, truncate), rest)
    ensures var steps := [Begin(w, pid, cap, truncate), Open(w, inode)] + rest;
      Legal(sha, s, steps) && Run(sha, s, steps) == Run(sha, Opened(s, w, pid, inode, cap, truncate), rest)
  {
    var started := Start(s, w, pid, cap, truncate);
    OneStep(sha, started, Open(w, inode), rest);
    OneStep(sha, s, Begin(w, pid, cap, truncate), [Open(w, inode)] + rest);
    assert [Begin(w, pid, cap, truncate)] + ([Open(w, inode)] + rest) ==
      [Begin(w, pid, cap, truncate), Open(w, inode)] + rest;
  }

  lemma OpenedHasNoInput(s: State, w: nat, pid: nat, inode: nat, cap: Option<nat>, truncate: bool)
    requires pid in s.procs
    ensures var o := Opened(s, w, pid, inode, cap, truncate);
      At(o, w, Copying) && MidCopy(o, w, []) == o
  {
    var o := Opened(s, w, pid, inode, cap, truncate);
    assert MidCopy(o, w, []).writers == o.writers;
    assert MidCopy(o, w, []).data == o.data;
  }

  // Where an undisturbed writer leaves the store after its copy loop.
  function Finished(sha: Sha256, s: State, w: nat): State
    requires w in s.writers && Temp(s.writers[w]) in s.dir
  {
    var moved := if Target(sha, s.writers[w]) in s.dir then s else MoveIntoPlace(sha, s, w);
    Acknowledge(sha, Unlink(moved, Temp(s.writers[w]), true), w)
  }

  lemma FinishedIgnoresPc(sha: Sha256, s: State, w: nat, pc: Pc)
    requires w in s.writers && Temp(s.writers[w]) in s.dir
    ensures Finished(sha, Goto(s, w, pc), w) == Finished(sha, s, w)
  {
    assert Goto(s, w, pc).writers - {w} == s.writers - {w};
    assert Goto(Goto(s, w, pc), w, Cleaning).writers - {w} == Goto(s, w, Cleaning).writers - {w};
  }

  lemma PlaceRuns(sha: Sha256, s: State, w: nat)
    requires w in s.writers && Temp(s.writers[w]) in s.dir
    requires s.writers[w].pc == if Target(sha, s.writers[w]) in s.dir then Dropping else Renaming
    ensures var steps := PlaceSteps(w, Target(sha, s.writers[w]) in s.dir);
      Legal(sha, s, steps) && Run(sha, s, steps) == Finished(sha, s, w)
  {
    if Target(sha, s.writers[w]) in s.dir {
      OneStep(sha, s, Drop(w, true), []);
    } else {
      OneStep(sha, MoveIntoPlace(sha, s, w), Clean(w, true), []);
      OneStep(sha, s, Rename(w), [Clean(w, true)]);
    }
  }

  lemma CheckRuns(sha: Sha256, s: State, w: nat)
    requires At(s, w, Checking) && Temp(s.writers[w]) in s.dir
    ensures var steps := CheckSteps(w, Target(sha, s.writers[w]) in s.dir);
      Legal(sha, s, steps) && Run(sha, s, steps) == Finished(sha, s, w)
  {
    var present := Target(sha, s.writers[w]) in s.dir;
    var pc := if present then Dropping else Renaming;
    FinishedIgnoresPc(sha, s, w, pc);
    PlaceRuns(sha, Goto(s, w, pc), w);
    OneStep(sha, s, Check(w, false), PlaceSteps(w, present));
  }

  lemma FinishRuns(sha: Sha256, s: State, w: nat)
    requires At(s, w, Copying) && s.writers[w].pending == [] && Temp(s.writers[w]) in s.dir
    ensures var steps := FinishSteps(w, Target(sha, s.writers[w]) in s.dir);
      Legal(sha, s, steps) && Run(sha, s, steps) == Finished(sha, s, w)
  {
    var check := CheckSteps(w, Target(sha, s.writers[w]) in s.dir);
    var s1 := Goto(s, w, Syncing);
    var s2 := Goto(s1, w, Checking);
    FinishedIgnoresPc(sha, s, w, Syncing);
    FinishedIgnoresPc(sha, s1, w, Checking);
    CheckRuns(sha, s2, w);
    OneStep(sha, s1, Sync(w), check);
    OneStep(sha, s, Eof(w), [Sync(w)] + check);
  }

  // ---- Main results ---------------------------------------------------------------

  // What the undisturbed put is to end in.
  ghost predicate PutDone(
    sha: Sha256, root: Path, s: State, s': State, disk: AS.Disk, temp: StorePath,
    input: seq<byte>, cap: Option<nat>, truncate: bool)
  {
    var kept := Kept(cap, input);
    var digest := DigestOf(sha, kept);
    && s'.acked == s.acked + {Ack(digest, kept, input, cap, truncate)}
    && s'.writers == s.writers && s'.readers == s.readers
    && OnDisk(root, s', AS.Stored(root, disk, Render(root, temp), digest, kept))
  }

  lemma FinishedDir(sha: Sha256, s: State, w: nat)
    requires w in s.writers && Temp(s.writers[w]) in s.dir
    ensures var s', temp, target := Finished(sha, s, w), Temp(s.writers[w]), Target(sha, s.writers[w]);
      && s'.data == s.data
      && s'.dir == if target in s.dir then s.dir - {temp} else (s.dir - {temp})[target := s.dir[temp]]
  {
    var temp, target := Temp(s.writers[w]), Target(sha, s.writers[w]);
    if target !in s.dir {
      assert (s.dir - {temp})[target := s.dir[temp]] - {temp} == (s.dir - {temp})[target := s.dir[temp]];
    }
  }

  lemma FinishedFile(sha: Sha256, s: State, w: nat, p: StorePath)
    requires Inv(sha, s) && At(s, w, Copying) && s.writers[w].pending == []
    requires Temp(s.writers[w]) in s.dir
    ensures var target := Target(sha, s.writers[w]);
      FileAt(Finished(sha, s, w), p) ==
        if p == Temp(s.writers[w]) then None
        else if p == target && target !in s.dir then Some(s.writers[w].absorbed)
        else FileAt(s, p)
  {
    var writer := s.writers[w];
    assert WriterInv(sha, s, writer);
    assert s.data[writer.inode] + [] == s.data[writer.inode];
    FinishedDir(sha, s, w);
  }

  lemma StoredFile(root: Path, disk: AS.Disk, temp: StorePath, kept: seq<byte>, digest: Sha256Hex, p: StorePath)
    requires temp.Partial?
    ensures AS.Content(AS.Stored(root, disk, Render(root, temp), digest, kept), Render(root, p)) ==
      if p == temp then None
      else if p == Shard(digest) && Render(root, p) !in disk then Some(kept)
      else AS.Content(disk, Render(root, p))
  {
    LayoutIsFaithful(root, p, temp);
    LayoutIsFaithful(root, p, Shard(digest));
    AS.StoredFiles(root, disk, temp, digest, kept, Render(root, p));
  }

  lemma FinishedOnDisk(sha: Sha256, root: Path, s: State, w: nat, disk: AS.Disk)
    requires Inv(sha, s) && At(s, w, Copying) && s.writers[w].pending == []
    requires OnDisk(root, s, disk) && Temp(s.writers[w]) in s.dir
    ensures var kept := s.writers[w].absorbed;
      OnDisk(root, Finished(sha, s, w),
        AS.Stored(root, disk, Render(root, Temp(s.writers[w])), DigestOf(sha, kept), kept))
  {
    var kept, temp, s' := s.writers[w].absorbed, Temp(s.writers[w]), Finished(sha, s, w);
    var target := Target(sha, s.writers[w]);
    var after := AS.Stored(root, disk, Render(root, temp), DigestOf(sha, kept), kept);
    assert target in s.dir <==> Render(root, target) in disk by {
      assert AS.Content(disk, Render(root, target)) == FileAt(s, target);
    }
    forall p: StorePath ensures AS.Content(after, Render(root, p)) == FileAt(s', p) {
      FinishedFile(sha, s, w, p);
      StoredFile(root, disk, temp, kept, DigestOf(sha, kept), p);
      assert AS.Content(disk, Render(root, p)) == FileAt(s, p);
    }
  }

  // The store when writer w, started from s, has read and written all of its input.
  ghost predicate CopiedFrom(
    s: State, m: State, w: nat, temp: StorePath, input: seq<byte>, cap: Option<nat>, truncate: bool)
  {
    && At(m, w, Copying)
    && var writer := m.writers[w];
    && Temp(writer) == temp && writer.cap == cap && writer.truncate == truncate
    && writer.input == input && writer.absorbed == Kept(cap, input) && writer.pending == []
    && m.writers - {w} == s.writers && m.readers == s.readers && m.acked == s.acked
    && m.dir == s.dir[temp := writer.inode]
    && writer.inode in m.data && m.data[writer.inode] == Kept(cap, input)
    && (forall p | p in s.dir && p != temp ::
          && s.dir[p] != writer.inode && s.dir[p] in s.data
          && s.dir[p] in m.data && m.data[s.dir[p]] == s.data[s.dir[p]])
  }

  lemma CopiedFiles(
    sha: Sha256, s: State, w: nat, pid: nat, inode: nat, cap: Option<nat>, truncate: bool, input: seq<byte>)
    requires Inv(sha, s) && CanPut(s, w, pid, inode)
    ensures var m := MidCopy(Opened(s, w, pid, inode, cap, truncate), w, input);
      var temp, i := Partial(pid, s.procs[pid] % TICKETS), m.writers[w].inode;
      && m.dir == s.dir[temp := i] && i in m.data && m.data[i] == Kept(cap, input)
      && (forall p | p in s.dir && p != temp ::
            && s.dir[p] != i && s.dir[p] in s.data
            && s.dir[p] in m.data && m.data[s.dir[p]] == s.data[s.dir[p]])
  {
    StartKeepsInv(sha, s, w, pid, cap, truncate);
    OpenedFileIsPrivate(sha, Start(s, w, pid, cap, truncate), w, inode);
  }

  lemma CopiedState(
    sha: Sha256, s: State, w: nat, pid: nat, inode: nat, cap: Option<nat>, truncate: bool, input: seq<byte>)
    requires Inv(sha, s) && CanPut(s, w, pid, inode)
    ensures var m := MidCopy(Opened(s, w, pid, inode, cap, truncate), w, input);
      CopiedFrom(s, m, w, Partial(pid, s.procs[pid] % TICKETS), input, cap, truncate)
  {
    CopiedFiles(sha, s, w, pid, inode, cap, truncate, input);
    var m := MidCopy(Opened(s, w, pid, inode, cap, truncate), w, input);
    assert m.writers - {w} == s.writers;
  }

  // While the writer copies, the disk differs in its temp file only.
  lemma CopyingOnDisk(
    root: Path, s: State, m: State, w: nat, temp: StorePath, disk: AS.Disk,
    input: seq<byte>, cap: Option<nat>, truncate: bool)
    requires OnDisk(root, s, disk) && CopiedFrom(s, m, w, temp, input, cap, truncate)
    ensures OnDisk(root, m, disk[Render(root, temp) := Kept(cap, input)])
  {
    var after := disk[Render(root, temp) := Kept(cap, input)];
    forall p: StorePath ensures AS.Content(after, Render(root, p)) == FileAt(m, p) {
      LayoutIsFaithful(root, p, temp);
      assert AS.Content(disk, Render(root, p)) == FileAt(s, p);
    }
  }

  lemma FinishedRest(
    sha: Sha256, s: State, m: State, w: nat, temp: StorePath, input: seq<byte>, cap: Option<nat>, truncate: bool)
    requires CopiedFrom(s, m, w, temp, input, cap, truncate)
    ensures var s' := Finished(sha, m, w);
      var kept := Kept(cap, input);
      && s'.acked == s.acked + {Ack(DigestOf(sha, kept), kept, input, cap, truncate)}
      && s'.writers == s.writers && s'.readers == s.readers
  {
    assert Goto(m, w, Cleaning).writers - {w} == m.writers - {w};
  }

  lemma StoredOverTemp(sha: Sha256, root: Path, disk: AS.Disk, temp: StorePath, kept: seq<byte>)
    requires temp.Partial?
    ensures var path, digest := Render(root, temp), DigestOf(sha, kept);
      AS.Stored(root, disk[path := kept], path, digest, kept) == AS.Stored(root, disk, path, digest, kept)
  {
    LayoutIsFaithful(root, temp, Shard(DigestOf(sha, kept)));
    var path := Render(root, temp);
    assert disk[path := kept] - {path} == disk - {path};
  }

  lemma PutEnds(
    sha: Sha256, root: Path, s: State, m: State, w: nat, temp: StorePath, disk: AS.Disk,
    input: seq<byte>, cap: Option<nat>, truncate: bool)
    requires Inv(sha, m) && OnDisk(root, s, disk)
    requires CopiedFrom(s, m, w, temp, input, cap, truncate)
    ensures PutDone(sha, root, s, Finished(sha, m, w), disk, temp, input, cap, truncate)
  {
    CopyingOnDisk(root, s, m, w, temp, disk, input, cap, truncate);
    FinishedOnDisk(sha, root, m, w, disk[Render(root, temp) := Kept(cap, input)]);
    StoredOverTemp(sha, root, disk, temp, Kept(cap, input));
    FinishedRest(sha, s, m, w, temp, input, cap, truncate);
  }

  // The store after an undisturbed writer has copied these chunks.
  function Copied(
    s: State, w: nat, pid: nat, inode: nat, cap: Option<nat>, truncate: bool, chunks: seq<AS.Chunk>): State
    requires pid in s.procs
  {
    MidCopy(Opened(s, w, pid, inode, cap, truncate), w, Concat(chunks))
  }

  function OpenAndCopy(
    w: nat, pid: nat, inode: nat, cap: Option<nat>, truncate: bool, chunks: seq<AS.Chunk>, rest: seq<Step>): seq<Step>
  {
    [Begin(w, pid, cap, truncate), Open(w, inode)] + (CopySteps(w, cap, [], chunks) + rest)
  }

  lemma CopyThen(
    sha: Sha256, s: State, w: nat, pid: nat, inode: nat, cap: Option<nat>, truncate: bool,
    chunks: seq<AS.Chunk>, rest: seq<Step>)
    requires Inv(sha, s) && CanPut(s, w, pid, inode)
    requires if truncate then cap.Some? else Fits(cap, Concat(chunks))
    requires Legal(sha, Copied(s, w, pid, inode, cap, truncate, chunks), rest)
    ensures var steps := OpenAndCopy(w, pid, inode, cap, truncate, chunks, rest);
      && Legal(sha, s, steps)
      && Run(sha, s, steps) == Run(sha, Copied(s, w, pid, inode, cap, truncate, chunks), rest)
  {
    var o := Opened(s, w, pid, inode, cap, truncate);
    assert [] + Concat(chunks) == Concat(chunks);
    OpenedHasNoInput(s, w, pid, inode, cap, truncate);
    CopyRuns(sha, o, w, [], chunks);
    var copy := CopySteps(w, cap, [], chunks);
    RunConcat(sha, o, copy, rest);
    OpenRuns(sha, s, w, pid, inode, cap, truncate, copy + rest);
  }

  lemma CopiedHolds(
    sha: Sha256, s: State, w: nat, pid: nat, inode: nat, cap: Option<nat>, truncate: bool, chunks: seq<AS.Chunk>)
    requires Inv(sha, s) && CanPut(s, w, pid, inode)
    requires if truncate then cap.Some? else Fits(cap, Concat(chunks))
    ensures var m := Copied(s, w, pid, inode, cap, truncate, chunks);
      && Inv(sha, m)
      && CopiedFrom(s, m, w, Partial(pid, s.procs[pid] % TICKETS), Concat(chunks), cap, truncate)
  {
    CopyThen(sha, s, w, pid, inode, cap, truncate, chunks, []);
    RunKeepsInv(sha, s, OpenAndCopy(w, pid, inode, cap, truncate, chunks, []));
    CopiedState(sha, s, w, pid, inode, cap, truncate, Concat(chunks));
  }

  // The undisturbed put: legal from any reachable state, acknowledged with the
  // digest of what the policy keeps, and leaving behind the disk that
  // ArtifactStore's contracts give, with everybody else's work untouched.
  lemma PutIsARun(
    sha: Sha256, root: Path, s: State, disk: AS.Disk, w: nat, pid: nat, inode: nat,
    cap: Option<nat>, truncate: bool, chunks: seq<AS.Chunk>) returns (steps: seq<Step>)
    requires Reachable(sha, s) && CanPut(s, w, pid, inode) && OnDisk(root, s, disk)
    requires if truncate then cap.Some? else Fits(cap, Concat(chunks))
    ensures Legal(sha, s, steps)
    ensures PutDone(sha, root, s, Run(sha, s, steps), disk,
      Partial(pid, s.procs[pid] % TICKETS), Concat(chunks), cap, truncate)
  {
    ReachableInv(sha, s);
    var m := Copied(s, w, pid, inode, cap, truncate, chunks);
    CopiedHolds(sha, s, w, pid, inode, cap, truncate, chunks);
    var finish := FinishSteps(w, Target(sha, m.writers[w]) in m.dir);
    FinishRuns(sha, m, w);
    CopyThen(sha, s, w, pid, inode, cap, truncate, chunks, finish);
    steps := OpenAndCopy(w, pid, inode, cap, truncate, chunks, finish);
    PutEnds(sha, root, s, m, w, Partial(pid, s.procs[pid] % TICKETS), disk, Concat(chunks), cap, truncate);
  }

  // What a put that fails is to end in: nothing acknowledged, nobody else
  // touched, and this disk.
  ghost predicate PutFailed(root: Path, s: State, s': State, disk: AS.Disk) {
    && s'.acked == s.acked && s'.writers == s.writers && s'.readers == s.readers
    && OnDisk(root, s', disk)
  }

  // An input that breaks off before it is over the cap: the partial file stays.
  lemma BrokenPutIsARun(
    sha: Sha256, root: Path, s: State, disk: AS.Disk, w: nat, pid: nat, inode: nat,
    cap: Option<nat>, truncate: bool, chunks: seq<AS.Chunk>) returns (steps: seq<Step>)
    requires Reachable(sha, s) && CanPut(s, w, pid, inode) && OnDisk(root, s, disk)
    requires if truncate then cap.Some? else Fits(cap, Concat(chunks))
    ensures Legal(sha, s, steps)
    ensures PutFailed(root, s, Run(sha, s, steps), AS.DiskAfter(
      root, disk, Render(root, Partial(pid, s.procs[pid] % TICKETS)), AS.Source(chunks, true), cap, Err(AS.Io)))
  {
    ReachableInv(sha, s);
    var m, temp := Copied(s, w, pid, inode, cap, truncate, chunks), Partial(pid, s.procs[pid] % TICKETS);
    CopiedHolds(sha, s, w, pid, inode, cap, truncate, chunks);
    OneStep(sha, m, Fail(w), []);
    CopyThen(sha, s, w, pid, inode, cap, truncate, chunks, [Fail(w)]);
    steps := OpenAndCopy(w, pid, inode, cap, truncate, chunks, [Fail(w)]);
    CopyingOnDisk(root, s, m, w, temp, disk, Concat(chunks), cap, truncate);
  }

  // The read that takes an input over the cap.
  lemma {:induction false} FirstOver(chunks: seq<AS.Chunk>, cap: Option<nat>) returns (k: nat)
    requires !Fits(cap, Concat(chunks))
    ensures k < |chunks| && Fits(cap, Concat(chunks[..k])) && !Fits(cap, Concat(chunks[..k]) + chunks[k])
  {
    var n := |chunks| - 1;
    assert chunks == chunks[..n] + [chunks[n]];
    ConcatSnoc(chunks[..n], chunks[n]);
    if Fits(cap, Concat(chunks[..n])) {
      k := n;
    } else {
      k := FirstOver(chunks[..n], cap);
      assert chunks[..n][..k] == chunks[..k];
    }
  }

  lemma RejectRuns(sha: Sha256, m: State, w: nat, chunk: AS.Chunk)
    requires At(m, w, Copying) && m.writers[w].pending == [] && !m.writers[w].truncate
    requires m.writers[w].absorbed == m.writers[w].input && Fits(m.writers[w].cap, m.writers[w].input)
    requires !Fits(m.writers[w].cap, m.writers[w].input + chunk)
    ensures var steps := [Read(w, chunk)] + [Reject(w, true)];
      && Legal(sha, m, steps)
      && var s' := Run(sha, m, steps);
      && s'.dir == m.dir - {Temp(m.writers[w])} && s'.data == m.data
      && s'.writers == m.writers - {w} && s'.readers == m.readers && s'.acked == m.acked
  {
    var writer := m.writers[w];
    AcceptedAllIff(writer.cap, writer.input, chunk);
    var read := Apply(sha, m, Read(w, chunk));
    OneStep(sha, read, Reject(w, true), []);
    OneStep(sha, m, Read(w, chunk), [Reject(w, true)]);
    assert read.writers - {w} == m.writers - {w};
  }

  lemma DroppedOnDisk(root: Path, s: State, s': State, m: State, w: nat, temp: StorePath, disk: AS.Disk,
    input: seq<byte>, cap: Option<nat>, truncate: bool)
    requires OnDisk(root, s, disk) && CopiedFrom(s, m, w, temp, input, cap, truncate)
    requires s'.dir == m.dir - {temp} && s'.data == m.data
    ensures OnDisk(root, s', disk - {Render(root, temp)})
  {
    var after := disk - {Render(root, temp)};
    forall p: StorePath ensures AS.Content(after, Render(root, p)) == FileAt(s', p) {
      LayoutIsFaithful(root, p, temp);
      assert AS.Content(disk, Render(root, p)) == FileAt(s, p);
    }
  }

  // An input over the cap that must not be cut: refused at the first read that
  // does not fit, with nothing left behind.
  lemma RefusedPutIsARun(
    sha: Sha256, root: Path, s: State, disk: AS.Disk, w: nat, pid: nat, inode: nat,
    cap: Option<nat>, source: AS.Source) returns (steps: seq<Step>)
    requires Reachable(sha, s) && CanPut(s, w, pid, inode) && OnDisk(root, s, disk)
    requires !Fits(cap, Concat(source.chunks))
    ensures Legal(sha, s, steps)
    ensures forall observed :: PutFailed(root, s, Run(sha, s, steps), AS.DiskAfter(
      root, disk, Render(root, Partial(pid, s.procs[pid] % TICKETS)), source, cap,
      Err(AS.TooLarge(cap.value, observed))))
  {
    ReachableInv(sha, s);
    var k := FirstOver(source.chunks, cap);
    var chunks, chunk := source.chunks[..k], source.chunks[k];
    var m, temp := Copied(s, w, pid, inode, cap, false, chunks), Partial(pid, s.procs[pid] % TICKETS);
    CopiedHolds(sha, s, w, pid, inode, cap, false, chunks);
    RejectRuns(sha, m, w, chunk);
    var rest := [Read(w, chunk)] + [Reject(w, true)];
    CopyThen(sha, s, w, pid, inode, cap, false, chunks, rest);
    steps := OpenAndCopy(w, pid, inode, cap, false, chunks, rest);
    DroppedOnDisk(root, s, Run(sha, s, steps), m, w, temp, disk, Concat(chunks), cap, false);
  }

  // ---- Opening a store, and reading from it ------------------------------------------

  function Partials(s: State): set<StorePath> {
    set p | p in s.dir && p.Partial?
  }

  lemma {:induction false} SweepsRun(sha: Sha256, s: State, paths: set<StorePath>) returns (steps: seq<Step>)
    requires forall p | p in paths :: p.Partial? && p in s.dir
    ensures Legal(sha, s, steps) && forall step | step in steps :: step.Sweep?
    ensures Run(sha, s, steps) == s.(dir := s.dir - paths)
    decreases |paths|
  {
    if paths == {} {
      steps := [];
      assert s.dir - paths == s.dir;
    } else {
      var path :| path in paths;
      var s1 := Apply(sha, s, Sweep(path));
      var rest := SweepsRun(sha, s1, paths - {path});
      OneStep(sha, s, Sweep(path), rest);
      steps := [Sweep(path)] + rest;
      assert s.dir - {path} - (paths - {path}) == s.dir - paths;
    }
  }

  // A process that starts and opens the store, sweeping it, leaves the disk that
  // `OpenWith` gives, and touches nothing but orphans and the temp files of
  // others.
  lemma OpenIsARun(sha: Sha256, root: Path, s: State, disk: AS.Disk, pid: nat) returns (steps: seq<Step>)
    requires OnDisk(root, s, disk) && pid !in s.procs
    ensures Legal(sha, s, steps)
    ensures var s' := Run(sha, s, steps);
      && s' == s.(procs := s.procs[pid := 0], dir := s.dir - Partials(s))
      && OnDisk(root, s', map p | p in disk && !Sweepable(root, p) :: disk[p])
  {
    var started := Apply(sha, s, Spawn(pid));
    var sweeps := SweepsRun(sha, started, Partials(s));
    OneStep(sha, s, Spawn(pid), sweeps);
    steps := [Spawn(pid)] + sweeps;
    var s', after := Run(sha, s, steps), map p | p in disk && !Sweepable(root, p) :: disk[p];
    forall p: StorePath ensures AS.Content(after, Render(root, p)) == FileAt(s', p) {
      LayoutIsFaithful(root, p, p);
      assert AS.Content(disk, Render(root, p)) == FileAt(s, p);
    }
  }

  // A fetch with nothing in its way is a run, possible exactly when `Get` finds
  // a file; it reads what `Get` returns and leaves the store as it was.
  lemma GetIsARun(sha: Sha256, root: Path, s: State, disk: AS.Disk, r: nat, digest: Sha256Hex)
      returns (steps: seq<Step>)
    requires Reachable(sha, s) && OnDisk(root, s, disk) && r !in s.readers
    ensures var got := AS.Fetched(sha, AS.Content(disk, FinalPathFor(root, digest)), digest);
      && (Enabled(s, Fetch(r, digest)) <==> got != Err(AS.NotFound))
      && (Enabled(s, Fetch(r, digest)) ==>
          && Legal(sha, s, steps)
          && r in Run(sha, s, steps).readers
          && got == Ok(Run(sha, s, steps).readers[r].got)
          && Apply(sha, Run(sha, s, steps), FetchEnd(r)) == s)
  {
    ReachableInv(sha, s);
    assert AS.Content(disk, Render(root, Shard(digest))) == FileAt(s, Shard(digest));
    steps := [];
    if Enabled(s, Fetch(r, digest)) {
      steps := ReadsRun(sha, s, r, digest);
    }
  }

  lemma ReadsRun(sha: Sha256, s: State, r: nat, digest: Sha256Hex) returns (steps: seq<Step>)
    requires Enabled(s, Fetch(r, digest))
    ensures Legal(sha, s, steps)
    ensures var s' := Run(sha, s, steps);
      && r in s'.readers && s'.readers[r].got == s.data[s.dir[Shard(digest)]]
      && Apply(sha, s', FetchEnd(r)) == s
  {
    var file := s.data[s.dir[Shard(digest)]];
    var opened_ := Apply(sha, s, Fetch(r, digest));
    assert opened_.readers - {r} == s.readers;
    if file == [] {
      OneStep(sha, s, Fetch(r, digest), []);
      steps := [Fetch(r, digest)] + [];
    } else {
      var read := Apply(sha, opened_, FetchMore(r, |file|));
      assert [] + file[0..|file|] == file;
      assert read.readers - {r} == s.readers;
      OneStep(sha, opened_, FetchMore(r, |file|), []);
      OneStep(sha, s, Fetch(r, digest), [FetchMore(r, |file|)]);
      steps := [Fetch(r, digest)] + [FetchMore(r, |file|)];
    }
  }
}

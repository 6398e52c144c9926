// The artifact store under concurrency, process death and sweeps.
//
// Any number of processes put artifacts into one store root and read from it.
// Each file-system operation of `write_common`, `sweep_staging` and `read_all`
// is a step, so a run is any interleaving of them. Files are inodes: a path
// maps to an inode, an open writer or reader keeps its inode whatever happens
// to the path, and `rename` moves a path entry, replacing the one it finds.
module StoreProtocol {
  import opened Prelude
  import opened Digests
  import opened ArtifactPaths
  import opened BoundedCapture

  // The staging counter is a u64.
  const TICKETS: nat := U64_MAX + 1

  // Where a writer stands inside `write_common`.
  datatype Pc =
    | Opening               // temp name chosen, file not open yet
    | Copying               // in the read/write loop
    | Rejecting             // over the cap: about to remove the temp file
    | Syncing               // end of input
    | Checking              // digest known; about to test the final path
    | Dropping              // final path exists: about to remove the temp file
    | Renaming              // about to rename onto the final path
    | Cleaning              // renamed

  // `input` is what the reader has produced, `absorbed` what the hasher has
  // taken of it, `pending` the part that write_all has not yet put into the file.
  datatype Writer = Writer(
    pid: nat,
    ticket: nat,
    cap: Option<nat>,
    truncate: bool,
    pc: Pc,
    inode: nat,
    input: seq<byte>,
    absorbed: seq<byte>,
    pending: seq<byte>)

  datatype Reader = Reader(expected: Sha256Hex, inode: nat, got: seq<byte>)

  // A put that returned Ok: the digest it named, the bytes it kept, and the
  // input and policy it kept them of.
  datatype Ack = Ack(
    digest: Sha256Hex, bytes: seq<byte>, input: seq<byte>, cap: Option<nat>, truncate: bool)

  // `acked` is history, not state of the program.
  datatype State = State(
    dir: map<StorePath, nat>,
    data: map<nat, seq<byte>>,
    procs: map<nat, nat>,
    writers: map<nat, Writer>,
    readers: map<nat, Reader>,
    acked: set<Ack>)

  datatype Step =
    | Spawn(pid: nat)
    | Die(pid: nat)
    | Begin(w: nat, pid: nat, cap: Option<nat>, truncate: bool)
    | Open(w: nat, inode: nat)
    | Read(w: nat, chunk: seq<byte>)
    | Write(w: nat, k: nat)
    | Eof(w: nat)
    | Fail(w: nat)
    | Reject(w: nat, removed: bool)
    | Sync(w: nat)
    | Check(w: nat, failed: bool)
    | Drop(w: nat, removed: bool)
    | Rename(w: nat)
    | Clean(w: nat, removed: bool)
    | Sweep(path: StorePath)
    | Fetch(r: nat, digest: Sha256Hex)
    | FetchMore(r: nat, k: nat)
    | FetchEnd(r: nat)

  function Init(): State {
    State(map[], map[], map[], map[], map[], {})
  }

  function Temp(w: Writer): StorePath {
    Partial(w.pid, w.ticket % TICKETS)
  }

  function Target(sha: Sha256, w: Writer): StorePath {
    Shard(DigestOf(sha, w.absorbed))
  }

  predicate At(s: State, w: nat, pc: Pc) {
    w in s.writers && s.writers[w].pc == pc
  }

  // A put is never overtaken by 2^64 later puts of its own process.
  ghost predicate TicketsFresh(s: State, pid: nat)
    requires pid in s.procs
  {
    forall v | v in s.writers && s.writers[v].pid == pid ::
      s.procs[pid] < s.writers[v].ticket + TICKETS
  }

  ghost predicate Enabled(s: State, step: Step) {
    match step
    case Spawn(pid) => pid !in s.procs
    case Die(pid) => pid in s.procs
    case Begin(w, pid, cap, truncate) =>
      w !in s.writers && pid in s.procs && TicketsFresh(s, pid) && (truncate ==> cap.Some?)
    case Open(w, inode) => At(s, w, Opening) && inode !in s.data
    case Read(w, chunk) => At(s, w, Copying) && s.writers[w].pending == [] && chunk != []
    case Write(w, k) => At(s, w, Copying) && 0 < k <= |s.writers[w].pending|
    case Eof(w) => At(s, w, Copying) && s.writers[w].pending == []
    case Fail(w) =>
      // An abort, or an I/O error propagated with `?`. Failed removals are ignored instead.
      w in s.writers && s.writers[w].pc in {Opening, Copying, Syncing, Renaming}
    case Reject(w, removed) => At(s, w, Rejecting)
    case Sync(w) => At(s, w, Syncing)
    case Check(w, failed) => At(s, w, Checking)
    case Drop(w, removed) => At(s, w, Dropping)
    case Rename(w) => At(s, w, Renaming) && Temp(s.writers[w]) in s.dir
    case Clean(w, removed) => At(s, w, Cleaning)
    case Sweep(path) => path.Partial? && path in s.dir
    case Fetch(r, digest) => r !in s.readers && Shard(digest) in s.dir && s.dir[Shard(digest)] in s.data
    case FetchMore(r, k) =>
      && r in s.readers && s.readers[r].inode in s.data
      && 0 < k <= |s.data[s.readers[r].inode]| - |s.readers[r].got|
    case FetchEnd(r) => r in s.readers
  }

  function SetWriter(s: State, w: nat, writer: Writer): State {
    s.(writers := s.writers[w := writer])
  }

  function Goto(s: State, w: nat, pc: Pc): State
    requires w in s.writers
  {
    SetWriter(s, w, s.writers[w].(pc := pc))
  }

  function Leave(s: State, w: nat): State {
    s.(writers := s.writers - {w})
  }

  // Best-effort `remove_file`: no effect when it fails or the path is gone.
  function Unlink(s: State, path: StorePath, removed: bool): State {
    if removed then s.(dir := s.dir - {path}) else s
  }

  function Kill(s: State, pid: nat): State {
    s.(procs := s.procs - {pid},
       writers := map w | w in s.writers && s.writers[w].pid != pid :: s.writers[w])
  }

  function Start(s: State, w: nat, pid: nat, cap: Option<nat>, truncate: bool): State
    requires pid in s.procs
  {
    SetWriter(s, w, Writer(pid, s.procs[pid], cap, truncate, Opening, 0, [], [], []))
      .(procs := s.procs[pid := s.procs[pid] + 1])
  }

  // create + truncate: a file already under that name is emptied and reused.
  function OpenTemp(s: State, w: nat, fresh_: nat): State
    requires w in s.writers
  {
    var path := Temp(s.writers[w]);
    var i := if path in s.dir then s.dir[path] else fresh_;
    SetWriter(s, w, s.writers[w].(pc := Copying, inode := i))
      .(dir := s.dir[path := i], data := s.data[i := []])
  }

  // One read from the input: refuse it, or hash the part that fits.
  function TakeChunk(writer: Writer, chunk: seq<byte>): Writer {
    var n := Accepted(writer.cap, |writer.absorbed|, chunk);
    var input := writer.input + chunk;
    if n < |chunk| && !writer.truncate then writer.(pc := Rejecting, input := input)
    else writer.(input := input, absorbed := writer.absorbed + chunk[..n], pending := chunk[..n])
  }

  // Part of a write_all reaches the file, whether or not a path still leads to it.
  function WriteSome(s: State, w: nat, k: nat): State
    requires w in s.writers && k <= |s.writers[w].pending|
  {
    var writer := s.writers[w];
    var file := if writer.inode in s.data then s.data[writer.inode] else [];
    SetWriter(s, w, writer.(pending := writer.pending[k..]))
      .(data := s.data[writer.inode := file + writer.pending[..k]])
  }

  // A failed existence test counts as "absent".
  function AfterCheck(sha: Sha256, s: State, writer: Writer, failed: bool): Pc {
    if !failed && Target(sha, writer) in s.dir then Dropping else Renaming
  }

  function MoveIntoPlace(sha: Sha256, s: State, w: nat): State
    requires w in s.writers && Temp(s.writers[w]) in s.dir
  {
    var writer := s.writers[w];
    Goto(s, w, Cleaning)
      .(dir := (s.dir - {Temp(writer)})[Target(sha, writer) := s.dir[Temp(writer)]])
  }

  function ReadFurther(reader: Reader, file: seq<byte>, k: nat): Reader
    requires |reader.got| + k <= |file|
  {
    reader.(got := reader.got + file[|reader.got|..|reader.got| + k])
  }

  function SetReader(s: State, r: nat, reader: Reader): State {
    s.(readers := s.readers[r := reader])
  }

  ghost function Apply(sha: Sha256, s: State, step: Step): State
    requires Enabled(s, step)
  {
    match step
    case Spawn(pid) => s.(procs := s.procs[pid := 0])
    case Die(pid) => Kill(s, pid)
    case Begin(w, pid, cap, truncate) => Start(s, w, pid, cap, truncate)
    case Open(w, inode) => OpenTemp(s, w, inode)
    case Read(w, chunk) => SetWriter(s, w, TakeChunk(s.writers[w], chunk))
    case Write(w, k) => WriteSome(s, w, k)
    case Eof(w) => Goto(s, w, Syncing)
    case Fail(w) => Leave(s, w)
    case Reject(w, removed) => Leave(Unlink(s, Temp(s.writers[w]), removed), w)
    case Sync(w) => Goto(s, w, Checking)
    case Check(w, failed) => Goto(s, w, AfterCheck(sha, s, s.writers[w], failed))
    case Drop(w, removed) => Acknowledge(sha, Unlink(s, Temp(s.writers[w]), removed), w)
    case Rename(w) => MoveIntoPlace(sha, s, w)
    case Clean(w, removed) => Acknowledge(sha, Unlink(s, Temp(s.writers[w]), removed), w)
    case Sweep(path) => Unlink(s, path, true)
    case Fetch(r, digest) => SetReader(s, r, Reader(digest, s.dir[Shard(digest)], []))
    case FetchMore(r, k) => SetReader(s, r, ReadFurther(s.readers[r], s.data[s.readers[r].inode], k))
    case FetchEnd(r) => s.(readers := s.readers - {r})
  }

  function Acknowledge(sha: Sha256, s: State, w: nat): State
    requires w in s.writers
  {
    var Writer(_, _, cap, truncate, _, _, input, bytes, _) := s.writers[w];
    Leave(s, w).(acked := s.acked + {Ack(DigestOf(sha, bytes), bytes, input, cap, truncate)})
  }

  ghost predicate Legal(sha: Sha256, s: State, steps: seq<Step>)
    decreases |steps|
  {
    steps == [] || (Enabled(s, steps[0]) && Legal(sha, Apply(sha, s, steps[0]), steps[1..]))
  }

  ghost function Run(sha: Sha256, s: State, steps: seq<Step>): State
    requires Legal(sha, s, steps)
    decreases |steps|
  {
    if steps == [] then s else Run(sha, Apply(sha, s, steps[0]), steps[1..])
  }

  ghost predicate Reachable(sha: Sha256, s: State) {
    exists steps :: Legal(sha, Init(), steps) && Run(sha, Init(), steps) == s
  }

  // ---- The invariant ----------------------------------------------------------

  // The writer's file is its own: open, or closed and not yet moved away.
  predicate Owns(writer: Writer) {
    writer.pc !in {Opening, Cleaning}
  }

  // No two paths share a file.
  ghost predicate DirInv(s: State) {
    && (forall p | p in s.dir :: s.dir[p] in s.data)
    && (forall p, q | p in s.dir && q in s.dir && s.dir[p] == s.dir[q] :: p == q)
  }

  // Every file under a final path is complete: its name is its digest.
  ghost predicate ShardInv(sha: Sha256, s: State) {
    forall d | Shard(d) in s.dir ::
      s.dir[Shard(d)] in s.data && DigestOf(sha, s.data[s.dir[Shard(d)]]) == d
  }

  // What has been absorbed is what the policy keeps of the input so far, and a
  // writer is refused exactly when it must not cut and has read too much.
  predicate KeepsToPolicy(writer: Writer) {
    && Fits(writer.cap, writer.absorbed)
    && (writer.pc == Rejecting <==> !writer.truncate && !Fits(writer.cap, writer.input))
    && (writer.pc != Rejecting ==> writer.absorbed == Kept(writer.cap, writer.input))
  }

  // A writer's own file is reached through its temp path only, and holds what
  // the hasher has absorbed but for the part still to be written.
  ghost predicate FileInv(s: State, writer: Writer) {
    && writer.inode in s.data
    && s.data[writer.inode] + writer.pending == writer.absorbed
    && (Temp(writer) in s.dir ==> s.dir[Temp(writer)] == writer.inode)
    && (forall p | p in s.dir && s.dir[p] == writer.inode :: p == Temp(writer))
  }

  ghost predicate WriterInv(sha: Sha256, s: State, writer: Writer) {
    && writer.pid in s.procs && writer.ticket < s.procs[writer.pid] <= writer.ticket + TICKETS
    && KeepsToPolicy(writer)
    && (Owns(writer) ==> FileInv(s, writer))
    && (writer.pc == Opening ==> writer.absorbed == [] == writer.input)
    && (writer.pc != Copying ==> writer.pending == [])
    && (writer.pc in {Dropping, Cleaning} ==> Target(sha, writer) in s.dir)
  }

  ghost predicate WritersInv(sha: Sha256, s: State) {
    forall w | w in s.writers :: WriterInv(sha, s, s.writers[w])
  }

  predicate Apart(a: Writer, b: Writer) {
    && (a.pid == b.pid ==> a.ticket != b.ticket)
    && (Owns(a) && Owns(b) ==> a.inode != b.inode)
  }

  ghost predicate ApartInv(s: State) {
    forall v, w | v in s.writers && w in s.writers && v != w :: Apart(s.writers[v], s.writers[w])
  }

  // An open reader's file is final: complete, and out of every writer's reach.
  ghost predicate ReaderInv(sha: Sha256, s: State, reader: Reader) {
    && reader.inode in s.data
    && DigestOf(sha, s.data[reader.inode]) == reader.expected
    && reader.got <= s.data[reader.inode]
    && (forall p | p in s.dir && s.dir[p] == reader.inode :: p.Shard?)
    && (forall w | w in s.writers && Owns(s.writers[w]) :: s.writers[w].inode != reader.inode)
  }

  ghost predicate ReadersInv(sha: Sha256, s: State) {
    forall r | r in s.readers :: ReaderInv(sha, s, s.readers[r])
  }

  ghost predicate AckedInv(sha: Sha256, s: State) {
    forall a | a in s.acked ::
      && a.digest == DigestOf(sha, a.bytes) && Shard(a.digest) in s.dir
      && a.bytes == Kept(a.cap, a.input)
      && (!a.truncate ==> Fits(a.cap, a.input))
  }

  ghost predicate Inv(sha: Sha256, s: State) {
    && DirInv(s)
    && ShardInv(sha, s)
    && WritersInv(sha, s)
    && ApartInv(s)
    && ReadersInv(sha, s)
    && AckedInv(sha, s)
  }

  // ---- Preservation -------------------------------------------------------------

  lemma TempsDistinct(sha: Sha256, s: State, v: nat, w: nat)
    requires WritersInv(sha, s) && ApartInv(s)
    requires v in s.writers && w in s.writers && v != w
    ensures Temp(s.writers[v]) != Temp(s.writers[w])
  {
    var a, b := s.writers[v], s.writers[w];
    assert Apart(a, b) && WriterInv(sha, s, a) && WriterInv(sha, s, b);
  }

  lemma SameFileApart(s: State, w: nat, writer: Writer)
    requires ApartInv(s) && w in s.writers
    requires writer.pid == s.writers[w].pid && writer.ticket == s.writers[w].ticket
    requires writer.inode == s.writers[w].inode
    requires Owns(writer) ==> Owns(s.writers[w])
    ensures ApartInv(SetWriter(s, w, writer))
  {
    forall v | v in s.writers && v != w
      ensures Apart(s.writers[v], writer) && Apart(writer, s.writers[v])
    {
      assert Apart(s.writers[v], s.writers[w]);
    }
  }

  // Moving one writer along, its file and every path left alone.
  lemma WriterMoves(sha: Sha256, s: State, w: nat, writer: Writer)
    requires Inv(sha, s) && w in s.writers
    requires writer.pid == s.writers[w].pid && writer.ticket == s.writers[w].ticket
    requires writer.inode == s.writers[w].inode
    requires Owns(writer) ==> Owns(s.writers[w])
    requires WriterInv(sha, s, writer)
    ensures Inv(sha, SetWriter(s, w, writer))
  {
    var s' := SetWriter(s, w, writer);
    SameFileApart(s, w, writer);
    forall v | v in s'.writers ensures WriterInv(sha, s', s'.writers[v]) {
      assert WriterInv(sha, s, s'.writers[v]);
    }
    forall r | r in s'.readers ensures ReaderInv(sha, s', s'.readers[r]) {
      assert ReaderInv(sha, s, s.readers[r]);
    }
  }

  lemma WriterLeaves(sha: Sha256, s: State, w: nat)
    requires Inv(sha, s) && w in s.writers
    ensures Inv(sha, Leave(s, w))
  {
    var s' := Leave(s, w);
    forall v | v in s'.writers ensures WriterInv(sha, s', s'.writers[v]) {
      assert WriterInv(sha, s, s.writers[v]);
    }
    forall r | r in s'.readers ensures ReaderInv(sha, s', s'.readers[r]) {
      assert ReaderInv(sha, s, s.readers[r]);
    }
  }

  lemma PartialGoes(sha: Sha256, s: State, path: StorePath, removed: bool)
    requires Inv(sha, s) && path.Partial?
    ensures Inv(sha, Unlink(s, path, removed))
  {
    var s' := Unlink(s, path, removed);
    forall v | v in s'.writers ensures WriterInv(sha, s', s'.writers[v]) {
      assert WriterInv(sha, s, s.writers[v]);
    }
    forall r | r in s'.readers ensures ReaderInv(sha, s', s'.readers[r]) {
      assert ReaderInv(sha, s, s.readers[r]);
    }
  }

  lemma AckKeepsInv(sha: Sha256, s: State, w: nat)
    requires Inv(sha, s) && w in s.writers && Target(sha, s.writers[w]) in s.dir
    requires s.writers[w].pc in {Dropping, Cleaning}
    ensures Inv(sha, Acknowledge(sha, s, w))
  {
    assert WriterInv(sha, s, s.writers[w]);
    WriterLeaves(sha, s, w);
    var s1, s' := Leave(s, w), Acknowledge(sha, s, w);
    forall v | v in s'.writers ensures WriterInv(sha, s', s'.writers[v]) {
      assert WriterInv(sha, s1, s1.writers[v]);
    }
    forall r | r in s'.readers ensures ReaderInv(sha, s', s'.readers[r]) {
      assert ReaderInv(sha, s1, s1.readers[r]);
    }
  }

  lemma SpawnKeepsInv(sha: Sha256, s: State, pid: nat)
    requires Inv(sha, s) && pid !in s.procs
    ensures Inv(sha, s.(procs := s.procs[pid := 0]))
  {
    var s' := s.(procs := s.procs[pid := 0]);
    forall w | w in s'.writers ensures WriterInv(sha, s', s'.writers[w]) {
      assert WriterInv(sha, s, s.writers[w]);
    }
    forall r | r in s'.readers ensures ReaderInv(sha, s', s'.readers[r]) {
      assert ReaderInv(sha, s, s.readers[r]);
    }
  }

  lemma KillKeepsInv(sha: Sha256, s: State, pid: nat)
    requires Inv(sha, s)
    ensures Inv(sha, Kill(s, pid))
  {
    var s' := Kill(s, pid);
    forall w | w in s'.writers ensures WriterInv(sha, s', s'.writers[w]) {
      assert WriterInv(sha, s, s.writers[w]);
    }
    forall r | r in s'.readers ensures ReaderInv(sha, s', s'.readers[r]) {
      assert ReaderInv(sha, s, s.readers[r]);
    }
  }

  lemma StartKeepsApart(sha: Sha256, s: State, w: nat, pid: nat, cap: Option<nat>, truncate: bool)
    requires Inv(sha, s) && w !in s.writers && pid in s.procs
    ensures ApartInv(Start(s, w, pid, cap, truncate))
  {
    var s' := Start(s, w, pid, cap, truncate);
    forall v | v in s.writers ensures Apart(s.writers[v], s'.writers[w]) && Apart(s'.writers[w], s.writers[v]) {
      assert WriterInv(sha, s, s.writers[v]);
    }
  }

  lemma StartKeepsInv(sha: Sha256, s: State, w: nat, pid: nat, cap: Option<nat>, truncate: bool)
    requires Inv(sha, s) && w !in s.writers && pid in s.procs && TicketsFresh(s, pid)
    ensures Inv(sha, Start(s, w, pid, cap, truncate))
  {
    var s' := Start(s, w, pid, cap, truncate);
    StartKeepsApart(sha, s, w, pid, cap, truncate);
    forall v | v in s'.writers ensures WriterInv(sha, s', s'.writers[v]) {
      if v in s.writers {
        assert WriterInv(sha, s, s.writers[v]);
      }
    }
    forall r | r in s'.readers ensures ReaderInv(sha, s', s'.readers[r]) {
      assert ReaderInv(sha, s, s.readers[r]);
    }
  }

  // Opening empties a file that nobody else has: a temp name is taken by one
  // live writer only, and no final path leads to the same file.
  lemma OpenedFileIsPrivate(sha: Sha256, s: State, w: nat, fresh_: nat)
    requires Inv(sha, s) && w in s.writers && fresh_ !in s.data
    ensures var path := Temp(s.writers[w]);
      var i := if path in s.dir then s.dir[path] else fresh_;
      && (forall p | p in s.dir && p != path :: s.dir[p] != i)
      && (forall v | v in s.writers && v != w :: Temp(s.writers[v]) != path)
      && (forall v | v in s.writers && v != w && Owns(s.writers[v]) :: s.writers[v].inode != i)
      && (forall r | r in s.readers :: s.readers[r].inode != i)
  {
    forall v | v in s.writers && v != w
      ensures Temp(s.writers[v]) != Temp(s.writers[w])
    {
      TempsDistinct(sha, s, v, w);
    }
    assert forall v | v in s.writers :: WriterInv(sha, s, s.writers[v]);
    assert forall r | r in s.readers :: ReaderInv(sha, s, s.readers[r]);
  }

  lemma OpenKeepsOthers(sha: Sha256, s: State, w: nat, fresh_: nat)
    requires Inv(sha, s) && At(s, w, Opening) && fresh_ !in s.data
    ensures var s' := OpenTemp(s, w, fresh_);
      && (forall v | v in s.writers && v != w :: WriterInv(sha, s', s.writers[v]))
      && ReadersInv(sha, s')
  {
    var s' := OpenTemp(s, w, fresh_);
    OpenedFileIsPrivate(sha, s, w, fresh_);
    forall v | v in s.writers && v != w ensures WriterInv(sha, s', s.writers[v]) {
      assert WriterInv(sha, s, s.writers[v]);
    }
    forall r | r in s.readers ensures ReaderInv(sha, s', s'.readers[r]) {
      assert ReaderInv(sha, s, s.readers[r]);
    }
  }

  lemma OpenKeepsApart(sha: Sha256, s: State, w: nat, fresh_: nat)
    requires Inv(sha, s) && At(s, w, Opening) && fresh_ !in s.data
    ensures ApartInv(OpenTemp(s, w, fresh_))
  {
    var s' := OpenTemp(s, w, fresh_);
    OpenedFileIsPrivate(sha, s, w, fresh_);
    forall v | v in s.writers && v != w
      ensures Apart(s.writers[v], s'.writers[w]) && Apart(s'.writers[w], s.writers[v])
    {
      assert Apart(s.writers[v], s.writers[w]);
    }
  }

  lemma OpenKeepsDir(sha: Sha256, s: State, w: nat, fresh_: nat)
    requires Inv(sha, s) && At(s, w, Opening) && fresh_ !in s.data
    ensures var s' := OpenTemp(s, w, fresh_);
      DirInv(s') && ShardInv(sha, s') && AckedInv(sha, s') && WriterInv(sha, s', s'.writers[w])
  {
    var s' := OpenTemp(s, w, fresh_);
    OpenedFileIsPrivate(sha, s, w, fresh_);
    assert WriterInv(sha, s, s.writers[w]);
    assert s'.data[s'.writers[w].inode] + [] == [];
  }

  lemma OpenKeepsInv(sha: Sha256, s: State, w: nat, fresh_: nat)
    requires Inv(sha, s) && At(s, w, Opening) && fresh_ !in s.data
    ensures Inv(sha, OpenTemp(s, w, fresh_))
  {
    OpenKeepsOthers(sha, s, w, fresh_);
    OpenKeepsApart(sha, s, w, fresh_);
    OpenKeepsDir(sha, s, w, fresh_);
  }

  lemma TakeChunkKeepsInv(sha: Sha256, s: State, w: nat, chunk: seq<byte>)
    requires Inv(sha, s) && At(s, w, Copying) && s.writers[w].pending == []
    ensures Inv(sha, SetWriter(s, w, TakeChunk(s.writers[w], chunk)))
  {
    var writer := s.writers[w];
    assert WriterInv(sha, s, writer);
    AcceptedExtendsKept(writer.cap, writer.input, chunk);
    if !writer.truncate {
      AcceptedAllIff(writer.cap, writer.input, chunk);
    }
    WriterMoves(sha, s, w, TakeChunk(writer, chunk));
  }

  lemma WriteSomeKeepsApart(s: State, w: nat, k: nat)
    requires ApartInv(s) && At(s, w, Copying) && k <= |s.writers[w].pending|
    ensures ApartInv(WriteSome(s, w, k))
  {
    assert forall v | v in s.writers && v != w ::
        Apart(s.writers[v], s.writers[w]) && Apart(s.writers[w], s.writers[v]);
  }

  lemma WriteSomeKeepsInv(sha: Sha256, s: State, w: nat, k: nat)
    requires Inv(sha, s) && At(s, w, Copying) && k <= |s.writers[w].pending|
    ensures Inv(sha, WriteSome(s, w, k))
  {
    var s' := WriteSome(s, w, k);
    var writer := s.writers[w];
    assert WriterInv(sha, s, writer);
    var file, chunk := s.data[writer.inode], writer.pending;
    ConcatAssoc(file, chunk[..k], chunk[k..]);
    assert chunk == chunk[..k] + chunk[k..];
    WriteSomeKeepsApart(s, w, k);
    forall v | v in s'.writers ensures WriterInv(sha, s', s'.writers[v]) {
      assert WriterInv(sha, s, s.writers[v]);
      assert v != w ==> Apart(s.writers[v], writer);
    }
    forall r | r in s'.readers ensures ReaderInv(sha, s', s'.readers[r]) {
      assert ReaderInv(sha, s, s.readers[r]);
    }
  }

  lemma GotoKeepsInv(sha: Sha256, s: State, w: nat, pc: Pc)
    requires Inv(sha, s) && w in s.writers && s.writers[w].pending == []
    requires s.writers[w].pc in {Copying, Syncing, Checking} && pc in {Syncing, Checking, Dropping, Renaming}
    requires pc == Dropping ==> Target(sha, s.writers[w]) in s.dir
    ensures Inv(sha, Goto(s, w, pc))
  {
    assert WriterInv(sha, s, s.writers[w]);
    WriterMoves(sha, s, w, s.writers[w].(pc := pc));
  }

  lemma RenameKeepsWriters(sha: Sha256, s: State, w: nat)
    requires Inv(sha, s) && At(s, w, Renaming) && Temp(s.writers[w]) in s.dir
    ensures WritersInv(sha, MoveIntoPlace(sha, s, w))
  {
    var s' := MoveIntoPlace(sha, s, w);
    var writer := s.writers[w];
    assert WriterInv(sha, s, writer);
    forall v | v in s'.writers ensures WriterInv(sha, s', s'.writers[v]) {
      assert WriterInv(sha, s, s.writers[v]);
      assert v != w ==> Apart(s.writers[v], writer);
    }
  }

  lemma RenameKeepsApart(sha: Sha256, s: State, w: nat)
    requires ApartInv(s) && At(s, w, Renaming) && Temp(s.writers[w]) in s.dir
    ensures ApartInv(MoveIntoPlace(sha, s, w))
  {
    assert forall v | v in s.writers && v != w ::
        Apart(s.writers[v], s.writers[w]) && Apart(s.writers[w], s.writers[v]);
  }

  // The rename replaces whatever is under the final path, so two writers of
  // the same bytes may both pass the existence test: the second file has the
  // same digest as the first.
  lemma RenameKeepsInv(sha: Sha256, s: State, w: nat)
    requires Inv(sha, s) && At(s, w, Renaming) && Temp(s.writers[w]) in s.dir
    ensures Inv(sha, MoveIntoPlace(sha, s, w))
  {
    var s' := MoveIntoPlace(sha, s, w);
    var writer := s.writers[w];
    assert WriterInv(sha, s, writer);
    assert s.data[writer.inode] == writer.absorbed;
    RenameKeepsWriters(sha, s, w);
    RenameKeepsApart(sha, s, w);
    forall r | r in s.readers ensures ReaderInv(sha, s', s'.readers[r]) {
      assert ReaderInv(sha, s, s.readers[r]);
    }
  }

  lemma ReaderJoins(sha: Sha256, s: State, r: nat, reader: Reader)
    requires Inv(sha, s) && ReaderInv(sha, s, reader)
    ensures Inv(sha, SetReader(s, r, reader))
  {
    var s' := SetReader(s, r, reader);
    forall w | w in s'.writers ensures WriterInv(sha, s', s'.writers[w]) {
      assert WriterInv(sha, s, s.writers[w]);
    }
    forall q | q in s'.readers ensures ReaderInv(sha, s', s'.readers[q]) {
      assert ReaderInv(sha, s, s'.readers[q]);
    }
  }

  lemma ReaderLeaves(sha: Sha256, s: State, r: nat)
    requires Inv(sha, s)
    ensures Inv(sha, s.(readers := s.readers - {r}))
  {
    var s' := s.(readers := s.readers - {r});
    forall w | w in s'.writers ensures WriterInv(sha, s', s'.writers[w]) {
      assert WriterInv(sha, s, s.writers[w]);
    }
    forall q | q in s'.readers ensures ReaderInv(sha, s', s'.readers[q]) {
      assert ReaderInv(sha, s, s.readers[q]);
    }
  }

  lemma FetchKeepsInv(sha: Sha256, s: State, r: nat, digest: Sha256Hex)
    requires Inv(sha, s) && Shard(digest) in s.dir
    ensures Inv(sha, SetReader(s, r, Reader(digest, s.dir[Shard(digest)], [])))
  {
    var i := s.dir[Shard(digest)];
    forall w | w in s.writers && Owns(s.writers[w]) ensures s.writers[w].inode != i {
      assert WriterInv(sha, s, s.writers[w]);
    }
    ReaderJoins(sha, s, r, Reader(digest, i, []));
  }

  lemma ReadFurtherIsPrefix(reader: Reader, file: seq<byte>, k: nat)
    requires |reader.got| + k <= |file| && reader.got <= file
    ensures ReadFurther(reader, file, k).got <= file
  {
  }

  lemma FetchMoreKeepsInv(sha: Sha256, s: State, r: nat, k: nat)
    requires Inv(sha, s) && r in s.readers && s.readers[r].inode in s.data
    requires |s.readers[r].got| + k <= |s.data[s.readers[r].inode]|
    ensures Inv(sha, SetReader(s, r, ReadFurther(s.readers[r], s.data[s.readers[r].inode], k)))
  {
    var reader := s.readers[r];
    assert ReaderInv(sha, s, reader);
    ReadFurtherIsPrefix(reader, s.data[reader.inode], k);
    ReaderJoins(sha, s, r, ReadFurther(reader, s.data[reader.inode], k));
  }

  lemma LeaveKeepsInv(sha: Sha256, s: State, step: Step)
    requires Inv(sha, s) && Enabled(s, step)
    requires step.Fail? || step.Reject? || step.Drop? || step.Clean?
    ensures Inv(sha, Apply(sha, s, step))
  {
    var writer := s.writers[step.w];
    assert WriterInv(sha, s, writer);
    match step
    case Fail(w) => WriterLeaves(sha, s, w);
    case Reject(w, removed) =>
      PartialGoes(sha, s, Temp(writer), removed);
      WriterLeaves(sha, Unlink(s, Temp(writer), removed), w);
    case Drop(w, removed) =>
      PartialGoes(sha, s, Temp(writer), removed);
      AckKeepsInv(sha, Unlink(s, Temp(writer), removed), w);
    case Clean(w, removed) =>
      PartialGoes(sha, s, Temp(writer), removed);
      AckKeepsInv(sha, Unlink(s, Temp(writer), removed), w);
  }

  lemma GotoStepKeepsInv(sha: Sha256, s: State, step: Step)
    requires Inv(sha, s) && Enabled(s, step) && (step.Eof? || step.Sync? || step.Check?)
    ensures Inv(sha, Apply(sha, s, step))
  {
    assert WriterInv(sha, s, s.writers[step.w]);
    match step
    case Eof(w) => GotoKeepsInv(sha, s, w, Syncing);
    case Sync(w) => GotoKeepsInv(sha, s, w, Checking);
    case Check(w, failed) => GotoKeepsInv(sha, s, w, AfterCheck(sha, s, s.writers[w], failed));
  }

  predicate IsPutStep(step: Step) {
    step.Begin? || step.Open? || step.Read? || step.Write? || step.Rename?
  }

  lemma PutStepKeepsInv(sha: Sha256, s: State, step: Step)
    requires Inv(sha, s) && Enabled(s, step) && IsPutStep(step)
    ensures Inv(sha, Apply(sha, s, step))
  {
    match step
    case Begin(w, pid, cap, truncate) => StartKeepsInv(sha, s, w, pid, cap, truncate);
    case Open(w, inode) => OpenKeepsInv(sha, s, w, inode);
    case Read(w, chunk) => TakeChunkKeepsInv(sha, s, w, chunk);
    case Write(w, k) => WriteSomeKeepsInv(sha, s, w, k);
    case Rename(w) => RenameKeepsInv(sha, s, w);
  }

  lemma StepKeepsInv(sha: Sha256, s: State, step: Step)
    requires Inv(sha, s) && Enabled(s, step)
    ensures Inv(sha, Apply(sha, s, step))
  {
    if IsPutStep(step) {
      PutStepKeepsInv(sha, s, step);
    } else if step.Eof? || step.Sync? || step.Check? {
      GotoStepKeepsInv(sha, s, step);
    } else {
      match step
      case Spawn(pid) => SpawnKeepsInv(sha, s, pid);
      case Die(pid) => KillKeepsInv(sha, s, pid);
      case Sweep(path) => PartialGoes(sha, s, path, true);
      case Fetch(r, digest) => FetchKeepsInv(sha, s, r, digest);
      case FetchMore(r, k) => FetchMoreKeepsInv(sha, s, r, k);
      case FetchEnd(r) => ReaderLeaves(sha, s, r);
      case _ => LeaveKeepsInv(sha, s, step);
    }
  }

  lemma {:induction false} RunKeepsInv(sha: Sha256, s: State, steps: seq<Step>)
    requires Inv(sha, s) && Legal(sha, s, steps)
    ensures Inv(sha, Run(sha, s, steps))
    decreases |steps|
  {
    if steps != [] {
      StepKeepsInv(sha, s, steps[0]);
      RunKeepsInv(sha, Apply(sha, s, steps[0]), steps[1..]);
    }
  }

  lemma ReachableInv(sha: Sha256, s: State)
    requires Reachable(sha, s)
    ensures Inv(sha, s)
  {
    var steps :| Legal(sha, Init(), steps) && Run(sha, Init(), steps) == s;
    RunKeepsInv(sha, Init(), steps);
  }

  // ---- Main results ---------------------------------------------------------------

  // At every moment of every run, a file under a final path is complete, and
  // no writer still has it in hand.
  lemma FinalFilesAreComplete(sha: Sha256, s: State)
    requires Reachable(sha, s)
    ensures forall d | Shard(d) in s.dir ::
      && s.dir[Shard(d)] in s.data
      && DigestOf(sha, s.data[s.dir[Shard(d)]]) == d
      && forall w | w in s.writers && Owns(s.writers[w]) :: s.writers[w].inode != s.dir[Shard(d)]
  {
    ReachableInv(sha, s);
    forall d, w | Shard(d) in s.dir && w in s.writers && Owns(s.writers[w])
      ensures s.writers[w].inode != s.dir[Shard(d)]
    {
      assert WriterInv(sha, s, s.writers[w]);
    }
  }

  // Live writers never share a temp path, even across processes and even when
  // an orphan already sits under the name one of them takes.
  lemma LiveTempPathsDiffer(sha: Sha256, s: State, v: nat, w: nat)
    requires Reachable(sha, s) && v in s.writers && w in s.writers && v != w
    ensures Temp(s.writers[v]) != Temp(s.writers[w])
  {
    ReachableInv(sha, s);
    TempsDistinct(sha, s, v, w);
  }

  // A capped writer's file is within the cap at every step.
  lemma StagingStaysWithinCap(sha: Sha256, s: State, w: nat)
    requires Reachable(sha, s) && w in s.writers && Owns(s.writers[w]) && s.writers[w].cap.Some?
    ensures s.writers[w].inode in s.data
    ensures |s.data[s.writers[w].inode]| <= s.writers[w].cap.value
  {
    ReachableInv(sha, s);
    assert WriterInv(sha, s, s.writers[w]);
  }

  // A file that has appeared under a final path is there for good.
  lemma {:induction false} FinalPathsStay(sha: Sha256, s: State, steps: seq<Step>, d: Sha256Hex)
    requires Legal(sha, s, steps) && Shard(d) in s.dir
    ensures Shard(d) in Run(sha, s, steps).dir
    decreases |steps|
  {
    if steps != [] {
      FinalPathsStay(sha, Apply(sha, s, steps[0]), steps[1..], d);
    }
  }

  lemma ReachableExtends(sha: Sha256, s: State, steps: seq<Step>)
    requires Reachable(sha, s) && Legal(sha, s, steps)
    ensures Reachable(sha, Run(sha, s, steps))
  {
    var before :| Legal(sha, Init(), before) && Run(sha, Init(), before) == s;
    RunConcat(sha, Init(), before, steps);
  }

  lemma {:induction false} RunConcat(sha: Sha256, s: State, a: seq<Step>, b: seq<Step>)
    requires Legal(sha, s, a) && Legal(sha, Run(sha, s, a), b)
    ensures Legal(sha, s, a + b) && Run(sha, s, a + b) == Run(sha, Run(sha, s, a), b)
    decreases |a|
  {
    if a == [] {
      assert a + b == b;
    } else {
      assert (a + b)[1..] == a[1..] + b;
      RunConcat(sha, Apply(sha, s, a[0]), a[1..], b);
    }
  }

  lemma AckedContent(sha: Sha256, s: State, d: Sha256Hex, bytes: seq<byte>)
    requires ShardInv(sha, s) && Shard(d) in s.dir && d == DigestOf(sha, bytes)
    ensures s.dir[Shard(d)] in s.data
    ensures DigestOf(sha, s.data[s.dir[Shard(d)]]) == d
    ensures NoCollision(sha, s.data[s.dir[Shard(d)]], bytes) ==> s.data[s.dir[Shard(d)]] == bytes
  {
    var content := s.data[s.dir[Shard(d)]];
    if NoCollision(sha, content, bytes) {
      DigestSeparates(sha, content, bytes);
    }
  }

  lemma CanFetch(s: State, digest: Sha256Hex)
    requires Shard(digest) in s.dir && s.dir[Shard(digest)] in s.data
    ensures forall r | r !in s.readers :: Enabled(s, Fetch(r, digest))
  {
  }

  // Once a put has returned Ok, then after any further steps (other puts,
  // failures, process deaths, sweeps) the artifact is present, can be fetched,
  // and is what was put unless it collides with it.
  lemma OkIsForever(sha: Sha256, s: State, steps: seq<Step>, a: Ack)
    requires Reachable(sha, s) && Legal(sha, s, steps) && a in s.acked
    ensures var s', d, bytes := Run(sha, s, steps), a.digest, a.bytes;
      && Shard(d) in s'.dir && s'.dir[Shard(d)] in s'.data
      && (forall r | r !in s'.readers :: Enabled(s', Fetch(r, d)))
      && DigestOf(sha, s'.data[s'.dir[Shard(d)]]) == d == DigestOf(sha, bytes)
      && (NoCollision(sha, s'.data[s'.dir[Shard(d)]], bytes) ==> s'.data[s'.dir[Shard(d)]] == bytes)
  {
    ReachableInv(sha, s);
    FinalPathsStay(sha, s, steps, a.digest);
    ReachableExtends(sha, s, steps);
    var s' := Run(sha, s, steps);
    ReachableInv(sha, s');
    AckedContent(sha, s', a.digest, a.bytes);
    CanFetch(s', a.digest);
  }

  // Any process may die at any moment. Its puts end there; no file, no other
  // process and no other put is touched.
  lemma DeathTouchesNoFile(sha: Sha256, s: State, pid: nat)
    requires pid in s.procs
    ensures Enabled(s, Die(pid))
    ensures var s' := Apply(sha, s, Die(pid));
      && s'.dir == s.dir && s'.data == s.data && s'.readers == s.readers && s'.acked == s.acked
      && (forall p :: p in s'.procs <==> p in s.procs && p != pid)
      && (forall p | p in s'.procs :: s'.procs[p] == s.procs[p])
      && (forall w :: w in s'.writers <==> w in s.writers && s.writers[w].pid != pid)
      && (forall w | w in s'.writers :: s'.writers[w] == s.writers[w])
  {
  }

  // A rename needs the temp file and nothing else: it replaces whatever the
  // final path led to by then, and leaves every other path alone.
  lemma RenameReplaces(sha: Sha256, s: State, w: nat)
    requires At(s, w, Renaming) && Temp(s.writers[w]) in s.dir
    ensures Enabled(s, Rename(w))
    ensures var s', temp, target := Apply(sha, s, Rename(w)), Temp(s.writers[w]), Target(sha, s.writers[w]);
      && target in s'.dir && s'.dir[target] == s.dir[temp] && temp !in s'.dir
      && (forall p | p != temp && p != target ::
            (p in s'.dir <==> p in s.dir) && (p in s.dir ==> s'.dir[p] == s.dir[p]))
      && s'.data == s.data && At(s', w, Cleaning)
  {
  }

  // An input may break off, and an operation whose error is not ignored may
  // fail, at any time; the put ends there and its file stays where it is. A
  // write may stop after any part of what it has to write.
  lemma PutsMayFail(sha: Sha256, s: State, w: nat, k: nat)
    requires w in s.writers
    ensures s.writers[w].pc in {Opening, Copying, Syncing, Renaming} ==>
      Enabled(s, Fail(w)) && Apply(sha, s, Fail(w)) == s.(writers := s.writers - {w})
    ensures At(s, w, Copying) && 0 < k <= |s.writers[w].pending| ==>
      && Enabled(s, Write(w, k))
      && Apply(sha, s, Write(w, k)).writers[w].pending == s.writers[w].pending[k..]
  {
  }

  // Whatever chunks the input came in, an Ok truncating put has kept exactly
  // its first `limit` bytes, an Ok rejecting put all of it, within the cap; and
  // a put is on its way to a refusal exactly when it has read more than its cap.
  lemma PutsKeepToPolicy(sha: Sha256, s: State)
    requires Reachable(sha, s)
    ensures forall a | a in s.acked :: a.bytes == Kept(a.cap, a.input)
    ensures forall a | a in s.acked && !a.truncate :: Fits(a.cap, a.input) && a.bytes == a.input
    ensures forall w | w in s.writers ::
      At(s, w, Rejecting) <==> !s.writers[w].truncate && !Fits(s.writers[w].cap, s.writers[w].input)
  {
    ReachableInv(sha, s);
    assert forall w | w in s.writers :: WriterInv(sha, s, s.writers[w]);
  }

  // A fetch that reaches the end of its file, whatever went on meanwhile, has
  // read bytes with the digest it asked for.
  lemma FetchesVerify(sha: Sha256, s: State, r: nat)
    requires Reachable(sha, s) && r in s.readers
    ensures s.readers[r].inode in s.data
    ensures |s.readers[r].got| == |s.data[s.readers[r].inode]| ==>
      DigestOf(sha, s.readers[r].got) == s.readers[r].expected
  {
    ReachableInv(sha, s);
    var reader := s.readers[r];
    assert ReaderInv(sha, s, reader);
    assert |reader.got| == |s.data[reader.inode]| ==> reader.got == s.data[reader.inode];
  }
}

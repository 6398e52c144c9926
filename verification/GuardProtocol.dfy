// The per-job artifact budget of `artifact_guard.rs` under concurrency.
//
// Any number of threads call `try_record` on one guard. Every load,
// compare-exchange and fetch_sub of the two atomics is a step of its own, so
// a run is any interleaving of them. `log` is history, not state of the
// program: it lists the calls that got past the count check, in the order of
// the byte-counter access that decided them.
module GuardProtocol {
  import opened Prelude

  datatype Caps = Caps(maxCount: nat, maxBytes: nat)

  // The caps are a u32 and a u64.
  predicate ValidCaps(caps: Caps) {
    caps.maxCount <= U32_MAX && caps.maxBytes <= U64_MAX
  }

  datatype Outcome = Recorded | OverCount | OverBytes

  // Where a thread stands inside `try_record(n)`; idle threads are absent.
  datatype Pc =
    | LoadingCount(n: nat)
    | SwappingCount(n: nat, cur: nat)
    | LoadingBytes(n: nat)
    | SwappingBytes(n: nat, cur: nat, new_: nat)
    | RollingBack(n: nat)

  datatype Entry = Entry(n: nat, outcome: Outcome)

  datatype State = State(
    count: nat,
    bytes: nat,
    threads: map<nat, Pc>,
    log: seq<Entry>,
    calls: nat,
    countRejections: nat)

  datatype Step =
    | Call(t: nat, n: nat)
    | LoadCount(t: nat)
    | SwapCount(t: nat)
    | LoadBytes(t: nat)
    | SwapBytes(t: nat)
    | RollBack(t: nat)

  function Init(): State {
    State(0, 0, map[], [], 0, 0)
  }

  predicate Enabled(s: State, step: Step) {
    match step
    case Call(t, n) => t !in s.threads && n <= U64_MAX
    case LoadCount(t) => t in s.threads && s.threads[t].LoadingCount?
    case SwapCount(t) => t in s.threads && s.threads[t].SwappingCount?
    case LoadBytes(t) => t in s.threads && s.threads[t].LoadingBytes?
    case SwapBytes(t) => t in s.threads && s.threads[t].SwappingBytes?
    case RollBack(t) => t in s.threads && s.threads[t].RollingBack?
  }

  function Goto(s: State, t: nat, pc: Pc): State {
    s.(threads := s.threads[t := pc])
  }

  function Return(s: State, t: nat): State {
    s.(threads := s.threads - {t})
  }

  // AtomicU32::fetch_sub wraps around below zero.
  function FetchSub(count: nat): nat {
    if count == 0 then U32_MAX else count - 1
  }

  function Apply(caps: Caps, s: State, step: Step): State
    requires Enabled(s, step)
  {
    match step
    case Call(t, n) =>
      Goto(s, t, LoadingCount(n)).(calls := s.calls + 1)
    case LoadCount(t) =>
      var n := s.threads[t].n;
      if s.count >= caps.maxCount then
        Return(s, t).(countRejections := s.countRejections + 1)
      else
        Goto(s, t, SwappingCount(n, s.count))
    case SwapCount(t) =>
      var pc := s.threads[t];
      if s.count == pc.cur then
        Goto(s, t, LoadingBytes(pc.n)).(count := pc.cur + 1)
      else
        Goto(s, t, LoadingCount(pc.n))
    case LoadBytes(t) =>
      var n := s.threads[t].n;
      var sum := SaturatingAdd(s.bytes, n);
      if sum > caps.maxBytes then
        Goto(s, t, RollingBack(n)).(log := s.log + [Entry(n, OverBytes)])
      else
        Goto(s, t, SwappingBytes(n, s.bytes, sum))
    case SwapBytes(t) =>
      var pc := s.threads[t];
      if s.bytes == pc.cur then
        Return(s, t).(bytes := pc.new_, log := s.log + [Entry(pc.n, Recorded)])
      else
        Goto(s, t, LoadingBytes(pc.n))
    case RollBack(t) =>
      Return(s, t).(count := FetchSub(s.count))
  }

  // A run from `s`: every step is enabled where it is taken.
  predicate Legal(caps: Caps, s: State, steps: seq<Step>)
    decreases |steps|
  {
    steps == [] || (Enabled(s, steps[0]) && Legal(caps, Apply(caps, s, steps[0]), steps[1..]))
  }

  function Run(caps: Caps, s: State, steps: seq<Step>): State
    requires Legal(caps, s, steps)
    decreases |steps|
  {
    if steps == [] then s else Run(caps, Apply(caps, s, steps[0]), steps[1..])
  }

  ghost predicate Reachable(caps: Caps, s: State) {
    exists steps :: Legal(caps, Init(), steps) && Run(caps, Init(), steps) == s
  }

  // ---- What the counters mean ---------------------------------------------

  // Sizes of the recorded artifacts, in the order of their byte exchange.
  function Sizes(log: seq<Entry>): seq<nat> {
    if log == [] then []
    else
      var last := log[|log| - 1];
      Sizes(log[..|log| - 1]) + (if last.outcome.Recorded? then [last.n] else [])
  }

  function Sum(sizes: seq<nat>): nat {
    if sizes == [] then 0 else Sum(sizes[..|sizes| - 1]) + sizes[|sizes| - 1]
  }

  // Threads whose count slot is taken and not yet either kept or given back.
  predicate Holds(pc: Pc) {
    pc.LoadingBytes? || pc.SwappingBytes? || pc.RollingBack?
  }

  // Threads whose call has no outcome yet.
  predicate Undecided(pc: Pc) {
    !pc.RollingBack?
  }

  function Threads(s: State, where: Pc -> bool): set<nat> {
    set t | t in s.threads && where(s.threads[t])
  }

  function Holders(s: State): set<nat> {
    Threads(s, Holds)
  }

  predicate PcInv(caps: Caps, pc: Pc) {
    match pc
    case SwappingCount(n, cur) => n <= U64_MAX && cur < caps.maxCount
    case SwappingBytes(n, cur, new_) =>
      n <= U64_MAX && new_ == SaturatingAdd(cur, n) <= caps.maxBytes
    case _ => pc.n <= U64_MAX
  }

  ghost predicate Inv(caps: Caps, s: State) {
    && s.count == |Sizes(s.log)| + |Holders(s)|
    && s.count <= caps.maxCount
    && s.bytes == Min(Sum(Sizes(s.log)), U64_MAX)
    && s.bytes <= caps.maxBytes
    && s.calls == |s.log| + s.countRejections + |Threads(s, Undecided)|
    && (forall t | t in s.threads :: PcInv(caps, s.threads[t]))
    && Replays(caps, s.log)
  }

  // ---- The sequential guard, and replaying a log on it ----------------------

  datatype Usage = Usage(count: nat, bytes: nat)

  function Record(caps: Caps, u: Usage, n: nat): (Usage, Outcome) {
    if u.count >= caps.maxCount then (u, OverCount)
    else if SaturatingAdd(u.bytes, n) > caps.maxBytes then (u, OverBytes)
    else (Usage(u.count + 1, SaturatingAdd(u.bytes, n)), Recorded)
  }

  function UsageOf(log: seq<Entry>): Usage {
    Usage(|Sizes(log)|, Min(Sum(Sizes(log)), U64_MAX))
  }

  // Made one after the other on a fresh sequential guard, the logged calls
  // have exactly the logged outcomes and leave the logged usage behind.
  ghost predicate Replays(caps: Caps, log: seq<Entry>) {
    forall k | 0 <= k < |log| ::
      Record(caps, UsageOf(log[..k]), log[k].n) == (UsageOf(log[..k + 1]), log[k].outcome)
  }

  // ---- Preservation -----------------------------------------------------------

  lemma SizesSnoc(log: seq<Entry>, e: Entry)
    ensures Sizes(log + [e]) == if e.outcome.Recorded? then Sizes(log) + [e.n] else Sizes(log)
  {
    assert (log + [e])[..|log + [e]| - 1] == log;
  }

  lemma SumSnoc(sizes: seq<nat>, n: nat)
    ensures Sum(sizes + [n]) == Sum(sizes) + n
  {
    assert (sizes + [n])[..|sizes + [n]| - 1] == sizes;
  }

  lemma ReplaysSnoc(caps: Caps, log: seq<Entry>, e: Entry)
    requires Replays(caps, log)
    requires Record(caps, UsageOf(log), e.n) == (UsageOf(log + [e]), e.outcome)
    ensures Replays(caps, log + [e])
  {
    var longer := log + [e];
    forall k | 0 <= k < |longer|
      ensures Record(caps, UsageOf(longer[..k]), longer[k].n) == (UsageOf(longer[..k + 1]), longer[k].outcome)
    {
      if k < |log| {
        assert longer[..k] == log[..k] && longer[..k + 1] == log[..k + 1];
      } else {
        assert longer[..k] == log && longer[..k + 1] == longer;
      }
    }
  }

  function Weight(s: State, t: nat, where: Pc -> bool): nat {
    if t in s.threads && where(s.threads[t]) then 1 else 0
  }

  lemma CountAfterGoto(s: State, t: nat, pc: Pc, where: Pc -> bool)
    ensures |Threads(Goto(s, t, pc), where)| ==
      |Threads(s, where)| - Weight(s, t, where) + (if where(pc) then 1 else 0)
  {
    var s' := Goto(s, t, pc);
    if where(pc) {
      assert Threads(s', where) == Threads(s, where) + {t};
    } else {
      assert Threads(s', where) == Threads(s, where) - {t};
    }
  }

  lemma CountAfterReturn(s: State, t: nat, where: Pc -> bool)
    requires t in s.threads
    ensures |Threads(Return(s, t), where)| == |Threads(s, where)| - Weight(s, t, where)
  {
    assert Threads(Return(s, t), where) == Threads(s, where) - {t};
  }

  // Only `threads` matters to the thread counts.
  lemma SameThreads(s: State, s': State)
    requires s.threads == s'.threads
    ensures Threads(s, Holds) == Threads(s', Holds)
    ensures Threads(s, Undecided) == Threads(s', Undecided)
  {
  }

  lemma CountsAfterGoto(s: State, t: nat, pc: Pc, s': State)
    requires s'.threads == s.threads[t := pc]
    ensures |Holders(s')| == |Holders(s)| - Weight(s, t, Holds) + (if Holds(pc) then 1 else 0)
    ensures |Threads(s', Undecided)| ==
      |Threads(s, Undecided)| - Weight(s, t, Undecided) + (if Undecided(pc) then 1 else 0)
  {
    CountAfterGoto(s, t, pc, Holds);
    CountAfterGoto(s, t, pc, Undecided);
    SameThreads(s', Goto(s, t, pc));
  }

  lemma CountsAfterReturn(s: State, t: nat, s': State)
    requires t in s.threads && s'.threads == s.threads - {t}
    ensures |Holders(s')| == |Holders(s)| - Weight(s, t, Holds)
    ensures |Threads(s', Undecided)| == |Threads(s, Undecided)| - Weight(s, t, Undecided)
  {
    CountAfterReturn(s, t, Holds);
    CountAfterReturn(s, t, Undecided);
    SameThreads(s', Return(s, t));
  }

  lemma HolderCounts(s: State, t: nat)
    requires t in s.threads && Holds(s.threads[t])
    ensures |Holders(s)| >= 1
  {
    assert t in Holders(s);
  }

  lemma StepLoadBytes(caps: Caps, s: State, t: nat)
    requires Inv(caps, s) && Enabled(s, LoadBytes(t))
    ensures Inv(caps, Apply(caps, s, LoadBytes(t)))
  {
    var n, s' := s.threads[t].n, Apply(caps, s, LoadBytes(t));
    HolderCounts(s, t);
    CountsAfterGoto(s, t, s'.threads[t], s');
    if s'.threads[t].RollingBack? {
      SizesSnoc(s.log, Entry(n, OverBytes));
      ReplaysSnoc(caps, s.log, Entry(n, OverBytes));
    }
  }

  lemma RecordedUsage(log: seq<Entry>, n: nat)
    ensures var longer := log + [Entry(n, Recorded)];
      && Sizes(longer) == Sizes(log) + [n]
      && Sum(Sizes(longer)) == Sum(Sizes(log)) + n
      && UsageOf(longer) == Usage(|Sizes(log)| + 1, Min(Sum(Sizes(log)) + n, U64_MAX))
  {
    SizesSnoc(log, Entry(n, Recorded));
    SumSnoc(Sizes(log), n);
  }

  lemma RecordedReplays(caps: Caps, log: seq<Entry>, n: nat)
    requires Replays(caps, log) && n <= U64_MAX
    requires |Sizes(log)| < caps.maxCount
    requires SaturatingAdd(Min(Sum(Sizes(log)), U64_MAX), n) <= caps.maxBytes
    ensures Replays(caps, log + [Entry(n, Recorded)])
  {
    RecordedUsage(log, n);
    ReplaysSnoc(caps, log, Entry(n, Recorded));
  }

  lemma SwapRecords(caps: Caps, s: State, t: nat)
    requires Inv(caps, s) && Enabled(s, SwapBytes(t)) && s.bytes == s.threads[t].cur
    ensures Inv(caps, Apply(caps, s, SwapBytes(t)))
  {
    var n := s.threads[t].n;
    HolderCounts(s, t);
    RecordedUsage(s.log, n);
    RecordedReplays(caps, s.log, n);
    CountsAfterReturn(s, t, Apply(caps, s, SwapBytes(t)));
  }

  lemma StepSwapBytes(caps: Caps, s: State, t: nat)
    requires Inv(caps, s) && Enabled(s, SwapBytes(t))
    ensures Inv(caps, Apply(caps, s, SwapBytes(t)))
  {
    if s.bytes == s.threads[t].cur {
      SwapRecords(caps, s, t);
    } else {
      CountsAfterGoto(s, t, LoadingBytes(s.threads[t].n), Apply(caps, s, SwapBytes(t)));
    }
  }

  lemma StepOther(caps: Caps, s: State, step: Step)
    requires Inv(caps, s) && Enabled(s, step)
    requires !step.LoadBytes? && !step.SwapBytes?
    ensures Inv(caps, Apply(caps, s, step))
  {
    var t, s' := step.t, Apply(caps, s, step);
    if t in s'.threads {
      CountsAfterGoto(s, t, s'.threads[t], s');
    } else {
      CountsAfterReturn(s, t, s');
    }
    if step.RollBack? {
      HolderCounts(s, t);
    }
  }

  lemma StepKeepsInv(caps: Caps, s: State, step: Step)
    requires Inv(caps, s) && Enabled(s, step)
    ensures Inv(caps, Apply(caps, s, step))
  {
    match step
    case LoadBytes(t) => StepLoadBytes(caps, s, t);
    case SwapBytes(t) => StepSwapBytes(caps, s, t);
    case _ => StepOther(caps, s, step);
  }

  lemma {:induction false} RunKeepsInv(caps: Caps, s: State, steps: seq<Step>)
    requires Inv(caps, s) && Legal(caps, s, steps)
    ensures Inv(caps, Run(caps, s, steps))
    decreases |steps|
  {
    if steps != [] {
      StepKeepsInv(caps, s, steps[0]);
      RunKeepsInv(caps, Apply(caps, s, steps[0]), steps[1..]);
    }
  }

  lemma ReachableInv(caps: Caps, s: State)
    requires Reachable(caps, s)
    ensures Inv(caps, s)
  {
    var steps :| Legal(caps, Init(), steps) && Run(caps, Init(), steps) == s;
    RunKeepsInv(caps, Init(), steps);
  }

  // ---- Main results ---------------------------------------------------------

  // No interleaving overshoots a cap, and a roll-back never wraps around.
  lemma CapsHold(caps: Caps, s: State)
    requires Reachable(caps, s)
    ensures s.count <= caps.maxCount && s.bytes <= caps.maxBytes
    ensures s.count == |Sizes(s.log)| + |Holders(s)|
    ensures forall t | Enabled(s, RollBack(t)) :: Apply(caps, s, RollBack(t)).count == s.count - 1
  {
    ReachableInv(caps, s);
    forall t | Enabled(s, RollBack(t))
      ensures Apply(caps, s, RollBack(t)).count == s.count - 1
    {
      HolderCounts(s, t);
    }
  }

  // Between calls the counters are the number and total size of the recorded
  // artifacts, and every call made has been decided.
  lemma QuiescentUsage(caps: Caps, s: State)
    requires Reachable(caps, s) && s.threads == map[]
    ensures s.count == |Sizes(s.log)|
    ensures s.bytes == Min(Sum(Sizes(s.log)), U64_MAX)
    ensures caps.maxBytes < U64_MAX ==> s.bytes == Sum(Sizes(s.log))
    ensures s.calls == |s.log| + s.countRejections
  {
    ReachableInv(caps, s);
    assert Holders(s) == {} && Threads(s, Undecided) == {};
  }

  // The calls that pass the count check linearize at their byte access: the
  // sequential guard, given them in that order, decides every one the same.
  lemma LoggedCallsLinearize(caps: Caps, s: State)
    requires Reachable(caps, s)
    ensures Replays(caps, s.log)
  {
    ReachableInv(caps, s);
  }

  // A byte check refuses exactly when the recorded bytes leave no room.
  lemma ByteRejectionIff(caps: Caps, s: State, t: nat)
    requires ValidCaps(caps) && Reachable(caps, s) && Enabled(s, LoadBytes(t))
    ensures Apply(caps, s, LoadBytes(t)).threads[t].RollingBack? <==>
      caps.maxBytes < U64_MAX && Sum(Sizes(s.log)) + s.threads[t].n > caps.maxBytes
  {
    ReachableInv(caps, s);
  }

  // A count check refuses exactly when every slot is recorded or held. Whether
  // the sequential guard would refuse at that instant depends on the holders:
  // the two agree if and only if nobody is between the two checks.
  lemma CountRejectionIff(caps: Caps, s: State, t: nat)
    requires Reachable(caps, s) && Enabled(s, LoadCount(t))
    ensures t !in Apply(caps, s, LoadCount(t)).threads <==>
      |Sizes(s.log)| + |Holders(s)| == caps.maxCount
    ensures t !in Apply(caps, s, LoadCount(t)).threads ==>
      (Record(caps, UsageOf(s.log), s.threads[t].n).1 == OverCount <==> Holders(s) == {})
  {
    ReachableInv(caps, s);
  }

  // So a count rejection need not be one any sequential order would give:
  // thread 1 is refused the only slot, held by thread 0, which then gives it
  // back. Alone, before or after thread 0, its 5 bytes would be recorded.
  lemma CountRejectionIsNotSequential(caps: Caps, steps: seq<Step>)
    requires caps == Caps(1, 10)
    requires steps == [Call(0, 11), LoadCount(0), SwapCount(0), Call(1, 5), LoadCount(1),
                       LoadBytes(0), RollBack(0)]
    ensures Legal(caps, Init(), steps)
    ensures Run(caps, Init(), steps) == State(0, 0, map[], [Entry(11, OverBytes)], 2, 1)
    ensures Record(caps, Usage(0, 0), 11) == (Usage(0, 0), OverBytes)
    ensures Record(caps, Usage(0, 0), 5) == (Usage(1, 5), Recorded)
    ensures Record(caps, Usage(1, 5), 11).0 == Usage(1, 5)
  {
    var s1 := Apply(caps, Init(), steps[0]);
    var s2 := Apply(caps, s1, steps[1]);
    var s3 := Apply(caps, s2, steps[2]);
    var s4 := Apply(caps, s3, steps[3]);
    var s5 := Apply(caps, s4, steps[4]);
    var s6 := Apply(caps, s5, steps[5]);
    var s7 := Apply(caps, s6, steps[6]);
    assert s7 == State(0, 0, map[], [Entry(11, OverBytes)], 2, 1);
    LegalCons(caps, s6, steps[6], []);
    LegalCons(caps, s5, steps[5], [steps[6]]);
    LegalCons(caps, s4, steps[4], steps[5..]);
    LegalCons(caps, s3, steps[3], steps[4..]);
    LegalCons(caps, s2, steps[2], steps[3..]);
    LegalCons(caps, s1, steps[1], steps[2..]);
    LegalCons(caps, Init(), steps[0], steps[1..]);
  }

  lemma LegalCons(caps: Caps, s: State, step: Step, rest: seq<Step>)
    requires Enabled(s, step) && Legal(caps, Apply(caps, s, step), rest)
    ensures Legal(caps, s, [step] + rest)
    ensures Run(caps, s, [step] + rest) == Run(caps, Apply(caps, s, step), rest)
  {
    assert ([step] + rest)[1..] == rest;
  }

  lemma {:induction false} LegalSnoc(caps: Caps, s: State, steps: seq<Step>, step: Step)
    requires Legal(caps, s, steps) && Enabled(Run(caps, s, steps), step)
    ensures Legal(caps, s, steps + [step])
    ensures Run(caps, s, steps + [step]) == Apply(caps, Run(caps, s, steps), step)
    decreases |steps|
  {
    if steps == [] {
      assert steps + [step] == [step];
      assert [step][1..] == [];
    } else {
      assert (steps + [step])[1..] == steps[1..] + [step];
      LegalSnoc(caps, Apply(caps, s, steps[0]), steps[1..], step);
    }
  }

  // ---- What one call does -----------------------------------------------------

  // A load that does not decide the call reads the counter and nothing else.
  lemma LoadsAreCurrent(caps: Caps, s: State, t: nat)
    ensures Enabled(s, LoadCount(t)) && s.count < caps.maxCount ==>
      Apply(caps, s, LoadCount(t)) == s.(threads := s.threads[t := SwappingCount(s.threads[t].n, s.count)])
    ensures Enabled(s, LoadBytes(t)) && SaturatingAdd(s.bytes, s.threads[t].n) <= caps.maxBytes ==>
      var s', n := Apply(caps, s, LoadBytes(t)), s.threads[t].n;
      && t in s'.threads && s'.threads[t].SwappingBytes?
      && s'.threads[t].n == n && s'.threads[t].cur == s.bytes
      && s' == s.(threads := s.threads[t := s'.threads[t]])
  {
  }

  // The exchange of the count goes through if and only if the count is still
  // what was loaded; otherwise nothing changes and the thread loads again.
  lemma CountSwapIff(caps: Caps, s: State, t: nat)
    requires Enabled(s, SwapCount(t))
    ensures var s', pc := Apply(caps, s, SwapCount(t)), s.threads[t];
      && (s.count == pc.cur <==> s'.count == s.count + 1)
      && (s.count == pc.cur <==> s'.threads == s.threads[t := LoadingBytes(pc.n)])
      && (s.count != pc.cur <==> s' == s.(threads := s.threads[t := LoadingCount(pc.n)]))
      && s'.bytes == s.bytes && s'.log == s.log && s'.countRejections == s.countRejections
  {
    var pc := s.threads[t];
    assert s.threads[t := LoadingBytes(pc.n)][t] == LoadingBytes(pc.n);
    assert s.threads[t := LoadingCount(pc.n)][t] == LoadingCount(pc.n);
  }

  // The exchange of the bytes goes through if and only if they are still what
  // was loaded: then the call returns, recorded, and the bytes have become the
  // saturated sum.
  lemma BytesSwapIff(caps: Caps, s: State, t: nat)
    requires Reachable(caps, s) && Enabled(s, SwapBytes(t))
    ensures var s', pc := Apply(caps, s, SwapBytes(t)), s.threads[t];
      && (s.bytes == pc.cur <==> s'.log == s.log + [Entry(pc.n, Recorded)])
      && (s.bytes == pc.cur <==> t !in s'.threads)
      && (s.bytes == pc.cur ==> s'.bytes == (if s.bytes + pc.n < U64_MAX then s.bytes + pc.n else U64_MAX))
      && (s.bytes != pc.cur <==> s' == s.(threads := s.threads[t := LoadingBytes(pc.n)]))
      && s'.count == s.count && s'.countRejections == s.countRejections
  {
    ReachableInv(caps, s);
    assert PcInv(caps, s.threads[t]);
    assert |s.log + [Entry(s.threads[t].n, Recorded)]| == |s.log| + 1;
  }

  // What a call of n bytes that finds these counters does to them, and how it
  // comes out.
  ghost predicate Decides(caps: Caps, s: State, s': State, n: nat, outcome: Outcome) {
    && (outcome == OverCount <==> s.count >= caps.maxCount)
    && (outcome == OverBytes <==> s.count < caps.maxCount && s.bytes + n > caps.maxBytes && caps.maxBytes < U64_MAX)
    && s'.count == (if outcome == Recorded then s.count + 1 else s.count)
    && s'.bytes == (if outcome == Recorded then (if s.bytes + n < U64_MAX then s.bytes + n else U64_MAX) else s.bytes)
    && s'.log == (if outcome == OverCount then s.log else s.log + [Entry(n, outcome)])
    && s'.countRejections == (if outcome == OverCount then s.countRejections + 1 else s.countRejections)
  }

  // From any reachable state, with any other calls in flight, an idle thread's
  // call that is left undisturbed is a legal run. It returns, with the outcome
  // and the counters of the sequential guard for the counters it finds.
  lemma CallIsARun(caps: Caps, s: State, t: nat, n: nat) returns (steps: seq<Step>, outcome: Outcome)
    requires ValidCaps(caps) && Reachable(caps, s) && t !in s.threads && n <= U64_MAX
    ensures Legal(caps, s, steps) && forall step | step in steps :: step.t == t
    ensures var s' := Run(caps, s, steps);
      && s'.threads == s.threads && s'.calls == s.calls + 1
      && Decides(caps, s, s', n, outcome)
      && (Usage(s'.count, s'.bytes), outcome) == Record(caps, Usage(s.count, s.bytes), n)
  {
    ReachableInv(caps, s);
    var called := Apply(caps, s, Call(t, n));
    if s.count >= caps.maxCount {
      outcome := OverCount;
      steps := [Call(t, n)] + [LoadCount(t)];
      LegalCons(caps, called, LoadCount(t), []);
      LegalCons(caps, s, Call(t, n), [LoadCount(t)]);
    } else {
      var rest: seq<Step>;
      rest, outcome := SlotIsUsed(caps, s, t, n);
      var loaded := Apply(caps, called, LoadCount(t));
      LegalCons(caps, loaded, SwapCount(t), rest);
      LegalCons(caps, called, LoadCount(t), [SwapCount(t)] + rest);
      LegalCons(caps, s, Call(t, n), [LoadCount(t)] + ([SwapCount(t)] + rest));
      steps := [Call(t, n)] + ([LoadCount(t)] + ([SwapCount(t)] + rest));
    }
  }

  // The state in which the call has just taken its slot.
  function SlotTaken(s: State, t: nat, n: nat): State {
    s.(calls := s.calls + 1, count := s.count + 1, threads := s.threads[t := LoadingBytes(n)])
  }

  lemma SlotIsUsed(caps: Caps, s: State, t: nat, n: nat) returns (rest: seq<Step>, outcome: Outcome)
    requires ValidCaps(caps) && t !in s.threads && n <= U64_MAX
    requires s.bytes <= caps.maxBytes && s.count < caps.maxCount
    ensures var called := Apply(caps, s, Call(t, n));
      Apply(caps, Apply(caps, called, LoadCount(t)), SwapCount(t)) == SlotTaken(s, t, n)
    ensures Legal(caps, SlotTaken(s, t, n), rest) && forall step | step in rest :: step.t == t
    ensures var s' := Run(caps, SlotTaken(s, t, n), rest);
      && s'.threads == s.threads && s'.calls == s.calls + 1
      && Decides(caps, s, s', n, outcome)
      && (Usage(s'.count, s'.bytes), outcome) == Record(caps, Usage(s.count, s.bytes), n)
  {
    var taken := SlotTaken(s, t, n);
    assert s.threads[t := LoadingCount(n)][t := SwappingCount(n, s.count)][t := LoadingBytes(n)] == taken.threads;
    var checked := Apply(caps, taken, LoadBytes(t));
    if SaturatingAdd(s.bytes, n) > caps.maxBytes {
      outcome := OverBytes;
      rest := [LoadBytes(t)] + [RollBack(t)];
      assert s.threads[t := LoadingBytes(n)][t := RollingBack(n)] - {t} == s.threads;
      LegalCons(caps, checked, RollBack(t), []);
      LegalCons(caps, taken, LoadBytes(t), [RollBack(t)]);
    } else {
      outcome := Recorded;
      rest := [LoadBytes(t)] + [SwapBytes(t)];
      assert checked.threads - {t} == s.threads;
      LegalCons(caps, checked, SwapBytes(t), []);
      LegalCons(caps, taken, LoadBytes(t), [SwapBytes(t)]);
    }
  }

  // ---- Failed exchanges -------------------------------------------------------

  datatype Counter = CountOf | BytesOf

  function Value(s: State, c: Counter): nat {
    if c.CountOf? then s.count else s.bytes
  }

  // Thread t has loaded `cur` from counter c and is about to exchange it.
  predicate Swapping(s: State, t: nat, c: Counter, cur: nat) {
    && t in s.threads
    && (c.CountOf? ==> s.threads[t].SwappingCount? && s.threads[t].cur == cur)
    && (c.BytesOf? ==> s.threads[t].SwappingBytes? && s.threads[t].cur == cur)
  }

  // If t's exchange is going to fail, some other thread has written that very
  // counter since t loaded it: at step k, over the value t loaded.
  lemma {:induction false} FailedSwapHasWitness(caps: Caps, s: State, steps: seq<Step>, t: nat, c: Counter)
      returns (k: nat)
    requires Legal(caps, s, steps) && Swapping(s, t, c, Value(s, c))
    requires forall step | step in steps :: step.t != t
    requires Value(Run(caps, s, steps), c) != Value(s, c)
    ensures k < |steps| && steps[k].t != t
    ensures Legal(caps, s, steps[..k]) && Enabled(Run(caps, s, steps[..k]), steps[k])
    ensures var before := Run(caps, s, steps[..k]);
      Value(before, c) == Value(s, c) != Value(Apply(caps, before, steps[k]), c)
    decreases |steps|
  {
    var s1 := Apply(caps, s, steps[0]);
    if Value(s1, c) != Value(s, c) {
      k := 0;
    } else {
      assert Swapping(s1, t, c, Value(s1, c));
      var j := FailedSwapHasWitness(caps, s1, steps[1..], t, c);
      k := j + 1;
      assert steps[..k] == [steps[0]] + steps[1..][..j];
      LegalCons(caps, s, steps[0], steps[1..][..j]);
    }
  }
}

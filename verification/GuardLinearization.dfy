// Which histories of GuardProtocol a sequential guard could have produced.
//
// The history of a run notes for every call when it was made, when the access
// that decided it took place, and when it returned. Calls that got past the
// count check always have a place in a sequential order; refusals for count
// need not, and the conditions under which they do are the results here.
module GuardLinearization {
  import opened Prelude
  import opened GuardProtocol

  // A decided call. Times are positions in the run; a call is known by the
  // time at which it was made.
  datatype Op = Op(id: nat, n: nat, outcome: Outcome, decided: nat)

  // `log` and `refused` are in the order of the deciding access.
  datatype History = History(
    now: nat,
    current: map<nat, nat>,
    log: seq<Op>,
    refused: seq<Op>,
    returned: map<nat, nat>)

  function Start(): History {
    History(0, map[], [], [], map[])
  }

  predicate SameThreadIds(s: State, h: History) {
    h.current.Keys == s.threads.Keys
  }

  // The call that the step decides by its byte access, if any.
  function LoggedBy(caps: Caps, s: State, h: History, step: Step): seq<Op>
    requires Enabled(s, step) && SameThreadIds(s, h)
  {
    var log := Apply(caps, s, step).log;
    if |log| == |s.log| then []
    else var e := log[|s.log|]; [Op(h.current[step.t], e.n, e.outcome, h.now)]
  }

  // The call that the step refuses for count, if any.
  function RefusedBy(caps: Caps, s: State, h: History, step: Step): seq<Op>
    requires Enabled(s, step) && SameThreadIds(s, h)
  {
    if Apply(caps, s, step).countRejections == s.countRejections then []
    else [Op(h.current[step.t], s.threads[step.t].n, OverCount, h.now)]
  }

  function CallsAfter(caps: Caps, s: State, h: History, step: Step): History
    requires Enabled(s, step) && SameThreadIds(s, h)
  {
    var t := step.t;
    if step.Call? then h.(current := h.current[t := h.now])
    else if t in Apply(caps, s, step).threads then h
    else h.(current := h.current - {t}, returned := h.returned[h.current[t] := h.now])
  }

  // What one step adds to the history.
  function Observe(caps: Caps, s: State, h: History, step: Step): (h': History)
    requires Enabled(s, step) && SameThreadIds(s, h)
    ensures SameThreadIds(Apply(caps, s, step), h')
  {
    CallsAfter(caps, s, h, step).(
      now := h.now + 1,
      log := h.log + LoggedBy(caps, s, h, step),
      refused := h.refused + RefusedBy(caps, s, h, step))
  }

  function ObserveRun(caps: Caps, s: State, h: History, steps: seq<Step>): (h': History)
    requires Legal(caps, s, steps) && SameThreadIds(s, h)
    ensures SameThreadIds(Run(caps, s, steps), h')
    decreases |steps|
  {
    if steps == [] then h
    else ObserveRun(caps, Apply(caps, s, steps[0]), Observe(caps, s, h, steps[0]), steps[1..])
  }

  // Some run from the start leads to this state with this history.
  ghost predicate Traced(caps: Caps, s: State, h: History) {
    exists steps :: Legal(caps, Init(), steps)
      && Run(caps, Init(), steps) == s && ObserveRun(caps, Init(), Start(), steps) == h
  }

  // ---- Sequential orders -----------------------------------------------------------

  // Call a returned before call b was made.
  predicate Precedes(h: History, a: Op, b: Op) {
    a.id in h.returned && h.returned[a.id] < b.id
  }

  function UsageAfter(caps: Caps, ops: seq<Op>): Usage {
    if ops == [] then Usage(0, 0)
    else Record(caps, UsageAfter(caps, ops[..|ops| - 1]), ops[|ops| - 1].n).0
  }

  // Given these calls one after the other, the sequential guard decides each
  // of them as it was decided.
  ghost predicate Sequential(caps: Caps, ops: seq<Op>) {
    forall k | 0 <= k < |ops| ::
      Record(caps, UsageAfter(caps, ops[..k]), ops[k].n).1 == ops[k].outcome
  }

  predicate Distinct(ops: seq<Op>) {
    forall i, j | 0 <= i < j < |ops| :: ops[i] != ops[j]
  }

  function SetOf(ops: seq<Op>): set<Op> {
    set o | o in ops
  }

  // Each of the chosen calls once, none before one that had returned when it
  // was made, decided as on a sequential guard.
  ghost predicate Linearizes(caps: Caps, h: History, chosen: set<Op>, order: seq<Op>) {
    && Distinct(order) && SetOf(order) == chosen
    && (forall i, j | 0 <= i < j < |order| :: !Precedes(h, order[j], order[i]))
    && Sequential(caps, order)
  }

  function AllOps(h: History): set<Op> {
    SetOf(h.log) + SetOf(h.refused)
  }

  function RecordedIn(ops: seq<Op>): set<Op> {
    set o | o in ops && o.outcome == Recorded
  }

  // ---- The invariant of histories ------------------------------------------------------

  predicate InOrder(ops: seq<Op>) {
    forall i, j | 0 <= i < j < |ops| :: ops[i].decided < ops[j].decided
  }

  // The call was made, decided and returned in that order, in the past.
  predicate Timely(h: History, op: Op) {
    && op.id < op.decided < h.now
    && (op.id in h.returned ==> op.decided <= h.returned[op.id])
    && (op.outcome != OverBytes ==> op.id in h.returned && op.decided == h.returned[op.id])
  }

  predicate Matches(ops: seq<Op>, log: seq<Entry>) {
    |ops| == |log| && forall k | 0 <= k < |ops| :: ops[k].n == log[k].n && ops[k].outcome == log[k].outcome
  }

  ghost predicate CurrentInv(h: History) {
    && (forall t | t in h.current :: h.current[t] < h.now && h.current[t] !in h.returned)
    && (forall t, u | t in h.current && u in h.current && t != u :: h.current[t] != h.current[u])
    && (forall id | id in h.returned :: id < h.now && h.returned[id] < h.now)
  }

  ghost predicate HistoryInv(s: State, h: History) {
    && SameThreadIds(s, h)
    && CurrentInv(h)
    && Matches(h.log, s.log) && |h.refused| == s.countRejections
    && InOrder(h.log) && InOrder(h.refused)
    && (forall op | op in h.log :: Timely(h, op) && op.outcome != OverCount)
    && (forall op | op in h.refused :: Timely(h, op) && op.outcome == OverCount)
  }

  lemma ObserveKeepsCurrent(caps: Caps, s: State, h: History, step: Step)
    requires HistoryInv(s, h) && Enabled(s, step)
    ensures CurrentInv(Observe(caps, s, h, step))
  {
  }

  // What was noted before stays timely.
  lemma ObserveKeepsTimely(caps: Caps, s: State, h: History, step: Step, op: Op)
    requires HistoryInv(s, h) && Enabled(s, step) && Timely(h, op)
    ensures Timely(Observe(caps, s, h, step), op)
  {
  }

  lemma InOrderSnoc(h: History, ops: seq<Op>, op: Op)
    requires InOrder(ops) && (forall o | o in ops :: Timely(h, o)) && op.decided == h.now
    ensures InOrder(ops + [op])
  {
    forall i, j | 0 <= i < j < |ops + [op]|
      ensures (ops + [op])[i].decided < (ops + [op])[j].decided
    {
      assert ops[i] in ops;
    }
  }

  // What a step adds is timely.
  lemma ObserveAddsTimely(caps: Caps, s: State, h: History, step: Step)
    requires HistoryInv(s, h) && Enabled(s, step)
    ensures var s', h' := Apply(caps, s, step), Observe(caps, s, h, step);
      && Matches(h'.log, s'.log) && |h'.refused| == s'.countRejections
      && (forall op | op in LoggedBy(caps, s, h, step) ::
            Timely(h', op) && op.decided == h.now && op.outcome != OverCount)
      && (forall op | op in RefusedBy(caps, s, h, step) ::
            Timely(h', op) && op.decided == h.now && op.outcome == OverCount)
  {
  }

  lemma ObserveKeepsInv(caps: Caps, s: State, h: History, step: Step)
    requires HistoryInv(s, h) && Enabled(s, step)
    ensures HistoryInv(Apply(caps, s, step), Observe(caps, s, h, step))
  {
    var h' := Observe(caps, s, h, step);
    ObserveKeepsCurrent(caps, s, h, step);
    ObserveAddsTimely(caps, s, h, step);
    forall op | Timely(h, op)
      ensures Timely(h', op)
    {
      ObserveKeepsTimely(caps, s, h, step, op);
    }
    if LoggedBy(caps, s, h, step) != [] {
      InOrderSnoc(h, h.log, LoggedBy(caps, s, h, step)[0]);
    }
    if RefusedBy(caps, s, h, step) != [] {
      InOrderSnoc(h, h.refused, RefusedBy(caps, s, h, step)[0]);
    }
  }

  // No call is decided twice.
  ghost predicate OneOpEach(s: State, h: History)
    requires SameThreadIds(s, h)
  {
    && (forall op, op' | op in AllOps(h) && op' in AllOps(h) && op.id == op'.id :: op == op')
    && (forall t, op | t in s.threads && op in AllOps(h) && op.id == h.current[t] :: s.threads[t].RollingBack?)
  }

  lemma AddedIsCurrent(caps: Caps, s: State, h: History, step: Step)
    requires SameThreadIds(s, h) && Enabled(s, step)
    ensures var s', t := Apply(caps, s, step), step.t;
      var logged, refused := LoggedBy(caps, s, h, step), RefusedBy(caps, s, h, step);
      && (logged != [] ==> refused == [])
      && forall op | op in logged || op in refused ::
          && t in s.threads && !s.threads[t].RollingBack? && op.id == h.current[t]
          && (t in s'.threads ==> s'.threads[t].RollingBack?)
          && (op in logged ==> Holds(s.threads[t]))
  {
  }

  lemma CurrentStays(caps: Caps, s: State, h: History, step: Step)
    requires SameThreadIds(s, h) && Enabled(s, step)
    ensures var s', h' := Apply(caps, s, step), Observe(caps, s, h, step);
      forall t | t in s'.threads ::
        if t in s.threads then
          h'.current[t] == h.current[t] && (s.threads[t].RollingBack? ==> s'.threads[t].RollingBack?)
        else
          h'.current[t] == h.now && s'.threads[t].LoadingCount?
  {
  }

  lemma ObserveKeepsOneOpEach(caps: Caps, s: State, h: History, step: Step)
    requires HistoryInv(s, h) && OneOpEach(s, h) && Enabled(s, step)
    ensures OneOpEach(Apply(caps, s, step), Observe(caps, s, h, step))
  {
    var s', h' := Apply(caps, s, step), Observe(caps, s, h, step);
    AddedIsCurrent(caps, s, h, step);
    CurrentStays(caps, s, h, step);
    var logged, refused := LoggedBy(caps, s, h, step), RefusedBy(caps, s, h, step);
    forall op | op in AllOps(h')
      ensures op in AllOps(h) || op in logged || op in refused
    {
    }
    forall t, op | t in s'.threads && op in AllOps(h') && op.id == h'.current[t]
      ensures s'.threads[t].RollingBack?
    {
      if op in AllOps(h) {
        assert Timely(h, op);
      }
    }
  }

  // A decided call has returned or is on its way.
  ghost predicate NoneIsLost(h: History) {
    forall op | op in AllOps(h) :: op.id in h.returned || op.id in h.current.Values
  }

  lemma ObserveLosesNone(caps: Caps, s: State, h: History, step: Step)
    requires HistoryInv(s, h) && NoneIsLost(h) && Enabled(s, step)
    ensures NoneIsLost(Observe(caps, s, h, step))
  {
    var s', h' := Apply(caps, s, step), Observe(caps, s, h, step);
    AddedIsCurrent(caps, s, h, step);
    forall id | id in h.returned || id in h.current.Values
      ensures id in h'.returned || id in h'.current.Values
    {
      if t :| t in h.current && h.current[t] == id {
        assert t in s'.threads ==> h'.current[t] == id;
        assert t !in s'.threads ==> id in h'.returned;
      }
    }
    forall op | op in AllOps(h')
      ensures op.id in h.returned || op.id in h.current.Values
    {
      assert op in AllOps(h) || op in LoggedBy(caps, s, h, step) || op in RefusedBy(caps, s, h, step);
    }
  }

  ghost predicate FullInv(caps: Caps, s: State, h: History) {
    && Inv(caps, s) && HistoryInv(s, h) && OneOpEach(s, h)
    && NobodyGivesBack(caps, s, h) && NoneIsLost(h)
  }

  // While nobody is refused for bytes, slots are never given back. So once a
  // call has been refused for count, the slots are with calls made before.
  ghost predicate NobodyGivesBack(caps: Caps, s: State, h: History)
    requires SameThreadIds(s, h)
  {
    NoByteRefusal(s) ==>
      && (forall t | t in s.threads :: !s.threads[t].RollingBack?)
      && (forall r | r in h.refused :: s.count == caps.maxCount && SlotsTakenBefore(s, h, r.decided))
  }

  predicate NoByteRefusal(s: State) {
    forall e | e in s.log :: e.outcome != OverBytes
  }

  ghost predicate SlotsTakenBefore(s: State, h: History, time: nat)
    requires SameThreadIds(s, h)
  {
    && (forall op | op in h.log :: op.id < time)
    && (forall t | t in s.threads && Holds(s.threads[t]) :: h.current[t] < time)
  }

  // With all slots taken and none given back, no further call gets one.
  lemma SlotsStay(caps: Caps, s: State, h: History, step: Step)
    requires Inv(caps, s) && HistoryInv(s, h) && Enabled(s, step)
    requires s.count == caps.maxCount && forall t | t in s.threads :: !s.threads[t].RollingBack?
    ensures Apply(caps, s, step).count == caps.maxCount
    ensures forall t | t in Apply(caps, s, step).threads && Holds(Apply(caps, s, step).threads[t]) ::
      t in s.threads && Holds(s.threads[t])
  {
    assert step.t in s.threads ==> PcInv(caps, s.threads[step.t]);
  }

  lemma ObserveKeepsNobodyGivesBack(caps: Caps, s: State, h: History, step: Step)
    requires Inv(caps, s) && HistoryInv(s, h) && NobodyGivesBack(caps, s, h) && Enabled(s, step)
    ensures NobodyGivesBack(caps, Apply(caps, s, step), Observe(caps, s, h, step))
  {
    var s', h' := Apply(caps, s, step), Observe(caps, s, h, step);
    AddedIsCurrent(caps, s, h, step);
    CurrentStays(caps, s, h, step);
    if NoByteRefusal(s') {
      NoneGivesBack(caps, s, step);
      forall r | r in h'.refused
        ensures s'.count == caps.maxCount && SlotsTakenBefore(s', h', r.decided)
      {
        if r in h.refused {
          SlotsStay(caps, s, h, step);
        } else {
          NewRefusal(caps, s, h, step);
        }
      }
    }
  }

  lemma NoneGivesBack(caps: Caps, s: State, step: Step)
    requires Enabled(s, step) && NoByteRefusal(Apply(caps, s, step))
    requires NoByteRefusal(s) ==> forall t | t in s.threads :: !s.threads[t].RollingBack?
    ensures NoByteRefusal(s)
    ensures forall t | t in Apply(caps, s, step).threads :: !Apply(caps, s, step).threads[t].RollingBack?
  {
    var s' := Apply(caps, s, step);
    assert s.log <= s'.log;
    assert forall e | e in s.log :: e in s'.log;
    assert |s'.log| > |s.log| ==> s'.log[|s.log|] in s'.log;
  }

  lemma NewRefusal(caps: Caps, s: State, h: History, step: Step)
    requires Inv(caps, s) && HistoryInv(s, h) && Enabled(s, step)
    requires RefusedBy(caps, s, h, step) != []
    ensures Apply(caps, s, step).count == caps.maxCount
    ensures SlotsTakenBefore(Apply(caps, s, step), Observe(caps, s, h, step), h.now)
  {
    AddedIsCurrent(caps, s, h, step);
    CurrentStays(caps, s, h, step);
    assert forall op | op in h.log :: Timely(h, op);
  }

  lemma {:induction false} RunKeepsFullInv(caps: Caps, s: State, h: History, steps: seq<Step>)
    requires FullInv(caps, s, h) && Legal(caps, s, steps)
    ensures FullInv(caps, Run(caps, s, steps), ObserveRun(caps, s, h, steps))
    decreases |steps|
  {
    if steps != [] {
      StepKeepsInv(caps, s, steps[0]);
      ObserveKeepsInv(caps, s, h, steps[0]);
      ObserveKeepsOneOpEach(caps, s, h, steps[0]);
      ObserveKeepsNobodyGivesBack(caps, s, h, steps[0]);
      ObserveLosesNone(caps, s, h, steps[0]);
      RunKeepsFullInv(caps, Apply(caps, s, steps[0]), Observe(caps, s, h, steps[0]), steps[1..]);
    }
  }

  lemma StartIsFull(caps: Caps)
    ensures FullInv(caps, Init(), Start())
  {
    assert Holders(Init()) == {} && Threads(Init(), Undecided) == {};
  }

  lemma TracedInv(caps: Caps, s: State, h: History)
    requires Traced(caps, s, h)
    ensures FullInv(caps, s, h)
  {
    var steps :| Legal(caps, Init(), steps)
      && Run(caps, Init(), steps) == s && ObserveRun(caps, Init(), Start(), steps) == h;
    StartIsFull(caps);
    RunKeepsFullInv(caps, Init(), Start(), steps);
  }

  // ---- Counting the recorded calls ----------------------------------------------------------

  lemma InOrderIsDistinct(ops: seq<Op>)
    requires InOrder(ops)
    ensures Distinct(ops)
  {
  }

  lemma RecordedInSnoc(ops: seq<Op>, op: Op)
    requires Distinct(ops + [op])
    ensures Distinct(ops) && op !in ops
    ensures RecordedIn(ops + [op]) == RecordedIn(ops) + (if op.outcome == Recorded then {op} else {})
    ensures |RecordedIn(ops + [op])| == |RecordedIn(ops)| + (if op.outcome == Recorded then 1 else 0)
  {
    var longer := ops + [op];
    assert forall i | 0 <= i < |ops| :: longer[i] == ops[i] && longer[i] != longer[|ops|];
    assert longer[|ops|] == op;
  }

  lemma {:induction false} RecordedAreSizes(ops: seq<Op>, log: seq<Entry>)
    requires Distinct(ops) && Matches(ops, log)
    ensures |RecordedIn(ops)| == |Sizes(log)|
  {
    if ops != [] {
      var n := |ops| - 1;
      assert ops == ops[..n] + [ops[n]] && log == log[..n] + [log[n]];
      RecordedInSnoc(ops[..n], ops[n]);
      SizesSnoc(log[..n], log[n]);
      RecordedAreSizes(ops[..n], log[..n]);
    } else {
      assert RecordedIn(ops) == {};
    }
  }

  lemma SequentialPrefix(caps: Caps, ops: seq<Op>, k: nat)
    requires Sequential(caps, ops) && Distinct(ops) && k <= |ops|
    ensures Sequential(caps, ops[..k]) && Distinct(ops[..k])
  {
    forall i | 0 <= i < k
      ensures Record(caps, UsageAfter(caps, ops[..k][..i]), ops[..k][i].n).1 == ops[..k][i].outcome
    {
      assert ops[..k][..i] == ops[..i];
    }
  }

  // On a sequential guard the count is the number of recorded calls.
  lemma {:induction false} CountAfter(caps: Caps, ops: seq<Op>)
    requires Sequential(caps, ops) && Distinct(ops)
    ensures UsageAfter(caps, ops).count == |RecordedIn(ops)|
  {
    if ops != [] {
      var n := |ops| - 1;
      SequentialPrefix(caps, ops, n);
      CountAfter(caps, ops[..n]);
      TakeSnoc(ops, n);
      CountSnoc(caps, ops[..n], ops[n], ops);
    } else {
      assert RecordedIn(ops) == {};
    }
  }

  lemma UsageAfterSnoc(caps: Caps, ops: seq<Op>, op: Op)
    ensures UsageAfter(caps, ops + [op]) == Record(caps, UsageAfter(caps, ops), op.n).0
  {
    assert (ops + [op])[..|ops|] == ops;
  }

  lemma CountSnoc(caps: Caps, ops: seq<Op>, op: Op, longer: seq<Op>)
    requires longer == ops + [op] && Distinct(longer) && UsageAfter(caps, ops).count == |RecordedIn(ops)|
    requires Record(caps, UsageAfter(caps, ops), op.n).1 == op.outcome
    ensures UsageAfter(caps, longer).count == |RecordedIn(longer)|
  {
    RecordedInSnoc(ops, op);
    UsageAfterSnoc(caps, ops, op);
  }

  lemma SubsetOfSameSize(a: set<Op>, b: set<Op>)
    requires a <= b && |a| >= |b|
    ensures a == b
  {
    assert b == a + (b - a);
  }

  // ---- From a sequential order to the condition ----------------------------------------------

  // None of the calls that got past the count check was made after r returned.
  ghost predicate NoneMadeAfter(h: History, chosen: set<Op>, r: Op) {
    forall x | x in chosen && x.outcome != OverCount :: !Precedes(h, r, x)
  }

  ghost predicate Chosen(h: History, chosen: set<Op>) {
    RecordedIn(h.log) <= chosen <= AllOps(h)
  }

  lemma RefusedAfterFull(caps: Caps, order: seq<Op>, recorded: set<Op>, k: nat)
    requires Sequential(caps, order) && Distinct(order) && k < |order|
    requires order[k].outcome == OverCount
    requires RecordedIn(order) <= recorded && |recorded| <= caps.maxCount
    ensures |recorded| == caps.maxCount && RecordedIn(order[..k]) == recorded
  {
    SequentialPrefix(caps, order, k);
    CountAfter(caps, order[..k]);
    assert RecordedIn(order[..k]) <= RecordedIn(order);
    assert Record(caps, UsageAfter(caps, order[..k]), order[k].n).1 == OverCount;
    SubsetOfSameSize(RecordedIn(order[..k]), recorded);
  }

  lemma NothingAfterFull(caps: Caps, order: seq<Op>, k: nat, j: nat)
    requires Sequential(caps, order) && Distinct(order) && k <= j < |order|
    requires |RecordedIn(order[..k])| >= caps.maxCount
    ensures order[j].outcome == OverCount
  {
    SequentialPrefix(caps, order, k);
    SequentialPrefix(caps, order, j);
    CountAfter(caps, order[..j]);
    assert RecordedIn(order[..k]) <= RecordedIn(order[..j]) by {
      assert forall i | 0 <= i < k :: order[..k][i] == order[..j][i];
    }
    CardinalMonotone(RecordedIn(order[..k]), RecordedIn(order[..j]));
    assert Record(caps, UsageAfter(caps, order[..j]), order[j].n).1 == order[j].outcome;
  }

  lemma CardinalMonotone(a: set<Op>, b: set<Op>)
    requires a <= b
    ensures |a| <= |b|
  {
    assert b == a + (b - a);
  }

  lemma At(order: seq<Op>, chosen: set<Op>, op: Op) returns (k: nat)
    requires SetOf(order) == chosen && op in chosen
    ensures k < |order| && order[k] == op
  {
    assert op in SetOf(order);
    k :| k < |order| && order[k] == op;
  }

  lemma RecordedInOrder(h: History, chosen: set<Op>, order: seq<Op>)
    requires Chosen(h, chosen) && SetOf(order) == chosen
    requires forall op | op in h.refused :: op.outcome == OverCount
    ensures RecordedIn(order) == RecordedIn(h.log)
  {
    assert forall o :: o in order <==> o in chosen;
  }

  lemma OrderGivesCondition(caps: Caps, s: State, h: History, chosen: set<Op>, order: seq<Op>, r: Op)
    requires FullInv(caps, s, h) && Chosen(h, chosen) && Linearizes(caps, h, chosen, order)
    requires r in chosen && r.outcome == OverCount
    ensures |RecordedIn(h.log)| == caps.maxCount && NoneMadeAfter(h, chosen, r)
  {
    RecordedCount(caps, s, h);
    RecordedInOrder(h, chosen, order);
    var k := At(order, chosen, r);
    RefusedAfterFull(caps, order, RecordedIn(h.log), k);
    forall x | x in chosen && x.outcome != OverCount
      ensures !Precedes(h, r, x)
    {
      var j := At(order, chosen, x);
      if j >= k {
        NothingAfterFull(caps, order, k, j);
      }
    }
  }

  lemma RecordedCount(caps: Caps, s: State, h: History)
    requires FullInv(caps, s, h)
    ensures |RecordedIn(h.log)| == |Sizes(s.log)| <= caps.maxCount
  {
    InOrderIsDistinct(h.log);
    RecordedAreSizes(h.log, s.log);
  }

  // ---- From the condition to a sequential order -------------------------------------------------

  // The chosen calls, in the order given.
  function Pick(ops: seq<Op>, chosen: set<Op>): seq<Op> {
    if ops == [] then []
    else
      var n := |ops| - 1;
      if ops[n] in chosen then Pick(ops[..n], chosen) + [ops[n]] else Pick(ops[..n], chosen)
  }

  lemma {:induction false} PickSpec(ops: seq<Op>, chosen: set<Op>)
    requires InOrder(ops)
    ensures SetOf(Pick(ops, chosen)) == SetOf(ops) * chosen
    ensures InOrder(Pick(ops, chosen))
  {
    if ops != [] {
      var n := |ops| - 1;
      PickSpec(ops[..n], chosen);
      assert ops == ops[..n] + [ops[n]];
      assert forall o :: o in Pick(ops[..n], chosen) <==> o in SetOf(ops[..n]) * chosen;
      assert forall o | o in ops[..n] :: o.decided < ops[n].decided;
      PickLast(Pick(ops[..n], chosen), ops[n]);
    }
  }

  lemma PickLast(ops: seq<Op>, op: Op)
    requires InOrder(ops) && forall o | o in ops :: o.decided < op.decided
    ensures InOrder(ops + [op]) && SetOf(ops + [op]) == SetOf(ops) + {op}
  {
    assert forall i | 0 <= i < |ops| :: ops[i] in ops;
  }

  lemma SequentialSnoc(caps: Caps, ops: seq<Op>, op: Op)
    requires Sequential(caps, ops)
    requires Record(caps, UsageAfter(caps, ops), op.n).1 == op.outcome
    ensures Sequential(caps, ops + [op])
    ensures UsageAfter(caps, ops + [op]) == Record(caps, UsageAfter(caps, ops), op.n).0
  {
    var longer := ops + [op];
    UsageAfterSnoc(caps, ops, op);
    assert longer[..|ops|] == ops;
    forall k | 0 <= k < |longer|
      ensures Record(caps, UsageAfter(caps, longer[..k]), longer[k].n).1 == longer[k].outcome
    {
      assert k < |ops| ==> longer[..k] == ops[..k];
    }
  }

  // Calls refused for bytes leave no trace, so any of them may be left out.
  lemma {:induction false} PickedReplays(caps: Caps, ops: seq<Op>, log: seq<Entry>, chosen: set<Op>)
    requires Matches(ops, log) && Replays(caps, log) && RecordedIn(ops) <= chosen
    requires forall op | op in ops :: op.outcome != OverCount
    ensures Sequential(caps, Pick(ops, chosen))
    ensures UsageAfter(caps, Pick(ops, chosen)) == UsageOf(log)
  {
    if ops != [] {
      var n := |ops| - 1;
      var front, entries := ops[..n], log[..n];
      forall k | 0 <= k < n
        ensures Record(caps, UsageOf(entries[..k]), entries[k].n) == (UsageOf(entries[..k + 1]), entries[k].outcome)
      {
        assert entries[..k] == log[..k] && entries[..k + 1] == log[..k + 1];
      }
      assert ops[n] in ops && log[..n + 1] == log;
      PickedReplays(caps, front, entries, chosen);
      assert Record(caps, UsageOf(entries), ops[n].n) == (UsageOf(log), ops[n].outcome);
      if ops[n] in chosen {
        SequentialSnoc(caps, Pick(front, chosen), ops[n]);
      }
    }
  }

  // A full guard refuses everything that is left.
  lemma {:induction false} RefusedReplay(caps: Caps, ops: seq<Op>, refused: seq<Op>)
    requires Sequential(caps, ops) && UsageAfter(caps, ops).count >= caps.maxCount
    requires forall op | op in refused :: op.outcome == OverCount
    ensures Sequential(caps, ops + refused) && UsageAfter(caps, ops + refused) == UsageAfter(caps, ops)
  {
    if refused == [] {
      assert ops + refused == ops;
    } else {
      var n := |refused| - 1;
      RefusedReplay(caps, ops, refused[..n]);
      assert ops + refused == (ops + refused[..n]) + [refused[n]];
      SequentialSnoc(caps, ops + refused[..n], refused[n]);
    }
  }

  // The later of two decided calls did not return before the earlier was made.
  lemma DecidedOrder(h: History, a: Op, b: Op)
    requires Timely(h, a) && Timely(h, b) && a.decided < b.decided
    ensures !Precedes(h, b, a)
  {
  }

  lemma PairsInOrder(h: History, ops: seq<Op>, refused: seq<Op>)
    requires InOrder(ops) && InOrder(refused)
    requires forall op | op in ops || op in refused :: Timely(h, op)
    requires forall x, r | x in ops && r in refused :: !Precedes(h, r, x)
    requires SetOf(ops) !! SetOf(refused)
    ensures Distinct(ops + refused)
    ensures var order := ops + refused;
      forall i, j | 0 <= i < j < |order| :: !Precedes(h, order[j], order[i])
  {
    var order := ops + refused;
    forall i, j | 0 <= i < j < |order|
      ensures order[i] != order[j] && !Precedes(h, order[j], order[i])
    {
      if j < |ops| {
        assert order[i] in ops && order[j] in ops;
        DecidedOrder(h, ops[i], ops[j]);
      } else if |ops| <= i {
        assert order[i] in refused && order[j] in refused;
        DecidedOrder(h, order[i], order[j]);
      } else {
        assert order[i] in SetOf(ops) && order[j] in SetOf(refused);
      }
    }
  }

  // The calls that got past the count check, in the order of their byte
  // access, and then the refusals in the order of their load.
  function InPlace(h: History, chosen: set<Op>): seq<Op> {
    Pick(h.log, chosen) + Pick(h.refused, chosen)
  }

  // Either no refusal for count is chosen, or all slots end up with calls none
  // of which, nor any refused for bytes, was made after such a refusal.
  ghost predicate RefusalsFit(caps: Caps, h: History, chosen: set<Op>) {
    forall r | r in chosen && r.outcome == OverCount ::
      |RecordedIn(h.log)| == caps.maxCount && NoneMadeAfter(h, chosen, r)
  }

  lemma InPlaceIsSequential(caps: Caps, s: State, h: History, chosen: set<Op>)
    requires FullInv(caps, s, h) && Chosen(h, chosen) && RefusalsFit(caps, h, chosen)
    ensures Sequential(caps, InPlace(h, chosen))
  {
    var refused := Pick(h.refused, chosen);
    PickSpec(h.refused, chosen);
    PickedReplays(caps, h.log, s.log, chosen);
    RecordedCount(caps, s, h);
    assert forall op | op in refused :: op in SetOf(refused);
    if refused == [] {
      assert InPlace(h, chosen) == Pick(h.log, chosen);
    } else {
      assert refused[0] in refused;
      RefusedReplay(caps, Pick(h.log, chosen), refused);
    }
  }

  lemma ConditionGivesOrder(caps: Caps, s: State, h: History, chosen: set<Op>)
    requires FullInv(caps, s, h) && Chosen(h, chosen) && RefusalsFit(caps, h, chosen)
    ensures Linearizes(caps, h, chosen, InPlace(h, chosen))
  {
    var ops, refused := Pick(h.log, chosen), Pick(h.refused, chosen);
    PickSpec(h.log, chosen);
    PickSpec(h.refused, chosen);
    assert forall op | op in ops :: op in SetOf(ops);
    assert forall op | op in refused :: op in SetOf(refused);
    PairsInOrder(h, ops, refused);
    InPlaceIsSequential(caps, s, h, chosen);
    assert SetOf(ops + refused) == SetOf(ops) + SetOf(refused);
  }

  // ---- Main results ---------------------------------------------------------------------------

  // Take any set of the decided calls that leaves out no recorded one. It has a
  // sequential order that respects what came before what, if and only if its
  // refusals for count fit.
  lemma LinearizesIff(caps: Caps, s: State, h: History, chosen: set<Op>)
    requires Traced(caps, s, h) && Chosen(h, chosen)
    ensures (exists order :: Linearizes(caps, h, chosen, order)) <==> RefusalsFit(caps, h, chosen)
  {
    TracedInv(caps, s, h);
    if order :| Linearizes(caps, h, chosen, order) {
      forall r | r in chosen && r.outcome == OverCount
        ensures |RecordedIn(h.log)| == caps.maxCount && NoneMadeAfter(h, chosen, r)
      {
        OrderGivesCondition(caps, s, h, chosen, order, r);
      }
    }
    if RefusalsFit(caps, h, chosen) {
      ConditionGivesOrder(caps, s, h, chosen);
    }
  }

  // A single refusal for count has a place among the recorded calls if and
  // only if maxCount of the calls made before it returned end up recorded.
  lemma RefusalHasPlaceIff(caps: Caps, s: State, h: History, r: Op)
    requires Traced(caps, s, h) && r in h.refused
    ensures (exists order :: Linearizes(caps, h, RecordedIn(h.log) + {r}, order)) <==>
      |set x | x in RecordedIn(h.log) && !Precedes(h, r, x)| == caps.maxCount
  {
    TracedInv(caps, s, h);
    RecordedCount(caps, s, h);
    LinearizesIff(caps, s, h, RecordedIn(h.log) + {r});
    OneRefusalFitsIff(caps, h, RecordedIn(h.log), r);
  }

  lemma OneRefusalFitsIff(caps: Caps, h: History, recorded: set<Op>, r: Op)
    requires recorded == RecordedIn(h.log) && |recorded| <= caps.maxCount && r.outcome == OverCount
    ensures RefusalsFit(caps, h, recorded + {r}) <==>
      |set x | x in recorded && !Precedes(h, r, x)| == caps.maxCount
  {
    var before := set x | x in recorded && !Precedes(h, r, x);
    CardinalMonotone(before, recorded);
    if |before| == caps.maxCount {
      SubsetOfSameSize(before, recorded);
      assert forall x | x in recorded :: x in before;
    }
    if NoneMadeAfter(h, recorded + {r}, r) {
      assert before == recorded;
    }
  }

  // All calls of the history, each once.
  ghost predicate Linearizable(caps: Caps, h: History) {
    exists order :: Linearizes(caps, h, AllOps(h), order)
  }

  // When all calls have returned, the history has each of them once, with the
  // times at which it was made, decided and returned, in that order.
  lemma EveryCallIsDecided(caps: Caps, s: State, h: History)
    requires Traced(caps, s, h) && s.threads == map[]
    ensures |AllOps(h)| == s.calls
    ensures forall op, op' | op in AllOps(h) && op' in AllOps(h) && op.id == op'.id :: op == op'
    ensures forall op | op in AllOps(h) :: op.id < op.decided && ReturnedLater(h, op)
  {
    TracedInv(caps, s, h);
    CountOps(caps, s, h);
    EveryOpReturned(s, h);
  }

  predicate ReturnedLater(h: History, op: Op) {
    op.id in h.returned && op.decided <= h.returned[op.id] < h.now
  }

  lemma CountOps(caps: Caps, s: State, h: History)
    requires FullInv(caps, s, h) && s.threads == map[]
    ensures |AllOps(h)| == s.calls
  {
    assert Threads(s, Undecided) == {};
    InOrderIsDistinct(h.log);
    InOrderIsDistinct(h.refused);
    SizeOfSet(h.log);
    SizeOfSet(h.refused);
    assert SetOf(h.log) !! SetOf(h.refused);
  }

  lemma EveryOpReturned(s: State, h: History)
    requires HistoryInv(s, h) && NoneIsLost(h) && s.threads == map[]
    ensures forall op | op in AllOps(h) :: op.id < op.decided && ReturnedLater(h, op)
  {
    assert h.current.Values == {};
    forall op | op in AllOps(h)
      ensures op.id < op.decided && ReturnedLater(h, op)
    {
      assert Timely(h, op);
    }
  }

  lemma {:induction false} SizeOfSet(ops: seq<Op>)
    requires Distinct(ops)
    ensures |SetOf(ops)| == |ops|
  {
    if ops != [] {
      var n := |ops| - 1;
      SizeOfSet(ops[..n]);
      assert forall i | 0 <= i < n :: ops[i] != ops[n];
      assert SetOf(ops) == SetOf(ops[..n]) + {ops[n]};
    }
  }

  lemma RefusalsFitWithoutByteRefusals(caps: Caps, s: State, h: History)
    requires FullInv(caps, s, h) && s.threads == map[] && NoByteRefusal(s)
    ensures RefusalsFit(caps, h, AllOps(h))
  {
    RecordedCount(caps, s, h);
    assert Holders(s) == {};
    forall r, x | r in AllOps(h) && r.outcome == OverCount && x in AllOps(h) && x.outcome != OverCount
      ensures !Precedes(h, r, x)
    {
      assert r in h.refused && x in h.log && Timely(h, r);
    }
  }

  // A run in which nobody is refused for bytes linearizes as a whole.
  lemma WithoutByteRefusals(caps: Caps, s: State, h: History)
    requires Traced(caps, s, h) && s.threads == map[] && NoByteRefusal(s)
    ensures Linearizable(caps, h)
  {
    TracedInv(caps, s, h);
    RefusalsFitWithoutByteRefusals(caps, s, h);
    LinearizesIff(caps, s, h, AllOps(h));
  }

  // ---- When every run linearizes ------------------------------------------------------------------

  lemma {:induction false} RunConcat(caps: Caps, s: State, h: History, a: seq<Step>, b: seq<Step>)
    requires Legal(caps, s, a) && SameThreadIds(s, h) && Legal(caps, Run(caps, s, a), b)
    ensures Legal(caps, s, a + b)
    ensures Run(caps, s, a + b) == Run(caps, Run(caps, s, a), b)
    ensures ObserveRun(caps, s, h, a + b) == ObserveRun(caps, Run(caps, s, a), ObserveRun(caps, s, h, a), b)
    decreases |a|
  {
    if a == [] {
      assert a + b == b;
    } else {
      assert (a + b)[1..] == a[1..] + b;
      RunConcat(caps, Apply(caps, s, a[0]), Observe(caps, s, h, a[0]), a[1..], b);
    }
  }

  lemma TracedFurther(caps: Caps, s: State, h: History, more: seq<Step>) returns (h': History)
    requires Traced(caps, s, h) && Legal(caps, s, more)
    ensures Traced(caps, Run(caps, s, more), h')
  {
    var steps :| Legal(caps, Init(), steps)
      && Run(caps, Init(), steps) == s && ObserveRun(caps, Init(), Start(), steps) == h;
    RunConcat(caps, Init(), Start(), steps, more);
    h' := ObserveRun(caps, s, h, more);
  }

  // A call of n bytes takes a free slot.
  function TakeSlot(n: nat): seq<Step> {
    [Call(0, n)] + ([LoadCount(0)] + [SwapCount(0)])
  }

  lemma TakesSlot(caps: Caps, s: State, n: nat)
    requires 0 !in s.threads && s.count < caps.maxCount && n <= U64_MAX
    ensures Legal(caps, s, TakeSlot(n))
    ensures Run(caps, s, TakeSlot(n)) ==
      s.(count := s.count + 1, calls := s.calls + 1, threads := s.threads[0 := LoadingBytes(n)])
  {
    var s1 := Apply(caps, s, Call(0, n));
    var s2 := Apply(caps, s1, LoadCount(0));
    LegalCons(caps, s2, SwapCount(0), []);
    LegalCons(caps, s1, LoadCount(0), [SwapCount(0)]);
    LegalCons(caps, s, Call(0, n), [LoadCount(0)] + [SwapCount(0)]);
    assert s2.threads[0 := LoadingBytes(n)] == s.threads[0 := LoadingBytes(n)];
  }

  lemma RecordsNothing(caps: Caps, s: State)
    requires s.threads == map[0 := LoadingBytes(0)] && s.bytes == 0
    ensures var steps := [LoadBytes(0)] + [SwapBytes(0)];
      && Legal(caps, s, steps)
      && var s' := Run(caps, s, steps);
      s'.threads == map[] && s'.bytes == 0 && s'.count == s.count
  {
    var s1 := Apply(caps, s, LoadBytes(0));
    LegalCons(caps, s1, SwapBytes(0), []);
    LegalCons(caps, s, LoadBytes(0), [SwapBytes(0)]);
  }

  // With all slots taken, the last by a call that is too big, another call is
  // refused for count before the slot is given back.
  lemma RefusesWrongly(caps: Caps, s: State)
    requires s.threads == map[0 := LoadingBytes(caps.maxBytes + 1)] && s.bytes == 0
    requires s.count == caps.maxCount > 0 && caps.maxBytes < U64_MAX
    ensures var steps := [Call(1, 0)] + ([LoadCount(1)] + ([LoadBytes(0)] + [RollBack(0)]));
      && Legal(caps, s, steps)
      && var s' := Run(caps, s, steps);
      s'.threads == map[] && s'.count == s.count - 1 && s'.countRejections > 0
  {
    var s1 := Apply(caps, s, Call(1, 0));
    var s2 := Apply(caps, s1, LoadCount(1));
    var s3 := Apply(caps, s2, LoadBytes(0));
    LegalCons(caps, s3, RollBack(0), []);
    LegalCons(caps, s2, LoadBytes(0), [RollBack(0)]);
    LegalCons(caps, s1, LoadCount(1), [LoadBytes(0)] + [RollBack(0)]);
    LegalCons(caps, s, Call(1, 0), [LoadCount(1)] + ([LoadBytes(0)] + [RollBack(0)]));
  }

  lemma {:induction false} RecordMany(caps: Caps, k: nat) returns (s: State, h: History)
    requires k <= caps.maxCount
    ensures Traced(caps, s, h) && s.threads == map[] && s.bytes == 0 && s.count == k
  {
    if k == 0 {
      s, h := Init(), Start();
      assert Legal(caps, s, []) && Run(caps, s, []) == s && ObserveRun(caps, s, h, []) == h;
    } else {
      s, h := RecordMany(caps, k - 1);
      TakesSlot(caps, s, 0);
      h := TracedFurther(caps, s, h, TakeSlot(0));
      s := Run(caps, s, TakeSlot(0));
      RecordsNothing(caps, s);
      h := TracedFurther(caps, s, h, [LoadBytes(0)] + [SwapBytes(0)]);
      s := Run(caps, s, [LoadBytes(0)] + [SwapBytes(0)]);
    }
  }

  lemma RefuseWrongly(caps: Caps) returns (s: State, h: History)
    requires caps.maxCount > 0 && caps.maxBytes < U64_MAX
    ensures Traced(caps, s, h) && s.threads == map[] && s.count < caps.maxCount && s.countRejections > 0
  {
    s, h := RecordMany(caps, caps.maxCount - 1);
    TakesSlot(caps, s, caps.maxBytes + 1);
    h := TracedFurther(caps, s, h, TakeSlot(caps.maxBytes + 1));
    s := Run(caps, s, TakeSlot(caps.maxBytes + 1));
    RefusesWrongly(caps, s);
    var steps := [Call(1, 0)] + ([LoadCount(1)] + ([LoadBytes(0)] + [RollBack(0)]));
    h := TracedFurther(caps, s, h, steps);
    s := Run(caps, s, steps);
  }

  lemma SomeRunDoesNot(caps: Caps) returns (s: State, h: History)
    requires caps.maxCount > 0 && caps.maxBytes < U64_MAX
    ensures Traced(caps, s, h) && s.threads == map[] && !Linearizable(caps, h)
  {
    s, h := RefuseWrongly(caps);
    TracedInv(caps, s, h);
    RecordedCount(caps, s, h);
    assert Holders(s) == {};
    var r := h.refused[0];
    assert r in h.refused && r in AllOps(h);
    LinearizesIff(caps, s, h, AllOps(h));
  }

  lemma ReplayRefusesForBytes(caps: Caps, log: seq<Entry>, k: nat)
    requires Replays(caps, log) && k < |log| && log[k].outcome == OverBytes
    ensures caps.maxCount > 0 && caps.maxBytes < U64_MAX
  {
    assert Record(caps, UsageOf(log[..k]), log[k].n) == (UsageOf(log[..k + 1]), log[k].outcome);
  }

  lemma NoSlotsNoByteRefusal(caps: Caps, s: State, h: History)
    requires Traced(caps, s, h) && (caps.maxCount == 0 || caps.maxBytes >= U64_MAX)
    ensures NoByteRefusal(s)
  {
    TracedInv(caps, s, h);
    if k :| 0 <= k < |s.log| && s.log[k].outcome == OverBytes {
      ReplayRefusesForBytes(caps, s.log, k);
    }
  }

  // Every run in which all calls return linearizes, if and only if there are no
  // slots at all or no byte cap: the caps alone decide.
  lemma EveryRunLinearizesIff(caps: Caps)
    requires ValidCaps(caps)
    ensures (forall s, h | Traced(caps, s, h) && s.threads == map[] :: Linearizable(caps, h)) <==>
      caps.maxCount == 0 || caps.maxBytes == U64_MAX
  {
    if caps.maxCount == 0 || caps.maxBytes == U64_MAX {
      forall s, h | Traced(caps, s, h) && s.threads == map[]
        ensures Linearizable(caps, h)
      {
        NoSlotsNoByteRefusal(caps, s, h);
        WithoutByteRefusals(caps, s, h);
      }
    } else {
      var s, h := SomeRunDoesNot(caps);
    }
  }
}

// The fake services' per-IP sliding-window rate limiter (`fake-services.py`).
// Calls are atomic here, and `now` is the reading of the monotonic clock.
module RateLimiter {

  const WINDOW: real := 60.0

  type Log = seq<real>

  // The front of the deque while it is older than the window.
  function Prune(log: Log, now: real): Log {
    if log != [] && now - log[0] > WINDOW then Prune(log[1..], now) else log
  }

  datatype Decision = Decision(log: Log, limited: bool)

  function Decide(rateLimit: int, log: Log, now: real): Decision {
    var kept := Prune(log, now);
    if |kept| >= rateLimit then Decision(kept, true) else Decision(kept + [now], false)
  }

  // `_request_log`: a missing address has an empty deque.
  function LogOf(logs: map<string, Log>, ip: string): Log {
    if ip in logs then logs[ip] else []
  }

  // ---- Runs --------------------------------------------------------------------

  datatype Request = Request(ip: string, now: real)

  // The clock never goes back.
  predicate Monotone(requests: seq<Request>) {
    forall i, j | 0 <= i < j < |requests| :: requests[i].now <= requests[j].now
  }

  // The request log after a run of calls, oldest first.
  function Logs(rateLimit: int, requests: seq<Request>): map<string, Log> {
    if requests == [] then map[]
    else
      var before := Logs(rateLimit, requests[..|requests| - 1]);
      var last := requests[|requests| - 1];
      before[last.ip := Decide(rateLimit, LogOf(before, last.ip), last.now).log]
  }

  // Whether a request made right after the run is refused.
  function Limited(rateLimit: int, requests: seq<Request>, next: Request): bool {
    Decide(rateLimit, LogOf(Logs(rateLimit, requests), next.ip), next.now).limited
  }

  // The times of the requests of `ip` that were let through.
  function Accepted(rateLimit: int, requests: seq<Request>, ip: string): seq<real> {
    if requests == [] then []
    else
      var init, last := requests[..|requests| - 1], requests[|requests| - 1];
      var times := Accepted(rateLimit, init, ip);
      if last.ip == ip && !Limited(rateLimit, init, last) then times + [last.now] else times
  }

  function CountIn(times: seq<real>, from: real, to: real): nat {
    if times == [] then 0
    else CountIn(times[..|times| - 1], from, to) + (if from <= times[|times| - 1] <= to then 1 else 0)
  }

  predicate Sorted(times: seq<real>) {
    forall i, j | 0 <= i < j < |times| :: times[i] <= times[j]
  }

  // `history` is what was asked of the limiter so far.
  class Limiter {
    const rateLimit: int
    var requestLog: map<string, Log>
    ghost var history: seq<Request>

    ghost predicate Valid()
      reads this
    {
      requestLog == Logs(rateLimit, history)
    }

    constructor (rateLimit: int)
      ensures this.rateLimit == rateLimit && Valid() && history == []
    {
      this.rateLimit := rateLimit;
      requestLog, history := map[], [];
    }

    method IsRateLimited(ip: string, now: real) returns (limited: bool)
      requires Valid()
      modifies this
      ensures Valid() && history == old(history) + [Request(ip, now)]
      ensures limited == Limited(rateLimit, old(history), Request(ip, now))
    {
      var log := LogOf(requestLog, ip);
      ghost var before := log;
      history := history + [Request(ip, now)];
      assert history[..|history| - 1] == old(history);
      while log != [] && now - log[0] > WINDOW
        invariant Prune(log, now) == Prune(before, now)
        decreases |log|
      {
        log := log[1..];
      }
      if |log| >= rateLimit {
        requestLog := requestLog[ip := log];
        return true;
      }
      requestLog := requestLog[ip := log + [now]];
      return false;
    }
  }

  // ---- The log is the recent part of the accepted times --------------------------

  // `log` is what is left of `times` after dropping some that are out of any
  // window ending at `now` or later.
  ghost predicate Recent(log: Log, times: seq<real>, now: real) {
    && |log| <= |times|
    && log == times[|times| - |log|..]
    && forall i | 0 <= i < |times| - |log| :: now - times[i] > WINDOW
  }

  lemma {:induction false} PruneRecent(log: Log, times: seq<real>, was: real, now: real)
    requires Recent(log, times, was) && was <= now
    ensures Recent(Prune(log, now), times, now)
    ensures Prune(log, now) != [] ==> now - Prune(log, now)[0] <= WINDOW
    decreases |log|
  {
    if log != [] && now - log[0] > WINDOW {
      assert log[0] == times[|times| - |log|];
      assert log[1..] == times[|times| - |log[1..]|..];
      assert forall i | 0 <= i < |times| - |log| :: now - times[i] > WINDOW;
      assert Recent(log[1..], times, now);
      PruneRecent(log[1..], times, now, now);
    }
  }

  // Nothing has gone through after `now`.
  predicate NoLaterThan(times: seq<real>, now: real) {
    forall i | 0 <= i < |times| :: times[i] <= now
  }

  lemma AcceptKeepsRecent(kept: Log, times: seq<real>, now: real)
    requires Sorted(times) && NoLaterThan(times, now) && Recent(kept, times, now)
    ensures Sorted(times + [now]) && NoLaterThan(times + [now], now)
    ensures Recent(kept + [now], times + [now], now)
  {
    assert (times + [now])[|times| - |kept|..] == kept + [now];
  }

  // One call: the state before it, the call, and the state after it.
  lemma CallKeepsRecent(rateLimit: int, log: Log, times: seq<real>, was: real, now: real)
    requires Sorted(times) && NoLaterThan(times, was) && Recent(log, times, was) && was <= now
    ensures var d := Decide(rateLimit, log, now);
      InStep(d.log, if d.limited then times else times + [now], now)
  {
    PruneRecent(log, times, was, now);
    AcceptKeepsRecent(Prune(log, now), times, now);
  }

  lemma LogsSnoc(rateLimit: int, requests: seq<Request>, ip: string)
    requires requests != []
    ensures var init, last := requests[..|requests| - 1], requests[|requests| - 1];
      var before, times := LogOf(Logs(rateLimit, init), ip), Accepted(rateLimit, init, ip);
      var d := Decide(rateLimit, before, last.now);
      && LogOf(Logs(rateLimit, requests), ip) == (if last.ip == ip then d.log else before)
      && Accepted(rateLimit, requests, ip) == (if last.ip == ip && !d.limited then times + [last.now] else times)
  {
  }

  // The log and the accepted times of one address at time `now`.
  ghost predicate InStep(log: Log, times: seq<real>, now: real) {
    Sorted(times) && NoLaterThan(times, now) && Recent(log, times, now)
  }

  lemma Later(log: Log, times: seq<real>, was: real, now: real)
    requires InStep(log, times, was) && was <= now
    ensures InStep(log, times, now)
  {
  }

  predicate MadeBy(requests: seq<Request>, now: real) {
    Monotone(requests) && forall i | 0 <= i < |requests| :: requests[i].now <= now
  }

  lemma MadeByInit(requests: seq<Request>, now: real)
    requires MadeBy(requests, now) && requests != []
    ensures MadeBy(requests[..|requests| - 1], requests[|requests| - 1].now)
    ensures requests[|requests| - 1].now <= now
  {
  }

  lemma {:induction false} RunInv(rateLimit: int, requests: seq<Request>, ip: string, now: real)
    requires MadeBy(requests, now)
    ensures InStep(LogOf(Logs(rateLimit, requests), ip), Accepted(rateLimit, requests, ip), now)
    decreases |requests|
  {
    if requests != [] {
      var init, last := requests[..|requests| - 1], requests[|requests| - 1];
      MadeByInit(requests, now);
      RunInv(rateLimit, init, ip, last.now);
      LogsSnoc(rateLimit, requests, ip);
      if last.ip == ip {
        CallKeepsRecent(rateLimit, LogOf(Logs(rateLimit, init), ip), Accepted(rateLimit, init, ip), last.now, last.now);
      }
      Later(LogOf(Logs(rateLimit, requests), ip), Accepted(rateLimit, requests, ip), last.now, now);
    }
  }

  // ---- Counting -------------------------------------------------------------------

  lemma {:induction false} CountNarrower(times: seq<real>, from: real, to: real, from': real, to': real)
    requires forall i | 0 <= i < |times| :: from <= times[i] <= to ==> from' <= times[i] <= to'
    ensures CountIn(times, from, to) <= CountIn(times, from', to')
  {
    if times != [] {
      CountNarrower(times[..|times| - 1], from, to, from', to');
    }
  }

  lemma {:induction false} CountNone(times: seq<real>, from: real, to: real)
    requires forall i | 0 <= i < |times| :: !(from <= times[i] <= to)
    ensures CountIn(times, from, to) == 0
  {
    if times != [] {
      CountNone(times[..|times| - 1], from, to);
    }
  }

  // The accepted times inside the window are what the pruned log holds.
  lemma {:induction false} CountRecent(kept: Log, times: seq<real>, now: real)
    requires Sorted(times) && NoLaterThan(times, now) && Recent(kept, times, now)
    requires kept != [] ==> now - kept[0] <= WINDOW
    ensures CountIn(times, now - WINDOW, now) == |kept|
    decreases |times|
  {
    if kept == [] {
      CountNone(times, now - WINDOW, now);
    } else {
      RecentInit(kept, times, now);
      CountRecent(kept[..|kept| - 1], times[..|times| - 1], now);
    }
  }

  lemma RecentInit(kept: Log, times: seq<real>, now: real)
    requires Sorted(times) && NoLaterThan(times, now) && Recent(kept, times, now) && kept != []
    ensures Recent(kept[..|kept| - 1], times[..|times| - 1], now)
    ensures kept[0] == times[|times| - |kept|] <= times[|times| - 1] <= now
  {
    var n := |times| - 1;
    assert kept[..|kept| - 1] == times[..n][n - (|kept| - 1)..];
  }

  lemma PrunedCount(rateLimit: int, requests: seq<Request>, ip: string, now: real)
    requires Monotone(requests + [Request(ip, now)])
    ensures |Prune(LogOf(Logs(rateLimit, requests), ip), now)|
      == CountIn(Accepted(rateLimit, requests, ip), now - WINDOW, now)
  {
    var run := requests + [Request(ip, now)];
    assert forall i | 0 <= i < |requests| :: requests[i] == run[i] && run[i].now <= run[|requests|].now;
    assert MadeBy(requests, now);
    RunInv(rateLimit, requests, ip, now);
    var log, times := LogOf(Logs(rateLimit, requests), ip), Accepted(rateLimit, requests, ip);
    PruneRecent(log, times, now, now);
    CountRecent(Prune(log, now), times, now);
  }

  // ---- Main results -----------------------------------------------------------------

  // A request is refused if and only if the limit's worth of accepted requests
  // lie in the window that ends with it.
  lemma RefusedIff(rateLimit: int, requests: seq<Request>, next: Request)
    requires Monotone(requests + [next])
    ensures Limited(rateLimit, requests, next) <==>
      CountIn(Accepted(rateLimit, requests, next.ip), next.now - 60.0, next.now) >= rateLimit
  {
    assert Request(next.ip, next.now) == next;
    PrunedCount(rateLimit, requests, next.ip, next.now);
  }

  // Letting one more request through keeps any window of that length within
  // the limit: it contains no more than the window ending with the request.
  lemma WindowAfterAccept(rateLimit: int, requests: seq<Request>, next: Request, from: real)
    requires Monotone(requests + [next]) && !Limited(rateLimit, requests, next)
    requires from <= next.now <= from + WINDOW
    ensures CountIn(Accepted(rateLimit, requests, next.ip), from, from + WINDOW) < rateLimit
  {
    var run, times := requests + [next], Accepted(rateLimit, requests, next.ip);
    assert forall i | 0 <= i < |requests| :: requests[i] == run[i] && run[i].now <= run[|requests|].now;
    assert MadeBy(requests, next.now);
    RunInv(rateLimit, requests, next.ip, next.now);
    RefusedIff(rateLimit, requests, next);
    CountNarrower(times, from, from + WINDOW, next.now - WINDOW, next.now);
  }

  lemma CountSnoc(times: seq<real>, t: real, from: real, to: real)
    ensures CountIn(times + [t], from, to) == CountIn(times, from, to) + (if from <= t <= to then 1 else 0)
  {
    assert (times + [t])[..|times|] == times;
  }

  // In every run, every closed interval as long as the window, wherever it
  // starts, holds at most the limit's worth of accepted requests per address.
  lemma {:induction false} EveryWindowIsBounded(rateLimit: int, requests: seq<Request>, ip: string, from: real)
    requires Monotone(requests)
    ensures CountIn(Accepted(rateLimit, requests, ip), from, from + 60.0) <= if rateLimit < 0 then 0 else rateLimit
    decreases |requests|
  {
    if requests != [] {
      var init, last := requests[..|requests| - 1], requests[|requests| - 1];
      EveryWindowIsBounded(rateLimit, init, ip, from);
      LogsSnoc(rateLimit, requests, ip);
      if last.ip == ip && !Limited(rateLimit, init, last) {
        CountSnoc(Accepted(rateLimit, init, ip), last.now, from, from + WINDOW);
        if from <= last.now <= from + WINDOW {
          assert init + [last] == requests;
          WindowAfterAccept(rateLimit, init, last, from);
        }
      }
    }
  }

  // The requests of one address.
  function Only(requests: seq<Request>, ip: string): seq<Request> {
    if requests == [] then []
    else
      var init, last := requests[..|requests| - 1], requests[|requests| - 1];
      if last.ip == ip then Only(init, ip) + [last] else Only(init, ip)
  }

  lemma {:induction false} LogsOnly(rateLimit: int, requests: seq<Request>, ip: string)
    ensures LogOf(Logs(rateLimit, requests), ip) == LogOf(Logs(rateLimit, Only(requests, ip)), ip)
    decreases |requests|
  {
    if requests != [] {
      var init, last := requests[..|requests| - 1], requests[|requests| - 1];
      LogsOnly(rateLimit, init, ip);
      LogsSnoc(rateLimit, requests, ip);
      if last.ip == ip {
        var own := Only(init, ip) + [last];
        LogsSnoc(rateLimit, own, ip);
        assert own[..|own| - 1] == Only(init, ip);
      }
    }
  }

  // The answer to an address depends on its own requests only.
  lemma AddressesAreIndependent(rateLimit: int, requests: seq<Request>, next: Request)
    ensures Limited(rateLimit, requests, next) == Limited(rateLimit, Only(requests, next.ip), next)
  {
    LogsOnly(rateLimit, requests, next.ip);
  }
}

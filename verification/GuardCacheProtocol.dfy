// Many jobs and their guards behind the executor's guard cache.
//
// A run interleaves cache lookups, for any jobs, with the steps of the calls
// that threads make on the guards they looked up. A lookup names the guard
// that the factory would hand out then: a new one with the caps given, or one
// that it has handed out before, to this job or another.
module GuardCacheProtocol {
  import opened Prelude
  import G = GuardProtocol

  type JobId = string

  datatype Slot = Slot(caps: G.Caps, guard: G.State)

  // The cache, and the guards that exist.
  datatype State = State(entries: map<JobId, nat>, guards: map<nat, Slot>)

  datatype Step =
    | Lookup(job: JobId, guard: nat, caps: G.Caps)
    | On(job: JobId, step: G.Step)

  function Init(): State {
    State(map[], map[])
  }

  predicate Uses(s: State, job: JobId, g: nat) {
    job in s.entries && s.entries[job] == g
  }

  predicate Enabled(s: State, step: Step) {
    step.On? ==>
      && step.job in s.entries && s.entries[step.job] in s.guards
      && G.Enabled(s.guards[s.entries[step.job]].guard, step.step)
  }

  // A lookup keeps the guard that is already there; the factory's is used on
  // first sight only.
  function Apply(s: State, step: Step): State
    requires Enabled(s, step)
  {
    match step
    case Lookup(job, guard, caps) =>
      if job in s.entries then s
      else
        State(s.entries[job := guard],
          if guard in s.guards then s.guards else s.guards[guard := Slot(caps, G.Init())])
    case On(job, inner) =>
      var slot := s.guards[s.entries[job]];
      s.(guards := s.guards[s.entries[job] := slot.(guard := G.Apply(slot.caps, slot.guard, inner))])
  }

  predicate Legal(s: State, steps: seq<Step>)
    decreases |steps|
  {
    steps == [] || (Enabled(s, steps[0]) && Legal(Apply(s, steps[0]), steps[1..]))
  }

  function Run(s: State, steps: seq<Step>): State
    requires Legal(s, steps)
    decreases |steps|
  {
    if steps == [] then s else Run(Apply(s, steps[0]), steps[1..])
  }

  // What happened on one guard, through whichever jobs.
  function OnGuard(g: nat, s: State, steps: seq<Step>): seq<G.Step>
    requires Legal(s, steps)
    decreases |steps|
  {
    if steps == [] then []
    else
      var rest := OnGuard(g, Apply(s, steps[0]), steps[1..]);
      if steps[0].On? && s.entries[steps[0].job] == g then [steps[0].step] + rest else rest
  }

  // What happened through one job.
  function OfJob(job: JobId, steps: seq<Step>): seq<G.Step> {
    if steps == [] then []
    else
      var rest := OfJob(job, steps[1..]);
      if steps[0].On? && steps[0].job == job then [steps[0].step] + rest else rest
  }

  // ---- Guards run alone ----------------------------------------------------------------

  // Every guard has been, from Init on, through a run of its own.
  ghost predicate Sound(s: State) {
    && (forall job | job in s.entries :: s.entries[job] in s.guards)
    && (forall g | g in s.guards :: G.Reachable(s.guards[g].caps, s.guards[g].guard))
  }

  lemma {:induction false} GuardRunsAlone(s: State, steps: seq<Step>, g: nat)
    requires Legal(s, steps) && g in s.guards
    ensures var caps := s.guards[g].caps;
      && G.Legal(caps, s.guards[g].guard, OnGuard(g, s, steps))
      && g in Run(s, steps).guards
      && Run(s, steps).guards[g] == Slot(caps, G.Run(caps, s.guards[g].guard, OnGuard(g, s, steps)))
    decreases |steps|
  {
    if steps != [] {
      var s1 := Apply(s, steps[0]);
      GuardRunsAlone(s1, steps[1..], g);
      if steps[0].On? && s.entries[steps[0].job] == g {
        G.LegalCons(s.guards[g].caps, s.guards[g].guard, steps[0].step, OnGuard(g, s1, steps[1..]));
      }
    }
  }

  // The cache never lets go of an entry.
  lemma {:induction false} EntriesStay(s: State, steps: seq<Step>, job: JobId)
    requires Legal(s, steps) && job in s.entries
    ensures Uses(Run(s, steps), job, s.entries[job])
    decreases |steps|
  {
    if steps != [] {
      EntriesStay(Apply(s, steps[0]), steps[1..], job);
    }
  }

  // A guard that only one job uses in the end sees that job's calls and no others.
  lemma {:induction false} UnsharedSeesItsJob(s: State, steps: seq<Step>, job: JobId, g: nat)
    requires Legal(s, steps) && Uses(s, job, g)
    requires forall other | other != job :: !Uses(Run(s, steps), other, g)
    ensures OnGuard(g, s, steps) == OfJob(job, steps)
    decreases |steps|
  {
    if steps != [] {
      if steps[0].On? {
        EntriesStay(s, steps, steps[0].job);
      }
      var s1 := Apply(s, steps[0]);
      assert Uses(s1, job, g);
      assert Run(s, steps) == Run(s1, steps[1..]);
      UnsharedSeesItsJob(s1, steps[1..], job, g);
    }
  }

  lemma {:induction false} ReachableIsSound(s: State, steps: seq<Step>)
    requires Sound(s) && Legal(s, steps)
    ensures Sound(Run(s, steps))
    decreases |steps|
  {
    if steps != [] {
      StepKeepsSound(s, steps[0]);
      ReachableIsSound(Apply(s, steps[0]), steps[1..]);
    }
  }

  lemma StepKeepsSound(s: State, step: Step)
    requires Sound(s) && Enabled(s, step)
    ensures Sound(Apply(s, step))
  {
    if step.Lookup? {
      assert G.Legal(step.caps, G.Init(), []) && G.Run(step.caps, G.Init(), []) == G.Init();
    } else {
      var slot := s.guards[s.entries[step.job]];
      ReachableStep(slot.caps, slot.guard, step.step);
    }
  }

  lemma ReachableStep(caps: G.Caps, s: G.State, step: G.Step)
    requires G.Reachable(caps, s) && G.Enabled(s, step)
    ensures G.Reachable(caps, G.Apply(caps, s, step))
  {
    var steps :| G.Legal(caps, G.Init(), steps) && G.Run(caps, G.Init(), steps) == s;
    G.LegalSnoc(caps, G.Init(), steps, step);
  }

  // ---- Main results ----------------------------------------------------------------------

  // The factory may mint, and share, as it likes: once a job has a guard, every
  // later lookup gives it that guard with those caps, and the guard is where
  // the calls made on it, through any job, would take it alone. If no other job
  // has come to use it, that is where the job's own calls would take it.
  lemma EachJobRunsAlone(s: State, steps: seq<Step>, job: JobId)
    requires Legal(s, steps) && Sound(s) && job in s.entries
    ensures var g := s.entries[job];
      var Slot(caps, guard) := s.guards[g];
      && Uses(Run(s, steps), job, g) && g in Run(s, steps).guards
      && G.Legal(caps, guard, OnGuard(g, s, steps))
      && Run(s, steps).guards[g] == Slot(caps, G.Run(caps, guard, OnGuard(g, s, steps)))
      && ((forall other | other != job :: !Uses(Run(s, steps), other, g)) ==>
          OnGuard(g, s, steps) == OfJob(job, steps))
  {
    var g := s.entries[job];
    EntriesStay(s, steps, job);
    GuardRunsAlone(s, steps, g);
    if forall other | other != job :: !Uses(Run(s, steps), other, g) {
      UnsharedSeesItsJob(s, steps, job, g);
    }
  }

  // The first lookup of a job decides: it gets the factory's guard, with the
  // caps minted for it if it is new.
  lemma FirstLookupDecides(s: State, job: JobId, guard: nat, caps: G.Caps)
    requires Sound(s) && job !in s.entries
    ensures var s' := Apply(s, Lookup(job, guard, caps));
      && Uses(s', job, guard) && guard in s'.guards
      && (guard !in s.guards ==> s'.guards[guard] == Slot(caps, G.Init()))
      && (guard in s.guards ==> s'.guards[guard] == s.guards[guard])
      && (forall g | g in s.guards :: s'.guards[g] == s.guards[g])
  {
  }

  // Over the whole life of the process, from any moment at which a job has its
  // guard: what is recorded on that guard, the job's own calls among it, stays
  // within the caps that the guard has at that moment.
  lemma CapsOutliveCalls(before: seq<Step>, after: seq<Step>, job: JobId)
    requires Legal(Init(), before) && job in Run(Init(), before).entries
    requires Legal(Run(Init(), before), after)
    ensures var s := Run(Init(), before);
      var s', g := Run(s, after), s.entries[job];
      && g in s.guards && Uses(s', job, g) && g in s'.guards
      && var caps, recorded := s.guards[g].caps, G.Sizes(s'.guards[g].guard.log);
      && s'.guards[g].caps == caps
      && |recorded| <= caps.maxCount
      && (caps.maxBytes < U64_MAX ==> G.Sum(recorded) <= caps.maxBytes)
  {
    var s := Run(Init(), before);
    ReachableIsSound(Init(), before);
    ReachableIsSound(s, after);
    EachJobRunsAlone(s, after, job);
    var slot := Run(s, after).guards[s.entries[job]];
    G.ReachableInv(slot.caps, slot.guard);
  }
}

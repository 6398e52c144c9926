// `JobArtifactGuard` and `GuardCache` as objects, one call at a time. The
// interleavings inside a call are the business of GuardProtocol.
module JobGuard {
  import opened Prelude
  import opened GuardProtocol

  type JobId = string

  datatype LimitsConfig = LimitsConfig(
    perJobMaxArtifacts: nat, perJobMaxBytes: nat, perArtifactMaxBytes: nat)

  class JobArtifactGuard {
    const jobId: JobId
    const caps: Caps
    var count: nat
    var bytes: nat

    ghost function Usage(): Usage
      reads this
    {
      GuardProtocol.Usage(count, bytes)
    }

    ghost predicate WithinCaps()
      reads this
    {
      count <= caps.maxCount && bytes <= caps.maxBytes
    }

    constructor (jobId: JobId, caps: Caps)
      ensures this.jobId == jobId && this.caps == caps
      ensures Usage() == GuardProtocol.Usage(0, 0) && WithinCaps()
    {
      this.jobId, this.caps := jobId, caps;
      count, bytes := 0, 0;
    }

    constructor FromConfig(jobId: JobId, config: LimitsConfig)
      ensures this.jobId == jobId
      ensures caps == Caps(config.perJobMaxArtifacts, config.perJobMaxBytes)
      ensures Usage() == GuardProtocol.Usage(0, 0) && WithinCaps()
    {
      this.jobId, this.caps := jobId, Caps(config.perJobMaxArtifacts, config.perJobMaxBytes);
      count, bytes := 0, 0;
    }

    // On success both counters advance; on failure neither does.
    method TryRecord(n: nat) returns (outcome: Outcome)
      requires WithinCaps()
      modifies this`count, this`bytes
      ensures (Usage(), outcome) == Record(caps, old(Usage()), n)
      ensures outcome != Recorded ==> Usage() == old(Usage())
      ensures WithinCaps()
    {
      var counted := TryBumpCount();
      if !counted {
        return OverCount;
      }
      var sized := TryBumpBytes(n);
      if !sized {
        count := FetchSub(count);
        return OverBytes;
      }
      return Recorded;
    }

    method TryBumpCount() returns (ok: bool)
      modifies this`count
      ensures ok <==> old(count) < caps.maxCount
      ensures count == if ok then old(count) + 1 else old(count)
    {
      var cur := count;
      if cur >= caps.maxCount {
        return false;
      }
      count := cur + 1;
      return true;
    }

    method TryBumpBytes(n: nat) returns (ok: bool)
      modifies this`bytes
      ensures ok <==> SaturatingAdd(old(bytes), n) <= caps.maxBytes
      ensures bytes == if ok then SaturatingAdd(old(bytes), n) else old(bytes)
    {
      var cur := bytes;
      var sum := SaturatingAdd(cur, n);
      if sum > caps.maxBytes {
        return false;
      }
      bytes := sum;
      return true;
    }
  }

  class GuardCache {
    var entries: map<JobId, JobArtifactGuard>

    ghost predicate Valid()
      reads this, entries.Values
    {
      forall job | job in entries :: entries[job].WithinCaps()
    }

    constructor ()
      ensures entries == map[] && Valid()
    {
      entries := map[];
    }

    // `minted` is what the factory hands out when asked: a new guard, or one
    // that it has handed out before.
    method Get(job: JobId, minted: JobArtifactGuard) returns (guard: JobArtifactGuard)
      requires Valid() && minted.WithinCaps()
      modifies this
      ensures Valid()
      ensures guard == if job in old(entries) then old(entries)[job] else minted
      ensures entries == old(entries)[job := guard]
    {
      if job in entries {
        return entries[job];
      }
      entries := entries[job := minted];
      return minted;
    }
  }
}

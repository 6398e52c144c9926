// The Standards-Version delta (`policy_delta.rs`): ranking the declared
// version against the baseline, and the upgrading-checklist entries that lie
// on the path between the two. The version order is a parameter.
module PolicyDelta {
  import opened Prelude

  // `parse` may fail; `le` orders what it yields.
  datatype VersionOrder<!V> = VersionOrder(parse: string -> Option<V>, le: (V, V) -> bool)

  ghost predicate TotalPreorder<V(!new)>(o: VersionOrder<V>) {
    && (forall a, b :: o.le(a, b) || o.le(b, a))
    && (forall a, b, c :: o.le(a, b) && o.le(b, c) ==> o.le(a, c))
  }

  predicate Below<V>(o: VersionOrder<V>, a: V, b: V) {
    !o.le(b, a)
  }

  // `text` identifies the entry; nothing here depends on it.
  datatype ChecklistEntry = ChecklistEntry(fromVersion: string, toVersion: string, text: string)

  datatype StandardsDelta = AboveBaseline | AtOrBelowBaseline | MissingCandidate

  // ---- The operations ---------------------------------------------------------------

  function CompareStandardsVersion<V>(
    o: VersionOrder<V>, candidate: Option<string>, baseline: string): StandardsDelta
  {
    if candidate.None? || o.parse(candidate.value).None? || o.parse(baseline).None? then MissingCandidate
    else if Below(o, o.parse(baseline).value, o.parse(candidate.value).value) then AboveBaseline
    else AtOrBelowBaseline
  }

  predicate Parses<V>(o: VersionOrder<V>, e: ChecklistEntry) {
    o.parse(e.fromVersion).Some? && o.parse(e.toVersion).Some?
  }

  // The interval of the entry lies between the two versions.
  predicate OnPath<V>(o: VersionOrder<V>, candidate: V, baseline: V, e: ChecklistEntry) {
    && Parses(o, e)
    && o.le(candidate, o.parse(e.fromVersion).value)
    && o.le(o.parse(e.toVersion).value, baseline)
  }

  function Only(wanted: bool, e: ChecklistEntry): seq<ChecklistEntry> {
    if wanted then [e] else []
  }

  function Path<V>(o: VersionOrder<V>, candidate: V, baseline: V, checklist: seq<ChecklistEntry>)
    : seq<ChecklistEntry>
  {
    if checklist == [] then []
    else Only(OnPath(o, candidate, baseline, checklist[0]), checklist[0]) + Path(o, candidate, baseline, checklist[1..])
  }

  function InterveningEntriesIn<V>(
    o: VersionOrder<V>, candidate: Option<string>, baseline: string, checklist: seq<ChecklistEntry>)
    : seq<ChecklistEntry>
  {
    if candidate.None? || o.parse(candidate.value).None? || o.parse(baseline).None? then []
    else Path(o, o.parse(candidate.value).value, o.parse(baseline).value, checklist)
  }

  // ---- A checklist that is a chain ---------------------------------------------------------

  // Entry i leads from point i to point i + 1, and the points strictly rise.
  ghost predicate IsChain<V>(o: VersionOrder<V>, points: seq<V>, checklist: seq<ChecklistEntry>) {
    && |points| == |checklist| + 1
    && (forall i, j | 0 <= i < j < |points| :: Below(o, points[i], points[j]))
    && (forall i | 0 <= i < |checklist| ::
          && o.parse(checklist[i].fromVersion) == Some(points[i])
          && o.parse(checklist[i].toVersion) == Some(points[i + 1]))
  }

  // How many points lie below the candidate.
  ghost predicate PointsBelow<V>(o: VersionOrder<V>, points: seq<V>, candidate: V, a: nat) {
    && a <= |points|
    && (forall i | 0 <= i < |points| :: o.le(candidate, points[i]) <==> a <= i)
  }

  // How many points lie at or below the baseline.
  ghost predicate PointsReached<V>(o: VersionOrder<V>, points: seq<V>, baseline: V, b: nat) {
    && b <= |points|
    && (forall i | 0 <= i < |points| :: o.le(points[i], baseline) <==> i < b)
  }

  lemma {:induction false} PathConcat<V>(
    o: VersionOrder<V>, c: V, d: V, xs: seq<ChecklistEntry>, ys: seq<ChecklistEntry>)
    ensures Path(o, c, d, xs + ys) == Path(o, c, d, xs) + Path(o, c, d, ys)
  {
    if xs == [] {
      assert xs + ys == ys;
    } else {
      assert (xs + ys)[1..] == xs[1..] + ys;
      PathConcat(o, c, d, xs[1..], ys);
    }
  }

  // An entry is kept if and only if both its ends parse and lie between the
  // two versions. With PathConcat this determines the path.
  lemma PathSingle<V>(o: VersionOrder<V>, c: V, d: V, e: ChecklistEntry)
    ensures Path(o, c, d, []) == []
    ensures var from, to := o.parse(e.fromVersion), o.parse(e.toVersion);
      Path(o, c, d, [e]) ==
        if from.Some? && to.Some? && o.le(c, from.value) && o.le(to.value, d) then [e] else []
  {
    assert [e][1..] == [];
  }

  // Without two versions to go between there are no entries.
  lemma EntriesNeedRanks<V>(
    o: VersionOrder<V>, candidate: Option<string>, baseline: string, checklist: seq<ChecklistEntry>)
    ensures InterveningEntriesIn(o, candidate, baseline, checklist) ==
      if Ranked(o, candidate, baseline) then
        Path(o, o.parse(candidate.value).value, o.parse(baseline).value, checklist)
      else []
  {
  }

  lemma {:induction false} PathAll<V>(o: VersionOrder<V>, c: V, d: V, xs: seq<ChecklistEntry>)
    requires forall e | e in xs :: OnPath(o, c, d, e)
    ensures Path(o, c, d, xs) == xs
  {
    if xs != [] {
      PathAll(o, c, d, xs[1..]);
    }
  }

  lemma {:induction false} PathNone<V>(o: VersionOrder<V>, c: V, d: V, xs: seq<ChecklistEntry>)
    requires forall e | e in xs :: !OnPath(o, c, d, e)
    ensures Path(o, c, d, xs) == []
  {
    if xs != [] {
      PathNone(o, c, d, xs[1..]);
    }
  }

  lemma RankedPathIsRun<V>(
    o: VersionOrder<V>, points: seq<V>, checklist: seq<ChecklistEntry>, c: V, d: V, a: nat, b: nat)
    requires IsChain(o, points, checklist)
    requires PointsBelow(o, points, c, a) && PointsReached(o, points, d, b)
    ensures Path(o, c, d, checklist) == if a < b then checklist[a..b - 1] else []
  {
    forall i | 0 <= i < |checklist|
      ensures OnPath(o, c, d, checklist[i]) <==> a <= i < b - 1
    {
      assert o.le(points[i + 1], d) <==> i + 1 < b;
      assert o.le(c, points[i]) <==> a <= i;
    }
    if a < b {
      var before, run, after := checklist[..a], checklist[a..b - 1], checklist[b - 1..];
      assert checklist == before + (run + after);
      PathConcat(o, c, d, before, run + after);
      PathConcat(o, c, d, run, after);
      PathNone(o, c, d, before);
      PathAll(o, c, d, run);
      PathNone(o, c, d, after);
    } else {
      PathNone(o, c, d, checklist);
    }
  }

  // The ranks of any version on the chain, found from the bottom up.
  function RankBelow<V>(o: VersionOrder<V>, points: seq<V>, c: V): nat {
    if points == [] || o.le(c, points[0]) then 0 else 1 + RankBelow(o, points[1..], c)
  }

  function RankReached<V>(o: VersionOrder<V>, points: seq<V>, d: V): nat {
    if points == [] || !o.le(points[0], d) then 0 else 1 + RankReached(o, points[1..], d)
  }

  ghost predicate Ascending<V>(o: VersionOrder<V>, points: seq<V>) {
    forall i, j | 0 <= i < j < |points| :: o.le(points[i], points[j])
  }

  lemma {:induction false} RanksExist<V(!new)>(o: VersionOrder<V>, points: seq<V>, c: V, d: V)
    requires TotalPreorder(o) && Ascending(o, points)
    ensures PointsBelow(o, points, c, RankBelow(o, points, c))
    ensures PointsReached(o, points, d, RankReached(o, points, d))
  {
    if points != [] {
      var rest := points[1..];
      RanksExist(o, rest, c, d);
      assert forall i | 0 < i < |points| :: points[i] == rest[i - 1] && o.le(points[0], points[i]);
    }
  }

  // On a chain the path is one run of neighbouring entries, whatever the two
  // versions are: from the first point not below the candidate to the last
  // point not above the baseline.
  lemma PathIsRun<V(!new)>(o: VersionOrder<V>, points: seq<V>, checklist: seq<ChecklistEntry>, c: V, d: V)
    requires TotalPreorder(o) && IsChain(o, points, checklist)
    ensures var a, b := RankBelow(o, points, c), RankReached(o, points, d);
      && PointsBelow(o, points, c, a) && PointsReached(o, points, d, b)
      && Path(o, c, d, checklist) == if a < b then checklist[a..b - 1] else []
  {
    assert Ascending(o, points) by {
      assert forall i, j | 0 <= i < j < |points| :: Below(o, points[i], points[j]);
    }
    RanksExist(o, points, c, d);
    RankedPathIsRun(o, points, checklist, c, d, RankBelow(o, points, c), RankReached(o, points, d));
  }

  predicate SameVersion<V>(o: VersionOrder<V>, a: V, b: V) {
    o.le(a, b) && o.le(b, a)
  }

  lemma ChainPointIsRanked<V(!new)>(
    o: VersionOrder<V>, points: seq<V>, checklist: seq<ChecklistEntry>, v: V, k: nat)
    requires TotalPreorder(o) && IsChain(o, points, checklist)
    requires k < |points| && SameVersion(o, v, points[k])
    ensures PointsBelow(o, points, v, k) && PointsReached(o, points, v, k + 1)
  {
    forall i | 0 <= i < |points|
      ensures o.le(v, points[i]) <==> k <= i
      ensures o.le(points[i], v) <==> i <= k
    {
      assert i < k ==> Below(o, points[i], points[k]) && o.le(points[i], points[k]);
      assert k < i ==> Below(o, points[k], points[i]) && o.le(points[k], points[i]);
      assert o.le(v, points[i]) ==> o.le(points[k], points[i]);
      assert o.le(points[i], v) ==> o.le(points[i], points[k]);
    }
  }

  predicate Names<V>(o: VersionOrder<V>, text: string, v: V) {
    o.parse(text).Some? && SameVersion(o, o.parse(text).value, v)
  }

  // Between two chain points, however they are spelled, the entries are the
  // gap-free run from one to the other, and none if there is no way up.
  lemma ChainEntries<V(!new)>(
    o: VersionOrder<V>, points: seq<V>, checklist: seq<ChecklistEntry>,
    candidate: string, baseline: string, a: nat, b: nat)
    requires TotalPreorder(o) && IsChain(o, points, checklist)
    requires a < |points| && b < |points| && Names(o, candidate, points[a]) && Names(o, baseline, points[b])
    ensures InterveningEntriesIn(o, Some(candidate), baseline, checklist) ==
      if a <= b then checklist[a..b] else []
  {
    var c, d := o.parse(candidate).value, o.parse(baseline).value;
    ChainPointIsRanked(o, points, checklist, c, a);
    ChainPointIsRanked(o, points, checklist, d, b);
    RankedPathIsRun(o, points, checklist, c, d, a, b + 1);
  }

  lemma ChainSplits<V(!new)>(
    o: VersionOrder<V>, points: seq<V>, checklist: seq<ChecklistEntry>,
    candidate: string, middle: string, baseline: string, a: nat, m: nat, b: nat)
    requires TotalPreorder(o) && IsChain(o, points, checklist)
    requires a <= m <= b < |points|
    requires Names(o, candidate, points[a]) && Names(o, middle, points[m]) && Names(o, baseline, points[b])
    ensures
      InterveningEntriesIn(o, Some(candidate), middle, checklist)
      + InterveningEntriesIn(o, Some(middle), baseline, checklist)
      == InterveningEntriesIn(o, Some(candidate), baseline, checklist)
  {
    ChainEntries(o, points, checklist, candidate, middle, a, m);
    ChainEntries(o, points, checklist, middle, baseline, m, b);
    ChainEntries(o, points, checklist, candidate, baseline, a, b);
    Rejoined(checklist, a, m, b);
  }

  lemma Rejoined<T>(s: seq<T>, a: nat, m: nat, b: nat)
    requires a <= m <= b <= |s|
    ensures s[a..m] + s[m..b] == s[a..b]
  {
  }

  // ---- Any checklist ---------------------------------------------------------------------------

  // Lowering the candidate or raising the baseline only adds entries, in
  // place: the narrow path is the narrow filter of the wide one.
  lemma {:induction false} PathNarrows<V(!new)>(
    o: VersionOrder<V>, c: V, d: V, lower: V, higher: V, xs: seq<ChecklistEntry>)
    requires TotalPreorder(o) && o.le(lower, c) && o.le(d, higher)
    ensures Path(o, c, d, Path(o, lower, higher, xs)) == Path(o, c, d, xs)
  {
    if xs != [] {
      var rest := Path(o, lower, higher, xs[1..]);
      PathNarrows(o, c, d, lower, higher, xs[1..]);
      if OnPath(o, lower, higher, xs[0]) {
        assert ([xs[0]] + rest)[1..] == rest;
      } else {
        assert [] + rest == rest;
      }
    }
  }

  // Every entry that parses leads strictly upwards.
  predicate Rising<V>(o: VersionOrder<V>, xs: seq<ChecklistEntry>) {
    forall e | e in xs && Parses(o, e) :: Below(o, o.parse(e.fromVersion).value, o.parse(e.toVersion).value)
  }

  predicate Straddles<V>(o: VersionOrder<V>, middle: V, e: ChecklistEntry) {
    && Parses(o, e)
    && Below(o, o.parse(e.fromVersion).value, middle)
    && Below(o, middle, o.parse(e.toVersion).value)
  }

  function Straddling<V>(o: VersionOrder<V>, middle: V, xs: seq<ChecklistEntry>): seq<ChecklistEntry> {
    if xs == [] then []
    else Only(Straddles(o, middle, xs[0]), xs[0]) + Straddling(o, middle, xs[1..])
  }

  ghost predicate MadeOf(
    whole: seq<ChecklistEntry>, x: seq<ChecklistEntry>, y: seq<ChecklistEntry>, z: seq<ChecklistEntry>)
  {
    multiset(whole) == multiset(x) + multiset(y) + multiset(z)
  }

  lemma MadeOfConcat(
    w: seq<ChecklistEntry>, x: seq<ChecklistEntry>, y: seq<ChecklistEntry>, z: seq<ChecklistEntry>,
    w': seq<ChecklistEntry>, x': seq<ChecklistEntry>, y': seq<ChecklistEntry>, z': seq<ChecklistEntry>)
    requires MadeOf(w, x, y, z) && MadeOf(w', x', y', z')
    ensures MadeOf(w + w', x + x', y + y', z + z')
  {
  }

  lemma OnOneSide<V(!new)>(o: VersionOrder<V>, c: V, m: V, d: V, e: ChecklistEntry)
    requires TotalPreorder(o) && o.le(c, m) && o.le(m, d)
    requires Parses(o, e) ==> Below(o, o.parse(e.fromVersion).value, o.parse(e.toVersion).value)
    ensures MadeOf(
      Only(OnPath(o, c, d, e), e),
      Only(OnPath(o, c, m, e), e), Only(OnPath(o, m, d, e), e), Only(OnPath(o, c, d, e) && Straddles(o, m, e), e))
  {
    var first, second, over := OnPath(o, c, m, e), OnPath(o, m, d, e), OnPath(o, c, d, e) && Straddles(o, m, e);
    assert OnPath(o, c, d, e) <==> first || second || over;
    assert !(first && second) && !(first && over) && !(second && over);
  }

  // Stopping on the way loses exactly the entries that straddle the stop.
  lemma {:induction false} PathSplits<V(!new)>(o: VersionOrder<V>, c: V, m: V, d: V, xs: seq<ChecklistEntry>)
    requires TotalPreorder(o) && o.le(c, m) && o.le(m, d) && Rising(o, xs)
    ensures MadeOf(
      Path(o, c, d, xs), Path(o, c, m, xs), Path(o, m, d, xs), Straddling(o, m, Path(o, c, d, xs)))
  {
    if xs != [] {
      var e, rest := xs[0], xs[1..];
      PathSplits(o, c, m, d, rest);
      OnOneSide(o, c, m, d, e);
      StraddlingCons(o, m, OnPath(o, c, d, e), e, Path(o, c, d, rest));
      MadeOfConcat(
        Only(OnPath(o, c, d, e), e),
        Only(OnPath(o, c, m, e), e), Only(OnPath(o, m, d, e), e), Only(OnPath(o, c, d, e) && Straddles(o, m, e), e),
        Path(o, c, d, rest), Path(o, c, m, rest), Path(o, m, d, rest), Straddling(o, m, Path(o, c, d, rest)));
    }
  }

  lemma StraddlingCons<V>(o: VersionOrder<V>, m: V, wanted: bool, e: ChecklistEntry, rest: seq<ChecklistEntry>)
    ensures Straddling(o, m, Only(wanted, e) + rest) == Only(wanted && Straddles(o, m, e), e) + Straddling(o, m, rest)
  {
    if wanted {
      assert ([e] + rest)[1..] == rest;
    } else {
      assert [] + rest == rest;
    }
  }

  // ---- The report --------------------------------------------------------------------------------

  // What the workspace path of the input turned out to be; for a directory,
  // the Standards-Version that its control file declares, if any.
  datatype Workspace = NoPath | NotADirectory | Directory(declared: Option<string>)

  datatype Verdict = Pass | Fail | InfrastructureError

  datatype Code = WorkspacePathMissing | WorkspaceNotDir | PolicyBaselineStale | StandardsVersionMissing

  datatype Comparison = IsAbove | IsAt | IsBelow

  datatype Report = Report(
    verdict: Verdict,
    diagnostics: seq<Code>,
    declared: Option<string>,
    comparison: Option<Comparison>,
    entries: seq<ChecklistEntry>)

  function Declared(w: Workspace): Option<string> {
    if w.Directory? then w.declared else None
  }

  // There is a declared version, and both it and the baseline parse.
  predicate Ranked<V>(o: VersionOrder<V>, declared: Option<string>, baseline: string) {
    declared.Some? && o.parse(declared.value).Some? && o.parse(baseline).Some?
  }

  // Nothing lies on a path that leads down or nowhere.
  lemma NoPathDown<V(!new)>(o: VersionOrder<V>, c: V, d: V, xs: seq<ChecklistEntry>)
    requires TotalPreorder(o) && Rising(o, xs) && o.le(d, c)
    ensures Path(o, c, d, xs) == []
  {
    forall e | e in xs
      ensures !OnPath(o, c, d, e)
    {
    }
    PathNone(o, c, d, xs);
  }

  // "At the baseline" is decided by spelling, everything else by the order.
  function ComparisonOf<V>(o: VersionOrder<V>, declared: Option<string>, baseline: string): Option<Comparison> {
    match CompareStandardsVersion(o, declared, baseline)
    case AboveBaseline => Some(IsAbove)
    case MissingCandidate => None
    case AtOrBelowBaseline => Some(if declared == Some(baseline) then IsAt else IsBelow)
  }

  predicate StrictlyOlder<V>(o: VersionOrder<V>, candidate: string, baseline: string) {
    && o.parse(candidate).Some? && o.parse(baseline).Some?
    && Below(o, o.parse(candidate).value, o.parse(baseline).value)
  }

  // Above the baseline by the order, at it by spelling, below it otherwise; and
  // nothing is said unless both versions parse.
  lemma ComparisonIff<V>(o: VersionOrder<V>, declared: Option<string>, baseline: string)
    ensures var r := ComparisonOf(o, declared, baseline);
      && (r.Some? <==> Ranked(o, declared, baseline))
      && (Ranked(o, declared, baseline) ==>
          var above := !o.le(o.parse(declared.value).value, o.parse(baseline).value);
          && (r == Some(IsAbove) <==> above)
          && (r == Some(IsAt) <==> !above && declared.value == baseline)
          && (r == Some(IsBelow) <==> !above && declared.value != baseline))
  {
  }

  // A candidate said to be below the baseline is strictly older if and only if
  // it is not the baseline in another spelling; one that is strictly older is
  // always said to be below.
  lemma BelowIsOlderIff<V(!new)>(o: VersionOrder<V>, candidate: string, baseline: string)
    requires TotalPreorder(o)
    ensures ComparisonOf(o, Some(candidate), baseline) == Some(IsBelow) ==>
      (StrictlyOlder(o, candidate, baseline) <==> !Names(o, candidate, o.parse(baseline).value))
    ensures StrictlyOlder(o, candidate, baseline) ==>
      ComparisonOf(o, Some(candidate), baseline) == Some(IsBelow)
  {
    var c, d := o.parse(candidate), o.parse(baseline);
    if c.Some? && d.Some? {
      assert o.le(c.value, d.value) || o.le(d.value, c.value);
    }
  }

  // The baseline with an explicit zero epoch is said to be below the baseline,
  // by any order that does not tell the two apart.
  lemma BelowIsNotAlwaysOlder<V(!new)>(o: VersionOrder<V>)
    requires TotalPreorder(o) && o.parse("4.7.4").Some? && o.parse("0:4.7.4") == o.parse("4.7.4")
    ensures ComparisonOf(o, Some("0:4.7.4"), "4.7.4") == Some(IsBelow)
    ensures !StrictlyOlder(o, "0:4.7.4", "4.7.4")
  {
    assert "0:4.7.4"[0] != "4.7.4"[0];
    assert o.le(o.parse("4.7.4").value, o.parse("4.7.4").value);
  }

  // Only a strictly older candidate has entries on a rising checklist: none are
  // lost by asking for them in one case out of four, and none turn up for
  // another spelling of the baseline.
  lemma OnlyOlderHasEntries<V(!new)>(o: VersionOrder<V>, candidate: string, baseline: string, xs: seq<ChecklistEntry>)
    requires TotalPreorder(o) && Rising(o, xs)
    requires !StrictlyOlder(o, candidate, baseline)
    ensures InterveningEntriesIn(o, Some(candidate), baseline, xs) == []
  {
    var c, d := o.parse(candidate), o.parse(baseline);
    if c.Some? && d.Some? {
      NoPathDown(o, c.value, d.value, xs);
    }
  }

  method Run<V(!new)>(o: VersionOrder<V>, workspace: Workspace, baseline: string, checklist: seq<ChecklistEntry>)
    returns (report: Report)
    ensures report.declared == Declared(workspace)
    ensures report.verdict == Pass <==>
      workspace.Directory? && CompareStandardsVersion(o, workspace.declared, baseline) == AtOrBelowBaseline
    ensures report.verdict == Fail <==>
      workspace.Directory? && CompareStandardsVersion(o, workspace.declared, baseline) == MissingCandidate
    ensures report.diagnostics ==
      match workspace
        case NoPath => [WorkspacePathMissing]
        case NotADirectory => [WorkspaceNotDir]
        case Directory(declared) =>
          match CompareStandardsVersion(o, declared, baseline)
            case AboveBaseline => [PolicyBaselineStale]
            case MissingCandidate => [StandardsVersionMissing]
            case AtOrBelowBaseline => []
    ensures report.diagnostics == [PolicyBaselineStale] <==>
      workspace.Directory? && Ranked(o, workspace.declared, baseline)
      && !o.le(o.parse(workspace.declared.value).value, o.parse(baseline).value)
    ensures report.diagnostics == [StandardsVersionMissing] <==>
      workspace.Directory? && !Ranked(o, workspace.declared, baseline)
    ensures report.comparison == ComparisonOf(o, Declared(workspace), baseline)
    ensures report.comparison != Some(IsBelow) ==> report.entries == []
    ensures (TotalPreorder(o) && Rising(o, checklist)) || report.comparison == Some(IsBelow) ==>
      report.entries == InterveningEntriesIn(o, report.declared, baseline, checklist)
    ensures TotalPreorder(o) && Rising(o, checklist) && report.entries != [] ==>
      report.declared.Some? && StrictlyOlder(o, report.declared.value, baseline)
  {
    var diagnostics: seq<Code> := [];
    var verdict := Pass;
    var declared: Option<string> := None;
    match workspace {
      case NoPath =>
        diagnostics := diagnostics + [WorkspacePathMissing];
        verdict := InfrastructureError;
      case NotADirectory =>
        diagnostics := diagnostics + [WorkspaceNotDir];
        verdict := InfrastructureError;
      case Directory(found) =>
        declared := found;
    }
    var comparison: Option<Comparison>;
    match CompareStandardsVersion(o, declared, baseline) {
      case AboveBaseline =>
        diagnostics := diagnostics + [PolicyBaselineStale];
        verdict := InfrastructureError;
        comparison := Some(IsAbove);
      case AtOrBelowBaseline =>
        comparison := Some(if declared == Some(baseline) then IsAt else IsBelow);
      case MissingCandidate =>
        if verdict == Pass {
          diagnostics := diagnostics + [StandardsVersionMissing];
          verdict := Fail;
        }
        comparison := None;
    }
    var entries := [];
    if comparison == Some(IsBelow) {
      entries := InterveningEntriesIn(o, declared, baseline, checklist);
    }
    assert TotalPreorder(o) && Rising(o, checklist) && declared.Some? ==>
      StrictlyOlder(o, declared.value, baseline)
      || InterveningEntriesIn(o, declared, baseline, checklist) == []
    by {
      if TotalPreorder(o) && Rising(o, checklist) && declared.Some? {
        if StrictlyOlder(o, declared.value, baseline) {
          BelowIsOlderIff(o, declared.value, baseline);
        } else {
          OnlyOlderHasEntries(o, declared.value, baseline, checklist);
        }
      }
    }
    return Report(verdict, diagnostics, declared, comparison, entries);
  }
}

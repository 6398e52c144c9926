// `path.rs` and the temp names of `writer.rs`: where the store keeps files.
// A path is its sequence of components.
module ArtifactPaths {
  import opened Digests
  import opened Decimal

  type Path = seq<string>

  // The files the store itself creates under its root.
  datatype StorePath =
    | Partial(pid: nat, seqno: nat)
    | Shard(digest: Sha256Hex)

  function Staging(root: Path): Path {
    root + ["staging"]
  }

  function DigestSplit(digest: Sha256Hex): (string, string) {
    (digest[..2], digest[..4][2..])
  }

  function FinalPathFor(root: Path, digest: Sha256Hex): Path {
    var (aa, bb) := DigestSplit(digest);
    root + [aa] + [bb] + [digest]
  }

  // artifact-{pid}-{seq}.partial
  function TempName(pid: nat, seqno: nat): string {
    "artifact-" + Format(pid) + "-" + Format(seqno) + ".partial"
  }

  function Render(root: Path, p: StorePath): Path {
    match p
    case Partial(pid, seqno) => Staging(root) + [TempName(pid, seqno)]
    case Shard(digest) => FinalPathFor(root, digest)
  }

  // `sweep_staging` looks at the entries of `staging/` whose name ends so.
  predicate Sweepable(root: Path, path: Path) {
    && |path| == |root| + 2
    && path[..|root| + 1] == Staging(root)
    && EndsWith(path[|root| + 1], ".partial")
  }

  predicate EndsWith(s: string, suffix: string) {
    |suffix| <= |s| && s[|s| - |suffix|..] == suffix
  }

  // <root>/<first two digits>/<next two>/<all sixty-four>
  lemma FinalPathShape(root: Path, digest: Sha256Hex)
    ensures FinalPathFor(root, digest) ==
      root + [[digest[0], digest[1]], [digest[2], digest[3]], digest]
  {
    var (aa, bb) := DigestSplit(digest);
    assert aa == [digest[0], digest[1]] && bb == [digest[2], digest[3]];
    assert root + [aa] + [bb] + [digest] == root + [aa, bb, digest];
  }

  // The names that a sweep goes by, in whichever way they came about.
  lemma SweepableIff(root: Path, path: Path)
    ensures Sweepable(root, path) <==> exists stem: string :: path == root + ["staging", stem + ".partial"]
  {
    if Sweepable(root, path) {
      var name := path[|path| - 1];
      var stem := name[..|name| - 8];
      assert name == stem + ".partial";
      assert path == root + ["staging", stem + ".partial"];
    }
    if stem: string :| path == root + ["staging", stem + ".partial"] {
      assert path[..|path| - 1] == root + ["staging"];
      assert EndsWith(stem + ".partial", ".partial");
    }
  }

  lemma SplitAtDash(a: string, b: string, c: string, d: string)
    requires AllDigits(a) && AllDigits(c)
    requires a + "-" + b == c + "-" + d
    ensures a == c && b == d
  {
    var s := a + "-" + b;
    assert s[|a|] == '-' && s[|c|] == '-';
    assert forall i | 0 <= i < |a| :: s[i] == a[i];
    assert forall i | 0 <= i < |c| :: s[i] == c[i];
    assert a == s[..|a|] && c == s[..|c|];
    assert b == s[|a| + 1..] && d == s[|c| + 1..];
  }

  lemma TempNameInjective(p1: nat, s1: nat, p2: nat, s2: nat)
    requires TempName(p1, s1) == TempName(p2, s2)
    ensures p1 == p2 && s1 == s2
  {
    var n1 := Format(p1) + "-" + Format(s1);
    var n2 := Format(p2) + "-" + Format(s2);
    assert TempName(p1, s1) == "artifact-" + n1 + ".partial";
    assert TempName(p2, s2) == "artifact-" + n2 + ".partial";
    assert n1 == TempName(p1, s1)[9..|TempName(p1, s1)| - 8];
    assert n2 == TempName(p2, s2)[9..|TempName(p2, s2)| - 8];
    SplitAtDash(Format(p1), Format(s1), Format(p2), Format(s2));
    FormatInjective(p1, p2);
    FormatInjective(s1, s2);
  }

  // Different files have different paths; a sweep matches the partials and
  // nothing else; and of the two kinds only the partials lie under staging, at
  // any depth.
  lemma LayoutIsFaithful(root: Path, p: StorePath, q: StorePath)
    ensures Render(root, p) == Render(root, q) ==> p == q
    ensures Sweepable(root, Render(root, p)) <==> p.Partial?
    ensures Staging(root) <= Render(root, p) <==> p.Partial?
  {
    var pp, qq := Render(root, p), Render(root, q);
    assert pp[|pp| - 1] == if p.Partial? then TempName(p.pid, p.seqno) else p.digest;
    assert qq[|qq| - 1] == if q.Partial? then TempName(q.pid, q.seqno) else q.digest;
    if p.Partial? {
      assert |pp| == |root| + 2 && pp[..|root| + 1] == Staging(root);
    } else {
      assert |pp| == |root| + 3;
      assert pp[|root|] == DigestSplit(p.digest).0 && |DigestSplit(p.digest).0| == 2;
      assert Staging(root)[|root|] == "staging";
    }
    if p.Partial? && q.Partial? && pp == qq {
      TempNameInjective(p.pid, p.seqno, q.pid, q.seqno);
    }
  }
}

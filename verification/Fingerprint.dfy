// `candidate.rs` and `digest.rs`: Git object ids, and the BLAKE3 fingerprint
// over a candidate's seven identity-defining fields. Rust strings appear as
// their bytes; the compression function is a parameter.
module Fingerprint {
  import opened Prelude
  import opened Digests

  type Bytes = seq<byte>
  type Blake3 = seq<byte> -> Hash32

  // ---- Git object ids -----------------------------------------------------------

  datatype GitHashAlgorithm = GitSha1 | GitSha256

  function HexLength(algorithm: GitHashAlgorithm): nat {
    match algorithm
    case GitSha256 => 64
    case GitSha1 => 40
  }

  predicate IsHexDigit(b: byte) {
    48 <= b <= 57 || 65 <= b <= 70 || 97 <= b <= 102
  }

  predicate AllHex(s: Bytes) {
    forall i | 0 <= i < |s| :: IsHexDigit(s[i])
  }

  function ToLower(b: byte): byte {
    if 65 <= b <= 90 then b + 32 else b
  }

  function LowerAll(s: Bytes): Bytes {
    seq(|s|, i requires 0 <= i < |s| => ToLower(s[i]))
  }

  datatype CoreError = InvalidDigest

  datatype GitObjectId = GitObjectId(algorithm: GitHashAlgorithm, value: Bytes)

  function NewObjectId(algorithm: GitHashAlgorithm, value: Bytes): Result<GitObjectId, CoreError> {
    if |value| != HexLength(algorithm) || !AllHex(value) then Err(InvalidDigest)
    else Ok(GitObjectId(algorithm, LowerAll(value)))
  }

  // What the constructor lets through: lowercase hex of the right length.
  predicate ValidObjectId(id: GitObjectId) {
    && |id.value| == HexLength(id.algorithm)
    && forall i | 0 <= i < |id.value| :: IsHexDigit(id.value[i]) && ToLower(id.value[i]) == id.value[i]
  }

  // The constructor's results are exactly the valid ids, each its own image,
  // and the spelling of the hex digits does not matter.
  lemma ObjectIdsAreCanonical(algorithm: GitHashAlgorithm, value: Bytes, id: GitObjectId)
    ensures var r := NewObjectId(algorithm, value);
      r.Ok? ==>
        && ValidObjectId(r.value) && r.value.algorithm == algorithm
        && NewObjectId(algorithm, LowerAll(value)) == r
    ensures NewObjectId(id.algorithm, id.value) == Ok(id) <==> ValidObjectId(id)
  {
    assert LowerAll(LowerAll(value)) == LowerAll(value);
    if ValidObjectId(id) {
      assert LowerAll(id.value) == id.value;
    }
    if NewObjectId(id.algorithm, id.value) == Ok(id) {
      assert forall i | 0 <= i < |id.value| :: LowerAll(id.value)[i] == ToLower(id.value[i]);
    }
  }

  // The bytes of the digits, in either case.
  predicate IsHexText(b: byte) {
    exists i | 0 <= i < 22 :: b as int == "0123456789abcdefABCDEF"[i] as int
  }

  lemma HexDigitIff(b: byte)
    ensures IsHexDigit(b) <==> IsHexText(b)
    ensures IsHexDigit(b) ==> ToLower(b) == if b as int < 'A' as int || b as int > 'F' as int then b else b + 32
  {
    var digits := "0123456789abcdefABCDEF";
    if 48 <= b <= 57 {
      assert digits[b as int - 48] as int == b as int;
    } else if 97 <= b <= 102 {
      assert digits[b as int - 87] as int == b as int;
    } else if 65 <= b <= 70 {
      assert digits[b as int - 49] as int == b as int;
    }
  }

  // An id is made of exactly 40 or 64 hex digits, by algorithm, put in lower case.
  lemma NewObjectIdIff(algorithm: GitHashAlgorithm, value: Bytes)
    ensures var r := NewObjectId(algorithm, value);
      && (r.Ok? <==> |value| == (if algorithm == GitSha1 then 40 else 64) && forall b | b in value :: IsHexText(b))
      && (r.Ok? ==>
        && r.value.algorithm == algorithm && |r.value.value| == |value|
        && forall i | 0 <= i < |value| :: r.value.value[i] ==
            if value[i] as int < 'A' as int || value[i] as int > 'F' as int then value[i] else value[i] + 32)
  {
    forall b: byte
      ensures IsHexDigit(b) <==> IsHexText(b)
      ensures IsHexDigit(b) ==> ToLower(b) == if b as int < 'A' as int || b as int > 'F' as int then b else b + 32
    {
      HexDigitIff(b);
    }
    assert AllHex(value) ==> forall b | b in value :: IsHexDigit(b);
    assert (forall b | b in value :: IsHexDigit(b)) ==> AllHex(value);
  }

  // ---- Candidates -----------------------------------------------------------------

  datatype PackageRevision = PackageRevision(family: Bytes, release: Bytes, name: Bytes, version: Bytes)

  // The label constructors bound these by 64 and 256 bytes.
  predicate ValidPackage(p: PackageRevision) {
    |p.family| <= 64 && |p.release| <= 64 && |p.name| <= 256 && |p.version| <= 256
  }

  datatype SourceCandidate = SourceCandidate(
    id: nat,
    jobId: nat,
    package: PackageRevision,
    repoUrl: Bytes,
    commit: GitObjectId,
    tree: GitObjectId,
    fingerprint: string,
    createdAt: int,
    parentCandidate: Option<nat>)

  // b"ironmaint-candidate-v1\0"
  const NAMESPACE: Bytes := [105, 114, 111, 110, 109, 97, 105, 110, 116, 45, 99, 97, 110, 100,
                             105, 100, 97, 116, 101, 45, 118, 49, 0]

  // (len as u32).to_le_bytes()
  function Le32(len: nat): Bytes {
    var n := len % 0x1_0000_0000;
    [(n % 256) as byte, (n / 0x100 % 256) as byte, (n / 0x1_0000 % 256) as byte, (n / 0x100_0000) as byte]
  }

  function Frame(field: Bytes): Bytes {
    Le32(|field|) + field
  }

  function Frames(fields: seq<Bytes>): Bytes {
    if fields == [] then [] else Frame(fields[0]) + Frames(fields[1..])
  }

  function Fields(p: PackageRevision, repoUrl: Bytes, commit: GitObjectId, tree: GitObjectId): seq<Bytes> {
    [p.family, p.release, p.name, p.version, repoUrl, commit.value, tree.value]
  }

  function Preimage(p: PackageRevision, repoUrl: Bytes, commit: GitObjectId, tree: GitObjectId): Bytes {
    NAMESPACE + Frames(Fields(p, repoUrl, commit, tree))
  }

  function FingerprintOf(
    blake3: Blake3, p: PackageRevision, repoUrl: Bytes, commit: GitObjectId, tree: GitObjectId): string
  {
    HexLower(blake3(Preimage(p, repoUrl, commit, tree)))
  }

  class Hasher {
    const blake3: Blake3
    var absorbed: Bytes

    constructor (blake3: Blake3)
      ensures this.blake3 == blake3 && absorbed == []
    {
      this.blake3 := blake3;
      absorbed := [];
    }

    method Update(bytes: Bytes)
      modifies this`absorbed
      ensures absorbed == old(absorbed) + bytes
    {
      absorbed := absorbed + bytes;
    }
  }

  method ComputeFingerprint(
    blake3: Blake3, p: PackageRevision, repoUrl: Bytes, commit: GitObjectId, tree: GitObjectId)
    returns (fingerprint: string)
    ensures fingerprint == FingerprintOf(blake3, p, repoUrl, commit, tree)
  {
    var hasher := new Hasher(blake3);
    hasher.Update(NAMESPACE);
    var fields := Fields(p, repoUrl, commit, tree);
    for i := 0 to |fields|
      invariant hasher.blake3 == blake3
      invariant hasher.absorbed + Frames(fields[i..]) == NAMESPACE + Frames(fields)
    {
      ghost var before := hasher.absorbed;
      hasher.Update(Le32(|fields[i]|));
      hasher.Update(fields[i]);
      assert fields[i..][1..] == fields[i + 1..];
      ConcatAssoc(before, Le32(|fields[i]|), fields[i]);
      ConcatAssoc(before, Frame(fields[i]), Frames(fields[i + 1..]));
    }
    assert fields[|fields|..] == [];
    assert hasher.absorbed + [] == hasher.absorbed;
    fingerprint := HexLower(blake3(hasher.absorbed));
  }

  // `id` is a freshly minted UUID.
  function NewCandidate(
    blake3: Blake3, id: nat, jobId: nat, p: PackageRevision, repoUrl: Bytes,
    commit: GitObjectId, tree: GitObjectId, createdAt: int): SourceCandidate
  {
    SourceCandidate(
      id, jobId, p, repoUrl, commit, tree, FingerprintOf(blake3, p, repoUrl, commit, tree), createdAt, None)
  }

  // Same job and package as the parent, on another commit and tree.
  function NewRevision(
    blake3: Blake3, id: nat, parent: SourceCandidate, repoUrl: Bytes,
    commit: GitObjectId, tree: GitObjectId, createdAt: int): SourceCandidate
  {
    SourceCandidate(
      id, parent.jobId, parent.package, repoUrl, commit, tree,
      FingerprintOf(blake3, parent.package, repoUrl, commit, tree), createdAt, Some(parent.id))
  }

  // What a candidate satisfies when its constructor and those of its parts made
  // it. The fields of an object id are public and can be deserialised, so an id
  // need not have come from its constructor.
  ghost predicate Built(blake3: Blake3, c: SourceCandidate) {
    && ValidPackage(c.package) && ValidObjectId(c.commit) && ValidObjectId(c.tree)
    && c.fingerprint == FingerprintOf(blake3, c.package, c.repoUrl, c.commit, c.tree)
  }

  // ---- The preimage is uniquely decodable --------------------------------------------

  lemma Le32Injective(a: nat, b: nat)
    requires a < 0x1_0000_0000 && b < 0x1_0000_0000
    requires Le32(a) == Le32(b)
    ensures a == b
  {
    assert Le32(a)[0] == Le32(b)[0] && Le32(a)[1] == Le32(b)[1];
    assert Le32(a)[2] == Le32(b)[2] && Le32(a)[3] == Le32(b)[3];
    Le32Value(a);
    Le32Value(b);
  }

  // The length modulo 2^32, lowest byte first.
  lemma Le32Value(len: nat)
    ensures var d := Le32(len);
      && |d| == 4
      && len % 0x1_0000_0000 ==
        d[0] as int + 0x100 * d[1] as int + 0x1_0000 * d[2] as int + 0x100_0000 * d[3] as int
  {
    var n := len % 0x1_0000_0000;
    var q1, q2, q3 := n / 0x100, n / 0x1_0000, n / 0x100_0000;
    assert n == 0x100 * q1 + n % 0x100;
    assert q1 == 0x100 * q2 + q1 % 0x100;
    assert q2 == 0x100 * q3 + q2 % 0x100;
  }

  // Two strings that agree up front, with parts of the same length.
  lemma CutFront(a: Bytes, x: Bytes, b: Bytes, y: Bytes)
    requires a + x == b + y && |a| == |b|
    ensures a == b && x == y
  {
    assert a == (a + x)[..|a|] && b == (b + y)[..|b|];
    assert x == (a + x)[|a|..] && y == (b + y)[|b|..];
  }

  lemma FrameFront(a: Bytes, x: Bytes, b: Bytes, y: Bytes)
    requires |a| < 0x1_0000_0000 && |b| < 0x1_0000_0000
    requires Frame(a) + x == Frame(b) + y
    ensures a == b && x == y
  {
    ConcatAssoc(Le32(|a|), a, x);
    ConcatAssoc(Le32(|b|), b, y);
    CutFront(Le32(|a|), a + x, Le32(|b|), b + y);
    Le32Injective(|a|, |b|);
    CutFront(a, x, b, y);
  }

  predicate IsObjectHex(s: Bytes) {
    (|s| == 40 || |s| == 64) && AllHex(s)
  }

  // A framed object id can be read off the end: were the two of different
  // lengths, a length byte 0 of the one would be a hex digit of the other.
  lemma SameLengthBack(x: Bytes, a: Bytes, y: Bytes, b: Bytes)
    requires IsObjectHex(a) && IsObjectHex(b) && |a| >= |b|
    requires x + Frame(a) == y + Frame(b)
    ensures |a| == |b|
  {
    var s := x + Frame(a);
    var k := |s| - |b| - 1;
    assert s == y + Frame(b) && k == |y| + 3;
    assert s[k] == Le32(|b|)[3] == 0;
    assert forall i | |x| + 4 <= i < |s| :: s[i] == a[i - |x| - 4];
  }

  lemma FrameBack(x: Bytes, a: Bytes, y: Bytes, b: Bytes)
    requires IsObjectHex(a) && IsObjectHex(b)
    requires x + Frame(a) == y + Frame(b)
    ensures a == b && x == y
  {
    if |a| >= |b| {
      SameLengthBack(x, a, y, b);
    } else {
      SameLengthBack(y, b, x, a);
    }
    CutFront(x, Frame(a), y, Frame(b));
    CutFront(Le32(|a|), a, Le32(|b|), b);
  }

  lemma FramesOfSeven(f: seq<Bytes>)
    requires |f| == 7
    ensures Frames(f) == Frame(f[0]) + (Frame(f[1]) + (Frame(f[2]) + (Frame(f[3])
      + (Frame(f[4]) + Frame(f[5]) + Frame(f[6])))))
  {
    assert Frames(f[7..]) == [];
    assert Frames(f[6..]) == Frame(f[6]) by { assert f[6..][1..] == f[7..]; }
    assert Frames(f[5..]) == Frame(f[5]) + Frame(f[6]) by { assert f[5..][1..] == f[6..]; }
    assert Frames(f[4..]) == Frame(f[4]) + Frame(f[5]) + Frame(f[6]) by { assert f[4..][1..] == f[5..]; }
    assert Frames(f[3..]) == Frame(f[3]) + Frames(f[4..]) by { assert f[3..][1..] == f[4..]; }
    assert Frames(f[2..]) == Frame(f[2]) + Frames(f[3..]) by { assert f[2..][1..] == f[3..]; }
    assert f[1..][1..] == f[2..];
  }

  lemma RepoPartInjective(u: Bytes, c: Bytes, t: Bytes, u': Bytes, c': Bytes, t': Bytes)
    requires IsObjectHex(c) && IsObjectHex(t) && IsObjectHex(c') && IsObjectHex(t')
    requires Frame(u) + Frame(c) + Frame(t) == Frame(u') + Frame(c') + Frame(t')
    ensures u == u' && c == c' && t == t'
  {
    FrameBack(Frame(u) + Frame(c), t, Frame(u') + Frame(c'), t');
    FrameBack(Frame(u), c, Frame(u'), c');
    assert u == Frame(u)[4..] && u' == Frame(u')[4..];
  }

  lemma FramesInjective(f: seq<Bytes>, g: seq<Bytes>)
    requires |f| == |g| == 7 && Frames(f) == Frames(g)
    requires forall i | 0 <= i < 4 :: |f[i]| < 0x1_0000_0000 && |g[i]| < 0x1_0000_0000
    requires IsObjectHex(f[5]) && IsObjectHex(f[6]) && IsObjectHex(g[5]) && IsObjectHex(g[6])
    ensures f == g
  {
    FramesOfSeven(f);
    FramesOfSeven(g);
    var f4, g4 := Frame(f[4]) + Frame(f[5]) + Frame(f[6]), Frame(g[4]) + Frame(g[5]) + Frame(g[6]);
    var f3, g3 := Frame(f[3]) + f4, Frame(g[3]) + g4;
    var f2, g2 := Frame(f[2]) + f3, Frame(g[2]) + g3;
    var f1, g1 := Frame(f[1]) + f2, Frame(g[1]) + g2;
    FrameFront(f[0], f1, g[0], g1);
    FrameFront(f[1], f2, g[1], g2);
    FrameFront(f[2], f3, g[2], g3);
    FrameFront(f[3], f4, g[3], g4);
    RepoPartInjective(f[4], f[5], f[6], g[4], g[5], g[6]);
  }

  // ---- The layout of the preimage ------------------------------------------------------------

  // Where the k-th field's frame begins, behind the namespace.
  function Offset(fields: seq<Bytes>, k: nat): nat
    requires k <= |fields|
  {
    if k == 0 then 0 else 4 + |fields[0]| + Offset(fields[1..], k - 1)
  }

  ghost predicate FrameAt(s: Bytes, at: nat, field: Bytes) {
    && at + 4 + |field| <= |s|
    && s[at..at + 4] == Le32(|field|)
    && s[at + 4..at + 4 + |field|] == field
  }

  lemma FrameShifts(a: Bytes, s: Bytes, at: nat, field: Bytes)
    requires FrameAt(s, at, field)
    ensures FrameAt(a + s, |a| + at, field)
  {
    assert (a + s)[|a| + at..|a| + at + 4] == s[at..at + 4];
    assert (a + s)[|a| + at + 4..|a| + at + 4 + |field|] == s[at + 4..at + 4 + |field|];
  }

  lemma {:induction false} FramesAt(fields: seq<Bytes>, k: nat)
    requires k < |fields|
    ensures FrameAt(Frames(fields), Offset(fields, k), fields[k])
    ensures |Frames(fields)| == Offset(fields, |fields|)
  {
    var rest := fields[1..];
    FramesLength(fields);
    if k > 0 {
      FramesAt(rest, k - 1);
      FrameShifts(Frame(fields[0]), Frames(rest), Offset(rest, k - 1), rest[k - 1]);
    } else {
      FrameInFront(fields[0], Frames(rest));
    }
  }

  lemma {:induction false} FramesLength(fields: seq<Bytes>)
    ensures |Frames(fields)| == Offset(fields, |fields|)
  {
    if fields != [] {
      FramesLength(fields[1..]);
    }
  }

  lemma FrameInFront(field: Bytes, rest: Bytes)
    ensures FrameAt(Frame(field) + rest, 0, field)
  {
    var s := Frame(field) + rest;
    assert s[0..4] == Le32(|field|);
    assert s[4..4 + |field|] == field;
  }

  lemma NamespaceIsText()
    ensures |NAMESPACE| == 23 && NAMESPACE[22] == 0
    ensures forall i | 0 <= i < 22 :: NAMESPACE[i] as int == "ironmaint-candidate-v1"[i] as int
  {
  }

  // The namespace, and then family, release, name, version, URL, commit and
  // tree, each behind its length in four little-endian bytes; nothing else.
  lemma PreimageLayout(p: PackageRevision, repoUrl: Bytes, commit: GitObjectId, tree: GitObjectId)
    ensures var s := Preimage(p, repoUrl, commit, tree);
      var fields := [p.family, p.release, p.name, p.version, repoUrl, commit.value, tree.value];
      && NAMESPACE <= s && |s| == 23 + Offset(fields, 7)
      && forall k | 0 <= k < 7 :: FrameAt(s, 23 + Offset(fields, k), fields[k])
  {
    var fields := [p.family, p.release, p.name, p.version, repoUrl, commit.value, tree.value];
    NamespaceIsText();
    forall k | 0 <= k < 7
      ensures FrameAt(NAMESPACE + Frames(fields), 23 + Offset(fields, k), fields[k])
    {
      FramesAt(fields, k);
      FrameShifts(NAMESPACE, Frames(fields), Offset(fields, k), fields[k]);
    }
    FramesAt(fields, 0);
  }

  // ---- Main results -----------------------------------------------------------------

  ghost predicate SameIdentity(c: SourceCandidate, d: SourceCandidate) {
    c.package == d.package && c.repoUrl == d.repoUrl && c.commit == d.commit && c.tree == d.tree
  }

  // Equal preimages force all seven fields and both hash algorithms equal,
  // whatever the length of the URL: its length prefix wraps at 2^32, but the
  // fields around it can be told off from either end.
  lemma PreimageInjective(blake3: Blake3, c: SourceCandidate, d: SourceCandidate)
    requires Built(blake3, c) && Built(blake3, d)
    requires Preimage(c.package, c.repoUrl, c.commit, c.tree) == Preimage(d.package, d.repoUrl, d.commit, d.tree)
    ensures SameIdentity(c, d)
  {
    var f := Fields(c.package, c.repoUrl, c.commit, c.tree);
    var g := Fields(d.package, d.repoUrl, d.commit, d.tree);
    CutFront(NAMESPACE, Frames(f), NAMESPACE, Frames(g));
    FramesInjective(f, g);
    assert f[0] == g[0] && f[1] == g[1] && f[2] == g[2] && f[3] == g[3];
    assert f[4] == g[4] && f[5] == g[5] && f[6] == g[6];
  }

  // Without any premise on labels and ids but that no field reaches 2^32 bytes:
  // the frames decode uniquely.
  lemma {:induction false} ShortFramesDecode(f: seq<Bytes>, g: seq<Bytes>)
    requires |f| == |g|
    requires forall s | s in f || s in g :: |s| < 0x1_0000_0000
    ensures Frames(f) == Frames(g) <==> f == g
  {
    if f != [] && Frames(f) == Frames(g) {
      assert f[0] in f && g[0] in g;
      FrameFront(f[0], Frames(f[1..]), g[0], Frames(g[1..]));
      ShortFramesDecode(f[1..], g[1..]);
      assert f == [f[0]] + f[1..] && g == [g[0]] + g[1..];
    }
  }

  predicate ShortFields(c: SourceCandidate) {
    forall s | s in Fields(c.package, c.repoUrl, c.commit, c.tree) :: |s| < 0x1_0000_0000
  }

  predicate SameAlgorithms(c: SourceCandidate, d: SourceCandidate) {
    c.commit.algorithm == d.commit.algorithm && c.tree.algorithm == d.tree.algorithm
  }

  // For any two candidates, whether or not their ids and labels went through a
  // constructor: the identity is the preimage and the two hash algorithms, and
  // the preimage is the identity but for the algorithms, which are not hashed.
  lemma IdentityIsPreimageAndAlgorithms(c: SourceCandidate, d: SourceCandidate)
    requires ShortFields(c) && ShortFields(d)
    ensures SameIdentity(c, d) <==>
      && Preimage(c.package, c.repoUrl, c.commit, c.tree) == Preimage(d.package, d.repoUrl, d.commit, d.tree)
      && SameAlgorithms(c, d)
  {
    var f := Fields(c.package, c.repoUrl, c.commit, c.tree);
    var g := Fields(d.package, d.repoUrl, d.commit, d.tree);
    if Preimage(c.package, c.repoUrl, c.commit, c.tree) == Preimage(d.package, d.repoUrl, d.commit, d.tree) {
      CutFront(NAMESPACE, Frames(f), NAMESPACE, Frames(g));
      ShortFramesDecode(f, g);
      assert f[0] == g[0] && f[1] == g[1] && f[2] == g[2] && f[3] == g[3];
      assert f[4] == g[4] && f[5] == g[5] && f[6] == g[6];
    }
  }

  // So two ids with the same digits and different algorithms share a preimage;
  // ids that went through the constructor cannot be such.
  lemma AlgorithmIsNotHashed(
    p: PackageRevision, repoUrl: Bytes, a: GitHashAlgorithm, b: GitHashAlgorithm, value: Bytes, tree: GitObjectId)
    ensures Preimage(p, repoUrl, GitObjectId(a, value), tree) == Preimage(p, repoUrl, GitObjectId(b, value), tree)
    ensures ValidObjectId(GitObjectId(a, value)) && ValidObjectId(GitObjectId(b, value)) ==> a == b
  {
  }

  // The constructor builds: from valid parts, and only from those.
  lemma NewCandidateIsBuilt(
    blake3: Blake3, id: nat, jobId: nat, p: PackageRevision, repoUrl: Bytes,
    commit: GitObjectId, tree: GitObjectId, createdAt: int)
    ensures var c := NewCandidate(blake3, id, jobId, p, repoUrl, commit, tree, createdAt);
      && (Built(blake3, c) <==> ValidPackage(p) && ValidObjectId(commit) && ValidObjectId(tree))
      && c.id == id && c.jobId == jobId && c.createdAt == createdAt && c.parentCandidate == None
      && c.package == p && c.repoUrl == repoUrl && c.commit == commit && c.tree == tree
  {
  }

  // The fingerprint pins the build input.
  lemma FingerprintIdentifies(blake3: Blake3, c: SourceCandidate, d: SourceCandidate)
    requires Built(blake3, c) && Built(blake3, d)
    requires NoCollision(blake3, Preimage(c.package, c.repoUrl, c.commit, c.tree),
                         Preimage(d.package, d.repoUrl, d.commit, d.tree))
    ensures c.fingerprint == d.fingerprint <==> SameIdentity(c, d)
  {
    var p, q := Preimage(c.package, c.repoUrl, c.commit, c.tree), Preimage(d.package, d.repoUrl, d.commit, d.tree);
    DigestSeparates(blake3, p, q);
    if c.fingerprint == d.fingerprint {
      PreimageInjective(blake3, c, d);
    }
  }

  // A revision keeps its parent's fingerprint if and only if URL, commit and
  // tree are all unchanged. It is constructed like any other candidate.
  lemma RevisionKeepsFingerprintIff(
    blake3: Blake3, id: nat, parent: SourceCandidate, repoUrl: Bytes,
    commit: GitObjectId, tree: GitObjectId, createdAt: int)
    requires Built(blake3, parent) && ValidObjectId(commit) && ValidObjectId(tree)
    requires NoCollision(blake3, Preimage(parent.package, parent.repoUrl, parent.commit, parent.tree),
                         Preimage(parent.package, repoUrl, commit, tree))
    ensures var child := NewRevision(blake3, id, parent, repoUrl, commit, tree, createdAt);
      && Built(blake3, child) && child.parentCandidate == Some(parent.id)
      && child.id == id && child.createdAt == createdAt
      && child.jobId == parent.jobId && child.package == parent.package
      && child.repoUrl == repoUrl && child.commit == commit && child.tree == tree
      && (child.fingerprint == parent.fingerprint <==>
          repoUrl == parent.repoUrl && commit == parent.commit && tree == parent.tree)
  {
    FingerprintIdentifies(blake3, parent, NewRevision(blake3, id, parent, repoUrl, commit, tree, createdAt));
  }
}

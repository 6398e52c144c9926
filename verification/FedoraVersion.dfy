// The Fedora version order (`versioning.rs` of the Fedora stub): a version is
// cut into epoch, version and release, the release loses its distribution
// tag, and the parts are compared in turn.
module FedoraVersion {
  import opened Prelude
  import opened Text
  import Decimal

  datatype VersionError = EmptyVersion | EpochNotLeading

  datatype Ordering = Less | Equal | Greater

  datatype SplitVersion = SplitVersion(epoch: nat, version: string, release: string)

  // ---- The operations -----------------------------------------------------------

  function Colons(s: string): nat {
    if s == "" then 0 else (if s[0] == ':' then 1 else 0) + Colons(s[1..])
  }

  function Validate(raw: string): Option<VersionError> {
    if raw == "" then Some(EmptyVersion)
    else if Colons(raw) > 1 then Some(EpochNotLeading)
    else None
  }

  const TAGS: seq<string> := [".fc", ".el", ".epel", ".module+"]

  // The tags are tried in order; the first that occurs anywhere decides.
  function StripAny(release: string, tags: seq<string>): string {
    if tags == [] then release
    else match FindStr(release, tags[0])
      case Some(i) => release[..i]
      case None => StripAny(release, tags[1..])
  }

  function StripDistTag(release: string): string {
    StripAny(release, TAGS)
  }

  // A missing, malformed or too large epoch counts as zero.
  function Epoch(raw: string): nat {
    match Find(raw, ':')
    case None => 0
    case Some(i) =>
      var epoch := Decimal.ParseU32(raw[..i]);
      if epoch.Some? then epoch.value else 0
  }

  function AfterEpoch(raw: string): string {
    match Find(raw, ':')
    case None => raw
    case Some(i) => raw[i + 1..]
  }

  function Parse(raw: string): SplitVersion {
    ParseRest(Epoch(raw), AfterEpoch(raw))
  }

  function ParseRest(epoch: nat, rest: string): SplitVersion {
    match RFind(rest, '-')
    case None => SplitVersion(epoch, rest, StripDistTag(""))
    case Some(i) => SplitVersion(epoch, rest[..i], StripDistTag(rest[i + 1..]))
  }

  function CompareNat(a: nat, b: nat): Ordering {
    if a < b then Less else if a == b then Equal else Greater
  }

  // `str::cmp` compares UTF-8 bytes, which is the order of the scalar values.
  function CompareText(a: string, b: string): Ordering {
    if a == "" then (if b == "" then Equal else Less)
    else if b == "" then Greater
    else if a[0] != b[0] then (if a[0] < b[0] then Less else Greater)
    else CompareText(a[1..], b[1..])
  }

  function Then(first: Ordering, second: Ordering): Ordering {
    if first == Equal then second else first
  }

  function CompareParts(l: SplitVersion, r: SplitVersion): Ordering {
    Then(CompareNat(l.epoch, r.epoch),
      Then(CompareText(l.version, r.version), CompareText(l.release, r.release)))
  }

  function Compare(left: string, right: string): Result<Ordering, VersionError> {
    if Validate(left).Some? then Err(Validate(left).value)
    else if Validate(right).Some? then Err(Validate(right).value)
    else Ok(CompareParts(Parse(left), Parse(right)))
  }

  // ---- A total preorder -------------------------------------------------------------

  predicate Valid(raw: string) {
    raw != "" && forall i, j | 0 <= i < j < |raw| :: !(raw[i] == ':' && raw[j] == ':')
  }

  lemma {:induction false} ColonsSpec(s: string)
    ensures Colons(s) == 0 <==> ':' !in s
    ensures Colons(s) <= 1 <==> forall i, j | 0 <= i < j < |s| :: !(s[i] == ':' && s[j] == ':')
  {
    if s != "" {
      var rest := s[1..];
      ColonsSpec(rest);
      assert forall i | 0 < i < |s| :: s[i] == rest[i - 1];
      assert forall i | 0 <= i < |rest| :: rest[i] == s[i + 1];
      if s[0] != ':' && Colons(s) <= 1 {
        forall i, j | 0 <= i < j < |s|
          ensures !(s[i] == ':' && s[j] == ':')
        {
          if i > 0 {
            assert s[i] == rest[i - 1] && s[j] == rest[j - 1];
          }
        }
      }
    }
  }

  // An answer is given exactly for two non-empty versions with at most one
  // colon each.
  lemma ComparesIff(left: string, right: string)
    ensures Compare(left, right).Ok? <==> Valid(left) && Valid(right)
  {
    ColonsSpec(left);
    ColonsSpec(right);
  }

  function Flip(o: Ordering): Ordering {
    match o
    case Less => Greater
    case Equal => Equal
    case Greater => Less
  }

  // If a is at most b, and b at most c, then a is at most c, strictly so
  // unless both are ties.
  predicate Composes(ab: Ordering, bc: Ordering, ac: Ordering) {
    ab != Greater && bc != Greater ==> ac == if ab == Equal && bc == Equal then Equal else Less
  }

  lemma {:induction false} TextMirrored(a: string, b: string)
    ensures CompareText(b, a) == Flip(CompareText(a, b))
    ensures CompareText(a, b) == Equal <==> a == b
  {
    if a != "" && b != "" {
      TextMirrored(a[1..], b[1..]);
      assert a == [a[0]] + a[1..] && b == [b[0]] + b[1..];
    }
  }

  // a comes before b in a dictionary: where they first differ, a ends or has
  // the smaller character.
  ghost predicate Before(a: string, b: string) {
    exists i :: 0 <= i <= |a| && i < |b| && a[..i] == b[..i] && (i == |a| || a[i] < b[i])
  }

  // The order of a dictionary over code points.
  lemma {:induction false} TextLessIff(a: string, b: string)
    ensures CompareText(a, b) == Less <==> Before(a, b)
  {
    if a == "" || b == "" || a[0] != b[0] {
      assert a[..0] == b[..0];
      assert forall i | 0 < i <= |a| && i < |b| && a[..i] == b[..i] :: a[..i][0] == a[0] && b[..i][0] == b[0];
    } else {
      var s, t := a[1..], b[1..];
      TextLessIff(s, t);
      assert forall i | 0 <= i <= |s| && i < |t| :: a[..i + 1] == [a[0]] + s[..i] && b[..i + 1] == [b[0]] + t[..i];
      assert forall i | 0 < i <= |a| && i < |b| :: s[..i - 1] == a[..i][1..] && t[..i - 1] == b[..i][1..];
    }
  }

  lemma {:induction false} TextComposes(a: string, b: string, c: string)
    ensures Composes(CompareText(a, b), CompareText(b, c), CompareText(a, c))
  {
    if a != "" && b != "" && c != "" {
      TextComposes(a[1..], b[1..], c[1..]);
    }
  }

  lemma PartsMirrored(l: SplitVersion, r: SplitVersion)
    ensures CompareParts(r, l) == Flip(CompareParts(l, r))
    ensures CompareParts(l, r) == Equal <==> l == r
  {
    TextMirrored(l.version, r.version);
    TextMirrored(l.release, r.release);
  }

  lemma PartsCompose(x: SplitVersion, y: SplitVersion, z: SplitVersion)
    ensures Composes(CompareParts(x, y), CompareParts(y, z), CompareParts(x, z))
  {
    TextComposes(x.version, y.version, z.version);
    TextComposes(x.release, y.release, z.release);
  }

  lemma CompareMirrored(a: string, b: string)
    requires Valid(a) && Valid(b)
    ensures Compare(a, b).Ok? && Compare(b, a) == Ok(Flip(Compare(a, b).value))
  {
    ComparesIff(a, b);
    PartsMirrored(Parse(a), Parse(b));
  }

  lemma CompareTransitive(a: string, b: string, c: string)
    requires Valid(a) && Valid(b) && Valid(c)
    ensures Compare(a, b).Ok? && Compare(b, c).Ok? && Compare(a, c).Ok?
    ensures Composes(Compare(a, b).value, Compare(b, c).value, Compare(a, c).value)
  {
    ComparesIff(a, b);
    ComparesIff(b, c);
    PartsCompose(Parse(a), Parse(b), Parse(c));
  }

  lemma CompareEqualIff(a: string, b: string)
    requires Valid(a) && Valid(b)
    ensures Compare(a, b) == Ok(Equal) <==> Parse(a) == Parse(b)
  {
    ComparesIff(a, b);
    PartsMirrored(Parse(a), Parse(b));
  }

  // ---- The order, part by part ------------------------------------------------------------

  // The smaller epoch decides; then the version; then the release.
  lemma CompareLessIff(a: string, b: string)
    requires Valid(a) && Valid(b)
    ensures var l, r := Parse(a), Parse(b);
      Compare(a, b) == Ok(Less) <==>
        || l.epoch < r.epoch
        || (l.epoch == r.epoch && Before(l.version, r.version))
        || (l.epoch == r.epoch && l.version == r.version && Before(l.release, r.release))
  {
    ComparesIff(a, b);
    PartsLessIff(Parse(a), Parse(b));
  }

  lemma PartsLessIff(l: SplitVersion, r: SplitVersion)
    ensures CompareParts(l, r) == Less <==>
      || l.epoch < r.epoch
      || (l.epoch == r.epoch && Before(l.version, r.version))
      || (l.epoch == r.epoch && l.version == r.version && Before(l.release, r.release))
  {
    TextLessIff(l.version, r.version);
    TextLessIff(l.release, r.release);
    TextMirrored(l.version, r.version);
  }

  // An error names what is wrong with the first version that is not valid.
  lemma CompareErrors(a: string, b: string)
    ensures Compare(a, b) == Err(EmptyVersion) <==> a == "" || (Valid(a) && b == "")
    ensures Compare(a, b) == Err(EpochNotLeading) <==>
      (a != "" && !Valid(a)) || (Valid(a) && b != "" && !Valid(b))
  {
    ColonsSpec(a);
    ColonsSpec(b);
  }

  // What stands before the first colon is the epoch, zero if it is no u32;
  // without a colon the epoch is zero.
  lemma EpochIsHead(head: string, rest: string)
    requires ':' !in head
    ensures var epoch := Decimal.ParseU32(head);
      Parse(head + [':'] + rest) == ParseRest(if epoch.Some? then epoch.value else 0, rest)
    ensures Parse(head) == ParseRest(0, head)
  {
    CutAt(head, ':', rest, head + [':'] + rest);
  }

  // What stands behind the last dash is the release, losing its tag; without a
  // dash the release is empty.
  lemma ReleaseIsTail(epoch: nat, version: string, release: string)
    requires '-' !in release
    ensures ParseRest(epoch, version + ['-'] + release) == SplitVersion(epoch, version, StripDistTag(release))
    ensures ParseRest(epoch, release) == SplitVersion(epoch, release, "")
  {
    RestReads(epoch, version, release);
    StripIsPrefix("", TAGS);
  }

  // ---- Reading back a printed version ---------------------------------------------------

  ghost predicate TagFree(release: string) {
    forall tag, i: nat | tag in TAGS :: !OccursAt(release, tag, i)
  }

  lemma {:induction false} StripIsPrefix(release: string, tags: seq<string>)
    requires forall tag | tag in tags :: tag != ""
    ensures StripAny(release, tags) <= release
    ensures StripAny(release, tags) == release <==> forall tag, i: nat | tag in tags :: !OccursAt(release, tag, i)
  {
    if tags != [] {
      FindStrSpec(release, tags[0]);
      assert forall tag | tag in tags[1..] :: tag in tags;
      StripIsPrefix(release, tags[1..]);
      if FindStr(release, tags[0]).Some? {
        assert OccursAt(release, tags[0], FindStr(release, tags[0]).value);
      } else {
        assert forall tag | tag in tags :: tag == tags[0] || tag in tags[1..];
      }
    }
  }

  lemma DistTagCuts(release: string, k: nat, i: nat)
    requires var tags := [".fc", ".el", ".epel", ".module+"];
      && k < |tags| && OccursAt(release, tags[k], i)
      && (forall j: nat | j < i :: !OccursAt(release, tags[k], j))
      && (forall t, j: nat | 0 <= t < k :: !OccursAt(release, tags[t], j))
    ensures StripDistTag(release) == release[..i]
  {
    StripCutsAt(release, TAGS, k, i);
  }

  lemma NoDistTagNoCut(release: string)
    ensures StripDistTag(release) == release <==>
      forall i: nat :: !(OccursAt(release, ".fc", i) || OccursAt(release, ".el", i)
        || OccursAt(release, ".epel", i) || OccursAt(release, ".module+", i))
  {
    StripIsPrefix(release, TAGS);
    assert forall tag :: tag in TAGS <==> tag in [".fc", ".el", ".epel", ".module+"];
  }

  lemma StripTagFree(release: string)
    requires TagFree(release)
    ensures StripDistTag(release) == release
  {
    StripIsPrefix(release, TAGS);
  }

  // The earliest tag of the list that occurs at all decides, at the first
  // place where it occurs.
  lemma {:induction false} StripCutsAt(release: string, tags: seq<string>, k: nat, i: nat)
    requires k < |tags| && OccursAt(release, tags[k], i)
    requires forall j: nat | j < i :: !OccursAt(release, tags[k], j)
    requires forall t, j: nat | 0 <= t < k :: !OccursAt(release, tags[t], j)
    ensures StripAny(release, tags) == release[..i]
  {
    FindStrSpec(release, tags[0]);
    if k > 0 {
      assert forall t | 0 <= t < k - 1 :: tags[1..][t] == tags[t + 1];
      StripCutsAt(release, tags[1..], k - 1, i);
    }
  }

  function Print(epoch: nat, version: string, release: string): string {
    Decimal.Format(epoch) + [':'] + (version + ['-'] + release)
  }

  lemma RestReads(epoch: nat, version: string, release: string)
    requires '-' !in release
    ensures ParseRest(epoch, version + ['-'] + release) == SplitVersion(epoch, version, StripDistTag(release))
  {
    var rest := version + ['-'] + release;
    RFindAt(version, '-', release);
    assert rest[..|version|] == version && rest[|version| + 1..] == release;
  }

  lemma EpochReads(epoch: nat, rest: string)
    ensures Epoch(Decimal.Format(epoch) + [':'] + rest) == if epoch <= U32_MAX then epoch else 0
    ensures AfterEpoch(Decimal.Format(epoch) + [':'] + rest) == rest
  {
    var digits := Decimal.Format(epoch);
    var raw := digits + [':'] + rest;
    assert ':' !in digits by {
      assert !Decimal.IsDigit(':');
    }
    CutAt(digits, ':', rest, raw);
    Decimal.ParseFormat(epoch);
  }

  // An epoch beyond u32 silently reads as zero.
  lemma ParsePrinted(epoch: nat, version: string, release: string)
    requires '-' !in release && TagFree(release)
    ensures Parse(Print(epoch, version, release)) ==
      SplitVersion(if epoch <= U32_MAX then epoch else 0, version, release)
  {
    EpochReads(epoch, version + ['-'] + release);
    RestReads(if epoch <= U32_MAX then epoch else 0, version, release);
    StripTagFree(release);
  }

  // ---- Distribution tags ------------------------------------------------------------------

  const FC := ".fc"

  lemma OccursInside(r: string, t: string, pat: string, j: nat)
    requires j + |pat| <= |r|
    ensures OccursAt(r + t, pat, j) <==> OccursAt(r, pat, j)
  {
    assert (r + t)[j..j + |pat|] == r[j..j + |pat|];
  }

  lemma FcDoesNotStraddle(r: string, tag: string, j: nat)
    requires FC <= tag && j < |r| && OccursAt(r + tag, FC, j)
    ensures j + 3 <= |r| && OccursAt(r, FC, j)
  {
    var s := r + tag;
    assert s[j..j + 3][1] == s[j + 1] && s[j..j + 3][2] == s[j + 2];
    assert s[|r|] == tag[0] == '.';
    OccursInside(r, tag, FC, j);
  }

  lemma FoundAt(s: string, pat: string, i: nat)
    requires OccursAt(s, pat, i) && forall j: nat | j < i :: !OccursAt(s, pat, j)
    ensures FindStr(s, pat) == Some(i)
  {
    FindStrSpec(s, pat);
  }

  lemma FcFound(r: string, tag: string)
    requires FC <= tag
    ensures FindStr(r + tag, FC) == if Contains(r, FC) then FindStr(r, FC) else Some(|r|)
  {
    FindStrSpec(r, FC);
    forall j: nat | j < |r|
      ensures OccursAt(r + tag, FC, j) <==> OccursAt(r, FC, j)
    {
      if j + 3 <= |r| {
        OccursInside(r, tag, FC, j);
      } else if OccursAt(r + tag, FC, j) {
        FcDoesNotStraddle(r, tag, j);
      }
    }
    if Contains(r, FC) {
      FoundAt(r + tag, FC, FindStr(r, FC).value);
    } else {
      assert (r + tag)[|r|..|r| + 3] == tag[..3];
      FoundAt(r + tag, FC, |r|);
    }
  }

  // Appending an ".fc" tag changes nothing about a release that already has
  // one, or has no tag at all; otherwise it brings back what was stripped.
  lemma TagAppended(release: string, tag: string)
    requires FC <= tag
    ensures var plain, tagged := StripDistTag(release), StripDistTag(release + tag);
      if Contains(release, FC) || TagFree(release) then tagged == plain else plain < tagged
  {
    FcFound(release, tag);
    StripIsPrefix(release, TAGS);
    assert TAGS[0] == FC;
    if Contains(release, FC) {
      var i := FindStr(release, FC).value;
      assert (release + tag)[..i] == release[..i];
    } else {
      assert (release + tag)[..|release|] == release;
    }
  }

  lemma {:induction false} PrefixCompares(a: string, b: string)
    requires a <= b
    ensures CompareText(a, b) == if a == b then Equal else Less
  {
    if a != "" {
      PrefixCompares(a[1..], b[1..]);
      assert a == [a[0]] + a[1..] && b == [b[0]] + b[1..];
    }
  }

  // The version has a release for the tag to go to, and that release already
  // ends in an ".fc" tag or carries no tag at all.
  ghost predicate TakesFcTag(raw: string) {
    var rest := AfterEpoch(raw);
    match RFind(rest, '-')
    case None => false
    case Some(i) => Contains(rest[i + 1..], FC) || TagFree(rest[i + 1..])
  }

  lemma RestTagged(epoch: nat, rest: string, tag: string)
    requires FC <= tag && '-' !in tag
    ensures ParseRest(epoch, rest).epoch == ParseRest(epoch, rest + tag).epoch
    ensures RFind(rest, '-').None? ==> ParseRest(epoch, rest).version < ParseRest(epoch, rest + tag).version
    ensures RFind(rest, '-').Some? ==>
      var release := rest[RFind(rest, '-').value + 1..];
      var plain, tagged := ParseRest(epoch, rest), ParseRest(epoch, rest + tag);
      && plain.version == tagged.version
      && plain.release == StripDistTag(release)
      && tagged.release == StripDistTag(release + tag)
  {
    var dash := RFind(rest, '-');
    if dash.None? {
      assert '-' !in rest + tag;
    } else {
      var version, release := rest[..dash.value], rest[dash.value + 1..];
      assert rest == version + ['-'] + release;
      assert rest + tag == version + ['-'] + (release + tag);
      RestReads(epoch, version, release);
      RestReads(epoch, version, release + tag);
    }
  }

  lemma ParseTagged(raw: string, tag: string)
    requires ':' !in tag
    ensures Parse(raw + tag) == ParseRest(Epoch(raw), AfterEpoch(raw) + tag)
  {
    var colon := Find(raw, ':');
    if colon.None? {
      assert ':' !in raw + tag;
    } else {
      var head, rest := raw[..colon.value], raw[colon.value + 1..];
      assert raw + tag == head + [':'] + (rest + tag);
      CutAt(head, ':', rest + tag, raw + tag);
    }
  }

  lemma TaggedIsValid(raw: string, tag: string)
    requires Valid(raw) && ':' !in tag
    ensures Valid(raw + tag)
  {
    var tagged := raw + tag;
    assert forall i | 0 <= i < |tagged| && tagged[i] == ':' :: i < |raw| && raw[i] == ':';
  }

  lemma PrefixParts(l: SplitVersion, r: SplitVersion)
    requires l.epoch == r.epoch
    requires l.version < r.version || (l.version == r.version && l.release <= r.release)
    ensures CompareParts(l, r) == if l == r then Equal else Less
  {
    PrefixCompares(l.version, r.version);
    if l.version == r.version {
      PrefixCompares(l.release, r.release);
    }
  }

  // A distribution tag is invisible to the order if and only if the version
  // takes it; otherwise the tagged version is the greater.
  lemma TagIsInvisibleIff(raw: string, tag: string)
    requires Valid(raw)
    requires FC <= tag && ':' !in tag && '-' !in tag
    ensures Compare(raw, raw + tag) == Ok(if TakesFcTag(raw) then Equal else Less)
  {
    TaggedIsValid(raw, tag);
    ComparesIff(raw, raw + tag);
    ParseTagged(raw, tag);
    var rest := AfterEpoch(raw);
    RestTagged(Epoch(raw), rest, tag);
    if RFind(rest, '-').Some? {
      TagAppended(rest[RFind(rest, '-').value + 1..], tag);
    }
    PrefixParts(Parse(raw), Parse(raw + tag));
  }

  // One pass is enough unless another tag stands before the one it cut at, as
  // in "1.el7.fc33".
  lemma StrippingTwiceIff(release: string)
    ensures var once := StripDistTag(release);
      StripDistTag(once) == once <==>
        forall tag, i: nat | tag in TAGS && OccursAt(release, tag, i) :: i + |tag| > |once|
  {
    var once := StripDistTag(release);
    StripIsPrefix(release, TAGS);
    StripIsPrefix(once, TAGS);
    assert release == once + release[|once|..];
    forall tag, i: nat | tag in TAGS && i + |tag| <= |once|
      ensures OccursAt(release, tag, i) <==> OccursAt(once, tag, i)
    {
      OccursInside(once, release[|once|..], tag, i);
    }
  }

  lemma TwoTags(base: string, k: nat, i: nat, tag: string)
    requires !Contains(base, FC) && k < |TAGS| && OccursAt(base, TAGS[k], i)
    requires FC <= tag
    ensures StripDistTag(base + tag) == base && StripDistTag(base) != base
  {
    FcFound(base, tag);
    assert TAGS[0] == FC && (base + tag)[..|base|] == base;
    StripIsPrefix(base, TAGS);
  }

  lemma FcHasF(s: string)
    requires Contains(s, FC)
    ensures 'f' in s
  {
    FindStrSpec(s, FC);
    var i := FindStr(s, FC).value;
    assert s[i + 1] == s[i..i + 3][1] == 'f';
  }

  lemma StrippingTwiceCutsMore()
    ensures var once := StripDistTag("1.el7" + ".fc33");
      once == "1.el7" && StripDistTag(once) != once
  {
    var once := "1.el7";
    if Contains(once, FC) {
      FcHasF(once);
    }
    assert once[1..4] == ".el" == TAGS[1];
    TwoTags(once, 1, 1, ".fc33");
  }
}

// The first entry of `debian/changelog` (section 4.4 of Debian Policy), as
// `parse_changelog_full` and its helpers read it (`source_analysis.rs`).
module Changelog {
  import opened Prelude
  import opened Text

  datatype AnalysisError = EmptyChangelog | MalformedHeader(line: string)

  datatype Header = Header(source: string, version: string, distribution: string, urgency: string)

  datatype Identity = Identity(header: Header, maintainer: Option<string>, timestamp: Option<string>)

  // ---- The header line ------------------------------------------------------------

  // split_whitespace, from the middle of a word.
  function Words(s: string, current: string): seq<string>
    decreases |s|
  {
    var flushed := if current == "" then [] else [current];
    if s == "" then flushed
    else if IsWhitespace(s[0]) then flushed + Words(s[1..], "")
    else Words(s[1..], current + [s[0]])
  }

  const URGENCY := "urgency="

  // The rest of the first word that starts with the key.
  function FindValue(words: seq<string>, key: string): string {
    if words == [] then ""
    else if StartsWith(words[0], key) then words[0][|key|..]
    else FindValue(words[1..], key)
  }

  function ParseTrailer(trailer: string): (string, string) {
    match Find(trailer, ';')
    case None => (Trim(trailer), "")
    case Some(semicolon) => (Trim(trailer[..semicolon]), FindValue(Words(trailer[semicolon + 1..], ""), URGENCY))
  }

  // Before the first "(", between it and the next ")", and behind that.
  datatype Parens = Parens(before: string, inside: string, after: string)

  function CutParens(line: string): Option<Parens> {
    match Find(line, '(')
    case None => None
    case Some(open) =>
      match Find(line[open..], ')')
      case None => None
      case Some(length) =>
        var close := open + length;
        Some(Parens(line[..open], line[open + 1..close], line[close + 1..]))
  }

  function ParseHeader(line: string): Option<Header> {
    match CutParens(line)
    case None => None
    case Some(Parens(before, inside, after)) =>
      var source, version := Trim(before), Trim(inside);
      if inside == "" || source == "" || version == "" then None
      else
        var (distribution, urgency) := ParseTrailer(Trim(after));
        Some(Header(source, version, distribution, urgency))
  }

  // ---- The trailer line -------------------------------------------------------------

  // A line whose first non-whitespace characters are "--".
  predicate IsMarker(line: string) {
    StartsWith(TrimStart(line), "--")
  }

  predicate DoubleSpaceAt(s: string, i: nat) {
    i + 1 < |s| && s[i] == ' ' && s[i + 1] == ' '
  }

  function FirstDoubleSpace(s: string): (r: Option<nat>)
    ensures r.Some? ==> r.value < |s|
  {
    if |s| < 2 then None
    else if DoubleSpaceAt(s, 0) then Some(0)
    else match FirstDoubleSpace(s[1..])
      case None => None
      case Some(i) => Some(i + 1)
  }

  // Maintainer and date, separated by the first run of two spaces.
  function ParseSignature(line: string): (Option<string>, Option<string>)
    requires IsMarker(line)
  {
    var rest := TrimStart(TrimStart(line)[2..]);
    match FirstDoubleSpace(rest)
    case None => (NonEmpty(Trim(rest)), None)
    case Some(i) => (NonEmpty(Trim(rest[..i])), NonEmpty(Trim(rest[i..])))
  }

  // ---- The whole text -----------------------------------------------------------------

  function FirstLine(lines: seq<string>, wanted: string -> bool): (r: Option<string>)
    ensures r.Some? ==> wanted(r.value)
  {
    if lines == [] then None
    else if wanted(lines[0]) then Some(lines[0])
    else FirstLine(lines[1..], wanted)
  }

  predicate NotBlank(line: string) {
    Trim(line) != ""
  }

  function Parse(body: string): Result<Identity, AnalysisError> {
    ParseLines(Lines(body))
  }

  function ParseLines(lines: seq<string>): Result<Identity, AnalysisError> {
    match FirstLine(lines, NotBlank)
    case None => Err(EmptyChangelog)
    case Some(line) =>
      match ParseHeader(line)
      case None => Err(MalformedHeader(line))
      case Some(header) =>
        match FirstLine(lines, IsMarker)
        case None => Ok(Identity(header, None, None))
        case Some(marker) =>
          var (maintainer, timestamp) := ParseSignature(marker);
          Ok(Identity(header, maintainer, timestamp))
  }

  method FindDoubleSpace(s: string) returns (splitAt: Option<nat>)
    ensures splitAt == FirstDoubleSpace(s)
  {
    var i := 0;
    while i + 1 < |s|
      invariant i <= |s|
      invariant FirstDoubleSpace(s) ==
        match FirstDoubleSpace(s[i..]) case None => None case Some(j) => Some(i + j)
    {
      assert s[i..][1..] == s[i + 1..];
      if s[i] == ' ' && s[i + 1] == ' ' {
        return Some(i);
      }
      i := i + 1;
    }
    return None;
  }

  method ParseChangelogFull(body: string) returns (r: Result<Identity, AnalysisError>)
    ensures r == Parse(body)
  {
    var lines := Lines(body);
    var k := 0;
    while k < |lines| && Trim(lines[k]) == ""
      invariant k <= |lines|
      invariant FirstLine(lines, NotBlank) == FirstLine(lines[k..], NotBlank)
    {
      DropNext(lines, k);
      k := k + 1;
    }
    if k == |lines| {
      return Err(EmptyChangelog);
    }
    var header := ParseHeader(lines[k]);
    if header.None? {
      return Err(MalformedHeader(lines[k]));
    }
    var maintainer: Option<string>, timestamp: Option<string> := None, None;
    for i := 0 to |lines|
      invariant maintainer == None && timestamp == None
      invariant FirstLine(lines, IsMarker) == FirstLine(lines[i..], IsMarker)
    {
      DropNext(lines, i);
      var trimmed := TrimStart(lines[i]);
      if StartsWith(trimmed, "--") {
        var rest := TrimStart(trimmed[2..]);
        var splitAt := FindDoubleSpace(rest);
        var m, d := rest, "";
        if splitAt.Some? {
          m, d := rest[..splitAt.value], Trim(rest[splitAt.value..]);
        }
        m := Trim(m);
        if m != "" {
          maintainer := Some(m);
        }
        if d != "" {
          timestamp := Some(d);
        }
        break;
      }
    }
    return Ok(Identity(header.value, maintainer, timestamp));
  }

  // ---- Printing an entry ------------------------------------------------------------

  // source (version) distribution; urgency=level
  function HeaderLine(h: Header): string {
    (h.source + " ") + "(" + (h.version + (")" + (" " + DistributionPart(h))))
  }

  function DistributionPart(h: Header): string {
    h.distribution + ";" + (" " + ("urgency=" + h.urgency))
  }

  //  -- maintainer  date
  function SignatureLine(maintainer: string, date: string): string {
    " " + ("--" + (" " + (maintainer + ("  " + date))))
  }

  function Print(h: Header, changes: seq<string>, maintainer: string, date: string): string {
    Block([HeaderLine(h)] + changes + [SignatureLine(maintainer, date)])
  }

  ghost predicate NoDoubleSpace(s: string) {
    forall i: nat :: !DoubleSpaceAt(s, i)
  }

  predicate WellFormedHeader(h: Header) {
    && h.source != "" && Trimmed(h.source) && OneLine(h.source) && '(' !in h.source
    && !StartsWith(h.source, "--")
    && h.version != "" && Trimmed(h.version) && OneLine(h.version) && ')' !in h.version
    && Trimmed(h.distribution) && OneLine(h.distribution) && ';' !in h.distribution
    && NoWhitespace(h.urgency)
  }

  ghost predicate WellFormedSignature(maintainer: string, date: string) {
    && maintainer != "" && Trimmed(maintainer) && OneLine(maintainer) && NoDoubleSpace(maintainer)
    && Trimmed(date) && OneLine(date)
  }

  ghost predicate WellFormedChange(line: string) {
    OneLine(line) && !IsTrailer(line)
  }

  // "--", after whitespace if any.
  ghost predicate IsTrailer(line: string) {
    exists pre: string, rest: string :: line == pre + ("--" + rest) && Blank(pre)
  }

  // ---- Reading back what was printed --------------------------------------------------

  lemma {:induction false} WordsOfWord(w: string, current: string)
    requires NoWhitespace(w)
    requires current + w != ""
    ensures Words(w, current) == [current + w]
    decreases |w|
  {
    if w == "" {
      assert current + w == current;
    } else {
      assert current + [w[0]] + w[1..] == current + w;
      WordsOfWord(w[1..], current + [w[0]]);
    }
  }

  predicate NoWhitespace(s: string) {
    forall i | 0 <= i < |s| :: !IsWhitespace(s[i])
  }

  lemma ValueReads(key: string, value: string)
    requires key != "" && NoWhitespace(key) && NoWhitespace(value)
    ensures FindValue(Words(" " + (key + value), ""), key) == value
  {
    var word := key + value;
    var s := " " + word;
    assert s[1..] == word;
    assert "" + word == word;
    WordsOfWord(word, "");
    assert Words(s, "") == [word];
    assert word[|key|..] == value;
  }

  lemma TrailerCuts(distribution: string, after: string, trailer: string)
    requires Trimmed(distribution) && ';' !in distribution
    requires trailer == distribution + [';'] + after
    ensures ParseTrailer(trailer).0 == distribution
    ensures ParseTrailer(trailer).1 == FindValue(Words(after, ""), URGENCY)
  {
    CutAt(distribution, ';', after, trailer);
    TrimTrimmed(distribution);
  }

  lemma UrgencyIsWord()
    ensures NoWhitespace(URGENCY) && |URGENCY| == 8
  {
  }

  lemma TrailerReads(h: Header)
    requires WellFormedHeader(h)
    ensures ParseTrailer(DistributionPart(h)).0 == h.distribution
    ensures ParseTrailer(DistributionPart(h)).1 == h.urgency
  {
    TrailerCuts(h.distribution, " " + (URGENCY + h.urgency), DistributionPart(h));
    UrgencyIsWord();
    ValueReads(URGENCY, h.urgency);
  }

  lemma ParenthesisCloses(inside: string, right: string, tail: string)
    requires ')' !in inside && tail == "(" + (inside + (")" + right))
    ensures Find(tail, ')') == Some(1 + |inside|)
    ensures tail[1..1 + |inside|] == inside && tail[2 + |inside|..] == right
  {
    ConcatAssoc("(", inside, ")" + right);
    ConcatAssoc("(" + inside, ")", right);
    CutAt("(" + inside, ')', right, tail);
    assert tail[1..1 + |inside|] == tail[..1 + |inside|][1..];
  }

  lemma CutParensAt(line: string, open: nat, length: nat)
    requires Find(line, '(') == Some(open) && Find(line[open..], ')') == Some(length)
    requires length > 0
    ensures var r := CutParens(line);
      && r.Some?
      && r.value.before == line[..open]
      && r.value.inside == line[open..][1..length]
      && r.value.after == line[open..][length + 1..]
  {
    SliceOfTail(line, open, 1, length);
    SliceOfTail(line, open, 1, length + 1);
  }

  lemma Parenthesised(left: string, inside: string, right: string, line: string)
    requires '(' !in left && ')' !in inside
    requires line == left + "(" + (inside + (")" + right))
    ensures var r := CutParens(line);
      r.Some? && r.value.before == left && r.value.inside == inside && r.value.after == right
  {
    var rest := inside + (")" + right);
    CutAt(left, '(', rest, line);
    ConcatAssoc(left, "(", rest);
    var tail := "(" + rest;
    assert line[|left|..] == tail;
    ParenthesisCloses(inside, right, tail);
    CutParensAt(line, |left|, 1 + |inside|);
  }

  lemma HeaderReadsParts(source: string, version: string, part: string, line: string)
    requires line == (source + " ") + "(" + (version + (")" + (" " + part)))
    requires source != "" && Trimmed(source) && '(' !in source
    requires version != "" && Trimmed(version) && ')' !in version
    requires Trimmed(part)
    ensures var (distribution, urgency) := ParseTrailer(part);
      ParseHeader(line) == Some(Header(source, version, distribution, urgency))
  {
    var left, right := source + " ", " " + part;
    Parenthesised(left, version, right, line);
    TrimOneSpace(source);
    TrimTrimmed(version);
    TrimOneSpace(part);
  }

  lemma HeaderReads(h: Header)
    requires WellFormedHeader(h)
    ensures ParseHeader(HeaderLine(h)) == Some(h)
  {
    PartIsTrimmed(h);
    HeaderReadsParts(h.source, h.version, DistributionPart(h), HeaderLine(h));
    TrailerReads(h);
  }

  lemma PartIsTrimmed(h: Header)
    requires WellFormedHeader(h)
    ensures Trimmed(DistributionPart(h)) && OneLine(DistributionPart(h))
    ensures !IsWhitespace(DistributionPart(h)[|DistributionPart(h)| - 1])
  {
    var word := URGENCY + h.urgency;
    var part := DistributionPart(h);
    assert part[|part| - 1] == word[|word| - 1];
    assert h.distribution != "" ==> part[0] == h.distribution[0];
    assert h.distribution == "" ==> part[0] == ';';
  }

  lemma {:induction false} DoubleSpaceFound(a: string, b: string)
    requires NoDoubleSpace(a) && (a != "" ==> a[|a| - 1] != ' ')
    ensures FirstDoubleSpace(a + ("  " + b)) == Some(|a|)
    decreases |a|
  {
    var s := a + ("  " + b);
    if a != "" {
      assert s[1..] == a[1..] + ("  " + b);
      assert forall i: nat :: DoubleSpaceAt(a[1..], i) ==> DoubleSpaceAt(a, i + 1);
      DoubleSpaceFound(a[1..], b);
      assert DoubleSpaceAt(s, 0) ==> |a| > 1 && DoubleSpaceAt(a, 0);
    }
  }

  lemma SignatureReads(maintainer: string, date: string)
    requires WellFormedSignature(maintainer, date)
    ensures var line := SignatureLine(maintainer, date);
      IsMarker(line) && ParseSignature(line) == (Some(maintainer), NonEmpty(date))
  {
    var rest := maintainer + ("  " + date);
    var marked := "--" + (" " + rest);
    TrimStartBlank(" ", marked);
    assert marked[2..] == " " + rest;
    TrimStartBlank(" ", rest);
    DoubleSpaceFound(maintainer, date);
    assert rest[..|maintainer|] == maintainer && rest[|maintainer|..] == "  " + date;
    TrimTrimmed(maintainer);
    assert "  " + date + "" == "  " + date;
    TrimPadded("  ", date, "");
  }

  lemma {:induction false} StripAllConcat(a: seq<string>, b: seq<string>)
    ensures StripAll(a + b) == StripAll(a) + StripAll(b)
  {
    if a == [] {
      assert a + b == b;
    } else {
      assert (a + b)[1..] == a[1..] + b;
      StripAllConcat(a[1..], b);
    }
  }

  lemma {:induction false} FirstLineFound(a: seq<string>, b: seq<string>, wanted: string -> bool)
    requires FirstLine(a, wanted).Some?
    ensures FirstLine(a + b, wanted) == FirstLine(a, wanted)
  {
    if !wanted(a[0]) {
      assert (a + b)[1..] == a[1..] + b;
      FirstLineFound(a[1..], b, wanted);
    }
  }

  lemma MarkerIff(line: string)
    ensures IsMarker(line) <==> IsTrailer(line)
  {
    if IsMarker(line) {
      LeadingBlanksSpec(line);
      var k := LeadingBlanks(line);
      TakeDrop(line, k);
      assert line[k..] == "--" + line[k..][2..];
      assert line == line[..k] + ("--" + line[k..][2..]);
    }
    if pre: string, rest: string :| line == pre + ("--" + rest) && Blank(pre) {
      TrimStartBlank(pre, "--" + rest);
    }
  }

  lemma TrailerKeepsCr(line: string)
    requires IsTrailer(StripCr(line))
    ensures IsTrailer(line)
  {
    var pre: string, rest: string :| StripCr(line) == pre + ("--" + rest) && Blank(pre);
    var end := line[|StripCr(line)|..];
    ConcatAssoc(pre, "--" + rest, end);
    ConcatAssoc("--", rest, end);
    assert line == pre + ("--" + (rest + end));
  }

  lemma ChangeIsNoMarker(line: string)
    requires WellFormedChange(line)
    ensures !IsMarker(StripCr(line))
  {
    MarkerIff(StripCr(line));
    if IsTrailer(StripCr(line)) {
      TrailerKeepsCr(line);
    }
  }

  lemma {:induction false} FirstMarkerSkips(changes: seq<string>, rest: seq<string>)
    requires forall i | 0 <= i < |changes| :: WellFormedChange(changes[i])
    ensures FirstLine(StripAll(changes) + rest, IsMarker) == FirstLine(rest, IsMarker)
  {
    if changes == [] {
      assert [] + rest == rest;
    } else {
      ChangeIsNoMarker(changes[0]);
      var tail := StripAll(changes[1..]);
      assert (StripAll(changes) + rest)[1..] == tail + rest;
      FirstMarkerSkips(changes[1..], rest);
    }
  }

  lemma MarkerIsNotBlank(line: string)
    requires IsMarker(line)
    ensures NotBlank(line)
  {
    LeadingBlanksSpec(line);
    var k := LeadingBlanks(line);
    assert line[k] == TrimStart(line)[0] == '-';
    TrimBlank(line);
  }

  lemma {:induction false} SomeLineNotBlank(lines: seq<string>)
    requires FirstLine(lines, IsMarker).Some?
    ensures FirstLine(lines, NotBlank).Some?
  {
    if IsMarker(lines[0]) {
      MarkerIsNotBlank(lines[0]);
    } else if !NotBlank(lines[0]) {
      SomeLineNotBlank(lines[1..]);
    }
  }

  lemma HeaderLineIsPlain(h: Header)
    requires WellFormedHeader(h)
    ensures OneLine(HeaderLine(h)) && StripCr(HeaderLine(h)) == HeaderLine(h)
    ensures NotBlank(HeaderLine(h)) && !IsMarker(HeaderLine(h))
  {
    var part, line := DistributionPart(h), HeaderLine(h);
    PartIsTrimmed(h);
    var rest := " " + ("(" + (h.version + (")" + (" " + part))));
    assert line == h.source + rest;
    assert line[|line| - 1] == rest[|rest| - 1] == part[|part| - 1];
    StartOfLine(h.source, rest, line);
  }

  lemma StartOfLine(source: string, rest: string, line: string)
    requires source != "" && Trimmed(source) && !StartsWith(source, "--")
    requires line == source + rest && rest != "" && rest[0] == ' '
    ensures NotBlank(line) && !IsMarker(line)
  {
    assert line[0] == source[0];
    TrimBlank(line);
    assert TrimStart(line) == line;
    assert |source| == 1 ==> line[1] == ' ';
    assert |source| >= 2 ==> line[1] == source[1];
    assert |source| >= 2 ==> source[..2] != "--";
  }

  lemma SignatureLineIsPlain(maintainer: string, date: string)
    requires WellFormedSignature(maintainer, date)
    ensures var line := SignatureLine(maintainer, date);
      OneLine(line) && StripCr(line) == line
  {
    var line := SignatureLine(maintainer, date);
    assert line[|line| - 1] == ("  " + date)[|date| + 1];
  }

  // ---- What is read, in its own terms --------------------------------------------------------

  lemma {:induction false} FirstLineSpec(lines: seq<string>, wanted: string -> bool)
    ensures FirstLine(lines, wanted).None? <==> forall line | line in lines :: !wanted(line)
    ensures forall i: nat | i < |lines| && wanted(lines[i]) && (forall j | 0 <= j < i :: !wanted(lines[j])) ::
      FirstLine(lines, wanted) == Some(lines[i])
  {
    if lines != [] {
      var rest := lines[1..];
      FirstLineSpec(rest, wanted);
      assert forall line :: line in lines <==> line == lines[0] || line in rest;
      forall i: nat | i < |lines| && wanted(lines[i]) && (forall j | 0 <= j < i :: !wanted(lines[j]))
        ensures FirstLine(lines, wanted) == Some(lines[i])
      {
        if i > 0 {
          assert rest[i - 1] == lines[i];
          assert forall j | 0 <= j < i - 1 :: rest[j] == lines[j + 1];
        }
      }
    }
  }

  // A text is empty exactly when every line is blank.
  lemma EmptyIff(body: string)
    ensures Parse(body) == Err(EmptyChangelog) <==> forall line | line in Lines(body) :: Blank(line)
  {
    FirstLineSpec(Lines(body), NotBlank);
    forall line: string
      ensures NotBlank(line) <==> !Blank(line)
    {
      TrimBlank(line);
    }
  }

  // Line i is the first that is not blank.
  ghost predicate FirstNotBlank(lines: seq<string>, i: nat) {
    i < |lines| && !Blank(lines[i]) && forall j | 0 <= j < i :: Blank(lines[j])
  }

  ghost predicate FirstTrailer(lines: seq<string>, k: nat) {
    k < |lines| && IsTrailer(lines[k]) && forall j | 0 <= j < k :: !IsTrailer(lines[j])
  }

  // The first line that is not blank is the header, well or ill; the first
  // trailer line of all, if there is one, is the signature.
  lemma ParseReads(body: string, i: nat)
    requires FirstNotBlank(Lines(body), i)
    ensures var lines, r := Lines(body), Parse(body);
      && (ParseHeader(lines[i]).None? ==> r == Err(MalformedHeader(lines[i])))
      && (ParseHeader(lines[i]).Some? ==> r.Ok? && r.value.header == ParseHeader(lines[i]).value)
      && (r.Ok? && (forall line | line in lines :: !IsTrailer(line)) ==>
          r.value.maintainer == None && r.value.timestamp == None)
      && (forall k: nat | r.Ok? && FirstTrailer(lines, k) ::
            IsMarker(lines[k]) && (r.value.maintainer, r.value.timestamp) == ParseSignature(lines[k]))
  {
    var lines := Lines(body);
    forall line: string
      ensures NotBlank(line) <==> !Blank(line)
      ensures IsMarker(line) <==> IsTrailer(line)
    {
      TrimBlank(line);
      MarkerIff(line);
    }
    FirstLineSpec(lines, NotBlank);
    FirstLineSpec(lines, IsMarker);
    assert NotBlank(lines[i]) && forall j | 0 <= j < i :: !NotBlank(lines[j]);
    forall k: nat | FirstTrailer(lines, k)
      ensures FirstLine(lines, IsMarker) == Some(lines[k])
    {
      assert IsMarker(lines[k]) && forall j | 0 <= j < k :: !IsMarker(lines[j]);
    }
  }

  // left "(" inside ")" right, cut at the first "(" and the first ")" behind it.
  ghost predicate HasParens(line: string, left: string, inside: string, right: string) {
    line == left + "(" + (inside + (")" + right)) && '(' !in left && ')' !in inside
  }

  lemma HeaderParts(line: string, left: string, inside: string, right: string)
    requires HasParens(line, left, inside, right)
    ensures var r := ParseHeader(line);
      && (r.None? <==> Blank(left) || Blank(inside))
      && (r.Some? ==>
        && r.value.source == Trim(left) && r.value.version == Trim(inside)
        && r.value.distribution == ParseTrailer(Trim(right)).0
        && r.value.urgency == ParseTrailer(Trim(right)).1)
  {
    Parenthesised(left, inside, right, line);
    TrimBlank(left);
    TrimBlank(inside);
  }

  // A header has a source and a version in parentheses behind it; otherwise
  // it is malformed.
  lemma HeaderIff(line: string)
    ensures ParseHeader(line).Some? <==>
      exists left, inside, right :: HasParens(line, left, inside, right) && !Blank(left) && !Blank(inside)
  {
    if left, inside, right :| HasParens(line, left, inside, right) && !Blank(left) && !Blank(inside) {
      HeaderParts(line, left, inside, right);
    }
    if ParseHeader(line).Some? {
      var left, inside, right := ParensOf(line);
      HeaderParts(line, left, inside, right);
    }
  }

  lemma ParensOf(line: string) returns (left: string, inside: string, right: string)
    requires CutParens(line).Some?
    ensures HasParens(line, left, inside, right)
  {
    var open := Find(line, '(').value;
    var length := Find(line[open..], ')').value;
    ParensExist(line, open, length);
    left, inside, right := line[..open], line[open..][..length][1..], line[open..][length + 1..];
  }

  lemma CloseExists(tail: string, length: nat)
    requires tail != "" && tail[0] == '(' && Find(tail, ')') == Some(length)
    ensures length > 0
    ensures tail == "(" + (tail[..length][1..] + (")" + tail[length + 1..]))
    ensures ')' !in tail[..length][1..]
  {
    var inside, right := tail[..length][1..], tail[length + 1..];
    TakeDrop(tail, length);
    assert tail[length..] == ")" + right;
    assert tail[..length] == "(" + inside;
    ConcatAssoc("(", inside, ")" + right);
  }

  lemma ParensExist(line: string, open: nat, length: nat)
    requires Find(line, '(') == Some(open) && Find(line[open..], ')') == Some(length)
    ensures length > 0
    ensures HasParens(line, line[..open], line[open..][..length][1..], line[open..][length + 1..])
  {
    var tail := line[open..];
    CloseExists(tail, length);
    var rest := tail[..length][1..] + (")" + tail[length + 1..]);
    ConcatAssoc(line[..open], "(", rest);
    TakeDrop(line, open);
  }

  // Behind the parentheses: the distribution up to the first ";", and the
  // urgency from the words behind that.
  lemma TrailerParts(distribution: string, after: string)
    requires ';' !in distribution
    ensures var r := ParseTrailer(distribution);
      r.0 == Trim(distribution) && r.1 == ""
    ensures var r := ParseTrailer(distribution + [';'] + after);
      r.0 == Trim(distribution) && r.1 == FindValue(Words(after, ""), "urgency=")
  {
    CutAt(distribution, ';', after, distribution + [';'] + after);
  }

  // The first word with the key gives the value, and none gives the empty one.
  lemma {:induction false} FindValueSpec(words: seq<string>, key: string)
    ensures (forall w | w in words :: !(key <= w)) ==> FindValue(words, key) == ""
    ensures forall i: nat | i < |words| && key <= words[i] && (forall j | 0 <= j < i :: !(key <= words[j])) ::
      FindValue(words, key) == words[i][|key|..]
  {
    if words != [] {
      var rest := words[1..];
      FindValueSpec(rest, key);
      assert words[0] in words && forall w | w in rest :: w in words;
      forall i: nat | i < |words| && key <= words[i] && (forall j | 0 <= j < i :: !(key <= words[j]))
        ensures FindValue(words, key) == words[i][|key|..]
      {
        if i > 0 {
          assert rest[i - 1] == words[i];
          assert forall j | 0 <= j < i - 1 :: rest[j] == words[j + 1];
        }
      }
    }
  }

  // Words are what whitespace leaves: a blank character in front is skipped,
  // and one behind a word ends it.
  lemma WordsSpec(word: string, blank: char, rest: string)
    requires word != "" && NoWhitespace(word) && IsWhitespace(blank)
    ensures Words("", "") == []
    ensures Words([blank] + rest, "") == Words(rest, "")
    ensures Words(word, "") == [word]
    ensures Words(word + ([blank] + rest), "") == [word] + Words(rest, "")
  {
    assert ([blank] + rest)[1..] == rest;
    assert [] + Words(rest, "") == Words(rest, "");
    assert "" + word == word;
    WordsOfWord(word, "");
    WordCollected(word, [blank] + rest, "");
    assert Words([blank] + rest, word) == [word] + Words(rest, "");
  }

  lemma {:induction false} WordCollected(word: string, rest: string, current: string)
    requires NoWhitespace(word)
    ensures Words(word + rest, current) == Words(rest, current + word)
    decreases |word|
  {
    if word == "" {
      assert word + rest == rest && current + word == current;
    } else {
      assert (word + rest)[1..] == word[1..] + rest;
      assert current + [word[0]] + word[1..] == current + word;
      WordCollected(word[1..], rest, current + [word[0]]);
    }
  }

  // Behind the dashes and any whitespace: the maintainer up to the first two
  // spaces, and the date from there on.
  lemma SignatureParts(pre: string, text: string, maintainer: string, date: string)
    requires Blank(pre) && NoDoubleSpace(maintainer) && (maintainer != "" ==> maintainer[|maintainer| - 1] != ' ')
    requires IsMarker(pre + ("--" + text))
    ensures var line := pre + ("--" + text);
      && (TrimStart(text) == maintainer + ("  " + date) ==>
          ParseSignature(line).0 == NonEmpty(Trim(maintainer)) && ParseSignature(line).1 == NonEmpty(Trim("  " + date)))
      && (TrimStart(text) == maintainer ==>
          ParseSignature(line).0 == NonEmpty(Trim(maintainer)) && ParseSignature(line).1 == None)
  {
    TrimStartBlank(pre, "--" + text);
    assert ("--" + text)[2..] == text;
    DoubleSpaceFound(maintainer, date);
    NoneFound(maintainer);
    var rest := maintainer + ("  " + date);
    assert rest[..|maintainer|] == maintainer && rest[|maintainer|..] == "  " + date;
  }

  lemma {:induction false} NoneFound(s: string)
    requires NoDoubleSpace(s)
    ensures FirstDoubleSpace(s).None?
  {
    if |s| >= 2 {
      assert forall i: nat :: DoubleSpaceAt(s[1..], i) ==> DoubleSpaceAt(s, i + 1);
      NoneFound(s[1..]);
    }
  }

  // ---- Main results ---------------------------------------------------------------------

  // An entry printed with well-formed fields, and any change lines that do not
  // look like a trailer, is read back field by field.
  lemma RoundTrip(h: Header, changes: seq<string>, maintainer: string, date: string)
    requires WellFormedHeader(h) && WellFormedSignature(maintainer, date)
    requires forall i | 0 <= i < |changes| :: WellFormedChange(changes[i])
    ensures Parse(Print(h, changes, maintainer, date)) == Ok(Identity(h, Some(maintainer), NonEmpty(date)))
  {
    var first, last := HeaderLine(h), SignatureLine(maintainer, date);
    var printed := [first] + changes + [last];
    HeaderLineIsPlain(h);
    SignatureLineIsPlain(maintainer, date);
    LinesOfBlock(printed);
    StripAllConcat([first] + changes, [last]);
    StripAllConcat([first], changes);
    var lines := StripAll(printed);
    ConcatAssoc([first], StripAll(changes), [last]);
    assert lines == [first] + (StripAll(changes) + [last]);
    assert lines[1..] == StripAll(changes) + [last];
    HeaderReads(h);
    SignatureReads(maintainer, date);
    FirstMarkerSkips(changes, [last]);
  }

  // Whatever follows a text with a complete first entry changes nothing.
  lemma OlderEntriesAreIgnored(body: string, older: string)
    requires body != "" && body[|body| - 1] == '\n'
    requires exists line :: line in Lines(body) && IsTrailer(line)
    ensures Parse(body + older) == Parse(body)
  {
    var line :| line in Lines(body) && IsTrailer(line);
    MarkerIff(line);
    FirstLineSpec(Lines(body), IsMarker);
    LinesAppend(body, older);
    SomeLineNotBlank(Lines(body));
    FirstLineFound(Lines(body), Lines(older), IsMarker);
    FirstLineFound(Lines(body), Lines(older), NotBlank);
  }
}

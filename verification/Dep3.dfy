// The DEP-3 header of a patch under `debian/patches/`, as `read_patch` and
// `assign_dep3` read it (`source_analysis.rs`): one pass that keeps the field
// it is collecting and hands it over only when the next field begins.
module Dep3 {
  import opened Prelude
  import opened Text

  datatype Patch = Patch(
    name: string,
    description: Option<string>,
    author: Option<string>,
    forwarded: Option<string>,
    lastUpdate: Option<string>)

  const DESCRIPTION := "Description"
  const AUTHOR := "Author"
  const FORWARDED := "Forwarded"
  const LAST_UPDATE := "Last-Update"

  function Unread(name: string): Patch {
    Patch(name, None, None, None, None)
  }

  // ---- What a header says ---------------------------------------------------------

  // A line that starts the diff, or a blank one.
  predicate EndsHeader(raw: string) {
    || StartsWith(raw, "--- ")
    || StartsWith(raw, "diff --git")
    || StartsWith(raw, "Index:")
    || Trim(raw) == ""
  }

  function HeaderLines(lines: seq<string>): (h: seq<string>)
    ensures h <= lines
  {
    if lines == [] || EndsHeader(lines[0]) then [] else [lines[0]] + HeaderLines(lines[1..])
  }

  predicate IsField(line: string) {
    ':' in line
  }

  function Key(line: string): string
    requires IsField(line)
  {
    Trim(line[..Find(line, ':').value])
  }

  function FirstPart(line: string): string
    requires IsField(line)
  {
    Trim(line[Find(line, ':').value + 1..])
  }

  predicate Declares(line: string, tag: string) {
    IsField(line) && Key(line) == tag
  }

  // The trimmed lines up to the next field.
  function Continuations(lines: seq<string>): seq<string> {
    if lines == [] || IsField(lines[0]) then [] else [Trim(lines[0])] + Continuations(lines[1..])
  }

  // The value of the field that line i opens.
  function ValueAt(h: seq<string>, i: nat): string
    requires i < |h| && IsField(h[i])
  {
    Join([FirstPart(h[i])] + Continuations(h[i + 1..]), " ")
  }

  ghost predicate LastDeclaredAt(h: seq<string>, tag: string, i: nat) {
    && i < |h| && Declares(h[i], tag)
    && forall j | i < j < |h| :: !Declares(h[j], tag)
  }

  function LastField(h: seq<string>): (r: Option<nat>)
    ensures r.Some? ==> r.value < |h| && IsField(h[r.value])
    ensures forall j | (if r.Some? then r.value + 1 else 0) <= j < |h| :: !IsField(h[j])
  {
    if h == [] then None
    else if IsField(h[|h| - 1]) then Some(|h| - 1)
    else LastField(h[..|h| - 1])
  }

  function LastDeclaration(h: seq<string>, tag: string): (r: Option<nat>)
    ensures r.Some? ==> r.value < |h| && Declares(h[r.value], tag)
    ensures forall j | (if r.Some? then r.value + 1 else 0) <= j < |h| :: !Declares(h[j], tag)
  {
    if h == [] then None
    else if Declares(h[|h| - 1], tag) then Some(|h| - 1)
    else LastDeclaration(h[..|h| - 1], tag)
  }

  function FieldValue(h: seq<string>, tag: string): Option<string> {
    match LastDeclaration(h, tag)
    case None => None
    case Some(i) => NonEmpty(ValueAt(h, i))
  }

  // The meaning of a header: each tag on its own, with no pass over the others.
  function Reading(h: seq<string>, name: string): Patch {
    Patch(name,
      FieldValue(h, DESCRIPTION),
      FieldValue(h, AUTHOR),
      FieldValue(h, FORWARDED),
      FieldValue(h, LAST_UPDATE))
  }

  function ReadBody(body: string, name: string): Patch {
    Reading(HeaderLines(Lines(body)), name)
  }

  lemma FieldValueSpec(h: seq<string>, tag: string)
    ensures FieldValue(h, tag).Some? ==> exists i: nat :: LastDeclaredAt(h, tag, i)
    ensures forall i: nat | LastDeclaredAt(h, tag, i) :: FieldValue(h, tag) == NonEmpty(ValueAt(h, i))
  {
    var r := LastDeclaration(h, tag);
    assert r.Some? ==> LastDeclaredAt(h, tag, r.value);
    forall i: nat | LastDeclaredAt(h, tag, i)
      ensures r == Some(i)
    {
      assert r.Some? ==> Declares(h[r.value], tag);
    }
  }

  // ---- The pass ----------------------------------------------------------------------

  function AssignDep3(patch: Patch, key: string, value: string): Patch {
    var owned := NonEmpty(value);
    if key == DESCRIPTION then patch.(description := owned)
    else if key == AUTHOR then patch.(author := owned)
    else if key == FORWARDED then patch.(forwarded := owned)
    else if key == LAST_UPDATE then patch.(lastUpdate := owned)
    else patch
  }

  // The variables of the pass: the slots, and the field being collected.
  datatype State = State(patch: Patch, key: Option<string>, value: string)

  function Flush(s: State): Patch {
    if s.key.Some? then AssignDep3(s.patch, s.key.value, s.value) else s.patch
  }

  // Where the pass stands after the header lines h: it is collecting the last
  // field begun, and the slots know only of the fields before it.
  function Pending(h: seq<string>, name: string): State {
    match LastField(h)
    case None => State(Unread(name), None, "")
    case Some(c) => State(Reading(h[..c], name), Some(Key(h[c])), ValueAt(h, c))
  }

  lemma {:induction false} ContinuationsStop(a: seq<string>, b: seq<string>)
    requires b != [] && IsField(b[0])
    ensures Continuations(a + b) == Continuations(a)
  {
    if a == [] {
      assert a + b == b;
    } else {
      assert (a + b)[1..] == a[1..] + b;
      ContinuationsStop(a[1..], b);
    }
  }

  lemma {:induction false} ContinuationsGrow(a: seq<string>, line: string)
    requires forall i | 0 <= i < |a| :: !IsField(a[i])
    requires !IsField(line)
    ensures Continuations(a + [line]) == Continuations(a) + [Trim(line)]
  {
    if a == [] {
      assert a + [line] == [line];
      assert [line][1..] == [];
    } else {
      assert (a + [line])[1..] == a[1..] + [line];
      ContinuationsGrow(a[1..], line);
    }
  }

  // A field begun before line c is not affected by what comes from c on.
  lemma ValueStops(h: seq<string>, i: nat, c: nat)
    requires i < c < |h| && IsField(h[i]) && IsField(h[c])
    ensures ValueAt(h, i) == ValueAt(h[..c], i)
  {
    assert h[i + 1..] == h[..c][i + 1..] + h[c..];
    ContinuationsStop(h[..c][i + 1..], h[c..]);
  }

  lemma ValueGrows(h: seq<string>, c: nat, line: string)
    requires c < |h| && IsField(h[c]) && !IsField(line)
    requires forall j | c < j < |h| :: !IsField(h[j])
    ensures ValueAt(h + [line], c) == ValueAt(h, c) + (" " + Trim(line))
  {
    var tail := h[c + 1..];
    assert (h + [line])[c + 1..] == tail + [line];
    ContinuationsGrow(tail, line);
    var parts := [FirstPart(h[c])] + Continuations(tail);
    assert [FirstPart(h[c])] + (Continuations(tail) + [Trim(line)]) == parts + [Trim(line)];
    JoinSnoc(parts, " ", Trim(line));
  }

  lemma DeclaredBefore(h: seq<string>, c: nat, tag: string, j: nat)
    requires c < |h| && IsField(h[c]) && Key(h[c]) != tag
    requires forall k | c < k < |h| :: !IsField(h[k])
    requires j < |h| && Declares(h[j], tag)
    ensures j < c && Declares(h[..c][j], tag)
  {
  }

  lemma LastDeclarationKept(h: seq<string>, c: nat, tag: string)
    requires LastField(h) == Some(c) && Key(h[c]) != tag
    ensures FieldValue(h, tag) == FieldValue(h[..c], tag)
  {
    var before := h[..c];
    forall j: nat | j < |h| && Declares(h[j], tag)
      ensures j < c && Declares(before[j], tag)
    {
      DeclaredBefore(h, c, tag, j);
    }
    var r := LastDeclaration(before, tag);
    FieldValueSpec(h, tag);
    if r.Some? {
      assert LastDeclaredAt(h, tag, r.value);
      ValueStops(h, r.value, c);
    } else {
      assert forall i: nat :: !LastDeclaredAt(h, tag, i);
    }
  }

  lemma TagAfterFlush(h: seq<string>, c: nat, tag: string)
    requires LastField(h) == Some(c)
    ensures FieldValue(h, tag) == if Key(h[c]) == tag then NonEmpty(ValueAt(h, c)) else FieldValue(h[..c], tag)
  {
    if Key(h[c]) == tag {
      assert LastDeclaredAt(h, tag, c);
      FieldValueSpec(h, tag);
    } else {
      LastDeclarationKept(h, c, tag);
    }
  }

  // Handing over the pending field completes the reading.
  lemma FlushCompletes(h: seq<string>, name: string)
    ensures Flush(Pending(h, name)) == Reading(h, name)
  {
    var last := LastField(h);
    if last.Some? {
      TagAfterFlush(h, last.value, DESCRIPTION);
      TagAfterFlush(h, last.value, AUTHOR);
      TagAfterFlush(h, last.value, FORWARDED);
      TagAfterFlush(h, last.value, LAST_UPDATE);
    } else {
      assert forall tag: string :: FieldValue(h, tag) == None;
    }
  }

  lemma PassField(h: seq<string>, name: string, line: string)
    requires IsField(line)
    ensures Pending(h + [line], name) == State(Flush(Pending(h, name)), Some(Key(line)), FirstPart(line))
  {
    FlushCompletes(h, name);
    var next := h + [line];
    assert LastField(next) == Some(|h|);
    assert next[..|h|] == h && next[|h| + 1..] == [];
    assert [FirstPart(line)] + [] == [FirstPart(line)];
  }

  lemma PassContinuation(h: seq<string>, name: string, line: string)
    requires !IsField(line)
    ensures var s := Pending(h, name);
      Pending(h + [line], name) == if s.key.Some? then s.(value := s.value + (" " + Trim(line))) else s
  {
    var next := h + [line];
    assert next[..|h|] == h;
    var last := LastField(h);
    assert LastField(next) == last;
    if last.Some? {
      ValueGrows(h, last.value, line);
      assert next[..last.value] == h[..last.value];
    }
  }

  lemma {:induction false} HeaderGoesOn(h: seq<string>, line: string)
    requires HeaderLines(h) == h && !EndsHeader(line)
    ensures HeaderLines(h + [line]) == h + [line]
  {
    if h == [] {
      assert h + [line] == [line];
      assert [line][1..] == [];
    } else {
      assert (h + [line])[1..] == h[1..] + [line];
      HeaderGoesOn(h[1..], line);
    }
  }

  lemma {:induction false} HeaderStops(a: seq<string>, b: seq<string>)
    requires b != [] ==> EndsHeader(b[0])
    ensures HeaderLines(a + b) == HeaderLines(a)
  {
    if a == [] {
      assert a + b == b;
    } else {
      assert (a + b)[1..] == a[1..] + b;
      HeaderStops(a[1..], b);
    }
  }

  // The body of the loop; `head` is what was read before.
  method ReadHeaderLine(raw: string, patch: Patch, key: Option<string>, value: string, ghost head: seq<string>)
    returns (patch': Patch, key': Option<string>, value': string)
    requires State(patch, key, value) == Pending(head, patch.name)
    ensures State(patch', key', value') == Pending(head + [raw], patch.name)
  {
    patch', key', value' := patch, key, value;
    var colon := Find(raw, ':');
    if colon.Some? {
      PassField(head, patch.name, raw);
      if key.Some? {
        patch' := AssignDep3(patch, key.value, value);
      }
      key', value' := Some(Trim(raw[..colon.value])), Trim(raw[colon.value + 1..]);
    } else {
      PassContinuation(head, patch.name, raw);
      if key.Some? {
        value' := value + (" " + Trim(raw));
      }
    }
  }

  // `body` is None when the file cannot be read.
  method ReadPatch(body: Option<string>, name: string) returns (patch: Patch)
    ensures patch == if body.Some? then ReadBody(body.value, name) else Unread(name)
  {
    patch := Unread(name);
    if body.None? {
      return;
    }
    var lines := Lines(body.value);
    var key: Option<string>, value := None, "";
    var k := 0;
    ghost var head: seq<string> := [];
    while k < |lines| && !EndsHeader(lines[k])
      invariant k <= |lines| && head == lines[..k] && HeaderLines(head) == head
      invariant State(patch, key, value) == Pending(head, name)
    {
      var raw := lines[k];
      TakeSnoc(lines, k);
      HeaderGoesOn(head, raw);
      patch, key, value := ReadHeaderLine(raw, patch, key, value, head);
      head := head + [raw];
      k := k + 1;
    }
    TakeDrop(lines, k);
    HeaderStops(head, lines[k..]);
    FlushCompletes(head, name);
    if key.Some? {
      patch := AssignDep3(patch, key.value, value);
    }
  }

  // ---- What the reading ignores --------------------------------------------------------

  // The beginning of a diff, in one of three spellings.
  ghost predicate StartsDiff(line: string) {
    exists rest: string :: line == "--- " + rest || line == "diff --git" + rest || line == "Index:" + rest
  }

  // The lines that end a header: those that start a diff, and those of
  // whitespace only.
  ghost predicate IsStop(line: string) {
    StartsDiff(line) || forall i | 0 <= i < |line| :: IsWhitespace(line[i])
  }

  lemma PrefixIff(line: string, prefix: string)
    ensures prefix <= line <==> exists rest: string :: line == prefix + rest
  {
    if prefix <= line {
      assert line == prefix + line[|prefix|..];
    }
  }

  lemma StopIff(line: string)
    ensures EndsHeader(line) <==> IsStop(line)
  {
    PrefixIff(line, "--- ");
    PrefixIff(line, "diff --git");
    PrefixIff(line, "Index:");
    TrimBlank(line);
  }

  lemma PrefixSurvivesCr(line: string, prefix: string)
    requires prefix <= line && '\r' !in prefix
    ensures prefix <= StripCr(line)
  {
    if |prefix| == |line| {
      assert line == prefix;
    }
  }

  // Whether the line ends in "\n" or in "\r\n" makes no difference.
  lemma StopSurvivesCr(line: string)
    requires IsStop(line)
    ensures EndsHeader(StripCr(line))
  {
    StopIff(line);
    if Trim(line) == "" {
      TrimBlank(line);
      TrimBlank(StripCr(line));
    } else if StartsWith(line, "--- ") {
      PrefixSurvivesCr(line, "--- ");
    } else if StartsWith(line, "diff --git") {
      PrefixSurvivesCr(line, "diff --git");
    } else {
      PrefixSurvivesCr(line, "Index:");
    }
  }

  // A header goes on to the first such line: through every other line, and no
  // further.
  lemma HeaderExtent(head: seq<string>, rest: seq<string>)
    requires forall line | line in head :: !IsStop(line)
    requires rest != [] ==> IsStop(rest[0])
    ensures HeaderLines(head + rest) == head
  {
    forall line | line in head
      ensures !EndsHeader(line)
    {
      StopIff(line);
    }
    if rest != [] {
      StopIff(rest[0]);
    }
    HeaderStops(head, rest);
    AllHeader(head);
  }

  lemma {:induction false} AllHeader(lines: seq<string>)
    requires forall line | line in lines :: !EndsHeader(line)
    ensures HeaderLines(lines) == lines
  {
    if lines != [] {
      assert lines[0] in lines;
      AllHeader(lines[1..]);
    }
  }

  // The key is what stands before the first colon, the value what stands behind.
  lemma FieldParts(key: string, value: string)
    requires ':' !in key
    ensures var line := key + [':'] + value;
      IsField(line) && Key(line) == Trim(key) && FirstPart(line) == Trim(value)
    ensures !IsField(key)
  {
    CutAt(key, ':', value, key + [':'] + value);
  }

  // Nothing from the first blank or diff line on has any effect.
  lemma DiffIsIgnored(head: string, stop: string, diff: string, name: string)
    requires head == "" || head[|head| - 1] == '\n'
    requires OneLine(stop) && IsStop(stop)
    ensures ReadBody(head + (stop + "\n" + diff), name) == ReadBody(head, name)
  {
    LinesAppend(head, stop + "\n" + diff);
    LinesCons(stop, diff);
    StopSurvivesCr(stop);
    HeaderStops(Lines(head), [StripCr(stop)] + Lines(diff));
  }

  // ---- Reading back a printed header -----------------------------------------------------

  // A field, the value on its own line, and the continuation lines below it.
  datatype Entry = Entry(tag: string, value: string, more: seq<string>)

  function FieldLine(tag: string, value: string): string {
    tag + ":" + (" " + value)
  }

  function EntryLines(e: Entry): seq<string> {
    [FieldLine(e.tag, e.value)] + e.more
  }

  function PrintedLines(entries: seq<Entry>): seq<string> {
    if entries == [] then []
    else PrintedLines(entries[..|entries| - 1]) + EntryLines(entries[|entries| - 1])
  }

  function Print(entries: seq<Entry>): string {
    Block(PrintedLines(entries))
  }

  function TrimAll(lines: seq<string>): seq<string> {
    if lines == [] then [] else [Trim(lines[0])] + TrimAll(lines[1..])
  }

  // The value and the trimmed continuations, joined by single spaces.
  function EntryValue(e: Entry): string {
    Join([e.value] + TrimAll(e.more), " ")
  }

  function LastValue(entries: seq<Entry>, tag: string): Option<string> {
    if entries == [] then None
    else
      var last := entries[|entries| - 1];
      if last.tag == tag then NonEmpty(EntryValue(last)) else LastValue(entries[..|entries| - 1], tag)
  }

  ghost predicate WellFormed(e: Entry) {
    && IsTag(e.tag)
    && Trimmed(e.value) && OneLine(e.value)
    && forall line | line in e.more :: IsContinuation(line)
  }

  // What a tag has to be for its line to be read as its field.
  predicate IsTag(tag: string) {
    && tag != "" && Trimmed(tag) && ':' !in tag && OneLine(tag)
    && tag != "Index" && !StartsWith(tag, "--- ") && !StartsWith(tag, "diff --git")
  }

  ghost predicate IsContinuation(line: string) {
    ':' !in line && OneLine(line) && StripCr(line) == line && !IsStop(line)
  }

  lemma FieldLineParts(tag: string, value: string)
    requires IsTag(tag) && Trimmed(value)
    ensures Declares(FieldLine(tag, value), tag) && FirstPart(FieldLine(tag, value)) == value
  {
    var line, tail := FieldLine(tag, value), " " + value;
    assert line == tag + [':'] + tail;
    CutAt(tag, ':', tail, line);
    TrimTrimmed(tag);
    TrimOneSpace(value);
  }

  lemma LongPrefixHasColon(tag: string, tail: string, pat: string)
    requires |pat| > |tag| && pat <= tag + [':'] + tail
    ensures ':' in pat
  {
    var line := tag + [':'] + tail;
    assert line[|tag|] == ':' && pat[|tag|] == line[|tag|];
  }

  // A beginning of the line without a colon is a beginning of the tag.
  lemma PrefixOfTag(tag: string, tail: string, pat: string)
    requires ':' !in pat && pat <= tag + [':'] + tail
    ensures pat <= tag
  {
    if |pat| > |tag| {
      LongPrefixHasColon(tag, tail, pat);
    }
    assert (tag + [':'] + tail)[..|tag|] == tag;
  }

  lemma ColonAt(tag: string, tail: string, pat: string)
    requires ':' !in tag && ':' !in pat && pat + [':'] <= tag + [':'] + tail
    ensures pat == tag
  {
    var line := tag + [':'] + tail;
    CutAt(tag, ':', tail, line);
    assert line == pat + [':'] + line[|pat| + 1..];
    CutAt(pat, ':', line[|pat| + 1..], line);
  }

  lemma FieldLineIsPlain(tag: string, value: string)
    requires IsTag(tag) && Trimmed(value) && OneLine(value)
    ensures !EndsHeader(FieldLine(tag, value))
    ensures OneLine(FieldLine(tag, value)) && StripCr(FieldLine(tag, value)) == FieldLine(tag, value)
  {
    var line, tail := FieldLine(tag, value), " " + value;
    assert line == tag + [':'] + tail;
    assert line[|line| - 1] == tail[|tail| - 1];
    assert line[0] == tag[0];
    assert !Blank(line);
    TrimBlank(line);
    if StartsWith(line, "--- ") {
      PrefixOfTag(tag, tail, "--- ");
    }
    if StartsWith(line, "diff --git") {
      PrefixOfTag(tag, tail, "diff --git");
    }
    if StartsWith(line, "Index:") {
      assert "Index:" == "Index" + [':'];
      ColonAt(tag, tail, "Index");
    }
  }

  predicate Plain(line: string) {
    OneLine(line) && StripCr(line) == line && !EndsHeader(line)
  }

  lemma {:induction false} PrintedIsPlain(entries: seq<Entry>)
    requires forall e | e in entries :: WellFormed(e)
    ensures forall line | line in PrintedLines(entries) :: Plain(line)
  {
    if entries != [] {
      var last := entries[|entries| - 1];
      assert WellFormed(last);
      PrintedIsPlain(entries[..|entries| - 1]);
      FieldLineIsPlain(last.tag, last.value);
      forall line | line in last.more
        ensures Plain(line)
      {
        StopIff(line);
      }
    }
  }

  lemma {:induction false} PlainLinesStay(lines: seq<string>)
    requires forall line | line in lines :: Plain(line)
    ensures StripAll(lines) == lines == HeaderLines(lines)
  {
    if lines != [] {
      assert lines[0] in lines;
      PlainLinesStay(lines[1..]);
      assert lines == [lines[0]] + lines[1..];
    }
  }

  lemma PrintReads(entries: seq<Entry>)
    requires forall e | e in entries :: WellFormed(e)
    ensures Lines(Print(entries)) == PrintedLines(entries) == HeaderLines(PrintedLines(entries))
  {
    PrintedIsPlain(entries);
    assert forall i | 0 <= i < |PrintedLines(entries)| :: PrintedLines(entries)[i] in PrintedLines(entries);
    LinesOfBlock(PrintedLines(entries));
    PlainLinesStay(PrintedLines(entries));
  }

  lemma {:induction false} AllContinue(lines: seq<string>)
    requires forall line | line in lines :: !IsField(line)
    ensures Continuations(lines) == TrimAll(lines)
  {
    if lines != [] {
      assert lines[0] in lines;
      AllContinue(lines[1..]);
    }
  }

  lemma FieldAdded(h: seq<string>, line: string, more: seq<string>, tag: string)
    requires IsField(line) && forall l | l in more :: !IsField(l)
    ensures FieldValue(h + ([line] + more), tag) ==
      if Key(line) == tag then NonEmpty(Join([FirstPart(line)] + TrimAll(more), " ")) else FieldValue(h, tag)
  {
    var next := h + ([line] + more);
    assert next[|h|] == line && next[..|h|] == h && next[|h| + 1..] == more;
    assert forall j | |h| < j < |next| :: next[j] == more[j - |h| - 1] && next[j] in more;
    assert LastField(next) == Some(|h|);
    TagAfterFlush(next, |h|, tag);
    AllContinue(more);
  }

  lemma {:induction false} EntriesRead(entries: seq<Entry>, tag: string)
    requires forall e | e in entries :: WellFormed(e)
    ensures FieldValue(PrintedLines(entries), tag) == LastValue(entries, tag)
  {
    if entries != [] {
      var front, last := entries[..|entries| - 1], entries[|entries| - 1];
      assert WellFormed(last);
      EntriesRead(front, tag);
      FieldLineParts(last.tag, last.value);
      FieldAdded(PrintedLines(front), FieldLine(last.tag, last.value), last.more, tag);
    }
  }

  // Printing fields with their continuation lines, in any order and with
  // repetitions, and then a blank or diff line and anything at all, reads back
  // as the last value of each tag.
  lemma PrintedHeaderReads(entries: seq<Entry>, stop: string, diff: string, name: string)
    requires forall e | e in entries :: WellFormed(e)
    requires OneLine(stop) && IsStop(stop)
    ensures var patch := ReadBody(Print(entries) + (stop + "\n" + diff), name);
      && patch.name == name
      && patch.description == LastValue(entries, "Description")
      && patch.author == LastValue(entries, "Author")
      && patch.forwarded == LastValue(entries, "Forwarded")
      && patch.lastUpdate == LastValue(entries, "Last-Update")
  {
    PrintReads(entries);
    BlockIsText(PrintedLines(entries));
    DiffIsIgnored(Print(entries), stop, diff, name);
    EntriesRead(entries, DESCRIPTION);
    EntriesRead(entries, AUTHOR);
    EntriesRead(entries, FORWARDED);
    EntriesRead(entries, LAST_UPDATE);
  }
}

// The `str` operations of Rust's standard library that the parsers are
// written with, over Unicode scalar values.
module Text {
  import opened Prelude

  // The Unicode White_Space property, which `char::is_whitespace` tests.
  predicate IsWhitespace(c: char) {
    var u := c as int;
    || 0x9 <= u <= 0xD
    || u in {0x20, 0x85, 0xA0, 0x1680, 0x2028, 0x2029, 0x202F, 0x205F, 0x3000}
    || 0x2000 <= u <= 0x200A
  }

  predicate Blank(s: string) {
    forall i | 0 <= i < |s| :: IsWhitespace(s[i])
  }

  // No whitespace at either end: what `trim` leaves alone.
  predicate Trimmed(s: string) {
    s != "" ==> !IsWhitespace(s[0]) && !IsWhitespace(s[|s| - 1])
  }

  function LeadingBlanks(s: string): (k: nat)
    ensures k <= |s|
  {
    if s != "" && IsWhitespace(s[0]) then 1 + LeadingBlanks(s[1..]) else 0
  }

  function TrailingBlanks(s: string): (k: nat)
    ensures k <= |s|
  {
    if s != "" && IsWhitespace(s[|s| - 1]) then 1 + TrailingBlanks(s[..|s| - 1]) else 0
  }

  lemma {:induction false} LeadingBlanksSpec(s: string)
    ensures var k := LeadingBlanks(s);
      Blank(s[..k]) && (k < |s| ==> !IsWhitespace(s[k]))
  {
    if s != "" && IsWhitespace(s[0]) {
      LeadingBlanksSpec(s[1..]);
      var k := LeadingBlanks(s[1..]);
      assert s[..1 + k] == [s[0]] + s[1..][..k];
    }
  }

  lemma {:induction false} TrailingBlanksSpec(s: string)
    ensures var k := TrailingBlanks(s);
      Blank(s[|s| - k..]) && (k < |s| ==> !IsWhitespace(s[|s| - k - 1]))
  {
    if s != "" && IsWhitespace(s[|s| - 1]) {
      var t := s[..|s| - 1];
      TrailingBlanksSpec(t);
      var k := TrailingBlanks(t);
      assert s[|s| - k - 1..] == t[|t| - k..] + [s[|s| - 1]];
    }
  }

  function TrimStart(s: string): string {
    s[LeadingBlanks(s)..]
  }

  function TrimEnd(s: string): string {
    s[..|s| - TrailingBlanks(s)]
  }

  function Trim(s: string): string {
    TrimEnd(TrimStart(s))
  }

  lemma TrimIsTrimmed(s: string)
    ensures Trimmed(Trim(s))
  {
    LeadingBlanksSpec(s);
    TrailingBlanksSpec(TrimStart(s));
  }

  lemma TrimStartBlank(pre: string, x: string)
    requires Blank(pre)
    requires x != "" ==> !IsWhitespace(x[0])
    ensures TrimStart(pre + x) == x
  {
    var s := pre + x;
    var k := LeadingBlanks(s);
    LeadingBlanksSpec(s);
    assert forall i | 0 <= i < k :: IsWhitespace(s[..k][i]) && s[..k][i] == s[i];
    assert x != "" ==> s[|pre|] == x[0];
    assert forall i | 0 <= i < |pre| :: s[i] == pre[i];
    assert k == |pre|;
  }

  lemma TrimEndBlank(x: string, post: string)
    requires Blank(post)
    requires x != "" ==> !IsWhitespace(x[|x| - 1])
    ensures TrimEnd(x + post) == x
  {
    var s := x + post;
    var k := TrailingBlanks(s);
    TrailingBlanksSpec(s);
    assert forall i | |s| - k <= i < |s| :: s[|s| - k..][i - (|s| - k)] == s[i];
    assert x != "" ==> s[|x| - 1] == x[|x| - 1];
    assert forall i | |x| <= i < |s| :: s[i] == post[i - |x|];
    assert k == |post|;
  }

  lemma TrimPadded(pre: string, x: string, post: string)
    requires Blank(pre) && Blank(post) && Trimmed(x)
    ensures Trim(pre + x + post) == x
  {
    if x == "" {
      assert pre + x + post == (pre + post) + "";
      TrimStartBlank(pre + post, "");
      TrimEndBlank("", "");
    } else {
      assert pre + x + post == pre + (x + post);
      TrimStartBlank(pre, x + post);
      TrimEndBlank(x, post);
    }
  }

  lemma TrimTrimmed(x: string)
    requires Trimmed(x)
    ensures Trim(x) == x
  {
    TrimPadded("", x, "");
    assert "" + x + "" == x;
  }

  lemma TrimOneSpace(x: string)
    requires Trimmed(x)
    ensures Trim(x + " ") == x && Trim(" " + x) == x
  {
    TrimPadded("", x, " ");
    assert "" + x + " " == x + " ";
    TrimPadded(" ", x, "");
    assert " " + x + "" == " " + x;
  }

  // What `trim` takes away is whitespace only.
  lemma TrimSplits(s: string) returns (pre: string, post: string)
    ensures s == pre + Trim(s) + post && Blank(pre) && Blank(post)
  {
    var t := TrimStart(s);
    LeadingBlanksSpec(s);
    TrailingBlanksSpec(t);
    var i, j := LeadingBlanks(s), |t| - TrailingBlanks(t);
    TakeDrop(s, i);
    TakeDrop(t, j);
    ConcatAssoc(s[..i], t[..j], t[j..]);
    pre, post := s[..i], t[j..];
  }

  lemma TrimBlank(s: string)
    ensures Trim(s) == "" <==> Blank(s)
  {
    var pre, post := TrimSplits(s);
    if Blank(s) {
      assert s + "" + "" == s;
      TrimPadded(s, "", "");
    }
    assert Trim(s) == "" ==> s == pre + post;
  }

  function NonEmpty(s: string): Option<string> {
    if s == "" then None else Some(s)
  }

  predicate StartsWith(s: string, prefix: string) {
    prefix <= s
  }

  function Find(s: string, c: char): (r: Option<nat>)
    ensures r.None? <==> c !in s
    ensures r.Some? ==> r.value < |s| && s[r.value] == c && c !in s[..r.value]
  {
    if s == "" then None
    else if s[0] == c then Some(0)
    else match Find(s[1..], c)
      case None => None
      case Some(i) =>
        assert s[..i + 1] == [s[0]] + s[1..][..i];
        Some(i + 1)
  }

  lemma FindAt(a: string, c: char, b: string)
    requires c !in a
    ensures Find(a + [c] + b, c) == Some(|a|)
  {
    var s := a + [c] + b;
    assert s[|a|] == c;
    var i := Find(s, c).value;
    assert forall j | 0 <= j < |a| :: s[j] == a[j];
    assert forall j | 0 <= j < i :: s[..i][j] == s[j];
  }

  // `split_once` at the separator.
  lemma CutAt(a: string, c: char, b: string, s: string)
    requires c !in a && s == a + [c] + b
    ensures Find(s, c) == Some(|a|) && s[..|a|] == a && s[|a| + 1..] == b
  {
    FindAt(a, c, b);
  }

  function RFind(s: string, c: char): (r: Option<nat>)
    ensures r.None? <==> c !in s
    ensures r.Some? ==> r.value < |s| && s[r.value] == c && c !in s[r.value + 1..]
  {
    if s == "" then None
    else if s[|s| - 1] == c then Some(|s| - 1)
    else
      assert s == s[..|s| - 1] + [s[|s| - 1]];
      var r := RFind(s[..|s| - 1], c);
      assert r.Some? ==> s[r.value + 1..] == s[..|s| - 1][r.value + 1..] + [s[|s| - 1]];
      r
  }

  lemma {:induction false} RFindAt(a: string, c: char, b: string)
    requires c !in b
    ensures RFind(a + [c] + b, c) == Some(|a|)
    decreases |b|
  {
    var s := a + [c] + b;
    if b == "" {
      assert s[|s| - 1] == c;
    } else {
      var b' := b[..|b| - 1];
      assert s[..|s| - 1] == a + [c] + b';
      assert s[|s| - 1] == b[|b| - 1];
      RFindAt(a, c, b');
    }
  }

  // `str::find` with a string pattern.
  function FindStr(s: string, pat: string): (r: Option<nat>)
    ensures r.Some? ==> r.value + |pat| <= |s|
  {
    if pat <= s then Some(0)
    else if s == "" then None
    else match FindStr(s[1..], pat)
      case None => None
      case Some(i) => Some(i + 1)
  }

  predicate OccursAt(s: string, pat: string, i: nat) {
    i + |pat| <= |s| && s[i..i + |pat|] == pat
  }

  lemma OccursAtFront(s: string, pat: string)
    ensures OccursAt(s, pat, 0) <==> pat <= s
  {
    assert |pat| <= |s| ==> s[0..0 + |pat|] == s[..|pat|];
  }

  lemma OccursAtTail(s: string, pat: string, i: nat)
    requires s != "" && i > 0
    ensures OccursAt(s, pat, i) <==> OccursAt(s[1..], pat, i - 1)
  {
    assert i + |pat| <= |s| ==> s[1..][i - 1..i - 1 + |pat|] == s[i..i + |pat|];
  }

  lemma {:induction false} FindStrSpec(s: string, pat: string)
    ensures var r := FindStr(s, pat);
      && (r.Some? ==> OccursAt(s, pat, r.value))
      && (forall i: nat | OccursAt(s, pat, i) :: r.Some? && r.value <= i)
  {
    OccursAtFront(s, pat);
    if s != "" && !(pat <= s) {
      FindStrSpec(s[1..], pat);
      forall i: nat
        ensures OccursAt(s, pat, i) <==> i > 0 && OccursAt(s[1..], pat, i - 1)
      {
        if i > 0 {
          OccursAtTail(s, pat, i);
        }
      }
      var r := FindStr(s, pat);
      assert r.Some? ==> OccursAt(s[1..], pat, r.value - 1);
    }
  }

  predicate Contains(s: string, pat: string) {
    FindStr(s, pat).Some?
  }

  // A "\r" right before the "\n" belongs to the line ending.
  function StripCr(line: string): (r: string) {
    if line != "" && line[|line| - 1] == '\r' then line[..|line| - 1] else line
  }

  // `str::lines`: a final line without "\n" is a line, keeping any "\r".
  function Lines(s: string): seq<string>
    decreases |s|
  {
    if s == "" then []
    else match Find(s, '\n')
      case None => [s]
      case Some(i) => [StripCr(s[..i])] + Lines(s[i + 1..])
  }

  lemma LinesCons(line: string, rest: string)
    requires '\n' !in line
    ensures Lines(line + "\n" + rest) == [StripCr(line)] + Lines(rest)
  {
    var s := line + "\n" + rest;
    FindAt(line, '\n', rest);
    assert s == line + ['\n'] + rest;
    assert s[..|line|] == line && s[|line| + 1..] == rest;
  }

  lemma CutLine(s: string) returns (line: string, rest: string)
    requires s != "" && s[|s| - 1] == '\n'
    ensures s == line + "\n" + rest && '\n' !in line
    ensures rest == "" || rest[|rest| - 1] == '\n'
  {
    var i := Find(s, '\n').value;
    line, rest := s[..i], s[i + 1..];
  }

  lemma LinesConsAppend(line: string, rest: string, b: string)
    requires '\n' !in line
    requires Lines(rest + b) == Lines(rest) + Lines(b)
    ensures Lines(line + "\n" + rest + b) == Lines(line + "\n" + rest) + Lines(b)
  {
    var whole := rest + b;
    assert line + "\n" + rest + b == line + "\n" + whole;
    LinesCons(line, whole);
    LinesCons(line, rest);
    ConcatAssoc([StripCr(line)], Lines(rest), Lines(b));
  }

  // A text that ends its last line can be extended without disturbing it.
  lemma {:induction false} LinesAppend(a: string, b: string)
    requires a == "" || a[|a| - 1] == '\n'
    ensures Lines(a + b) == Lines(a) + Lines(b)
    decreases |a|
  {
    if a == "" {
      assert a + b == b;
    } else {
      var line, rest := CutLine(a);
      LinesAppend(rest, b);
      LinesConsAppend(line, rest, b);
    }
  }

  lemma LastLine(s: string)
    requires OneLine(s)
    ensures Lines(s) == if s == "" then [] else [s]
  {
  }

  lemma StripCrSpec(s: string)
    ensures StripCr(s + "\r") == s
    ensures (s == "" || s[|s| - 1] != '\r') ==> StripCr(s) == s
  {
  }

  // Among the ASCII characters, tab to carriage return, and space.
  lemma AsciiWhitespace(c: char)
    requires c as int < 128
    ensures IsWhitespace(c) <==> '\t' <= c <= '\r' || c == ' '
  {
  }

  // Lines written out, each with its line ending.
  function Block(lines: seq<string>): string {
    if lines == [] then "" else lines[0] + "\n" + Block(lines[1..])
  }

  predicate OneLine(s: string) {
    '\n' !in s
  }

  function StripAll(lines: seq<string>): seq<string> {
    if lines == [] then [] else [StripCr(lines[0])] + StripAll(lines[1..])
  }

  lemma {:induction false} LinesOfBlock(lines: seq<string>)
    requires forall i | 0 <= i < |lines| :: OneLine(lines[i])
    ensures Lines(Block(lines)) == StripAll(lines)
  {
    if lines != [] {
      LinesCons(lines[0], Block(lines[1..]));
      LinesOfBlock(lines[1..]);
    }
  }

  lemma {:induction false} BlockIsText(lines: seq<string>)
    ensures Block(lines) == "" || Block(lines)[|Block(lines)| - 1] == '\n'
  {
    if lines != [] {
      BlockIsText(lines[1..]);
    }
  }

  // `[..].join(sep)`
  function Join(xs: seq<string>, sep: string): string {
    if |xs| == 0 then ""
    else if |xs| == 1 then xs[0]
    else xs[0] + (sep + Join(xs[1..], sep))
  }

  lemma JoinTwo(x: string, y: string, sep: string)
    ensures Join([], sep) == "" && Join([x], sep) == x && Join([x, y], sep) == x + (sep + y)
  {
    assert [x, y][1..] == [y];
  }

  lemma {:induction false} JoinSnoc(xs: seq<string>, sep: string, x: string)
    requires xs != []
    ensures Join(xs + [x], sep) == Join(xs, sep) + (sep + x)
  {
    if |xs| == 1 {
      assert (xs + [x])[1..] == [x];
    } else {
      assert (xs + [x])[1..] == xs[1..] + [x];
      JoinSnoc(xs[1..], sep, x);
      var tail, end := Join(xs[1..], sep), sep + x;
      ConcatAssoc(sep, tail, end);
      ConcatAssoc(xs[0], sep + tail, end);
    }
  }
}

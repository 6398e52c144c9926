// `split_comma_list` (`source_analysis.rs`): the relationship lists of section
// 7.1 of Debian Policy, split at the commas outside parentheses.
module CommaList {
  import opened Prelude
  import opened Text

  // An entry is emitted unless nothing is left of it after trimming.
  function Emit(current: string): seq<string> {
    var trimmed := Trim(current);
    if trimmed == "" then [] else [trimmed]
  }

  function DepthAfter(depth: int, c: char): int {
    if c == '(' then depth + 1 else if c == ')' then depth - 1 else depth
  }

  // The scan from the middle: `depth` parentheses open, `current` collected.
  // A stray ")" takes the depth below zero, where commas do not split either.
  function Scan(s: string, depth: int, current: string): seq<string>
    decreases |s|
  {
    if s == "" then Emit(current)
    else if s[0] == ',' && depth == 0 then Emit(current) + Scan(s[1..], depth, "")
    else Scan(s[1..], DepthAfter(depth, s[0]), current + [s[0]])
  }

  function Split(s: string): seq<string> {
    Scan(s, 0, "")
  }

  method SplitCommaList(s: string) returns (out: seq<string>)
    ensures out == Split(s)
  {
    out := [];
    var depth := 0;
    var current := "";
    for i := 0 to |s|
      invariant Split(s) == out + Scan(s[i..], depth, current)
    {
      var c := s[i];
      assert s[i..][0] == c && s[i..][1..] == s[i + 1..];
      match c
      case '(' =>
        depth := depth + 1;
        current := current + [c];
      case ')' =>
        depth := depth - 1;
        current := current + [c];
      case _ =>
        if c == ',' && depth == 0 {
          var trimmed := Trim(current);
          ghost var rest := Scan(s[i + 1..], depth, "");
          ConcatAssoc(out, Emit(current), rest);
          assert out + [] == out;
          if trimmed != "" {
            out := out + [trimmed];
          }
          current := "";
        } else {
          current := current + [c];
        }
    }
    assert s[|s|..] == "";
    var trimmed := Trim(current);
    assert out + [] == out;
    if trimmed != "" {
      out := out + [trimmed];
    }
  }

  // ---- Normal lists -------------------------------------------------------------

  // How much the parentheses of s raise the depth.
  function Net(s: string): int {
    if s == "" then 0 else DepthAfter(0, s[0]) + Net(s[1..])
  }

  // No comma of s, entered at the given depth, splits it.
  predicate NoSplit(s: string, depth: int) {
    s == "" || (!(s[0] == ',' && depth == 0) && NoSplit(s[1..], DepthAfter(depth, s[0])))
  }

  predicate NormalEntry(x: string) {
    x != "" && Trimmed(x) && NoSplit(x, 0)
  }

  predicate NormalScan(xs: seq<string>) {
    && (forall i | 0 <= i < |xs| :: NormalEntry(xs[i]))
    && (forall i | 0 <= i < |xs| - 1 :: Net(xs[i]) == 0)
  }

  lemma {:induction false} NetSnoc(s: string, c: char)
    ensures Net(s + [c]) == DepthAfter(Net(s), c)
  {
    if s != "" {
      assert (s + [c])[1..] == s[1..] + [c];
      NetSnoc(s[1..], c);
    } else {
      assert (s + [c])[1..] == "";
    }
  }

  lemma {:induction false} NoSplitSnoc(s: string, c: char, depth: int)
    requires NoSplit(s, depth) && !(c == ',' && depth + Net(s) == 0)
    ensures NoSplit(s + [c], depth)
    decreases |s|
  {
    if s != "" {
      assert (s + [c])[1..] == s[1..] + [c];
      NoSplitSnoc(s[1..], c, DepthAfter(depth, s[0]));
    } else {
      assert (s + [c])[1..] == "";
    }
  }

  // Whitespace neither opens, closes nor splits.
  lemma {:induction false} PaddingIsNeutral(pre: string, x: string, post: string, depth: int)
    requires Blank(pre) && Blank(post)
    ensures Net(pre + x + post) == Net(x)
    ensures NoSplit(pre + x + post, depth) <==> NoSplit(x, depth)
    decreases |pre| + |x| + |post|
  {
    var s := pre + x + post;
    if pre != "" {
      assert s[1..] == pre[1..] + x + post;
      PaddingIsNeutral(pre[1..], x, post, depth);
    } else if x != "" {
      assert s[1..] == pre + x[1..] + post;
      PaddingIsNeutral(pre, x[1..], post, DepthAfter(depth, x[0]));
    } else if post != "" {
      assert s[1..] == pre + x + post[1..];
      PaddingIsNeutral(pre, x, post[1..], depth);
    }
  }

  // What is collected between two splits becomes a normal entry, if anything.
  lemma EmitNormal(current: string)
    requires NoSplit(current, 0)
    ensures |Emit(current)| <= 1
    ensures forall x | x in Emit(current) :: NormalEntry(x) && Net(x) == Net(current)
  {
    var pre, post := TrimSplits(current);
    TrimIsTrimmed(current);
    PaddingIsNeutral(pre, Trim(current), post, 0);
  }

  lemma NormalCons(xs: seq<string>, ys: seq<string>)
    requires NormalScan(xs) && NormalScan(ys) && |xs| <= 1
    requires forall x | x in xs :: Net(x) == 0
    ensures NormalScan(xs + ys)
  {
  }

  lemma {:induction false} ScanNormal(s: string, depth: int, current: string)
    requires NoSplit(current, 0) && depth == Net(current)
    ensures NormalScan(Scan(s, depth, current))
    decreases |s|
  {
    EmitNormal(current);
    if s != "" {
      if s[0] == ',' && depth == 0 {
        ScanNormal(s[1..], 0, "");
        NormalCons(Emit(current), Scan(s[1..], 0, ""));
      } else {
        NetSnoc(current, s[0]);
        NoSplitSnoc(current, s[0], 0);
        ScanNormal(s[1..], DepthAfter(depth, s[0]), current + [s[0]]);
      }
    }
  }

  // Reading an entry that does not split only collects it.
  lemma {:induction false} ScanEntry(x: string, rest: string, depth: int, current: string, collected: string)
    requires NoSplit(x, depth) && collected == current + x
    ensures Scan(x + rest, depth, current) == Scan(rest, depth + Net(x), collected)
    decreases |x|
  {
    if x == "" {
      assert x + rest == rest && current + x == current;
    } else {
      assert (x + rest)[1..] == x[1..] + rest;
      assert current + [x[0]] + x[1..] == collected;
      ScanEntry(x[1..], rest, DepthAfter(depth, x[0]), current + [x[0]], collected);
    }
  }

  lemma EmitPadded(pad: string, x: string)
    requires Blank(pad) && NormalEntry(x)
    ensures Emit(pad + x) == [x]
  {
    assert pad + x + "" == pad + x;
    TrimPadded(pad, x, "");
  }

  lemma ScanSeparator(tail: string, current: string)
    ensures Scan(", " + tail, 0, current) == Emit(current) + Scan(tail, 0, " ")
  {
    var spaced := " " + tail;
    assert (", " + tail)[1..] == spaced;
    assert spaced[1..] == tail && "" + [spaced[0]] == " ";
  }

  lemma ScanLast(x: string, current: string)
    requires NormalEntry(x) && Blank(current)
    ensures Scan(x, 0, current) == [x]
  {
    EmitPadded(current, x);
    assert x + "" == x;
    ScanEntry(x, "", 0, current, current + x);
  }

  lemma ScanFirst(x: string, rest: string, tail: string, current: string)
    requires NormalEntry(x) && Net(x) == 0 && Blank(current)
    requires rest == ", " + tail
    ensures Scan(x + rest, 0, current) == [x] + Scan(tail, 0, " ")
  {
    EmitPadded(current, x);
    ScanEntry(x, rest, 0, current, current + x);
    ScanSeparator(tail, current + x);
  }

  lemma {:induction false} ScanJoined(xs: seq<string>, current: string)
    requires NormalScan(xs) && xs != [] && Blank(current)
    ensures Scan(Join(xs, ", "), 0, current) == xs
    decreases |xs|
  {
    if |xs| == 1 {
      ScanLast(xs[0], current);
    } else {
      var tail := Join(xs[1..], ", ");
      ScanFirst(xs[0], ", " + tail, tail, current);
      ScanJoined(xs[1..], " ");
      assert xs == [xs[0]] + xs[1..];
    }
  }

  lemma {:induction false} ScanThroughComma(a: string, b: string, depth: int, current: string)
    requires depth + Net(a) == 0
    ensures Scan(a + "," + b, depth, current) == Scan(a, depth, current) + Scan(b, 0, "")
    decreases |a|
  {
    var s := a + "," + b;
    if a == "" {
      assert s[1..] == b;
    } else {
      assert s[1..] == a[1..] + "," + b;
      if a[0] == ',' && depth == 0 {
        ScanThroughComma(a[1..], b, 0, "");
        ConcatAssoc(Emit(current), Scan(a[1..], 0, ""), Scan(b, 0, ""));
      } else {
        ScanThroughComma(a[1..], b, DepthAfter(depth, a[0]), current + [a[0]]);
      }
    }
  }

  // ---- In terms of counts ---------------------------------------------------------------

  // As many "(" as ")".
  predicate Balanced(s: string) {
    multiset(s)['('] == multiset(s)[')']
  }

  // A comma with as many "(" as ")" before it.
  predicate Separates(s: string, i: nat) {
    i < |s| && s[i] == ',' && Balanced(s[..i])
  }

  predicate Whole(s: string) {
    forall i: nat | i < |s| :: !Separates(s, i)
  }

  // Non-empty trimmed entries without a separating comma, all but perhaps the
  // last with balanced parentheses.
  predicate Normal(xs: seq<string>) {
    && (forall i | 0 <= i < |xs| :: xs[i] != "" && Trimmed(xs[i]) && Whole(xs[i]))
    && (forall i | 0 <= i < |xs| - 1 :: Balanced(xs[i]))
  }

  lemma {:induction false} NetCounts(s: string)
    ensures Net(s) + multiset(s)[')'] == multiset(s)['(']
  {
    if s != "" {
      NetCounts(s[1..]);
      assert s == [s[0]] + s[1..];
      assert multiset(s) == multiset([s[0]]) + multiset(s[1..]);
    }
  }

  lemma NetCons(s: string, i: nat)
    requires 0 < i <= |s|
    ensures Net(s[..i]) == DepthAfter(0, s[0]) + Net(s[1..][..i - 1])
  {
    assert s[..i][1..] == s[1..][..i - 1];
  }

  lemma {:induction false} NoSplitIff(s: string, depth: int)
    ensures NoSplit(s, depth) <==> forall i: nat | i < |s| && s[i] == ',' :: depth + Net(s[..i]) != 0
    decreases |s|
  {
    if s != "" {
      var rest, inner := s[1..], DepthAfter(depth, s[0]);
      NoSplitIff(rest, inner);
      assert s[..0] == "" && Net("") == 0;
      forall i: nat | 0 < i < |s|
        ensures s[i] == rest[i - 1] && depth + Net(s[..i]) == inner + Net(rest[..i - 1])
      {
        NetCons(s, i);
      }
      forall i: nat | i < |rest| && rest[i] == ','
        ensures inner + Net(rest[..i]) == depth + Net(s[..i + 1]) && s[i + 1] == ','
      {
        NetCons(s, i + 1);
      }
    }
  }

  lemma WholeIff(x: string)
    ensures Whole(x) <==> NoSplit(x, 0)
  {
    NoSplitIff(x, 0);
    forall i: nat | i < |x|
      ensures Separates(x, i) <==> x[i] == ',' && 0 + Net(x[..i]) == 0
    {
      NetCounts(x[..i]);
    }
    if Whole(x) {
      assert forall i: nat | i < |x| && x[i] == ',' :: !Separates(x, i) && 0 + Net(x[..i]) != 0;
    }
  }

  lemma NormalIff(xs: seq<string>)
    ensures Normal(xs) <==> NormalScan(xs)
  {
    forall i | 0 <= i < |xs|
      ensures Whole(xs[i]) <==> NoSplit(xs[i], 0)
      ensures Balanced(xs[i]) <==> Net(xs[i]) == 0
    {
      WholeIff(xs[i]);
      NetCounts(xs[i]);
    }
  }

  // ---- Main results -----------------------------------------------------------------

  // Two laws that determine splitting. A comma with as many opening as closing
  // parentheses before it separates two lists.
  lemma SplitAtComma(a: string, b: string)
    requires Balanced(a)
    ensures Split(a + "," + b) == Split(a) + Split(b)
  {
    NetCounts(a);
    ScanThroughComma(a, b, 0, "");
  }

  // Text without such a comma is at most one entry, whatever other commas it has.
  lemma SplitSingle(x: string)
    requires Whole(x)
    ensures Split(x) == if Blank(x) then [] else [Trim(x)]
  {
    WholeIff(x);
    assert x + "" == x;
    ScanEntry(x, "", 0, "", x);
    TrimBlank(x);
  }

  // Commas inside a version pin are kept.
  lemma PinIsKept(name: string, pin: string)
    requires '(' !in name && ')' !in name && ',' !in name
    requires '(' !in pin && ')' !in pin
    ensures Split(name + ['('] + pin + [')']) == [Trim(name + ['('] + pin + [')'])]
  {
    var x, open := name + ['('] + pin + [')'], name + ['('];
    forall i: nat | i < |x| && x[i] == ','
      ensures !Balanced(x[..i])
    {
      assert i > |name| && x[..i] == open + pin[..i - |open|];
      assert multiset(x[..i]) == multiset(name) + multiset(['(']) + multiset(pin[..i - |open|]);
      assert forall c | c in pin[..i - |open|] :: c in pin;
    }
    SplitSingle(x);
    assert x[|name|] == '(';
    assert !Blank(x);
  }

  // Splitting always yields a normal list.
  lemma SplitIsNormal(s: string)
    ensures Normal(Split(s))
  {
    ScanNormal(s, 0, "");
    NormalIff(Split(s));
  }

  // The lists that survive being joined and split again are the normal ones.
  lemma JoinThenSplitIff(xs: seq<string>)
    ensures Split(Join(xs, ", ")) == xs <==> Normal(xs)
  {
    SplitIsNormal(Join(xs, ", "));
    NormalIff(xs);
    if Normal(xs) && xs != [] {
      ScanJoined(xs, "");
    } else if xs == [] {
      TrimTrimmed("");
    }
  }

  // So splitting, joining and splitting again changes nothing.
  lemma SplitHasNormalForm(s: string)
    ensures Split(Join(Split(s), ", ")) == Split(s)
  {
    SplitIsNormal(s);
    JoinThenSplitIff(Split(s));
  }
}

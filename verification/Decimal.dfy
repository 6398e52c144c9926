// Decimal numerals: `format!("{n}")` and `str::parse::<u32>`.
module Decimal {
  import opened Prelude

  predicate IsDigit(c: char) {
    '0' <= c <= '9'
  }

  predicate AllDigits(s: string) {
    forall i | 0 <= i < |s| :: IsDigit(s[i])
  }

  function DigitValue(c: char): nat
    requires IsDigit(c)
  {
    c as int - '0' as int
  }

  function Format(n: nat): (s: string)
    ensures s != "" && AllDigits(s)
  {
    var last := ('0' as int + n % 10) as char;
    if n < 10 then [last] else Format(n / 10) + [last]
  }

  function Evaluate(s: string): nat
    requires AllDigits(s)
  {
    if s == "" then 0 else Evaluate(s[..|s| - 1]) * 10 + DigitValue(s[|s| - 1])
  }

  lemma {:induction false} EvaluateFormat(n: nat)
    ensures Evaluate(Format(n)) == n
  {
    if n >= 10 {
      EvaluateFormat(n / 10);
      var s := Format(n);
      assert s[..|s| - 1] == Format(n / 10);
    } else {
      assert Format(n)[..0] == "";
    }
  }

  // Base ten, most significant digit first.
  lemma FormatIsDecimal(n: nat)
    ensures Format(n) == (if n < 10 then "" else Format(n / 10)) + ["0123456789"[n % 10]]
  {
  }

  lemma FormatInjective(m: nat, n: nat)
    requires Format(m) == Format(n)
    ensures m == n
  {
    EvaluateFormat(m);
    EvaluateFormat(n);
  }

  // One leading "+" is allowed; no digits, any other character, or a value
  // beyond u32 is an error.
  function ParseU32(s: string): (r: Option<nat>)
    ensures r.Some? ==> r.value <= U32_MAX
  {
    var digits := if s != "" && s[0] == '+' then s[1..] else s;
    if digits == "" || !AllDigits(digits) || Evaluate(digits) > U32_MAX then None
    else Some(Evaluate(digits))
  }

  // What is not a numeral, with or without a plus sign, is an error.
  lemma ParseNeedsDigits(s: string)
    ensures ParseU32(s).Some? ==> s != "" && forall i | 1 <= i < |s| :: s[i] in "0123456789"
    ensures ParseU32(s).Some? ==> s[0] in "0123456789" || (s[0] == '+' && |s| > 1)
    ensures s != "" && s[0] != '+' ==> ParseU32("+" + s) == ParseU32(s)
  {
    assert ("+" + s)[1..] == s;
    forall c: char | IsDigit(c)
      ensures c in "0123456789"
    {
      assert c == "0123456789"[c as int - '0' as int];
    }
    if ParseU32(s).Some? && s[0] == '+' {
      assert forall i | 1 <= i < |s| :: s[i] == s[1..][i - 1];
    }
  }

  lemma ParseFormat(n: nat)
    ensures ParseU32(Format(n)) == if n <= U32_MAX then Some(n) else None
  {
    EvaluateFormat(n);
    assert IsDigit(Format(n)[0]);
  }
}

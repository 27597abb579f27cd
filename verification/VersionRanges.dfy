/** The versions an expression accepts (internal/rules/m1engine.go). */
module VersionRanges {
  import opened Text
  import opened Numbers
  import opened Versions

  datatype Verdict = Verdict(satisfied: bool, evaluated: bool)

  const UNKNOWN := Verdict(false, false)

  predicate LooksLikeVersionExpression(expr: string) {
    || ' ' in expr || ',' in expr
    || HasPrefix(expr, ">") || HasPrefix(expr, "<") || HasPrefix(expr, "^") || HasPrefix(expr, "~")
    || Contains(expr, ".x") || Contains(expr, ".*")
  }

  datatype Operator = AtLeast | AtMost | Above | Below | Equal

  function OperatorOf(token: string): (Operator, string) {
    if HasPrefix(token, ">=") then (AtLeast, ">=")
    else if HasPrefix(token, "<=") then (AtMost, "<=")
    else if HasPrefix(token, ">") then (Above, ">")
    else if HasPrefix(token, "<") then (Below, "<")
    else if HasPrefix(token, "=") then (Equal, "=")
    else (Equal, "")
  }

  predicate Holds(op: Operator, cmp: int) {
    match op
    case AtLeast => cmp >= 0
    case AtMost => cmp <= 0
    case Above => cmp > 0
    case Below => cmp < 0
    case Equal => cmp == 0
  }

  /** The version a token names, behind its operator. */
  function TargetOf(token: string): Option<seq<int>> {
    Parse(TrimSpace(TrimPrefix(token, OperatorOf(token).1)))
  }

  function Constraint(token: string, actual: seq<int>): Verdict {
    var t := TrimSpace(token);
    if t == "" then Verdict(true, true)
    else
      match TargetOf(t)
      case None => UNKNOWN
      case Some(target) => Verdict(Holds(OperatorOf(t).0, ComparePrefix(actual, target)), true)
  }

  /** The first token that does not hold decides. */
  function Conjunction(tokens: seq<string>, actual: seq<int>): Verdict {
    if tokens == [] then Verdict(true, true)
    else
      var v := Constraint(tokens[0], actual);
      if !v.evaluated || !v.satisfied then v else Conjunction(tokens[1..], actual)
  }

  function Spaced(s: string): string {
    if s == "" then "" else [if s[0] == ',' then ' ' else s[0]] + Spaced(s[1..])
  }

  /** `n + 1` in a 64-bit `int`. */
  function Next(n: int): int {
    if n == MAX_INT then MIN_INT else n + 1
  }

  function CaretUpperBound(base: seq<int>): seq<int> {
    if base == [] then [1]
    else if base[0] > 0 then [Next(base[0])]
    else if |base| > 1 then [0, Next(base[1])]
    else [1]
  }

  function TildeUpperBound(base: seq<int>): seq<int>
    requires base != []
  {
    if |base| > 1 then [base[0], Next(base[1])] else [Next(base[0])]
  }

  /** At least `base` and below `upper`. */
  predicate Between(actual: seq<int>, base: seq<int>, upper: seq<int>) {
    Compare(actual, base) >= 0 && Compare(actual, upper) < 0
  }

  /** What a trimmed expression says about the parsed version. */
  function Judge(expr: string, actual: seq<int>): Verdict {
    if HasPrefix(expr, "^") then
      match Parse(TrimPrefix(expr, "^"))
      case None => UNKNOWN
      case Some(base) => Verdict(Between(actual, base, CaretUpperBound(base)), true)
    else if HasPrefix(expr, "~") && !HasPrefix(expr, "~>") then
      match Parse(TrimPrefix(expr, "~"))
      case None => UNKNOWN
      case Some(base) => Verdict(Between(actual, base, TildeUpperBound(base)), true)
    else
      var tokens := Fields(Spaced(expr));
      if tokens == [] then UNKNOWN else Conjunction(tokens, actual)
  }

  function Expression(expr: string, actual: string): Verdict {
    var e := TrimSpace(expr);
    if e == "" || !LooksLikeVersionExpression(e) then UNKNOWN
    else
      match Parse(actual)
      case None => UNKNOWN
      case Some(parts) => Judge(e, parts)
  }

  method VersionExpressionSatisfied(expr: string, actual: string) returns (satisfied: bool, evaluated: bool)
    ensures Verdict(satisfied, evaluated) == Expression(expr, actual)
  {
    var e := TrimSpace(expr);
    if e == "" || !LooksLikeVersionExpression(e) { return false, false; }
    var parsed := ParseVersionParts(actual);
    if parsed == None { return false, false; }
    var parts := parsed.value;
    if HasPrefix(e, "^") {
      var base := ParseVersionParts(TrimPrefix(e, "^"));
      if base == None { return false, false; }
      satisfied := Within(parts, base.value, CaretUpperBound(base.value));
      return satisfied, true;
    }
    if HasPrefix(e, "~") && !HasPrefix(e, "~>") {
      var base := ParseVersionParts(TrimPrefix(e, "~"));
      if base == None { return false, false; }
      satisfied := Within(parts, base.value, TildeUpperBound(base.value));
      return satisfied, true;
    }
    var tokens := Fields(Spaced(e));
    if tokens == [] { return false, false; }
    satisfied, evaluated := AllSatisfied(tokens, parts);
  }

  method Within(actual: seq<int>, base: seq<int>, upper: seq<int>) returns (r: bool)
    ensures r == Between(actual, base, upper)
  {
    var low := CompareVersionParts(actual, base);
    var high := CompareVersionParts(actual, upper);
    r := low >= 0 && high < 0;
  }

  method AllSatisfied(tokens: seq<string>, actual: seq<int>) returns (satisfied: bool, evaluated: bool)
    ensures Verdict(satisfied, evaluated) == Conjunction(tokens, actual)
  {
    for i := 0 to |tokens|
      invariant Conjunction(tokens, actual) == Conjunction(tokens[i..], actual)
    {
      var v := Constraint(tokens[i], actual);
      assert tokens[i..][1..] == tokens[i + 1..];
      if !v.evaluated || !v.satisfied { return v.satisfied, v.evaluated; }
    }
    return true, true;
  }

  // ---------------------------------------------------------------------
  // Every expression accepts an interval
  // ---------------------------------------------------------------------

  const YES := Verdict(true, true)

  lemma ConstraintConvex(token: string, a: seq<int>, b: seq<int>, c: seq<int>)
    requires Compare(a, b) <= 0 && Compare(b, c) <= 0
    requires Constraint(token, a) == YES && Constraint(token, c) == YES
    ensures Constraint(token, b) == YES
  {
    var t := TrimSpace(token);
    if t != "" {
      var target := TargetOf(t).value;
      Monotone(a, b, target);
      Monotone(b, c, target);
    }
  }

  lemma {:induction false} ConjunctionConvex(tokens: seq<string>, a: seq<int>, b: seq<int>, c: seq<int>)
    requires Compare(a, b) <= 0 && Compare(b, c) <= 0
    requires Conjunction(tokens, a) == YES && Conjunction(tokens, c) == YES
    ensures Conjunction(tokens, b) == YES
  {
    if tokens != [] {
      ConstraintConvex(tokens[0], a, b, c);
      ConjunctionConvex(tokens[1..], a, b, c);
    }
  }

  lemma BetweenConvex(a: seq<int>, b: seq<int>, c: seq<int>, base: seq<int>, upper: seq<int>)
    requires Compare(a, b) <= 0 && Compare(b, c) <= 0
    requires Between(a, base, upper) && Between(c, base, upper)
    ensures Between(b, base, upper)
  {
    Monotone(a, b, base);
    Monotone(b, c, upper);
  }

  lemma JudgeConvex(expr: string, a: seq<int>, b: seq<int>, c: seq<int>)
    requires Compare(a, b) <= 0 && Compare(b, c) <= 0
    ensures Judge(expr, a) == YES && Judge(expr, c) == YES ==> Judge(expr, b) == YES
  {
    if Judge(expr, a) == YES && Judge(expr, c) == YES {
      if HasPrefix(expr, "^") {
        var base := Parse(TrimPrefix(expr, "^")).value;
        BetweenConvex(a, b, c, base, CaretUpperBound(base));
      } else if HasPrefix(expr, "~") && !HasPrefix(expr, "~>") {
        var base := Parse(TrimPrefix(expr, "~")).value;
        BetweenConvex(a, b, c, base, TildeUpperBound(base));
      } else {
        ConjunctionConvex(Fields(Spaced(expr)), a, b, c);
      }
    }
  }

  /** The first version parses and is not later than the second, which parses too. */
  predicate NotLater(v: string, w: string) {
    Parse(v).Some? && Parse(w).Some? && Compare(Parse(v).value, Parse(w).value) <= 0
  }

  /** A version between two accepted ones is accepted. */
  lemma AcceptsInterval(expr: string, low: string, mid: string, high: string)
    ensures Expression(expr, low) == YES && Expression(expr, high) == YES && NotLater(low, mid) && NotLater(mid, high) ==>
              Expression(expr, mid) == YES
  {
    if NotLater(low, mid) && NotLater(mid, high) {
      JudgeConvex(TrimSpace(expr), Parse(low).value, Parse(mid).value, Parse(high).value);
    }
  }
}

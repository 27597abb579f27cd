/** Versions as projects write them: prefixes, wildcards, and caret and tilde ranges. */
module VersionTexts {
  import opened Text
  import opened Trimming
  import opened Numbers
  import opened Versions
  import opened VersionRanges
  import opened VersionLaws
  import opened VersionMeaning

  /** What may stand in front of a version. */
  const MARKS := ["v", "go", ">=", "<=", "~>", "^", ">", "<", "=", "node", "lts/"]

  /** White space around a version makes no difference. */
  lemma SpaceIgnored(a: string, s: string, b: string)
    requires AllSpace(a) && Trimmed(s) && AllSpace(b)
    ensures Parse(a + s + b) == Parse(s)
  {
    TrimAround(a, s, b);
    TrimNoop(s);
  }

  /** The first `n` prefixes do not stand in front of the text. */
  lemma {:induction false} TrimPassed(s: string, prefixes: seq<string>, n: nat)
    requires n <= |prefixes| && forall k | 0 <= k < n :: !HasPrefix(s, prefixes[k])
    ensures TrimPrefixes(s, prefixes) == TrimPrefixes(s, prefixes[n..])
  {
    if n > 0 {
      TrimPassed(s, prefixes[1..], n - 1);
      assert prefixes[1..][n - 1..] == prefixes[n..];
    } else {
      assert prefixes[0..] == prefixes;
    }
  }

  lemma TrimMark(mark: string, v: string, n: nat)
    requires n < |PREFIXES| && PREFIXES[n] == mark && v != "" && IsDigit(v[0])
    requires forall k | 0 <= k < n :: !HasPrefix(mark + v, PREFIXES[k])
    ensures TrimPrefixes(mark + v, PREFIXES) == v
  {
    TrimPassed(mark + v, PREFIXES, n);
    assert (mark + v)[|mark|..] == v;
    PrefixesStay(v, PREFIXES[n..][1..]);
  }

  lemma FirstApart(s: string, p: string)
    requires s != "" && p != "" && s[0] != p[0]
    ensures !HasPrefix(s, p)
  {
  }

  lemma SecondApart(s: string, p: string)
    requires |s| > 1 && |p| > 1 && s[1] != p[1]
    ensures !HasPrefix(s, p)
  {
  }

  lemma MarkTrimmed(mark: string, v: string)
    requires mark in PREFIXES && v != "" && IsDigit(v[0])
    ensures TrimPrefixes(mark + v, PREFIXES) == v
  {
    var n :| 0 <= n < |PREFIXES| && PREFIXES[n] == mark;
    var s := mark + v;
    assert s[0] == mark[0] && (|mark| == 1 ==> s[1] == v[0]) && (|mark| > 1 ==> s[1] == mark[1]);
    forall k | 0 <= k < n ensures !HasPrefix(s, PREFIXES[k]) {
      if PREFIXES[k][0] != mark[0] { FirstApart(s, PREFIXES[k]); } else { SecondApart(s, PREFIXES[k]); }
    }
    TrimMark(mark, v, n);
  }

  lemma FrontMark(mark: string, d: string)
    requires (mark == "v" || mark == "go") && d != "" && IsDigit(d[0])
    ensures TrimPrefix(TrimPrefix(mark + d, "v"), "go") == d && TrimPrefixes(d, PREFIXES) == d
  {
    PrefixesStay(d, PREFIXES);
    assert (mark + d)[|mark|..] == d;
    if mark == "v" { FirstApart(d, "go"); } else { FirstApart(mark + d, "v"); }
  }

  lemma OtherMark(mark: string, d: string)
    requires mark in PREFIXES && d != "" && IsDigit(d[0])
    ensures TrimPrefix(TrimPrefix(mark + d, "v"), "go") == mark + d && TrimPrefixes(mark + d, PREFIXES) == d
  {
    MarkTrimmed(mark, d);
    FirstApart(mark + d, "v");
    FirstApart(mark + d, "go");
  }

  lemma MarkNormalized(mark: string, d: string)
    requires mark in MARKS && d != "" && IsDigit(d[0]) && IsDigit(d[|d| - 1])
    ensures Normalized(mark + d) == d
  {
    assert (mark + d)[0] == mark[0] && (mark + d)[|mark + d| - 1] == d[|d| - 1];
    TrimNoop(mark + d);
    TrimNoop(d);
    if mark == "v" || mark == "go" { FrontMark(mark, d); } else { OtherMark(mark, d); }
  }

  /** Each of them is dropped. */
  lemma MarkIgnored(mark: string, v: seq<int>)
    requires mark in MARKS && v != [] && InRange(v)
    ensures Parse(mark + Dotted(v)) == Some(v)
  {
    DottedShape(v);
    NoSpaceAtEnds(Dotted(v));
    PrintParse(v);
    MarkNormalized(mark, Dotted(v));
  }

  // ---------- Wildcards ----------

  predicate IsWildcard(w: string) {
    w == "x" || w == "X" || w == "*"
  }

  lemma WildcardField(w: string)
    requires IsWildcard(w)
    ensures Field(w) == ""
  {
    assert !IsSpace(w[0]) && w[..|w| - 1] == "";
    TrimNoop(w);
    assert TrimWildcard(w) == TrimWildcard("") == "";
  }

  lemma {:induction false} FieldsUpTo(v: seq<int>, w: string, rest: seq<string>)
    requires InRange(v) && IsWildcard(w)
    ensures ParseFields(Printed(v) + [w] + rest) == Some(v)
  {
    var fields := Printed(v) + [w] + rest;
    if v == [] {
      WildcardField(w);
      assert fields[0] == w;
    } else {
      FieldsUpTo(v[1..], w, rest);
      assert fields == [Decimal(v[0])] + (Printed(v[1..]) + [w] + rest);
      PrintedFirst(v[0], Printed(v[1..]) + [w] + rest, v[1..]);
      assert [v[0]] + v[1..] == v;
    }
  }

  lemma WildcardText(v: seq<int>, w: string, d: string)
    requires v != [] && InRange(v) && IsWildcard(w) && d == Dotted(v)
    ensures var s := d + "." + w; Trimmed(s) && Normalized(s) == s && s != "*"
    ensures Split(d + "." + w, '.') == Printed(v) + [w]
  {
    var s := d + "." + w;
    DottedShape(v);
    assert s[0] == d[0] && s[|s| - 1] == w[0];
    TrimNoop(s);
    FirstApart(s, "v");
    FirstApart(s, "go");
    PrefixesStay(s, PREFIXES);
    PrintedShape(v);
    SplitConcat(d, '.', w);
    SplitJoin(Printed(v), '.');
    SplitNone(w, '.');
  }

  /** A wildcard behind the numbers ends the version. */
  lemma WildcardEnds(v: seq<int>, w: string)
    requires v != [] && InRange(v) && IsWildcard(w)
    ensures Parse(Dotted(v) + "." + w) == Some(v)
  {
    WildcardText(v, w, Dotted(v));
    FieldsUpTo(v, w, []);
    assert Printed(v) + [w] + [] == Printed(v) + [w];
  }

  lemma WildcardToken(v: seq<int>, w: string, d: string)
    requires v != [] && InRange(v) && IsWildcard(w) && d == Dotted(v)
    ensures var s := d + "." + w;
            s != "" && IsToken(s) && ',' !in s && IsDigit(s[0]) && (w != "X" ==> Contains(s, "." + w))
    ensures w == "X" ==> var s := d + "." + w; 'x' !in s && '*' !in s
  {
    var s := d + "." + w;
    DottedShape(v);
    assert s[0] == d[0];
    forall k | 0 <= k < |s| ensures !IsSpace(s[k]) && s[k] != ',' && (w == "X" ==> s[k] != 'x' && s[k] != '*') {
      assert s[k] == if k < |d| then d[k] else if k == |d| then '.' else w[0];
    }
    assert s == d + ("." + w);
    Standing(d, "." + w);
  }

  lemma {:induction false} Standing(a: string, b: string)
    ensures Contains(a + b, b)
  {
    if a == "" {
      assert a + b == b;
    } else if !(b <= a + b) {
      assert (a + b)[1..] == a[1..] + b;
      Standing(a[1..], b);
    }
  }

  lemma {:induction false} SpacesOnly(s: string)
    requires IsToken(s) && ',' !in s && s != ""
    ensures Fields(Spaced(s)) == [s] && TrimSpace(s) == s && ' ' !in s
  {
    SpacedSame(s);
    assert s == s + "";
    TokenField(s, "");
    TrimNoop(s);
  }

  lemma DigitLooks(s: string)
    requires s != "" && IsDigit(s[0]) && ' ' !in s && ',' !in s
    ensures LooksLikeVersionExpression(s) <==> Contains(s, ".x") || Contains(s, ".*")
    ensures OperatorOf(s) == (Equal, "") && !HasPrefix(s, "^") && !HasPrefix(s, "~")
  {
    FirstApart(s, ">");
    FirstApart(s, "<");
    FirstApart(s, "^");
    FirstApart(s, "~");
    FirstApart(s, "=");
    FirstApart(s, ">=");
    FirstApart(s, "<=");
  }

  lemma WildcardJudged(s: string, v: seq<int>, a: seq<int>)
    requires s != "" && IsDigit(s[0]) && IsToken(s) && ',' !in s && Parse(s) == Some(v)
    ensures Judge(s, a) == Verdict(HasParts(a, v), true)
  {
    SpacesOnly(s);
    DigitLooks(s);
    JudgedByTokens(s, [s], a);
    assert TrimPrefix(s, "") == s;
    ConstraintBy(s, Equal, "", s, v, a);
    ComparedMeaning(a, v);
    OneConstraint(s, a, HasParts(a, v));
  }

  lemma OneConstraint(s: string, a: seq<int>, holds: bool)
    requires Constraint(s, a) == Verdict(holds, true)
    ensures Conjunction([s], a) == Verdict(holds, true)
  {
    ConjunctionStep([s], a, holds);
    assert [s][1..] == [];
  }

  lemma ExpressionBy(s: string, actual: string, a: seq<int>)
    requires s != "" && TrimSpace(s) == s && Parse(actual) == Some(a)
    ensures Expression(s, actual) == if LooksLikeVersionExpression(s) then Judge(s, a) else UNKNOWN
  {
  }

  lemma WildcardLooks(v: seq<int>, w: string, s: string)
    requires v != [] && InRange(v) && IsWildcard(w) && s == Dotted(v) + "." + w
    ensures s != "" && IsDigit(s[0]) && IsToken(s) && ',' !in s && TrimSpace(s) == s
    ensures LooksLikeVersionExpression(s) <==> w != "X"
  {
    WildcardToken(v, w, Dotted(v));
    SpacesOnly(s);
    DigitLooks(s);
    assert "." + "x" == ".x" && "." + "*" == ".*";
    if w == "X" {
      NotContained(s, ".x");
      NotContained(s, ".*");
    }
  }

  lemma WildcardSays(s: string, v: seq<int>, actual: string, a: seq<int>)
    requires s != "" && IsDigit(s[0]) && IsToken(s) && ',' !in s && TrimSpace(s) == s
    requires Parse(s) == Some(v) && Parse(actual) == Some(a)
    ensures Expression(s, actual) == if LooksLikeVersionExpression(s) then Verdict(HasParts(a, v), true) else UNKNOWN
  {
    ExpressionBy(s, actual, a);
    WildcardJudged(s, v, a);
  }

  /** A version with a small `x` or an asterisk for its last part accepts what has its numbers; with a capital, it says nothing. */
  lemma WildcardWritten(v: seq<int>, w: string, a: seq<int>)
    requires v != [] && InRange(v) && IsWildcard(w) && a != [] && InRange(a)
    ensures Expression(Dotted(v) + "." + w, Dotted(a)) == if w == "X" then UNKNOWN else Verdict(HasParts(a, v), true)
  {
    WildcardLooks(v, w, Dotted(v) + "." + w);
    WildcardEnds(v, w);
    PrintParse(a);
    WildcardSays(Dotted(v) + "." + w, v, Dotted(a), a);
  }

  // ---------- Ranges ----------

  predicate Newer(a: seq<int>, base: seq<int>) {
    Satisfies(a, Term(">=", base))
  }

  lemma NewerMeaning(a: seq<int>, base: seq<int>)
    requires Natural(a)
    ensures Compare(a, base) >= 0 <==> Newer(a, base)
  {
    PrefixAgainstOrder(a, base);
    ComparedMeaning(a, base);
  }

  lemma RangeText(mark: string, base: seq<int>)
    requires base != [] && InRange(base) && (mark == "^" || mark == "~")
    ensures var e := mark + Dotted(base);
            && e != "" && TrimSpace(e) == e && HasPrefix(e, mark) && TrimPrefix(e, mark) == Dotted(base)
            && !HasPrefix(e, "~>") && (mark == "~" ==> !HasPrefix(e, "^"))
  {
    var d := Dotted(base);
    var e := mark + d;
    DottedShape(base);
    assert e[0] == mark[0] && e[1] == d[0] && e[|e| - 1] == d[|d| - 1] && e[1..] == d;
    TrimNoop(e);
    SecondApart(e, "~>");
    if mark == "~" { FirstApart(e, "^"); }
  }

  /**
   A caret range accepts what is not older than its base and agrees with it in the first part, and if that is zero in the
   second, as far as it is written. A part at its largest value has no successor, and nothing is accepted then.
   */
  lemma CaretWritten(base: seq<int>, a: seq<int>)
    requires base != [] && InRange(base) && a != [] && InRange(a)
    ensures var leading := if base[0] > 0 || |base| == 1 then 0 else 1;
            Expression("^" + Dotted(base), Dotted(a)) ==
            Verdict(Newer(a, base) && (forall i | 0 <= i <= leading :: Part(a, i) == base[i]) && base[leading] < MAX_INT, true)
  {
    var e, leading := "^" + Dotted(base), if base[0] > 0 || |base| == 1 then 0 else 1;
    RangeText("^", base);
    PrintParse(base);
    PrintParse(a);
    CaretMeaning(a, base);
    NewerMeaning(a, base);
    FirstParts(a, base, leading);
    assert HasPrefix(e, "^");
  }

  lemma FirstParts(a: seq<int>, base: seq<int>, n: nat)
    requires n < |base| && n <= 1
    ensures (forall i | 0 <= i <= n :: Part(a, i) == base[i]) <==> Part(a, 0) == base[0] && (n == 1 ==> Part(a, 1) == base[1])
  {
  }

  /** A tilde range accepts what is not older than its base and agrees with it in the first two parts, as far as written. */
  lemma TildeWritten(base: seq<int>, a: seq<int>)
    requires base != [] && InRange(base) && a != [] && InRange(a)
    ensures var last := if |base| == 1 then 0 else 1;
            Expression("~" + Dotted(base), Dotted(a)) ==
            Verdict(Newer(a, base) && (forall i | 0 <= i <= last :: Part(a, i) == base[i]) && base[last] < MAX_INT, true)
  {
    var e, last := "~" + Dotted(base), if |base| == 1 then 0 else 1;
    RangeText("~", base);
    PrintParse(base);
    PrintParse(a);
    TildeJudged(e, base, a);
    TildeMeaning(a, base);
    NewerMeaning(a, base);
    FirstParts(a, base, last);
    assert HasPrefix(e, "~");
  }
}

/** What expressions say as they are written: operators in front of printed versions, alone or in a row. */
module VersionMeaning {
  import opened Text
  import opened Numbers
  import opened Versions
  import opened VersionRanges
  import opened VersionLaws

  /** A version as it is written: `1.22.3`. */
  function Dotted(v: seq<int>): string
    requires Natural(v)
  {
    Join(Printed(v), ".")
  }

  /** What is written in front of a version, nothing included. */
  const SIGNS := [">=", "<=", ">", "<", "=", ""]

  datatype Term = Term(sign: string, target: seq<int>)

  predicate ProperTerm(t: Term) {
    t.sign in SIGNS && t.target != [] && InRange(t.target)
  }

  function TermText(t: Term): string
    requires ProperTerm(t)
  {
    t.sign + Dotted(t.target)
  }

  /** The version has the parts the target writes. */
  predicate HasParts(a: seq<int>, t: seq<int>) {
    forall i | 0 <= i < |t| :: Part(a, i) == t[i]
  }

  /** Of the parts that the target writes, the first to differ is larger in `a`. */
  predicate Above(a: seq<int>, t: seq<int>) {
    exists i | 0 <= i < |t| :: Part(a, i) > t[i] && HasParts(a, t[..i])
  }

  predicate Below(a: seq<int>, t: seq<int>) {
    exists i | 0 <= i < |t| :: Part(a, i) < t[i] && HasParts(a, t[..i])
  }

  predicate Satisfies(a: seq<int>, t: Term) {
    if t.sign == ">=" then Above(a, t.target) || HasParts(a, t.target)
    else if t.sign == "<=" then Below(a, t.target) || HasParts(a, t.target)
    else if t.sign == ">" then Above(a, t.target)
    else if t.sign == "<" then Below(a, t.target)
    else HasParts(a, t.target)
  }

  lemma PartsMeaning(a: seq<int>, t: seq<int>, n: nat)
    requires n <= |t|
    ensures HasParts(a, t[..n]) <==> SameBefore(a, t, n)
  {
    if HasParts(a, t[..n]) {
      forall j: nat | j < n ensures Part(a, j) == Part(t, j) {
        assert t[..n][j] == t[j];
      }
    }
  }

  lemma ComparedMeaning(a: seq<int>, t: seq<int>)
    ensures ComparePrefix(a, t) == 0 <==> HasParts(a, t)
    ensures ComparePrefix(a, t) > 0 <==> Above(a, t)
    ensures ComparePrefix(a, t) < 0 <==> Below(a, t)
  {
    CompareMeaning(a, t, 0, |t|);
    PartsMeaning(a, t, |t|);
    assert t[..|t|] == t;
    forall i | 0 <= i < |t| ensures SmallerAt(t, a, i, |t|) <==> Part(a, i) > t[i] && HasParts(a, t[..i]) {
      PartsMeaning(a, t, i);
    }
    forall i | 0 <= i < |t| ensures SmallerAt(a, t, i, |t|) <==> Part(a, i) < t[i] && HasParts(a, t[..i]) {
      PartsMeaning(a, t, i);
    }
  }

  lemma DottedShape(v: seq<int>)
    requires Natural(v) && v != []
    ensures var s := Dotted(v); s != "" && IsDigit(s[0]) && IsDigit(s[|s| - 1])
    ensures forall k | 0 <= k < |Dotted(v)| :: IsDigit(Dotted(v)[k]) || Dotted(v)[k] == '.'
  {
    PrintedShape(v);
    DottedChars(v);
  }

  lemma {:induction false} DottedChars(v: seq<int>)
    requires Natural(v) && v != []
    ensures forall k | 0 <= k < |Dotted(v)| :: IsDigit(Dotted(v)[k]) || Dotted(v)[k] == '.'
  {
    DecimalDigits(v[0]);
    if |v| > 1 {
      DottedChars(v[1..]);
      assert Printed(v)[1..] == Printed(v[1..]);
      assert Dotted(v) == Decimal(v[0]) + "." + Dotted(v[1..]);
    }
  }

  function Meant(sign: string): Operator {
    if sign == ">=" then AtLeast else if sign == "<=" then AtMost else if sign == ">" then Operator.Above
    else if sign == "<" then Operator.Below else Equal
  }

  lemma PrefixRead(p: string, sign: string, v: string)
    requires v != "" && IsDigit(v[0]) && |p| <= 2 && p != "" && sign in SIGNS
    requires forall k | 0 <= k < |p| :: !IsDigit(p[k])
    ensures HasPrefix(sign + v, p) <==> HasPrefix(sign, p)
  {
    var s := sign + v;
    assert forall k | 0 <= k < |sign| :: s[k] == sign[k];
    assert s[|sign|] == v[0];
    if HasPrefix(s, p) {
      assert forall k | 0 <= k < |p| :: p[k] == s[k];
      assert |p| <= |sign|;
      assert p == sign[..|p|];
    }
  }

  /** The operator and the version of a written token. */
  lemma SignSplit(sign: string, v: string)
    requires sign in SIGNS && v != "" && IsDigit(v[0])
    ensures OperatorOf(sign + v) == (Meant(sign), sign) && TrimPrefix(sign + v, sign) == v
  {
    PrefixRead(">=", sign, v);
    PrefixRead("<=", sign, v);
    PrefixRead(">", sign, v);
    PrefixRead("<", sign, v);
    PrefixRead("=", sign, v);
    assert (sign + v)[|sign|..] == v;
  }

  lemma SignRead(t: Term)
    requires ProperTerm(t)
    ensures var token := TermText(t);
            && token != "" && TrimSpace(token) == token && OperatorOf(token) == (Meant(t.sign), t.sign)
            && TrimPrefix(token, t.sign) == Dotted(t.target)
  {
    var v := Dotted(t.target);
    DottedShape(t.target);
    SignSplit(t.sign, v);
    TokenEnds(t.sign, v);
  }

  lemma TokenEnds(sign: string, v: string)
    requires sign in SIGNS && v != "" && IsDigit(v[0]) && IsDigit(v[|v| - 1])
    ensures TrimSpace(sign + v) == sign + v
  {
    var s := sign + v;
    assert s[|s| - 1] == v[|v| - 1] && s[0] == if sign == "" then v[0] else sign[0];
  }

  lemma TokenJudged(t: Term, a: seq<int>)
    requires ProperTerm(t)
    ensures Constraint(TermText(t), a) == Verdict(Satisfies(a, t), true)
  {
    SignRead(t);
    DottedRead(t.target);
    ConstraintBy(TermText(t), Meant(t.sign), t.sign, Dotted(t.target), t.target, a);
    HoldsMeaning(t, a);
  }

  lemma DottedRead(v: seq<int>)
    requires v != [] && InRange(v)
    ensures TrimSpace(Dotted(v)) == Dotted(v) && Parse(Dotted(v)) == Some(v)
  {
    DottedShape(v);
    NoSpaceAtEnds(Dotted(v));
    PrintParse(v);
  }

  lemma HoldsMeaning(t: Term, a: seq<int>)
    requires t.sign in SIGNS
    ensures Holds(Meant(t.sign), ComparePrefix(a, t.target)) <==> Satisfies(a, t)
  {
    ComparedMeaning(a, t.target);
  }

  lemma ConstraintBy(token: string, op: Operator, sign: string, text: string, target: seq<int>, a: seq<int>)
    requires token != "" && TrimSpace(token) == token && OperatorOf(token) == (op, sign) && TrimPrefix(token, sign) == text
    requires TrimSpace(text) == text && Parse(text) == Some(target)
    ensures Constraint(token, a) == Verdict(Holds(op, ComparePrefix(a, target)), true)
  {
  }

  // ---------- Expressions ----------

  predicate ProperTerms(ts: seq<Term>) {
    forall k | 0 <= k < |ts| :: ProperTerm(ts[k])
  }

  function TermTexts(ts: seq<Term>): (tokens: seq<string>)
    requires ProperTerms(ts)
    ensures |tokens| == |ts| && forall k | 0 <= k < |ts| :: tokens[k] == TermText(ts[k])
  {
    seq(|ts|, k requires 0 <= k < |ts| => TermText(ts[k]))
  }

  predicate AllSatisfied(a: seq<int>, ts: seq<Term>) {
    forall k | 0 <= k < |ts| :: Satisfies(a, ts[k])
  }

  lemma {:induction false} TokensJudged(ts: seq<Term>, tokens: seq<string>, a: seq<int>)
    requires ProperTerms(ts) && tokens == TermTexts(ts)
    ensures Conjunction(tokens, a) == Verdict(AllSatisfied(a, ts), true)
  {
    if ts != [] {
      TokenJudged(ts[0], a);
      assert tokens[1..] == TermTexts(ts[1..]);
      TokensJudged(ts[1..], tokens[1..], a);
      SatisfiedFirst(a, ts);
      ConjunctionStep(tokens, a, Satisfies(a, ts[0]));
    }
  }

  lemma SatisfiedFirst(a: seq<int>, ts: seq<Term>)
    requires ts != []
    ensures AllSatisfied(a, ts) <==> Satisfies(a, ts[0]) && AllSatisfied(a, ts[1..])
  {
    if Satisfies(a, ts[0]) && AllSatisfied(a, ts[1..]) {
      forall k | 0 <= k < |ts| ensures Satisfies(a, ts[k]) {
        if k > 0 { assert ts[k] == ts[1..][k - 1]; }
      }
    }
    if AllSatisfied(a, ts) {
      forall k | 0 <= k < |ts| - 1 ensures Satisfies(a, ts[1..][k]) {
        assert ts[1..][k] == ts[k + 1];
      }
    }
  }

  lemma ConjunctionStep(tokens: seq<string>, a: seq<int>, holds: bool)
    requires tokens != [] && Constraint(tokens[0], a) == Verdict(holds, true)
    ensures Conjunction(tokens, a) == if holds then Conjunction(tokens[1..], a) else Verdict(false, true)
  {
  }

  /** The tokens of a row are written with a comma or a blank, or both, between them. */
  predicate IsGap(gap: string) {
    gap == " " || gap == "," || gap == ", "
  }

  lemma {:induction false} SpacedConcat(a: string, b: string)
    ensures Spaced(a + b) == Spaced(a) + Spaced(b)
  {
    if a == "" {
      assert a + b == b;
    } else {
      assert (a + b)[1..] == a[1..] + b;
      SpacedConcat(a[1..], b);
    }
  }

  lemma {:induction false} SpacedSame(s: string)
    requires ',' !in s
    ensures Spaced(s) == s
  {
    if s != "" {
      SpacedSame(s[1..]);
    }
  }

  lemma GapSpaced(gap: string)
    requires IsGap(gap)
    ensures Spaced(gap) == " " || Spaced(gap) == "  "
  {
    assert Spaced(" ") == " " && Spaced(",") == " ";
    if gap == ", " {
      assert gap == "," + " " && " " + " " == "  ";
      SpacedConcat(",", " ");
    }
  }

  lemma TermToken(t: Term)
    requires ProperTerm(t)
    ensures IsToken(TermText(t)) && ',' !in TermText(t)
  {
    DottedShape(t.target);
    var s, v := TermText(t), Dotted(t.target);
    forall k | 0 <= k < |s| ensures !IsSpace(s[k]) && s[k] != ',' {
      assert s[k] == if k < |t.sign| then t.sign[k] else v[k - |t.sign|];
    }
  }

  lemma GapFields(gap: string, rest: string)
    requires gap == " " || gap == "  "
    ensures Fields(gap + rest) == Fields(rest)
  {
    SpaceField(rest);
    if gap == "  " {
      assert gap + rest == " " + (" " + rest);
      SpaceField(" " + rest);
    }
  }

  /** Splitting a written row at commas and blanks gives its tokens. */
  lemma {:induction false} RowSplit(tokens: seq<string>, gap: string)
    requires IsGap(gap) && forall k | 0 <= k < |tokens| :: IsToken(tokens[k]) && ',' !in tokens[k]
    ensures Fields(Spaced(Join(tokens, gap))) == tokens
  {
    if |tokens| == 1 {
      var t := tokens[0];
      SpacedSame(t);
      assert t == t + "";
      TokenField(t, "");
    } else if tokens != [] {
      RowSplit(tokens[1..], gap);
      RowFirst(tokens[0], gap, Join(tokens[1..], gap));
      assert tokens == [tokens[0]] + tokens[1..];
    }
  }

  lemma RowFirst(t: string, gap: string, rest: string)
    requires IsGap(gap) && IsToken(t) && ',' !in t
    ensures Fields(Spaced(t + gap + rest)) == [t] + Fields(Spaced(rest))
  {
    SpacedConcat(t + gap, rest);
    SpacedConcat(t, gap);
    SpacedSame(t);
    GapSpaced(gap);
    FirstField(t, Spaced(gap), Spaced(rest));
  }

  lemma FirstField(t: string, gap: string, rest: string)
    requires IsToken(t) && (gap == " " || gap == "  ")
    ensures Fields(t + gap + rest) == [t] + Fields(rest)
  {
    ConcatAssoc(t, gap, rest);
    assert (gap + rest)[0] == ' ';
    TokenField(t, gap + rest);
    GapFields(gap, rest);
  }

  /** The row starts with an operator or a digit, and its last character is a digit. */
  lemma {:induction false} RowEnds(ts: seq<Term>, tokens: seq<string>, gap: string)
    requires ProperTerms(ts) && ts != [] && tokens == TermTexts(ts)
    ensures var e := Join(tokens, gap);
            && e != "" && e[0] == TermText(ts[0])[0] && IsDigit(e[|e| - 1])
            && e[0] != '^' && e[0] != '~' && !IsSpace(e[0])
  {
    DottedShape(ts[0].target);
    var t := TermText(ts[0]);
    assert t[0] == if ts[0].sign == "" then Dotted(ts[0].target)[0] else ts[0].sign[0];
    assert t[|t| - 1] == Dotted(ts[0].target)[|Dotted(ts[0].target)| - 1];
    if |ts| > 1 {
      assert tokens[1..] == TermTexts(ts[1..]);
      RowEnds(ts[1..], tokens[1..], gap);
    }
  }

  lemma RowJudged(ts: seq<Term>, gap: string, a: seq<int>)
    requires ProperTerms(ts) && ts != [] && IsGap(gap)
    ensures var e := Join(TermTexts(ts), gap);
            e != "" && TrimSpace(e) == e && Judge(e, a) == Verdict(AllSatisfied(a, ts), true)
  {
    RowJudgedAs(ts, TermTexts(ts), gap, Join(TermTexts(ts), gap), a);
  }

  lemma RowTokens(ts: seq<Term>, tokens: seq<string>)
    requires ProperTerms(ts) && tokens == TermTexts(ts)
    ensures forall k | 0 <= k < |tokens| :: IsToken(tokens[k]) && ',' !in tokens[k]
  {
    forall k | 0 <= k < |tokens| ensures IsToken(tokens[k]) && ',' !in tokens[k] {
      TermToken(ts[k]);
    }
  }

  lemma RowJudgedAs(ts: seq<Term>, tokens: seq<string>, gap: string, e: string, a: seq<int>)
    requires ProperTerms(ts) && ts != [] && IsGap(gap) && tokens == TermTexts(ts) && e == Join(tokens, gap)
    ensures e != "" && TrimSpace(e) == e && Judge(e, a) == Verdict(AllSatisfied(a, ts), true)
  {
    RowFields(ts, tokens, gap, e);
    TokensJudged(ts, tokens, a);
    JudgedByTokens(e, tokens, a);
  }

  lemma RowFields(ts: seq<Term>, tokens: seq<string>, gap: string, e: string)
    requires ProperTerms(ts) && ts != [] && IsGap(gap) && tokens == TermTexts(ts) && e == Join(tokens, gap)
    ensures Fields(Spaced(e)) == tokens
    ensures e != "" && e[0] != '^' && e[0] != '~' && !IsSpace(e[0]) && !IsSpace(e[|e| - 1])
  {
    RowTokens(ts, tokens);
    RowSplit(tokens, gap);
    RowEnds(ts, tokens, gap);
    RowEnd(e);
  }

  lemma RowEnd(e: string)
    requires e != "" && IsDigit(e[|e| - 1])
    ensures !IsSpace(e[|e| - 1])
  {
  }

  lemma JudgedByTokens(e: string, tokens: seq<string>, a: seq<int>)
    requires e != "" && e[0] != '^' && e[0] != '~' && !IsSpace(e[0]) && !IsSpace(e[|e| - 1])
    requires Fields(Spaced(e)) == tokens && tokens != []
    ensures TrimSpace(e) == e && Judge(e, a) == Conjunction(tokens, a)
  {
  }

  /** Two or more constraints in a row: the version satisfies them all. */
  lemma RowMeaning(ts: seq<Term>, gap: string, a: seq<int>)
    requires ProperTerms(ts) && |ts| > 1 && IsGap(gap) && a != [] && InRange(a)
    ensures Expression(Join(TermTexts(ts), gap), Dotted(a)) == Verdict(AllSatisfied(a, ts), true)
  {
    RowJudged(ts, gap, a);
    PrintParse(a);
    var tokens := TermTexts(ts);
    assert Join(tokens, gap) == tokens[0] + gap + Join(tokens[1..], gap);
    GapStands(tokens[0], gap, Join(tokens[1..], gap));
  }

  lemma GapStands(a: string, gap: string, b: string)
    requires IsGap(gap)
    ensures ' ' in a + gap + b || ',' in a + gap + b
  {
    assert (a + gap + b)[|a|] == gap[0];
  }

  /** One constraint alone is evaluated when its operator is an inequality; `=` and a bare version are not expressions. */
  lemma TermMeaning(t: Term, a: seq<int>)
    requires ProperTerm(t) && a != [] && InRange(a)
    ensures Expression(TermText(t), Dotted(a)) ==
            if t.sign == "=" || t.sign == "" then UNKNOWN else Verdict(Satisfies(a, t), true)
  {
    RowJudged([t], " ", a);
    assert TermTexts([t]) == [TermText(t)] && Join([TermText(t)], " ") == TermText(t);
    assert AllSatisfied(a, [t]) <==> Satisfies(a, t) by { assert [t][0] == t; }
    PrintParse(a);
    TermLooks(t);
  }

  lemma TermLooks(t: Term)
    requires ProperTerm(t)
    ensures LooksLikeVersionExpression(TermText(t)) <==> t.sign != "=" && t.sign != ""
  {
    var s, v := TermText(t), Dotted(t.target);
    TermToken(t);
    DottedShape(t.target);
    SignLooks(t.sign);
    PrefixRead(">", t.sign, v);
    PrefixRead("<", t.sign, v);
    PrefixRead("^", t.sign, v);
    PrefixRead("~", t.sign, v);
    assert ' ' !in s by { assert forall k | 0 <= k < |s| :: !IsSpace(s[k]); }
    forall k | 0 <= k < |s| ensures s[k] != 'x' && s[k] != '*' {
      assert s[k] == if k < |t.sign| then t.sign[k] else v[k - |t.sign|];
    }
    assert 'x' !in s && '*' !in s;
    NotContained(s, ".x");
    NotContained(s, ".*");
  }

  lemma SignLooks(sign: string)
    requires sign in SIGNS
    ensures HasPrefix(sign, ">") || HasPrefix(sign, "<") <==> sign != "=" && sign != ""
    ensures !HasPrefix(sign, "^") && !HasPrefix(sign, "~") && ',' !in sign
  {
    OneCharacter(sign, '>');
    OneCharacter(sign, '<');
    OneCharacter(sign, '^');
    OneCharacter(sign, '~');
  }

  lemma OneCharacter(s: string, c: char)
    ensures HasPrefix(s, [c]) <==> s != "" && s[0] == c
  {
    if s != "" && s[0] == c { assert s[..1] == [c]; }
  }

  lemma NotContained(s: string, sub: string)
    requires |sub| == 2 && sub[1] !in s
    ensures !Contains(s, sub)
  {
    match Index(s, sub)
    case None =>
    case Some(i) => SecondOf(s, i);
  }

  lemma SecondOf(s: string, i: nat)
    requires i + 2 <= |s|
    ensures s[i..i + 2][1] == s[i + 1] && s[i + 1] in s
  {
  }
}

/** What goes wrong when an opening starts inside the subscript of another one. */
module InterpolationLimits {
  import opened Text
  import opened Interpolation
  import opened InterpolationScan
  import opened InterpolationLaws

  /** `word` stands at `i`. */
  predicate At(s: string, i: nat, word: string) {
    i + |word| <= |s| && s[i..i + |word|] == word
  }

  lemma AtChar(s: string, i: nat, word: string, k: nat)
    requires At(s, i, word) && k < |word|
    ensures s[i + k] == word[k]
  {
    assert s[i + k] == s[i..i + |word|][k];
  }

  lemma NameRun(s: string, i: nat, p: string)
    requires At(s, i, p) && IsName(p) && i + |p| < |s| && !IsWordChar(s[i + |p|])
    ensures Run(s, i, IsWordChar) == i + |p| && s[i..i + |p|] == p
  {
    forall k | i <= k < i + |p| ensures IsWordChar(s[k]) {
      AtChar(s, i, p, k - i);
    }
    RunIs(s, i, i + |p|, IsWordChar);
  }

  /** `${p-` at `i`. */
  lemma PlainMatch(s: string, i: nat, p: string)
    requires OpensAt(s, i) && IsName(p) && At(s, i + 2, p) && i + |p| + 2 < |s| && s[i + |p| + 2] == '-'
    ensures MatchAt(s, i) == Some(Opening(i, i + |p| + 2, i + |p| + 3))
  {
    NameRun(s, i + 2, p);
  }

  /** `${p[` at `i`, with the first `]` at `close`. */
  lemma SubscriptedMatch(s: string, i: nat, p: string, close: nat)
    requires OpensAt(s, i) && IsName(p) && At(s, i + 2, p) && i + |p| + 3 <= close < |s| - 1 && s[i + |p| + 2] == '['
    requires ']' !in s[i + |p| + 3..close] && s[close] == ']' && s[close + 1] != ':'
    ensures MatchAt(s, i) == if IsOperator(s[close + 1]) then Some(Opening(i, i + |p| + 2, close + 2)) else None
  {
    NameRun(s, i + 2, p);
    var from := i + |p| + 3;
    forall k | from <= k < close ensures NotBracket(s[k]) {
      assert s[k] == s[from..close][k - from];
    }
    RunIs(s, from, close, NotBracket);
  }

  // ---------- Texts with one match ----------

  lemma {:induction false} OpeningsSkip(s: string, i: nat, j: nat)
    requires i <= j <= |s| && Quiet(s, i, j)
    ensures Openings(s, i) == Openings(s, j)
    decreases j - i
  {
    if i < j {
      OpeningsSkip(s, i + 1, j);
    }
  }

  /** The only opening of the text starts at `o.start`. */
  lemma OpeningsOne(s: string, from: nat, o: Opening)
    requires from <= o.start < |s| && Quiet(s, from, o.start) && MatchAt(s, o.start) == Some(o) && Quiet(s, o.end, |s|)
    ensures Openings(s, from) == [o]
  {
    OpeningsSkip(s, from, o.start);
    OpeningsSkip(s, o.end, |s|);
  }

  predicate Within(o: Opening, s: string) {
    o.start + 2 <= o.nameEnd <= o.end <= |s|
  }

  lemma RewriteOne(secret: string -> bool, s: string, o: Opening)
    requires Within(o, s)
    ensures Rewrite(secret, s, [o], 0) ==
            if Effective(secret, s, o) then s[..o.end] + MARK + s[ClosingOf(s, o)..] else s
  {
    assert [o][1..] == [] && s[0..] == s && s[0..o.end] == s[..o.end];
  }

  /** A text with a single opening. */
  lemma RedactsOne(secret: string -> bool, s: string, o: Opening)
    requires Openings(s, 0) == [o] && Within(o, s)
    ensures Redact(secret, s) == if Effective(secret, s, o) then s[..o.end] + MARK + s[ClosingOf(s, o)..] else s
  {
    RewriteOne(secret, s, o);
  }

  lemma ClosePlain(s: string, o: Opening, c: nat)
    requires o.end <= c < |s| && Plain(s[o.end..c]) && s[c] == '}'
    ensures ClosingOf(s, o) == c
  {
    assert s[o.end..] == s[o.end..c] + s[c..];
    CloseSkips(s[o.end..c], s[c..], 0);
  }

  // ---------- An opening inside a subscript ----------

  /** `${p[${q-x}]-c}`, where `x` is any word. */
  function Nested(p: string, q: string, x: string): string {
    "${" + p + "[${" + q + "-" + x + "}]-c}"
  }

  /** Where the inner operand starts. */
  function Inner(p: string, q: string): nat {
    |p| + |q| + 6
  }

  lemma NestedChars(p: string, q: string, x: string)
    ensures var s, n := Nested(p, q, x), Inner(p, q);
            && |s| == n + |x| + 5 && At(s, 2, p) && At(s, |p| + 5, q) && At(s, n, x)
            && s[0] == '$' && s[1] == '{' && s[|p| + 2] == '[' && s[|p| + 3] == '$' && s[|p| + 4] == '{' && s[n - 1] == '-'
            && s[n + |x|] == '}' && s[n + |x| + 1] == ']' && s[n + |x| + 2] == '-' && s[n + |x| + 3] == 'c' && s[n + |x| + 4] == '}'
  {
  }

  lemma NestedQuiet(p: string, q: string, x: string)
    requires IsName(p) && IsName(q) && '$' !in x
    ensures Quiet(Nested(p, q, x), 1, |p| + 3) && Quiet(Nested(p, q, x), |p| + 4, |Nested(p, q, x)|)
  {
    var s := Nested(p, q, x);
    NestedChars(p, q, x);
    forall k: nat | 1 <= k < |s| && k != |p| + 3 ensures MatchAt(s, k).None? {
      NoDollar(p, q, x, k);
      NoMatch(s, k);
    }
  }

  lemma NameFree(p: string, k: nat)
    requires IsName(p) && k < |p|
    ensures p[k] != '$'
  {
    assert IsWordChar(p[k]);
  }

  lemma NoDollar(p: string, q: string, x: string, k: nat)
    requires IsName(p) && IsName(q) && '$' !in x && 1 <= k < |Nested(p, q, x)| && k != |p| + 3
    ensures Nested(p, q, x)[k] != '$'
  {
    var s, n := Nested(p, q, x), Inner(p, q);
    NestedChars(p, q, x);
    if 2 <= k < |p| + 2 {
      AtChar(s, 2, p, k - 2);
      NameFree(p, k - 2);
    } else if |p| + 5 <= k < |p| + 5 + |q| {
      AtChar(s, |p| + 5, q, k - |p| - 5);
      NameFree(q, k - |p| - 5);
    } else if n <= k < n + |x| {
      AtChar(s, n, x, k - n);
    }
  }

  /** The opening that stands inside the subscript. */
  lemma InnerMatch(p: string, q: string, x: string)
    requires IsName(p) && IsName(q)
    ensures var n := Inner(p, q); MatchAt(Nested(p, q, x), |p| + 3) == Some(Opening(|p| + 3, n - 1, n))
  {
    NestedChars(p, q, x);
    PlainMatch(Nested(p, q, x), |p| + 3, q);
  }

  lemma NoBracketBefore(p: string, q: string, x: string, m: nat)
    requires IsName(p) && IsName(q) && m <= |x| && ']' !in x[..m]
    ensures ']' !in Nested(p, q, x)[|p| + 3..Inner(p, q) + m]
  {
    var s, n := Nested(p, q, x), Inner(p, q);
    NestedChars(p, q, x);
    forall k | |p| + 3 <= k < n + m ensures s[k] != ']' {
      if |p| + 5 <= k < |p| + 5 + |q| { AtChar(s, |p| + 5, q, k - |p| - 5); }
      if n <= k { AtChar(s, n, x, k - n); assert x[k - n] == x[..m][k - n]; }
    }
  }

  /** The outer opening is read only when no bracket closes inside the inner operand. */
  lemma OuterMatch(p: string, q: string, x: string)
    requires IsName(p) && IsName(q)
    ensures var n := Inner(p, q) + |x|;
            ']' !in x ==> MatchAt(Nested(p, q, x), 0) == Some(Opening(0, |p| + 2, n + 3))
    ensures ClosesInside(x) ==> MatchAt(Nested(p, q, x), 0).None?
  {
    var s, n := Nested(p, q, x), Inner(p, q);
    NestedChars(p, q, x);
    if ']' !in x {
      NoBracketBefore(p, q, x, |x|);
      SubscriptedMatch(s, 0, p, n + |x| + 1);
    } else if ClosesInside(x) {
      NoBracketBefore(p, q, x, 0);
      AtChar(s, n, x, 0);
      if |x| > 1 { AtChar(s, n, x, 1); }
      SubscriptedMatch(s, 0, p, n);
    }
  }

  /** A word that starts with a closing bracket, with no operator behind it. */
  predicate ClosesInside(x: string) {
    x != "" && x[0] == ']' && (|x| > 1 ==> x[1] != ':' && !IsOperator(x[1]))
  }

  /** Before: the inner operand is masked, as the outer opening cannot be read. */
  lemma OneInner(p: string, q: string, x: string)
    requires IsName(p) && IsName(q) && ClosesInside(x) && Plain(x)
    ensures var n := Inner(p, q); Openings(Nested(p, q, x), 0) == [Opening(|p| + 3, n - 1, n)]
  {
    NestedQuiet(p, q, x);
    InnerMatch(p, q, x);
    OuterMatch(p, q, x);
    OpeningsOne(Nested(p, q, x), 1, Opening(|p| + 3, Inner(p, q) - 1, Inner(p, q)));
  }

  lemma InnerOperand(p: string, q: string, x: string)
    requires Plain(x)
    ensures var s, n, o := Nested(p, q, x), Inner(p, q), Opening(|p| + 3, Inner(p, q) - 1, Inner(p, q));
            Within(o, s) && s[o.start + 2..o.nameEnd] == q && ClosingOf(s, o) == n + |x| && s[n..n + |x|] == x
  {
    NestedChars(p, q, x);
    ClosePlain(Nested(p, q, x), Opening(|p| + 3, Inner(p, q) - 1, Inner(p, q)), Inner(p, q) + |x|);
  }

  lemma Replaced(p: string, q: string, x: string)
    ensures var s, n := Nested(p, q, x), Inner(p, q);
            n + |x| <= |s| && s[..n] + MARK + s[n + |x|..] == Nested(p, q, MARK)
  {
  }

  lemma InnerMasked(secret: string -> bool, p: string, q: string, x: string)
    requires IsName(p) && IsName(q) && secret(q) && ClosesInside(x) && Plain(x)
    ensures Redact(secret, Nested(p, q, x)) == Nested(p, q, MARK)
  {
    OneInner(p, q, x);
    InnerOperand(p, q, x);
    Replaced(p, q, x);
    RedactsOne(secret, Nested(p, q, x), Opening(|p| + 3, Inner(p, q) - 1, Inner(p, q)));
  }

  /** After: the outer opening is read, and its operand goes too. */
  lemma OneOuter(p: string, q: string, x: string)
    requires IsName(p) && IsName(q) && ']' !in x && Plain(x)
    ensures Openings(Nested(p, q, x), 0) == [Opening(0, |p| + 2, Inner(p, q) + |x| + 3)]
  {
    NestedChars(p, q, x);
    NestedQuiet(p, q, x);
    OuterMatch(p, q, x);
    OpeningsOne(Nested(p, q, x), 0, Opening(0, |p| + 2, Inner(p, q) + |x| + 3));
  }

  lemma OuterOperand(p: string, q: string, x: string)
    ensures var s, o := Nested(p, q, x), Opening(0, |p| + 2, Inner(p, q) + |x| + 3);
            Within(o, s) && s[2..o.nameEnd] == p && ClosingOf(s, o) == o.end + 1
  {
    NestedChars(p, q, x);
    ClosePlain(Nested(p, q, x), Opening(0, |p| + 2, Inner(p, q) + |x| + 3), Inner(p, q) + |x| + 4);
  }

  lemma OuterReplaced(p: string, q: string, x: string)
    ensures var s, n := Nested(p, q, x), Inner(p, q) + |x| + 3;
            n + 1 <= |s| && s[..n] + MARK + s[n + 1..] == "${" + p + "[${" + q + "-" + x + "}]-" + MARK + "}"
  {
    var s, n := Nested(p, q, x), Inner(p, q) + |x| + 3;
    assert s == "${" + p + "[${" + q + "-" + x + "}]-" + "c}";
  }

  lemma OuterMasked(secret: string -> bool, p: string, q: string, x: string)
    requires IsName(p) && IsName(q) && secret(p) && ']' !in x && Plain(x)
    ensures Redact(secret, Nested(p, q, x)) == "${" + p + "[${" + q + "-" + x + "}]-" + MARK + "}"
  {
    OneOuter(p, q, x);
    OuterOperand(p, q, x);
    OuterReplaced(p, q, x);
    RedactsOne(secret, Nested(p, q, x), Opening(0, |p| + 2, Inner(p, q) + |x| + 3));
  }

  /**
   * With an opening inside a subscript the rule is not idempotent, whatever names are secret: masking an operand that
   * holds a `]` completes the subscript around it.
   */
  lemma SubscriptUncovers(secret: string -> bool, p: string, q: string, x: string)
    requires IsName(p) && IsName(q) && secret(p) && secret(q) && ClosesInside(x) && Plain(x)
    ensures var s := Nested(p, q, x); Redact(secret, Redact(secret, s)) != Redact(secret, s)
  {
    InnerMasked(secret, p, q, x);
    OuterMasked(secret, p, q, MARK);
  }

  /** Nor is every operand hidden: the search for openings passes over the one inside a subscript. */
  lemma SubscriptShows(secret: string -> bool, p: string, q: string, x: string)
    requires IsName(p) && IsName(q) && !secret(p) && secret(q) && x != "" && x != MARK && ']' !in x && Plain(x)
    ensures var s := Nested(p, q, x); Redact(secret, s) == s && !OperandHidden(secret, s, |p| + 3)
  {
    OuterIdle(secret, p, q, x);
    InnerShown(secret, p, q, x);
  }

  lemma OuterIdle(secret: string -> bool, p: string, q: string, x: string)
    requires IsName(p) && IsName(q) && !secret(p) && ']' !in x && Plain(x)
    ensures Redact(secret, Nested(p, q, x)) == Nested(p, q, x)
  {
    OneOuter(p, q, x);
    OuterOperand(p, q, x);
    RedactsOne(secret, Nested(p, q, x), Opening(0, |p| + 2, Inner(p, q) + |x| + 3));
  }

  lemma InnerShown(secret: string -> bool, p: string, q: string, x: string)
    requires IsName(p) && IsName(q) && secret(q) && x != "" && x != MARK && Plain(x)
    ensures !OperandHidden(secret, Nested(p, q, x), |p| + 3)
  {
    InnerMatch(p, q, x);
    InnerOperand(p, q, x);
  }
}

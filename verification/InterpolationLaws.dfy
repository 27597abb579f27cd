/** Why masking interpolation operands twice is the same as masking them once. */
module InterpolationLaws {
  import opened Text
  import opened Interpolation
  import opened InterpolationScan

  // ---------- The brace scan after masking ----------

  lemma {:induction false} CloseSuffix(s: string, depth: nat)
    requires Close(s, depth).Some?
    ensures var rest := Close(s, depth).value; rest == s[|s| - |rest|..] && rest[0] == '}'
    decreases |s|
  {
    if s[0] == '\\' {
      CloseSuffix(s[2..], depth);
    } else if s[0] != '}' || depth != 0 {
      CloseSuffix(s[1..], if s[0] == '$' && 1 < |s| && s[1] == '{' then depth + 1 else if s[0] == '}' then depth - 1 else depth);
    }
  }

  lemma ClosingBrace(s: string, start: nat)
    requires start <= |s| && ClosingIn(s, start) != -1
    ensures s[ClosingIn(s, start)] == '}' && Close(s[start..], 0) == Some(s[ClosingIn(s, start)..])
  {
    CloseSuffix(s[start..], 0);
  }

  /** A scan that finds its closing brace arrives there at the depth it started from, whatever lies outside. */
  lemma {:induction false} CloseThrough(s: string, depth: nat, outer: nat)
    requires Close(s, depth).Some?
    ensures Close(s, depth + outer) == Close(Close(s, depth).value, outer)
    decreases |s|
  {
    if s[0] == '\\' {
      CloseThrough(s[2..], depth, outer);
    } else if s[0] != '}' || depth != 0 {
      var inner := if s[0] == '$' && 1 < |s| && s[1] == '{' then depth + 1 else if s[0] == '}' then depth - 1 else depth;
      CloseThrough(s[1..], inner, outer);
    }
  }

  predicate Plain(s: string) {
    '$' !in s && '}' !in s && '\\' !in s
  }

  lemma {:induction false} CloseSkips(a: string, b: string, depth: nat)
    requires Plain(a)
    ensures Close(a + b, depth) == Close(b, depth)
  {
    if a == "" {
      assert a + b == b;
    } else {
      assert (a + b)[0] == a[0] && (a + b)[1..] == a[1..] + b;
      CloseSkips(a[1..], b, depth);
    }
  }

  lemma ScanKeepsFirst(secret: string -> bool, s: string)
    ensures s == "" ==> Scan(secret, s) == ""
    ensures s != "" ==> Scan(secret, s) != "" && Scan(secret, s)[0] == s[0]
  {
  }

  /** The depth after reading all of `a`; None when the scan closes inside `a` or `a` ends in the middle of an escape. */
  function Pass(a: string, depth: nat): Option<nat>
    decreases |a|
  {
    if a == "" then Some(depth)
    else if a[0] == '\\' then (if |a| == 1 then None else Pass(a[2..], depth))
    else if a[0] == '$' && 1 < |a| && a[1] == '{' then Pass(a[1..], depth + 1)
    else if a[0] == '}' then (if depth == 0 then None else Pass(a[1..], depth - 1))
    else Pass(a[1..], depth)
  }

  /** The text ends in a character that does not begin anything. */
  predicate Ends(a: string) {
    a != "" ==> a[|a| - 1] != '\\' && a[|a| - 1] != '$'
  }

  /** A brace scan either gets through `a` at a depth that `a` decides, or closes inside. */
  lemma {:induction false} PassClose(a: string, b: string, depth: nat)
    requires Ends(a)
    ensures Pass(a, depth).Some? ==> Close(a + b, depth) == Close(b, Pass(a, depth).value)
    ensures Pass(a, depth).None? ==> Close(a + b, depth).Some?
    decreases |a|
  {
    var s := a + b;
    if a == "" {
      assert s == b;
    } else if a[0] == '\\' {
      assert |a| > 1 && s[0] == a[0] && s[2..] == a[2..] + b;
      PassClose(a[2..], b, depth);
    } else {
      assert s[0] == a[0] && s[1..] == a[1..] + b;
      assert a[0] == '$' ==> |a| > 1 && s[1] == a[1];
      if a[0] != '}' || depth != 0 {
        PassClose(a[1..], b,
          if a[0] == '$' && 1 < |a| && a[1] == '{' then depth + 1 else if a[0] == '}' then depth - 1 else depth);
      }
    }
  }

  /** The parts of a text whose front opening is masked, before and after. */
  lemma MaskedParts(secret: string -> bool, s: string) returns (end: nat, c: nat)
    requires Masks(secret, s) && FlatAt(s, 0)
    ensures 2 < end < c < |s| && MatchAt(s, 0).value.end == end && ClosingIn(s, end) == c
    ensures s[c] == '}' && IsOperator(s[end - 1])
    ensures Close(s[end..], 0) == Some(s[c..])
    ensures Scan(secret, s) == s[..end] + MARK + Scan(secret, s[c..])
  {
    var o := MatchAt(s, 0).value;
    end, c := o.end, ClosingOf(s, o);
    ClosingBrace(s, end);
  }

  lemma Tails(s: string, end: nat, j: nat, rest: string)
    requires j <= 1 < end <= |s|
    ensures s[j..] == s[j..end] + s[end..]
    ensures (s[..end] + MARK + rest)[j..] == s[j..end] + (MARK + rest)
  {
  }

  /** Unbalanced behind `a` and an operand that closes at `tail`, so unbalanced from `tail` on, at the depth `a` leads to. */
  lemma UnbalancedBehind(a: string, operand: string, tail: string, depth: nat) returns (d: nat)
    requires Ends(a) && Close(operand, 0) == Some(tail) && Close(a + operand, depth).None?
    ensures Pass(a, depth) == Some(d) && Close(tail, d).None?
  {
    PassClose(a, operand, depth);
    d := Pass(a, depth).value;
    CloseThrough(operand, 0, d);
  }

  lemma UnbalancedMarked(a: string, rest: string, depth: nat, d: nat)
    requires Ends(a) && Pass(a, depth) == Some(d) && Close(rest, d).None?
    ensures Close(a + (MARK + rest), depth).None?
  {
    PassClose(a, MARK + rest, depth);
    CloseSkips(MARK, rest, d);
  }

  /** A brace scan that gets into a masked operand gets out of it at the same depth, before and after. */
  lemma MaskedUnbalanced(secret: string -> bool, s: string, j: nat, depth: nat) returns (c: nat, d: nat)
    requires Masks(secret, s) && FlatAt(s, 0) && j <= 1 && Close(s[j..], depth).None?
    ensures 0 < c < |s| && j <= |Scan(secret, s)| && Close(s[c..], d).None?
    ensures Close(Scan(secret, s[c..]), d).None? ==> Close(Scan(secret, s)[j..], depth).None?
  {
    var end;
    end, c := MaskedParts(secret, s);
    var a, rest := s[j..end], Scan(secret, s[c..]);
    Tails(s, end, j, rest);
    assert a[|a| - 1] == s[end - 1];
    d := UnbalancedBehind(a, s[end..], s[c..], depth);
    if Close(rest, d).None? { UnbalancedMarked(a, rest, depth, d); }
  }

  /** An unbalanced scan stays unbalanced when operands further on are masked. */
  lemma {:induction false} StaysUnbalanced(secret: string -> bool, s: string, depth: nat)
    requires FlatSubscripts(s) && Close(s, depth).None?
    ensures Close(Scan(secret, s), depth).None?
    decreases |s|, 1
  {
    if s != "" {
      if Masks(secret, s) {
        assert s[0..] == s && Scan(secret, s)[0..] == Scan(secret, s);
        var c, d := MaskedUnbalanced(secret, s, 0, depth);
        FlatSuffix(s, c);
        StaysUnbalanced(secret, s[c..], d);
      } else {
        ScanFirst(secret, s);
        FlatSuffix(s, 1);
        ScanKeepsFirst(secret, s[1..]);
        assert Scan(secret, s)[1..] == Scan(secret, s[1..]);
        if s[0] == '\\' {
          UnbalancedEscape(secret, s, depth);
        } else {
          SecondKept(secret, s);
          StaysUnbalanced(secret, s[1..],
            if s[0] == '$' && 1 < |s| && s[1] == '{' then depth + 1 else if s[0] == '}' then depth - 1 else depth);
        }
      }
    }
  }

  lemma SecondKept(secret: string -> bool, s: string)
    requires s != "" && !Masks(secret, s)
    ensures |Scan(secret, s)| > 1 <==> |s| > 1
    ensures |s| > 1 ==> Scan(secret, s)[1] == s[1]
  {
    ScanFirst(secret, s);
    ScanKeepsFirst(secret, s[1..]);
  }

  lemma {:induction false} UnbalancedEscape(secret: string -> bool, s: string, depth: nat)
    requires FlatSubscripts(s) && Close(s, depth).None? && s != "" && s[0] == '\\'
    requires Scan(secret, s) == [s[0]] + Scan(secret, s[1..])
    ensures Close(Scan(secret, s), depth).None?
    decreases |s|, 0
  {
    var out := Scan(secret, s);
    var u := s[1..];
    assert out[1..] == Scan(secret, u);
    ScanKeepsFirst(secret, u);
    if u != "" {
      assert s[2..] == u[1..] && out[2..] == Scan(secret, u)[1..];
      FlatSuffix(s, 1);
      if Masks(secret, u) {
        var c, d := MaskedUnbalanced(secret, u, 1, depth);
        FlatSuffix(u, c);
        StaysUnbalanced(secret, u[c..], d);
      } else {
        ScanFirst(secret, u);
        FlatSuffix(s, 2);
        StaysUnbalanced(secret, u[1..], depth);
      }
    }
  }

  // ---------- Idempotence ----------

  /** The position of the next opening at or after `k`, or the length. */
  function NextMatch(s: string, k: nat): (n: nat)
    requires k <= |s|
    ensures k <= n <= |s| && Quiet(s, k, n) && (n < |s| ==> MatchAt(s, n).Some?)
    decreases |s| - k
  {
    if k == |s| || MatchAt(s, k).Some? then k else NextMatch(s, k + 1)
  }

  /** The result holds no closing bracket that the text does not hold. */
  lemma {:induction false} NoNewBracket(secret: string -> bool, s: string)
    requires ']' !in s
    ensures ']' !in Scan(secret, s)
    decreases |s|
  {
    if s != "" {
      if Masks(secret, s) {
        NoNewBracket(secret, s[ClosingOf(s, MatchAt(s, 0).value)..]);
      } else {
        NoNewBracket(secret, s[1..]);
      }
    }
  }

  lemma MatchBy(s: string, t: string, k: nat, e: nat)
    requires Agree(s, t, k + 1) && s[k] == '$' && OpensAt(s, 0) && OpensAt(t, 0) && e <= |s| && e <= |t|
    requires Run(s, 2, IsWordChar) == e == Run(t, 2, IsWordChar) && SubscriptEnd(s, e) == SubscriptEnd(t, e)
    requires SubscriptEnd(s, e).Some? ==> SubscriptEnd(s, e).value <= k
    ensures MatchAt(s, 0) == MatchAt(t, 0)
  {
  }

  /** Texts that agree up to the next opening and hold no other brackets behind it have the same opening in front. */
  lemma SameMatch(s: string, t: string, k: nat)
    requires 1 <= k < |s| && Agree(s, t, k + 1) && MatchAt(s, k).Some? && FlatAt(s, 0)
    requires ']' !in s[k..] ==> ']' !in t[k..]
    ensures MatchAt(t, 0) == MatchAt(s, 0) && FlatAt(t, 0)
  {
    if OpensAt(s, 0) {
      RunChars(s, 2, IsWordChar);
      var e := Run(s, 2, IsWordChar);
      assert !IsWordChar(s[k]) && e <= k;
      RunLocal(s, t, 2, k + 1, IsWordChar);
      if e > 2 {
        if s[e] == '[' {
          if Run(s, e + 1, NotBracket) < |s| { SameSubscript(s, t, k, e); } else { NoSubscript(s, t, k, e); }
        }
        MatchBy(s, t, k, e);
      }
    }
  }

  lemma SameSubscript(s: string, t: string, k: nat, e: nat)
    requires e < k < |s| && Agree(s, t, k + 1) && MatchAt(s, k).Some?
    requires SubscriptAt(s, 0) && FlatAt(s, 0) && e == Run(s, 2, IsWordChar) && Run(s, e + 1, NotBracket) < |s|
    ensures var close := Run(s, e + 1, NotBracket);
            close < k && s[close] == ']' && Run(t, e + 1, NotBracket) == close && Quiet(t, e + 1, close)
  {
    var close := Run(s, e + 1, NotBracket);
    RunChars(s, e + 1, NotBracket);
    assert close <= k;
    RunLocal(s, t, e + 1, k + 1, NotBracket);
    SubscriptLocal(s, t, 0, k + 1);
  }

  lemma NoSubscript(s: string, t: string, k: nat, e: nat)
    requires e < k < |s| && Agree(s, t, k + 1) && Run(s, e + 1, NotBracket) == |s|
    requires ']' !in s[k..] ==> ']' !in t[k..]
    ensures Run(t, e + 1, NotBracket) == |t|
  {
    RunChars(s, e + 1, NotBracket);
    forall j | k <= j < |t| ensures t[j] != ']' {
      assert t[j] == t[k..][j - k];
    }
    RunIs(t, e + 1, |t|, NotBracket);
  }

  /** Where nothing is masked at the front, the result is the text up to the next opening and the result for the rest. */
  lemma FrontKept(secret: string -> bool, s: string, k: nat)
    requires 1 <= k <= |s| && Quiet(s, 1, k) && !Masks(secret, s)
    ensures Scan(secret, s) == s[..k] + Scan(secret, s[k..])
  {
    ScanFirst(secret, s);
    ScanQuiet(secret, s, 1, k);
    Glue(s, 0, 1, k, Scan(secret, s[k..]));
  }

  /** There the result starts with the same opening, or again with none. */
  lemma SameFront(secret: string -> bool, s: string)
    requires s != "" && FlatAt(s, 0) && !Masks(secret, s)
    ensures MatchAt(Scan(secret, s), 0) == MatchAt(s, 0) && FlatAt(Scan(secret, s), 0)
  {
    var out, k := Scan(secret, s), NextMatch(s, 1);
    FrontKept(secret, s, k);
    if k < |s| {
      ScanKeepsFirst(secret, s[k..]);
      assert out[k..] == Scan(secret, s[k..]);
      if ']' !in s[k..] { NoNewBracket(secret, s[k..]); }
      SameMatch(s, out, k);
    } else {
      assert s[k..] == "" && s[..k] == s;
      assert out == s;
    }
  }

  /** Behind the opening the result is the result for what stood behind the opening. */
  lemma KeptOperand(secret: string -> bool, s: string, end: nat, k: nat, out: string)
    requires end <= k <= |s| && Quiet(s, end, k) && out == s[..k] + Scan(secret, s[k..])
    ensures end <= |out| && out[..end] == s[..end] && out[end..] == Scan(secret, s[end..])
  {
    KeptText(s, end, k, Scan(secret, s[k..]));
    ScanQuiet(secret, s, end, k);
  }

  lemma KeptText(s: string, end: nat, k: nat, rest: string)
    requires end <= k <= |s|
    ensures (s[..k] + rest)[..end] == s[..end] && (s[..k] + rest)[end..] == s[end..k] + rest
  {
    assert s[..k] == s[..end] + s[end..k];
  }

  /** An operand that is unbalanced or empty stays so. */
  lemma KeptClosing(secret: string -> bool, s: string, end: nat, out: string)
    requires FlatSubscripts(s) && end <= |s| && end <= |out| && out[end..] == Scan(secret, s[end..])
    requires ClosingIn(s, end) <= end
    ensures ClosingIn(out, end) <= end
  {
    if Close(s[end..], 0).None? {
      FlatSuffix(s, end);
      StaysUnbalanced(secret, s[end..], 0);
    } else {
      ClosingBrace(s, end);
      ScanKeepsFirst(secret, s[end..]);
      assert s[end..][0] == '}' && out[end] == '}';
      assert Close(out[end..], 0) == Some(out[end..]);
    }
  }

  lemma OpeningBeforeNext(s: string)
    requires s != "" && FlatAt(s, 0) && MatchAt(s, 0).Some?
    ensures MatchAt(s, 0).value.end <= NextMatch(s, 1)
  {
    OpeningQuiet(s, 0);
  }

  /** The result for a text whose front opening is left alone, taken at the operand. */
  lemma KeptParts(secret: string -> bool, s: string, end: nat)
    requires s != "" && FlatAt(s, 0) && !Masks(secret, s) && MatchAt(s, 0).Some? && MatchAt(s, 0).value.end == end
    ensures end <= |Scan(secret, s)| && end <= |s|
    ensures Scan(secret, s)[..end] == s[..end] && Scan(secret, s)[end..] == Scan(secret, s[end..])
  {
    var k := NextMatch(s, 1);
    OpeningBeforeNext(s);
    FrontKept(secret, s, k);
    KeptOperand(secret, s, end, k, Scan(secret, s));
  }

  lemma SameName(s: string, t: string, end: nat, e: nat)
    requires 2 <= e <= end <= |s| && end <= |t| && s[..end] == t[..end]
    ensures s[2..e] == t[2..e]
  {
    assert s[2..e] == s[..end][2..e] && t[2..e] == t[..end][2..e];
  }

  /** An opening under the same name is left alone in `out` when its operand is no longer balanced, or empty. */
  lemma NotMasked(secret: string -> bool, s: string, out: string, o: Opening)
    requires MatchAt(s, 0) == Some(o) && MatchAt(out, 0) == Some(o) && !Masks(secret, s)
    requires s[2..o.nameEnd] == out[2..o.nameEnd]
    requires ClosingIn(s, o.end) <= o.end ==> ClosingIn(out, o.end) <= o.end
    ensures !Masks(secret, out)
  {
  }

  /** An opening left alone at the front is left alone again. */
  lemma KeptAgain(secret: string -> bool, s: string)
    requires s != "" && FlatSubscripts(s) && !Masks(secret, s)
    ensures !Masks(secret, Scan(secret, s))
  {
    assert FlatAt(s, 0);
    SameFront(secret, s);
    if MatchAt(s, 0).Some? {
      var o, out := MatchAt(s, 0).value, Scan(secret, s);
      KeptParts(secret, s, o.end);
      SameName(s, out, o.end, o.nameEnd);
      if ClosingIn(s, o.end) <= o.end { KeptClosing(secret, s, o.end, out); }
      NotMasked(secret, s, out, o);
    }
  }

  lemma MarkedText(s: string, end: nat, rest: string)
    requires end <= |s|
    ensures var out, a := s[..end] + MARK + rest, end + |MARK|;
            && |out| == a + |rest| && Agree(s, out, end) && out[..end] == s[..end]
            && out[end..] == MARK + rest && out[a..] == rest && out[end..a] == MARK
  {
  }

  lemma MarkCloses(t: string, end: nat, rest: string)
    requires end <= |t| && t[end..] == MARK + rest && rest != "" && rest[0] == '}'
    ensures ClosingIn(t, end) == end + |MARK|
  {
    CloseSkips(MARK, rest, 0);
  }

  /** The result for a text whose front opening is masked starts with the same opening, whose operand is the marker. */
  lemma MaskedFront(secret: string -> bool, s: string) returns (end: nat, c: nat)
    requires Masks(secret, s) && FlatAt(s, 0)
    ensures 2 < end < c < |s| && MatchAt(s, 0).value.end == end
    ensures Scan(secret, s) == s[..end] + MARK + Scan(secret, s[c..])
    ensures MatchAt(Scan(secret, s), 0) == MatchAt(s, 0) && FlatAt(Scan(secret, s), 0)
    ensures ClosingIn(Scan(secret, s), end) == end + |MARK|
  {
    end, c := MaskedParts(secret, s);
    var rest, out := Scan(secret, s[c..]), Scan(secret, s);
    ScanKeepsFirst(secret, s[c..]);
    MarkedText(s, end, rest);
    MatchLocal(s, out, 0);
    FlatLocal(s, out, 0);
    MarkCloses(out, end, rest);
  }

  lemma MarkMasked(secret: string -> bool, s: string, out: string, o: Opening)
    requires MatchAt(s, 0) == Some(o) && MatchAt(out, 0) == Some(o) && Masks(secret, s)
    requires s[2..o.nameEnd] == out[2..o.nameEnd] && ClosingIn(out, o.end) == o.end + |MARK|
    ensures Scan(secret, out) == out[..o.end] + MARK + Scan(secret, out[o.end + |MARK|..])
  {
  }

  /** A masked opening is masked again, to the same text. */
  lemma MaskedAgain(secret: string -> bool, s: string) returns (end: nat, c: nat)
    requires Masks(secret, s) && FlatAt(s, 0)
    ensures 0 < end < c < |s|
    ensures Scan(secret, s) == s[..end] + MARK + Scan(secret, s[c..])
    ensures Scan(secret, Scan(secret, s)) == s[..end] + MARK + Scan(secret, Scan(secret, s[c..]))
  {
    end, c := MaskedFront(secret, s);
    var out, o := Scan(secret, s), MatchAt(s, 0).value;
    MarkedText(s, end, Scan(secret, s[c..]));
    SameName(s, out, end, o.nameEnd);
    MarkMasked(secret, s, out, o);
  }

  lemma {:induction false} ScanIdempotent(secret: string -> bool, s: string)
    requires FlatSubscripts(s)
    ensures Scan(secret, Scan(secret, s)) == Scan(secret, s)
    decreases |s|
  {
    if s != "" {
      if Masks(secret, s) {
        var end, c := MaskedAgain(secret, s);
        FlatSuffix(s, c);
        ScanIdempotent(secret, s[c..]);
      } else {
        KeptAgain(secret, s);
        ScanFirst(secret, s);
        FlatSuffix(s, 1);
        ScanIdempotent(secret, s[1..]);
        var out := Scan(secret, s);
        assert out[1..] == Scan(secret, s[1..]) && out[0] == s[0];
        ScanFirst(secret, out);
      }
    }
  }

  /** A text whose front part opens nothing but at its start takes its subscripts from the rest. */
  lemma FlatConcat(out: string, a: nat)
    requires a <= |out| && FlatSubscripts(out[a..]) && FlatAt(out, 0)
    requires forall i | 0 < i < a :: out[i] == '$' ==> InSubscript(out, 0, i)
    ensures FlatSubscripts(out)
  {
    forall i: nat | i < |out| ensures FlatAt(out, i) {
      if i >= a {
        assert FlatAt(out[a..], i - a);
        FlatShift(out, a, i - a);
      } else if i > 0 {
        if InSubscript(out, 0, i) { InnerFlat(out, 0, i); } else { assert out[i] != '$'; }
      }
    }
  }

  /** In an opening that the marker follows, and in the marker, a `$` stands in the subscript only, and nothing opens. */
  lemma FrontText(out: string, end: nat)
    requires MatchAt(out, 0).Some? && MatchAt(out, 0).value.end == end && FlatAt(out, 0)
    requires end + |MARK| <= |out| && out[end..end + |MARK|] == MARK
    ensures Quiet(out, 1, end + |MARK|)
    ensures forall i | 0 < i < end + |MARK| :: out[i] == '$' ==> InSubscript(out, 0, i)
  {
    OpeningQuiet(out, 0);
    forall i: nat | 1 <= i < end + |MARK| ensures MatchAt(out, i).None? && (out[i] == '$' ==> InSubscript(out, 0, i)) {
      if i < end {
        OpeningChars(out, 0, i);
      } else {
        assert out[i] == MARK[i - end] != '$';
        NoMatch(out, i);
      }
    }
  }

  lemma MaskedFlat(secret: string -> bool, s: string) returns (c: nat)
    requires Masks(secret, s) && FlatAt(s, 0)
    ensures 0 < c < |s| && (FlatSubscripts(Scan(secret, s[c..])) ==> FlatSubscripts(Scan(secret, s)))
  {
    var end;
    end, c := MaskedFront(secret, s);
    var rest := Scan(secret, s[c..]);
    MarkedText(s, end, rest);
    FrontText(s[..end] + MARK + rest, end);
    if FlatSubscripts(rest) {
      FlatConcat(s[..end] + MARK + rest, end + |MARK|);
    }
  }

  lemma {:induction false} ScanFlat(secret: string -> bool, s: string)
    requires FlatSubscripts(s)
    ensures FlatSubscripts(Scan(secret, s))
    decreases |s|
  {
    if s != "" {
      if Masks(secret, s) {
        var c := MaskedFlat(secret, s);
        FlatSuffix(s, c);
        ScanFlat(secret, s[c..]);
      } else {
        SameFront(secret, s);
        ScanFirst(secret, s);
        FlatSuffix(s, 1);
        ScanFlat(secret, s[1..]);
        assert Scan(secret, s)[1..] == Scan(secret, s[1..]);
        FlatConcat(Scan(secret, s), 1);
      }
    }
  }

  /** Where no opening starts inside a subscript, masking twice is masking once. */
  lemma Idempotent(secret: string -> bool, s: string)
    requires FlatSubscripts(s)
    ensures Redact(secret, Redact(secret, s)) == Redact(secret, s)
  {
    RedactIsScan(secret, s);
    ScanFlat(secret, s);
    RedactIsScan(secret, Scan(secret, s));
    ScanIdempotent(secret, s);
  }

  // ---------- Nothing is shown ----------

  /** An operand that is still shown under a secret name is the marker. */
  predicate OperandHidden(secret: string -> bool, out: string, i: nat) {
    var m := MatchAt(out, i);
    m.Some? && Effective(secret, out, m.value) ==>
      var c := ClosingOf(out, m.value); out[m.value.end..c] == MARK
  }

  lemma HiddenShift(secret: string -> bool, out: string, k: nat, i: nat)
    requires k <= |out| && OperandHidden(secret, out[k..], i)
    ensures OperandHidden(secret, out, k + i)
  {
    MatchShift(out, k, i);
    if MatchAt(out[k..], i).Some? {
      var o := MatchAt(out[k..], i).value;
      EffectiveShift(secret, out, k, o);
      if Effective(secret, out[k..], o) { ShiftedOperand(out, k, o.end, ClosingOf(out[k..], o)); }
    }
  }

  lemma ShiftedOperand(s: string, k: nat, from: nat, to: nat)
    requires k <= |s| && from <= to <= |s| - k
    ensures s[k..][from..to] == s[k + from..k + to]
  {
  }

  /** `out` hides the operands of its first `a` characters. */
  predicate HidesUpTo(secret: string -> bool, out: string, a: nat) {
    forall i: nat | i < a :: OperandHidden(secret, out, i)
  }

  lemma QuietHides(secret: string -> bool, out: string, a: nat)
    requires OperandHidden(secret, out, 0) && Quiet(out, 1, a)
    ensures HidesUpTo(secret, out, a)
  {
    forall i: nat | 0 < i < a ensures OperandHidden(secret, out, i) {
      assert MatchAt(out, i).None?;
    }
  }

  lemma HiddenMasked(secret: string -> bool, s: string) returns (a: nat, c: nat)
    requires Masks(secret, s) && FlatAt(s, 0)
    ensures 0 < c < |s| && a <= |Scan(secret, s)| && Scan(secret, s)[a..] == Scan(secret, s[c..])
    ensures HidesUpTo(secret, Scan(secret, s), a)
  {
    var end;
    end, c := MaskedFront(secret, s);
    a := end + |MARK|;
    MarkedText(s, end, Scan(secret, s[c..]));
    FrontText(Scan(secret, s), end);
    QuietHides(secret, Scan(secret, s), a);
  }

  lemma HiddenKept(secret: string -> bool, s: string)
    requires s != "" && FlatSubscripts(s) && !Masks(secret, s)
    ensures Scan(secret, s) != "" && Scan(secret, s)[1..] == Scan(secret, s[1..])
    ensures OperandHidden(secret, Scan(secret, s), 0)
  {
    ScanFirst(secret, s);
    KeptAgain(secret, s);
  }

  /** The front of the result hides its operands; the rest is the result for the rest of the text. */
  lemma HiddenFront(secret: string -> bool, s: string) returns (a: nat, c: nat)
    requires s != "" && FlatSubscripts(s)
    ensures 0 < c <= |s| && a <= |Scan(secret, s)| && Scan(secret, s)[a..] == Scan(secret, s[c..])
    ensures HidesUpTo(secret, Scan(secret, s), a)
  {
    if Masks(secret, s) {
      a, c := HiddenMasked(secret, s);
    } else {
      a, c := 1, 1;
      HiddenKept(secret, s);
    }
  }

  lemma HiddenJoin(secret: string -> bool, out: string, a: nat)
    requires a <= |out| && HidesUpTo(secret, out[a..], |out| - a) && HidesUpTo(secret, out, a)
    ensures HidesUpTo(secret, out, |out|)
  {
    forall i: nat | a <= i < |out| ensures OperandHidden(secret, out, i) {
      assert OperandHidden(secret, out[a..], i - a);
      HiddenShift(secret, out, a, i - a);
    }
  }

  lemma {:induction false} ScanHides(secret: string -> bool, s: string)
    requires FlatSubscripts(s)
    ensures HidesUpTo(secret, Scan(secret, s), |Scan(secret, s)|)
    decreases |s|
  {
    if s != "" {
      var a, c := HiddenFront(secret, s);
      FlatSuffix(s, c);
      ScanHides(secret, s[c..]);
      HiddenJoin(secret, Scan(secret, s), a);
    }
  }

  /** In a redacted text every non-empty balanced operand under a secret name is the marker, wherever it stands. */
  lemma NothingShown(secret: string -> bool, s: string, i: nat)
    requires FlatSubscripts(s)
    ensures OperandHidden(secret, Redact(secret, s), i)
  {
    RedactIsScan(secret, s);
    ScanHides(secret, s);
  }
}

/** The interpolation rule as a single scan of the text, and the subscripts it is read through. */
module InterpolationScan {
  import opened Text
  import opened Interpolation

  // ---------- Subscripts ----------

  /** `${` stands at `i`. */
  predicate OpensAt(s: string, i: nat) {
    i + 1 < |s| && s[i] == '$' && s[i + 1] == '{'
  }

  /** No opening starts between `from` and `to`. */
  predicate Quiet(s: string, from: nat, to: nat) {
    forall k: nat | from <= k < to :: MatchAt(s, k).None?
  }

  /** An opening at `i` carries an array subscript: `${name[`. */
  predicate SubscriptAt(s: string, i: nat) {
    && i + 2 < |s| && s[i] == '$' && s[i + 1] == '{'
    && var e := Run(s, i + 2, IsWordChar); i + 2 < e < |s| && s[e] == '['
  }

  /**
   Between the bracket of a subscript at `i` and the first closing bracket behind it no opening starts: an
   interpolation without an operator, such as `${i}`, may stand there.
   */
  predicate FlatAt(s: string, i: nat) {
    SubscriptAt(s, i) ==>
      var e := Run(s, i + 2, IsWordChar);
      var close := Run(s, e + 1, NotBracket);
      close < |s| ==> Quiet(s, e + 1, close)
  }

  predicate FlatSubscripts(s: string) {
    forall i: nat | i < |s| :: FlatAt(s, i)
  }

  /** The rule read off the text from left to right, without a list of matches. */
  function Scan(secret: string -> bool, s: string): string
    decreases |s|
  {
    if s == "" then ""
    else if MatchAt(s, 0).Some? && Effective(secret, s, MatchAt(s, 0).value) then
      var o := MatchAt(s, 0).value;
      s[..o.end] + MARK + Scan(secret, s[ClosingOf(s, o)..])
    else [s[0]] + Scan(secret, s[1..])
  }

  // ---------- Suffixes and prefixes ----------

  function Shift(o: Opening, k: nat): Opening {
    Opening(o.start + k, o.nameEnd + k, o.end + k)
  }

  lemma SubscriptShift(s: string, k: nat, i: nat)
    requires k + i <= |s|
    ensures SubscriptEnd(s, k + i) == (match SubscriptEnd(s[k..], i) case None => None case Some(j) => Some(k + j))
  {
    if k + i < |s| && s[k + i] == '[' {
      RunShift(s, k, i + 1, NotBracket);
    }
  }

  lemma MatchShift(s: string, k: nat, i: nat)
    requires k <= |s|
    ensures MatchAt(s, k + i) == (match MatchAt(s[k..], i) case None => None case Some(o) => Some(Shift(o, k)))
  {
    if k + i + 2 < |s| {
      RunShift(s, k, i + 2, IsWordChar);
      SubscriptShift(s, k, Run(s[k..], i + 2, IsWordChar));
    }
  }

  lemma SubscriptAtShift(s: string, k: nat, i: nat)
    requires k <= |s|
    ensures SubscriptAt(s, k + i) == SubscriptAt(s[k..], i)
  {
    if k + i + 2 < |s| {
      RunShift(s, k, i + 2, IsWordChar);
    }
  }

  lemma QuietShift(s: string, k: nat, from: nat, to: nat)
    requires k <= |s|
    ensures Quiet(s, k + from, k + to) == Quiet(s[k..], from, to)
  {
    if Quiet(s, k + from, k + to) {
      forall i: nat | from <= i < to ensures MatchAt(s[k..], i).None? {
        MatchShift(s, k, i);
        assert MatchAt(s, k + i).None?;
      }
    }
    if Quiet(s[k..], from, to) {
      forall i: nat | k + from <= i < k + to ensures MatchAt(s, i).None? {
        MatchShift(s, k, i - k);
        assert MatchAt(s[k..], i - k).None?;
      }
    }
  }

  lemma FlatShift(s: string, k: nat, i: nat)
    requires k <= |s|
    ensures FlatAt(s, k + i) == FlatAt(s[k..], i)
  {
    SubscriptAtShift(s, k, i);
    if SubscriptAt(s[k..], i) {
      RunShift(s, k, i + 2, IsWordChar);
      var e := Run(s[k..], i + 2, IsWordChar);
      RunShift(s, k, e + 1, NotBracket);
      QuietShift(s, k, e + 1, Run(s[k..], e + 1, NotBracket));
    }
  }

  lemma EffectiveShift(secret: string -> bool, s: string, k: nat, o: Opening)
    requires k <= |s| && o.start + 2 <= o.nameEnd <= o.end <= |s| - k
    ensures ClosingOf(s, Shift(o, k)) == (var c := ClosingOf(s[k..], o); if c == -1 then -1 else k + c)
    ensures Effective(secret, s[k..], o) == Effective(secret, s, Shift(o, k))
  {
    assert s[k..][o.end..] == s[o.end + k..];
    assert s[k..][o.start + 2..o.nameEnd] == s[k + o.start + 2..k + o.nameEnd];
  }

  lemma FlatSuffix(s: string, k: nat)
    requires FlatSubscripts(s) && k <= |s|
    ensures FlatSubscripts(s[k..])
  {
    forall i: nat | i < |s| - k ensures FlatAt(s[k..], i) {
      FlatShift(s, k, i);
    }
  }

  lemma NoMatch(s: string, i: nat)
    requires !OpensAt(s, i)
    ensures MatchAt(s, i).None?
  {
  }

  /** The position lies in the subscript of an opening at `i`, between its brackets. */
  predicate InSubscript(s: string, i: nat, k: nat) {
    SubscriptAt(s, i) &&
    var e := Run(s, i + 2, IsWordChar); e < k < Run(s, e + 1, NotBracket) < |s|
  }

  /** Inside an opening a `$` stands in the subscript only, and its last character is the operator. */
  lemma OpeningChars(s: string, i: nat, k: nat)
    requires MatchAt(s, i).Some? && i < k < MatchAt(s, i).value.end
    ensures s[k] == '$' ==> InSubscript(s, i, k)
    ensures IsOperator(s[MatchAt(s, i).value.end - 1])
  {
    var e := Run(s, i + 2, IsWordChar);
    RunChars(s, i + 2, IsWordChar);
    RunChars(s, if s[e] == '[' then e + 1 else e, NotBracket);
  }

  /** Inside an opening, subscript included, no other one starts. */
  lemma OpeningQuiet(s: string, i: nat)
    requires MatchAt(s, i).Some? && FlatAt(s, i)
    ensures Quiet(s, i + 1, MatchAt(s, i).value.end)
  {
    forall k: nat | i + 1 <= k < MatchAt(s, i).value.end ensures MatchAt(s, k).None? {
      OpeningChars(s, i, k);
      if s[k] != '$' { NoMatch(s, k); }
    }
  }

  // ---------- How far a match looks ----------

  /** Whether an opening starts at `j` is seen from the first `n` characters. */
  predicate Decided(s: string, j: nat, n: nat) {
    j < n <= |s| && (s[j] == '$' ==> j + 1 < n) &&
    (OpensAt(s, j) ==>
      var e := Run(s, j + 2, IsWordChar); e < n && (s[e] == ':' ==> e + 1 < n) && (s[e] == '[' ==> DecidedBehind(s, e, n)))
  }

  /** The first closing bracket behind `e`, and the operator if one follows, stand among the first `n` characters. */
  predicate DecidedBehind(s: string, e: nat, n: nat)
    requires e < n <= |s|
  {
    var close := Run(s, e + 1, NotBracket); close + 1 < n && (s[close + 1] == ':' ==> close + 2 < n)
  }

  lemma DecidedSame(s: string, t: string, j: nat, n: nat)
    requires Agree(s, t, n) && Decided(s, j, n)
    ensures MatchAt(t, j) == MatchAt(s, j)
  {
    if OpensAt(s, j) {
      var e := Run(s, j + 2, IsWordChar);
      RunLocal(s, t, j + 2, n, IsWordChar);
      if s[e] == '[' { RunLocal(s, t, e + 1, n, NotBracket); }
    }
  }

  /** An interpolation in a subscript is read no further than what follows the subscript's closing bracket. */
  lemma InnerDecided(s: string, i: nat, k: nat, n: nat)
    requires InSubscript(s, i, k) && Run(s, i + 2, IsWordChar) < n <= |s| && DecidedBehind(s, Run(s, i + 2, IsWordChar), n)
    ensures Decided(s, k, n)
  {
    if OpensAt(s, k) { InnerBracket(s, i, k); }
  }

  /** The name of an interpolation in a subscript ends there, and a subscript of its own ends at the same bracket. */
  lemma InnerBracket(s: string, i: nat, k: nat)
    requires InSubscript(s, i, k) && OpensAt(s, k)
    ensures var close, f := Run(s, Run(s, i + 2, IsWordChar) + 1, NotBracket), Run(s, k + 2, IsWordChar);
            k + 1 < f <= close && s[close] == ']' && (s[f] == '[' ==> f < close && Run(s, f + 1, NotBracket) == close)
  {
    var e, f := Run(s, i + 2, IsWordChar), Run(s, k + 2, IsWordChar);
    var close := Run(s, e + 1, NotBracket);
    RunChars(s, e + 1, NotBracket);
    RunChars(s, k + 2, IsWordChar);
    if s[f] == '[' { RunIs(s, f + 1, close, NotBracket); }
  }

  /** The subscript of an interpolation in a subscript ends at the same bracket. */
  lemma InnerFlat(s: string, i: nat, k: nat)
    requires InSubscript(s, i, k) && FlatAt(s, i)
    ensures FlatAt(s, k)
  {
    if SubscriptAt(s, k) { InnerBracket(s, i, k); }
  }

  lemma MatchLocal(s: string, t: string, i: nat)
    requires MatchAt(s, i).Some? && Agree(s, t, MatchAt(s, i).value.end)
    ensures MatchAt(t, i) == MatchAt(s, i)
  {
    var end, e := MatchAt(s, i).value.end, Run(s, i + 2, IsWordChar);
    RunLocal(s, t, i + 2, end, IsWordChar);
    if s[e] == '[' { RunLocal(s, t, e + 1, end, NotBracket); }
  }

  lemma FlatLocal(s: string, t: string, i: nat)
    requires MatchAt(s, i).Some? && FlatAt(s, i) && Agree(s, t, MatchAt(s, i).value.end)
    ensures FlatAt(t, i)
  {
    var end, e := MatchAt(s, i).value.end, Run(s, i + 2, IsWordChar);
    RunLocal(s, t, i + 2, end, IsWordChar);
    if s[e] == '[' {
      RunLocal(s, t, e + 1, end, NotBracket);
      SubscriptLocal(s, t, i, end);
    }
  }

  lemma SubscriptLocal(s: string, t: string, i: nat, n: nat)
    requires SubscriptAt(s, i) && FlatAt(s, i) && Agree(s, t, n) && Run(s, i + 2, IsWordChar) < n
    requires DecidedBehind(s, Run(s, i + 2, IsWordChar), n)
    ensures var e := Run(s, i + 2, IsWordChar); Quiet(t, e + 1, Run(s, e + 1, NotBracket))
  {
    var e := Run(s, i + 2, IsWordChar);
    forall k: nat | e + 1 <= k < Run(s, e + 1, NotBracket) ensures MatchAt(t, k).None? {
      InnerDecided(s, i, k, n);
      DecidedSame(s, t, k, n);
      assert MatchAt(s, k).None?;
    }
  }

  // ---------- The loop over matches is the scan ----------

  predicate Masks(secret: string -> bool, s: string) {
    MatchAt(s, 0).Some? && Effective(secret, s, MatchAt(s, 0).value)
  }

  lemma ScanFirst(secret: string -> bool, s: string)
    requires s != "" && !Masks(secret, s)
    ensures Scan(secret, s) == [s[0]] + Scan(secret, s[1..])
  {
  }

  lemma ScanNoMatch(secret: string -> bool, s: string, i: nat)
    requires i < |s| && MatchAt(s, i).None?
    ensures Scan(secret, s[i..]) == s[i..i + 1] + Scan(secret, s[i + 1..])
  {
    MatchShift(s, i, 0);
    ScanFirst(secret, s[i..]);
    FrontSlice(s, i);
  }

  lemma FrontSlice(s: string, i: nat)
    requires i < |s|
    ensures [s[i..][0]] == s[i..i + 1] && s[i..][1..] == s[i + 1..]
  {
  }

  /** Where no opening starts the scan copies. */
  lemma {:induction false} ScanQuiet(secret: string -> bool, s: string, a: nat, b: nat)
    requires a <= b <= |s| && Quiet(s, a, b)
    ensures Scan(secret, s[a..]) == s[a..b] + Scan(secret, s[b..])
    decreases b - a
  {
    if a == b {
      EmptySlice(s, a, Scan(secret, s[a..]));
    } else {
      ScanNoMatch(secret, s, a);
      ScanQuiet(secret, s, a + 1, b);
      Glue(s, a, a + 1, b, Scan(secret, s[b..]));
    }
  }

  lemma EmptySlice(s: string, i: nat, rest: string)
    requires i <= |s|
    ensures s[i..i] + rest == rest
  {
  }

  lemma ScanIdle(secret: string -> bool, s: string, i: nat, o: Opening)
    requires i < |s| && MatchAt(s, i) == Some(o) && FlatAt(s, i) && !Effective(secret, s, o)
    ensures Scan(secret, s[i..]) == s[i..o.end] + Scan(secret, s[o.end..])
  {
    MatchShift(s, i, 0);
    EffectiveShift(secret, s, i, MatchAt(s[i..], 0).value);
    OpeningQuiet(s, i);
    ScanFirst(secret, s[i..]);
    FrontSlice(s, i);
    ScanQuiet(secret, s, i + 1, o.end);
    Glue(s, i, i + 1, o.end, Scan(secret, s[o.end..]));
  }

  lemma ScanMasks(secret: string -> bool, s: string, i: nat, o: Opening)
    requires i < |s| && MatchAt(s, i) == Some(o) && Effective(secret, s, o)
    ensures Scan(secret, s[i..]) == s[i..o.end] + MARK + Scan(secret, s[ClosingOf(s, o)..])
  {
    MatchShift(s, i, 0);
    var p := MatchAt(s[i..], 0).value;
    EffectiveShift(secret, s, i, p);
    assert s[i..][..p.end] == s[i..o.end];
    assert s[i..][ClosingOf(s[i..], p)..] == s[ClosingOf(s, o)..];
  }

  /** `scan(k)`, the result for the text from `k` on, goes forward from `i` like the scan does. */
  predicate StepsAt(secret: string -> bool, s: string, scan: nat -> string, i: nat)
    requires i < |s|
  {
    match MatchAt(s, i)
    case None => scan(i) == s[i..i + 1] + scan(i + 1)
    case Some(o) =>
      if Effective(secret, s, o) then scan(i) == s[i..o.end] + MARK + scan(ClosingOf(s, o))
      else scan(i) == s[i..o.end] + scan(o.end)
  }

  predicate Steps(secret: string -> bool, s: string, scan: nat -> string) {
    scan(|s|) == "" && forall i | 0 <= i < |s| :: StepsAt(secret, s, scan, i)
  }

  /** What the loop writes from `i` on, `last` being where it last stopped writing. */
  function Written(scan: nat -> string, s: string, i: nat, last: nat): string
    requires last <= |s| && i <= |s|
  {
    if last <= i then s[last..i] + scan(i) else scan(last)
  }

  lemma Glue(s: string, last: nat, i: nat, end: nat, rest: string)
    requires last <= i <= end <= |s|
    ensures s[last..i] + (s[i..end] + rest) == s[last..end] + rest
  {
    assert s[last..end] == s[last..i] + s[i..end];
  }

  lemma GlueMark(s: string, last: nat, i: nat, end: nat, rest: string)
    requires last <= i <= end <= |s|
    ensures s[last..i] + (s[i..end] + MARK + rest) == s[last..end] + MARK + rest
  {
    ConcatAssoc(s[i..end], MARK, rest);
    Glue(s, last, i, end, MARK + rest);
    ConcatAssoc(s[last..end], MARK, rest);
  }

  /** Where no opening starts `scan` copies. */
  lemma {:induction false} StepsQuiet(secret: string -> bool, s: string, scan: nat -> string, a: nat, b: nat)
    requires Steps(secret, s, scan) && a <= b <= |s| && Quiet(s, a, b)
    ensures scan(a) == s[a..b] + scan(b)
    decreases b - a
  {
    if a == b {
      EmptySlice(s, a, scan(a));
    } else {
      assert StepsAt(secret, s, scan, a);
      StepsQuiet(secret, s, scan, a + 1, b);
      Glue(s, a, a + 1, b, scan(b));
    }
  }

  /** The ways the loop proceeds from `i`, in terms of what remains to be written. */
  lemma WrittenOn(scan: nat -> string, s: string, i: nat, last: nat, end: nat)
    requires i < end <= |s| && last <= |s|
    requires last <= i ==> scan(i) == s[i..end] + scan(end)
    requires i < last < end ==> scan(last) == s[last..end] + scan(end)
    ensures Written(scan, s, i, last) == Written(scan, s, end, last)
  {
    if last <= i {
      Glue(s, last, i, end, scan(end));
    } else if end <= last {
      EmptySlice(s, last, scan(last));
    }
  }

  lemma WrittenMasks(scan: nat -> string, s: string, i: nat, last: nat, end: nat, c: nat)
    requires last <= i < end < c <= |s| && scan(i) == s[i..end] + MARK + scan(c)
    ensures Written(scan, s, i, last) == s[last..end] + MARK + Written(scan, s, end, c)
  {
    GlueMark(s, last, i, end, scan(c));
  }

  lemma RewriteSkips(secret: string -> bool, s: string, locs: seq<Opening>, last: nat)
    requires last <= |s| && AllWithin(locs, s) && locs != []
    requires locs[0].start < last || !Effective(secret, s, locs[0])
    ensures Rewrite(secret, s, locs, last) == Rewrite(secret, s, locs[1..], last)
  {
  }

  lemma RewriteMasks(secret: string -> bool, s: string, locs: seq<Opening>, last: nat, c: nat)
    requires last <= |s| && AllWithin(locs, s) && locs != [] && last <= locs[0].start && c <= |s|
    requires Effective(secret, s, locs[0]) && ClosingOf(s, locs[0]) == c
    ensures Rewrite(secret, s, locs, last) == s[last..locs[0].end] + MARK + Rewrite(secret, s, locs[1..], c)
  {
  }

  /** An opening that is left alone is copied, or what remains of it behind `last` is. */
  lemma PassedOver(secret: string -> bool, s: string, scan: nat -> string, o: Opening, i: nat, last: nat)
    requires Steps(secret, s, scan) && i < |s| && MatchAt(s, i) == Some(o) && FlatAt(s, i) && last <= |s|
    requires i < last || !Effective(secret, s, o)
    ensures Written(scan, s, i, last) == Written(scan, s, o.end, last)
  {
    assert StepsAt(secret, s, scan, i);
    OpeningQuiet(s, i);
    if i < last < o.end { StepsQuiet(secret, s, scan, last, o.end); }
    WrittenOn(scan, s, i, last, o.end);
  }

  lemma NextOpening(s: string, i: nat, locs: seq<Opening>)
    requires i < |s| && locs == Openings(s, i) && AllWithin(locs, s)
    ensures MatchAt(s, i).None? ==> locs == Openings(s, i + 1)
    ensures MatchAt(s, i).Some? ==>
              locs != [] && MatchAt(s, i) == Some(locs[0]) && locs[1..] == Openings(s, locs[0].end) && AllWithin(locs[1..], s)
  {
  }

  /** One step of the loop over the matches, masked or not, given what it writes from there on. */
  lemma OpeningMasked(secret: string -> bool, s: string, scan: nat -> string, locs: seq<Opening>, i: nat, last: nat, c: nat)
    requires Steps(secret, s, scan) && last <= i < |s| && AllWithin(locs, s) && locs != []
    requires MatchAt(s, i) == Some(locs[0]) && Effective(secret, s, locs[0]) && c == ClosingOf(s, locs[0]) && c <= |s|
    requires Rewrite(secret, s, locs[1..], c) == Written(scan, s, locs[0].end, c)
    ensures Rewrite(secret, s, locs, last) == Written(scan, s, i, last)
  {
    assert StepsAt(secret, s, scan, i);
    RewriteMasks(secret, s, locs, last, c);
    WrittenMasks(scan, s, i, last, locs[0].end, c);
  }

  lemma OpeningPassed(secret: string -> bool, s: string, scan: nat -> string, locs: seq<Opening>, i: nat, last: nat)
    requires Steps(secret, s, scan) && i < |s| && last <= |s| && FlatAt(s, i) && AllWithin(locs, s) && locs != []
    requires MatchAt(s, i) == Some(locs[0]) && (i < last || !Effective(secret, s, locs[0]))
    requires Rewrite(secret, s, locs[1..], last) == Written(scan, s, locs[0].end, last)
    ensures Rewrite(secret, s, locs, last) == Written(scan, s, i, last)
  {
    RewriteSkips(secret, s, locs, last);
    PassedOver(secret, s, scan, locs[0], i, last);
  }

  lemma NothingWritten(secret: string -> bool, s: string, scan: nat -> string, last: nat)
    requires scan(|s|) == "" && last <= |s|
    ensures Rewrite(secret, s, [], last) == Written(scan, s, |s|, last)
  {
    assert s[last..|s|] + "" == s[last..];
  }

  lemma CharacterCopied(secret: string -> bool, s: string, scan: nat -> string, i: nat, last: nat)
    requires Steps(secret, s, scan) && i < |s| && last <= |s| && MatchAt(s, i).None?
    ensures Written(scan, s, i, last) == Written(scan, s, i + 1, last)
  {
    assert StepsAt(secret, s, scan, i);
    WrittenOn(scan, s, i, last, i + 1);
  }

  lemma {:induction false} RewriteIsWritten(
    secret: string -> bool, s: string, scan: nat -> string, locs: seq<Opening>, i: nat, last: nat)
    requires FlatSubscripts(s) && Steps(secret, s, scan)
    requires last <= |s| && i <= |s| && locs == Openings(s, i) && AllWithin(locs, s)
    ensures Rewrite(secret, s, locs, last) == Written(scan, s, i, last)
    decreases |s| - i
  {
    if i == |s| {
      NothingWritten(secret, s, scan, last);
    } else {
      NextOpening(s, i, locs);
      if MatchAt(s, i).None? {
        RewriteIsWritten(secret, s, scan, locs, i + 1, last);
        CharacterCopied(secret, s, scan, i, last);
      } else if i < last || !Effective(secret, s, locs[0]) {
        RewriteIsWritten(secret, s, scan, locs[1..], locs[0].end, last);
        OpeningPassed(secret, s, scan, locs, i, last);
      } else {
        var c := ClosingOf(s, locs[0]);
        RewriteIsWritten(secret, s, scan, locs[1..], locs[0].end, c);
        OpeningMasked(secret, s, scan, locs, i, last, c);
      }
    }
  }

  function ScanFrom(secret: string -> bool, s: string): nat -> string {
    (k: nat) => if k <= |s| then Scan(secret, s[k..]) else ""
  }

  lemma ScanSteps(secret: string -> bool, s: string, i: nat)
    requires i < |s| && FlatAt(s, i)
    ensures StepsAt(secret, s, ScanFrom(secret, s), i)
  {
    match MatchAt(s, i)
    case None => NoStep(secret, s, i);
    case Some(o) => if Effective(secret, s, o) { MaskStep(secret, s, i, o); } else { IdleStep(secret, s, i, o); }
  }

  lemma NoStep(secret: string -> bool, s: string, i: nat)
    requires i < |s| && MatchAt(s, i).None?
    ensures StepsAt(secret, s, ScanFrom(secret, s), i)
  {
    ScanNoMatch(secret, s, i);
  }

  lemma MaskStep(secret: string -> bool, s: string, i: nat, o: Opening)
    requires i < |s| && MatchAt(s, i) == Some(o) && Effective(secret, s, o)
    ensures StepsAt(secret, s, ScanFrom(secret, s), i)
  {
    ScanMasks(secret, s, i, o);
  }

  lemma IdleStep(secret: string -> bool, s: string, i: nat, o: Opening)
    requires i < |s| && MatchAt(s, i) == Some(o) && !Effective(secret, s, o) && FlatAt(s, i)
    ensures StepsAt(secret, s, ScanFrom(secret, s), i)
  {
    ScanIdle(secret, s, i, o);
  }

  /** The loop over the matches computes the scan. */
  lemma RedactIsScan(secret: string -> bool, s: string)
    requires FlatSubscripts(s)
    ensures Redact(secret, s) == Scan(secret, s)
  {
    var scan := ScanFrom(secret, s);
    forall i: nat | i < |s| ensures StepsAt(secret, s, scan, i) {
      ScanSteps(secret, s, i);
    }
    OpeningsWithin(s, 0);
    RewriteIsWritten(secret, s, scan, Openings(s, 0), 0, 0);
    assert s[0..] == s;
    EmptySlice(s, 0, scan(0));
  }
}

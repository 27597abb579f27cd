/** What becomes of an interpolation as it is written: which operands go, and which texts stay as they are. */
module InterpolationMeaning {
  import opened Text
  import opened Interpolation
  import opened InterpolationScan
  import opened InterpolationLaws
  import opened InterpolationLimits

  // ---------- Openings as they are written ----------

  /** The operators that supply or require an operand. */
  const OPERATORS := ["-", "=", "+", "?", ":-", ":=", ":+", ":?"]

  /** Nothing, or an index in brackets. */
  predicate IsSubscript(sub: string) {
    sub == "" || (|sub| > 1 && sub[0] == '[' && sub[|sub| - 1] == ']' && ']' !in sub[..|sub| - 1])
  }

  predicate StartsWithOperator(cont: string) {
    exists k | 0 <= k < |OPERATORS| :: OPERATORS[k] <= cont
  }

  function Head(p: string, sub: string, op: string): string {
    "${" + p + sub + op
  }

  lemma OperatorMeaning(cont: string)
    ensures StartsWithOperator(cont) <==>
            cont != "" && (IsOperator(cont[0]) || (cont[0] == ':' && |cont| > 1 && IsOperator(cont[1])))
  {
    assert OPERATORS[0] <= cont || OPERATORS[1] <= cont || OPERATORS[2] <= cont || OPERATORS[3] <= cont
           || OPERATORS[4] <= cont || OPERATORS[5] <= cont || OPERATORS[6] <= cont || OPERATORS[7] <= cont
           <==> StartsWithOperator(cont);
  }

  lemma OperatorSize(op: string)
    requires op in OPERATORS
    ensures op != "" && (if op[0] == ':' then |op| == 2 && IsOperator(op[1]) else |op| == 1 && IsOperator(op[0]))
  {
  }

  /** Where name and subscript of a written interpolation end. */
  lemma NameRead(p: string, sub: string, cont: string)
    requires IsName(p) && IsSubscript(sub)
    requires sub == "" && cont != "" ==> !IsWordChar(cont[0]) && cont[0] != '['
    ensures var u, e := "${" + p + sub + cont, 2 + |p|;
            Run(u, 2, IsWordChar) == e && u[2..e] == p && SubscriptEnd(u, e) == Some(e + |sub|)
  {
    var u, e := "${" + p + sub + cont, 2 + |p|;
    assert u[2..e] == p && u[e..e + |sub|] == sub;
    assert forall k | 2 <= k < e :: u[k] == p[k - 2];
    assert sub != "" ==> u[e] == sub[0];
    assert sub == "" && cont != "" ==> u[e] == cont[0];
    RunIs(u, 2, e, IsWordChar);
    if sub != "" { BracketRead(u, e, sub); }
  }

  lemma BracketRead(u: string, e: nat, sub: string)
    requires e + |sub| <= |u| && u[e..e + |sub|] == sub && sub != "" && IsSubscript(sub)
    ensures SubscriptEnd(u, e) == Some(e + |sub|)
  {
    var close := e + |sub| - 1;
    assert forall k | e <= k < e + |sub| :: u[k] == sub[k - e];
    assert forall k | 0 <= k < |sub| - 1 :: sub[..|sub| - 1][k] == sub[k];
    RunIs(u, e + 1, close, NotBracket);
  }

  /** `${`, a name, maybe a subscript, and an operator: an opening, whose operand starts behind the operator. */
  lemma HeadRead(p: string, sub: string, op: string, rest: string)
    requires IsName(p) && IsSubscript(sub) && op in OPERATORS
    ensures MatchAt(Head(p, sub, op) + rest, 0) == Some(Opening(0, 2 + |p|, |Head(p, sub, op)|))
    ensures (Head(p, sub, op) + rest)[2..2 + |p|] == p
  {
    var u, e := "${" + p + sub + (op + rest), 2 + |p|;
    OperatorSize(op);
    assert Head(p, sub, op) + rest == u;
    NameRead(p, sub, op + rest);
    assert u[e + |sub|] == op[0];
    assert |op| == 2 ==> u[e + |sub| + 1] == op[1];
  }

  /** Any other continuation of a name and a subscript makes no opening. */
  lemma NoHead(p: string, sub: string, cont: string)
    requires IsName(p) && IsSubscript(sub) && !StartsWithOperator(cont)
    requires sub == "" && cont != "" ==> !IsWordChar(cont[0]) && cont[0] != '['
    ensures MatchAt("${" + p + sub + cont, 0).None?
  {
    var u, e := "${" + p + sub + cont, 2 + |p|;
    OperatorMeaning(cont);
    NameRead(p, sub, cont);
    assert u[e + |sub|..] == cont;
    assert cont != "" ==> u[e + |sub|] == cont[0];
    assert |cont| > 1 ==> u[e + |sub| + 1] == cont[1];
  }

  /** Nor does a bracket that is not closed. */
  lemma UnclosedBracket(p: string, index: string)
    requires IsName(p) && ']' !in index
    ensures MatchAt("${" + p + "[" + index, 0).None?
  {
    var u, e := "${" + p + "[" + index, 2 + |p|;
    assert forall k | 2 <= k < e :: u[k] == p[k - 2];
    assert u[e] == '[' && u[e + 1..] == index;
    RunIs(u, 2, e, IsWordChar);
    assert forall k | e + 1 <= k < |u| :: u[k] == index[k - e - 1];
    RunIs(u, e + 1, |u|, NotBracket);
  }

  // ---------- Operands as they are written ----------

  /** An operand: characters, escaped characters, and nested interpolations that are closed. */
  datatype Operand = End | Character(c: char, rest: Operand) | Escaped(c: char, rest: Operand) | Braced(inner: Operand, rest: Operand)

  function Written(o: Operand): string {
    match o
    case End => ""
    case Character(c, rest) => [c] + Written(rest)
    case Escaped(c, rest) => "\\" + [c] + Written(rest)
    case Braced(inner, rest) => "${" + Written(inner) + "}" + Written(rest)
  }

  /** No bare character closes, escapes or opens anything. */
  predicate Proper(o: Operand) {
    match o
    case End => true
    case Character(c, rest) => c != '}' && c != '\\' && (c == '$' ==> !("{" <= Written(rest))) && Proper(rest)
    case Escaped(_, rest) => Proper(rest)
    case Braced(inner, rest) => Proper(inner) && Proper(rest)
  }

  /** The brace scan gets over an operand at its own depth. */
  lemma {:induction false} ClosePasses(o: Operand, tail: string, depth: nat)
    requires Proper(o) && !("{" <= tail)
    ensures Close(Written(o) + tail, depth) == Close(tail, depth)
  {
    match o
    case End => assert Written(o) + tail == tail;
    case Character(c, rest) =>
      assert Written(o) + tail == [c] + (Written(rest) + tail);
      FirstCharacter(Written(rest), tail);
      CharacterPasses(c, Written(rest) + tail, depth);
      ClosePasses(rest, tail, depth);
    case Escaped(c, rest) =>
      assert Written(o) + tail == "\\" + [c] + (Written(rest) + tail);
      EscapedPasses(c, Written(rest) + tail, depth);
      ClosePasses(rest, tail, depth);
    case Braced(inner, rest) =>
      var behind := Written(rest) + tail;
      BraceFirst(behind);
      ClosePasses(inner, "}" + behind, depth + 1);
      ClosePasses(rest, tail, depth);
      BracedText(Written(inner), Written(rest), tail);
      BracedPasses(Written(o) + tail, Written(inner), behind, depth);
  }

  lemma BraceFirst(behind: string)
    ensures !("{" <= "}" + behind)
  {
    assert ("}" + behind)[0] == '}';
  }

  lemma BracedText(inner: string, rest: string, tail: string)
    ensures "${" + inner + "}" + rest + tail == "${" + inner + "}" + (rest + tail)
  {
  }

  lemma FirstCharacter(a: string, b: string)
    requires !("{" <= b)
    ensures "{" <= a + b <==> "{" <= a
  {
  }

  lemma CharacterPasses(c: char, behind: string, depth: nat)
    requires c != '}' && c != '\\' && (c == '$' ==> !("{" <= behind))
    ensures Close([c] + behind, depth) == Close(behind, depth)
  {
    var s := [c] + behind;
    assert s[0] == c && s[1..] == behind;
    assert |s| > 1 ==> s[1] == behind[0];
  }

  lemma EscapedPasses(c: char, behind: string, depth: nat)
    ensures Close("\\" + [c] + behind, depth) == Close(behind, depth)
  {
    var s := "\\" + [c] + behind;
    assert s[0] == '\\' && |s| > 1 && s[2..] == behind;
  }

  lemma BracedPasses(s: string, inner: string, behind: string, depth: nat)
    requires s == "${" + inner + "}" + behind
    ensures Close(s, depth) == Close(inner + ("}" + behind), depth + 1)
    ensures Close("}" + behind, depth + 1) == Close(behind, depth)
  {
    var t := inner + ("}" + behind);
    assert s[0] == '$' && s[1] == '{' && s[1..] == "{" + t && s[1..][1..] == t;
    assert ("}" + behind)[1..] == behind;
  }

  /** The operand of a written interpolation ends at its closing brace. */
  lemma ClosingRead(front: string, o: Operand, post: string)
    requires Proper(o)
    ensures ClosingIn(front + (Written(o) + "}" + post), |front|) == |front| + |Written(o)|
  {
    var s, behind := front + (Written(o) + "}" + post), "}" + post;
    assert s[|front|..] == Written(o) + behind && behind[0] == '}';
    ClosePasses(o, behind, 0);
    assert Close(behind, 0) == Some(behind);
  }

  /** An operand that no brace closes has no end. */
  lemma NeverCloses(front: string, o: Operand)
    requires Proper(o)
    ensures ClosingIn(front + Written(o), |front|) == -1
  {
    assert (front + Written(o))[|front|..] == Written(o) == Written(o) + "";
    ClosePasses(o, "", 0);
  }

  // ---------- Whole texts ----------

  predicate NoDollar(s: string) {
    '$' !in s
  }

  lemma DollarFree(s: string, a: nat, b: nat)
    requires a <= b <= |s| && NoDollar(s[a..b])
    ensures Quiet(s, a, b)
  {
    forall k: nat | a <= k < b ensures MatchAt(s, k).None? {
      assert s[k] == s[a..b][k - a];
      NoMatch(s, k);
    }
  }

  lemma BehindMatch(pre: string, u: string)
    ensures (pre + u)[|pre|..] == u
    ensures MatchAt(pre + u, |pre|) == (match MatchAt(u, 0) case None => None case Some(o) => Some(Shift(o, |pre|)))
  {
    assert (pre + u)[|pre|..] == u;
    MatchShift(pre + u, |pre|, 0);
  }

  /** Openings that all start in front of `last` are passed over. */
  lemma {:induction false} AllPassed(secret: string -> bool, s: string, locs: seq<Opening>, last: nat)
    requires last <= |s| && AllWithin(locs, s) && forall k | 0 <= k < |locs| :: locs[k].start < last
    ensures Rewrite(secret, s, locs, last) == s[last..]
  {
    if locs != [] {
      AllPassed(secret, s, locs[1..], last);
    }
  }

  lemma {:induction false} StartsBefore(s: string, i: nat, last: nat)
    requires last <= |s| && Quiet(s, last, |s|)
    ensures forall k | 0 <= k < |Openings(s, i)| :: Openings(s, i)[k].start < last
    decreases |s| - i
  {
    if i < |s| {
      StartsBefore(s, if MatchAt(s, i).Some? then MatchAt(s, i).value.end else i + 1, last);
    }
  }

  /** A text whose first opening is masked, and behind whose operand nothing opens. */
  lemma FirstMasked(secret: string -> bool, s: string, o: Opening, c: nat)
    requires o.start < |s| && Quiet(s, 0, o.start) && MatchAt(s, o.start) == Some(o)
    requires secret(s[o.start + 2..o.nameEnd]) && ClosingIn(s, o.end) == c && o.end < c <= |s| && Quiet(s, c, |s|)
    ensures Redact(secret, s) == s[..o.end] + MARK + s[c..]
  {
    OpeningsSkip(s, 0, o.start);
    RestPassed(secret, s, o.end, c);
    MaskedThen(secret, s, o, Openings(s, o.end), c);
  }

  lemma RestPassed(secret: string -> bool, s: string, end: nat, c: nat)
    requires c <= |s| && Quiet(s, c, |s|)
    ensures AllWithin(Openings(s, end), s) && Rewrite(secret, s, Openings(s, end), c) == s[c..]
  {
    OpeningsWithin(s, end);
    StartsBefore(s, end, c);
    AllPassed(secret, s, Openings(s, end), c);
  }

  lemma MaskedThen(secret: string -> bool, s: string, o: Opening, rest: seq<Opening>, c: nat)
    requires Openings(s, 0) == [o] + rest && Within(o, s) && AllWithin(rest, s) && c <= |s|
    requires Effective(secret, s, o) && ClosingOf(s, o) == c && Rewrite(secret, s, rest, c) == s[c..]
    ensures Redact(secret, s) == s[..o.end] + MARK + s[c..]
  {
    assert ([o] + rest)[1..] == rest && s[0..o.end] == s[..o.end];
    RewriteMasks(secret, s, [o] + rest, 0, c);
  }

  /** A written interpolation in a text: what stands where. */
  lemma Parts(pre: string, p: string, sub: string, op: string, x: string)
    requires IsName(p) && IsSubscript(sub) && op in OPERATORS
    ensures var front, s := pre + Head(p, sub, op), pre + (Head(p, sub, op) + x);
            var o := Opening(|pre|, |pre| + 2 + |p|, |front|);
            && s == front + x && |pre| < |s| && MatchAt(s, |pre|) == Some(o) && s[o.start + 2..o.nameEnd] == p
            && s[..|front|] == front && s[|front|..] == x && s[..|pre|] == pre
  {
    HeadRead(p, sub, op, x);
    BehindMatch(pre, Head(p, sub, op) + x);
    Pieces(pre, Head(p, sub, op), x, 2, 2 + |p|);
  }

  lemma Pieces(pre: string, head: string, x: string, a: nat, b: nat)
    requires a <= b <= |head|
    ensures var s, front := pre + (head + x), pre + head;
            && s == front + x && s[..|front|] == front && s[|front|..] == x && s[..|pre|] == pre
            && s[|pre| + a..|pre| + b] == (head + x)[a..b]
  {
  }

  lemma OperandSlices(front: string, x: string, post: string)
    ensures var s, c := front + (x + "}" + post), |front| + |x|;
            c < |s| && s[c..] == "}" + post && s[c + 1..] == post && s[c] == '}' && s[..|front|] == front
  {
  }

  /** A text with a written interpolation. */
  function Around(pre: string, p: string, sub: string, op: string, o: Operand, post: string): string {
    pre + (Head(p, sub, op) + (Written(o) + "}" + post))
  }

  /** The opening at `|pre|` and the closing brace at `c`. */
  predicate Opened(s: string, pre: string, p: string, at: Opening, c: nat) {
    && at.start == |pre| < |s| && at.start + 2 <= at.nameEnd <= at.end < c < |s|
    && MatchAt(s, at.start) == Some(at) && s[at.start + 2..at.nameEnd] == p && ClosingIn(s, at.end) == c && s[c] == '}'
    && Quiet(s, 0, at.start)
  }

  lemma AroundRead(pre: string, p: string, sub: string, op: string, o: Operand, post: string) returns (at: Opening, c: nat)
    requires IsName(p) && IsSubscript(sub) && op in OPERATORS && Proper(o) && o != End && NoDollar(pre)
    ensures var s := Around(pre, p, sub, op, o, post);
            && Opened(s, pre, p, at, c) && s[..at.end] == pre + Head(p, sub, op) && s[c..] == "}" + post && s[c + 1..] == post
  {
    var front, s := pre + Head(p, sub, op), Around(pre, p, sub, op, o, post);
    at, c := Opening(|pre|, |pre| + 2 + |p|, |front|), |front| + |Written(o)|;
    Parts(pre, p, sub, op, Written(o) + "}" + post);
    ClosingRead(front, o, post);
    OperandSlices(front, Written(o), post);
    assert s[0..|pre|] == pre;
    DollarFree(s, 0, |pre|);
  }

  /**
   The operand of a written interpolation under a secret name goes, all of it, whatever the operator: with or without
   a subscript, escapes and nested interpolations included.
   */
  lemma OperandMasked(secret: string -> bool, pre: string, p: string, sub: string, op: string, o: Operand, post: string)
    requires IsName(p) && secret(p) && IsSubscript(sub) && op in OPERATORS && Proper(o) && o != End
    requires NoDollar(pre) && NoDollar(post)
    ensures Redact(secret, Around(pre, p, sub, op, o, post)) == pre + Head(p, sub, op) + "<redacted>" + ("}" + post)
  {
    var s := Around(pre, p, sub, op, o, post);
    var at, c := AroundRead(pre, p, sub, op, o, post);
    assert s[c..|s|] == "}" + post;
    DollarFree(s, c, |s|);
    FirstMasked(secret, s, at, c);
  }

  /** The same with further interpolations behind it, which are redacted on their own. */
  lemma OperandMaskedBefore(
    secret: string -> bool, pre: string, p: string, sub: string, op: string, o: Operand, post: string)
    requires IsName(p) && secret(p) && IsSubscript(sub) && op in OPERATORS && Proper(o) && o != End && NoDollar(pre)
    requires FlatSubscripts(Around(pre, p, sub, op, o, post))
    ensures Redact(secret, Around(pre, p, sub, op, o, post)) ==
            pre + Head(p, sub, op) + "<redacted>" + ("}" + Redact(secret, post))
  {
    var at, c := AroundRead(pre, p, sub, op, o, post);
    MaskedInFront(secret, Around(pre, p, sub, op, o, post), at, c);
  }

  lemma MaskedInFront(secret: string -> bool, s: string, o: Opening, c: nat)
    requires FlatSubscripts(s) && o.start < |s| && Quiet(s, 0, o.start) && MatchAt(s, o.start) == Some(o)
    requires secret(s[o.start + 2..o.nameEnd]) && ClosingIn(s, o.end) == c && o.end < c < |s| && s[c] == '}'
    ensures Redact(secret, s) == s[..o.end] + MARK + ("}" + Redact(secret, s[c + 1..]))
  {
    RedactIsScan(secret, s);
    assert s[0..] == s && s[0..o.start] + s[o.start..o.end] == s[..o.end];
    ScanQuiet(secret, s, 0, o.start);
    ScanMasks(secret, s, o.start, o);
    BraceKept(secret, s, c, s[c + 1..]);
    GlueMark(s, 0, o.start, o.end, Scan(secret, s[c..]));
    assert s[0..o.end] == s[..o.end];
  }

  lemma BraceKept(secret: string -> bool, s: string, c: nat, post: string)
    requires FlatSubscripts(s) && c < |s| && s[c] == '}' && s[c + 1..] == post
    ensures Scan(secret, s[c..]) == "}" + Redact(secret, post)
  {
    NoMatch(s, c);
    ScanNoMatch(secret, s, c);
    FlatSuffix(s, c + 1);
    RedactIsScan(secret, post);
    assert s[c..c + 1] == "}";
  }

  /** Nothing opens but one interpolation, which is left alone: the text stays. */
  lemma OneLeftAlone(secret: string -> bool, s: string, o: Opening)
    requires o.start < |s| && Quiet(s, 0, o.start) && MatchAt(s, o.start) == Some(o) && Quiet(s, o.end, |s|)
    requires !secret(s[o.start + 2..o.nameEnd]) || ClosingIn(s, o.end) <= o.end
    ensures Redact(secret, s) == s
  {
    OpeningsOne(s, 0, o);
    RedactsOne(secret, s, o);
  }

  /** An operand under a harmless name stays, closed or not. */
  lemma HarmlessKept(secret: string -> bool, pre: string, p: string, sub: string, op: string, x: string)
    requires IsName(p) && !secret(p) && IsSubscript(sub) && op in OPERATORS && NoDollar(pre) && NoDollar(x)
    ensures Redact(secret, pre + (Head(p, sub, op) + x)) == pre + (Head(p, sub, op) + x)
  {
    LeftAlone(secret, pre, p, sub, op, x);
  }

  lemma LeftAlone(secret: string -> bool, pre: string, p: string, sub: string, op: string, x: string)
    requires IsName(p) && IsSubscript(sub) && op in OPERATORS && NoDollar(pre) && NoDollar(x)
    requires var front := pre + Head(p, sub, op); !secret(p) || ClosingIn(front + x, |front|) <= |front|
    ensures Redact(secret, pre + (Head(p, sub, op) + x)) == pre + (Head(p, sub, op) + x)
  {
    var front, s := pre + Head(p, sub, op), pre + (Head(p, sub, op) + x);
    Parts(pre, p, sub, op, x);
    assert s[0..|pre|] == pre && s[|front|..|s|] == x;
    DollarFree(s, 0, |pre|);
    DollarFree(s, |front|, |s|);
    OneLeftAlone(secret, s, Opening(|pre|, |pre| + 2 + |p|, |front|));
  }

  /** An empty operand stays, and so does one that no brace closes. */
  lemma EmptyKept(secret: string -> bool, pre: string, p: string, sub: string, op: string, post: string)
    requires IsName(p) && IsSubscript(sub) && op in OPERATORS && NoDollar(pre) && NoDollar(post)
    ensures var s := pre + (Head(p, sub, op) + ("}" + post)); Redact(secret, s) == s
  {
    var front := pre + Head(p, sub, op);
    ClosingRead(front, End, post);
    assert Written(End) + "}" + post == "}" + post;
    LeftAlone(secret, pre, p, sub, op, "}" + post);
  }

  lemma UnclosedKept(secret: string -> bool, pre: string, p: string, sub: string, op: string, o: Operand)
    requires IsName(p) && IsSubscript(sub) && op in OPERATORS && NoDollar(pre) && Proper(o) && NoDollar(Written(o))
    ensures var s := pre + (Head(p, sub, op) + Written(o)); Redact(secret, s) == s
  {
    NeverCloses(pre + Head(p, sub, op), o);
    LeftAlone(secret, pre, p, sub, op, Written(o));
  }

  /** A text without openings stays. */
  lemma NothingOpens(secret: string -> bool, s: string)
    requires Quiet(s, 0, |s|)
    ensures Redact(secret, s) == s
  {
    OpeningsSkip(s, 0, |s|);
    assert s[0..] == s;
  }

  lemma QuietAfter(pre: string, u: string)
    requires NoDollar(pre) && u != "" && MatchAt(u, 0).None? && NoDollar(u[1..])
    ensures Quiet(pre + u, 0, |pre + u|)
  {
    var s := pre + u;
    BehindMatch(pre, u);
    assert s[0..|pre|] == pre && s[|pre| + 1..|s|] == u[1..];
    DollarFree(s, 0, |pre|);
    DollarFree(s, |pre| + 1, |s|);
  }

  /** An interpolation that goes on otherwise, with a slice, a pattern or the closing brace, stays. */
  lemma OtherKept(secret: string -> bool, pre: string, p: string, sub: string, cont: string)
    requires IsName(p) && IsSubscript(sub) && !StartsWithOperator(cont) && NoDollar(pre) && NoDollar(sub) && NoDollar(cont)
    requires sub == "" && cont != "" ==> !IsWordChar(cont[0]) && cont[0] != '['
    ensures Redact(secret, pre + ("${" + p + sub + cont)) == pre + ("${" + p + sub + cont)
  {
    var u := "${" + p + sub + cont;
    NoHead(p, sub, cont);
    NameDollarFree(p);
    assert u[1..] == "{" + p + sub + cont;
    QuietAfter(pre, u);
    NothingOpens(secret, pre + u);
  }

  /** So does one whose subscript is never closed. */
  lemma OpenSubscriptKept(secret: string -> bool, pre: string, p: string, index: string)
    requires IsName(p) && ']' !in index && NoDollar(pre) && NoDollar(index)
    ensures Redact(secret, pre + ("${" + p + "[" + index)) == pre + ("${" + p + "[" + index)
  {
    var u := "${" + p + "[" + index;
    UnclosedBracket(p, index);
    NameDollarFree(p);
    assert u[1..] == "{" + p + "[" + index;
    QuietAfter(pre, u);
    NothingOpens(secret, pre + u);
  }

  lemma NameDollarFree(p: string)
    requires IsName(p)
    ensures NoDollar(p)
  {
    forall k | 0 <= k < |p| ensures p[k] != '$' {
      NameFree(p, k);
    }
  }
}

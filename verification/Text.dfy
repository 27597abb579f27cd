/** String helpers shared by the other modules: the parts of Go's `strings` package the repository relies on. */
module Text {

  datatype Option<+T> = None | Some(value: T)

  /** White space as Go's `unicode.IsSpace` defines it. */
  predicate IsSpace(c: char) {
    || c in {'\t', '\n', '\U{0B}', '\U{0C}', '\r', ' ', '\U{85}', '\U{A0}', '\U{1680}'}
    || '\U{2000}' <= c <= '\U{200A}'
    || c in {'\U{2028}', '\U{2029}', '\U{202F}', '\U{205F}', '\U{3000}'}
  }

  predicate IsDigit(c: char) { '0' <= c <= '9' }

  /** Case folding, for ASCII letters. */
  function UpperChar(c: char): char {
    if 'a' <= c <= 'z' then c - 'a' + 'A' else c
  }

  function LowerChar(c: char): char {
    if 'A' <= c <= 'Z' then c - 'A' + 'a' else c
  }

  /** `strings.ToUpper` for ASCII letters. */
  function Upper(s: string): (u: string)
    ensures |u| == |s| && forall k | 0 <= k < |s| :: u[k] == UpperChar(s[k])
  {
    seq(|s|, k requires 0 <= k < |s| => UpperChar(s[k]))
  }

  /** `word` stands at `i`, in upper or lower case. */
  predicate Says(s: string, i: nat, word: string) {
    i + |word| <= |s| && forall k | i <= k < i + |word| :: UpperChar(s[k]) == UpperChar(word[k - i])
  }

  /** The `\w` of regular expressions. */
  predicate IsWordChar(c: char) { 'a' <= c <= 'z' || 'A' <= c <= 'Z' || '0' <= c <= '9' || c == '_' }

  predicate IsWord(s: string) {
    forall k | 0 <= k < |s| :: IsWordChar(s[k])
  }

  predicate IsName(s: string) {
    s != "" && IsWord(s)
  }

  /** A space or a tab. */
  predicate IsBlank(c: char) { c == ' ' || c == '\t' }

  predicate Blanks(s: string) {
    forall k | 0 <= k < |s| :: s[k] == ' ' || s[k] == '\t'
  }

  /** What every redaction rule writes in place of a secret. */
  const MARK := "<redacted>"

  predicate AllSpace(s: string) {
    forall k | 0 <= k < |s| :: IsSpace(s[k])
  }

  /** `strings.Index` */
  function Index(s: string, sub: string): (i: Option<nat>)
    ensures i.Some? ==> i.value + |sub| <= |s| && s[i.value..i.value + |sub|] == sub
  {
    if sub <= s then Some(0)
    else if s == "" then None
    else
      match Index(s[1..], sub)
      case None => None
      case Some(i) => Some(i + 1)
  }

  predicate Contains(s: string, sub: string) {
    Index(s, sub).Some?
  }

  predicate HasPrefix(s: string, p: string) {
    p <= s
  }

  function TrimPrefix(s: string, p: string): string {
    if p <= s then s[|p|..] else s
  }

  predicate HasSuffix(s: string, p: string) {
    |p| <= |s| && s[|s| - |p|..] == p
  }

  function TrimSuffix(s: string, p: string): string {
    if HasSuffix(s, p) then s[..|s| - |p|] else s
  }

  function TrimLeft(s: string): string {
    if s != "" && IsSpace(s[0]) then TrimLeft(s[1..]) else s
  }

  function TrimRight(s: string): string {
    if s != "" && IsSpace(s[|s| - 1]) then TrimRight(s[..|s| - 1]) else s
  }

  /** `strings.TrimSpace` */
  function TrimSpace(s: string): string {
    TrimRight(TrimLeft(s))
  }

  /** The end of the longest run of characters satisfying `p` that starts at `i`. */
  function Run(s: string, i: nat, p: char -> bool): (j: nat)
    requires i <= |s|
    ensures i <= j <= |s|
    decreases |s| - i
  {
    if i < |s| && p(s[i]) then Run(s, i + 1, p) else i
  }

  lemma {:induction false} RunChars(s: string, i: nat, p: char -> bool)
    requires i <= |s|
    ensures var j := Run(s, i, p);
            (forall k | i <= k < j :: p(s[k])) && (j == |s| || !p(s[j]))
    decreases |s| - i
  {
    if i < |s| && p(s[i]) {
      RunChars(s, i + 1, p);
    }
  }

  lemma {:induction false} RunIs(s: string, i: nat, j: nat, p: char -> bool)
    requires i <= j <= |s|
    requires forall k | i <= k < j :: p(s[k])
    requires j == |s| || !p(s[j])
    ensures Run(s, i, p) == j
    decreases j - i
  {
    if i < j {
      RunIs(s, i + 1, j, p);
    }
  }

  /** A run in the rest of a string is one in the string. */
  lemma {:induction false} RunShift(s: string, k: nat, i: nat, p: char -> bool)
    requires k + i <= |s|
    ensures k + Run(s[k..], i, p) == Run(s, k + i, p)
    decreases |s| - i
  {
    if k + i < |s| && p(s[k + i]) {
      RunShift(s, k, i + 1, p);
    }
  }

  /** The first `n` characters of both strings are the same. */
  predicate Agree(s: string, t: string, n: nat) {
    n <= |s| && n <= |t| && forall k | 0 <= k < n :: s[k] == t[k]
  }

  /** A run that stops inside a common prefix stops at the same place in both strings. */
  lemma RunLocal(s: string, t: string, i: nat, n: nat, p: char -> bool)
    requires Agree(s, t, n) && i <= n && Run(s, i, p) < n
    ensures Run(t, i, p) == Run(s, i, p)
  {
    RunChars(s, i, p);
    RunIs(t, i, Run(s, i, p), p);
  }

  /** `strings.Split` for a one-character separator. */
  function Split(s: string, sep: char): (parts: seq<string>)
    ensures |parts| >= 1
  {
    if s == "" then [""]
    else
      var rest := Split(s[1..], sep);
      if s[0] == sep then [""] + rest else [[s[0]] + rest[0]] + rest[1..]
  }

  /** `strings.Join` */
  function Join(parts: seq<string>, sep: string): string {
    if |parts| == 0 then ""
    else if |parts| == 1 then parts[0]
    else parts[0] + sep + Join(parts[1..], sep)
  }

  predicate NoneHas(parts: seq<string>, c: char) {
    forall k | 0 <= k < |parts| :: c !in parts[k]
  }

  lemma {:induction false} SplitFree(s: string, sep: char)
    ensures NoneHas(Split(s, sep), sep)
  {
    if s != "" {
      SplitFree(s[1..], sep);
    }
  }

  lemma {:induction false} JoinSplit(s: string, sep: char)
    ensures Join(Split(s, sep), [sep]) == s
  {
    if s != "" {
      JoinSplit(s[1..], sep);
      var rest := Split(s[1..], sep);
      if s[0] == sep {
        assert ([""] + rest)[1..] == rest;
      } else {
        var parts := [[s[0]] + rest[0]] + rest[1..];
        assert parts[1..] == rest[1..];
        if |rest| > 1 {
          assert [s[0]] + rest[0] + [sep] + Join(rest[1..], [sep]) == [s[0]] + (rest[0] + [sep] + Join(rest[1..], [sep]));
        }
      }
    }
  }

  /** The parts of a split text hold only characters of the text. */
  lemma {:induction false} SplitChars(s: string, sep: char, k: nat)
    requires k < |Split(s, sep)|
    ensures forall c | c in Split(s, sep)[k] :: c in s
  {
    if s != "" {
      var n := if s[0] == sep then k - 1 else k;
      if n >= 0 {
        SplitChars(s[1..], sep, n);
      }
    }
  }

  lemma {:induction false} SplitNone(s: string, sep: char)
    requires sep !in s
    ensures Split(s, sep) == [s]
  {
    if s != "" {
      SplitNone(s[1..], sep);
      assert [s[0]] + s[1..] == s;
    }
  }

  /** A first part without the separator splits off whole. */
  lemma {:induction false} SplitHead(a: string, sep: char, rest: string)
    requires sep !in a
    ensures Split(a + [sep] + rest, sep) == [a] + Split(rest, sep)
  {
    var s := a + [sep] + rest;
    if a == "" {
      assert s[1..] == rest;
    } else {
      SplitHead(a[1..], sep, rest);
      assert s[1..] == a[1..] + [sep] + rest;
      assert [a[0]] + a[1..] == a;
    }
  }

  lemma {:induction false} SplitJoin(parts: seq<string>, sep: char)
    requires |parts| >= 1 && NoneHas(parts, sep)
    ensures Split(Join(parts, [sep]), sep) == parts
  {
    if |parts| == 1 {
      SplitNone(parts[0], sep);
    } else {
      assert forall k | 0 <= k < |parts[1..]| :: parts[1..][k] == parts[k + 1];
      SplitJoin(parts[1..], sep);
      SplitHead(parts[0], sep, Join(parts[1..], [sep]));
    }
  }

  lemma FirstGrows(x: seq<string>, y: seq<string>, c: char)
    requires x != []
    ensures [[c] + (x + y)[0]] + (x + y)[1..] == ([[c] + x[0]] + x[1..]) + y
    ensures [""] + (x + y) == ([""] + x) + y
  {
  }

  lemma {:induction false} SplitConcat(a: string, sep: char, b: string)
    ensures Split(a + [sep] + b, sep) == Split(a, sep) + Split(b, sep)
  {
    var s := a + [sep] + b;
    if a == "" {
      assert s[1..] == b;
    } else {
      SplitConcat(a[1..], sep, b);
      assert s[1..] == a[1..] + [sep] + b && s[0] == a[0];
      FirstGrows(Split(a[1..], sep), Split(b, sep), a[0]);
    }
  }

  lemma {:induction false} JoinConcat(p: seq<string>, q: seq<string>, sep: string)
    requires p != [] && q != []
    ensures Join(p + q, sep) == Join(p, sep) + sep + Join(q, sep)
  {
    assert (p + q)[1..] == p[1..] + q;
    if |p| > 1 {
      JoinConcat(p[1..], q, sep);
    }
  }

  lemma DropConcat<T>(a: seq<T>, b: seq<T>, n: nat)
    requires n <= |a|
    ensures (a + b)[n..] == a[n..] + b
  {
  }

  lemma ConcatAssoc<T>(a: seq<T>, b: seq<T>, c: seq<T>)
    ensures a + (b + c) == (a + b) + c
  {
  }

  /** A separator that the first part does not contain shows where that part ends. */
  lemma JoinedApart(a: string, b: string, c: string, d: string, sep: char)
    requires sep !in a && sep !in c && a + [sep] + b == c + [sep] + d
    ensures a == c && b == d
  {
    var s, t := a + [sep] + b, c + [sep] + d;
    assert s[|a|] == sep && t[|c|] == sep;
    assert forall k | 0 <= k < |a| :: s[k] == a[k] != sep;
    assert forall k | 0 <= k < |c| :: t[k] == c[k] != sep;
    assert s[..|a|] == a && t[..|c|] == c;
    assert s[|a| + 1..] == b && t[|c| + 1..] == d;
  }
}

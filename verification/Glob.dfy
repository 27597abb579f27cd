/**
 Path globs: the regular expression the compiler builds from the bytes of a pattern, and the segment-by-segment meaning
 it has.
 */
module Glob {
  import opened Text

  // ---------- Regular expressions ----------

  datatype Class = Dot | NotSlash | Only(c: char)

  datatype Re = Chr(cls: Class) | Many(cls: Class) | Cat(left: Re, right: Re) | Opt(re: Re)

  predicate InClass(cls: Class, c: char) {
    match cls
    case Dot => c != '\n'
    case NotSlash => c != '/'
    case Only(d) => c == d
  }

  predicate AllIn(cls: Class, s: string) {
    forall k | 0 <= k < |s| :: InClass(cls, s[k])
  }

  /** `s` is in the language of `r`. */
  predicate InLang(r: Re, s: string) {
    match r
    case Chr(cls) => |s| == 1 && InClass(cls, s[0])
    case Many(cls) => AllIn(cls, s)
    case Cat(a, b) => exists k | 0 <= k <= |s| :: InLang(a, s[..k]) && InLang(b, s[k..])
    case Opt(a) => s == "" || InLang(a, s)
  }

  /** The whole of `s` matches the expressions one after the other, as `^...$` demands. */
  predicate Accepts(res: seq<Re>, s: string)
    decreases |res|, 1
  {
    if res == [] then s == "" else exists k | 0 <= k <= |s| :: Cuts(res, s, k)
  }

  /** The first expression matches the first `k` characters, the others match the rest. */
  predicate Cuts(res: seq<Re>, s: string, k: nat)
    requires res != [] && k <= |s|
    decreases |res|, 0
  {
    InLang(res[0], s[..k]) && Accepts(res[1..], s[k..])
  }

  // ---------- The compiler ----------

  const OPTIONAL_DIRS := Opt(Cat(Many(Dot), Chr(Only('/'))))

  /** The UTF-8 encoding of a character, each byte read as a character of its own, as converting a byte to a string does. */
  function Encoded(c: char): (b: string)
    ensures c < '\U{80}' ==> b == [c]
    ensures c >= '\U{80}' ==> |b| >= 2 && forall k | 0 <= k < |b| :: '\U{80}' <= b[k] <= '\U{FF}'
  {
    var n := c as int;
    if n < 0x80 then [c]
    else if n < 0x800 then [(0xC0 + n / 0x40) as char, Continuation(n)]
    else if n < 0x1_0000 then [(0xE0 + n / 0x1000) as char, Continuation(n / 0x40), Continuation(n)]
    else [(0xF0 + n / 0x4_0000) as char, Continuation(n / 0x1000), Continuation(n / 0x40), Continuation(n)]
  }

  function Continuation(n: nat): (c: char)
    ensures '\U{80}' <= c <= '\U{BF}'
  {
    (0x80 + n % 0x40) as char
  }

  function Bytes(s: string): (b: string) {
    if s == "" then "" else Encoded(s[0]) + Bytes(s[1..])
  }

  predicate Ascii(s: string) {
    forall k | 0 <= k < |s| :: s[k] < '\U{80}'
  }

  /** What the compiler emits for the bytes of a pattern, read as characters, from the front on. */
  function Compiled(pattern: string): seq<Re> {
    if pattern == "" then []
    else if pattern[0] == '*' then
      if 1 < |pattern| && pattern[1] == '*' then
        if 2 < |pattern| && pattern[2] == '/' then [OPTIONAL_DIRS] + Compiled(pattern[3..])
        else [Many(Dot)] + Compiled(pattern[2..])
      else [Many(NotSlash)] + Compiled(pattern[1..])
    else if pattern[0] == '?' then [Chr(NotSlash)] + Compiled(pattern[1..])
    else [Chr(Only(pattern[0]))] + Compiled(pattern[1..])
  }

  method GlobRegexp(text: string) returns (b: seq<Re>)
    ensures b == Compiled(Bytes(text))
  {
    var pattern := Bytes(text);
    b := [];
    var i: nat := 0;
    assert pattern[0..] == pattern;
    while i < |pattern|
      invariant i <= |pattern| && Compiled(pattern) == b + Compiled(pattern[i..])
    {
      var ch := pattern[i];
      ghost var before, at := b, i;
      if ch == '*' && i + 1 < |pattern| && pattern[i + 1] == '*' {
        if i + 2 < |pattern| && pattern[i + 2] == '/' {
          b := b + [OPTIONAL_DIRS];
          i := i + 2;
        } else {
          b := b + [Many(Dot)];
          i := i + 1;
        }
      } else if ch == '*' {
        b := b + [Many(NotSlash)];
      } else if ch == '?' {
        b := b + [Chr(NotSlash)];
      } else {
        b := b + [Chr(Only(ch))];
      }
      i := i + 1;
      EmittedNext(pattern, at);
      ConcatAssoc(before, [Emitted(pattern, at).0], Compiled(pattern[i..]));
    }
  }

  /** The expression emitted at position `i`, and how many pattern characters it stands for. */
  function Emitted(pattern: string, i: nat): (Re, nat)
    requires i < |pattern|
  {
    if pattern[i] == '*' then
      if i + 1 < |pattern| && pattern[i + 1] == '*' then
        if i + 2 < |pattern| && pattern[i + 2] == '/' then (OPTIONAL_DIRS, 3) else (Many(Dot), 2)
      else (Many(NotSlash), 1)
    else if pattern[i] == '?' then (Chr(NotSlash), 1)
    else (Chr(Only(pattern[i])), 1)
  }

  lemma EmittedNext(pattern: string, i: nat)
    requires i < |pattern|
    ensures var (re, n) := Emitted(pattern, i);
            i + n <= |pattern| && Compiled(pattern[i..]) == [re] + Compiled(pattern[i + n..])
  {
    var rest := pattern[i..];
    assert forall k | 0 <= k <= |rest| :: rest[k..] == pattern[i + k..];
  }

  /** `matchGlob`: the pattern is trimmed, the empty pattern matches nothing, and a leading `./` is dropped. */
  predicate MatchGlob(pattern: string, rel: string) {
    TrimSpace(pattern) != "" && Accepts(Compiled(Bytes(Core(pattern))), rel)
  }

  // ---------- The meaning, segment by segment ----------

  /** A wildcard segment matches a path segment: `*` any characters, `?` one character. */
  predicate SegmentMatch(seg: string, x: string)
    decreases |seg|
  {
    if seg == "" then x == ""
    else if seg[0] == '*' then exists k | 0 <= k <= |x| :: SegmentMatch(seg[1..], x[k..])
    else x != "" && (seg[0] == '?' || seg[0] == x[0]) && SegmentMatch(seg[1..], x[1..])
  }

  /** `**` steps over path segments without line breaks only. */
  predicate OneLine(xs: seq<string>) {
    forall k | 0 <= k < |xs| :: '\n' !in xs[k]
  }

  /**
   A list of pattern segments matches a list of path segments: an inner `**` drops any number of whole segments
   but the last, a final `**` takes all that is left, at least one, and any other segment matches one segment.
   */
  predicate PathMatch(ps: seq<string>, xs: seq<string>)
    decreases |ps|, 1
  {
    if ps == [] then xs == []
    else if ps[0] == "**" && |ps| == 1 then |xs| >= 1 && OneLine(xs)
    else if ps[0] == "**" then exists j | 0 <= j < |xs| :: Drops(ps, xs, j)
    else |xs| >= 1 && SegmentMatch(ps[0], xs[0]) && PathMatch(ps[1..], xs[1..])
  }

  /** The first pattern segment drops the first `j` path segments, the others match the rest. */
  predicate Drops(ps: seq<string>, xs: seq<string>, j: nat)
    requires ps != [] && j < |xs|
    decreases |ps|, 0
  {
    OneLine(xs[..j]) && PathMatch(ps[1..], xs[j..])
  }

  predicate NoGlobstar(seg: string) {
    forall k | 0 <= k < |seg| - 1 :: !(seg[k] == '*' && seg[k + 1] == '*')
  }

  /** Every segment is exactly `**` or free of `**`. */
  predicate WellFormed(ps: seq<string>) {
    forall k | 0 <= k < |ps| :: ps[k] == "**" || NoGlobstar(ps[k])
  }

  // ---------- Concatenation ----------

  lemma {:induction false} AcceptsSplit(a: seq<Re>, b: seq<Re>, s: string) returns (k: nat)
    requires Accepts(a + b, s)
    ensures k <= |s| && Accepts(a, s[..k]) && Accepts(b, s[k..])
  {
    if a == [] {
      assert a + b == b && s[0..] == s;
      k := 0;
    } else {
      assert (a + b)[0] == a[0] && (a + b)[1..] == a[1..] + b;
      var i :| 0 <= i <= |s| && Cuts(a + b, s, i);
      var j := AcceptsSplit(a[1..], b, s[i..]);
      k := i + j;
      assert s[..k][..i] == s[..i] && s[..k][i..] == s[i..][..j] && s[i..][j..] == s[k..];
      assert Cuts(a, s[..k], i);
    }
  }

  lemma {:induction false} AcceptsJoin(a: seq<Re>, b: seq<Re>, x: string, y: string)
    requires Accepts(a, x) && Accepts(b, y)
    ensures Accepts(a + b, x + y)
  {
    if a == [] {
      assert a + b == b && x + y == y;
    } else {
      assert (a + b)[0] == a[0] && (a + b)[1..] == a[1..] + b;
      var i :| 0 <= i <= |x| && Cuts(a, x, i);
      AcceptsJoin(a[1..], b, x[i..], y);
      assert (x + y)[..i] == x[..i] && (x + y)[i..] == x[i..] + y;
      assert Cuts(a + b, x + y, i);
    }
  }

  /** The compiler treats a segment without `**` on its own when no `*` follows it. */
  lemma {:induction false} CompiledConcat(seg: string, q: string)
    requires NoGlobstar(seg) && (q == "" || q[0] != '*')
    ensures Compiled(seg + q) == Compiled(seg) + Compiled(q)
  {
    if seg == "" {
      assert seg + q == q;
    } else {
      assert (seg + q)[1..] == seg[1..] + q && (seg + q)[0] == seg[0];
      CompiledConcat(seg[1..], q);
    }
  }

  // ---------- One segment ----------

  /** The expressions of a wildcard segment accept exactly the slash-free texts the segment matches. */
  lemma {:induction false} SegmentMeaning(seg: string, x: string)
    requires NoGlobstar(seg) && '/' !in seg
    ensures Accepts(Compiled(seg), x) <==> '/' !in x && SegmentMatch(seg, x)
    decreases |seg|
  {
    if seg != "" {
      var rest := Compiled(seg[1..]);
      assert Compiled(seg)[1..] == rest;
      if seg[0] == '*' {
        forall k | 0 <= k <= |x|
          ensures Cuts(Compiled(seg), x, k) <==> '/' !in x && SegmentMatch(seg[1..], x[k..])
        {
          SegmentMeaning(seg[1..], x[k..]);
          assert x == x[..k] + x[k..];
        }
      } else if x != "" {
        SegmentMeaning(seg[1..], x[1..]);
        assert x[..1][0] == x[0] && x == [x[0]] + x[1..];
        assert Cuts(Compiled(seg), x, 1) <==> '/' !in x && SegmentMatch(seg, x);
        forall k | 0 <= k <= |x| && Cuts(Compiled(seg), x, k) ensures k == 1 {
        }
      }
    }
  }

  // ---------- Whole patterns ----------

  lemma {:induction false} LinesOf(s: string)
    ensures '\n' !in s <==> OneLine(Split(s, '/'))
  {
    if s != "" {
      var rest := Split(s[1..], '/');
      LinesOf(s[1..]);
      assert s == [s[0]] + s[1..];
      if s[0] == '/' {
        assert Split(s, '/')[1..] == rest;
        OneLineCons("", rest);
      } else {
        assert rest == [rest[0]] + rest[1..];
        OneLineCons(rest[0], rest[1..]);
        OneLineCons([s[0]] + rest[0], rest[1..]);
      }
    }
  }

  lemma OneLineCons(x: string, xs: seq<string>)
    ensures OneLine([x] + xs) <==> '\n' !in x && OneLine(xs)
  {
    assert ([x] + xs)[0] == x && forall k | 0 <= k < |xs| :: ([x] + xs)[k + 1] == xs[k];
  }

  lemma OptionalDirs(x: string)
    ensures InLang(OPTIONAL_DIRS, x) <==> x == "" || (x[|x| - 1] == '/' && '\n' !in x[..|x| - 1])
  {
    if x != "" {
      assert InLang(OPTIONAL_DIRS, x) <==> InLang(Cat(Many(Dot), Chr(Only('/'))), x);
      if InLang(OPTIONAL_DIRS, x) {
        var k :| 0 <= k <= |x| && InLang(Many(Dot), x[..k]) && InLang(Chr(Only('/')), x[k..]);
        assert k == |x| - 1 && x[k..][0] == x[k];
      }
      if x[|x| - 1] == '/' && '\n' !in x[..|x| - 1] {
        assert InLang(Many(Dot), x[..|x| - 1]) && InLang(Chr(Only('/')), x[|x| - 1..]);
      }
    }
  }

  /** A final `**` takes everything that has no line break. */
  lemma FinalGlobstar(rel: string)
    ensures Accepts(Compiled("**"), rel) <==> PathMatch(["**"], Split(rel, '/'))
  {
    LinesOf(rel);
    assert Compiled("**") == [Many(Dot)];
    AcceptsOne(Many(Dot), rel);
    assert AllIn(Dot, rel) <==> '\n' !in rel;
  }

  lemma AcceptsOne(r: Re, s: string)
    ensures Accepts([r], s) <==> InLang(r, s)
  {
    assert s[..|s|] == s && s[|s|..] == "" && [r][1..] == [];
    assert Accepts([], s[|s|..]);
    assert Cuts([r], s, |s|) <==> InLang(r, s);
    forall k | 0 <= k <= |s| && Cuts([r], s, k) ensures k == |s| {
      assert Accepts([r][1..], s[k..]);
    }
  }

  lemma FinalSegment(seg: string, rel: string)
    requires NoGlobstar(seg) && '/' !in seg
    ensures Accepts(Compiled(seg), rel) <==> PathMatch([seg], Split(rel, '/'))
  {
    var xs := Split(rel, '/');
    SegmentMeaning(seg, rel);
    SplitFree(rel, '/');
    JoinSplit(rel, '/');
    if '/' !in rel { SplitNone(rel, '/'); }
    NotGlobstar(seg);
    assert PathMatch([seg], xs) <==> SegmentMatch(seg, xs[0]) && xs[1..] == [];
  }

  /** `seg/` in front of a pattern: the segment matches up to the first slash. */
  lemma InnerSegment(seg: string, q: string, rel: string) returns (k: nat)
    requires NoGlobstar(seg) && '/' !in seg
    requires Accepts(Compiled(seg + "/" + q), rel)
    ensures k < |rel| && rel[k] == '/' && '/' !in rel[..k]
    ensures SegmentMatch(seg, rel[..k]) && Accepts(Compiled(q), rel[k + 1..])
  {
    assert seg + "/" + q == seg + ("/" + q) && ("/" + q)[1..] == q;
    CompiledConcat(seg, "/" + q);
    var tail := [Chr(Only('/'))] + Compiled(q);
    k := AcceptsSplit(Compiled(seg), tail, rel);
    SegmentMeaning(seg, rel[..k]);
    var i :| 0 <= i <= |rel[k..]| && Cuts(tail, rel[k..], i);
    assert i == 1 && rel[k..][..1][0] == rel[k] && rel[k..][1..] == rel[k + 1..];
    assert tail[1..] == Compiled(q);
  }

  lemma InnerSegmentJoin(seg: string, q: string, x: string, y: string)
    requires NoGlobstar(seg) && '/' !in seg && '/' !in x
    requires SegmentMatch(seg, x) && Accepts(Compiled(q), y)
    ensures Accepts(Compiled(seg + "/" + q), x + "/" + y)
  {
    assert seg + "/" + q == seg + ("/" + q) && ("/" + q)[1..] == q;
    CompiledConcat(seg, "/" + q);
    SegmentMeaning(seg, x);
    AcceptsOne(Chr(Only('/')), "/");
    AcceptsJoin([Chr(Only('/'))], Compiled(q), "/", y);
    AcceptsJoin(Compiled(seg), [Chr(Only('/'))] + Compiled(q), x, "/" + y);
    assert x + "/" + y == x + ("/" + y);
  }

  /** A pattern that starts with `**` and goes on accepts what the rest accepts behind any number of directories. */
  lemma InnerGlobstar(q: string, rel: string) returns (k: nat)
    requires Accepts(Compiled("**/" + q), rel)
    ensures k <= |rel| && Accepts(Compiled(q), rel[k..])
    ensures k > 0 ==> rel[k - 1] == '/' && '\n' !in rel[..k - 1]
  {
    var ts := [OPTIONAL_DIRS] + Compiled(q);
    assert ts[1..] == Compiled(q);
    k :| 0 <= k <= |rel| && Cuts(ts, rel, k);
    OptionalDirs(rel[..k]);
    if k > 0 { assert rel[..k][..k - 1] == rel[..k - 1]; }
  }

  lemma InnerGlobstarJoin(q: string, x: string, y: string)
    requires Accepts(Compiled(q), y) && (x == "" || (x[|x| - 1] == '/' && '\n' !in x[..|x| - 1]))
    ensures Accepts(Compiled("**/" + q), x + y)
  {
    OptionalDirs(x);
    AcceptsOne(OPTIONAL_DIRS, x);
    AcceptsJoin([OPTIONAL_DIRS], Compiled(q), x, y);
  }

  lemma NotGlobstar(seg: string)
    requires NoGlobstar(seg)
    ensures seg != "**"
  {
    if |seg| == 2 {
      assert seg[0] == '*' ==> seg[0 + 1] != '*';
    }
  }

  /** Dropping directories from a path drops its first segments. */
  lemma GlobstarMatches(ps: seq<string>, rel: string, k: nat)
    requires |ps| > 1 && ps[0] == "**" && k <= |rel| && PathMatch(ps[1..], Split(rel[k..], '/'))
    requires k > 0 ==> rel[k - 1] == '/' && '\n' !in rel[..k - 1]
    ensures PathMatch(ps, Split(rel, '/'))
  {
    var xs := Split(rel, '/');
    var j := 0;
    if k == 0 {
      assert rel[0..] == rel && xs[0..] == xs && xs[..0] == [];
    } else {
      var a, b := rel[..k - 1], rel[k..];
      assert rel == a + "/" + b;
      SplitConcat(a, '/', b);
      LinesOf(a);
      j := |Split(a, '/')|;
      assert xs[..j] == Split(a, '/') && xs[j..] == Split(b, '/');
    }
    assert Drops(ps, xs, j);
  }

  lemma SegmentMatches(ps: seq<string>, rel: string, k: nat)
    requires |ps| > 1 && ps[0] != "**" && k < |rel| && rel[k] == '/' && '/' !in rel[..k]
    requires SegmentMatch(ps[0], rel[..k]) && PathMatch(ps[1..], Split(rel[k + 1..], '/'))
    ensures PathMatch(ps, Split(rel, '/'))
  {
    assert rel == rel[..k] + "/" + rel[k + 1..];
    SplitHead(rel[..k], '/', rel[k + 1..]);
    assert Split(rel, '/')[1..] == Split(rel[k + 1..], '/');
  }

  /** What the compiled pattern accepts, the segments match. */
  lemma {:induction false} AcceptedMatches(ps: seq<string>, rel: string)
    requires ps != [] && NoneHas(ps, '/') && WellFormed(ps) && Accepts(Compiled(Join(ps, "/")), rel)
    ensures PathMatch(ps, Split(rel, '/'))
    decreases |ps|
  {
    var rest := ps[1..];
    if |ps| == 1 {
      assert ps == [ps[0]];
      if ps[0] == "**" { FinalGlobstar(rel); } else { FinalSegment(ps[0], rel); }
    } else if ps[0] == "**" {
      var k := InnerGlobstar(Join(rest, "/"), rel);
      AcceptedMatches(rest, rel[k..]);
      GlobstarMatches(ps, rel, k);
    } else {
      var k := InnerSegment(ps[0], Join(rest, "/"), rel);
      AcceptedMatches(rest, rel[k + 1..]);
      SegmentMatches(ps, rel, k);
    }
  }

  lemma GlobstarAccepts(q: string, xs: seq<string>, j: nat)
    requires j < |xs| && NoneHas(xs, '/') && OneLine(xs[..j]) && Accepts(Compiled(q), Join(xs[j..], "/"))
    ensures Accepts(Compiled("**/" + q), Join(xs, "/"))
  {
    var b := Join(xs[j..], "/");
    if j == 0 {
      assert xs[0..] == xs && "" + b == b;
      InnerGlobstarJoin(q, "", b);
    } else {
      var a := Join(xs[..j], "/");
      assert xs == xs[..j] + xs[j..];
      JoinConcat(xs[..j], xs[j..], "/");
      SplitJoin(xs[..j], '/');
      LinesOf(a);
      assert (a + "/")[..|a|] == a;
      InnerGlobstarJoin(q, a + "/", b);
    }
  }

  lemma FinalAccepted(ps: seq<string>, xs: seq<string>)
    requires |ps| == 1 && NoneHas(ps, '/') && WellFormed(ps)
    requires xs != [] && NoneHas(xs, '/') && PathMatch(ps, xs)
    ensures Accepts(Compiled(Join(ps, "/")), Join(xs, "/"))
  {
    SplitJoin(xs, '/');
    assert ps == [ps[0]];
    if ps[0] == "**" { FinalGlobstar(Join(xs, "/")); } else { FinalSegment(ps[0], Join(xs, "/")); }
  }

  /** How a pattern of several segments matches: a number of segments dropped, or the first one matched. */
  lemma InnerMatch(ps: seq<string>, xs: seq<string>) returns (j: nat)
    requires |ps| > 1 && xs != [] && PathMatch(ps, xs)
    ensures j < |xs|
    ensures ps[0] == "**" ==> OneLine(xs[..j]) && PathMatch(ps[1..], xs[j..])
    ensures ps[0] != "**" ==> j == 1 && SegmentMatch(ps[0], xs[0]) && PathMatch(ps[1..], xs[1..])
  {
    if ps[0] == "**" {
      j :| 0 <= j < |xs| && Drops(ps, xs, j);
    } else {
      j := 1;
      PathNotEmpty(ps[1..], xs[1..]);
    }
  }

  lemma PathNotEmpty(ps: seq<string>, xs: seq<string>)
    requires ps != [] && PathMatch(ps, xs)
    ensures xs != []
  {
  }

  /** What the segments match, the compiled pattern accepts. */
  lemma {:induction false} MatchedAccepted(ps: seq<string>, xs: seq<string>)
    requires ps != [] && NoneHas(ps, '/') && WellFormed(ps)
    requires xs != [] && NoneHas(xs, '/') && PathMatch(ps, xs)
    ensures Accepts(Compiled(Join(ps, "/")), Join(xs, "/"))
    decreases |ps|
  {
    if |ps| == 1 {
      FinalAccepted(ps, xs);
    } else {
      var rest := ps[1..];
      var j := InnerMatch(ps, xs);
      MatchedAccepted(rest, xs[j..]);
      if ps[0] == "**" {
        GlobstarAccepts(Join(rest, "/"), xs, j);
      } else {
        InnerSegmentJoin(ps[0], Join(rest, "/"), xs[0], Join(xs[1..], "/"));
      }
    }
  }

  /**
   For every pattern whose segments are `**` or free of `**`, the regular expression built byte by byte accepts a path
   exactly when the pattern, its bytes read as characters, matches it segment by segment.
   */
  lemma ByteMeaning(pattern: string, rel: string)
    requires WellFormed(Split(pattern, '/'))
    ensures Accepts(Compiled(pattern), rel) <==> PathMatch(Split(pattern, '/'), Split(rel, '/'))
  {
    SplitFree(pattern, '/');
    SplitFree(rel, '/');
    JoinSplit(pattern, '/');
    JoinSplit(rel, '/');
    if Accepts(Compiled(pattern), rel) {
      AcceptedMatches(Split(pattern, '/'), rel);
    }
    if PathMatch(Split(pattern, '/'), Split(rel, '/')) {
      MatchedAccepted(Split(pattern, '/'), Split(rel, '/'));
    }
  }

  // ---------- Characters and bytes ----------

  lemma {:induction false} AsciiBytes(s: string)
    requires Ascii(s)
    ensures Bytes(s) == s
  {
    if s != "" {
      AsciiBytes(s[1..]);
      assert s == [s[0]] + s[1..];
    }
  }

  /** The shortest path a pattern matches: `*` stands for nothing, an inner `**` for no directory, `?` for one letter. */
  function Shortest(pattern: string): string {
    if pattern == "" then ""
    else if pattern[0] == '*' then
      if 1 < |pattern| && pattern[1] == '*' then
        if 2 < |pattern| && pattern[2] == '/' then Shortest(pattern[3..]) else Shortest(pattern[2..])
      else Shortest(pattern[1..])
    else [if pattern[0] == '?' then 'a' else pattern[0]] + Shortest(pattern[1..])
  }

  lemma ConsAccepted(r: Re, rest: seq<Re>, x: string, y: string)
    requires InLang(r, x) && Accepts(rest, y)
    ensures Accepts([r] + rest, x + y)
  {
    AcceptsOne(r, x);
    AcceptsJoin([r], rest, x, y);
  }

  lemma {:induction false} ShortestAccepted(pattern: string)
    ensures Accepts(Compiled(pattern), Shortest(pattern))
  {
    if pattern != "" {
      var (re, n) := Emitted(pattern, 0);
      assert pattern[0..] == pattern;
      EmittedNext(pattern, 0);
      ShortestAccepted(pattern[n..]);
      var x := if re.Chr? then [if pattern[0] == '?' then 'a' else pattern[0]] else "";
      assert Shortest(pattern) == x + Shortest(pattern[n..]);
      ConsAccepted(re, Compiled(pattern[n..]), x, Shortest(pattern[n..]));
    }
  }

  lemma {:induction false} NothingShorter(pattern: string, s: string)
    requires Accepts(Compiled(pattern), s)
    ensures |s| >= |Shortest(pattern)|
    decreases |pattern|
  {
    if pattern != "" {
      var (re, n) := Emitted(pattern, 0);
      assert pattern[0..] == pattern;
      EmittedNext(pattern, 0);
      assert Compiled(pattern)[1..] == Compiled(pattern[n..]);
      var k :| 0 <= k <= |s| && Cuts(Compiled(pattern), s, k);
      NothingShorter(pattern[n..], s[k..]);
    }
  }

  lemma AsciiStep(pattern: string, n: nat)
    requires pattern != "" && pattern[0] < '\U{80}' && n == Emitted(pattern, 0).1
    ensures 0 < n <= |pattern| && Ascii(pattern[..n])
    ensures |Shortest(Bytes(pattern))| - |Shortest(Bytes(pattern[n..]))| == |Shortest(pattern)| - |Shortest(pattern[n..])|
  {
    BytesFront(pattern, n);
    SameStep(pattern, Bytes(pattern), n);
    DropFront(pattern[..n], Bytes(pattern[n..]));
  }

  lemma SameStep(pattern: string, bytes: string, n: nat)
    requires pattern != "" && bytes != "" && Emitted(pattern, 0) == Emitted(bytes, 0) && n == Emitted(pattern, 0).1
    ensures 0 < n <= |pattern| && n <= |bytes|
    ensures |Shortest(bytes)| - |Shortest(bytes[n..])| == |Shortest(pattern)| - |Shortest(pattern[n..])|
  {
    ShortestNext(pattern);
    ShortestNext(bytes);
  }

  lemma DropFront(a: string, b: string)
    ensures (a + b)[|a|..] == b
  {
  }

  lemma WideStep(pattern: string)
    requires pattern != "" && pattern[0] >= '\U{80}'
    ensures |Shortest(Bytes(pattern))| - |Shortest(Bytes(pattern[1..]))| > |Shortest(pattern)| - |Shortest(pattern[1..])|
  {
    ShortestLiterals(Encoded(pattern[0]), Bytes(pattern[1..]));
    ShortestNext(pattern);
  }

  lemma AsciiSplit(s: string, n: nat)
    requires n <= |s|
    ensures Ascii(s) <==> Ascii(s[..n]) && Ascii(s[n..])
  {
    assert s == s[..n] + s[n..];
  }

  /** Only a character beyond ASCII makes a pattern longer, and then the shortest path it matches as well. */
  lemma {:induction false} ShortestGrows(pattern: string)
    ensures |Shortest(Bytes(pattern))| >= |Shortest(pattern)|
    ensures !Ascii(pattern) ==> |Shortest(Bytes(pattern))| > |Shortest(pattern)|
    decreases |pattern|
  {
    if pattern != "" {
      var n := 1;
      if pattern[0] < '\U{80}' {
        n := Emitted(pattern, 0).1;
        AsciiStep(pattern, n);
      } else {
        WideStep(pattern);
      }
      ShortestGrows(pattern[n..]);
      AsciiSplit(pattern, n);
    }
  }

  predicate Literal(c: char) {
    c != '*' && c != '?'
  }

  lemma {:induction false} ShortestLiterals(a: string, b: string)
    requires forall k | 0 <= k < |a| :: Literal(a[k])
    ensures Shortest(a + b) == a + Shortest(b)
  {
    if a == "" {
      assert a + b == b;
    } else {
      assert (a + b)[0] == a[0] && (a + b)[1..] == a[1..] + b;
      ShortestLiterals(a[1..], b);
    }
  }

  lemma BytesFirst(s: string)
    ensures s == "" <==> Bytes(s) == ""
    ensures s != "" && s[0] < '\U{80}' ==> Bytes(s)[0] == s[0] && Bytes(s) == [s[0]] + Bytes(s[1..]) && Bytes(s)[1..] == Bytes(s[1..])
    ensures s != "" && s[0] >= '\U{80}' ==> Bytes(s)[0] >= '\U{80}'
  {
  }

  /** What the compiler looks at: which of the first three characters are there, and are what it looks for. */
  function Looks(s: string): (bool, bool, bool) {
    (|s| > 0 && s[0] == '*', |s| > 1 && s[1] == '*', |s| > 2 && s[2] == '/')
  }

  lemma EmittedSame(s: string, t: string)
    requires s != "" && t != "" && s[0] == t[0]
    requires s[0] == '*' ==> Looks(s).1 == Looks(t).1 && (Looks(s).1 ==> Looks(s).2 == Looks(t).2)
    ensures Emitted(s, 0) == Emitted(t, 0)
  {
  }

  lemma BytesLook(s: string)
    requires s != "" && s[0] < '\U{80}'
    ensures Looks(Bytes(s)).1 == Looks(s).1 && (Looks(s).1 ==> Looks(Bytes(s)).2 == Looks(s).2)
  {
    BytesFirst(s);
    var rest := s[1..];
    BytesFirst(rest);
    assert |Bytes(s)| > 1 ==> Bytes(s)[1] == Bytes(rest)[0];
    if Looks(s).1 {
      BytesFirst(rest[1..]);
      assert rest[1..] == s[2..];
      assert |Bytes(s)| > 2 ==> Bytes(s)[2] == Bytes(rest)[1] == Bytes(s[2..])[0];
    }
  }

  lemma {:induction false} BytesAscii(s: string, n: nat)
    requires n <= |s| && Ascii(s[..n])
    ensures Bytes(s) == s[..n] + Bytes(s[n..])
  {
    if n > 0 {
      AsciiFront(s, n);
      BytesFirst(s);
      BytesAscii(s[1..], n - 1);
    } else {
      assert s[0..] == s && s[..0] + Bytes(s) == Bytes(s);
    }
  }

  lemma AsciiFront(s: string, n: nat)
    requires 0 < n <= |s| && Ascii(s[..n])
    ensures s[0] < '\U{80}' && Ascii(s[1..][..n - 1]) && s[..n] == [s[0]] + s[1..][..n - 1] && s[1..][n - 1..] == s[n..]
  {
    assert s[0] == s[..n][0] && s[1..][..n - 1] == s[..n][1..];
    AsciiSplit(s[..n], 1);
  }

  /** The characters the compiler takes together are ASCII, and it takes the same bytes together. */
  lemma BytesFront(pattern: string, n: nat)
    requires pattern != "" && pattern[0] < '\U{80}' && n == Emitted(pattern, 0).1
    ensures n <= |pattern| && Ascii(pattern[..n]) && Bytes(pattern) == pattern[..n] + Bytes(pattern[n..])
    ensures Bytes(pattern) != "" && Emitted(Bytes(pattern), 0) == Emitted(pattern, 0)
  {
    BytesFirst(pattern);
    BytesLook(pattern);
    EmittedSame(pattern, Bytes(pattern));
    BytesAscii(pattern, n);
  }

  lemma ShortestNext(pattern: string)
    requires pattern != ""
    ensures var (re, n) := Emitted(pattern, 0);
            n <= |pattern| && |Shortest(pattern)| == (if re.Chr? then 1 else 0) + |Shortest(pattern[n..])|
  {
  }

  // ---------- The meaning of a pattern ----------

  /** The regular expression means what the pattern says, for every path. */
  ghost predicate MeansPattern(pattern: string) {
    forall rel :: Accepts(Compiled(Bytes(pattern)), rel) <==> PathMatch(Split(pattern, '/'), Split(rel, '/'))
  }

  /** Beyond ASCII it rejects even the shortest path the pattern matches. */
  lemma ShortestRejected(pattern: string)
    requires WellFormed(Split(pattern, '/')) && !Ascii(pattern)
    ensures PathMatch(Split(pattern, '/'), Split(Shortest(pattern), '/'))
    ensures !Accepts(Compiled(Bytes(pattern)), Shortest(pattern))
  {
    ShortestAccepted(pattern);
    ByteMeaning(pattern, Shortest(pattern));
    ShortestGrows(pattern);
    if Accepts(Compiled(Bytes(pattern)), Shortest(pattern)) { NothingShorter(Bytes(pattern), Shortest(pattern)); }
  }

  /**
   For every pattern whose segments are `**` or free of `**`: the compiled pattern accepts exactly the paths the pattern
   matches segment by segment if and only if the pattern is ASCII.
   */
  lemma GlobMeaning(pattern: string)
    requires WellFormed(Split(pattern, '/'))
    ensures MeansPattern(pattern) <==> Ascii(pattern)
  {
    if Ascii(pattern) {
      AsciiBytes(pattern);
      forall rel ensures Accepts(Compiled(Bytes(pattern)), rel) <==> PathMatch(Split(pattern, '/'), Split(rel, '/')) {
        ByteMeaning(pattern, rel);
      }
    } else {
      ShortestRejected(pattern);
    }
  }

  /** What `matchGlob` matches against: the pattern trimmed, less a leading `./`. */
  function Core(pattern: string): string {
    TrimPrefix(TrimSpace(pattern), "./")
  }

  /** `matchGlob`, in terms of segments: the empty pattern matches nothing, any other what it says if it is ASCII. */
  lemma MatchGlobMeaning(pattern: string)
    requires WellFormed(Split(Core(pattern), '/'))
    ensures TrimSpace(pattern) == "" ==> forall rel :: !MatchGlob(pattern, rel)
    ensures TrimSpace(pattern) != "" ==>
              ((forall rel :: MatchGlob(pattern, rel) <==> PathMatch(Split(Core(pattern), '/'), Split(rel, '/')))
               <==> Ascii(Core(pattern)))
  {
    GlobMeaning(Core(pattern));
    if TrimSpace(pattern) != "" && !Ascii(Core(pattern)) {
      var rel := Shortest(Core(pattern));
      ShortestRejected(Core(pattern));
      assert !MatchGlob(pattern, rel);
    }
  }

  /** The pattern of a single accented letter rejects that letter, and accepts its two bytes read as two characters. */
  lemma AccentRejected()
    ensures !MatchGlob("\U{E9}", "\U{E9}") && MatchGlob("\U{E9}", "\U{C3}\U{A9}")
    ensures PathMatch(Split("\U{E9}", '/'), Split("\U{E9}", '/'))
  {
    var e := "\U{E9}";
    assert Encoded('\U{E9}') == "\U{C3}\U{A9}";
    assert Bytes(e) == "\U{C3}\U{A9}";
    assert Shortest(e) == e && Shortest(Bytes(e)) == Bytes(e);
    ShortestAccepted(Bytes(e));
    assert Split(e, '/') == [e];
    assert WellFormed(Split(e, '/'));
    ShortestRejected(e);
  }
}

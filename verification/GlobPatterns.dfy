/** Which paths the patterns that projects write match: names, directories, and names at any depth. */
module GlobPatterns {
  import opened Text
  import opened Trimming
  import opened Glob

  /** ASCII characters that stand for themselves in a pattern. */
  predicate Plain(s: string) {
    forall k | 0 <= k < |s| :: s[k] < '\U{80}' && s[k] != '*' && s[k] != '?'
  }

  /** No white space around the pattern, and no `./` in front. */
  predicate Bare(pattern: string) {
    pattern != "" && Trimmed(pattern) && !("./" <= pattern)
  }

  // ---------- What is trimmed off a pattern ----------

  /** White space around a pattern is ignored. */
  lemma SpaceIgnored(a: string, p: string, b: string, rel: string)
    requires AllSpace(a) && AllSpace(b) && Trimmed(p)
    ensures MatchGlob(a + p + b, rel) <==> MatchGlob(p, rel)
  {
    TrimAround(a, p, b);
    TrimNoop(p);
  }

  /** Nothing but white space matches nothing. */
  lemma EmptyMatchesNothing(a: string, rel: string)
    requires AllSpace(a)
    ensures !MatchGlob(a, rel)
  {
    TrimAllSpace(a);
  }

  /** One `./` in front of a pattern is ignored. */
  lemma DotSlashIgnored(p: string, rel: string)
    requires Bare(p)
    ensures MatchGlob("./" + p, rel) <==> MatchGlob(p, rel)
  {
    var s := "./" + p;
    assert s[0] == '.' && s[|s| - 1] == p[|p| - 1] && s[2..] == p;
    TrimNoop(s);
    TrimNoop(p);
  }

  // ---------- The compiled pattern ----------

  lemma {:induction false} LiteralFront(p: string, q: string, rel: string)
    requires Plain(p)
    ensures Accepts(Compiled(p + q), rel) <==> p <= rel && Accepts(Compiled(q), rel[|p|..])
  {
    if p == "" {
      assert p + q == q && rel[0..] == rel;
    } else {
      var s := p + q;
      assert s[0] == p[0] && s[1..] == p[1..] + q;
      FirstLiteral(s, rel);
      if rel != "" {
        LiteralFront(p[1..], q, rel[1..]);
        FirstAgrees(p, rel);
        if p <= rel { assert rel[1..][|p| - 1..] == rel[|p|..]; }
      }
    }
  }

  lemma FirstAgrees(p: string, rel: string)
    requires p != "" && rel != ""
    ensures p <= rel <==> p[0] == rel[0] && p[1..] <= rel[1..]
  {
    assert p == [p[0]] + p[1..] && rel == [rel[0]] + rel[1..];
  }

  lemma FirstLiteral(s: string, rel: string)
    requires s != "" && Literal(s[0])
    ensures Accepts(Compiled(s), rel) <==> rel != "" && rel[0] == s[0] && Accepts(Compiled(s[1..]), rel[1..])
  {
    var res := Compiled(s);
    assert res[0] == Chr(Only(s[0])) && res[1..] == Compiled(s[1..]);
    forall k | 0 <= k <= |rel| && Cuts(res, rel, k) ensures k == 1 && rel[..1][0] == rel[0] {
    }
    if rel != "" {
      assert rel[..1][0] == rel[0];
      assert Cuts(res, rel, 1) <==> rel[0] == s[0] && Accepts(Compiled(s[1..]), rel[1..]);
    }
  }

  lemma Written(pattern: string, rel: string)
    requires Bare(pattern) && Ascii(pattern)
    ensures MatchGlob(pattern, rel) <==> Accepts(Compiled(pattern), rel)
  {
    TrimNoop(pattern);
    AsciiBytes(pattern);
  }

  lemma PlainAccepted(p: string, rel: string)
    requires Plain(p)
    ensures Accepts(Compiled(p), rel) <==> rel == p
  {
    assert p + "" == p;
    LiteralFront(p, "", rel);
    if p <= rel && rel[|p|..] == "" {
      assert rel == p + rel[|p|..];
    }
  }

  // ---------- Patterns as they are written ----------

  /** A name matches itself. */
  lemma NameMatches(p: string, rel: string)
    requires Plain(p) && Bare(p)
    ensures MatchGlob(p, rel) <==> rel == p
  {
    Written(p, rel);
    PlainAccepted(p, rel);
  }

  /** A second `./` is part of the name. */
  lemma DotSlashOnce(p: string, rel: string)
    requires Plain(p) && p != "" && Trimmed(p)
    ensures MatchGlob("././" + p, rel) <==> rel == "./" + p
  {
    var s := "././" + p;
    assert s[0] == '.' && s[1] == '/' && s[|s| - 1] == p[|p| - 1] && s[2..] == "./" + p;
    TrimNoop(s);
    AsciiBytes("./" + p);
    PlainAccepted("./" + p, rel);
  }

  // A directory with two asterisks behind it matches what lies below it, at any depth: every such path without a line break.
  lemma BelowMatches(dir: string, rel: string)
    requires Plain(dir) && Bare(dir) && dir != "."
    ensures MatchGlob(dir + "/**", rel) <==> dir + "/" <= rel && '\n' !in rel[|dir| + 1..]
  {
    Extended(dir, "/**");
    Written(dir + "/**", rel);
    BelowAccepted(dir, rel);
  }

  // A name with two asterisks and a slash in front matches the name at any depth, below directories without line breaks.
  lemma AnywhereMatches(p: string, rel: string)
    requires Plain(p) && p != "" && !IsSpace(p[|p| - 1])
    ensures MatchGlob("**/" + p, rel) <==>
            rel == p || (HasSuffix(rel, "/" + p) && '\n' !in rel[..|rel| - |p| - 1])
  {
    StartsDeep(p);
    Written("**/" + p, rel);
    if Accepts(Compiled("**/" + p), rel) { AnywhereFound(p, rel); }
    if rel == p || (HasSuffix(rel, "/" + p) && '\n' !in rel[..|rel| - |p| - 1]) { AnywhereAccepted(p, rel); }
  }

  lemma AnywhereFound(p: string, rel: string)
    requires Plain(p) && Accepts(Compiled("**/" + p), rel)
    ensures rel == p || (HasSuffix(rel, "/" + p) && '\n' !in rel[..|rel| - |p| - 1])
  {
    var k := InnerGlobstar(p, rel);
    PlainAccepted(p, rel[k..]);
    AtEnd(p, rel, k);
  }

  lemma AnywhereAccepted(p: string, rel: string)
    requires Plain(p) && (rel == p || (HasSuffix(rel, "/" + p) && '\n' !in rel[..|rel| - |p| - 1]))
    ensures Accepts(Compiled("**/" + p), rel)
  {
    PlainAccepted(p, p);
    if rel == p {
      InnerGlobstarJoin(p, "", p);
      assert "" + p == p;
    } else {
      InDirectory(p, rel, |rel| - |p|);
      InnerGlobstarJoin(p, rel[..|rel| - |p|], p);
    }
  }

  lemma StartsDeep(p: string)
    requires Plain(p) && p != "" && !IsSpace(p[|p| - 1])
    ensures Bare("**/" + p) && Ascii("**/" + p)
  {
    var s := "**/" + p;
    assert s[0] == '*' && s[|s| - 1] == p[|p| - 1];
  }

  lemma AtEnd(p: string, rel: string, k: nat)
    requires k <= |rel| && rel[k..] == p && (k > 0 ==> rel[k - 1] == '/' && '\n' !in rel[..k - 1])
    ensures rel == p || (HasSuffix(rel, "/" + p) && '\n' !in rel[..|rel| - |p| - 1])
  {
    if k > 0 { assert rel[k - 1..] == [rel[k - 1]] + rel[k..]; }
  }

  lemma InDirectory(p: string, rel: string, k: nat)
    requires 0 < k <= |rel| && k == |rel| - |p| && rel[k - 1..] == "/" + p
    ensures rel == rel[..k] + p && rel[..k][k - 1] == '/' && rel[..k][..k - 1] == rel[..k - 1]
  {
    assert rel[k - 1] == rel[k - 1..][0] && rel[k..] == rel[k - 1..][1..];
  }

  /** The directory stands at `k`, at the start of the path or behind a slash. */
  predicate DirectoryAt(dir: string, rel: string, k: nat)
    requires k <= |rel|
  {
    (k == 0 || rel[k - 1] == '/') && dir + "/" <= rel[k..]
  }

  // A directory with `**` on both sides matches what lies below such a directory, at any depth.
  lemma AnywhereBelowMatches(dir: string, rel: string)
    requires Plain(dir) && dir != "" && '\n' !in dir
    ensures MatchGlob("**/" + (dir + "/**"), rel) <==>
            '\n' !in rel && exists k | 0 <= k <= |rel| :: DirectoryAt(dir, rel, k)
  {
    var q := dir + "/**";
    var s := "**/" + q;
    assert s[0] == '*' && s[|s| - 1] == q[|q| - 1] == '*';
    Written(s, rel);
    if Accepts(Compiled(s), rel) {
      var k := AnywhereBelowFound(dir, q, rel);
    }
    if '\n' !in rel && exists k | 0 <= k <= |rel| :: DirectoryAt(dir, rel, k) {
      var k :| 0 <= k <= |rel| && DirectoryAt(dir, rel, k);
      AnywhereBelowAccepted(dir, q, rel, k);
    }
  }

  lemma AnywhereBelowFound(dir: string, q: string, rel: string) returns (k: nat)
    requires Plain(dir) && '\n' !in dir && q == dir + "/**" && Accepts(Compiled("**/" + q), rel)
    ensures '\n' !in rel && k <= |rel| && DirectoryAt(dir, rel, k)
  {
    k := InnerGlobstar(q, rel);
    BelowAccepted(dir, rel[k..]);
    OneLineParts(dir, rel, k);
  }

  lemma AnywhereBelowAccepted(dir: string, q: string, rel: string, k: nat)
    requires Plain(dir) && q == dir + "/**" && '\n' !in rel && k <= |rel| && DirectoryAt(dir, rel, k)
    ensures Accepts(Compiled("**/" + q), rel)
  {
    BelowAccepted(dir, rel[k..]);
    assert rel == rel[..k] + rel[k..];
    InnerGlobstarJoin(q, rel[..k], rel[k..]);
  }

  lemma BelowAccepted(dir: string, rel: string)
    requires Plain(dir)
    ensures Accepts(Compiled(dir + "/**"), rel) <==> dir + "/" <= rel && '\n' !in rel[|dir| + 1..]
  {
    var p := dir + "/";
    assert dir + "/**" == p + "**";
    LiteralFront(p, "**", rel);
    if p <= rel {
      DeepAccepted(rel[|dir| + 1..]);
    }
  }

  lemma OneLineParts(dir: string, rel: string, k: nat)
    requires k <= |rel| && (k > 0 ==> rel[k - 1] == '/' && '\n' !in rel[..k - 1]) && '\n' !in dir
    requires dir + "/" <= rel[k..] && '\n' !in rel[k..][|dir| + 1..]
    ensures '\n' !in rel
  {
    var below := rel[k..];
    assert below == dir + "/" + below[|dir| + 1..];
    if k > 0 { assert rel == rel[..k - 1] + "/" + below; } else { assert rel == below; }
  }

  /** One asterisk stands for any characters but slashes. */
  lemma StarMatches(p: string, q: string, rel: string)
    requires Plain(p) && Plain(q) && Bare(p + "*") && (q != "" ==> !IsSpace(q[|q| - 1]))
    ensures MatchGlob(p + "*" + q, rel) <==>
            |p| + |q| <= |rel| && p <= rel && HasSuffix(rel, q) && '/' !in rel[|p|..|rel| - |q|]
  {
    var s := p + "*" + q;
    assert s == p + ("*" + q);
    Extended(p + "*", q);
    Written(s, rel);
    LiteralFront(p, "*" + q, rel);
    if p <= rel {
      StarAccepted(q, rel[|p|..]);
      if |p| + |q| <= |rel| { StarBetween(p, q, rel); }
    }
  }

  lemma StarBetween(p: string, q: string, rel: string)
    requires p <= rel && |p| + |q| <= |rel|
    ensures var x := rel[|p|..];
            x[|x| - |q|..] == rel[|rel| - |q|..] && x[..|x| - |q|] == rel[|p|..|rel| - |q|]
  {
  }

  lemma StarAccepted(q: string, x: string)
    requires Plain(q)
    ensures Accepts(Compiled("*" + q), x) <==> |q| <= |x| && HasSuffix(x, q) && '/' !in x[..|x| - |q|]
  {
    var s := "*" + q;
    var res := Compiled(s);
    assert s[1..] == q && res[0] == Many(NotSlash) && res[1..] == Compiled(q);
    forall k | 0 <= k <= |x| ensures Cuts(res, x, k) <==> AllIn(NotSlash, x[..k]) && x[k..] == q {
      PlainAccepted(q, x[k..]);
    }
    if |q| <= |x| {
      var k := |x| - |q|;
      assert AllIn(NotSlash, x[..k]) <==> '/' !in x[..k];
      assert Cuts(res, x, k) <==> x[k..] == q && '/' !in x[..k];
    }
  }

  /** A question mark stands for one character that is no slash. */
  lemma QuestionMatches(p: string, q: string, rel: string)
    requires Plain(p) && Plain(q) && Bare(p + "?") && (q != "" ==> !IsSpace(q[|q| - 1]))
    ensures MatchGlob(p + "?" + q, rel) <==> |rel| == |p| + 1 + |q| && p <= rel && rel[|p|] != '/' && rel[|p| + 1..] == q
  {
    var s := p + "?" + q;
    assert s == p + ("?" + q);
    Extended(p + "?", q);
    Written(s, rel);
    LiteralFront(p, "?" + q, rel);
    if p <= rel {
      QuestionAccepted(q, rel[|p|..]);
    }
  }

  lemma QuestionAccepted(q: string, x: string)
    requires Plain(q)
    ensures Accepts(Compiled("?" + q), x) <==> x != "" && x[0] != '/' && x[1..] == q
  {
    var s := "?" + q;
    var res := Compiled(s);
    assert s[1..] == q && res[0] == Chr(NotSlash) && res[1..] == Compiled(q);
    forall k | 0 <= k <= |x| && Cuts(res, x, k) ensures k == 1 {
    }
    if x != "" {
      PlainAccepted(q, x[1..]);
      assert x[..1][0] == x[0];
      assert Cuts(res, x, 1) <==> x[0] != '/' && x[1..] == q;
    }
  }

  lemma Extended(p: string, tail: string)
    requires Bare(p) && (tail != "" ==> !IsSpace(tail[|tail| - 1]) && (tail[0] == '/' ==> p != "."))
    ensures Bare(p + tail)
  {
    var s := p + tail;
    if tail == "" {
      assert s == p;
    } else {
      assert s[0] == p[0] && s[|s| - 1] == tail[|tail| - 1] && s[1] == if |p| > 1 then p[1] else tail[0];
    }
  }

  lemma DeepAccepted(rel: string)
    ensures Accepts(Compiled("**"), rel) <==> '\n' !in rel
  {
    assert Compiled("**") == [Many(Dot)];
    AcceptsOne(Many(Dot), rel);
    assert AllIn(Dot, rel) <==> '\n' !in rel;
  }
}

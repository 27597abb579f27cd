/** What `strings.TrimSpace` leaves. */
module Trimming {
  import opened Text

  predicate Trimmed(s: string) {
    s == "" || (!IsSpace(s[0]) && !IsSpace(s[|s| - 1]))
  }

  lemma {:induction false} TrimLeftDrops(s: string) returns (k: nat)
    ensures k <= |s| && TrimLeft(s) == s[k..] && AllSpace(s[..k])
    ensures k == |s| || !IsSpace(s[k])
  {
    if s != "" && IsSpace(s[0]) {
      k := TrimLeftDrops(s[1..]);
      k := k + 1;
      assert s[..k] == [s[0]] + s[1..][..k - 1];
    } else {
      k := 0;
    }
  }

  lemma {:induction false} TrimRightKeeps(s: string) returns (k: nat)
    ensures k <= |s| && TrimRight(s) == s[..k] && AllSpace(s[k..])
    ensures k == 0 || !IsSpace(s[k - 1])
  {
    if s != "" && IsSpace(s[|s| - 1]) {
      var short := s[..|s| - 1];
      k := TrimRightKeeps(short);
      assert s[k..] == short[k..] + [s[|s| - 1]];
    } else {
      k := |s|;
    }
  }

  lemma TrimTrimmed(s: string)
    ensures Trimmed(TrimSpace(s))
    ensures TrimSpace(TrimSpace(s)) == TrimSpace(s)
  {
    var l := TrimLeftDrops(s);
    var t := TrimLeft(s);
    var r := TrimRightKeeps(t);
    if t != "" {
      assert !IsSpace(t[0]);
      assert t[0..] == t;
    }
    TrimNoop(TrimSpace(s));
  }

  lemma TrimNoop(s: string)
    requires Trimmed(s)
    ensures TrimSpace(s) == s
  {
  }

  /** White space in front goes. */
  lemma {:induction false} TrimFrontSpace(a: string, s: string)
    requires AllSpace(a)
    ensures TrimSpace(a + s) == TrimSpace(s)
  {
    if a == "" {
      assert a + s == s;
    } else {
      assert (a + s)[1..] == a[1..] + s;
      TrimFrontSpace(a[1..], s);
    }
  }

  lemma {:induction false} TrimRightSpace(s: string, b: string)
    requires AllSpace(b)
    ensures TrimRight(s + b) == TrimRight(s)
  {
    if b == "" {
      assert s + b == s;
    } else {
      assert (s + b)[..|s + b| - 1] == s + b[..|b| - 1];
      TrimRightSpace(s, b[..|b| - 1]);
    }
  }

  lemma TrimAllSpace(a: string)
    requires AllSpace(a)
    ensures TrimSpace(a) == ""
  {
    assert a + "" == a;
    TrimFrontSpace(a, "");
  }

  /** White space behind a trimmed text goes. */
  lemma TrimBackSpace(s: string, b: string)
    requires Trimmed(s) && AllSpace(b)
    ensures TrimSpace(s + b) == s
  {
    if s == "" {
      assert s + b == b;
      TrimAllSpace(b);
    } else {
      assert (s + b)[0] == s[0];
      TrimRightSpace(s, b);
    }
  }

  lemma TrimAround(a: string, s: string, b: string)
    requires AllSpace(a) && Trimmed(s) && AllSpace(b)
    ensures TrimSpace(a + s + b) == s
  {
    assert a + s + b == a + (s + b);
    TrimFrontSpace(a, s + b);
    TrimBackSpace(s, b);
  }

  /** Trimming keeps a front part that starts and ends with other characters. */
  lemma TrimKeepsFront(u: string, n: nat)
    requires 0 < n <= |u| && !IsSpace(u[0]) && !IsSpace(u[n - 1])
    ensures n <= |TrimSpace(u)| && TrimSpace(u)[..n] == u[..n]
  {
    var k := TrimRightKeeps(u);
    if k < n { assert u[k..][n - 1 - k] == u[n - 1]; }
  }

  /** Trimming the end of a trimmed text drops white space from its front only. */
  lemma TrimSuffixOf(s: string, from: nat) returns (k: nat)
    requires Trimmed(s) && from <= |s|
    ensures from <= k <= |s| && TrimSpace(s[from..]) == s[k..] && AllSpace(s[from..k])
  {
    var j := TrimLeftDrops(s[from..]);
    k := from + j;
    assert s[from..][j..] == s[k..] && s[from..][..j] == s[from..k];
    if s[k..] != "" { assert s[k..][|s| - k - 1] == s[|s| - 1]; }
  }
}

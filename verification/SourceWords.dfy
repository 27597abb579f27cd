/** What sanitising does to names as people write them, and which of them sources give back as they were. */
module SourceWords {
  import opened Text
  import opened Sources

  predicate Kept(c: char) {
    'a' <= c <= 'z' || 'A' <= c <= 'Z' || '0' <= c <= '9' || c == '_'
  }

  predicate Spelled(s: string) {
    forall k | 0 <= k < |s| :: Kept(s[k])
  }

  /** Letters, digits and underscores stay, one by one; any other character becomes an underscore. */
  lemma SanitizedMeaning(s: string)
    ensures |Sanitized(s)| == |s|
    ensures forall k | 0 <= k < |s| :: Sanitized(s)[k] == if Kept(s[k]) then s[k] else '_'
    ensures Sanitized(s) == s <==> Spelled(s)
  {
    if Spelled(s) {
      assert forall k | 0 <= k < |s| :: Kept(s[k]);
    } else {
      var k :| 0 <= k < |s| && !Kept(s[k]);
      assert Sanitized(s)[k] == '_' != s[k];
    }
  }

  /** One underscore in front, and not two. */
  predicate OneInFront(key: string) {
    key != "" && key[0] == '_' && (|key| == 1 || key[1] != '_')
  }

  /**
   Which keys are given back as they were: from the workflow those of letters, digits and underscores, from a job or a
   step those that do not start with exactly one underscore either.
   */
  lemma KeyComesBack(job: string, step: string, key: string)
    ensures CIEnvKey("ci_env__workflow__" + Escape(Sanitized(key))) == Some(key) <==> Spelled(key)
    ensures CIEnvKey(JobEnvSource(job, key)) == Some(key) <==> Spelled(key) && !OneInFront(key)
    ensures CIEnvKey(StepEnvSource(job, step, key)) == Some(key) <==> Spelled(key) && !OneInFront(key)
  {
    SanitizedMeaning(key);
    WorkflowKeyRecovered(key);
    JobKeyRecovered(job, key);
    StepKeyRecovered(job, step, key);
  }

  /** A compose service is given back as it was if and only if its name is made of letters, digits and underscores. */
  lemma ComposeComesBack(name: string, field: string)
    requires IsField(field)
    ensures ParseService(ComposeServiceSource(name, field), "compose_service__") == Some((name, field)) <==> Spelled(name)
  {
    SanitizedMeaning(name);
    ComposeServiceRecovered(name, field);
  }

  /** Of two underscores in a row each is written as `%5F`, from the left. */
  lemma {:induction false} PairEscaped(a: string, b: string)
    requires IsWord(a) && NoSep(a) && !EndsInUnderscore(a)
    ensures Escape(a + "__" + b) == a + "%5F%5F" + Escape(b)
  {
    var s := a + "__" + b;
    if a == "" {
      assert s[2..] == b && "" + "%5F%5F" == "%5F%5F";
    } else {
      NoSepTail(a);
      PairEscaped(a[1..], b);
      assert s[1..] == a[1..] + "__" + b && !SepAt(a, 0) && !SepAt(s, 0);
      assert Escape(s) == [s[0]] + Escape(s[1..]);
      assert a == [a[0]] + a[1..];
    }
  }

  // ---------- Underscores at the end ----------

  /** How many underscores stand at the end. */
  function Trailing(s: string): nat {
    if s != "" && s[|s| - 1] == '_' then 1 + Trailing(s[..|s| - 1]) else 0
  }

  lemma {:induction false} TrailingConcat(a: string, t: string)
    ensures Trailing(a + t) == if Trailing(t) == |t| then Trailing(a) + |t| else Trailing(t)
  {
    if t == "" {
      assert a + t == a;
    } else {
      var short := t[..|t| - 1];
      TrailingConcat(a, short);
      TrailingAtMost(short);
      assert (a + t)[..|a + t| - 1] == a + short;
    }
  }

  lemma {:induction false} TrailingAtMost(s: string)
    ensures Trailing(s) <= |s|
    ensures s != "" && s[0] != '_' ==> Trailing(s) < |s|
  {
    if s != "" && s[|s| - 1] == '_' {
      TrailingAtMost(s[..|s| - 1]);
    }
  }

  /** Underscores are escaped in pairs from the left, so one is left at the end if and only if their number there is odd. */
  lemma {:induction false} EscapeEnds(s: string)
    requires IsWord(s)
    ensures EndsInUnderscore(Escape(s)) <==> Trailing(s) % 2 == 1
    decreases |s|
  {
    if s != "" {
      var n := if SepAt(s, 0) then 2 else 1;
      var t := s[n..];
      EscapeEnds(t);
      EscapeHidesSep(t);
      TrailingConcat(s[..n], t);
      TrailingAtMost(t);
      assert s == s[..n] + t;
      if n == 2 {
        assert s[..2][..1] == "_" && Trailing("_") == 1 && Trailing(s[..2]) == 2;
        LastOf(ESCAPED, Escape(t));
      } else {
        assert Trailing(s[..1]) == if s[0] == '_' then 1 else 0;
        LastOf([s[0]], Escape(t));
      }
    }
  }

  lemma LastOf(a: string, b: string)
    requires a != ""
    ensures EndsInUnderscore(a + b) <==> if b == "" then a[|a| - 1] == '_' else EndsInUnderscore(b)
  {
  }

  /**
   A CI service whose name is made of letters, digits and underscores is given back as it was if and only if the name is
   not empty, and neither it nor the sanitised job ends in an odd number of underscores.
   */
  lemma CIServiceComesBack(job: string, name: string, field: string)
    requires IsField(field) && Spelled(name)
    ensures ParseCIService(CIServiceSource(job, name, field)) == Some((name, field)) <==>
            name != "" && Trailing(Sanitized(job)) % 2 == 0 && Trailing(name) % 2 == 0
  {
    SanitizedMeaning(name);
    CIServiceRecovered(job, name, field);
    EscapeEnds(Sanitized(job));
    EscapeEnds(name);
  }
}

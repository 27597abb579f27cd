/**
 Evidence sources: the collectors print names into source strings with `__` between the parts, the rules parse
 them back. Names are sanitised to word characters, and every `__` inside a name is escaped.
 */
module Sources {
  import opened Text

  const SEP := "__"
  const ESCAPED := "%5F%5F"

  /** `strings.ReplaceAll` for a pattern that is not empty. */
  function ReplaceAll(s: string, from: string, to: string): string
    requires from != ""
    decreases |s|
  {
    if s == "" then ""
    else if from <= s then to + ReplaceAll(s[|from|..], from, to)
    else [s[0]] + ReplaceAll(s[1..], from, to)
  }

  // ---------- Printing ----------

  /** Every character outside the word characters becomes an underscore. */
  function Sanitized(s: string): (w: string)
    ensures |w| == |s| && IsWord(w)
  {
    seq(|s|, k requires 0 <= k < |s| => if IsWordChar(s[k]) then s[k] else '_')
  }

  function Escape(s: string): string {
    ReplaceAll(s, SEP, ESCAPED)
  }

  method SanitizeSource(s: string) returns (r: string)
    ensures r == Escape(Sanitized(s))
  {
    var b := "";
    for k := 0 to |s|
      invariant b == Sanitized(s)[..k]
    {
      if IsWordChar(s[k]) {
        b := b + [s[k]];
      } else {
        b := b + "_";
      }
    }
    assert b == Sanitized(s);
    return Escape(b);
  }

  function WorkflowEnvSource(key: string): string {
    "ci_env__workflow__" + Escape(Sanitized(key))
  }

  function JobEnvSource(job: string, key: string): string {
    "ci_env__job__" + Escape(Sanitized(job)) + SEP + Escape(Sanitized(key))
  }

  function StepEnvSource(job: string, step: string, key: string): string {
    "ci_env__step__" + Escape(Sanitized(job)) + SEP + step + SEP + Escape(Sanitized(key))
  }

  function CIServiceSource(job: string, name: string, field: string): string {
    "ci_service__" + Escape(Sanitized(job)) + SEP + Escape(Sanitized(name)) + SEP + field
  }

  function ComposeServiceSource(name: string, field: string): string {
    "compose_service__" + Escape(Sanitized(name)) + SEP + field
  }

  // ---------- Parsing ----------

  function Decode(s: string): string {
    ReplaceAll(s, ESCAPED, SEP)
  }

  predicate SepAt(s: string, i: nat) {
    i + 1 < |s| && s[i] == '_' && s[i + 1] == '_'
  }

  /** `strings.LastIndex(s, "__")` over the first `n` positions. */
  function LastSep(s: string, n: nat): (i: int)
    ensures i == -1 || (0 <= i < n && SepAt(s, i))
  {
    if n == 0 then -1 else if SepAt(s, n - 1) then n - 1 else LastSep(s, n - 1)
  }

  /** What follows the last `__`, if there is one. */
  function AfterLastSep(s: string): Option<string> {
    var i := LastSep(s, |s|);
    if i == -1 then None else Some(s[i + 2..])
  }

  function CIEnvKey(source: string): Option<string> {
    if "ci_env__workflow__" <= source then Some(Decode(TrimPrefix(source, "ci_env__workflow__")))
    else if "ci_env__job__" <= source && AfterLastSep(TrimPrefix(source, "ci_env__job__")).Some? then
      Some(Decode(AfterLastSep(TrimPrefix(source, "ci_env__job__")).value))
    else if "ci_env__step__" <= source && AfterLastSep(TrimPrefix(source, "ci_env__step__")).Some? then
      Some(Decode(AfterLastSep(TrimPrefix(source, "ci_env__step__")).value))
    else None
  }

  /** `strings.Split(s, "__")` */
  function SplitSep(s: string): (parts: seq<string>)
    ensures |parts| >= 1
    decreases |s|
  {
    if s == "" then [""]
    else if SepAt(s, 0) then [""] + SplitSep(s[2..])
    else
      var rest := SplitSep(s[1..]);
      [[s[0]] + rest[0]] + rest[1..]
  }

  function ParseCIService(source: string): Option<(string, string)> {
    if !("ci_service__" <= source) then None
    else
      var parts := SplitSep(TrimPrefix(source, "ci_service__"));
      if |parts| < 2 then None
      else
        var field := parts[|parts| - 1];
        var service := if |parts| >= 3 then parts[|parts| - 2] else parts[0];
        if service == "" || field == "" then None else Some((Decode(service), field))
  }

  function ParseService(source: string, prefix: string): Option<(string, string)> {
    if !(prefix <= source) then None
    else
      var rest := TrimPrefix(source, prefix);
      var i := LastSep(rest, |rest|);
      if i == -1 then None else Some((Decode(rest[..i]), rest[i + 2..]))
  }

  // ---------- Escaping ----------

  predicate NoSep(s: string) {
    forall i | 0 <= i < |s| :: !SepAt(s, i)
  }

  /** The name starts with one underscore that is not followed by another. */
  predicate LoneUnderscore(s: string) {
    s != "" && s[0] == '_' && !SepAt(s, 0)
  }

  predicate EndsInUnderscore(s: string) {
    s != "" && s[|s| - 1] == '_'
  }

  lemma DecodeChar(c: char, t: string)
    requires c != '%'
    ensures Decode([c] + t) == [c] + Decode(t)
  {
    assert ([c] + t)[1..] == t && ([c] + t)[0] != ESCAPED[0];
  }

  /** Decoding undoes escaping on every word. */
  lemma {:induction false} DecodeEscape(s: string)
    requires IsWord(s)
    ensures Decode(Escape(s)) == s
    decreases |s|
  {
    if s != "" {
      if SepAt(s, 0) {
        DecodeEscape(s[2..]);
        assert s == SEP + s[2..];
      } else {
        DecodeEscape(s[1..]);
        DecodeChar(s[0], Escape(s[1..]));
        assert s == [s[0]] + s[1..];
      }
    }
  }

  /** An escaped word never holds the separator, and starts with an underscore only for a lone one. */
  lemma {:induction false} EscapeHidesSep(s: string)
    requires IsWord(s)
    ensures NoSep(Escape(s))
    ensures Escape(s) == "" <==> s == ""
    ensures s != "" ==> (Escape(s)[0] == '_' <==> LoneUnderscore(s))
    ensures LoneUnderscore(s) ==> Escape(s) == "_" + Escape(s[1..])
    decreases |s|
  {
    if s != "" {
      if SepAt(s, 0) {
        EscapeHidesSep(s[2..]);
        NoSepConcat(ESCAPED, Escape(s[2..]));
      } else {
        EscapeHidesSep(s[1..]);
        NoSepConcat([s[0]], Escape(s[1..]));
      }
    }
  }

  lemma NoSepConcat(a: string, b: string)
    requires NoSep(a) && NoSep(b) && (a == "" || b == "" || a[|a| - 1] != '_' || b[0] != '_')
    ensures NoSep(a + b)
  {
    forall i: nat | i < |a + b| ensures !SepAt(a + b, i) {
      if i + 1 < |a| { assert !SepAt(a, i); }
      else if i >= |a| { assert !SepAt(b, i - |a|); }
    }
  }

  // ---------- The last separator ----------

  lemma {:induction false} LastSepIs(s: string, i: nat, n: nat)
    requires i < n && SepAt(s, i) && forall k | i < k < n :: !SepAt(s, k)
    ensures LastSep(s, n) == i
    decreases n
  {
    if n - 1 > i {
      LastSepIs(s, i, n - 1);
    }
  }

  /** The last separator is the printed one, or one further right when the last part starts with an underscore. */
  lemma LastSepPrinted(a: string, b: string)
    requires NoSep(b)
    ensures var s := a + SEP + b;
            LastSep(s, |s|) == if b != "" && b[0] == '_' then |a| + 1 else |a|
  {
    var s := a + SEP + b;
    var i := if b != "" && b[0] == '_' then |a| + 1 else |a|;
    forall k: nat | i < k < |s| ensures !SepAt(s, k) {
      if k >= |a| + 2 { assert !SepAt(b, k - |a| - 2); }
    }
    LastSepIs(s, i, |s|);
  }

  /** Reading back the last part of a source: a lone leading underscore is lost, everything else is recovered. */
  lemma LastPart(a: string, key: string)
    requires IsWord(key)
    ensures AfterLastSep(a + SEP + Escape(key)).Some?
    ensures Decode(AfterLastSep(a + SEP + Escape(key)).value) == if LoneUnderscore(key) then key[1..] else key
  {
    var b := Escape(key);
    var s := a + SEP + b;
    EscapeHidesSep(key);
    LastSepPrinted(a, b);
    DecodeEscape(key);
    if LoneUnderscore(key) {
      assert s[|a| + 3..] == b[1..] == Escape(key[1..]);
      DecodeEscape(key[1..]);
    } else {
      assert s[|a| + 2..] == b;
    }
  }

  // ---------- Environment keys ----------

  /** A workflow-level key is always recovered. */
  lemma WorkflowKeyRecovered(key: string)
    ensures CIEnvKey(WorkflowEnvSource(key)) == Some(Sanitized(key))
  {
    var p := "ci_env__workflow__";
    assert (p + Escape(Sanitized(key)))[|p|..] == Escape(Sanitized(key));
    DecodeEscape(Sanitized(key));
  }

  lemma OtherPrefix(q: string, p: string, rest: string, k: nat)
    requires k < |p| && k < |q| && p[k] != q[k]
    ensures !(q <= p + rest)
  {
    assert (p + rest)[k] == p[k];
  }

  /** What a step or job source reads back as, given its text behind the prefix. */
  lemma EnvKeyOf(p: string, a: string, key: string)
    requires p == "ci_env__job__" || p == "ci_env__step__"
    requires IsWord(key)
    ensures CIEnvKey(p + (a + SEP + Escape(key))) == Some(if LoneUnderscore(key) then key[1..] else key)
  {
    var rest := a + SEP + Escape(key);
    LastPart(a, key);
    OtherPrefix("ci_env__workflow__", p, rest, 8);
    if p == "ci_env__step__" {
      OtherPrefix("ci_env__job__", p, rest, 8);
    }
  }

  /** A job-level key is recovered exactly when it does not start with a lone underscore, which is lost. */
  lemma JobKeyRecovered(job: string, key: string)
    ensures CIEnvKey(JobEnvSource(job, key)) ==
            Some(if LoneUnderscore(Sanitized(key)) then Sanitized(key)[1..] else Sanitized(key))
    ensures CIEnvKey(JobEnvSource(job, key)) == Some(Sanitized(key)) <==> !LoneUnderscore(Sanitized(key))
  {
    var p, a, b := "ci_env__job__", Escape(Sanitized(job)), Escape(Sanitized(key));
    EnvKeyOf(p, a, Sanitized(key));
    assert p + (a + SEP + b) == p + a + SEP + b;
  }

  lemma StepText(a: string, step: string, b: string)
    ensures "ci_env__step__" + (a + SEP + step + SEP + b) == "ci_env__step__" + a + SEP + step + SEP + b
  {
  }

  lemma StepKeyRecovered(job: string, step: string, key: string)
    ensures CIEnvKey(StepEnvSource(job, step, key)) ==
            Some(if LoneUnderscore(Sanitized(key)) then Sanitized(key)[1..] else Sanitized(key))
    ensures CIEnvKey(StepEnvSource(job, step, key)) == Some(Sanitized(key)) <==> !LoneUnderscore(Sanitized(key))
  {
    StepText(Escape(Sanitized(job)), step, Escape(Sanitized(key)));
    EnvKeyOf("ci_env__step__", Escape(Sanitized(job)) + SEP + step, Sanitized(key));
  }

  // ---------- Services ----------

  /** The field names the collectors print. */
  predicate IsField(field: string) {
    field in {"image", "options", "host_port", "container_port"}
  }

  lemma FieldShape(field: string)
    requires IsField(field)
    ensures NoSep(field) && field != "" && field[0] != '_' && NoSep("_" + field)
  {
    NoSepConcat("_", field);
  }

  /** A compose service name is always recovered, with its field. */
  lemma ComposeServiceRecovered(name: string, field: string)
    requires IsField(field)
    ensures ParseService(ComposeServiceSource(name, field), "compose_service__") == Some((Sanitized(name), field))
  {
    var p, source, n := "compose_service__", ComposeServiceSource(name, field), Escape(Sanitized(name));
    var rest := n + SEP + field;
    assert source == p + rest && source[|p|..] == rest;
    FieldShape(field);
    LastSepPrinted(n, field);
    DecodeEscape(Sanitized(name));
    assert rest[..|n|] == n && rest[|n| + 2..] == field;
  }

  lemma {:induction false} SplitWhole(a: string)
    requires NoSep(a)
    ensures SplitSep(a) == [a]
    decreases |a|
  {
    if a != "" {
      NoSepTail(a);
      SplitWhole(a[1..]);
      assert !SepAt(a, 0) && a == [a[0]] + a[1..];
    }
  }

  lemma NoSepTail(a: string)
    requires NoSep(a) && a != ""
    ensures NoSep(a[1..])
  {
    forall i: nat | i < |a| - 1 ensures !SepAt(a[1..], i) {
      assert !SepAt(a, i + 1);
    }
  }

  lemma {:induction false} SplitFirst(a: string, b: string)
    requires NoSep(a) && !EndsInUnderscore(a)
    ensures SplitSep(a + SEP + b) == [a] + SplitSep(b)
    decreases |a|
  {
    var s := a + SEP + b;
    if a == "" {
      assert s[2..] == b;
    } else {
      NoSepTail(a);
      SplitFirst(a[1..], b);
      assert s[1..] == a[1..] + SEP + b && a == [a[0]] + a[1..];
      assert !SepAt(a, 0) && !SepAt(s, 0);
      assert ([a[1..]] + SplitSep(b))[1..] == SplitSep(b);
    }
  }

  /** A part that ends in an underscore gives that underscore to the next part. */
  lemma SplitShifted(front: string, b: string)
    requires NoSep(front + "_")
    ensures NoSep(front) && !EndsInUnderscore(front)
    ensures SplitSep(front + "_" + SEP + b) == [front] + SplitSep("_" + b)
  {
    var a := front + "_";
    forall i: nat | i < |front| ensures !SepAt(front, i) {
      assert !SepAt(a, i);
    }
    if front != "" { assert !SepAt(a, |front| - 1); }
    assert a + SEP + b == front + SEP + ("_" + b);
    SplitFirst(front, "_" + b);
  }

  // What the service parser makes of the text behind its prefix, part by part.

  function Service(parts: seq<string>): Option<(string, string)>
    requires |parts| >= 2
  {
    var field := parts[|parts| - 1];
    var service := if |parts| >= 3 then parts[|parts| - 2] else parts[0];
    if service == "" || field == "" then None else Some((Decode(service), field))
  }

  lemma SplitPlain(n: string, field: string)
    requires NoSep(n) && !EndsInUnderscore(n) && NoSep(field)
    ensures SplitSep(n + SEP + field) == [n, field]
  {
    SplitFirst(n, field);
    SplitWhole(field);
  }

  lemma SplitUnderscored(front: string, field: string)
    requires NoSep(front + "_") && NoSep("_" + field)
    ensures SplitSep((front + "_") + SEP + field) == [front, "_" + field]
  {
    SplitShifted(front, field);
    SplitWhole("_" + field);
  }

  /** A name part that does not end in an underscore is followed by its field. */
  lemma SplitNameField(n: string, field: string)
    requires IsField(field) && NoSep(n)
    ensures !EndsInUnderscore(n) ==> SplitSep(n + SEP + field) == [n, field]
    ensures EndsInUnderscore(n) ==> SplitSep(n + SEP + field) == [n[..|n| - 1], "_" + field]
  {
    FieldShape(field);
    if EndsInUnderscore(n) {
      assert n == n[..|n| - 1] + "_";
      SplitUnderscored(n[..|n| - 1], field);
    } else {
      SplitPlain(n, field);
    }
  }

  /** The last two parts do not spell the name `n` and the field. */
  predicate Misread(parts: seq<string>, n: string, field: string) {
    |parts| >= 2 && (parts[|parts| - 2] == "" || parts[|parts| - 1] != field || Decode(parts[|parts| - 2]) != Decode(n))
  }

  lemma ShiftedPlain(n: string, field: string)
    requires IsField(field) && NoSep(n) && n != "" && n[0] != '_'
    ensures Misread(SplitSep(("_" + n) + SEP + field), n, field)
  {
    NoSepConcat("_", n);
    SplitNameField("_" + n, field);
    DecodeChar('_', n);
  }

  lemma ShiftedUnderscore(m: string, field: string)
    requires IsField(field) && NoSep(m)
    ensures Misread(SplitSep(SEP + (m + SEP + field)), "_" + m, field)
  {
    assert SEP + (m + SEP + field) == "" + SEP + (m + SEP + field);
    SplitFirst("", m + SEP + field);
    SplitNameField(m, field);
    DecodeChar('_', m);
  }

  /** When the job part took an underscore from the separator, the name is not read back. */
  lemma ShiftedName(n: string, field: string)
    requires IsField(field) && NoSep(n)
    ensures Misread(SplitSep("_" + (n + SEP + field)), n, field)
  {
    Regroup("_", n, SEP, field);
    if n == "" {
      assert "" + SEP == SEP;
    } else if n[0] != '_' {
      ShiftedPlain(n, field);
    } else {
      var m := n[1..];
      NoSepTail(n);
      ShiftedUnderscore(m, field);
      assert n == "_" + m && "_" + n == SEP + m;
      Regroup(SEP, m, SEP, field);
    }
  }

  lemma Regroup(a: string, b: string, c: string, d: string)
    ensures a + (b + c + d) == (a + b) + c + d
  {
    ConcatAssoc(a, b + c, d);
    ConcatAssoc(a, b, c);
  }

  lemma ServiceRecovered(j: string, n: string, field: string)
    requires IsField(field) && NoSep(j) && NoSep(n)
    ensures var parts := SplitSep(j + SEP + (n + SEP + field));
            && |parts| >= 3
            && (Service(parts) == Some((Decode(n), field)) <==>
                n != "" && !EndsInUnderscore(j) && !EndsInUnderscore(n))
  {
    var tail := n + SEP + field;
    if EndsInUnderscore(j) {
      assert j == j[..|j| - 1] + "_";
      SplitShifted(j[..|j| - 1], tail);
      ShiftedName(n, field);
    } else {
      SplitFirst(j, tail);
      SplitNameField(n, field);
    }
  }

  lemma ServiceRead(j: string, n: string, field: string)
    requires |SplitSep(j + SEP + (n + SEP + field))| >= 3
    ensures ParseCIService("ci_service__" + j + SEP + n + SEP + field) == Service(SplitSep(j + SEP + (n + SEP + field)))
  {
    ServiceText(j, n, field);
    var p, rest := "ci_service__", j + SEP + (n + SEP + field);
    assert (p + rest)[|p|..] == rest && p <= p + rest;
  }

  lemma ServiceText(j: string, n: string, field: string)
    ensures "ci_service__" + j + SEP + n + SEP + field == "ci_service__" + (j + SEP + (n + SEP + field))
  {
    Regroup(j + SEP, n, SEP, field);
  }

  /**
   A CI service name and field are recovered exactly when the name is not empty and neither the escaped job nor the
   escaped name ends in an underscore.
   */
  lemma CIServiceRecovered(job: string, name: string, field: string)
    requires IsField(field)
    ensures ParseCIService(CIServiceSource(job, name, field)) == Some((Sanitized(name), field)) <==>
            && name != "" && !EndsInUnderscore(Escape(Sanitized(job))) && !EndsInUnderscore(Escape(Sanitized(name)))
  {
    var j, n := Escape(Sanitized(job)), Escape(Sanitized(name));
    EscapeHidesSep(Sanitized(job));
    EscapeHidesSep(Sanitized(name));
    DecodeEscape(Sanitized(name));
    ServiceRecovered(j, n, field);
    ServiceRead(j, n, field);
  }

  // ---------- Secret sources ----------

  /** Whether a source names secret material: the part behind its last `__` decides, in two name spaces only. */
  predicate IsSecretSource(secret: string -> bool, source: string) {
    ("ci_env__" <= source || "ci_setup__" <= source) &&
    var rest := source[if "ci_env__" <= source then 8 else 10..];
    secret(Decode(match AfterLastSep(rest) case None => rest case Some(key) => key))
  }

  /** A printed environment source is classified by its key, less a lone leading underscore. */
  lemma SecretByKey(secret: string -> bool, scope: string, key: string)
    ensures var k := Sanitized(key);
            IsSecretSource(secret, "ci_env__" + (scope + SEP + Escape(k))) <==>
            secret(if LoneUnderscore(k) then k[1..] else k)
  {
    var rest := scope + SEP + Escape(Sanitized(key));
    LastPart(scope, Sanitized(key));
  }
}

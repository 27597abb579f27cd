/** What caret and tilde ranges mean, and that printed versions read back. */
module VersionLaws {
  import opened Text
  import opened Numbers
  import opened Trimming
  import opened Versions
  import opened VersionRanges

  // ---------------------------------------------------------------------
  // Caret and tilde
  // ---------------------------------------------------------------------

  /** The part of the base that the upper bound of `^base` raises by one. */
  function CaretRaised(base: seq<int>): int {
    if Part(base, 0) > 0 then Part(base, 0) else if |base| > 1 then base[1] else 0
  }

  /** Same major version, or same minor version below 1. */
  predicate SameCaret(a: seq<int>, base: seq<int>) {
    Part(a, 0) == Part(base, 0) && (Part(base, 0) == 0 && |base| > 1 ==> Part(a, 1) == base[1])
  }

  function TildeRaised(base: seq<int>): int
    requires base != []
  {
    if |base| > 1 then base[1] else base[0]
  }

  /** Same major and, when the base writes one, same minor version. */
  predicate SameTilde(a: seq<int>, base: seq<int>) {
    Part(a, 0) == Part(base, 0) && (|base| > 1 ==> Part(a, 1) == base[1])
  }

  predicate InRange(v: seq<int>) {
    forall k | 0 <= k < |v| :: 0 <= v[k] <= MAX_INT
  }

  lemma BelowOne(a: seq<int>, u: int)
    requires Natural(a)
    ensures Compare(a, [u]) < 0 <==> Part(a, 0) < u
  {
    PrefixAgainstOrder(a, [u]);
    assert ComparePrefix(a, [u]) == CompareFrom(a, [u], 0, 1);
  }

  lemma BelowTwo(a: seq<int>, u: int, w: int)
    requires Natural(a)
    ensures Compare(a, [u, w]) < 0 <==> Part(a, 0) < u || (Part(a, 0) == u && Part(a, 1) < w)
  {
    PrefixAgainstOrder(a, [u, w]);
    assert ComparePrefix(a, [u, w]) == CompareFrom(a, [u, w], 0, 2);
    assert CompareFrom(a, [u, w], 1, 2) < 0 <==> Part(a, 1) < w;
  }

  /** At least the base: larger in the first part, or equal there and not smaller in the second. */
  lemma AtLeastBase(a: seq<int>, base: seq<int>)
    requires base != [] && Compare(a, base) >= 0
    ensures Part(a, 0) >= base[0]
    ensures Part(a, 0) == base[0] ==> Part(a, 1) >= Part(base, 1)
  {
    var n := Longest(a, base);
    assert CompareFrom(a, base, 0, n) >= 0;
    if Part(a, 0) == base[0] { assert CompareFrom(a, base, 1, n) >= 0; }
  }

  /** `^base` accepts what is at least the base and shares its leading part, unless raising that part overflows. */
  lemma CaretMeaning(a: seq<int>, base: seq<int>)
    requires InRange(a) && InRange(base) && base != []
    ensures Between(a, base, CaretUpperBound(base))
            <==> Compare(a, base) >= 0 && SameCaret(a, base) && CaretRaised(base) < MAX_INT
  {
    if Compare(a, base) >= 0 {
      AtLeastBase(a, base);
      BelowOne(a, Next(base[0]));
      BelowOne(a, 1);
      if |base| > 1 { BelowTwo(a, 0, Next(base[1])); }
    }
  }

  /** `~base` accepts what is at least the base and shares its major and minor part, unless raising overflows. */
  lemma TildeMeaning(a: seq<int>, base: seq<int>)
    requires InRange(a) && InRange(base) && base != []
    ensures Between(a, base, TildeUpperBound(base))
            <==> Compare(a, base) >= 0 && SameTilde(a, base) && TildeRaised(base) < MAX_INT
  {
    if Compare(a, base) >= 0 {
      AtLeastBase(a, base);
      BelowOne(a, Next(base[0]));
      if |base| > 1 { BelowTwo(a, base[0], Next(base[1])); }
    }
  }

  // ---------------------------------------------------------------------
  // Texts without a minus sign name natural versions
  // ---------------------------------------------------------------------

  /** Every character of `s` is one of `t`. */
  predicate CharsFrom(s: string, t: string) {
    forall k | 0 <= k < |s| :: s[k] in t
  }

  lemma TrimSpaceWithin(s: string)
    ensures CharsFrom(TrimSpace(s), s)
  {
    var i := TrimLeftDrops(s);
    var j := TrimRightKeeps(TrimLeft(s));
  }

  lemma {:induction false} TrimPrefixesWithin(s: string, prefixes: seq<string>)
    ensures CharsFrom(TrimPrefixes(s, prefixes), s)
  {
    if prefixes != [] { TrimPrefixesWithin(TrimPrefix(s, prefixes[0]), prefixes[1..]); }
  }

  lemma {:induction false} TrimWildcardWithin(s: string)
    ensures CharsFrom(TrimWildcard(s), s)
  {
    if s != "" && s[|s| - 1] in {'x', 'X', '*'} { TrimWildcardWithin(s[..|s| - 1]); }
  }

  lemma NormalizedWithin(v: string)
    ensures CharsFrom(Normalized(v), v)
  {
    var a := TrimSpace(v);
    var b := TrimPrefix(TrimPrefix(a, "v"), "go");
    TrimSpaceWithin(v);
    TrimPrefixesWithin(b, PREFIXES);
    TrimSpaceWithin(TrimPrefixes(b, PREFIXES));
  }

  lemma AtoiNatural(s: string)
    requires '-' !in s && Atoi(s).Some?
    ensures Atoi(s).value >= 0
  {
  }

  lemma {:induction false} FieldsNatural(fields: seq<string>)
    requires NoneHas(fields, '-') && ParseFields(fields).Some?
    ensures Natural(ParseFields(fields).value)
  {
    if fields != [] && Field(fields[0]) != "" {
      TrimSpaceWithin(fields[0]);
      TrimWildcardWithin(TrimSpace(fields[0]));
      AtoiNatural(Field(fields[0]));
      FieldsNatural(fields[1..]);
    }
  }

  /** A text without a minus sign names a version of natural parts. */
  lemma ParsedNatural(v: string)
    requires '-' !in v && Parse(v).Some?
    ensures Natural(Parse(v).value)
  {
    NormalizedWithin(v);
    var fields := Split(Normalized(v), '.');
    forall k | 0 <= k < |fields| ensures '-' !in fields[k] {
      SplitChars(Normalized(v), '.', k);
    }
    FieldsNatural(fields);
  }

  lemma {:induction false} FieldsBounded(fields: seq<string>)
    requires ParseFields(fields).Some?
    ensures forall k | 0 <= k < |ParseFields(fields).value| :: ParseFields(fields).value[k] <= MAX_INT
  {
    if fields != [] && Field(fields[0]) != "" { FieldsBounded(fields[1..]); }
  }

  lemma ParsedInRange(v: string)
    requires Parse(v).Some? && Natural(Parse(v).value)
    ensures InRange(Parse(v).value)
  {
    FieldsBounded(Split(Normalized(v), '.'));
  }

  /** The text names a version without negative parts. */
  predicate NamesNatural(v: string) {
    Parse(v).Some? && Natural(Parse(v).value)
  }

  /** What a caret expression says of a version, when neither has a negative part. */
  lemma CaretRange(expr: string, actual: string)
    ensures var e := TrimSpace(expr);
            HasPrefix(e, "^") && NamesNatural(TrimPrefix(e, "^")) && NamesNatural(actual) ==>
              var base, a := Parse(TrimPrefix(e, "^")).value, Parse(actual).value;
              Expression(expr, actual)
              == Verdict(Compare(a, base) >= 0 && SameCaret(a, base) && CaretRaised(base) < MAX_INT, true)
  {
    var e := TrimSpace(expr);
    if HasPrefix(e, "^") && NamesNatural(TrimPrefix(e, "^")) && NamesNatural(actual) {
      ParsedInRange(TrimPrefix(e, "^"));
      ParsedInRange(actual);
      CaretMeaning(Parse(actual).value, Parse(TrimPrefix(e, "^")).value);
    }
  }

  lemma TildeJudged(e: string, base: seq<int>, a: seq<int>)
    requires HasPrefix(e, "~") && !HasPrefix(e, "~>") && Parse(TrimPrefix(e, "~")) == Some(base)
    ensures Judge(e, a) == Verdict(Between(a, base, TildeUpperBound(base)), true)
  {
    assert e[0] == '~';
  }

  /** What a tilde expression says of a version, when neither has a negative part. */
  lemma TildeRange(expr: string, actual: string)
    ensures var e := TrimSpace(expr);
            HasPrefix(e, "~") && !HasPrefix(e, "~>") && NamesNatural(TrimPrefix(e, "~")) && NamesNatural(actual) ==>
              var base, a := Parse(TrimPrefix(e, "~")).value, Parse(actual).value;
              Expression(expr, actual)
              == Verdict(Compare(a, base) >= 0 && SameTilde(a, base) && TildeRaised(base) < MAX_INT, true)
  {
    var e := TrimSpace(expr);
    if HasPrefix(e, "~") && !HasPrefix(e, "~>") && NamesNatural(TrimPrefix(e, "~")) && NamesNatural(actual) {
      ParsedInRange(TrimPrefix(e, "~"));
      ParsedInRange(actual);
      var base, a := Parse(TrimPrefix(e, "~")).value, Parse(actual).value;
      TildeJudged(e, base, a);
      TildeMeaning(a, base);
    }
  }

  // ---------------------------------------------------------------------
  // Printed versions read back
  // ---------------------------------------------------------------------

  function Printed(v: seq<int>): seq<string>
    requires Natural(v)
  {
    if v == [] then [] else [Decimal(v[0])] + Printed(v[1..])
  }

  lemma NoSpaceAtEnds(s: string)
    requires s != "" && IsDigit(s[0]) && IsDigit(s[|s| - 1])
    ensures TrimSpace(s) == s && Normalized(s) == s
  {
    assert !IsSpace(s[0]) && !IsSpace(s[|s| - 1]);
    PrefixesStay(s, PREFIXES);
  }

  lemma {:induction false} PrefixesStay(s: string, prefixes: seq<string>)
    requires s != "" && IsDigit(s[0])
    requires forall k | 0 <= k < |prefixes| :: prefixes[k] != "" && !IsDigit(prefixes[k][0])
    ensures TrimPrefixes(s, prefixes) == s
  {
    if prefixes != [] {
      assert prefixes[0][0] != s[0];
      PrefixesStay(s, prefixes[1..]);
    }
  }

  lemma FieldOfDecimal(n: nat)
    requires n <= MAX_INT
    ensures Field(Decimal(n)) == Decimal(n) && Atoi(Decimal(n)) == Some(n)
  {
    DecimalDigits(n);
    var s := Decimal(n);
    assert IsDigit(s[0]) && IsDigit(s[|s| - 1]);
    NoSpaceAtEnds(s);
  }

  lemma PrintedFirst(n: nat, fields: seq<string>, rest: seq<int>)
    requires n <= MAX_INT && ParseFields(fields) == Some(rest)
    ensures ParseFields([Decimal(n)] + fields) == Some([n] + rest)
  {
    DecimalDigits(n);
    FieldOfDecimal(n);
    assert ([Decimal(n)] + fields)[1..] == fields;
  }

  lemma {:induction false} PrintedFields(v: seq<int>)
    requires InRange(v)
    ensures ParseFields(Printed(v)) == Some(v)
  {
    if v != [] {
      PrintedFields(v[1..]);
      PrintedFirst(v[0], Printed(v[1..]), v[1..]);
      assert [v[0]] + v[1..] == v;
    }
  }

  lemma {:induction false} PrintedShape(v: seq<int>)
    requires Natural(v) && v != []
    ensures |Printed(v)| == |v| && NoneHas(Printed(v), '.')
    ensures var s := Join(Printed(v), "."); s != "" && IsDigit(s[0]) && IsDigit(s[|s| - 1])
  {
    DecimalDigits(v[0]);
    var p := Printed(v);
    assert '.' !in p[0];
    if |v| > 1 {
      PrintedShape(v[1..]);
      assert p[1..] == Printed(v[1..]);
      var s, t := Join(p, "."), Join(p[1..], ".");
      assert s == p[0] + "." + t;
      assert s[0] == p[0][0] && s[|s| - 1] == t[|t| - 1];
      forall k | 0 <= k < |p| ensures '.' !in p[k] {
        if k > 0 { assert p[k] == p[1..][k - 1]; }
      }
    }
  }

  /** A dotted list of numbers parses to those numbers. */
  lemma PrintParse(v: seq<int>)
    requires InRange(v) && v != []
    ensures Parse(Join(Printed(v), ".")) == Some(v)
  {
    var s := Join(Printed(v), ".");
    PrintedShape(v);
    NoSpaceAtEnds(s);
    SplitJoin(Printed(v), '.');
    PrintedFields(v);
    assert s != "*";
  }
}

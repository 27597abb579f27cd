/** Splitting at white space, and reading decimal numbers: `strings.Fields` and `strconv.Atoi`. */
module Numbers {
  import opened Text

  predicate NotSpace(c: char) { !IsSpace(c) }

  /** `strings.Fields` */
  function Fields(s: string): (fields: seq<string>)
    ensures fields != [] ==> 0 < |fields[0]| <= |s|
    decreases |s|
  {
    var i := Run(s, 0, IsSpace);
    if i == |s| then []
    else
      var e := Run(s, i, NotSpace);
      if e == i then [] else [s[i..e]] + Fields(s[e..])
  }

  predicate AllDigits(s: string) {
    forall k | 0 <= k < |s| :: IsDigit(s[k])
  }

  function Value(digits: string): nat
    requires AllDigits(digits)
  {
    if digits == "" then 0
    else
      var last := digits[|digits| - 1];
      assert IsDigit(last);
      10 * Value(digits[..|digits| - 1]) + (last as int - '0' as int)
  }

  /** Go's `int` on the platforms the tool is built for. */
  const MAX_INT: int := 0x7fff_ffff_ffff_ffff
  const MIN_INT: int := -0x8000_0000_0000_0000

  /** `strconv.Atoi`: an optional sign and digits, within 64 bits. */
  function Atoi(s: string): Option<int> {
    var negative := s != "" && s[0] == '-';
    var digits := if negative || (s != "" && s[0] == '+') then s[1..] else s;
    if digits == "" || !AllDigits(digits) then None
    else
      var n: int := Value(digits);
      if negative then (if n <= MAX_INT + 1 then Some(-n) else None)
      else if n <= MAX_INT then Some(n) else None
  }

  /** A number as it is printed. */
  function Decimal(n: nat): string {
    if n < 10 then [('0' as int + n) as char] else Decimal(n / 10) + [('0' as int + n % 10) as char]
  }

  lemma {:induction false} DecimalDigits(n: nat)
    ensures Decimal(n) != "" && AllDigits(Decimal(n)) && Value(Decimal(n)) == n
  {
    if n < 10 {
      assert Decimal(n)[..0] == "";
    } else {
      DecimalDigits(n / 10);
      assert Decimal(n)[..|Decimal(n)| - 1] == Decimal(n / 10);
    }
  }

  // ---------- Words ----------

  predicate IsToken(s: string) {
    s != "" && forall k | 0 <= k < |s| :: !IsSpace(s[k])
  }

  /** A first word is the first field. */
  lemma TokenField(a: string, rest: string)
    requires IsToken(a) && (rest == "" || IsSpace(rest[0]))
    ensures Fields(a + rest) == [a] + Fields(rest)
  {
    var s := a + rest;
    assert forall k | 0 <= k < |a| :: s[k] == a[k];
    RunIs(s, 0, 0, IsSpace);
    RunIs(s, 0, |a|, NotSpace);
    assert s[0..|a|] == a && s[|a|..] == rest;
  }

  lemma WordFirst(s: string, i: nat, e: nat)
    requires i < e <= |s| && Run(s, 0, IsSpace) == i && Run(s, i, NotSpace) == e
    ensures Fields(s) == [s[i..e]] + Fields(s[e..])
  {
  }

  lemma SpaceFirst(s: string, rest: string)
    requires s != "" && s[0] == ' ' && s[1..] == rest
    ensures Fields(s) == Fields(rest)
  {
    var i := Run(rest, 0, IsSpace);
    RunShift(s, 1, 0, IsSpace);
    RunChars(rest, 0, IsSpace);
    if i < |rest| {
      var e := Run(rest, i, NotSpace);
      RunShift(s, 1, i, NotSpace);
      WordFirst(rest, i, e);
      WordFirst(s, 1 + i, 1 + e);
      SameWord(s, rest, i, e);
    }
  }

  lemma SameWord(s: string, rest: string, i: nat, e: nat)
    requires s != "" && s[1..] == rest && i <= e <= |rest|
    ensures s[1 + i..1 + e] == rest[i..e] && s[1 + e..] == rest[e..]
  {
  }

  /** A blank in front of the fields is skipped. */
  lemma SpaceField(rest: string)
    ensures Fields(" " + rest) == Fields(rest)
  {
    SpaceFirst(" " + rest, rest);
  }
}

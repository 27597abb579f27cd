/** What becomes of cookie headers as they are written, and which lines are such headers. */
module CookieLines {
  import opened Text
  import opened Cookies

  // ---------- Values as they are written ----------

  /** A segment of a header: a word, or a name with a value and the blanks behind it. */
  datatype Part = Bare(word: string) | Pair(name: string, value: string, trail: string)

  function PartText(p: Part): string {
    match p
    case Bare(word) => word
    case Pair(name, value, trail) => name + "=" + (value + trail)
  }

  /** No character of the text ends a segment or a line. */
  predicate OneSegment(s: string) {
    ';' !in s && '\r' !in s && '\n' !in s
  }

  predicate ProperPart(p: Part) {
    match p
    case Bare(word) => '=' !in word && OneSegment(word)
    case Pair(name, value, trail) =>
      && '=' !in name && OneSegment(name) && OneSegment(value) && Blanks(trail)
      && (value != "" ==> value[|value| - 1] != ' ' && value[|value| - 1] != '\t')
  }

  predicate ProperParts(parts: seq<Part>) {
    parts != [] && forall k | 0 <= k < |parts| :: ProperPart(parts[k])
  }

  /** The attributes that describe a cookie. */
  const DESCRIBING := [
    "path", "domain", "expires", "max-age", "samesite", "secure", "httponly", "partitioned", "priority", "version",
    "comment", "commenturl", "discard", "port", "sameparty"]

  /** A segment behind the first of a Set-Cookie header, under a describing or a harmless name. */
  predicate Describes(secret: string -> bool, isSetCookie: bool, i: nat, name: string) {
    isSetCookie && i > 0 && (Lower(TrimSpace(name)) in DESCRIBING || !secret(TrimSpace(name)))
  }

  /** What becomes of segment `i`. */
  function Redacted(secret: string -> bool, isSetCookie: bool, i: nat, p: Part): Part {
    match p
    case Bare(_) => p
    case Pair(name, value, trail) => if Describes(secret, isSetCookie, i, name) then p else Pair(name, "<redacted>", trail)
  }

  function RedactedParts(secret: string -> bool, isSetCookie: bool, parts: seq<Part>): (out: seq<Part>)
    ensures |out| == |parts| && forall k | 0 <= k < |parts| :: out[k] == Redacted(secret, isSetCookie, k, parts[k])
  {
    seq(|parts|, k requires 0 <= k < |parts| => Redacted(secret, isSetCookie, k, parts[k]))
  }

  function PartTexts(parts: seq<Part>): (texts: seq<string>)
    ensures |texts| == |parts| && forall k | 0 <= k < |parts| :: texts[k] == PartText(parts[k])
  {
    seq(|parts|, k requires 0 <= k < |parts| => PartText(parts[k]))
  }

  function ValueText(parts: seq<Part>): string {
    Join(PartTexts(parts), ";")
  }

  lemma PairRead(name: string, rest: string)
    requires '=' !in name
    ensures var s := name + "=" + rest; HasValue(s) && Name(s) == name && Value(s) == rest
  {
    var s := name + "=" + rest;
    assert s[|name|] == '=' && forall k | 0 <= k < |name| :: s[k] == name[k];
    RunIs(s, 0, |name|, NotEquals);
  }

  lemma {:induction false} TrailRead(value: string, trail: string)
    requires Blanks(trail) && (value != "" ==> value[|value| - 1] != ' ' && value[|value| - 1] != '\t')
    ensures Core(value + trail) == value && Trailing(value + trail) == trail
  {
    var s := value + trail;
    if trail == "" {
      assert s == value;
    } else {
      var front := trail[..|trail| - 1];
      TrailRead(value, front);
      assert s[..|s| - 1] == value + front && s[|s| - 1] == trail[|trail| - 1];
    }
  }

  lemma AttributesListed(name: string)
    ensures name in ATTRIBUTES <==> name in DESCRIBING
  {
    if name in ATTRIBUTES {
      assert DESCRIBING[0] == "path" && DESCRIBING[1] == "domain" && DESCRIBING[2] == "expires" && DESCRIBING[3] == "max-age";
      assert DESCRIBING[4] == "samesite" && DESCRIBING[5] == "secure" && DESCRIBING[6] == "httponly";
      assert DESCRIBING[7] == "partitioned" && DESCRIBING[8] == "priority" && DESCRIBING[9] == "version";
      assert DESCRIBING[10] == "comment" && DESCRIBING[11] == "commenturl" && DESCRIBING[12] == "discard";
      assert DESCRIBING[13] == "port" && DESCRIBING[14] == "sameparty";
    }
  }

  lemma PartRedacted(secret: string -> bool, isSetCookie: bool, i: nat, p: Part)
    requires ProperPart(p)
    ensures MaskSegment(secret, isSetCookie, i, PartText(p)) == PartText(Redacted(secret, isSetCookie, i, p))
  {
    match p
    case Bare(word) =>
      forall k | 0 <= k < |word| ensures NotEquals(word[k]) {
      }
      RunIs(word, 0, |word|, NotEquals);
    case Pair(name, value, trail) =>
      PairRead(name, value + trail);
      TrailRead(value, trail);
      AttributesListed(Lower(TrimSpace(name)));
      assert name + "=" + MARK + trail == name + "=" + ("<redacted>" + trail);
  }

  lemma PartOneSegment(p: Part)
    requires ProperPart(p)
    ensures OneSegment(PartText(p))
  {
    if p.Pair? {
      assert forall k | 0 <= k < |p.trail| :: p.trail[k] == ' ' || p.trail[k] == '\t';
    }
  }

  /** A written value: names and words stay, and the values under them are redacted, each by its place and its name. */
  lemma ValueRedacted(secret: string -> bool, isSetCookie: bool, parts: seq<Part>)
    requires ProperParts(parts)
    ensures MaskValue(secret, isSetCookie, ValueText(parts)) == ValueText(RedactedParts(secret, isSetCookie, parts))
  {
    var texts := PartTexts(parts);
    forall k | 0 <= k < |texts| ensures ';' !in texts[k] {
      PartOneSegment(parts[k]);
    }
    SplitJoin(texts, ';');
    var out := MaskSegments(secret, isSetCookie, texts);
    forall k | 0 <= k < |texts| ensures out[k] == PartTexts(RedactedParts(secret, isSetCookie, parts))[k] {
      PartRedacted(secret, isSetCookie, k, parts[k]);
    }
    assert out == PartTexts(RedactedParts(secret, isSetCookie, parts));
  }

  // ---------- Headers as they are written ----------

  /** The head of a header: indentation, the name in upper or lower case, and the colon with blanks around it. */
  datatype Head = Head(indent: string, word: string, gap: string, behind: string)

  function HeadText(h: Head): string {
    h.indent + h.word + h.gap + ":" + h.behind
  }

  predicate Named(word: string, name: string) {
    |word| == |name| && forall k | 0 <= k < |name| :: UpperChar(word[k]) == name[k]
  }

  predicate ProperHead(h: Head, isSetCookie: bool) {
    && Blanks(h.indent) && Blanks(h.gap) && Blanks(h.behind)
    && Named(h.word, if isSetCookie then "SET-COOKIE" else "COOKIE")
  }

  /** Indentation and name stand at the start of a line. */
  predicate Starts(h: Head, s: string) {
    |h.indent| + |h.word| <= |s| && s[..|h.indent|] == h.indent && s[|h.indent|..|h.indent| + |h.word|] == h.word
  }

  /** The colon with its blanks stands at `j` in front of `rest`. */
  predicate Colon(h: Head, s: string, j: nat, rest: string) {
    && j + |h.gap| + 1 + |h.behind| + |rest| == |s| && s[j..j + |h.gap|] == h.gap && s[j + |h.gap|] == ':'
    && s[j + |h.gap| + 1..j + |h.gap| + 1 + |h.behind|] == h.behind
    && (rest != "" ==> s[j + |h.gap| + 1 + |h.behind|] == rest[0])
  }

  lemma HeadStands(h: Head, rest: string)
    ensures Starts(h, HeadText(h) + rest) && Colon(h, HeadText(h) + rest, |h.indent| + |h.word|, rest)
  {
  }

  lemma BlankRun(s: string, i: nat, j: nat)
    requires i <= j <= |s| && Blanks(s[i..j]) && (j == |s| || !IsBlank(s[j]))
    ensures Run(s, i, IsBlank) == j
  {
    forall k | i <= k < j ensures IsBlank(s[k]) {
      assert s[k] == s[i..j][k - i];
    }
    RunIs(s, i, j, IsBlank);
  }

  lemma WordRead(s: string, i: nat, word: string, name: string, from: nat, lower: string)
    requires i + |word| <= |s| && s[i..i + |word|] == word && Named(word, name) && from + |lower| <= |name|
    ensures Says(s, i + from, lower) <==> Spells(lower, name, from)
  {
    forall k | i + from <= k < i + from + |lower| ensures UpperChar(s[k]) == name[k - i] {
      assert s[k] == word[k - i];
    }
    if Says(s, i + from, lower) {
      forall k | 0 <= k < |lower| ensures UpperChar(lower[k]) == name[from + k] {
        assert UpperChar(s[i + from + k]) == UpperChar(lower[i + from + k - (i + from)]);
      }
    }
  }

  predicate Spells(lower: string, name: string, from: nat) {
    from + |lower| <= |name| && forall k | 0 <= k < |lower| :: UpperChar(lower[k]) == name[from + k]
  }

  lemma NamesSpelled()
    ensures Spells("set-", "SET-COOKIE", 0) && !Spells("set-", "COOKIE", 0)
    ensures Spells("cookie", "SET-COOKIE", 4) && Spells("cookie", "COOKIE", 0)
  {
    assert UpperChar("set-"[0]) == 'S' != "COOKIE"[0];
  }

  /** A written head in front of a value that starts with no blank is read, and so is which of the two headers it is. */
  lemma HeadRead(h: Head, isSetCookie: bool, rest: string, line: string)
    requires line == HeadText(h) + rest && ProperHead(h, isSetCookie) && (rest != "" ==> rest[0] != ' ' && rest[0] != '\t')
    ensures HeaderOf(line) == Some(Header(|HeadText(h)|, isSetCookie))
  {
    HeadSize(h);
    NameIn(h, isSetCookie, rest, line);
    ColonIn(h, rest, line, |h.indent| + |h.word|, |HeadText(h)|);
    HeaderBy(line, |h.indent|, |h.word|, isSetCookie, |HeadText(h)|);
  }

  lemma ColonIn(h: Head, rest: string, line: string, j: nat, start: nat)
    requires line == HeadText(h) + rest && Blanks(h.gap) && Blanks(h.behind)
    requires rest != "" ==> rest[0] != ' ' && rest[0] != '\t'
    requires j == |h.indent| + |h.word| && start == j + |h.gap| + 1 + |h.behind|
    ensures j <= |line| && ValueAfter(line, j) == Some(start)
  {
    HeadStands(h, rest);
    ColonRead(h, line, j, rest);
  }

  lemma NameIn(h: Head, isSetCookie: bool, rest: string, line: string)
    requires line == HeadText(h) + rest && ProperHead(h, isSetCookie)
    ensures |h.word| == if isSetCookie then 10 else 6
    ensures Run(line, 0, IsBlank) == |h.indent| <= |line| && (Says(line, |h.indent|, "set-") <==> isSetCookie)
    ensures Says(line, |h.indent| + |h.word| - 6, "cookie")
  {
    HeadStands(h, rest);
    NameAt(h, isSetCookie, line);
  }

  lemma HeadSize(h: Head)
    ensures |HeadText(h)| == |h.indent| + |h.word| + |h.gap| + 1 + |h.behind|
  {
  }

  lemma NameAt(h: Head, isSetCookie: bool, line: string)
    requires ProperHead(h, isSetCookie) && Starts(h, line)
    ensures |h.word| == if isSetCookie then 10 else 6
    ensures Run(line, 0, IsBlank) == |h.indent| <= |line| && (Says(line, |h.indent|, "set-") <==> isSetCookie)
    ensures Says(line, |h.indent| + |h.word| - 6, "cookie")
  {
    IndentRead(h, isSetCookie, line);
    NameRead(h.word, isSetCookie, line, |h.indent|);
  }

  lemma IndentRead(h: Head, isSetCookie: bool, s: string)
    requires ProperHead(h, isSetCookie) && Starts(h, s)
    ensures Run(s, 0, IsBlank) == |h.indent|
  {
    var i := |h.indent|;
    assert s[0..i] == h.indent && s[i] == s[i..i + |h.word|][0] == h.word[0];
    assert UpperChar(h.word[0]) == if isSetCookie then 'S' else 'C';
    BlankRun(s, 0, i);
  }

  lemma NameRead(word: string, isSetCookie: bool, s: string, i: nat)
    requires Named(word, if isSetCookie then "SET-COOKIE" else "COOKIE") && i + |word| <= |s| && s[i..i + |word|] == word
    ensures (Says(s, i, "set-") <==> isSetCookie) && Says(s, i + |word| - 6, "cookie")
  {
    NamesSpelled();
    if isSetCookie {
      WordRead(s, i, word, "SET-COOKIE", 0, "set-");
      WordRead(s, i, word, "SET-COOKIE", 4, "cookie");
    } else {
      WordRead(s, i, word, "COOKIE", 0, "set-");
      WordRead(s, i, word, "COOKIE", 0, "cookie");
    }
  }

  lemma ColonRead(h: Head, s: string, j: nat, rest: string)
    requires Blanks(h.gap) && Blanks(h.behind) && Colon(h, s, j, rest)
    requires rest != "" ==> rest[0] != ' ' && rest[0] != '\t'
    ensures ValueAfter(s, j) == Some(j + |h.gap| + 1 + |h.behind|)
  {
    GapRun(h.gap, s, j);
    BehindRun(h, s, j, rest);
    ValueAt(s, j, j + |h.gap|, j + |h.gap| + 1 + |h.behind|);
  }

  lemma GapRun(gap: string, s: string, j: nat)
    requires Blanks(gap) && j + |gap| < |s| && s[j..j + |gap|] == gap && s[j + |gap|] == ':'
    ensures Run(s, j, IsBlank) == j + |gap|
  {
    BlankRun(s, j, j + |gap|);
  }

  lemma BehindRun(h: Head, s: string, j: nat, rest: string)
    requires Blanks(h.behind) && Colon(h, s, j, rest) && (rest != "" ==> rest[0] != ' ' && rest[0] != '\t')
    ensures Run(s, j + |h.gap| + 1, IsBlank) == j + |h.gap| + 1 + |h.behind|
  {
    BlankRun(s, j + |h.gap| + 1, j + |h.gap| + 1 + |h.behind|);
  }

  lemma ValueAt(s: string, j: nat, k: nat, v: nat)
    requires j <= k < |s| && Run(s, j, IsBlank) == k && s[k] == ':' && Run(s, k + 1, IsBlank) == v
    ensures ValueAfter(s, j) == Some(v)
  {
  }

  lemma HeaderBy(s: string, i: nat, n: nat, isSetCookie: bool, start: nat)
    requires Run(s, 0, IsBlank) == i <= |s| && (Says(s, i, "set-") <==> isSetCookie) && n == if isSetCookie then 10 else 6
    requires Says(s, i + n - 6, "cookie") && ValueAfter(s, i + n) == Some(start)
    ensures HeaderOf(s) == Some(Header(start, isSetCookie))
  {
    CookieStart(s, i, isSetCookie);
    HeaderFrom(s, i + n - 6, start);
  }

  lemma CookieStart(s: string, i: nat, isSetCookie: bool)
    requires Run(s, 0, IsBlank) == i && (Says(s, i, "set-") <==> isSetCookie)
    ensures CookieAt(s) == if isSetCookie then i + 4 else i
  {
  }

  lemma HeaderFrom(s: string, j: nat, start: nat)
    requires CookieAt(s) == j && Says(s, j, "cookie") && ValueAfter(s, j + 6) == Some(start)
    ensures HeaderOf(s) == Some(Header(start, j != Run(s, 0, IsBlank)))
  {
  }

  // ---------- Lines and texts ----------

  /** The value reaches to the end of the line, or to a carriage return. */
  predicate IsEnding(ending: string) {
    ending == "" || ending[0] == '\r'
  }

  predicate StartsPlain(value: string) {
    value != "" && value[0] != ' ' && value[0] != '\t'
  }

  lemma {:induction false} PartsOneLine(parts: seq<Part>)
    requires ProperParts(parts)
    ensures '\r' !in ValueText(parts)
  {
    PartOneSegment(parts[0]);
    var texts := PartTexts(parts);
    if |parts| > 1 {
      assert PartTexts(parts[1..]) == texts[1..];
      PartsOneLine(parts[1..]);
      assert ValueText(parts) == texts[0] + ";" + ValueText(parts[1..]);
    }
  }

  /** A header line: its head stays, its value is redacted part by part, and so does what follows a carriage return. */
  lemma HeaderRedacted(secret: string -> bool, h: Head, isSetCookie: bool, parts: seq<Part>, ending: string)
    requires ProperHead(h, isSetCookie) && ProperParts(parts) && StartsPlain(ValueText(parts)) && IsEnding(ending)
    ensures MaskLine(secret, HeadText(h) + (ValueText(parts) + ending)) ==
            HeadText(h) + (ValueText(RedactedParts(secret, isSetCookie, parts)) + ending)
  {
    var value := ValueText(parts);
    assert (value + ending)[0] == value[0];
    HeadRead(h, isSetCookie, value + ending, HeadText(h) + (value + ending));
    PartsOneLine(parts);
    ValueRedacted(secret, isSetCookie, parts);
    LineBy(secret, HeadText(h), value, ending, isSetCookie, ValueText(RedactedParts(secret, isSetCookie, parts)));
  }

  /** A header without a value stays. */
  lemma EmptyHeaderStays(secret: string -> bool, h: Head, isSetCookie: bool, ending: string)
    requires ProperHead(h, isSetCookie) && IsEnding(ending)
    ensures MaskLine(secret, HeadText(h) + ending) == HeadText(h) + ending
  {
    var line := HeadText(h) + ending;
    HeadRead(h, isSetCookie, ending, line);
    assert ending != "" ==> line[|HeadText(h)|] == ending[0];
    RunIs(line, |HeadText(h)|, |HeadText(h)|, NotReturn);
  }

  lemma LineBy(secret: string -> bool, head: string, value: string, ending: string, isSetCookie: bool, out: string)
    requires HeaderOf(head + (value + ending)) == Some(Header(|head|, isSetCookie)) && value != "" && '\r' !in value
    requires IsEnding(ending) && MaskValue(secret, isSetCookie, value) == out
    ensures MaskLine(secret, head + (value + ending)) == head + (out + ending)
  {
    ConcatAssoc(head, value, ending);
    ConcatAssoc(head, out, ending);
    MaskLineParts(secret, head, value, ending, isSetCookie);
  }

  /** The line starts like a cookie header. */
  ghost predicate IsHeader(line: string) {
    exists h, isSetCookie, rest :: ProperHead(h, isSetCookie) && line == HeadText(h) + rest
  }

  lemma WordFound(line: string, i: nat, name: string, from: nat, lower: string)
    requires Says(line, i + from, lower) && Spells(lower, name, from) && i + |name| <= |line|
    ensures forall k | from <= k < from + |lower| :: UpperChar(line[i..i + |name|][k]) == name[k]
  {
    forall k | from <= k < from + |lower| ensures UpperChar(line[i..i + |name|][k]) == name[k] {
      assert UpperChar(line[i + k]) == UpperChar(lower[i + k - (i + from)]);
      assert UpperChar(lower[k - from]) == name[from + (k - from)];
    }
  }

  lemma HeadFound(line: string) returns (h: Head, isSetCookie: bool, rest: string)
    requires HeaderOf(line).Some?
    ensures ProperHead(h, isSetCookie) && line == HeadText(h) + rest
  {
    var i := Run(line, 0, IsBlank);
    isSetCookie := Says(line, i, "set-");
    var n := if isSetCookie then 10 else 6;
    var k := Run(line, i + n, IsBlank);
    var v := HeaderOf(line).value.start;
    WordIs(line, i, isSetCookie);
    h := Head(line[..i], line[i..i + n], line[i + n..k], line[k + 1..v]);
    rest := line[v..];
    RunsBlank(line, i, i + n, k, v);
    LineParts(line, i, i + n, k, v);
  }

  lemma WordIs(line: string, i: nat, isSetCookie: bool)
    requires isSetCookie == Says(line, i, "set-") && Says(line, if isSetCookie then i + 4 else i, "cookie")
    ensures i + (if isSetCookie then 10 else 6) <= |line|
    ensures if isSetCookie then Named(line[i..i + 10], "SET-COOKIE") else Named(line[i..i + 6], "COOKIE")
  {
    NamesSpelled();
    if isSetCookie {
      WordFound(line, i, "SET-COOKIE", 0, "set-");
      WordFound(line, i, "SET-COOKIE", 4, "cookie");
    } else {
      WordFound(line, i, "COOKIE", 0, "cookie");
    }
  }

  lemma RunsBlank(line: string, i: nat, j: nat, k: nat, v: nat)
    requires i <= j <= k < v <= |line|
    requires i == Run(line, 0, IsBlank) && k == Run(line, j, IsBlank) && v == Run(line, k + 1, IsBlank)
    ensures Blanks(line[..i]) && Blanks(line[j..k]) && Blanks(line[k + 1..v])
  {
    RunChars(line, 0, IsBlank);
    RunChars(line, j, IsBlank);
    RunChars(line, k + 1, IsBlank);
  }

  lemma LineParts(line: string, i: nat, j: nat, k: nat, v: nat)
    requires i <= j <= k < v <= |line| && line[k] == ':'
    ensures line == line[..i] + line[i..j] + line[j..k] + ":" + line[k + 1..v] + line[v..]
  {
  }

  /** Any other line stays. */
  lemma OtherStays(secret: string -> bool, line: string)
    requires !IsHeader(line)
    ensures MaskLine(secret, line) == line
  {
    if HeaderOf(line).Some? {
      var h, isSetCookie, rest := HeadFound(line);
    }
  }

  lemma OneByOne(secret: string -> bool, first: string, rest: seq<string>)
    ensures MaskLines(secret, [first] + rest) == [MaskLine(secret, first)] + MaskLines(secret, rest)
  {
  }

  /** The lines of a text are redacted one by one. */
  lemma TextByLines(secret: string -> bool, first: string, rest: string)
    requires '\n' !in first
    ensures MaskText(secret, first) == MaskLine(secret, first)
    ensures MaskText(secret, first + "\n" + rest) == MaskLine(secret, first) + "\n" + MaskText(secret, rest)
  {
    SplitNone(first, '\n');
    assert MaskLines(secret, [first]) == [MaskLine(secret, first)];
    SplitHead(first, '\n', rest);
    OneByOne(secret, first, Split(rest, '\n'));
    JoinConcat([MaskLine(secret, first)], MaskLines(secret, Split(rest, '\n')), "\n");
  }
}

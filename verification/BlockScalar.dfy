/** The YAML block-scalar rule of the redaction engine, over whole texts. */
module BlockScalar {
  import opened Text
  import opened BlockTree

  // ---------- Line classification ----------

  predicate IsKeyStart(c: char) { 'a' <= c <= 'z' || 'A' <= c <= 'Z' || c == '_' }

  predicate IsKeyChar(c: char) { IsKeyStart(c) || IsDigit(c) || c == '.' || c == '-' }

  predicate IsQuote(c: char) { c == '\'' || c == '"' }

  predicate IsIndicatorChar(c: char) { IsDigit(c) || c == '+' || c == '-' }

  /** Skips a run of sequence dashes, each followed by at least one blank. */
  function Dashes(s: string, i: nat): (j: nat)
    requires i <= |s|
    ensures i <= j <= |s|
    decreases |s| - i
  {
    if i + 1 < |s| && s[i] == '-' && IsBlank(s[i + 1]) then Dashes(s, Run(s, i + 1, IsBlank)) else i
  }

  function SkipQuote(s: string, i: nat): (j: nat)
    requires i <= |s|
    ensures i <= j <= |s|
  {
    if i < |s| && IsQuote(s[i]) then i + 1 else i
  }

  /** Where the key of a mapping entry would start: after indentation, sequence dashes and an opening quote. */
  function LeadEnd(s: string): (j: nat)
    ensures j <= |s|
  {
    SkipQuote(s, Dashes(s, Run(s, 0, IsBlank)))
  }

  /** Positions of a mapping entry: the key is `s[key..keyEnd]`, the colon is at `colon`. */
  datatype Entry = Entry(key: nat, keyEnd: nat, colon: nat)

  /** The text `s` opens a mapping entry. */
  function MappingEntry(s: string): (e: Option<Entry>)
    ensures e.Some? ==> e.value.key < e.value.keyEnd <= e.value.colon < |s|
    ensures e.Some? ==> s[e.value.colon] == ':' && IsKeyStart(s[e.value.key])
  {
    var key := LeadEnd(s);
    if key < |s| && IsKeyStart(s[key]) then
      var keyEnd := Run(s, key + 1, IsKeyChar);
      var colon := Run(s, SkipQuote(s, keyEnd), IsBlank);
      if colon < |s| && s[colon] == ':' then Some(Entry(key, keyEnd, colon)) else None
    else None
  }

  /** The parts of a header line: the text through the blanks after the colon, the text before the key, the key. */
  datatype Match = Match(prefix: string, lead: string, key: string)

  /** A mapping entry whose value is a block-scalar indicator and nothing else but a comment. */
  function HeaderOf(body: string): Option<Match> {
    match MappingEntry(body)
    case None => None
    case Some(e) => BlockValue(body, e)
  }

  /** The value behind the colon of an entry is a block-scalar indicator. */
  function BlockValue(body: string, e: Entry): Option<Match>
    requires e.key <= e.keyEnd <= e.colon < |body|
  {
    var v := Run(body, e.colon + 1, IsBlank);
    if v < |body| && (body[v] == '|' || body[v] == '>') then
      var tail := Run(body, Run(body, v + 1, IsIndicatorChar), IsBlank);
      if tail == |body| || (body[tail] == '#' && '\n' !in body[tail..]) then
        Some(Match(body[..v], body[..e.key], body[e.key..e.keyEnd]))
      else None
    else None
  }

  /** Splits a trailing carriage return off a line. */
  function TrimCR(line: string): (string, string) {
    if HasSuffix(line, "\r") then (line[..|line| - 1], "\r") else (line, "")
  }

  function IndentWidth(line: string): nat {
    if line == "" then 0
    else if line[0] == ' ' then 1 + IndentWidth(line[1..])
    else if line[0] == '\t' then 8 + IndentWidth(line[1..])
    else 0
  }

  function DisplayWidth(prefix: string): nat {
    if prefix == "" then 0
    else (if prefix[0] == '\t' then 8 else 1) + DisplayWidth(prefix[1..])
  }

  function LeadingWhitespace(line: string): string {
    line[..Run(line, 0, IsBlank)]
  }

  // ---------- PEM private key markers ----------

  predicate IsUpperOrSpace(c: char) { 'A' <= UpperChar(c) <= 'Z' || c == ' ' }

  /** `----` at i, `BEGIN ` at b, `PRIVATE KEY` at p, `----` at q, with only the permitted text between them. */
  predicate PemAt(s: string, i: nat, b: nat, p: nat, q: nat) {
    && i < b < p < q
    && Says(s, i, "----")
    && (b == i + 4 || (b == i + 5 && Says(s, i + 4, " ")))
    && Says(s, b, "BEGIN ")
    && b + 6 <= p
    && Says(s, p, "PRIVATE KEY")
    && (forall k | b + 6 <= k < p :: IsUpperOrSpace(s[k]) || IsDigit(s[k]))
    && p + 11 <= q
    && Says(s, q, "----")
    && (forall k | p + 11 <= k < q :: IsUpperOrSpace(s[k]))
  }

  predicate PemMarker(s: string) {
    exists i: nat, b: nat, p: nat, q: nat | i < |s| && b < |s| && p < |s| && q < |s| :: PemAt(s, i, b, p, q)
  }

  // ---------- The rule ----------

  /** What the rule asks about a line. */
  function Classify(line: string): Line {
    var (body, ending) := TrimCR(line);
    Line(line, AllSpace(body), IndentWidth(body), '\t' in LeadingWhitespace(body),
         MappingEntry(body).Some?, PemMarker(line),
         match HeaderOf(body)
         case None => None
         case Some(m) => Some(Head(m.key, DisplayWidth(m.lead), IndentWidth(body), '\t' in m.lead,
                                   m.prefix + MARK + ending)))
  }

  function Classified(lines: seq<string>): (ls: seq<Line>)
    ensures |ls| == |lines|
  {
    if lines == [] then [] else [Classify(lines[0])] + Classified(lines[1..])
  }

  lemma {:induction false} ClassifiedAt(lines: seq<string>, k: nat)
    requires k < |lines|
    ensures Classified(lines)[k] == Classify(lines[k])
  {
    if k > 0 {
      ClassifiedAt(lines[1..], k - 1);
    }
  }

  lemma {:induction false} ClassifiedIs(lines: seq<string>, ls: seq<Line>)
    requires |lines| == |ls| && forall k | 0 <= k < |ls| :: ls[k] == Classify(lines[k])
    ensures Classified(lines) == ls
  {
    if lines != [] {
      ClassifiedIs(lines[1..], ls[1..]);
    }
  }

  function Texts(ls: seq<Line>): (lines: seq<string>)
    ensures |lines| == |ls| && forall k | 0 <= k < |ls| :: lines[k] == ls[k].text
  {
    seq(|ls|, k requires 0 <= k < |ls| => ls[k].text)
  }

  /** The rule over a text: its lines are classified, rewritten and joined again. */
  function RedactText(secret: string -> bool, input: string): string {
    Join(Texts(Redact(secret, Classified(Split(input, '\n')))), "\n")
  }

  // ---------- A masked header ----------

  lemma {:induction false} DashesLocal(s: string, t: string, i: nat, n: nat)
    requires Agree(s, t, n) && i <= n
    requires Dashes(s, i) < n && s[Dashes(s, i)] != '-'
    ensures Dashes(t, i) == Dashes(s, i)
    decreases |s| - i
  {
    if i + 1 < |s| && s[i] == '-' && IsBlank(s[i + 1]) {
      RunLocal(s, t, i + 1, n, IsBlank);
      DashesLocal(s, t, Run(s, i + 1, IsBlank), n);
    }
  }

  lemma LeadEndLocal(s: string, t: string, n: nat)
    requires Agree(s, t, n)
    requires LeadEnd(s) < n && s[LeadEnd(s)] != '-' && !IsQuote(s[LeadEnd(s)])
    ensures LeadEnd(t) == LeadEnd(s)
  {
    RunLocal(s, t, 0, n, IsBlank);
    DashesLocal(s, t, Run(s, 0, IsBlank), n);
  }

  /** Whether and where a line opens a mapping entry is decided by its text up to the colon. */
  lemma MappingEntryLocal(s: string, t: string)
    requires MappingEntry(s).Some? && Agree(s, t, MappingEntry(s).value.colon + 1)
    ensures MappingEntry(t) == MappingEntry(s)
  {
    var Entry(key, keyEnd, colon) := MappingEntry(s).value;
    LeadEndLocal(s, t, colon + 1);
    RunLocal(s, t, key + 1, colon + 1, IsKeyChar);
    assert SkipQuote(s, keyEnd) == SkipQuote(t, keyEnd);
    RunLocal(s, t, SkipQuote(s, keyEnd), colon + 1, IsBlank);
  }

  lemma {:induction false} DisplayWidthConcat(a: string, b: string)
    ensures DisplayWidth(a + b) == DisplayWidth(a) + DisplayWidth(b)
  {
    if a == "" {
      assert a + b == b;
    } else {
      assert (a + b)[1..] == a[1..] + b;
      DisplayWidthConcat(a[1..], b);
    }
  }

  lemma {:induction false} IndentIsDisplay(s: string)
    ensures IndentWidth(s) == DisplayWidth(LeadingWhitespace(s))
  {
    if s != "" && IsBlank(s[0]) {
      var r := Run(s[1..], 0, IsBlank);
      RunChars(s[1..], 0, IsBlank);
      RunIs(s, 0, r + 1, IsBlank);
      assert s[..r + 1][1..] == s[1..][..r];
      IndentIsDisplay(s[1..]);
    }
  }

  lemma LeadParts(body: string)
    requires HeaderOf(body).Some?
    ensures var lead, a := HeaderOf(body).value.lead, Run(body, 0, IsBlank);
            a <= |lead| <= |body| && lead == body[..a] + body[a..|lead|]
  {
  }

  /** A header's key column is never left of its own indentation. */
  lemma HeaderColumn(body: string)
    requires HeaderOf(body).Some?
    ensures IndentWidth(body) <= DisplayWidth(HeaderOf(body).value.lead)
  {
    var lead := HeaderOf(body).value.lead;
    var a := Run(body, 0, IsBlank);
    IndentIsDisplay(body);
    LeadParts(body);
    DisplayWidthConcat(body[..a], body[a..|lead|]);
  }

  lemma SameIndent(s: string, t: string, n: nat)
    requires Agree(s, t, n) && Run(s, 0, IsBlank) < n
    ensures IndentWidth(t) == IndentWidth(s) && LeadingWhitespace(t) == LeadingWhitespace(s)
  {
    RunLocal(s, t, 0, n, IsBlank);
    assert LeadingWhitespace(t) == LeadingWhitespace(s);
    IndentIsDisplay(s);
    IndentIsDisplay(t);
  }

  /** The text of a masked header, up to the marker, is read as before. */
  lemma MaskedEntry(body: string)
    requires HeaderOf(body).Some?
    ensures var v := |HeaderOf(body).value.prefix|;
            var m := HeaderOf(body).value.prefix + MARK;
            && v < |body| && Agree(body, m, v) && m[v] == '<' && MappingEntry(body).value.colon < v
            && Run(body, MappingEntry(body).value.colon + 1, IsBlank) == v
            && MappingEntry(m) == MappingEntry(body)
  {
    var v := |HeaderOf(body).value.prefix|;
    var m := body[..v] + MARK;
    assert Agree(body, m, v);
    MappingEntryLocal(body, m);
  }

  lemma NotIndicated(m: string, v: nat)
    requires MappingEntry(m).Some? && v < |m| && m[v] == '<' && Run(m, MappingEntry(m).value.colon + 1, IsBlank) == v
    ensures HeaderOf(m).None?
  {
  }

  /** A masked header is not a header any more, but keeps its indentation and still opens a mapping entry. */
  lemma MaskedBody(body: string)
    requires HeaderOf(body).Some?
    ensures var m := HeaderOf(body).value.prefix + MARK;
            && HeaderOf(m).None? && MappingEntry(m).Some? && !AllSpace(m)
            && IndentWidth(m) == IndentWidth(body) && LeadingWhitespace(m) == LeadingWhitespace(body)
  {
    var v := |HeaderOf(body).value.prefix|;
    var m := HeaderOf(body).value.prefix + MARK;
    MaskedEntry(body);
    SameBlanks(body, m, MappingEntry(body).value.colon + 1, v);
    NotIndicated(m, v);
    BlanksBefore(body);
    SameIndent(body, m, v);
    NotBlank(m, v);
  }

  /** The indentation ends before the prefix of a header does. */
  lemma BlanksBefore(body: string)
    requires HeaderOf(body).Some?
    ensures Run(body, 0, IsBlank) < |HeaderOf(body).value.prefix|
  {
  }

  lemma NotBlank(s: string, v: nat)
    requires v < |s| && s[v] == '<'
    ensures !AllSpace(s)
  {
    assert !IsSpace(s[v]);
  }

  lemma SameBlanks(s: string, t: string, i: nat, v: nat)
    requires i <= v < |t| && Agree(s, t, v) && Run(s, i, IsBlank) == v && !IsBlank(t[v])
    ensures Run(t, i, IsBlank) == v
  {
    RunChars(s, i, IsBlank);
    RunIs(t, i, v, IsBlank);
  }

  lemma MaskEnding(prefix: string, ending: string)
    requires ending == "" || ending == "\r"
    ensures TrimCR(prefix + MARK + ending) == (prefix + MARK, ending)
  {
    var m := prefix + MARK + ending;
    if ending == "\r" {
      assert m[|m| - 1..] == "\r";
      assert m[..|m| - 1] == prefix + MARK;
    } else {
      assert m == prefix + MARK;
      assert m[|m| - 1] == '>';
    }
  }

  // ---------- Key material in a body ----------

  lemma EntryShape(s: string)
    requires MappingEntry(s).Some?
    ensures var e := MappingEntry(s).value;
            && (forall k | 0 <= k < e.key :: IsBlank(s[k]) || s[k] == '-' || IsQuote(s[k]))
            && (forall k | e.key <= k < e.keyEnd :: IsKeyChar(s[k]))
            && (forall k | e.keyEnd <= k < e.colon :: IsBlank(s[k]) || IsQuote(s[k]))
  {
    var e := MappingEntry(s).value;
    RunChars(s, 0, IsBlank);
    DashesChars(s, Run(s, 0, IsBlank));
    RunChars(s, e.key + 1, IsKeyChar);
    RunChars(s, SkipQuote(s, e.keyEnd), IsBlank);
  }

  lemma {:induction false} DashesChars(s: string, i: nat)
    requires i <= |s|
    ensures forall k | i <= k < Dashes(s, i) :: IsBlank(s[k]) || s[k] == '-'
    decreases |s| - i
  {
    if i + 1 < |s| && s[i] == '-' && IsBlank(s[i + 1]) {
      RunChars(s, i + 1, IsBlank);
      DashesChars(s, Run(s, i + 1, IsBlank));
    }
  }

  predicate IsMarkerChar(c: char) { c == '-' || IsUpperOrSpace(c) || IsDigit(c) }

  lemma PemChars(s: string, i: nat, b: nat, p: nat, q: nat)
    requires PemAt(s, i, b, p, q)
    ensures forall k | i <= k < q + 4 :: IsMarkerChar(s[k])
  {
    forall k | i <= k < q + 4 ensures IsMarkerChar(s[k]) {
      if i <= k < i + 4 {
      } else if k < b {
      } else if k < b + 6 {
      } else if k < p {
      } else if k < p + 11 {
      }
    }
  }

  /** No marker fits on a line shaped like a masked header: its words cannot lie around the colon. */
  lemma ShapeHasNoMarker(m: string, e: Entry, v: nat)
    requires e.key < e.keyEnd <= e.colon < v <= |m| && m[e.colon] == ':'
    requires forall k | 0 <= k < e.key :: IsBlank(m[k]) || m[k] == '-' || IsQuote(m[k])
    requires forall k | e.key <= k < e.keyEnd :: IsKeyChar(m[k])
    requires forall k | e.keyEnd <= k < e.colon :: IsBlank(m[k]) || IsQuote(m[k])
    requires forall k | e.colon < k < v :: IsBlank(m[k])
    requires forall k | v <= k < |m| :: m[k] != ' '
    ensures !PemMarker(m)
  {
    forall i: nat, b: nat, p: nat, q: nat | i < |m| && b < |m| && p < |m| && q < |m|
      ensures !PemAt(m, i, b, p, q)
    {
      if PemAt(m, i, b, p, q) {
        PemChars(m, i, b, p, q);
        PemWords(m, i, b, p, q);
        assert false;
      }
    }
  }

  /** A masked header holds no key marker, whatever its key spells. */
  lemma MaskHasNoMarker(body: string, ending: string)
    requires HeaderOf(body).Some? && (ending == "" || ending == "\r")
    ensures !PemMarker(HeaderOf(body).value.prefix + MARK + ending)
  {
    var v := |HeaderOf(body).value.prefix|;
    var e := MappingEntry(body).value;
    EntryShape(body);
    RunChars(body, e.colon + 1, IsBlank);
    SpaceFree(MARK + ending);
    var m := body[..v] + (MARK + ending);
    assert m == HeaderOf(body).value.prefix + MARK + ending;
    assert Agree(body, m, v);
    assert forall k | v <= k < |m| :: m[k] == (MARK + ending)[k - v];
    ShapeHasNoMarker(m, e, v);
  }

  lemma SpaceFree(s: string)
    requires s == MARK || s == MARK + "\r"
    ensures ' ' !in s
  {
  }

  lemma PemWords(s: string, i: nat, b: nat, p: nat, q: nat)
    requires PemAt(s, i, b, p, q)
    ensures 'A' <= UpperChar(s[b]) <= 'Z' && s[b + 5] == ' ' && 'A' <= UpperChar(s[p]) <= 'Z'
  {
    assert UpperChar(s[b]) == "BEGIN "[0] && UpperChar(s[b + 5]) == "BEGIN "[5] && UpperChar(s[p]) == "PRIVATE KEY"[0];
  }

  /** The text `t` stands at `x` in `s`. */
  predicate Stands(s: string, t: string, x: nat) {
    x + |t| <= |s| && forall k | 0 <= k < |t| :: t[k] == s[x + k]
  }

  lemma SaysShift(s: string, t: string, x: nat, i: nat, word: string)
    requires Stands(s, t, x) && i + |word| <= |t|
    ensures Says(s, x + i, word) <==> Says(t, i, word)
  {
    if Says(t, i, word) {
      forall k | x + i <= k < x + i + |word| ensures UpperChar(s[k]) == UpperChar(word[k - x - i]) {
        assert t[k - x] == s[x + (k - x)];
      }
    }
    if Says(s, x + i, word) {
      forall k | i <= k < i + |word| ensures UpperChar(t[k]) == UpperChar(word[k - i]) {
        assert t[k] == s[x + k];
      }
    }
  }

  predicate Between(s: string, from: nat, to: nat, digits: bool) {
    forall k | from <= k < to && k < |s| :: IsUpperOrSpace(s[k]) || (digits && IsDigit(s[k]))
  }

  lemma BetweenShift(s: string, t: string, x: nat, from: nat, to: nat, digits: bool)
    requires Stands(s, t, x) && to <= |t|
    ensures Between(s, x + from, x + to, digits) <==> Between(t, from, to, digits)
  {
    if Between(s, x + from, x + to, digits) {
      forall k | from <= k < to ensures IsUpperOrSpace(t[k]) || (digits && IsDigit(t[k])) {
        assert t[k] == s[x + k];
      }
    }
    if Between(t, from, to, digits) {
      forall k | x + from <= k < x + to ensures IsUpperOrSpace(s[k]) || (digits && IsDigit(s[k])) {
        assert t[k - x] == s[x + (k - x)];
      }
    }
  }

  /** A marker of a text is a marker of any text it stands in, at the shifted place, and the other way round. */
  lemma PemShift(s: string, t: string, x: nat, i: nat, b: nat, p: nat, q: nat)
    requires Stands(s, t, x) && i < b < p < q && b + 6 <= p && p + 11 <= q && q + 4 <= |t|
    ensures PemAt(t, i, b, p, q) <==> PemAt(s, x + i, x + b, x + p, x + q)
  {
    SaysShift(s, t, x, i, "----");
    if b == i + 5 { SaysShift(s, t, x, i + 4, " "); }
    SaysShift(s, t, x, b, "BEGIN ");
    SaysShift(s, t, x, p, "PRIVATE KEY");
    SaysShift(s, t, x, q, "----");
    BetweenShift(s, t, x, b + 6, p, true);
    BetweenShift(s, t, x, p + 11, q, false);
  }

  /** A marker inside a slice of a text is a marker of that slice. */
  lemma PemWithin(s: string, x: nat, y: nat, i: nat, b: nat, p: nat, q: nat)
    requires x <= i && q + 4 <= y <= |s| && PemAt(s, i, b, p, q)
    ensures PemMarker(s[x..y])
  {
    PemShift(s, s[x..y], x, i - x, b - x, p - x, q - x);
    assert PemAt(s[x..y], i - x, b - x, p - x, q - x);
  }

  /** A marker of a slice is a marker of the text. */
  lemma PemExtends(s: string, t: string, x: nat)
    requires Stands(s, t, x) && PemMarker(t)
    ensures PemMarker(s)
  {
    var i: nat, b: nat, p: nat, q: nat :| i < |t| && b < |t| && p < |t| && q < |t| && PemAt(t, i, b, p, q);
    PemShift(s, t, x, i, b, p, q);
    assert PemAt(s, x + i, x + b, x + p, x + q);
  }

  /** A marker lies on one line, so a joined body has one exactly when one of its lines does. */
  lemma {:induction false} PemJoin(lines: seq<string>)
    requires NoneHas(lines, '\n')
    ensures PemMarker(Join(lines, "\n")) <==> AnyMarker(PemMarker, lines)
  {
    if |lines| > 1 {
      var rest := lines[1..];
      assert forall k | 0 <= k < |rest| :: rest[k] == lines[k + 1];
      PemJoin(rest);
      PemJoinTwo(lines[0], Join(rest, "\n"));
      AnyMarkerCons(PemMarker, lines);
    }
  }

  predicate AnyMarker(marked: string -> bool, lines: seq<string>) {
    exists k | 0 <= k < |lines| :: marked(lines[k])
  }

  lemma AnyMarkerCons(marked: string -> bool, lines: seq<string>)
    requires lines != []
    ensures AnyMarker(marked, lines) <==> marked(lines[0]) || AnyMarker(marked, lines[1..])
  {
    var rest := lines[1..];
    if AnyMarker(marked, rest) {
      var k :| 0 <= k < |rest| && marked(rest[k]);
      assert marked(lines[k + 1]);
    }
    if AnyMarker(marked, lines) && !marked(lines[0]) {
      var k :| 0 <= k < |lines| && marked(lines[k]);
      assert marked(rest[k - 1]);
    }
  }

  lemma MarkersAgree(marked: string -> bool, body: seq<string>, ls: seq<Line>)
    requires |body| == |ls| && forall k | 0 <= k < |ls| :: ls[k].marker == marked(body[k])
    ensures AnyMarker(marked, body) <==> HasMarker(ls)
  {
    if AnyMarker(marked, body) {
      var k :| 0 <= k < |body| && marked(body[k]);
      assert ls[k].marker;
    }
  }

  /** A marker does not reach over a line break. */
  lemma PemOneLine(s: string, n: nat)
    requires n < |s| && s[n] == '\n' && PemMarker(s)
    ensures PemMarker(s[0..n]) || PemMarker(s[n + 1..|s|])
  {
    var i: nat, b: nat, p: nat, q: nat :| i < |s| && b < |s| && p < |s| && q < |s| && PemAt(s, i, b, p, q);
    PemChars(s, i, b, p, q);
    if q + 4 <= n {
      PemWithin(s, 0, n, i, b, p, q);
    } else {
      PemWithin(s, n + 1, |s|, i, b, p, q);
    }
  }

  lemma PemJoinTwo(line: string, tail: string)
    requires '\n' !in line
    ensures PemMarker(line + "\n" + tail) <==> PemMarker(line) || PemMarker(tail)
  {
    var s, n := line + "\n" + tail, |line|;
    assert s[0..n] == line && s[n + 1..|s|] == tail && s[n] == '\n';
    assert Stands(s, line, 0) && Stands(s, tail, n + 1);
    if PemMarker(line) { PemExtends(s, line, 0); }
    if PemMarker(tail) { PemExtends(s, tail, n + 1); }
    if PemMarker(s) { PemOneLine(s, n); }
  }

  // ---------- From lines to texts ----------

  lemma ClassifySound(line: string)
    ensures Sound(Classify(line))
  {
    var body := TrimCR(line).0;
    if HeaderOf(body).Some? {
      HeaderColumn(body);
      assert body[MappingEntry(body).value.colon] == ':';
    }
  }

  /** Reading a replaced header line back gives what the rule takes it to be. */
  lemma ClassifyMask(line: string)
    requires Classify(line).head.Some?
    ensures Classify(Classify(line).head.value.replacement) == Mask(Classify(line))
  {
    var (body, ending) := TrimCR(line);
    var prefix := HeaderOf(body).value.prefix;
    MaskedBody(body);
    MaskEnding(prefix, ending);
    MaskHasNoMarker(body, ending);
    ClassifySound(line);
    assert Classify(line).head.value.replacement == prefix + MARK + ending;
  }

  lemma ReplacementOneLine(line: string)
    requires '\n' !in line
    ensures Classify(line).head.Some? ==> '\n' !in Classify(line).head.value.replacement
  {
    var (body, ending) := TrimCR(line);
    assert ending == "" || ending == "\r";
    assert '\n' !in body;
    PrefixOneLine(body);
  }

  lemma PrefixOneLine(body: string)
    requires '\n' !in body
    ensures HeaderOf(body).Some? ==> '\n' !in HeaderOf(body).value.prefix
  {
  }

  /** The rewritten lines read back as themselves, and none of them holds a line break. */
  lemma RedactedReadsBack(secret: string -> bool, lines: seq<string>)
    requires NoneHas(lines, '\n')
    ensures var out := Redact(secret, Classified(lines));
            Classified(Texts(out)) == out && NoneHas(Texts(out), '\n')
  {
    var ls := Classified(lines);
    var out := Redact(secret, ls);
    forall k | 0 <= k < |out| ensures Classify(out[k].text) == out[k] && '\n' !in out[k].text {
      var i := Provenance(secret, ls, k);
      ClassifiedAt(lines, i);
      if out[k] != ls[i] {
        ClassifyMask(lines[i]);
        ReplacementOneLine(lines[i]);
      }
    }
    ClassifiedIs(Texts(out), out);
  }

  lemma ClassifiedSound(lines: seq<string>)
    ensures AllSound(Classified(lines))
  {
    forall k | 0 <= k < |lines| ensures Sound(Classified(lines)[k]) {
      ClassifiedAt(lines, k);
      ClassifySound(lines[k]);
    }
  }

  /** Splitting the result again gives the rewritten lines. */
  lemma ResultLines(secret: string -> bool, input: string)
    ensures Classified(Split(RedactText(secret, input), '\n')) == Redact(secret, Classified(Split(input, '\n')))
  {
    var lines := Split(input, '\n');
    SplitFree(input, '\n');
    RedactedReadsBack(secret, lines);
    assert Redact(secret, Classified(lines)) != [];
    SplitJoin(Texts(Redact(secret, Classified(lines))), '\n');
  }

  /** Redacting a text twice gives the same text as redacting it once. */
  lemma TextIdempotent(secret: string -> bool, input: string)
    ensures RedactText(secret, RedactText(secret, input)) == RedactText(secret, input)
  {
    ResultLines(secret, input);
    ClassifiedSound(Split(input, '\n'));
    Idempotent(secret, Classified(Split(input, '\n')));
  }

  /**
   In a redacted text no block-scalar header is left whose key names a secret or whose body holds a private
   key, and the lines are those outside masked bodies, in order.
   */
  lemma TextRedacted(secret: string -> bool, input: string)
    ensures var before, after := Classified(Split(input, '\n')), Classified(Split(RedactText(secret, input), '\n'));
            && after == Surviving(secret, before)
            && forall k | 0 <= k < |after| :: !Masked(secret, after, k)
  {
    var before := Classified(Split(input, '\n'));
    ResultLines(secret, input);
    ClassifiedSound(Split(input, '\n'));
    Survivors(secret, before);
    forall k | 0 <= k < |Redact(secret, before)| ensures !Masked(secret, Redact(secret, before), k) {
      NothingLeftToMask(secret, before, k);
    }
  }

  // ---------- The loops ----------

  /** Whether a line further down is blank, and if not, whether it continues the block. */
  method Examine(lines: seq<string>, ghost h: Head, lead: string, lineIndent: nat, j: nat)
    returns (blank: bool, continues: bool)
    requires j < |lines|
    requires h.column == DisplayWidth(lead) && h.indent == lineIndent && h.tabbed == ('\t' in lead)
    ensures blank == Classified(lines)[j].blank && continues == Continues(h, Classified(lines)[j])
  {
    ClassifiedAt(lines, j);
    var candidate := TrimCR(lines[j]).0;
    blank := AllSpace(candidate);
    var indent, width := DisplayWidth(lead), IndentWidth(candidate);
    continues := width > indent;
    if width == indent && MappingEntry(candidate).None? {
      var sequenceShift := indent > lineIndent;
      var mixedIndent := width > 0 && ('\t' in lead || '\t' in LeadingWhitespace(candidate));
      continues := sequenceShift || mixedIndent;
    }
  }

  lemma ExtentStep(h: Head, ls: seq<Line>, j: nat)
    requires j < |ls|
    ensures Extent(h, ls[j..]) == (var n := Extent(h, ls[j + 1..]);
                                   if ls[j].blank then (if n == 0 then 0 else n + 1)
                                   else if Continues(h, ls[j]) then 1 + n else 0)
  {
    assert ls[j..][1..] == ls[j + 1..];
  }

  /** Walks forward from the header at `i` to the last line of its body. */
  method FindEnd(lines: seq<string>, i: nat, ghost h: Head, lead: string, lineIndent: nat) returns (end: nat)
    requires i < |lines| && Classified(lines)[i].head == Some(h)
    requires h.column == DisplayWidth(lead) && h.indent == lineIndent && h.tabbed == ('\t' in lead)
    ensures end == i + BodyLen(Classified(lines), i)
  {
    ghost var ls := Classified(lines);
    end := i;
    var j := i + 1;
    while j < |lines|
      invariant i <= end < j <= |lines|
      invariant i + Extent(h, ls[i + 1..]) == (var n := Extent(h, ls[j..]); if n == 0 then end else j - 1 + n)
    {
      ExtentStep(h, ls, j);
      var blank, continues := Examine(lines, h, lead, lineIndent, j);
      if blank {
        j := j + 1;
        continue;
      }
      if !continues {
        break;
      }
      end := j;
      j := j + 1;
    }
  }

  /** Matches line `i` against the header pattern. */
  method MatchHeader(lines: seq<string>, i: nat) returns (body: string, ending: string, header: Option<Match>)
    requires i < |lines|
    ensures header.Some? == Classified(lines)[i].head.Some?
    ensures header.Some? ==>
              Classified(lines)[i].head.value ==
              Head(header.value.key, DisplayWidth(header.value.lead), IndentWidth(body), '\t' in header.value.lead,
                   header.value.prefix + MARK + ending)
  {
    ClassifiedAt(lines, i);
    body, ending := TrimCR(lines[i]).0, TrimCR(lines[i]).1;
    header := HeaderOf(body);
  }

  /** Whether the body of the header at `i`, which ends at line `end`, must be masked. */
  method MustMask(secret: string -> bool, lines: seq<string>, i: nat, end: nat, key: string) returns (mask: bool)
    requires NoneHas(lines, '\n') && i < |lines| && end == i + BodyLen(Classified(lines), i)
    requires Classified(lines)[i].head.Some? && Classified(lines)[i].head.value.key == key
    ensures mask == Masked(secret, Classified(lines), i)
  {
    if end == i {
      return false;
    }
    var marked := PemMarker(Join(lines[i + 1..end + 1], "\n"));
    MarkerInBody(lines, i + 1, end + 1);
    MaskedBy(secret, Classified(lines), i, end, key, marked);
    return secret(key) || marked;
  }

  lemma MaskedBy(secret: string -> bool, ls: seq<Line>, i: nat, end: nat, key: string, marked: bool)
    requires i < |ls| && ls[i].head.Some? && ls[i].head.value.key == key
    requires end == i + BodyLen(ls, i) && end > i && (marked <==> HasMarker(ls[i + 1..end + 1]))
    ensures Masked(secret, ls, i) <==> secret(key) || marked
  {
  }

  /** Whether line `i` heads a body to mask, the line the body ends at, and what then stands for the header. */
  method HeaderToMask(secret: string -> bool, lines: seq<string>, i: nat)
    returns (mask: bool, end: nat, replacement: string)
    requires NoneHas(lines, '\n') && i < |lines|
    ensures mask == Masked(secret, Classified(lines), i)
    ensures mask ==> end == i + BodyLen(Classified(lines), i) && replacement == Classified(lines)[i].head.value.replacement
  {
    var body, ending, header := MatchHeader(lines, i);
    if header.None? {
      return false, i, "";
    }
    end := FindEnd(lines, i, Classified(lines)[i].head.value, header.value.lead, IndentWidth(body));
    mask := MustMask(secret, lines, i, end, header.value.key);
    replacement := header.value.prefix + MARK + ending;
  }

  /** One step of the walk: what line `i` becomes, and the line to look at next. */
  method RewriteLine(secret: string -> bool, lines: seq<string>, i: nat) returns (line: string, next: nat)
    requires NoneHas(lines, '\n') && i < |lines|
    ensures i < next <= |lines|
    ensures var ls := Classified(lines);
            Texts(Redact(secret, ls[i..])) == [line] + Texts(Redact(secret, ls[next..]))
  {
    var mask, end, replacement := HeaderToMask(secret, lines, i);
    if !mask {
      TextAt(lines, i);
      KeptStep(secret, Classified(lines), i, lines[i]);
      return lines[i], i + 1;
    }
    MaskedStep(secret, Classified(lines), i, replacement, end + 1);
    return replacement, end + 1;
  }

  method RedactYAMLBlockScalars(secret: string -> bool, input: string) returns (result: string)
    ensures result == RedactText(secret, input)
  {
    if '|' !in input && '>' !in input {
      NoIndicator(secret, input);
      return input;
    }
    var lines := Split(input, '\n');
    SplitFree(input, '\n');
    var out := RedactLines(secret, lines);
    return Join(out, "\n");
  }

  method RedactLines(secret: string -> bool, lines: seq<string>) returns (out: seq<string>)
    requires NoneHas(lines, '\n')
    ensures out == Texts(Redact(secret, Classified(lines)))
  {
    out := [];
    var i := 0;
    ghost var ls := Classified(lines);
    assert ls[0..] == ls;
    while i < |lines|
      invariant i <= |lines| == |ls|
      invariant Texts(Redact(secret, ls)) == out + Texts(Redact(secret, ls[i..]))
    {
      var line, next := RewriteLine(secret, lines, i);
      out := out + [line];
      i := next;
    }
    assert ls[i..] == [];
  }

  lemma TextsCons(l: Line, rest: seq<Line>)
    ensures Texts([l] + rest) == [l.text] + Texts(rest)
  {
  }

  lemma KeptStep(secret: string -> bool, ls: seq<Line>, i: nat, text: string)
    requires i < |ls| && ls[i].text == text && !Masked(secret, ls, i)
    ensures Texts(Redact(secret, ls[i..])) == [text] + Texts(Redact(secret, ls[i + 1..]))
  {
    RedactFrom(secret, ls, i);
    TextsCons(ls[i], Redact(secret, ls[i + 1..]));
  }

  lemma MaskedStep(secret: string -> bool, ls: seq<Line>, i: nat, replacement: string, next: nat)
    requires i < |ls| && Masked(secret, ls, i) && ls[i].head.value.replacement == replacement && next == i + BodyLen(ls, i) + 1
    ensures next <= |ls| && Texts(Redact(secret, ls[i..])) == [replacement] + Texts(Redact(secret, ls[next..]))
  {
    RedactMasked(secret, ls, i, next);
    TextsCons(Mask(ls[i]), Redact(secret, ls[next..]));
  }

  lemma MarkersInBody(lines: seq<string>, ls: seq<Line>, from: nat, to: nat, marked: string -> bool)
    requires from <= to <= |lines| == |ls|
    requires forall k | 0 <= k < |lines| :: ls[k].marker == marked(lines[k])
    ensures AnyMarker(marked, lines[from..to]) <==> HasMarker(ls[from..to])
  {
    MarkersAgree(marked, lines[from..to], ls[from..to]);
  }

  lemma MarkerInBody(lines: seq<string>, from: nat, to: nat)
    requires from <= to <= |lines| && NoneHas(lines, '\n')
    ensures PemMarker(Join(lines[from..to], "\n")) <==> HasMarker(Classified(lines)[from..to])
  {
    PemJoin(lines[from..to]);
    forall k | 0 <= k < |lines| ensures Classified(lines)[k].marker == PemMarker(lines[k]) {
      ClassifiedAt(lines, k);
    }
    MarkersInBody(lines, Classified(lines), from, to, PemMarker);
  }

  lemma TextAt(lines: seq<string>, k: nat)
    requires k < |lines|
    ensures Classified(lines)[k].text == lines[k]
  {
    ClassifiedAt(lines, k);
  }

  lemma NoIndicatorNoHeader(body: string)
    requires '|' !in body && '>' !in body
    ensures HeaderOf(body).None?
  {
  }

  /** Without an indicator character there is no header, so nothing to do. */
  lemma NoIndicator(secret: string -> bool, input: string)
    requires '|' !in input && '>' !in input
    ensures RedactText(secret, input) == input
  {
    var lines := Split(input, '\n');
    var ls := Classified(lines);
    forall k | 0 <= k < |lines| ensures ls[k].head.None? && ls[k].text == lines[k] {
      ClassifiedAt(lines, k);
      SplitChars(input, '\n', k);
      NoIndicatorNoHeader(TrimCR(lines[k]).0);
    }
    FixedWithoutHeads(secret, ls);
    assert Texts(ls) == lines;
    JoinSplit(input, '\n');
  }
}

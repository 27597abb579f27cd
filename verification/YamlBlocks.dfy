/** What the block-scalar rule does to a text, line by line, in terms of how the lines are written. */
module YamlBlocks {
  import opened Text
  import opened BlockTree
  import opened BlockScalar
  import opened YamlLines

  // ---------- Widths ----------

  function Tabs(s: string): nat {
    if s == "" then 0 else (if s[0] == '\t' then 1 else 0) + Tabs(s[1..])
  }

  /** How far a text reaches, a tab counting as eight columns. */
  function Width(s: string): nat {
    |s| + 7 * Tabs(s)
  }

  lemma {:induction false} WidthShown(s: string)
    ensures DisplayWidth(s) == Width(s)
  {
    if s != "" {
      WidthShown(s[1..]);
    }
  }

  // ---------- Lines as they are written ----------

  /** A line of white space only, or one with text behind its indentation. */
  datatype Row = White(text: string) | Full(indent: string, content: string)

  function RowText(r: Row): string {
    match r
    case White(text) => text
    case Full(indent, content) => indent + content
  }

  predicate ProperRow(r: Row) {
    match r
    case White(text) => AllSpace(text) && '\n' !in text
    case Full(indent, content) =>
      && Blanks(indent) && '\n' !in content && !AllSpace(content) && content[0] != ' ' && content[0] != '\t'
  }

  predicate ProperRows(rows: seq<Row>) {
    forall k | 0 <= k < |rows| :: ProperRow(rows[k])
  }

  function RowTexts(rows: seq<Row>): (lines: seq<string>)
    ensures |lines| == |rows| && forall k | 0 <= k < |rows| :: lines[k] == RowText(rows[k])
  {
    seq(|rows|, k requires 0 <= k < |rows| => RowText(rows[k]))
  }

  /**
   The line belongs to the block scalar whose key stands behind `lead`: it is indented deeper than the key; or as deep,
   opens no mapping entry, and a dash or a quote shifts the key, or there is a tab in either indentation.
   */
  ghost predicate Inside(lead: Lead, r: Row) {
    r.Full? &&
    (|| Width(r.indent) > Width(LeadText(lead))
     || (&& Width(r.indent) == Width(LeadText(lead)) && !OpensMapping(RowText(r))
         && (LeadText(lead) != lead.indent || (r.indent != "" && ('\t' in LeadText(lead) || '\t' in r.indent)))))
  }

  lemma FullTrimmed(r: Row) returns (content: string)
    requires ProperRow(r) && r.Full?
    ensures TrimCR(RowText(r)).0 == r.indent + content && !AllSpace(content)
    ensures content[0] != ' ' && content[0] != '\t'
    ensures content == r.content || content + "\r" == r.content
  {
    var line := r.indent + r.content;
    content := if HasSuffix(line, "\r") then r.content[..|r.content| - 1] else r.content;
    if HasSuffix(line, "\r") {
      assert line[|line| - 1] == '\r' == r.content[|r.content| - 1];
      assert r.content == content + "\r";
      assert line[..|line| - 1] == r.indent + content;
      assert AllSpace(content) ==> AllSpace(r.content);
    }
  }

  lemma IndentRead(indent: string, content: string)
    requires Blanks(indent) && content != "" && content[0] != ' ' && content[0] != '\t'
    ensures IndentWidth(indent + content) == Width(indent) && LeadingWhitespace(indent + content) == indent
  {
    var s := indent + content;
    RunOver(s, "", indent, content, IsBlank);
    assert s == "" + indent + content;
    IndentIsDisplay(s);
    WidthShown(indent);
  }

  lemma {:induction false} NoTabs(s: string)
    ensures '\t' !in s ==> Tabs(s) == 0
  {
    if s != "" {
      NoTabs(s[1..]);
    }
  }

  lemma EntryGrows(line: string, more: string)
    requires OpensMapping(line)
    ensures OpensMapping(line + more)
  {
    var m, rest :| ProperMapping(m) && line == MappingText(m) + rest;
    ConcatAssoc(MappingText(m), rest, more);
    assert line + more == MappingText(m) + (rest + more);
  }

  lemma EntryShrinks(line: string)
    requires OpensMapping(line + "\r")
    ensures OpensMapping(line)
  {
    var m, rest :| ProperMapping(m) && line + "\r" == MappingText(m) + rest;
    var t := MappingText(m);
    EntryEnds(line, t, rest);
    assert line == t + rest[..|rest| - 1];
  }

  lemma EntryEnds(line: string, t: string, rest: string)
    requires line + "\r" == t + rest && t != "" && t[|t| - 1] == ':'
    ensures rest != "" && line == t + rest[..|rest| - 1]
  {
    var s := t + rest;
    assert s[|s| - 1] == '\r' && s[..|s| - 1] == line;
    assert rest == "" ==> s == t;
  }

  /** Whether a line opens a mapping entry does not depend on a carriage return at its end. */
  lemma EntryBeforeReturn(line: string)
    ensures MappingEntry(TrimCR(line).0).Some? <==> OpensMapping(line)
  {
    var body := TrimCR(line).0;
    EntryMeaning(body);
    if HasSuffix(line, "\r") {
      assert line == body + "\r";
      if OpensMapping(body) { EntryGrows(body, "\r"); }
      if OpensMapping(line) { EntryShrinks(body); }
    }
  }

  // ---------- The head of a block ----------

  predicate IsEnding(ending: string) {
    ending == "" || ending == "\r"
  }

  /** A header with its line ending, which the header itself does not hold. */
  predicate HeadLine(h: Header, ending: string) {
    ProperHeader(h) && IsEnding(ending) && (ending == "" ==> !HasSuffix(HeaderText(h), "\r"))
  }

  lemma HeadTrimmed(h: Header, ending: string)
    requires HeadLine(h, ending)
    ensures TrimCR(HeaderText(h) + ending) == (HeaderText(h), ending)
  {
    var line := HeaderText(h) + ending;
    if ending == "\r" {
      assert line[|line| - 1..] == "\r" && line[..|line| - 1] == HeaderText(h);
    } else {
      assert line == HeaderText(h);
    }
  }

  /** What the rule takes up of a header line. */
  lemma HeadClassified(h: Header, ending: string)
    requires HeadLine(h, ending)
    ensures var l, lead := Classify(HeaderText(h) + ending), LeadText(h.entry.lead);
            && l.text == HeaderText(h) + ending && !l.blank
            && l.head == Some(BlockTree.Head(h.entry.key, Width(lead), Width(h.entry.lead.indent), '\t' in lead,
                                             Prefix(h) + MARK + ending))
  {
    HeadTrimmed(h, ending);
    HeaderRead(h);
    WidthShown(LeadText(h.entry.lead));
    HeadIndent(h);
    ClassifySound(HeaderText(h) + ending);
  }

  lemma HeadIndent(h: Header)
    requires ProperHeader(h)
    ensures IndentWidth(HeaderText(h)) == Width(h.entry.lead.indent)
  {
    var l := h.entry.lead;
    var content := HeadContent(h);
    IndentRead(l.indent, content);
  }

  lemma HeadContent(h: Header) returns (content: string)
    requires ProperHeader(h)
    ensures HeaderText(h) == h.entry.lead.indent + content && content != "" && content[0] != ' ' && content[0] != '\t'
  {
    var l, s := h.entry.lead, HeaderText(h);
    var rest := HeadBehind(h);
    content := LeadContent(l, rest);
  }

  lemma HeadBehind(h: Header) returns (rest: string)
    requires ProperHeader(h)
    ensures HeaderText(h) == LeadText(h.entry.lead) + rest && StartsKey(rest)
  {
    var a, key := LeadText(h.entry.lead), h.entry.key;
    Grows(a + key, a + key, h.entry.quote);
    Grows(a + key, a + key + h.entry.quote, h.entry.gap);
    Grows(a + key, a + key + h.entry.quote + h.entry.gap, ":");
    Grows(a + key, MappingText(h.entry), h.gap);
    Grows(a + key, Prefix(h), [h.style]);
    Grows(a + key, Prefix(h) + [h.style], h.indicators);
    Grows(a + key, Prefix(h) + [h.style] + h.indicators, h.trail);
    Grows(a + key, Prefix(h) + [h.style] + h.indicators + h.trail, h.comment);
    rest := HeaderText(h)[|a|..];
    SplitOff(HeaderText(h), a, key);
  }

  lemma Grows(a: string, s: string, more: string)
    requires a <= s
    ensures a <= s + more
  {
  }

  lemma SplitOff(s: string, a: string, b: string)
    requires a + b <= s && b != ""
    ensures s == a + s[|a|..] && s[|a|..] != "" && s[|a|..][0] == b[0]
  {
    assert s[..|a + b|] == a + b;
    assert s[|a|] == (a + b)[|a|] == b[0];
  }

  lemma LeadContent(l: Lead, rest: string) returns (content: string)
    requires ProperLead(l) && StartsKey(rest)
    ensures LeadText(l) + rest == l.indent + content && content != "" && content[0] != ' ' && content[0] != '\t'
  {
    content := Items(l.items) + (l.quote + rest);
    assert (l.quote + rest)[0] == if l.quote == "" then rest[0] else l.quote[0];
    ItemsFirst(l.items, l.quote + rest);
  }

  // ---------- The body of a block ----------

  lemma WidthSplits(a: string, b: string)
    ensures Width(a + b) == Width(a) + Width(b)
  {
    WidthShown(a);
    WidthShown(b);
    WidthShown(a + b);
    DisplayWidthConcat(a, b);
  }

  lemma LeadShifts(l: Lead)
    ensures Width(LeadText(l)) > Width(l.indent) <==> LeadText(l) != l.indent
  {
    var more := Items(l.items) + l.quote;
    assert LeadText(l) == l.indent + more;
    WidthSplits(l.indent, more);
    if more == "" { assert LeadText(l) == l.indent; }
  }

  lemma RowRead(r: Row)
    requires ProperRow(r)
    ensures var l := Classify(RowText(r));
            && l.text == RowText(r) && (l.blank <==> r.White?)
            && (r.Full? ==> l.width == Width(r.indent) && l.tabbed == ('\t' in r.indent) && (l.entry <==> OpensMapping(RowText(r))))
  {
    if r.Full? {
      var content := FullTrimmed(r);
      IndentRead(r.indent, content);
      FullNotBlank(r.indent, content);
      EntryBeforeReturn(RowText(r));
    } else {
      WhiteTrimmed(r.text);
    }
  }

  lemma FullNotBlank(indent: string, content: string)
    requires !AllSpace(content)
    ensures !AllSpace(indent + content)
  {
    var k :| 0 <= k < |content| && !IsSpace(content[k]);
    assert (indent + content)[|indent| + k] == content[k];
  }

  lemma WhiteTrimmed(text: string)
    requires AllSpace(text)
    ensures AllSpace(TrimCR(text).0)
  {
  }

  /** The header as the rule takes it up. */
  predicate HeadOf(hd: Head, l: Lead) {
    hd.column == Width(LeadText(l)) && hd.indent == Width(l.indent) && hd.tabbed == ('\t' in LeadText(l))
  }

  lemma InsideRead(l: Lead, hd: Head, r: Row)
    requires ProperRow(r) && HeadOf(hd, l)
    ensures r.Full? ==> (Continues(hd, Classify(RowText(r))) <==> Inside(l, r))
  {
    RowRead(r);
    LeadShifts(l);
  }

  /** The lines in front of the next one with text behind its indentation, which is not inside. */
  ghost predicate Ends(l: Lead, rest: seq<Row>) {
    rest != [] ==> if rest[0].White? then Ends(l, rest[1..]) else !Inside(l, rest[0])
  }

  /** A body: no line with text is outside, and the last one is such a line. */
  ghost predicate IsBody(l: Lead, body: seq<Row>) {
    && (body != [] ==> body[|body| - 1].Full?)
    && forall k | 0 <= k < |body| :: body[k].White? || Inside(l, body[k])
  }

  lemma {:induction false} ExtentNone(hd: Head, rest: seq<Line>)
    requires Stops(hd, rest)
    ensures Extent(hd, rest) == 0
  {
    if rest != [] && rest[0].blank {
      ExtentNone(hd, rest[1..]);
    }
  }

  lemma {:induction false} ExtentWhole(hd: Head, body: seq<Line>, rest: seq<Line>)
    requires AllContinue(hd, body) && Stops(hd, rest) && (body != [] ==> !body[|body| - 1].blank)
    ensures Extent(hd, body + rest) == |body|
  {
    if body == [] {
      assert body + rest == rest;
      ExtentNone(hd, rest);
    } else {
      assert (body + rest)[0] == body[0] && (body + rest)[1..] == body[1..] + rest;
      ExtentWhole(hd, body[1..], rest);
    }
  }

  lemma BodyContinues(l: Lead, hd: Head, body: seq<Row>, ls: seq<Line>)
    requires ProperRows(body) && HeadOf(hd, l) && IsBody(l, body) && |ls| == |body|
    requires forall k | 0 <= k < |body| :: ls[k] == Classify(RowText(body[k]))
    ensures AllContinue(hd, ls) && (ls != [] ==> !ls[|ls| - 1].blank)
  {
    forall k | 0 <= k < |body| ensures ls[k].blank || Continues(hd, ls[k]) {
      RowRead(body[k]);
      InsideRead(l, hd, body[k]);
    }
    if body != [] { RowRead(body[|body| - 1]); }
  }

  lemma {:induction false} RestStops(l: Lead, hd: Head, rest: seq<Row>, ls: seq<Line>)
    requires ProperRows(rest) && HeadOf(hd, l) && Ends(l, rest) && |ls| == |rest|
    requires forall k | 0 <= k < |rest| :: ls[k] == Classify(RowText(rest[k]))
    ensures Stops(hd, ls)
  {
    if rest != [] {
      RowRead(rest[0]);
      InsideRead(l, hd, rest[0]);
      if rest[0].White? { RestStops(l, hd, rest[1..], ls[1..]); }
    }
  }

  // ---------- Private keys ----------

  /** The words between `BEGIN` and `PRIVATE KEY`, and behind it. */
  predicate IsKind(s: string, digits: bool) {
    forall k | 0 <= k < |s| :: 'A' <= s[k] <= 'Z' || s[k] == ' ' || (digits && '0' <= s[k] <= '9')
  }

  function Armour(gap: string, kind: string, tail: string): string {
    "----" + gap + "BEGIN " + kind + "PRIVATE KEY" + tail + "----"
  }

  /** In upper or lower case, the line that opens a private key stands in the text. */
  ghost predicate KeyMarker(s: string) {
    exists pre, mid, post, gap, kind, tail ::
      s == pre + mid + post && Upper(mid) == Armour(gap, kind, tail) && (gap == "" || gap == " ") && IsKind(kind, true)
      && IsKind(tail, false)
  }

  lemma SaysMeaning(s: string, i: nat, word: string)
    ensures Says(s, i, word) <==> i + |word| <= |s| && Upper(s[i..i + |word|]) == Upper(word)
  {
    if i + |word| <= |s| {
      var a, b := Upper(s[i..i + |word|]), Upper(word);
      assert forall k | 0 <= k < |word| :: a[k] == UpperChar(s[i + k]) && b[k] == UpperChar(word[k]);
      if Says(s, i, word) {
        forall k | 0 <= k < |word| ensures a[k] == b[k] {
          assert UpperChar(s[i + k]) == UpperChar(word[i + k - i]);
        }
      }
    }
  }

  lemma ArmourParts(u: string, gap: string, kind: string, tail: string)
    requires u == Armour(gap, kind, tail)
    ensures var b, p := 4 + |gap|, 10 + |gap| + |kind|;
            var q := p + 11 + |tail|;
            && |u| == q + 4 && u[0..4] == "----" && u[4..b] == gap && u[b..b + 6] == "BEGIN " && u[b + 6..p] == kind
            && u[p..p + 11] == "PRIVATE KEY" && u[p + 11..q] == tail && u[q..q + 4] == "----"
  {
  }

  lemma UpperConcat(a: string, b: string)
    ensures Upper(a + b) == Upper(a) + Upper(b)
  {
  }

  lemma {:induction false} UpperSlices(s: string, i: nat, j: nat, k: nat)
    requires i <= j <= k <= |s|
    ensures Upper(s[i..k]) == Upper(s[i..j]) + Upper(s[j..k])
  {
    assert s[i..k] == s[i..j] + s[j..k];
    UpperConcat(s[i..j], s[j..k]);
  }

  /** Words that are in upper case already. */
  lemma UpperWords()
    ensures Upper("----") == "----" && Upper(" ") == " " && Upper("BEGIN ") == "BEGIN " && Upper("PRIVATE KEY") == "PRIVATE KEY"
    ensures Upper("") == ""
  {
  }

  lemma WordShown(s: string, i: nat, word: string)
    requires Says(s, i, word) && Upper(word) == word
    ensures i + |word| <= |s| && Upper(s[i..i + |word|]) == word
  {
    SaysMeaning(s, i, word);
  }

  /** The upper-case text grows by a word, or by what stands between two words. */
  lemma TextGrows(s: string, i: nat, j: nat, k: nat, front: string, more: string)
    requires i <= j <= k <= |s| && Upper(s[i..j]) == front && Upper(s[j..k]) == more
    ensures Upper(s[i..k]) == front + more
  {
    UpperSlices(s, i, j, k);
  }

  /** A text with an opening at `i`, in upper case. */
  lemma PemText(s: string, i: nat, b: nat, p: nat, q: nat)
    requires i < |s| && b < |s| && p < |s| && q < |s| && PemAt(s, i, b, p, q)
    ensures Upper(s[i..q + 4]) == Armour(Upper(s[i + 4..b]), Upper(s[b + 6..p]), Upper(s[p + 11..q]))
  {
    UpperWords();
    WordShown(s, i, "----");
    WordShown(s, b, "BEGIN ");
    WordShown(s, p, "PRIVATE KEY");
    WordShown(s, q, "----");
    PemJoined(s, i, b, p, q, Upper(s[i + 4..b]), Upper(s[b + 6..p]), Upper(s[p + 11..q]));
  }

  lemma PemJoined(s: string, i: nat, b: nat, p: nat, q: nat, gap: string, kind: string, tail: string)
    requires i + 4 <= b && b + 6 <= p && p + 11 <= q && q + 4 <= |s|
    requires Upper(s[i..i + 4]) == "----" && Upper(s[b..b + 6]) == "BEGIN " && Upper(s[p..p + 11]) == "PRIVATE KEY"
    requires Upper(s[q..q + 4]) == "----"
    requires Upper(s[i + 4..b]) == gap && Upper(s[b + 6..p]) == kind && Upper(s[p + 11..q]) == tail
    ensures Upper(s[i..q + 4]) == Armour(gap, kind, tail)
  {
    TextGrows(s, i, i + 4, b, "----", gap);
    TextGrows(s, i, b, b + 6, "----" + gap, "BEGIN ");
    TextGrows(s, i, b + 6, p, "----" + gap + "BEGIN ", kind);
    TextGrows(s, i, p, p + 11, "----" + gap + "BEGIN " + kind, "PRIVATE KEY");
    TextGrows(s, i, p + 11, q, "----" + gap + "BEGIN " + kind + "PRIVATE KEY", tail);
    TextGrows(s, i, q, q + 4, "----" + gap + "BEGIN " + kind + "PRIVATE KEY" + tail, "----");
  }

  lemma GapRead(s: string, i: nat, b: nat)
    requires i + 4 <= b <= |s| && (b == i + 4 || (b == i + 5 && Says(s, i + 4, " ")))
    ensures Upper(s[i + 4..b]) == "" || Upper(s[i + 4..b]) == " "
  {
    UpperWords();
    if b == i + 5 { SaysMeaning(s, i + 4, " "); } else { assert s[i + 4..b] == ""; }
  }

  lemma Marked(s: string, pre: string, mid: string, post: string, gap: string, kind: string, tail: string)
    requires s == pre + mid + post && Upper(mid) == Armour(gap, kind, tail) && (gap == "" || gap == " ") && IsKind(kind, true)
    requires IsKind(tail, false)
    ensures KeyMarker(s)
  {
  }

  lemma PemWritten(s: string, i: nat, b: nat, p: nat, q: nat)
    requires i < |s| && b < |s| && p < |s| && q < |s| && PemAt(s, i, b, p, q)
    ensures KeyMarker(s)
  {
    var gap, kind, tail := Upper(s[i + 4..b]), Upper(s[b + 6..p]), Upper(s[p + 11..q]);
    PemText(s, i, b, p, q);
    GapRead(s, i, b);
    KindRead(s, b + 6, p, true);
    KindRead(s, p + 11, q, false);
    ThreeParts(s, i, q + 4);
    Marked(s, s[..i], s[i..q + 4], s[q + 4..], gap, kind, tail);
  }

  lemma ThreeParts(s: string, i: nat, j: nat)
    requires i <= j <= |s|
    ensures s == s[..i] + s[i..j] + s[j..]
  {
  }

  lemma KindRead(s: string, from: nat, to: nat, digits: bool)
    requires from <= to <= |s| && forall k | from <= k < to :: IsUpperOrSpace(s[k]) || (digits && IsDigit(s[k]))
    ensures IsKind(Upper(s[from..to]), digits)
  {
    var u := Upper(s[from..to]);
    forall k | 0 <= k < |u| ensures 'A' <= u[k] <= 'Z' || u[k] == ' ' || (digits && '0' <= u[k] <= '9') {
      assert u[k] == UpperChar(s[from + k]);
      assert IsUpperOrSpace(s[from + k]) || (digits && IsDigit(s[from + k]));
    }
  }

  lemma WordStands(s: string, i: nat, mid: string, a: nat, word: string)
    requires i + |mid| <= |s| && s[i..i + |mid|] == mid && a + |word| <= |mid| && Upper(mid)[a..a + |word|] == word == Upper(word)
    ensures Says(s, i + a, word)
  {
    forall k | i + a <= k < i + a + |word| ensures UpperChar(s[k]) == UpperChar(word[k - i - a]) {
      assert s[k] == mid[k - i];
      assert Upper(mid)[k - i] == Upper(mid)[a..a + |word|][k - i - a] == Upper(word)[k - i - a];
    }
  }

  lemma KindStands(s: string, i: nat, mid: string, a: nat, kind: string, digits: bool)
    requires i + |mid| <= |s| && s[i..i + |mid|] == mid && a + |kind| <= |mid| && Upper(mid)[a..a + |kind|] == kind
    requires IsKind(kind, digits)
    ensures forall k | i + a <= k < i + a + |kind| :: IsUpperOrSpace(s[k]) || (digits && IsDigit(s[k]))
  {
    forall k | i + a <= k < i + a + |kind| ensures IsUpperOrSpace(s[k]) || (digits && IsDigit(s[k])) {
      assert s[k] == mid[k - i];
      assert Upper(mid)[k - i] == Upper(mid)[a..a + |kind|][k - i - a] == kind[k - i - a];
    }
  }

  lemma PemRead(pre: string, mid: string, post: string, gap: string, kind: string, tail: string)
    requires Upper(mid) == Armour(gap, kind, tail) && (gap == "" || gap == " ") && IsKind(kind, true) && IsKind(tail, false)
    ensures PemMarker(pre + mid + post)
  {
    var s, i := pre + mid + post, |pre|;
    var b, p := 4 + |gap|, 10 + |gap| + |kind|;
    var q := p + 11 + |tail|;
    assert s[i..i + |mid|] == mid;
    UpperWords();
    ArmourParts(Upper(mid), gap, kind, tail);
    WordStands(s, i, mid, 0, "----");
    if gap == " " { WordStands(s, i, mid, 4, " "); }
    WordStands(s, i, mid, b, "BEGIN ");
    KindStands(s, i, mid, b + 6, kind, true);
    WordStands(s, i, mid, p, "PRIVATE KEY");
    KindStands(s, i, mid, p + 11, tail, false);
    WordStands(s, i, mid, q, "----");
    assert PemAt(s, i, i + b, i + p, i + q);
  }

  /** The scanner finds the opening of a private key exactly where one is written. */
  lemma PemMeaning(s: string)
    ensures PemMarker(s) <==> KeyMarker(s)
  {
    if PemMarker(s) {
      var i: nat, b: nat, p: nat, q: nat :| i < |s| && b < |s| && p < |s| && q < |s| && PemAt(s, i, b, p, q);
      PemWritten(s, i, b, p, q);
    }
    if KeyMarker(s) {
      var pre, mid, post, gap, kind, tail :|
        s == pre + mid + post && Upper(mid) == Armour(gap, kind, tail) && (gap == "" || gap == " ") && IsKind(kind, true)
        && IsKind(tail, false);
      PemRead(pre, mid, post, gap, kind, tail);
    }
  }

  // ---------- Whole texts ----------

  /** The text of some lines. */
  function Lines(lines: seq<string>): string {
    Join(lines, "\n")
  }

  /** A line, and the other lines behind it if there are any. */
  function Behind(line: string, rest: string, more: bool): string {
    if more then line + "\n" + rest else line
  }

  lemma RedactLinesOf(secret: string -> bool, lines: seq<string>)
    requires lines != [] && NoneHas(lines, '\n')
    ensures RedactText(secret, Lines(lines)) == Lines(Texts(Redact(secret, Classified(lines))))
  {
    SplitJoin(lines, '\n');
  }

  lemma {:induction false} ClassifiedTail(lines: seq<string>, n: nat)
    requires n <= |lines|
    ensures Classified(lines)[n..] == Classified(lines[n..])
  {
    forall k | 0 <= k < |lines| - n ensures Classified(lines)[n..][k] == Classified(lines[n..])[k] {
      ClassifiedAt(lines, n + k);
      ClassifiedAt(lines[n..], k);
    }
  }

  lemma JoinedBehind(line: string, rest: seq<string>)
    ensures Lines([line] + rest) == Behind(line, Lines(rest), rest != [])
  {
    assert ([line] + rest)[1..] == rest;
  }

  lemma RedactedSome(secret: string -> bool, ls: seq<Line>)
    ensures Texts(Redact(secret, ls)) == [] <==> ls == []
  {
  }

  lemma NoneHasTail(lines: seq<string>, n: nat, c: char)
    requires n <= |lines| && NoneHas(lines, c)
    ensures NoneHas(lines[n..], c)
  {
  }

  /** What the first line becomes, and the lines behind it that are redacted on their own. */
  lemma FirstStep(secret: string -> bool, lines: seq<string>, line: string, n: nat)
    requires 0 < n <= |lines| && NoneHas(lines, '\n')
    requires Texts(Redact(secret, Classified(lines)[0..])) == [line] + Texts(Redact(secret, Classified(lines)[n..]))
    ensures RedactText(secret, Lines(lines)) == Behind(line, RedactText(secret, Lines(lines[n..])), n < |lines|)
  {
    assert Classified(lines)[0..] == Classified(lines);
    ClassifiedTail(lines, n);
    RedactLinesOf(secret, lines);
    NoneHasTail(lines, n, '\n');
    StepJoined(secret, Texts(Redact(secret, Classified(lines))), line, lines[n..]);
  }

  lemma StepJoined(secret: string -> bool, all: seq<string>, line: string, rest: seq<string>)
    requires NoneHas(rest, '\n') && all == [line] + Texts(Redact(secret, Classified(rest)))
    ensures Lines(all) == Behind(line, RedactText(secret, Lines(rest)), rest != [])
  {
    var out := Texts(Redact(secret, Classified(rest)));
    RedactedSome(secret, Classified(rest));
    JoinedBehind(line, out);
    if rest != [] { RedactLinesOf(secret, rest); }
  }

  /** A text that starts with a header, its body and other lines. */
  function Block(h: Header, ending: string, body: seq<Row>, rest: seq<Row>): seq<string> {
    [HeaderText(h) + ending] + RowTexts(body + rest)
  }

  /** The header is a line, the body is all that belongs to it, and the other lines end it. */
  ghost predicate IsBlock(h: Header, ending: string, body: seq<Row>, rest: seq<Row>) {
    && HeadLine(h, ending) && ProperRows(body) && ProperRows(rest)
    && IsBody(h.entry.lead, body) && Ends(h.entry.lead, rest)
  }

  lemma HeaderOneLine(h: Header)
    requires ProperHeader(h)
    ensures '\n' !in HeaderText(h)
  {
    LeadOneLine(h.entry.lead);
    var m := h.entry;
    assert '\n' !in m.key && '\n' !in m.gap && '\n' !in m.quote;
    assert '\n' !in MappingText(m);
    assert '\n' !in h.gap && '\n' !in h.indicators && '\n' !in h.trail;
    assert '\n' !in Prefix(h);
  }

  lemma {:induction false} ItemsOneLine(items: seq<string>)
    requires ProperItems(items)
    ensures '\n' !in Items(items)
  {
    if items != [] {
      assert Blanks(items[0]) && '\n' !in items[0];
      ItemsOneLine(items[1..]);
    }
  }

  lemma LeadOneLine(l: Lead)
    requires ProperLead(l)
    ensures '\n' !in LeadText(l)
  {
    ItemsOneLine(l.items);
    assert '\n' !in l.indent && '\n' !in l.quote;
  }

  lemma RowOneLine(r: Row)
    requires ProperRow(r)
    ensures '\n' !in RowText(r)
  {
    if r.Full? { assert '\n' !in r.indent; }
  }

  lemma BlockLines(h: Header, ending: string, body: seq<Row>, rest: seq<Row>)
    requires IsBlock(h, ending, body, rest)
    ensures var lines := Block(h, ending, body, rest);
            && NoneHas(lines, '\n') && |lines| == 1 + |body| + |rest| && lines[0] == HeaderText(h) + ending
            && lines[1 + |body|..] == RowTexts(rest) && lines[1..] == RowTexts(body + rest)
  {
    HeaderOneLine(h);
    RowsOneLine(body + rest);
    LinesApart(HeaderText(h) + ending, body, rest);
  }

  lemma RowsOneLine(rows: seq<Row>)
    requires ProperRows(rows)
    ensures NoneHas(RowTexts(rows), '\n')
  {
    forall k | 0 <= k < |rows| ensures '\n' !in RowTexts(rows)[k] {
      RowOneLine(rows[k]);
    }
  }

  lemma LinesApart(first: string, body: seq<Row>, rest: seq<Row>)
    ensures var lines := [first] + RowTexts(body + rest);
            && |lines| == 1 + |body| + |rest| && lines[0] == first && lines[1..] == RowTexts(body + rest)
            && lines[1 + |body|..] == RowTexts(rest)
            && (NoneHas(RowTexts(body + rest), '\n') && '\n' !in first ==> NoneHas(lines, '\n'))
  {
  }

  /** How the lines of a block are classified: a head, then the body's lines, then the others. */
  ghost predicate BlockRead(ls: seq<Line>, hd: Head, l: Lead, bs: seq<Line>, body: seq<Row>, rs: seq<Line>, rest: seq<Row>) {
    && ls != [] && ls[0].head == Some(hd) && HeadOf(hd, l) && ls[1..] == bs + rs && |bs| == |body| && |rs| == |rest|
    && (forall k | 0 <= k < |body| :: bs[k] == Classify(RowText(body[k])))
    && (forall k | 0 <= k < |rest| :: rs[k] == Classify(RowText(rest[k])))
  }

  lemma {:induction false} ClassifiedConcat(a: seq<string>, b: seq<string>)
    ensures Classified(a + b) == Classified(a) + Classified(b)
  {
    if a == [] {
      assert a + b == b;
    } else {
      assert (a + b)[1..] == a[1..] + b;
      ClassifiedConcat(a[1..], b);
    }
  }

  lemma RowsClassified(rows: seq<Row>)
    ensures forall k | 0 <= k < |rows| :: Classified(RowTexts(rows))[k] == Classify(RowText(rows[k]))
  {
    forall k | 0 <= k < |rows| ensures Classified(RowTexts(rows))[k] == Classify(RowText(rows[k])) {
      ClassifiedAt(RowTexts(rows), k);
    }
  }

  lemma BlockSplit(first: string, body: seq<Row>, rest: seq<Row>)
    ensures var ls := Classified([first] + RowTexts(body + rest));
            ls[0] == Classify(first) && ls[1..] == Classified(RowTexts(body)) + Classified(RowTexts(rest))
  {
    assert ([first] + RowTexts(body + rest))[1..] == RowTexts(body + rest);
    assert RowTexts(body + rest) == RowTexts(body) + RowTexts(rest);
    ClassifiedConcat(RowTexts(body), RowTexts(rest));
  }

  lemma BlockClassified(h: Header, ending: string, body: seq<Row>, rest: seq<Row>)
    returns (hd: Head, bs: seq<Line>, rs: seq<Line>)
    requires IsBlock(h, ending, body, rest)
    ensures BlockRead(Classified(Block(h, ending, body, rest)), hd, h.entry.lead, bs, body, rs, rest)
    ensures hd.key == h.entry.key && hd.replacement == Prefix(h) + MARK + ending
    ensures Classified(Block(h, ending, body, rest))[0].text == HeaderText(h) + ending
  {
    HeadClassified(h, ending);
    hd := Classify(HeaderText(h) + ending).head.value;
    bs, rs := Classified(RowTexts(body)), Classified(RowTexts(rest));
    BlockSplit(HeaderText(h) + ending, body, rest);
    RowsClassified(body);
    RowsClassified(rest);
  }

  /** The extent of the first line is the body. */
  lemma BlockExtent(ls: seq<Line>, hd: Head, l: Lead, bs: seq<Line>, body: seq<Row>, rs: seq<Line>, rest: seq<Row>)
    requires BlockRead(ls, hd, l, bs, body, rs, rest) && ProperRows(body) && ProperRows(rest) && IsBody(l, body) && Ends(l, rest)
    ensures BodyLen(ls, 0) == |body|
  {
    BodyContinues(l, hd, body, bs);
    RestStops(l, hd, rest, rs);
    ExtentWhole(hd, bs, rs);
  }

  /** Some line of the body holds the opening of a private key. */
  ghost predicate HoldsKey(body: seq<Row>) {
    exists k | 0 <= k < |body| :: KeyMarker(RowText(body[k]))
  }

  lemma MarkersRead(bs: seq<Line>, body: seq<Row>)
    requires |bs| == |body| && forall k | 0 <= k < |body| :: bs[k] == Classify(RowText(body[k]))
    ensures HasMarker(bs) <==> HoldsKey(body)
  {
    forall k | 0 <= k < |body| ensures bs[k].marker <==> KeyMarker(RowText(body[k])) {
      PemMeaning(RowText(body[k]));
    }
  }

  lemma BlockMasked(secret: string -> bool, h: Header, ending: string, body: seq<Row>, rest: seq<Row>)
    requires IsBlock(h, ending, body, rest)
    ensures var ls := Classified(Block(h, ending, body, rest));
            && (Masked(secret, ls, 0) <==> body != [] && (secret(h.entry.key) || HoldsKey(body)))
            && BodyLen(ls, 0) == |body| && ls[0].text == HeaderText(h) + ending
            && ls[0].head.Some? && ls[0].head.value.replacement == Prefix(h) + MARK + ending
  {
    var hd, bs, rs := BlockClassified(h, ending, body, rest);
    var ls := Classified(Block(h, ending, body, rest));
    BlockExtent(ls, hd, h.entry.lead, bs, body, rs, rest);
    MarkersRead(bs, body);
    MaskedRead(secret, ls, bs, rs);
  }

  lemma MaskedRead(secret: string -> bool, ls: seq<Line>, bs: seq<Line>, rs: seq<Line>)
    requires ls != [] && ls[1..] == bs + rs && BodyLen(ls, 0) == |bs| && ls[0].head.Some?
    ensures Masked(secret, ls, 0) <==> bs != [] && (secret(ls[0].head.value.key) || HasMarker(bs))
  {
    assert ls[1..1 + |bs|] == bs;
  }

  /**
   A block whose key names a secret, or whose body holds a private key: the header line keeps what stands in front of
   the indicator and gets the marker, exactly the lines of the body vanish, and the others are redacted on their own.
   */
  lemma BlockVanishes(secret: string -> bool, h: Header, ending: string, body: seq<Row>, rest: seq<Row>)
    requires IsBlock(h, ending, body, rest) && body != [] && (secret(h.entry.key) || HoldsKey(body))
    ensures RedactText(secret, Lines(Block(h, ending, body, rest))) ==
            Behind(Prefix(h) + "<redacted>" + ending, RedactText(secret, Lines(RowTexts(rest))), rest != [])
  {
    var lines := Block(h, ending, body, rest);
    BlockLines(h, ending, body, rest);
    BlockMasked(secret, h, ending, body, rest);
    MaskedStep(secret, Classified(lines), 0, Prefix(h) + MARK + ending, 1 + |body|);
    FirstStep(secret, lines, Prefix(h) + MARK + ending, 1 + |body|);
  }

  /** Any other block, and a header without a body: the header stays, and the lines behind it are redacted on their own. */
  lemma BlockStays(secret: string -> bool, h: Header, ending: string, body: seq<Row>, rest: seq<Row>)
    requires IsBlock(h, ending, body, rest) && (body == [] || (!secret(h.entry.key) && !HoldsKey(body)))
    ensures RedactText(secret, Lines(Block(h, ending, body, rest))) ==
            Behind(HeaderText(h) + ending, RedactText(secret, Lines(RowTexts(body + rest))), body + rest != [])
  {
    var lines := Block(h, ending, body, rest);
    BlockLines(h, ending, body, rest);
    BlockMasked(secret, h, ending, body, rest);
    KeptStep(secret, Classified(lines), 0, lines[0]);
    FirstStep(secret, lines, lines[0], 1);
  }

  /** The line is written like a header. */
  ghost predicate IsHeadLine(line: string) {
    exists h, ending :: HeadLine(h, ending) && line == HeaderText(h) + ending
  }

  lemma NoHeadRead(line: string)
    requires !IsHeadLine(line)
    ensures Classify(line).head.None? && Classify(line).text == line
  {
    var (body, ending) := TrimCR(line);
    if HeaderOf(body).Some? { HeadFound(line, body, ending); }
  }

  lemma HeadFound(line: string, body: string, ending: string)
    requires TrimCR(line) == (body, ending) && HeaderOf(body).Some?
    ensures IsHeadLine(line)
  {
    var h := HeaderFound(body);
    assert line == HeaderText(h) + ending;
    assert HeadLine(h, ending);
  }

  /** Any other line stays, and the lines behind it are redacted on their own. */
  lemma OtherLineStays(secret: string -> bool, line: string, rest: seq<string>)
    requires !IsHeadLine(line) && '\n' !in line && NoneHas(rest, '\n')
    ensures RedactText(secret, Lines([line] + rest)) == Behind(line, RedactText(secret, Lines(rest)), rest != [])
  {
    var lines := [line] + rest;
    NoHeadRead(line);
    ClassifiedAt(lines, 0);
    assert NoneHas(lines, '\n') && lines[1..] == rest;
    KeptStep(secret, Classified(lines), 0, line);
    FirstStep(secret, lines, line, 1);
  }
}

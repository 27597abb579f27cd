/** Mapping entries and block-scalar headers as they are written, and that the scanners read exactly those. */
module YamlLines {
  import opened Text
  import opened BlockScalar

  // ---------- How a line is written ----------

  predicate IsMark(quote: string) {
    quote == "" || quote == "'" || quote == "\""
  }

  /** A letter or an underscore, then letters, digits, underscores, dots and dashes. */
  predicate IsYamlKey(key: string) {
    && key != "" && ('a' <= key[0] <= 'z' || 'A' <= key[0] <= 'Z' || key[0] == '_')
    && forall k | 0 <= k < |key| ::
         'a' <= key[k] <= 'z' || 'A' <= key[k] <= 'Z' || '0' <= key[k] <= '9' || key[k] == '_' || key[k] == '.' || key[k] == '-'
  }

  /** The text in front of a key: indentation, sequence dashes with the blanks behind them, an opening quote. */
  datatype Lead = Lead(indent: string, items: seq<string>, quote: string)

  function Items(items: seq<string>): string {
    if items == [] then "" else "-" + items[0] + Items(items[1..])
  }

  function LeadText(l: Lead): string {
    l.indent + Items(l.items) + l.quote
  }

  predicate ProperItems(items: seq<string>) {
    forall k | 0 <= k < |items| :: items[k] != "" && Blanks(items[k])
  }

  predicate ProperLead(l: Lead) {
    Blanks(l.indent) && ProperItems(l.items) && IsMark(l.quote)
  }

  /** A key with what stands in front of it, up to the colon. */
  datatype Mapping = Mapping(lead: Lead, key: string, quote: string, gap: string)

  function MappingText(m: Mapping): string {
    LeadText(m.lead) + m.key + m.quote + m.gap + ":"
  }

  predicate ProperMapping(m: Mapping) {
    ProperLead(m.lead) && IsYamlKey(m.key) && IsMark(m.quote) && Blanks(m.gap)
  }

  /** The line opens a mapping entry. */
  ghost predicate OpensMapping(line: string) {
    exists m, rest :: ProperMapping(m) && line == MappingText(m) + rest
  }

  /** A block-scalar header: a mapping entry, `|` or `>`, chomping and indentation indicators, maybe a comment. */
  datatype Header = Header(entry: Mapping, gap: string, style: char, indicators: string, trail: string, comment: string)

  /** The part of a header that stays when its body is masked. */
  function Prefix(h: Header): string {
    MappingText(h.entry) + h.gap
  }

  function HeaderText(h: Header): string {
    Prefix(h) + [h.style] + h.indicators + h.trail + h.comment
  }

  predicate ProperHeader(h: Header) {
    && ProperMapping(h.entry) && Blanks(h.gap) && (h.style == '|' || h.style == '>')
    && AreIndicators(h.indicators)
    && Blanks(h.trail) && (h.comment == "" || h.comment[0] == '#') && '\n' !in h.comment
  }

  // ---------- What is written is read ----------

  /** A run that starts behind `a` and ends behind `b`, where a character stands that does not belong to it. */
  lemma RunOver(s: string, a: string, b: string, rest: string, p: char -> bool)
    requires s == a + b + rest && (forall k | 0 <= k < |b| :: p(b[k])) && (rest == "" || !p(rest[0]))
    ensures Run(s, |a|, p) == |a| + |b|
  {
    assert forall k | |a| <= k < |a| + |b| :: s[k] == b[k - |a|];
    assert rest != "" ==> s[|a| + |b|] == rest[0];
    RunIs(s, |a|, |a| + |b|, p);
  }

  lemma RunSlice(s: string, i: nat, j: nat, p: char -> bool)
    requires i <= j <= |s| && (forall k | 0 <= k < |s[i..j]| :: p(s[i..j][k])) && (j == |s| || !p(s[j]))
    ensures Run(s, i, p) == j
  {
    forall k | i <= k < j ensures p(s[k]) {
      assert s[k] == s[i..j][k - i];
    }
    RunIs(s, i, j, p);
  }

  lemma DashSlices(s: string, i: nat, d: nat, b: string, more: string)
    requires i <= d <= |s| && s[i..d] == "-" + b + more
    ensures var j := i + 1 + |b|;
            j <= d && s[i] == '-' && s[i + 1..j] == b && s[j..d] == more && (b != "" ==> s[i + 1] == b[0]) && (more != "" ==> s[j] == more[0])
  {
    var t, j := "-" + b + more, i + 1 + |b|;
    assert t == "-" + (b + more) && t[0] == '-' && t[1..] == b + more && |t| == d - i;
    assert t[1..1 + |b|] == (b + more)[..|b|] == b && t[1 + |b|..] == (b + more)[|b|..] == more;
    assert s[i] == s[i..d][0];
    assert s[i + 1..j] == s[i..d][1..1 + |b|] && s[j..d] == s[i..d][1 + |b|..];
  }

  /** The dashes in front of a quote or a key are passed over. */
  lemma {:induction false} DashesRead(s: string, i: nat, d: nat, items: seq<string>)
    requires i <= d < |s| && s[i..d] == Items(items) && ProperItems(items) && s[d] != '-' && !IsBlank(s[d])
    ensures Dashes(s, i) == d
    decreases |items|
  {
    if items != [] {
      var b, j := items[0], i + 1 + |items[0]|;
      DashSlices(s, i, d, b, Items(items[1..]));
      RunSlice(s, i + 1, j, IsBlank);
      DashesRead(s, j, d, items[1..]);
    }
  }

  predicate StartsKey(rest: string) {
    rest != "" && IsKeyStart(rest[0])
  }

  lemma ItemsFirst(items: seq<string>, more: string)
    requires more != "" && !IsBlank(more[0])
    ensures Items(items) + more != "" && !IsBlank((Items(items) + more)[0])
  {
    if items == [] { assert Items(items) + more == more; }
  }

  lemma QuoteRead(s: string, i: nat, j: nat)
    requires i <= j <= |s| && IsMark(s[i..j]) && (j < |s| ==> !IsQuote(s[j]))
    ensures SkipQuote(s, i) == j
  {
    assert j > i ==> s[i..j][0] == s[i];
  }

  /** Where the parts of a mapping entry stand. */
  datatype Layout = Layout(indent: nat, items: nat, key: nat, keyEnd: nat, quote: nat, colon: nat)

  predicate LaidOut(s: string, m: Mapping, p: Layout) {
    && p.indent <= p.items <= p.key < p.keyEnd <= p.quote <= p.colon < |s|
    && s[0..p.indent] == m.lead.indent && s[p.indent..p.items] == Items(m.lead.items) && s[p.items..p.key] == m.lead.quote
    && s[p.key..p.keyEnd] == m.key && s[p.keyEnd..p.quote] == m.quote && s[p.quote..p.colon] == m.gap && s[p.colon] == ':'
  }

  lemma SliceFirst(s: string, i: nat, j: nat)
    requires i < j <= |s|
    ensures s[i..j][0] == s[i]
  {
  }

  lemma LeadRead(s: string, m: Mapping, p: Layout)
    requires ProperMapping(m) && LaidOut(s, m, p)
    ensures LeadEnd(s) == p.key
  {
    SliceFirst(s, p.key, p.keyEnd);
    if p.items < p.key { SliceFirst(s, p.items, p.key); }
    DashesRead(s, p.indent, p.items, m.lead.items);
    if p.indent < p.items { SliceFirst(s, p.indent, p.items); }
    RunSlice(s, 0, p.indent, IsBlank);
    QuoteRead(s, p.items, p.key);
  }

  lemma KeyRead(s: string, m: Mapping, p: Layout)
    requires ProperMapping(m) && LaidOut(s, m, p)
    ensures IsKeyStart(s[p.key]) && Run(s, p.key + 1, IsKeyChar) == p.keyEnd
  {
    SliceFirst(s, p.key, p.keyEnd);
    if p.keyEnd < p.quote { SliceFirst(s, p.keyEnd, p.quote); }
    if p.quote < p.colon { SliceFirst(s, p.quote, p.colon); }
    forall k | p.key + 1 <= k < p.keyEnd ensures IsKeyChar(s[k]) {
      assert s[k] == m.key[k - p.key];
    }
    RunIs(s, p.key + 1, p.keyEnd, IsKeyChar);
  }

  lemma GapRead(s: string, m: Mapping, p: Layout)
    requires ProperMapping(m) && LaidOut(s, m, p)
    ensures SkipQuote(s, p.keyEnd) == p.quote && Run(s, p.quote, IsBlank) == p.colon
  {
    if p.quote < p.colon { SliceFirst(s, p.quote, p.colon); }
    QuoteRead(s, p.keyEnd, p.quote);
    RunSlice(s, p.quote, p.colon, IsBlank);
  }

  lemma EntryAt(s: string, m: Mapping, p: Layout)
    requires ProperMapping(m) && LaidOut(s, m, p)
    ensures MappingEntry(s) == Some(Entry(p.key, p.keyEnd, p.colon))
  {
    LeadRead(s, m, p);
    KeyRead(s, m, p);
    GapRead(s, m, p);
    EntryBy(s, p.key, p.keyEnd, p.colon);
  }

  lemma EntryBy(s: string, key: nat, keyEnd: nat, colon: nat)
    requires LeadEnd(s) == key < |s| && IsKeyStart(s[key]) && Run(s, key + 1, IsKeyChar) == keyEnd <= |s|
    requires Run(s, SkipQuote(s, keyEnd), IsBlank) == colon < |s| && s[colon] == ':'
    ensures MappingEntry(s) == Some(Entry(key, keyEnd, colon))
  {
  }

  function LayoutOf(m: Mapping): Layout {
    var i := |m.lead.indent|;
    var d := i + |Items(m.lead.items)|;
    var k := d + |m.lead.quote|;
    Layout(i, d, k, k + |m.key|, k + |m.key| + |m.quote|, k + |m.key| + |m.quote| + |m.gap|)
  }

  lemma SevenParts(a: string, b: string, c: string, d: string, e: string, f: string, rest: string)
    ensures var s, i, j, k := a + b + c + d + e + f + ":" + rest, |a| + |b|, |a| + |b| + |c|, |a| + |b| + |c| + |d|;
            var l, m := k + |e|, k + |e| + |f|;
            && m < |s| && s[0..|a|] == a && s[|a|..i] == b && s[i..j] == c && s[j..k] == d && s[k..l] == e && s[l..m] == f
            && s[m] == ':' && s[..j] == a + b + c
  {
  }

  lemma WrittenOut(m: Mapping, rest: string)
    ensures LaidOut(MappingText(m) + rest, m, LayoutOf(m)) || m.key == ""
    ensures (MappingText(m) + rest)[..LayoutOf(m).key] == LeadText(m.lead)
  {
    SevenParts(m.lead.indent, Items(m.lead.items), m.lead.quote, m.key, m.quote, m.gap, rest);
  }

  lemma LayoutSizes(m: Mapping)
    ensures LayoutOf(m).key == |LeadText(m.lead)| && LayoutOf(m).keyEnd == |LeadText(m.lead)| + |m.key|
    ensures LayoutOf(m).colon == |MappingText(m)| - 1
  {
  }

  /** A written mapping entry is read, with its key where it stands and its colon. */
  lemma EntryRead(m: Mapping, rest: string)
    requires ProperMapping(m)
    ensures var a, s := LeadText(m.lead), MappingText(m) + rest;
            MappingEntry(s) == Some(Entry(|a|, |a| + |m.key|, |MappingText(m)| - 1)) && s[|a|..|a| + |m.key|] == m.key && s[..|a|] == a
  {
    WrittenOut(m, rest);
    LayoutSizes(m);
    EntryAt(MappingText(m) + rest, m, LayoutOf(m));
  }

  predicate AreIndicators(s: string) {
    forall k | 0 <= k < |s| :: '0' <= s[k] <= '9' || s[k] == '+' || s[k] == '-'
  }

  /** A written header is read, with the part that stays, the text in front of its key, and the key. */
  lemma HeaderRead(h: Header)
    requires ProperHeader(h)
    ensures HeaderOf(HeaderText(h)) == Some(Match(Prefix(h), LeadText(h.entry.lead), h.entry.key))
  {
    var a, key := LeadText(h.entry.lead), h.entry.key;
    var e := Entry(|a|, |a| + |key|, |MappingText(h.entry)| - 1);
    HeadEntry(h, e);
    HeaderIs(HeaderText(h), e);
    ValueRead(HeaderText(h), h, MappingText(h.entry), e);
  }

  lemma HeadEntry(h: Header, e: Entry)
    requires ProperHeader(h)
    requires var a := LeadText(h.entry.lead); e == Entry(|a|, |a| + |h.entry.key|, |MappingText(h.entry)| - 1)
    ensures MappingEntry(HeaderText(h)) == Some(e)
    ensures HeaderText(h)[e.key..e.keyEnd] == h.entry.key && HeaderText(h)[..e.key] == LeadText(h.entry.lead)
  {
    var value := [h.style] + h.indicators + h.trail + h.comment;
    HeaderRegrouped(MappingText(h.entry), h.gap, value, h.style, h.indicators, h.trail, h.comment);
    EntryRead(h.entry, h.gap + value);
  }

  lemma HeaderRegrouped(m: string, gap: string, value: string, style: char, indicators: string, trail: string, comment: string)
    requires value == [style] + indicators + trail + comment
    ensures m + gap + [style] + indicators + trail + comment == m + (gap + value)
  {
  }

  lemma HeaderIs(s: string, e: Entry)
    requires MappingEntry(s) == Some(e)
    ensures HeaderOf(s) == BlockValue(s, e)
  {
  }

  /** Where the parts of a header stand. */
  lemma HeaderParts(s: string, m: string, gap: string, style: char, indicators: string, trail: string, comment: string)
    requires s == m + gap + [style] + indicators + trail + comment
    ensures var v, n, tail := |m| + |gap|, |m| + |gap| + 1 + |indicators|, |m| + |gap| + 1 + |indicators| + |trail|;
            && |s| == tail + |comment| && s[..v] == m + gap && s[|m|..v] == gap && s[v] == style && s[v + 1..n] == indicators
            && s[n..tail] == trail && s[tail..] == comment
            && (comment != "" ==> s[tail] == comment[0]) && (trail != "" ==> s[n] == trail[0])
  {
  }

  lemma ValueRead(s: string, h: Header, m: string, e: Entry)
    requires ProperHeader(h) && s == m + h.gap + [h.style] + h.indicators + h.trail + h.comment
    requires e.key <= e.keyEnd <= e.colon == |m| - 1
    ensures BlockValue(s, e) == Some(Match(m + h.gap, s[..e.key], s[e.key..e.keyEnd]))
  {
    HeaderParts(s, m, h.gap, h.style, h.indicators, h.trail, h.comment);
    ValueAt(s, e, |m + h.gap|, |m + h.gap| + 1 + |h.indicators|, |s| - |h.comment|);
  }

  lemma ValueAt(s: string, e: Entry, v: nat, n: nat, tail: nat)
    requires e.key <= e.keyEnd <= e.colon < v < n <= tail <= |s|
    requires Blanks(s[e.colon + 1..v]) && (s[v] == '|' || s[v] == '>') && AreIndicators(s[v + 1..n])
    requires Blanks(s[n..tail]) && (tail < |s| ==> s[tail] == '#') && '\n' !in s[tail..]
    ensures BlockValue(s, e) == Some(Match(s[..v], s[..e.key], s[e.key..e.keyEnd]))
  {
    StopsRead(s, e.colon + 1, v, n, tail);
    ValueBy(s, e, v, tail);
  }

  lemma StopsRead(s: string, a: nat, v: nat, n: nat, tail: nat)
    requires a <= v < n <= tail <= |s| && Blanks(s[a..v]) && (s[v] == '|' || s[v] == '>') && AreIndicators(s[v + 1..n])
    requires Blanks(s[n..tail]) && (tail < |s| ==> s[tail] == '#')
    ensures Run(s, a, IsBlank) == v && Run(s, v + 1, IsIndicatorChar) == n && Run(s, n, IsBlank) == tail
  {
    assert n < tail ==> s[n] == s[n..tail][0];
    RunSlice(s, a, v, IsBlank);
    RunSlice(s, v + 1, n, IsIndicatorChar);
    RunSlice(s, n, tail, IsBlank);
  }

  lemma ValueBy(s: string, e: Entry, v: nat, tail: nat)
    requires e.key <= e.keyEnd <= e.colon < |s|
    requires Run(s, e.colon + 1, IsBlank) == v < |s| && (s[v] == '|' || s[v] == '>')
    requires Run(s, Run(s, v + 1, IsIndicatorChar), IsBlank) == tail <= |s|
    requires tail < |s| ==> s[tail] == '#' && '\n' !in s[tail..]
    ensures BlockValue(s, e) == Some(Match(s[..v], s[..e.key], s[e.key..e.keyEnd]))
  {
  }

  // ---------- What is read is written ----------

  lemma BlankRun(s: string, i: nat)
    requires i <= |s|
    ensures Blanks(s[i..Run(s, i, IsBlank)])
  {
    RunChars(s, i, IsBlank);
  }

  lemma {:induction false} DashesFound(s: string, i: nat) returns (items: seq<string>)
    requires i <= |s|
    ensures ProperItems(items) && s[i..Dashes(s, i)] == Items(items)
    decreases |s| - i
  {
    if i + 1 < |s| && s[i] == '-' && IsBlank(s[i + 1]) {
      var j := Run(s, i + 1, IsBlank);
      BlankRun(s, i + 1);
      var more := DashesFound(s, j);
      items := [s[i + 1..j]] + more;
      assert items[1..] == more;
      DashedSlices(s, i, j, Dashes(s, i));
    } else {
      items := [];
    }
  }

  lemma DashedSlices(s: string, i: nat, j: nat, end: nat)
    requires i < j <= end <= |s| && s[i] == '-'
    ensures s[i..end] == "-" + s[i + 1..j] + s[j..end]
  {
  }

  lemma LeadFound(s: string) returns (l: Lead)
    ensures ProperLead(l) && s[..LeadEnd(s)] == LeadText(l)
  {
    var i := Run(s, 0, IsBlank);
    var d := Dashes(s, i);
    BlankRun(s, 0);
    var items := DashesFound(s, i);
    l := Lead(s[0..i], items, s[d..LeadEnd(s)]);
    assert s[..LeadEnd(s)] == s[0..i] + s[i..d] + s[d..LeadEnd(s)];
  }

  lemma KeyFound(s: string, key: nat)
    requires key < |s| && IsKeyStart(s[key])
    ensures IsYamlKey(s[key..Run(s, key + 1, IsKeyChar)])
  {
    RunChars(s, key + 1, IsKeyChar);
    var k := s[key..Run(s, key + 1, IsKeyChar)];
    assert forall j | 0 <= j < |k| :: k[j] == s[key + j] && IsKeyChar(s[key + j]);
  }

  /** A line that is read as a mapping entry is written as one. */
  lemma EntryFound(s: string) returns (m: Mapping, rest: string)
    requires MappingEntry(s).Some?
    ensures ProperMapping(m) && s == MappingText(m) + rest && |MappingText(m)| == MappingEntry(s).value.colon + 1
    ensures LeadText(m.lead) == s[..MappingEntry(s).value.key]
    ensures m.key == s[MappingEntry(s).value.key..MappingEntry(s).value.keyEnd]
  {
    var Entry(key, keyEnd, colon) := MappingEntry(s).value;
    var lead := LeadFound(s);
    var q := SkipQuote(s, keyEnd);
    KeyFound(s, key);
    BlankRun(s, q);
    m := Mapping(lead, s[key..keyEnd], s[keyEnd..q], s[q..colon]);
    rest := s[colon + 1..];
    EntrySlices(s, key, keyEnd, q, colon);
  }

  lemma EntrySlices(s: string, key: nat, keyEnd: nat, q: nat, colon: nat)
    requires key <= keyEnd <= q <= colon < |s| && s[colon] == ':'
    ensures var t := s[..key] + s[key..keyEnd] + s[keyEnd..q] + s[q..colon] + ":"; |t| == colon + 1 && s == t + s[colon + 1..]
  {
  }

  /** The scanner finds a mapping entry exactly where one is written. */
  lemma EntryMeaning(line: string)
    ensures MappingEntry(line).Some? <==> OpensMapping(line)
  {
    if MappingEntry(line).Some? {
      var m, rest := EntryFound(line);
    }
    if OpensMapping(line) {
      var m, rest :| ProperMapping(m) && line == MappingText(m) + rest;
      EntryRead(m, rest);
    }
  }

  /** A line that is read as a header is written as one, with the same prefix and key. */
  lemma HeaderFound(s: string) returns (h: Header)
    requires HeaderOf(s).Some?
    ensures ProperHeader(h) && s == HeaderText(h)
  {
    var m, rest := EntryFound(s);
    var e := MappingEntry(s).value;
    HeaderIs(s, e);
    assert s[..e.colon + 1] == MappingText(m);
    h := ValueFound(s, e, m);
  }

  lemma ValueFound(s: string, e: Entry, m: Mapping) returns (h: Header)
    requires e.key <= e.keyEnd <= e.colon < |s| && BlockValue(s, e).Some?
    requires ProperMapping(m) && s[..e.colon + 1] == MappingText(m)
    ensures ProperHeader(h) && s == HeaderText(h)
  {
    var a := e.colon + 1;
    var v, n, tail := ValueStops(s, e);
    h := Header(m, s[a..v], s[v], s[v + 1..n], s[n..tail], s[tail..]);
    HeaderSlices(s, a, v, n, tail);
  }

  /** Where the parts of the value end. */
  lemma ValueStops(s: string, e: Entry) returns (v: nat, n: nat, tail: nat)
    requires e.key <= e.keyEnd <= e.colon < |s| && BlockValue(s, e).Some?
    ensures e.colon < v < n <= tail <= |s| && Blanks(s[e.colon + 1..v]) && (s[v] == '|' || s[v] == '>') && Blanks(s[n..tail])
    ensures forall k | v + 1 <= k < n :: '0' <= s[k] <= '9' || s[k] == '+' || s[k] == '-'
    ensures tail < |s| ==> s[tail] == '#' && '\n' !in s[tail..]
  {
    v := Run(s, e.colon + 1, IsBlank);
    n := Run(s, v + 1, IsIndicatorChar);
    tail := Run(s, n, IsBlank);
    BlankRun(s, e.colon + 1);
    BlankRun(s, n);
    RunChars(s, v + 1, IsIndicatorChar);
  }

  lemma HeaderSlices(s: string, a: nat, v: nat, n: nat, tail: nat)
    requires a <= v < n <= tail <= |s|
    ensures s == s[..a] + s[a..v] + [s[v]] + s[v + 1..n] + s[n..tail] + s[tail..]
  {
  }

  /** The scanner finds a header exactly where one is written. */
  lemma HeaderMeaning(line: string)
    ensures HeaderOf(line).Some? <==> exists h :: ProperHeader(h) && line == HeaderText(h)
  {
    if HeaderOf(line).Some? {
      var h := HeaderFound(line);
    }
    if h :| ProperHeader(h) && line == HeaderText(h) {
      HeaderRead(h);
    }
  }
}

/** The cookie rule: every cookie value of a Cookie or Set-Cookie header is masked, names and attributes stay. */
module Cookies {
  import opened Text

  predicate NotEquals(c: char) { c != '=' }

  predicate NotReturn(c: char) { c != '\r' }

  function Lower(s: string): string {
    seq(|s|, k requires 0 <= k < |s| => LowerChar(s[k]))
  }

  /** The Set-Cookie attribute names whose values describe the cookie rather than carry it. */
  const ATTRIBUTES := {
    "path", "domain", "expires", "max-age", "samesite", "secure", "httponly", "partitioned",
    "priority", "version", "comment", "commenturl", "discard", "port", "sameparty" }

  // ---------- One segment ----------

  /** `strings.Cut(seg, "=")`: the name, and the value when there is an equals sign. */
  function Name(seg: string): string {
    seg[..Run(seg, 0, NotEquals)]
  }

  predicate HasValue(seg: string) {
    Run(seg, 0, NotEquals) < |seg|
  }

  function Value(seg: string): string
    requires HasValue(seg)
  {
    seg[Run(seg, 0, NotEquals) + 1..]
  }

  /** The value without the blanks at its end, as `strings.TrimRight(val, " \t")`. */
  function Core(val: string): (core: string)
    ensures core <= val
  {
    if val != "" && IsBlank(val[|val| - 1]) then Core(val[..|val| - 1]) else val
  }

  function Trailing(val: string): string {
    val[|Core(val)|..]
  }

  /** A segment in attribute position whose name is a known attribute or does not read as secret-bearing. */
  predicate IsAttribute(secret: string -> bool, isSetCookie: bool, i: nat, seg: string) {
    var trimmed := TrimSpace(Name(seg));
    isSetCookie && i > 0 && (Lower(trimmed) in ATTRIBUTES || !secret(trimmed))
  }

  predicate Kept(secret: string -> bool, isSetCookie: bool, i: nat, seg: string) {
    !HasValue(seg) || IsAttribute(secret, isSetCookie, i, seg)
  }

  function MaskSegment(secret: string -> bool, isSetCookie: bool, i: nat, seg: string): string {
    if Kept(secret, isSetCookie, i, seg) then seg else Name(seg) + "=" + MARK + Trailing(Value(seg))
  }

  lemma {:induction false} CoreOf(a: string, blanks: string)
    requires a != "" && !IsBlank(a[|a| - 1]) && forall k | 0 <= k < |blanks| :: IsBlank(blanks[k])
    ensures Core(a + blanks) == a
  {
    if blanks == "" {
      assert a + blanks == a;
    } else {
      assert (a + blanks)[..|a + blanks| - 1] == a + blanks[..|blanks| - 1];
      CoreOf(a, blanks[..|blanks| - 1]);
    }
  }

  lemma {:induction false} TrailingBlank(val: string)
    ensures forall k | 0 <= k < |Trailing(val)| :: IsBlank(Trailing(val)[k])
  {
    if val != "" && IsBlank(val[|val| - 1]) {
      var short := val[..|val| - 1];
      TrailingBlank(short);
      assert Trailing(val) == Trailing(short) + [val[|val| - 1]];
    }
  }

  /** What a masked segment looks like: same name, the marker for the value, same trailing blanks. */
  lemma MaskedSegment(name: string, trailing: string)
    requires '=' !in name && forall k | 0 <= k < |trailing| :: IsBlank(trailing[k])
    ensures var seg := name + "=" + MARK + trailing;
            && HasValue(seg) && Name(seg) == name && Value(seg) == MARK + trailing
            && Trailing(Value(seg)) == trailing
  {
    var seg := name + "=" + MARK + trailing;
    assert seg[|name|] == '=';
    RunIs(seg, 0, |name|, NotEquals);
    CoreOf(MARK, trailing);
  }

  /** Masking keeps the name, and keeps or masks the same segments when applied again. */
  lemma SegmentFacts(secret: string -> bool, isSetCookie: bool, i: nat, seg: string)
    ensures var out := MaskSegment(secret, isSetCookie, i, seg);
            && Name(out) == Name(seg) && HasValue(out) == HasValue(seg)
            && MaskSegment(secret, isSetCookie, i, out) == out
            && (HasValue(seg) ==> Trailing(Value(out)) == Trailing(Value(seg)))
            && (!Kept(secret, isSetCookie, i, seg) ==> Value(out) == MARK + Trailing(Value(seg)))
  {
    if !Kept(secret, isSetCookie, i, seg) {
      RunChars(seg, 0, NotEquals);
      TrailingBlank(Value(seg));
      MaskedSegment(Name(seg), Trailing(Value(seg)));
    }
  }

  // ---------- A header value ----------

  function MaskSegments(secret: string -> bool, isSetCookie: bool, segments: seq<string>): seq<string> {
    seq(|segments|, i requires 0 <= i < |segments| => MaskSegment(secret, isSetCookie, i, segments[i]))
  }

  function MaskValue(secret: string -> bool, isSetCookie: bool, value: string): string {
    Join(MaskSegments(secret, isSetCookie, Split(value, ';')), ";")
  }

  /** The body of the loop: what becomes of one segment. */
  method RedactSegment(secret: string -> bool, isSetCookie: bool, i: nat, seg: string) returns (result: string)
    ensures result == MaskSegment(secret, isSetCookie, i, seg)
  {
    if !HasValue(seg) {
      return seg;
    }
    var name, val := Name(seg), Value(seg);
    if isSetCookie && i > 0 {
      var trimmed := TrimSpace(name);
      if Lower(trimmed) in ATTRIBUTES || !secret(trimmed) {
        return seg;
      }
    }
    return name + "=" + MARK + Trailing(val);
  }

  /** The loop over the segments of one header value, rewriting them in place. */
  method RedactCookieValue(secret: string -> bool, isSetCookie: bool, value: string) returns (result: string)
    ensures result == MaskValue(secret, isSetCookie, value)
  {
    var segments := Split(value, ';');
    ghost var before := segments;
    for i := 0 to |segments|
      invariant |segments| == |before|
      invariant forall k | 0 <= k < i :: segments[k] == MaskSegments(secret, isSetCookie, before)[k]
      invariant forall k | i <= k < |before| :: segments[k] == before[k]
    {
      var masked := RedactSegment(secret, isSetCookie, i, segments[i]);
      segments := segments[i := masked];
    }
    assert segments == MaskSegments(secret, isSetCookie, before);
    return Join(segments, ";");
  }

  lemma MaskedSegmentsWhole(secret: string -> bool, isSetCookie: bool, value: string)
    ensures Split(MaskValue(secret, isSetCookie, value), ';') == MaskSegments(secret, isSetCookie, Split(value, ';'))
  {
    var segments := Split(value, ';');
    SplitFree(value, ';');
    forall i | 0 <= i < |segments| ensures ';' !in MaskSegments(secret, isSetCookie, segments)[i] {
      if !Kept(secret, isSetCookie, i, segments[i]) {
        assert Trailing(Value(segments[i])) == segments[i][|segments[i]| - |Trailing(Value(segments[i]))|..];
        assert ';' !in MARK;
      }
    }
    SplitJoin(MaskSegments(secret, isSetCookie, segments), ';');
  }

  /**
   Segment by segment, masking keeps the number of segments, every name, every valueless attribute and the blanks
   at the end of a value; a value survives exactly in attribute position under a name that is not secret-bearing,
   and everywhere else it becomes the marker.
   */
  lemma ValueShape(secret: string -> bool, isSetCookie: bool, value: string, i: nat)
    requires i < |Split(value, ';')|
    ensures |Split(MaskValue(secret, isSetCookie, value), ';')| == |Split(value, ';')|
    ensures var seg, out := Split(value, ';')[i], Split(MaskValue(secret, isSetCookie, value), ';')[i];
            && Name(out) == Name(seg) && HasValue(out) == HasValue(seg)
            && (HasValue(seg) ==> Trailing(Value(out)) == Trailing(Value(seg)))
            && (!HasValue(seg) || IsAttribute(secret, isSetCookie, i, seg) ==> out == seg)
            && (HasValue(seg) && !IsAttribute(secret, isSetCookie, i, seg) ==> Value(out) == MARK + Trailing(Value(seg)))
  {
    MaskedSegmentsWhole(secret, isSetCookie, value);
    SegmentFacts(secret, isSetCookie, i, Split(value, ';')[i]);
  }

  /** Masking a header value twice is masking it once. */
  lemma ValueIdempotent(secret: string -> bool, isSetCookie: bool, value: string)
    ensures MaskValue(secret, isSetCookie, MaskValue(secret, isSetCookie, value)) == MaskValue(secret, isSetCookie, value)
  {
    var segments := Split(value, ';');
    var out := MaskSegments(secret, isSetCookie, segments);
    MaskedSegmentsWhole(secret, isSetCookie, value);
    forall i | 0 <= i < |segments| ensures MaskSegment(secret, isSetCookie, i, out[i]) == out[i] {
      SegmentFacts(secret, isSetCookie, i, segments[i]);
    }
    assert MaskSegments(secret, isSetCookie, out) == out;
  }

  // ---------- A whole text ----------

  /** A matched header: the value starts at `start`, `isSetCookie` tells the two headers apart. */
  datatype Header = Header(start: nat, isSetCookie: bool)

  /** Where the header's name goes on behind an optional `set-`. */
  function CookieAt(line: string): nat {
    var i := Run(line, 0, IsBlank);
    if Says(line, i, "set-") then i + 4 else i
  }

  /** Behind the name: blanks, a colon, blanks, and the value. */
  function ValueAfter(line: string, j: nat): (start: Option<nat>)
    requires j <= |line|
    ensures start.Some? ==> j < start.value <= |line|
  {
    var k := Run(line, j, IsBlank);
    if k < |line| && line[k] == ':' then Some(Run(line, k + 1, IsBlank)) else None
  }

  /** Matches a line against the cookie header pattern. */
  function HeaderOf(line: string): (h: Option<Header>)
    ensures h.Some? ==> h.value.start <= |line|
  {
    var j := CookieAt(line);
    if Says(line, j, "cookie") && ValueAfter(line, j + 6).Some? then
      Some(Header(ValueAfter(line, j + 6).value, j != Run(line, 0, IsBlank)))
    else None
  }

  /** A header line keeps its head and what follows a carriage return; the value between them is masked. */
  function MaskLine(secret: string -> bool, line: string): string {
    match HeaderOf(line)
    case None => line
    case Some(h) =>
      var end := Run(line, h.start, NotReturn);
      if end == h.start then line
      else line[..h.start] + MaskValue(secret, h.isSetCookie, line[h.start..end]) + line[end..]
  }

  function MaskLines(secret: string -> bool, lines: seq<string>): seq<string> {
    seq(|lines|, k requires 0 <= k < |lines| => MaskLine(secret, lines[k]))
  }

  function MaskText(secret: string -> bool, input: string): string {
    Join(MaskLines(secret, Split(input, '\n')), "\n")
  }

  lemma {:induction false} JoinChars(parts: seq<string>, sep: char, c: char)
    requires c in Join(parts, [sep])
    ensures c == sep || exists k | 0 <= k < |parts| :: c in parts[k]
  {
    if |parts| > 1 && c !in parts[0] && c != sep {
      JoinChars(parts[1..], sep, c);
      var k :| 0 <= k < |parts[1..]| && c in parts[1..][k];
      assert c in parts[k + 1];
    }
  }

  predicate IsBreak(c: char) { c == '\r' || c == '\n' }

  lemma SegmentBreaks(secret: string -> bool, isSetCookie: bool, i: nat, seg: string, c: char)
    requires IsBreak(c) && c in MaskSegment(secret, isSetCookie, i, seg)
    ensures c in seg
  {
    if !Kept(secret, isSetCookie, i, seg) {
      var trailing := Trailing(Value(seg));
      assert trailing == seg[|seg| - |trailing|..];
      assert c !in MARK && c !in "=";
    }
  }

  lemma ValueBreaks(secret: string -> bool, isSetCookie: bool, value: string, c: char)
    requires IsBreak(c) && c in MaskValue(secret, isSetCookie, value)
    ensures c in value
  {
    var segments := Split(value, ';');
    var out := MaskSegments(secret, isSetCookie, segments);
    JoinChars(out, ';', c);
    var k :| 0 <= k < |out| && c in out[k];
    SegmentBreaks(secret, isSetCookie, k, segments[k], c);
    SplitChars(value, ';', k);
  }

  /** A masked value has no line break of its own. */
  lemma ValueNoBreaks(secret: string -> bool, isSetCookie: bool, value: string)
    ensures '\r' !in value ==> '\r' !in MaskValue(secret, isSetCookie, value)
    ensures '\n' !in value ==> '\n' !in MaskValue(secret, isSetCookie, value)
  {
    if '\r' in MaskValue(secret, isSetCookie, value) { ValueBreaks(secret, isSetCookie, value, '\r'); }
    if '\n' in MaskValue(secret, isSetCookie, value) { ValueBreaks(secret, isSetCookie, value, '\n'); }
  }

  lemma NameLocal(line: string, out: string, n: nat)
    requires Agree(line, out, n) && CookieAt(line) + 6 <= n
    ensures CookieAt(out) == CookieAt(line) && Run(out, 0, IsBlank) == Run(line, 0, IsBlank)
    ensures Says(out, CookieAt(line), "cookie") == Says(line, CookieAt(line), "cookie")
  {
    var i := Run(line, 0, IsBlank);
    RunLocal(line, out, 0, n, IsBlank);
  }

  lemma ValueLocal(line: string, out: string, j: nat, e: nat)
    requires Agree(line, out, e) && j <= e && ValueAfter(line, j) == Some(e) && e < |out| && !IsBlank(out[e])
    ensures ValueAfter(out, j) == Some(e)
  {
    var k := Run(line, j, IsBlank);
    RunLocal(line, out, j, e, IsBlank);
    RunChars(line, k + 1, IsBlank);
    RunIs(out, k + 1, e, IsBlank);
  }

  /** The head of a header line is recognised again in front of another value that starts with a non-blank. */
  lemma HeaderLocal(line: string, out: string)
    requires HeaderOf(line).Some?
    requires var e := HeaderOf(line).value.start; e < |out| && Agree(line, out, e) && !IsBlank(out[e])
    ensures HeaderOf(out) == HeaderOf(line)
  {
    var e := HeaderOf(line).value.start;
    NameLocal(line, out, e);
    ValueLocal(line, out, CookieAt(line) + 6, e);
  }

  lemma MaskLineParts(secret: string -> bool, a: string, value: string, rest: string, isSetCookie: bool)
    requires HeaderOf(a + value + rest) == Some(Header(|a|, isSetCookie))
    requires value != "" && '\r' !in value && (rest != "" ==> rest[0] == '\r')
    ensures MaskLine(secret, a + value + rest) == a + MaskValue(secret, isSetCookie, value) + rest
  {
    var line, end := a + value + rest, |a + value|;
    assert forall x | |a| <= x < end :: line[x] == value[x - |a|];
    RunIs(line, |a|, end, NotReturn);
    assert line[..|a|] == a && line[|a|..end] == value && line[end..] == rest;
  }

  lemma MaskedLineAgain(secret: string -> bool, line: string, h: Header, end: nat)
    requires HeaderOf(line) == Some(h) && h.start < end == Run(line, h.start, NotReturn)
    ensures var out := line[..h.start] + MaskValue(secret, h.isSetCookie, line[h.start..end]) + line[end..];
            MaskLine(secret, out) == out
  {
    var head, value, rest := line[..h.start], line[h.start..end], line[end..];
    var m := MaskValue(secret, h.isSetCookie, value);
    ValueStart(line);
    UpToReturn(line, h.start, end);
    MaskedStart(secret, h.isSetCookie, value);
    HeadKept(line, m, rest, h);
    MaskLineParts(secret, head, m, rest, h.isSetCookie);
    ValueIdempotent(secret, h.isSetCookie, value);
  }

  /** The masked value starts with a non-blank and holds no line ending. */
  lemma MaskedStart(secret: string -> bool, isSetCookie: bool, value: string)
    requires value != "" && !IsBlank(value[0]) && '\r' !in value
    ensures var m := MaskValue(secret, isSetCookie, value); m != "" && '\r' !in m && !IsBlank(m[0])
  {
    ValueNoBreaks(secret, isSetCookie, value);
    MaskedNonBlank(secret, isSetCookie, value);
  }

  lemma UpToReturn(line: string, start: nat, end: nat)
    requires start < end <= |line| && end == Run(line, start, NotReturn)
    ensures line[start..end][0] == line[start] && '\r' !in line[start..end] && (end < |line| ==> line[end..][0] == '\r')
  {
    RunChars(line, start, NotReturn);
    forall k | start <= k < end ensures line[k] != '\r' {
      assert NotReturn(line[k]);
    }
  }

  /** Masking changes neither the first character of a value nor that there is one, up to a separator. */
  lemma MaskedNonBlank(secret: string -> bool, isSetCookie: bool, value: string)
    requires value != "" && !IsBlank(value[0])
    ensures MaskValue(secret, isSetCookie, value) != "" && !IsBlank(MaskValue(secret, isSetCookie, value)[0])
  {
    var segments := Split(value, ';');
    var out := MaskSegments(secret, isSetCookie, segments);
    assert segments[0] != "" ==> segments[0][0] == value[0];
    assert segments[0] == "" ==> |segments| > 1;
  }

  lemma HeadKept(line: string, m: string, rest: string, h: Header)
    requires HeaderOf(line) == Some(h) && m != "" && !IsBlank(m[0])
    ensures HeaderOf(line[..h.start] + m + rest) == Some(h)
  {
    var out := line[..h.start] + m + rest;
    assert out[h.start] == m[0] && Agree(line, out, h.start);
    HeaderLocal(line, out);
  }

  lemma LineIdempotent(secret: string -> bool, line: string)
    ensures MaskLine(secret, MaskLine(secret, line)) == MaskLine(secret, line)
    ensures '\n' !in line ==> '\n' !in MaskLine(secret, line)
  {
    if HeaderOf(line).Some? {
      var h := HeaderOf(line).value;
      var end := Run(line, h.start, NotReturn);
      if end > h.start {
        ValueNoBreaks(secret, h.isSetCookie, line[h.start..end]);
        MaskedLineAgain(secret, line, h, end);
      }
    }
  }

  lemma ValueStart(line: string)
    requires HeaderOf(line).Some?
    ensures var e := HeaderOf(line).value.start; e < |line| ==> !IsBlank(line[e])
  {
    RunChars(line, Run(line, CookieAt(line) + 6, IsBlank) + 1, IsBlank);
  }

  /** Masking the cookies of a text twice is masking them once. */
  lemma TextIdempotent(secret: string -> bool, input: string)
    ensures MaskText(secret, MaskText(secret, input)) == MaskText(secret, input)
  {
    var lines := Split(input, '\n');
    var out := MaskLines(secret, lines);
    SplitFree(input, '\n');
    forall k | 0 <= k < |lines| ensures MaskLine(secret, out[k]) == out[k] && '\n' !in out[k] {
      LineIdempotent(secret, lines[k]);
    }
    SplitJoin(out, '\n');
    assert MaskLines(secret, out) == out;
  }
}

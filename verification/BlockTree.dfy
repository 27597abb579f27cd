/**
 The line structure the YAML block-scalar rule walks over. A line is reduced to what the rule asks about it,
 so the nesting of extents can be studied apart from the text of the lines.
 */
module BlockTree {
  import opened Text

  /** A block-scalar header: its key, the column of the key, its indentation, and the line that replaces it. */
  datatype Head = Head(key: string, column: nat, indent: nat, tabbed: bool, replacement: string)

  datatype Line = Line(
    text: string,
    blank: bool,        // nothing but white space
    width: nat,         // indentation, a tab counting 8
    tabbed: bool,       // a tab in the indentation
    entry: bool,        // opens a mapping entry
    marker: bool,       // holds a PEM private key marker
    head: Option<Head>)

  /** A header is a mapping entry whose key is not left of its own indentation. */
  predicate Sound(l: Line) {
    l.head.Some? ==> !l.blank && l.entry && l.width <= l.head.value.column
  }

  predicate AllSound(lines: seq<Line>) {
    forall k | 0 <= k < |lines| :: Sound(lines[k])
  }

  /** The non-blank line `l` continues the body of the block scalar headed by `h`. */
  predicate Continues(h: Head, l: Line) {
    || l.width > h.column
    || (l.width == h.column && !l.entry &&
        (h.column > h.indent || (l.width > 0 && (h.tabbed || l.tabbed))))
  }

  /** How many of the lines after a header belong to it: up to the last non-blank continuation before the first stop. */
  function Extent(h: Head, rest: seq<Line>): (n: nat)
    ensures n <= |rest|
  {
    if rest == [] then 0
    else if rest[0].blank then
      var n := Extent(h, rest[1..]);
      if n == 0 then 0 else n + 1
    else if Continues(h, rest[0]) then 1 + Extent(h, rest[1..])
    else 0
  }

  /** The length of the body headed by line `i`, 0 when line `i` is no header. */
  function BodyLen(lines: seq<Line>, i: nat): (n: nat)
    requires i < |lines|
    ensures i + n < |lines|
  {
    if lines[i].head.None? then 0 else Extent(lines[i].head.value, lines[i + 1..])
  }

  predicate HasMarker(body: seq<Line>) {
    exists k | 0 <= k < |body| :: body[k].marker
  }

  /** Line `i` heads a body that must not be shown. */
  predicate Masked(secret: string -> bool, lines: seq<Line>, i: nat)
    requires i < |lines|
  {
    var n := BodyLen(lines, i);
    n > 0 && (secret(lines[i].head.value.key) || HasMarker(lines[i + 1..i + 1 + n]))
  }

  function Mask(l: Line): Line
    requires l.head.Some?
  {
    l.(text := l.head.value.replacement, head := None, marker := false)
  }

  /** The rule over a list of lines. */
  function Redact(secret: string -> bool, lines: seq<Line>): seq<Line>
    decreases |lines|
  {
    if lines == [] then []
    else if Masked(secret, lines, 0) then [Mask(lines[0])] + Redact(secret, lines[1 + BodyLen(lines, 0)..])
    else [lines[0]] + Redact(secret, lines[1..])
  }

  // ---------- Extents are laminar ----------

  /** The first non-blank line, if there is one, does not continue the block headed by `h`. */
  predicate Stops(h: Head, rest: seq<Line>) {
    rest != [] ==> if rest[0].blank then Stops(h, rest[1..]) else !Continues(h, rest[0])
  }

  predicate AllContinue(h: Head, body: seq<Line>) {
    forall k | 0 <= k < |body| :: body[k].blank || Continues(h, body[k])
  }

  lemma {:induction false} ExtentSplits(h: Head, rest: seq<Line>)
    ensures AllContinue(h, rest[..Extent(h, rest)])
    ensures Stops(h, rest[Extent(h, rest)..])
  {
    if rest != [] {
      var n := Extent(h, rest);
      ExtentSplits(h, rest[1..]);
      if n > 0 {
        assert rest[1..][n - 1..] == rest[n..];
        assert forall k | 1 <= k < n :: rest[..n][k] == rest[1..][..n - 1][k - 1];
      } else {
        assert rest[1..][0..] == rest[1..];
        assert rest[0..] == rest;
      }
    }
  }

  lemma {:induction false} StopsHere(h: Head, rest: seq<Line>)
    requires Stops(h, rest)
    ensures Extent(h, rest) == 0
  {
    if rest != [] && rest[0].blank {
      StopsHere(h, rest[1..]);
    }
  }

  /** What stops a block stops every block whose key column lies further right. */
  lemma {:induction false} StopsNested(h: Head, g: Head, rest: seq<Line>)
    requires Stops(h, rest) && h.column < g.column
    ensures Stops(g, rest)
  {
    if rest != [] && rest[0].blank {
      StopsNested(h, g, rest[1..]);
    }
  }

  lemma {:induction false} ExtentBeforeStop(g: Head, body: seq<Line>, rest: seq<Line>)
    requires Stops(g, rest)
    ensures Extent(g, body + rest) == Extent(g, body)
  {
    if body == [] {
      assert body + rest == rest;
      StopsHere(g, rest);
    } else {
      assert (body + rest)[1..] == body[1..] + rest;
      ExtentBeforeStop(g, body[1..], rest);
    }
  }

  /** A header inside another header's extent has its whole extent inside it. */
  lemma Laminar(lines: seq<Line>, i: nat, j: nat)
    requires AllSound(lines)
    requires i < j < |lines| && j <= i + BodyLen(lines, i)
    ensures j + BodyLen(lines, j) <= i + BodyLen(lines, i)
  {
    if lines[j].head.Some? {
      var h, g := lines[i].head.value, lines[j].head.value;
      var rest, n := lines[i + 1..], BodyLen(lines, i);
      ExtentSplits(h, rest);
      assert rest[..n][j - i - 1] == lines[j];
      assert Sound(lines[j]);
      StopsNested(h, g, rest[n..]);
      ExtentBeforeStop(g, rest[j - i..n], rest[n..]);
      assert rest[j - i..n] + rest[n..] == lines[j + 1..];
    }
  }

  // ---------- Idempotence ----------

  /** Whether the first line of a block is masked does not depend on what follows the block. */
  lemma MaskedWithinBlock(secret: string -> bool, h: Head, body: seq<Line>, rest: seq<Line>)
    requires body != [] && Sound(body[0]) && AllContinue(h, body) && Stops(h, rest)
    ensures BodyLen(body + rest, 0) == BodyLen(body, 0)
    ensures Masked(secret, body + rest, 0) == Masked(secret, body, 0)
  {
    var all := body + rest;
    assert all[1..] == body[1..] + rest;
    if body[0].head.Some? {
      var g := body[0].head.value;
      StopsNested(h, g, rest);
      ExtentBeforeStop(g, body[1..], rest);
      assert all[1..1 + BodyLen(all, 0)] == body[1..1 + BodyLen(body, 0)];
    }
  }

  /** How many lines the rule takes in one step, and what it writes for them. */
  function Taken(secret: string -> bool, lines: seq<Line>): (n: nat)
    requires lines != []
    ensures 1 <= n <= |lines|
  {
    if Masked(secret, lines, 0) then 1 + BodyLen(lines, 0) else 1
  }

  function Written(secret: string -> bool, lines: seq<Line>): Line
    requires lines != []
  {
    if Masked(secret, lines, 0) then Mask(lines[0]) else lines[0]
  }

  lemma RedactStep(secret: string -> bool, lines: seq<Line>)
    requires lines != []
    ensures Redact(secret, lines) == [Written(secret, lines)] + Redact(secret, lines[Taken(secret, lines)..])
  {
  }

  lemma TakenWithinBlock(secret: string -> bool, h: Head, body: seq<Line>, rest: seq<Line>)
    requires body != [] && Sound(body[0]) && AllContinue(h, body) && Stops(h, rest)
    ensures Taken(secret, body + rest) == Taken(secret, body)
    ensures Written(secret, body + rest) == Written(secret, body)
  {
    MaskedWithinBlock(secret, h, body, rest);
  }

  /** The lines of a block are rewritten without regard to what follows the block. */
  lemma {:induction false} RedactSplits(secret: string -> bool, h: Head, body: seq<Line>, rest: seq<Line>)
    requires AllSound(body) && AllContinue(h, body) && Stops(h, rest)
    ensures Redact(secret, body + rest) == Redact(secret, body) + Redact(secret, rest)
    decreases |body|
  {
    if body == [] {
      assert body + rest == rest;
    } else {
      TakenWithinBlock(secret, h, body, rest);
      var n, w := Taken(secret, body), Written(secret, body);
      RedactStep(secret, body + rest);
      RedactStep(secret, body);
      DropConcat(body, rest, n);
      RedactSplits(secret, h, body[n..], rest);
      ConcatAssoc([w], Redact(secret, body[n..]), Redact(secret, rest));
    }
  }

  lemma {:induction false} StopsRedacted(secret: string -> bool, h: Head, rest: seq<Line>)
    requires AllSound(rest) && Stops(h, rest)
    ensures Stops(h, Redact(secret, rest))
  {
    if rest != [] {
      assert Sound(rest[0]);
      if rest[0].blank {
        StopsRedacted(secret, h, rest[1..]);
        assert Redact(secret, rest)[1..] == Redact(secret, rest[1..]);
      }
    }
  }

  /** Every line of the result is a line of the input or the replacement of one. */
  lemma {:induction false} Provenance(secret: string -> bool, lines: seq<Line>, k: nat) returns (i: nat)
    requires k < |Redact(secret, lines)|
    ensures i < |lines|
    ensures var l := Redact(secret, lines)[k];
            l == lines[i] || (lines[i].head.Some? && l == Mask(lines[i]))
    decreases |lines|
  {
    if k == 0 {
      i := 0;
    } else {
      var n := if Masked(secret, lines, 0) then 1 + BodyLen(lines, 0) else 1;
      i := Provenance(secret, lines[n..], k - 1);
      i := i + n;
    }
  }

  lemma NoNewMarker(secret: string -> bool, body: seq<Line>, m: nat)
    requires m <= |Redact(secret, body)| && !HasMarker(body)
    ensures !HasMarker(Redact(secret, body)[..m])
  {
    forall k | 0 <= k < m ensures !Redact(secret, body)[k].marker {
      var i := Provenance(secret, body, k);
    }
  }

  /** Once a block and what follows it are rewritten, the block's extent is found within the rewritten block. */
  lemma ShrunkenExtent(secret: string -> bool, h: Head, body: seq<Line>, after: seq<Line>)
    requires AllSound(body) && AllSound(after) && AllContinue(h, body) && Stops(h, after)
    ensures Redact(secret, body) <= Redact(secret, body + after)
    ensures Extent(h, Redact(secret, body + after)) <= |Redact(secret, body)|
  {
    RedactSplits(secret, h, body, after);
    StopsRedacted(secret, h, after);
    ExtentBeforeStop(h, Redact(secret, body), Redact(secret, after));
  }

  /** Once the lines below a kept header are rewritten, its body is the start of its rewritten body. */
  lemma ShrunkenBody(secret: string -> bool, h: Head, rest: seq<Line>)
    requires AllSound(rest)
    ensures var inner, outer := Redact(secret, rest[..Extent(h, rest)]), Redact(secret, rest);
            Extent(h, outer) <= |inner| && outer[..Extent(h, outer)] == inner[..Extent(h, outer)]
  {
    var n := Extent(h, rest);
    ExtentSplits(h, rest);
    assert rest == rest[..n] + rest[n..];
    ShrunkenExtent(secret, h, rest[..n], rest[n..]);
  }

  /** A header that was kept is kept again: its shrunken body holds no key material. */
  lemma KeptAgain(secret: string -> bool, lines: seq<Line>)
    requires lines != [] && AllSound(lines) && !Masked(secret, lines, 0)
    ensures !Masked(secret, [lines[0]] + Redact(secret, lines[1..]), 0)
  {
    if lines[0].head.Some? {
      var rest, n := lines[1..], BodyLen(lines, 0);
      var body, out := rest[..n], [lines[0]] + Redact(secret, rest);
      assert lines[1..1 + n] == body && out[1..] == Redact(secret, rest);
      ShrunkenBody(secret, lines[0].head.value, rest);
      assert out[1..1 + BodyLen(out, 0)] == Redact(secret, rest)[..BodyLen(out, 0)];
      if body != [] && !secret(lines[0].head.value.key) {
        NoNewMarker(secret, body, BodyLen(out, 0));
      }
    }
  }

  /** Running the rule over its own result changes nothing. */
  lemma {:induction false} Idempotent(secret: string -> bool, lines: seq<Line>)
    requires AllSound(lines)
    ensures Redact(secret, Redact(secret, lines)) == Redact(secret, lines)
    decreases |lines|
  {
    if lines != [] {
      var n := if Masked(secret, lines, 0) then 1 + BodyLen(lines, 0) else 1;
      Idempotent(secret, lines[n..]);
      var out := Redact(secret, lines);
      assert out[1..] == Redact(secret, lines[n..]);
      if !Masked(secret, lines, 0) {
        KeptAgain(secret, lines);
      }
    }
  }

  // ---------- What survives ----------

  lemma MaskedShift(secret: string -> bool, lines: seq<Line>, n: nat, k: nat)
    requires n + k < |lines|
    ensures BodyLen(lines[n..], k) == BodyLen(lines, n + k)
    ensures Masked(secret, lines[n..], k) == Masked(secret, lines, n + k)
  {
    TailShift(lines, n, k + 1);
    SliceShift(lines, n, k + 1, k + 1 + BodyLen(lines, n + k));
  }

  lemma TailShift(lines: seq<Line>, n: nat, k: nat)
    requires n + k <= |lines|
    ensures lines[n..][k..] == lines[n + k..]
  {
  }

  lemma SliceShift(lines: seq<Line>, n: nat, from: nat, to: nat)
    requires from <= to && n + to <= |lines|
    ensures lines[n..][from..to] == lines[n + from..n + to]
  {
  }

  lemma RedactFrom(secret: string -> bool, lines: seq<Line>, i: nat)
    requires i < |lines|
    ensures Redact(secret, lines[i..]) ==
            if Masked(secret, lines, i)
            then [Mask(lines[i])] + Redact(secret, lines[i + BodyLen(lines, i) + 1..])
            else [lines[i]] + Redact(secret, lines[i + 1..])
  {
    MaskedShift(secret, lines, i, 0);
    TailShift(lines, i, 1);
    TailShift(lines, i, 1 + BodyLen(lines, i));
  }

  lemma RedactMasked(secret: string -> bool, lines: seq<Line>, i: nat, next: nat)
    requires i < |lines| && Masked(secret, lines, i) && next == i + BodyLen(lines, i) + 1
    ensures Redact(secret, lines[i..]) == [Mask(lines[i])] + Redact(secret, lines[next..])
  {
    RedactFrom(secret, lines, i);
  }

  lemma {:induction false} FixedWithoutHeads(secret: string -> bool, lines: seq<Line>)
    requires forall k | 0 <= k < |lines| :: lines[k].head.None?
    ensures Redact(secret, lines) == lines
  {
    if lines != [] {
      FixedWithoutHeads(secret, lines[1..]);
    }
  }

  predicate NoneMasked(secret: string -> bool, lines: seq<Line>) {
    forall k | 0 <= k < |lines| :: !Masked(secret, lines, k)
  }

  lemma NoneMaskedTail(secret: string -> bool, lines: seq<Line>)
    requires lines != []
    ensures NoneMasked(secret, lines) <==> !Masked(secret, lines, 0) && NoneMasked(secret, lines[1..])
  {
    forall k | 0 <= k < |lines| - 1 ensures Masked(secret, lines[1..], k) == Masked(secret, lines, k + 1) {
      MaskedShift(secret, lines, 1, k);
    }
    if !Masked(secret, lines, 0) && NoneMasked(secret, lines[1..]) {
      forall k | 0 <= k < |lines| ensures !Masked(secret, lines, k) {
        if k > 0 { MaskedShift(secret, lines, 1, k - 1); }
      }
    }
  }

  /** The rule leaves the lines alone exactly when none of them heads a body to be masked. */
  lemma {:induction false} FixedExactly(secret: string -> bool, lines: seq<Line>)
    ensures Redact(secret, lines) == lines <==> NoneMasked(secret, lines)
  {
    if lines != [] {
      FixedExactly(secret, lines[1..]);
      NoneMaskedTail(secret, lines);
      if Masked(secret, lines, 0) {
        assert Redact(secret, lines)[0].head != lines[0].head;
      } else {
        assert Redact(secret, lines)[1..] == Redact(secret, lines[1..]);
        assert lines == [lines[0]] + lines[1..];
      }
    }
  }

  /** No header of the result still has a body under a secret name or with key material in it. */
  lemma NothingLeftToMask(secret: string -> bool, lines: seq<Line>, k: nat)
    requires AllSound(lines) && k < |Redact(secret, lines)|
    ensures !Masked(secret, Redact(secret, lines), k)
  {
    Idempotent(secret, lines);
    FixedExactly(secret, Redact(secret, lines));
  }

  /** Line `k` lies in the body of a header to be masked. */
  predicate Covered(secret: string -> bool, lines: seq<Line>, k: nat)
    requires k < |lines|
  {
    exists j: nat | j < k :: Masked(secret, lines, j) && k <= j + BodyLen(lines, j)
  }

  function IsCovered(secret: string -> bool, lines: seq<Line>): nat -> bool {
    (k: nat) => k < |lines| && Covered(secret, lines, k)
  }

  function IsMasked(secret: string -> bool, lines: seq<Line>): nat -> bool {
    (k: nat) => k < |lines| && Masked(secret, lines, k)
  }

  /** The lines from line `i` on that are not covered, in order, masked headers replaced. */
  function Uncovered(lines: seq<Line>, covered: nat -> bool, masked: nat -> bool, i: nat): seq<Line>
    requires i <= |lines|
    decreases |lines| - i
  {
    if i == |lines| then []
    else if covered(i) then Uncovered(lines, covered, masked, i + 1)
    else [if masked(i) && lines[i].head.Some? then Mask(lines[i]) else lines[i]] + Uncovered(lines, covered, masked, i + 1)
  }

  function Surviving(secret: string -> bool, lines: seq<Line>): seq<Line> {
    Uncovered(lines, IsCovered(secret, lines), IsMasked(secret, lines), 0)
  }

  lemma {:induction false} SkipCovered(lines: seq<Line>, covered: nat -> bool, masked: nat -> bool, i: nat, n: nat)
    requires i <= n <= |lines| && forall k: nat | i <= k < n :: covered(k)
    ensures Uncovered(lines, covered, masked, i) == Uncovered(lines, covered, masked, n)
    decreases n - i
  {
    if i < n {
      SkipCovered(lines, covered, masked, i + 1, n);
    }
  }

  /** The lines of a masked body are covered, and their own bodies end no later. */
  lemma BodyCovered(secret: string -> bool, lines: seq<Line>, i: nat, k: nat)
    requires AllSound(lines) && i < k < |lines| && Masked(secret, lines, i) && k <= i + BodyLen(lines, i)
    ensures IsCovered(secret, lines)(k) && k + BodyLen(lines, k) <= i + BodyLen(lines, i)
  {
    Laminar(lines, i, k);
  }

  /** No masked body in front of line `i` reaches it. */
  predicate Clear(secret: string -> bool, lines: seq<Line>, i: nat)
    requires i <= |lines|
  {
    forall j: nat | j < i :: Masked(secret, lines, j) ==> j + BodyLen(lines, j) < i
  }

  lemma ClearBehind(secret: string -> bool, lines: seq<Line>, i: nat, end: nat)
    requires AllSound(lines) && i < |lines| && Clear(secret, lines, i) && Masked(secret, lines, i)
    requires end == i + BodyLen(lines, i) + 1
    ensures Clear(secret, lines, end)
  {
    forall j: nat | j < end && Masked(secret, lines, j) ensures j + BodyLen(lines, j) < end {
      if i < j { BodyCovered(secret, lines, i, j); }
    }
  }

  lemma ClearNext(secret: string -> bool, lines: seq<Line>, i: nat)
    requires i < |lines| && Clear(secret, lines, i) && !Masked(secret, lines, i)
    ensures Clear(secret, lines, i + 1)
  {
  }

  lemma NotCovered(secret: string -> bool, lines: seq<Line>, i: nat)
    requires i < |lines| && Clear(secret, lines, i)
    ensures !IsCovered(secret, lines)(i)
  {
  }

  lemma BodySkipped(secret: string -> bool, lines: seq<Line>, covered: nat -> bool, masked: nat -> bool, i: nat, end: nat)
    requires AllSound(lines) && i < |lines| && Masked(secret, lines, i) && end == i + BodyLen(lines, i) + 1
    requires covered == IsCovered(secret, lines)
    ensures Uncovered(lines, covered, masked, i + 1) == Uncovered(lines, covered, masked, end)
  {
    forall k: nat | i < k < end ensures covered(k) {
      BodyCovered(secret, lines, i, k);
    }
    SkipCovered(lines, covered, masked, i + 1, end);
  }

  /** From a line that no masked body covers to the next one. */
  lemma SurvivorsStep(secret: string -> bool, lines: seq<Line>, covered: nat -> bool, masked: nat -> bool, i: nat)
    returns (n: nat)
    requires AllSound(lines) && i < |lines| && Clear(secret, lines, i)
    requires covered == IsCovered(secret, lines) && masked == IsMasked(secret, lines)
    ensures i < n <= |lines| && Clear(secret, lines, n)
    ensures Redact(secret, lines[n..]) == Uncovered(lines, covered, masked, n) ==>
              Redact(secret, lines[i..]) == Uncovered(lines, covered, masked, i)
  {
    NotCovered(secret, lines, i);
    if Masked(secret, lines, i) {
      n := i + BodyLen(lines, i) + 1;
      RedactMasked(secret, lines, i, n);
      ClearBehind(secret, lines, i, n);
      BodySkipped(secret, lines, covered, masked, i, n);
    } else {
      n := i + 1;
      RedactFrom(secret, lines, i);
      ClearNext(secret, lines, i);
    }
  }

  lemma {:induction false} SurvivorsFrom(
    secret: string -> bool, lines: seq<Line>, covered: nat -> bool, masked: nat -> bool, i: nat)
    requires AllSound(lines) && i <= |lines| && Clear(secret, lines, i)
    requires covered == IsCovered(secret, lines) && masked == IsMasked(secret, lines)
    ensures Redact(secret, lines[i..]) == Uncovered(lines, covered, masked, i)
    decreases |lines| - i
  {
    if i < |lines| {
      var n := SurvivorsStep(secret, lines, covered, masked, i);
      SurvivorsFrom(secret, lines, covered, masked, n);
    }
  }

  /** The result is every line outside masked bodies, in order: masked bodies vanish, nothing else does. */
  lemma Survivors(secret: string -> bool, lines: seq<Line>)
    requires AllSound(lines)
    ensures Redact(secret, lines) == Surviving(secret, lines)
  {
    SurvivorsFrom(secret, lines, IsCovered(secret, lines), IsMasked(secret, lines), 0);
    assert lines[0..] == lines;
  }
}

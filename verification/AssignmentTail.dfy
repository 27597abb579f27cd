/** How a masked assignment hands back the closing delimiters at the end of a captured value. */
module AssignmentTail {
  import opened Text

  const CLOSERS := {'\'', '"', '`', ')', ']', '}', '@', ';'}
  const OPENERS := {'(', '[', '{', '\'', '"', '`'}

  /** The position at or after `i` of the quote that ends the value, or -1; a backslash escapes inside double quotes. */
  function QuoteFrom(value: string, quote: char, i: nat): (j: int)
    ensures j == -1 || i <= j < |value|
    decreases |value| - i
  {
    if i >= |value| then -1
    else if quote == '"' && value[i] == '\\' then QuoteFrom(value, quote, i + 2)
    else if value[i] == quote then i
    else QuoteFrom(value, quote, i + 1)
  }

  method ClosingQuote(value: string) returns (j: int)
    requires value != ""
    ensures j == QuoteFrom(value, value[0], 1)
  {
    var quote := value[0];
    var i: nat := 1;
    while i < |value|
      invariant QuoteFrom(value, quote, 1) == QuoteFrom(value, quote, i)
      decreases |value| - i
    {
      if quote == '"' && value[i] == '\\' {
        i := i + 2;
        continue;
      }
      if value[i] == quote {
        return i;
      }
      i := i + 1;
    }
    return -1;
  }

  /** The length of the quoted part a value starts with, 0 when it starts with none. */
  function CoreLen(value: string): (n: nat)
    ensures n <= |value|
  {
    if |value| > 1 && (value[0] == '"' || value[0] == '\'') then QuoteFrom(value, value[0], 1) + 1 else 0
  }

  /** Where the run of closing delimiters at the end of `rest` begins. */
  function TailStart(rest: string): (end: nat)
    ensures end <= |rest|
  {
    if rest != "" && rest[|rest| - 1] in CLOSERS then TailStart(rest[..|rest| - 1]) else |rest|
  }

  /** The tail to hand back, and whether anything in front of it is there to mask. */
  function SplitTail(value: string): (string, bool) {
    var n := CoreLen(value);
    var rest := value[n..];
    var end := TailStart(rest);
    if n == 0 && end == 0 then (rest, false) else (rest[end..], true)
  }

  /** The loop that walks back over the closing delimiters. */
  method FindTail(rest: string) returns (end: nat)
    ensures end == TailStart(rest)
  {
    end := |rest|;
    assert rest[..end] == rest;
    while end > 0 && rest[end - 1] in CLOSERS
      invariant end <= |rest| && TailStart(rest) == TailStart(rest[..end])
    {
      assert rest[..end][..end - 1] == rest[..end - 1];
      end := end - 1;
    }
  }

  method SplitValueTail(value: string) returns (tail: string, contentful: bool)
    ensures (tail, contentful) == SplitTail(value)
  {
    var core, rest := "", value;
    if |value| > 1 && (value[0] == '"' || value[0] == '\'') {
      var j := ClosingQuote(value);
      if j != -1 {
        core, rest := value[..j + 1], value[j + 1..];
      }
    }
    assert rest == value[CoreLen(value)..];
    assert core == "" <==> CoreLen(value) == 0;
    var end := FindTail(rest);
    if core == "" && end == 0 {
      return rest, false;
    }
    return rest[end..], true;
  }

  /** The rendering of a masked assignment. */
  function Masked(whole: string, prefix: string, head: string, value: string): string {
    var (tail, contentful) := SplitTail(value);
    if contentful then prefix + head + MARK + tail
    else if prefix != "" && prefix[0] in OPENERS then whole
    else prefix + head + MARK
  }

  predicate AllClosers(s: string) {
    forall k | 0 <= k < |s| :: s[k] in CLOSERS
  }

  lemma {:induction false} TailIsClosers(rest: string)
    ensures AllClosers(rest[TailStart(rest)..])
    ensures TailStart(rest) > 0 ==> rest[TailStart(rest) - 1] !in CLOSERS
  {
    if rest != "" && rest[|rest| - 1] in CLOSERS {
      var short := rest[..|rest| - 1];
      TailIsClosers(short);
      assert rest[TailStart(rest)..] == short[TailStart(rest)..] + [rest[|rest| - 1]];
    }
  }

  lemma {:induction false} TailAfter(front: string, tail: string)
    requires front != "" && front[|front| - 1] !in CLOSERS && AllClosers(tail)
    ensures TailStart(front + tail) == |front|
  {
    if tail == "" {
      assert front + tail == front;
    } else {
      assert (front + tail)[..|front + tail| - 1] == front + tail[..|tail| - 1];
      TailAfter(front, tail[..|tail| - 1]);
    }
  }

  /** What is handed back is the longest run of closers behind the quoted part; a contentless value is only closers. */
  lemma SplitMeaning(value: string)
    ensures var (tail, contentful) := SplitTail(value);
            && |tail| <= |value| && tail == value[|value| - |tail|..] && AllClosers(tail)
            && |value| - |tail| >= CoreLen(value)
            && (contentful <==> |tail| < |value|)
            && (CoreLen(value) < |value| - |tail| ==> value[|value| - |tail| - 1] !in CLOSERS)
  {
    TailIsClosers(value[CoreLen(value)..]);
  }

  lemma SplitMarked(tail: string)
    requires AllClosers(tail)
    ensures SplitTail(MARK + tail) == (tail, true)
  {
    TailAfter(MARK, tail);
    assert (MARK + tail)[0] == '<';
    assert (MARK + tail)[0..] == MARK + tail && (MARK + tail)[|MARK|..] == tail;
  }

  /** Reading a masked value back gives the same tail, so masking an assignment again gives the same text. */
  lemma MaskedFixpoint(whole: string, again: string, prefix: string, head: string, value: string)
    ensures var (tail, contentful) := SplitTail(value);
            && (contentful ==> Masked(again, prefix, head, MARK + tail) == Masked(whole, prefix, head, value))
            && (!contentful && !(prefix != "" && prefix[0] in OPENERS) ==>
                  Masked(again, prefix, head, MARK) == Masked(whole, prefix, head, value))
  {
    SplitMeaning(value);
    SplitMarked(SplitTail(value).0);
    SplitMarked("");
    assert MARK + "" == MARK;
    assert prefix + head + MARK + "" == prefix + head + MARK;
  }
}

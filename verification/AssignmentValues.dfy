/** What becomes of assigned values as they are written: plain, quoted, or nothing but closing delimiters. */
module AssignmentValues {
  import opened Text
  import opened AssignmentTail

  predicate Closes(c: char) {
    c in "'\"`)]}@;"
  }

  predicate Opens(c: char) {
    c in "([{'\"`"
  }

  predicate Closing(s: string) {
    forall k | 0 <= k < |s| :: Closes(s[k])
  }

  /** The text ends in something else than a closing delimiter. */
  predicate EndsOpen(s: string) {
    s != "" && !Closes(s[|s| - 1])
  }

  lemma Delimiters(c: char)
    ensures c in CLOSERS <==> Closes(c)
    ensures c in OPENERS <==> Opens(c)
  {
    assert Closes('\'') && Closes('"') && Closes('`') && Closes(')')
           && Closes(']') && Closes('}') && Closes('@') && Closes(';') by {
      var all := "'\"`)]}@;";
      assert all[0] == '\'' && all[1] == '"' && all[2] == '`' && all[3] == ')';
      assert all[4] == ']' && all[5] == '}' && all[6] == '@' && all[7] == ';';
    }
    assert Opens('(') && Opens('[') && Opens('{') && Opens('\'') && Opens('"') && Opens('`') by {
      var all := "([{'\"`";
      assert all[0] == '(' && all[1] == '[' && all[2] == '{' && all[3] == '\'' && all[4] == '"' && all[5] == '`';
    }
  }

  lemma ClosingMeaning(s: string)
    ensures Closing(s) <==> AllClosers(s)
  {
    forall k | 0 <= k < |s| ensures s[k] in CLOSERS <==> Closes(s[k]) {
      Delimiters(s[k]);
    }
  }

  lemma OpenFront(front: string, tail: string)
    requires EndsOpen(front) && Closing(tail)
    ensures TailStart(front + tail) == |front|
  {
    Delimiters(front[|front| - 1]);
    ClosingMeaning(tail);
    TailAfter(front, tail);
  }

  lemma {:induction false} AllTail(tail: string)
    requires Closing(tail)
    ensures TailStart(tail) == 0
  {
    if tail != "" {
      Delimiters(tail[|tail| - 1]);
      AllTail(tail[..|tail| - 1]);
    }
  }

  // ---------- Quotes ----------

  predicate IsQuote(c: char) { c == '"' || c == '\'' }

  /** The text between quotes: no closing quote, unless a backslash inside double quotes takes it along. */
  predicate Between(quote: char, body: string) {
    if body == "" then true
    else if quote == '"' && body[0] == '\\' then |body| > 1 && Between(quote, body[2..])
    else body[0] != quote && Between(quote, body[1..])
  }

  lemma {:induction false} QuoteFound(value: string, quote: char, i: nat, body: string)
    requires IsQuote(quote) && Between(quote, body)
    requires i + |body| < |value| && value[i..i + |body|] == body && value[i + |body|] == quote
    ensures QuoteFrom(value, quote, i) == i + |body|
    decreases |body|
  {
    if body != "" {
      assert value[i] == value[i..i + |body|][0] == body[0];
      var n := if quote == '"' && body[0] == '\\' then 2 else 1;
      assert value[i + n..i + |body|] == body[n..];
      QuoteFound(value, quote, i + n, body[n..]);
    }
  }

  /** No quote ends the text. */
  predicate Unclosed(quote: char, rest: string) {
    if rest == "" then true
    else if quote == '"' && rest[0] == '\\' then |rest| == 1 || Unclosed(quote, rest[2..])
    else rest[0] != quote && Unclosed(quote, rest[1..])
  }

  lemma {:induction false} NoQuote(value: string, quote: char, i: nat)
    requires i <= |value| && Unclosed(quote, value[i..])
    ensures QuoteFrom(value, quote, i) == -1
    decreases |value| - i
  {
    var rest := value[i..];
    if rest != "" {
      if quote == '"' && rest[0] == '\\' {
        if |rest| > 1 {
          assert rest[2..] == value[i + 2..];
          NoQuote(value, quote, i + 2);
        }
      } else {
        assert rest[1..] == value[i + 1..];
        NoQuote(value, quote, i + 1);
      }
    }
  }

  /** A value in quotes, with or without more behind them. */
  function Quoted(quote: char, body: string, more: string): string {
    [quote] + body + [quote] + more
  }

  lemma QuotedCore(quote: char, body: string, rest: string)
    requires IsQuote(quote) && Between(quote, body)
    ensures CoreLen(Quoted(quote, body, rest)) == |body| + 2 && Quoted(quote, body, rest)[|body| + 2..] == rest
  {
    var value := Quoted(quote, body, rest);
    assert value[1..1 + |body|] == body && value[1 + |body|] == quote;
    QuoteFound(value, quote, 1, body);
  }

  // ---------- Masking ----------

  lemma MaskedBy(whole: string, prefix: string, head: string, value: string, tail: string)
    requires SplitTail(value) == (tail, true)
    ensures Masked(whole, prefix, head, value) == prefix + head + "<redacted>" + tail
  {
  }

  /** The value does not start with a quote that is closed again. */
  predicate Unquoted(value: string) {
    value == "" || !IsQuote(value[0]) || Unclosed(value[0], value[1..])
  }

  lemma UnquotedCore(value: string)
    requires Unquoted(value)
    ensures CoreLen(value) == 0 && value[0..] == value
  {
    if |value| > 1 && IsQuote(value[0]) { NoQuote(value, value[0], 1); }
  }

  /** A plain value is masked up to the closing delimiters at its end. */
  lemma PlainMasked(whole: string, prefix: string, head: string, front: string, tail: string)
    requires EndsOpen(front) && Closing(tail) && Unquoted(front + tail)
    ensures Masked(whole, prefix, head, front + tail) == prefix + head + "<redacted>" + tail
  {
    UnquotedCore(front + tail);
    OpenFront(front, tail);
    assert (front + tail)[|front|..] == tail;
    MaskedBy(whole, prefix, head, front + tail, tail);
  }

  /** A quoted value is masked with its quotes, and with what follows them up to the closing delimiters at the end. */
  lemma QuotedMasked(whole: string, prefix: string, head: string, quote: char, body: string, more: string, tail: string)
    requires IsQuote(quote) && Between(quote, body) && (more == "" || EndsOpen(more)) && Closing(tail)
    ensures Masked(whole, prefix, head, Quoted(quote, body, more + tail)) == prefix + head + "<redacted>" + tail
  {
    QuotedCore(quote, body, more + tail);
    if more == "" {
      assert more + tail == tail;
      AllTail(tail);
    } else {
      OpenFront(more, tail);
    }
    assert (more + tail)[|more|..] == tail;
    MaskedBy(whole, prefix, head, Quoted(quote, body, more + tail), tail);
  }

  /** Nothing but closing delimiters belongs to what the text in front opens, if that opens anything, and is masked if not. */
  lemma NothingMasked(whole: string, prefix: string, head: string, value: string)
    requires Closing(value) && Unquoted(value)
    ensures Masked(whole, prefix, head, value) ==
            if prefix != "" && Opens(prefix[0]) then whole else prefix + head + "<redacted>"
  {
    UnquotedCore(value);
    AllTail(value);
    if prefix != "" { Delimiters(prefix[0]); }
  }
}

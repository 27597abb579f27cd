/** Masking of literal operands in secret-named shell interpolations: `${NAME:-operand}` and its relatives. */
module Interpolation {
  import opened Text

  predicate IsOperator(c: char) { c == '-' || c == '=' || c == '+' || c == '?' }

  predicate NotBracket(c: char) { c != ']' }

  /** An opening `${name[subscript]:op` at `start`; the name ends at `nameEnd`, the operand starts at `end`. */
  datatype Opening = Opening(start: nat, nameEnd: nat, end: nat)

  /** Where an optional subscript starting at `i` ends; None when one is opened and not closed. */
  function SubscriptEnd(s: string, i: nat): (j: Option<nat>)
    requires i <= |s|
    ensures j.Some? ==> i <= j.value <= |s|
  {
    if i < |s| && s[i] == '[' then
      var close := Run(s, i + 1, NotBracket);
      if close < |s| then Some(close + 1) else None
    else Some(i)
  }

  /** The match of the opening pattern at position `i`, if there is one. */
  function MatchAt(s: string, i: nat): (o: Option<Opening>)
    ensures o.Some? ==> o.value.start == i && i + 2 < o.value.nameEnd < o.value.end <= |s|
  {
    if i + 2 < |s| && s[i] == '$' && s[i + 1] == '{' then
      var nameEnd := Run(s, i + 2, IsWordChar);
      match SubscriptEnd(s, nameEnd)
      case None => None
      case Some(op) =>
        var sign := if op < |s| && s[op] == ':' then op + 1 else op;
        if i + 2 < nameEnd && sign < |s| && IsOperator(s[sign]) then Some(Opening(i, nameEnd, sign + 1)) else None
    else None
  }

  /** All non-overlapping matches from `i` on, leftmost first. */
  function Openings(s: string, i: nat): seq<Opening>
    decreases |s| - i
  {
    if i >= |s| then []
    else
      match MatchAt(s, i)
      case Some(o) => [o] + Openings(s, o.end)
      case None => Openings(s, i + 1)
  }

  /** The rest of the text from the brace that closes `depth` nested interpolations and the current one. */
  function Close(s: string, depth: nat): (rest: Option<string>)
    ensures rest.Some? ==> 0 < |rest.value| <= |s|
  {
    if s == "" then None
    else if s[0] == '\\' then (if |s| == 1 then None else Close(s[2..], depth))
    else if s[0] == '$' && 1 < |s| && s[1] == '{' then Close(s[1..], depth + 1)
    else if s[0] == '}' then (if depth == 0 then Some(s) else Close(s[1..], depth - 1))
    else Close(s[1..], depth)
  }

  /** Where the operand that starts at `start` ends, or -1 when it is unbalanced. */
  function ClosingIn(s: string, start: nat): (c: int)
    requires start <= |s|
    ensures c == -1 || start <= c < |s|
  {
    match Close(s[start..], 0)
    case None => -1
    case Some(rest) => |s| - |rest|
  }

  function ClosingOf(s: string, o: Opening): (c: int)
    requires o.end <= |s|
    ensures c == -1 || o.end <= c < |s|
  {
    ClosingIn(s, o.end)
  }

  /** The opening names a secret and has a balanced operand that is not empty. */
  predicate Effective(secret: string -> bool, s: string, o: Opening)
    requires o.start + 2 <= o.nameEnd <= o.end <= |s|
  {
    secret(s[o.start + 2..o.nameEnd]) && ClosingOf(s, o) > o.end
  }

  predicate AllWithin(locs: seq<Opening>, s: string) {
    forall k | 0 <= k < |locs| :: locs[k].start + 2 <= locs[k].nameEnd <= locs[k].end <= |s|
  }

  lemma {:induction false} OpeningsWithin(s: string, i: nat)
    ensures AllWithin(Openings(s, i), s)
    ensures forall k | 0 <= k < |Openings(s, i)| :: MatchAt(s, Openings(s, i)[k].start) == Some(Openings(s, i)[k])
    decreases |s| - i
  {
    if i < |s| {
      OpeningsWithin(s, if MatchAt(s, i).Some? then MatchAt(s, i).value.end else i + 1);
    }
  }

  /** What the loop over the matches writes after position `last`. */
  function Rewrite(secret: string -> bool, s: string, locs: seq<Opening>, last: nat): string
    requires last <= |s| && AllWithin(locs, s)
  {
    if locs == [] then s[last..]
    else if locs[0].start < last || !Effective(secret, s, locs[0]) then Rewrite(secret, s, locs[1..], last)
    else s[last..locs[0].end] + MARK + Rewrite(secret, s, locs[1..], ClosingOf(s, locs[0]))
  }

  function Redact(secret: string -> bool, s: string): string {
    OpeningsWithin(s, 0);
    Rewrite(secret, s, Openings(s, 0), 0)
  }

  // ---------- The loops ----------

  /** One step of the brace scan, by position. */
  lemma CloseStep(s: string, i: nat, depth: nat)
    requires i < |s|
    ensures Close(s[i..], depth) ==
            if s[i] == '\\' then (if i + 1 == |s| then None else Close(s[i + 2..], depth))
            else if s[i] == '$' && i + 1 < |s| && s[i + 1] == '{' then Close(s[i + 1..], depth + 1)
            else if s[i] == '}' then (if depth == 0 then Some(s[i..]) else Close(s[i + 1..], depth - 1))
            else Close(s[i + 1..], depth)
  {
    assert s[i..][1..] == s[i + 1..];
    if i + 1 < |s| { assert s[i..][2..] == s[i + 2..]; }
  }

  method FindBalancedClose(input: string, start: nat) returns (closing: int)
    requires start <= |input|
    ensures closing == ClosingIn(input, start)
  {
    var depth: nat := 0;
    var i: nat := start;
    while i < |input|
      invariant Close(input[start..], 0) == (if i < |input| then Close(input[i..], depth) else None)
      decreases |input| - i
    {
      CloseStep(input, i, depth);
      if input[i] == '\\' {
        i := i + 1;
      } else if input[i] == '$' && i + 1 < |input| && input[i + 1] == '{' {
        depth := depth + 1;
      } else if input[i] == '}' {
        if depth == 0 {
          return i;
        }
        depth := depth - 1;
      }
      i := i + 1;
    }
    return -1;
  }

  lemma RewriteStep(secret: string -> bool, s: string, locs: seq<Opening>, k: nat, last: nat)
    requires last <= |s| && AllWithin(locs, s) && k < |locs|
    ensures Rewrite(secret, s, locs[k..], last) ==
            if locs[k].start < last || !Effective(secret, s, locs[k]) then Rewrite(secret, s, locs[k + 1..], last)
            else s[last..locs[k].end] + MARK + Rewrite(secret, s, locs[k + 1..], ClosingOf(s, locs[k]))
  {
    assert locs[k..][1..] == locs[k + 1..];
  }

  /** The text contains `${`. */
  predicate HasInterpolation(s: string) {
    exists i | 0 <= i < |s| - 1 :: s[i] == '$' && s[i + 1] == '{'
  }

  lemma {:induction false} NoInterpolation(s: string, i: nat)
    requires !HasInterpolation(s)
    ensures Openings(s, i) == []
    decreases |s| - i
  {
    if i < |s| {
      NoInterpolation(s, i + 1);
    }
  }

  /** The end of the operand to mask, or -1 when this opening is left alone. */
  method OperandToMask(secret: string -> bool, input: string, m: Opening) returns (closing: int)
    requires m.start + 2 <= m.nameEnd <= m.end <= |input|
    ensures closing == if Effective(secret, input, m) then ClosingOf(input, m) else -1
  {
    var varName := input[m.start + 2..m.nameEnd];
    if !secret(varName) {
      return -1;
    }
    closing := FindBalancedClose(input, m.end);
    if closing == m.end {
      return -1;
    }
  }

  method RewriteOpenings(secret: string -> bool, input: string, locs: seq<Opening>) returns (result: string)
    requires AllWithin(locs, input)
    ensures result == Rewrite(secret, input, locs, 0)
  {
    var b, last: nat := "", 0;
    assert locs[0..] == locs;
    for k := 0 to |locs|
      invariant last <= |input| && (last == 0 ==> b == "")
      invariant Rewrite(secret, input, locs, 0) == b + Rewrite(secret, input, locs[k..], last)
    {
      var m := locs[k];
      RewriteStep(secret, input, locs, k, last);
      if m.start < last {
        continue;
      }
      var closing := OperandToMask(secret, input, m);
      if closing == -1 {
        continue;
      }
      ConcatAssoc(b, input[last..m.end] + MARK, Rewrite(secret, input, locs[k + 1..], closing));
      ConcatAssoc(b, input[last..m.end], MARK);
      b := b + input[last..m.end] + MARK;
      last := closing;
    }
    if last == 0 {
      return input;
    }
    return b + input[last..];
  }

  method RedactInterpolationDefaults(secret: string -> bool, input: string) returns (result: string)
    ensures result == Redact(secret, input)
  {
    if !HasInterpolation(input) {
      NoInterpolation(input, 0);
      return input;
    }
    var locs := Openings(input, 0);
    OpeningsWithin(input, 0);
    if locs == [] {
      return input;
    }
    result := RewriteOpenings(secret, input, locs);
  }
}

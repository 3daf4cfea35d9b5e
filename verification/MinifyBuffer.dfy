/** `cJSON_Minify` as it works: one buffer, read at one index and written at an earlier one. */
module MinifyBuffer {
  import opened Options
  import opened CString
  import opened Parsing
  import opened Minifying
  import opened MinifyParse

  /** What is written so far, and what is still to be read. */
  ghost predicate Progress(json: array<char>, into: nat, from: nat, s: string, out: string)
    reads json
  {
    |s| == json.Length && into <= from <= |s| && json[..into] == out && json[from..] == s[from..]
  }

  /** `*into++ = *json++`. */
  method Copy(json: array<char>, into: nat, from: nat, ghost s: string, ghost out: string)
    requires Progress(json, into, from, s, out) && from < json.Length
    modifies json
    ensures Progress(json, into + 1, from + 1, s, out + [s[from]])
  {
    assert json[from..][0] == s[from];
    json[into] := json[from];
    assert json[from + 1..] == s[from..][1..];
  }

  lemma WrittenSoFar(json: array<char>, into: nat, from: nat, s: string, out: string)
    requires Progress(json, into, from, s, out) && from < |s|
    ensures into < json.Length && json[..into] == out
  {
  }

  lemma NextRead(json: array<char>, into: nat, from: nat, s: string, out: string)
    requires Progress(json, into, from, s, out) && from < |s|
    ensures from < json.Length == |s| && json[from] == s[from] && json[from..] == s[from..]
  { }

  lemma SliceMore(out: string, s: string, start: nat, from: nat)
    requires start <= from < |s|
    ensures out + s[start..from] + [s[from]] == out + s[start..from + 1]
  {
  }

  lemma ShiftZero(q: Option<nat>)
    ensures q == Shift(0, q)
  {
  }

  lemma QuoteStep(s: string, start: nat, from: nat)
    requires Clean(s) && start < from < |s| && s[from] != '\"' && s[from] != NUL
    requires ClosingQuote(s[start + 1..]) == Shift(from - start - 1, ClosingQuote(s[from..]))
    ensures from + 1 < |s|
    ensures s[from] == '\\' ==> ClosingQuote(s[start + 1..]) == Shift(from - start + 1, ClosingQuote(s[from + 2..]))
    ensures s[from] != '\\' ==> ClosingQuote(s[start + 1..]) == Shift(from - start, ClosingQuote(s[from + 1..]))
  {
    hide ClosingQuote, Clean;
    StepFacts(s, from);
    var t := s[from..];
    SliceTwice(s, from, 1);
    SliceTwice(s, from, 2);
    CloseStep(t);
  }

  lemma NoQuote(s: string, from: nat, n: nat)
    requires from == |s| || (from == |s| - 1 && s[from] == NUL)
    ensures Shift(n, ClosingQuote(s[from..])) == None
  {
  }

  /** One round of the loop over a literal: a character, or a backslash and what it escapes. */
  method CopyCharacter(json: array<char>, into: nat, ghost start: nat, from: nat, ghost s: string, ghost out: string)
    returns (newInto: nat, newFrom: nat)
    requires start <= from < |s| && Progress(json, into, from, s, out + s[start..from])
    requires from + 1 < |s|
    modifies json
    ensures newFrom == from + (if s[from] == '\\' then 2 else 1) <= |s|
    ensures Progress(json, newInto, newFrom, s, out + s[start..newFrom])
  {
    hide Progress;
    NextRead(json, into, from, s, out + s[start..from]);
    newInto, newFrom := into, from;
    if json[from] == '\\' {
      SliceMore(out, s, start, newFrom);
      Copy(json, newInto, newFrom, s, out + s[start..newFrom]);
      newInto, newFrom := newInto + 1, newFrom + 1;
    }
    SliceMore(out, s, start, newFrom);
    Copy(json, newInto, newFrom, s, out + s[start..newFrom]);
    newInto, newFrom := newInto + 1, newFrom + 1;
  }

  /**
   A string literal from its opening quote to behind its closing one; `ok` is false when
   the terminator comes first and the loop runs off the buffer.
   */
  method CopyLiteral(json: array<char>, into: nat, from: nat, ghost s: string, ghost out: string)
    returns (ok: bool, newInto: nat, newFrom: nat)
    requires Progress(json, into, from, s, out) && from < |s| && s[from] == '\"' && Clean(s)
    modifies json
    ensures var q := ClosingQuote(s[from + 1..]);
            && ok == q.Some?
            && (ok ==> newFrom == from + q.value + 2 < |s| && Progress(json, newInto, newFrom, s, out + s[from..newFrom]))
  {
    hide ClosingQuote, Progress, Clean, Shift;
    EndOf(json, into, from, s, out);
    StepFacts(s, from);
    ShiftZero(ClosingQuote(s[from + 1..]));
    Copy(json, into, from, s, out);
    newInto, newFrom := into + 1, from + 1;
    ghost var written := out + [s[from]];
    ghost var end := ClosingQuote(s[from + 1..]);
    SliceOne(s, from);
    while newFrom < json.Length && json[newFrom] != NUL && json[newFrom] != '\"'
      invariant from < newFrom <= |s| == json.Length
      invariant Progress(json, newInto, newFrom, s, written)
      invariant written == out + s[from..newFrom]
      invariant end == Shift(newFrom - from - 1, ClosingQuote(s[newFrom..]))
      decreases json.Length - newFrom
    {
      NextRead(json, newInto, newFrom, s, written);
      QuoteStep(s, from, newFrom);
      newInto, newFrom := CopyCharacter(json, newInto, from, newFrom, s, out);
      written := out + s[from..newFrom];
    }
    if newFrom == json.Length {
      NoQuote(s, newFrom, newFrom - from - 1);
      return false, newInto, newFrom;
    }
    NextRead(json, newInto, newFrom, s, written);
    if json[newFrom] == NUL {
      StepFacts(s, newFrom);
      NoQuote(s, newFrom, newFrom - from - 1);
      return false, newInto, newFrom;
    }
    StepFacts(s, newFrom);
    QuoteHere(s, newFrom, newFrom - from - 1);
    SliceMore(out, s, from, newFrom);
    Copy(json, newInto, newFrom, s, written);
    ok, newInto, newFrom := true, newInto + 1, newFrom + 1;
  }

  lemma SliceOne(s: string, from: nat)
    requires from < |s|
    ensures s[from..from + 1] == [s[from]]
  {
  }

  lemma EndOf(json: array<char>, into: nat, from: nat, s: string, out: string)
    requires Progress(json, into, from, s, out)
    ensures from <= |s| == json.Length
  {
  }

  lemma QuoteHere(s: string, from: nat, n: nat)
    requires from < |s| && s[from] == '\"'
    ensures Shift(n, ClosingQuote(s[from..])) == Some(n)
  {
  }

  // ---- Comments ----

  /** To the end of the line, or to the terminator. */
  method SkipLine(json: array<char>, from: nat) returns (to: nat)
    requires from < json.Length && Clean(json[from..])
    ensures from <= to < json.Length && to == from + LineEnd(json[from..])
  {
    to := from;
    ghost var s := json[from..];
    while json[to] != NUL && json[to] != '\n'
      invariant from <= to < json.Length
      invariant LineEnd(s) == to - from + LineEnd(s[to - from..])
      decreases json.Length - to
    {
      assert s[to - from..][1..] == s[to - from + 1..];
      to := to + 1;
    }
  }

  /** To behind the end of the comment; without one, to behind the terminator and off the buffer. */
  method SkipComment(json: array<char>, from: nat) returns (to: nat)
    requires from < json.Length && Clean(json[from..])
    ensures from < to && to == from + CommentEnd(json[from..]) + 2
  {
    to := from;
    ghost var s := json[from..];
    while json[to] != NUL && !(json[to] == '*' && json[to + 1] == '/')
      invariant from <= to < json.Length
      invariant CommentEnd(s) == to - from + CommentEnd(s[to - from..])
      decreases json.Length - to
    {
      assert s[to - from..][1..] == s[to - from + 1..];
      to := to + 1;
    }
    to := to + 2;
  }

  // ---- The main loop ----

  lemma StepFacts(s: string, from: nat)
    requires Clean(s) && from < |s|
    ensures s[from] == NUL <==> from == |s| - 1
    ensures Clean(s[from..]) && s[from..] != "" && s[from..][0] == s[from]
    ensures from + 1 < |s| ==> s[from..][1] == s[from + 1]
    ensures s[from..][1..] == s[from + 1..]
  {
  }

  /** One round of the main loop; `ok` is false when it runs off the buffer. */
  method Round(json: array<char>, into: nat, from: nat, ghost s: string, ghost out: string)
    returns (ok: bool, newInto: nat, newFrom: nat, ghost newOut: string)
    requires Progress(json, into, from, s, out) && from < |s| && Clean(s) && s[from] != NUL
    modifies json
    ensures !ok ==> Minify(s[from..]) == None
    ensures ok ==> from < newFrom < |s| && Progress(json, newInto, newFrom, s, newOut)
    ensures ok ==> Front(out, Minify(s[from..])) == Front(newOut, Minify(s[newFrom..]))
  {
    hide Minify, OnlyLast, ClosingQuote, Progress, Front;
    StepFacts(s, from);
    StepAt(s, from);
    NextRead(json, into, from, s, out);
    ok, newInto, newFrom, newOut := true, into, from, out;
    if Space(json[from]) {
      newFrom := from + 1;
      Advance(json, into, from, newFrom, s, out);
    } else if json[from] == '/' && json[from + 1] == '/' {
      newFrom := SkipLine(json, from);
      Advance(json, into, from, newFrom, s, out);
    } else if json[from] == '/' && json[from + 1] == '*' {
      newFrom := SkipComment(json, from);
      ok := newFrom < json.Length;
      if ok {
        Advance(json, into, from, newFrom, s, out);
      } else {
        NothingLeft(s);
      }
    } else if json[from] == '\"' {
      ok, newInto, newFrom := CopyLiteral(json, into, from, s, out);
      if ok {
        newOut := out + s[from..newFrom];
        FrontFront(out, s[from..newFrom], Minify(s[newFrom..]));
      }
    } else {
      Copy(json, into, from, s, out);
      newInto, newFrom, newOut := into + 1, from + 1, out + [s[from]];
      FrontFront(out, [s[from]], Minify(s[newFrom..]));
    }
  }

  /**
   Minifies a buffer that holds exactly one C string.  It stays inside the buffer exactly
   when every literal and every comment of the string is closed, and then the buffer starts
   with the minified string.
   */
  method MinifyInPlace(json: array<char>) returns (ok: bool)
    requires Clean(json[..])
    modifies json
    ensures ok == Minify(old(json[..])).Some?
    ensures ok ==> Minify(old(json[..])).value <= json[..]
  {
    hide Minify, OnlyLast, Progress, Front;
    ghost var s := json[..];
    var into: nat, from: nat := 0, 0;
    ghost var out := "";
    Start(json);
    StepFacts(s, 0);
    NextRead(json, into, from, s, out);
    while json[from] != NUL
      invariant from < |s| == json.Length && json[from] == s[from]
      invariant Progress(json, into, from, s, out)
      invariant Minify(s) == Front(out, Minify(s[from..]))
      decreases json.Length - from
    {
      FrontNone(out);
      ok, into, from, out := Round(json, into, from, s, out);
      if !ok {
        return;
      }
      NextRead(json, into, from, s, out);
    }
    StepAt(s, from);
    WrittenSoFar(json, into, from, s, out);
    json[into] := NUL;
    Finish(json, into, s, out);
    ok := true;
  }

  lemma Start(json: array<char>)
    ensures Progress(json, 0, 0, json[..], "") && Minify(json[..]) == Front("", Minify(json[..][0..]))
  {
    var m := Minify(json[..]);
    if m.Some? { assert "" + m.value == m.value; }
  }

  lemma Finish(json: array<char>, into: nat, s: string, out: string)
    requires into < json.Length && json[..into] == out && json[into] == NUL && Minify(s) == Front(out, Some([NUL]))
    ensures Minify(s).Some? && Minify(s).value <= json[..]
  { }

  lemma Advance(json: array<char>, into: nat, from: nat, to: nat, s: string, out: string)
    requires Progress(json, into, from, s, out) && from <= to < |s|
    ensures Progress(json, into, to, s, out)
  { }

  /** One round of the main loop. */
  lemma StepAt(s: string, from: nat)
    requires Clean(s) && from < |s|
    ensures var t := s[from..]; var line, comment := from + LineEnd(t), from + CommentEnd(t) + 2;
            if s[from] == NUL then Minify(t) == Some([NUL])
            else
              && from + 1 < |s|
              && if Space(s[from]) then Minify(t) == Minify(s[from + 1..])
              else if s[from] == '/' && s[from + 1] == '/' then Minify(t) == Minify(s[line..])
              else if s[from] == '/' && s[from + 1] == '*' then
                Minify(t) == if comment > |s| then None else Minify(s[comment..])
              else if s[from] == '\"' then
                var q := ClosingQuote(s[from + 1..]);
                Minify(t) == if q.None? then None else Front(s[from..from + q.value + 2], Minify(s[from + q.value + 2..]))
              else Minify(t) == Front([s[from]], Minify(s[from + 1..]))
  {
    hide ClosingQuote, LineEnd, CommentEnd, Front;
    StepFacts(s, from);
    var t := s[from..];
    hide OnlyLast;
    if s[from] == NUL {
    } else if s[from] == '/' && s[from + 1] == '/' {
      SliceTwice(s, from, LineEnd(t));
    } else if s[from] == '/' && s[from + 1] == '*' {
      if from + CommentEnd(t) + 2 <= |s| { SliceTwice(s, from, CommentEnd(t) + 2); }
    } else if s[from] == '\"' {
      var q := ClosingQuote(s[from + 1..]);
      if q.Some? { SliceTwice(s, from, q.value + 2); }
    }
  }

  lemma SliceTwice(s: string, from: nat, n: nat)
    requires from + n <= |s|
    ensures s[from..][n..] == s[from + n..] && s[from..][..n] == s[from..from + n]
  {
  }

  lemma NothingLeft(s: string)
    ensures Minify(s[|s|..]) == None
  {
  }

  lemma FrontNone(out: string)
    ensures Front(out, None) == None
  {
  }
}

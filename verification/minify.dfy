/** cJSON_Minify: the filter it computes, and the in-place loops that compute it. */
module Minify {
  import opened Bytes

  // ----- the filter

  predicate Droppable(b: byte) {
    b == SPACE || b == TAB || b == RETURN || b == NEWLINE
  }

  /** What follows the rest of a line. */
  function AfterLine(s: bytes): (r: bytes)
    ensures |r| <= |s|
  {
    if s == [] then [] else if s[0] == NEWLINE then s[1..] else AfterLine(s[1..])
  }

  /** What follows the end of a block comment. */
  function AfterBlock(s: bytes): (r: bytes)
    ensures |r| <= |s|
  {
    if s == [] then []
    else if s[0] == STAR && |s| > 1 && s[1] == SLASH then s[2..]
    else AfterBlock(s[1..])
  }

  /** How many bytes minify_string copies after an opening quote; `\"` does not end the literal. */
  function LiteralEnd(s: bytes): (n: nat)
    ensures n <= |s|
  {
    if s == [] then 0
    else if s[0] == QUOTE then 1
    else if s[0] == BACKSLASH && |s| > 1 && s[1] == QUOTE then 2 + LiteralEnd(s[2..])
    else 1 + LiteralEnd(s[1..])
  }

  function Filter(s: bytes): (r: bytes)
    ensures |r| <= |s|
    decreases |s|
  {
    if s == [] then []
    else if Droppable(s[0]) then Filter(s[1..])
    else if s[0] == SLASH then
      if |s| > 1 && s[1] == SLASH then Filter(AfterLine(s[2..]))
      else if |s| > 1 && s[1] == STAR then Filter(AfterBlock(s[2..]))
      else Filter(s[1..])
    else if s[0] == QUOTE then
      var n := 1 + LiteralEnd(s[1..]);
      s[..n] + Filter(s[n..])
    else [s[0]] + Filter(s[1..])
  }

  // ----- the filter is idempotent

  lemma {:induction false} LiteralHead(s: bytes)
    requires s != []
    ensures LiteralEnd(s) ==
      if s[0] == QUOTE then 1
      else if s[0] == BACKSLASH && |s| > 1 && s[1] == QUOTE then 2 + LiteralEnd(s[2..])
      else 1 + LiteralEnd(s[1..])
    ensures 1 <= LiteralEnd(s)
  {
  }

  /** The end of a literal depends on nothing after it; an unterminated literal has nothing after it. */
  lemma {:induction false} LiteralEndLocal(s: bytes, t: bytes)
    requires LiteralEnd(s) <= |t| && forall i {:trigger t[i]} :: 0 <= i < LiteralEnd(s) ==> t[i] == s[i]
    requires LiteralEnd(s) < |s| || |t| == |s|
    ensures LiteralEnd(t) == LiteralEnd(s)
  {
    var n := LiteralEnd(s);
    if s == [] {
      assert t == [];
    } else {
      hide LiteralEnd;
      LiteralHead(s);
      LiteralHead(t);
      if s[0] == BACKSLASH && |s| > 1 && s[1] == QUOTE {
        LiteralEndLocal(s[2..], t[2..]);
      } else if s[0] != QUOTE {
        if |s| > 1 {
          LiteralHead(s[1..]);
        }
        LiteralEndLocal(s[1..], t[1..]);
      }
    }
  }

  /** Filtering what has been filtered, when it starts with a literal. */
  lemma {:induction false} LiteralFiltered(s: bytes, n: nat, rest: bytes)
    requires s != [] && s[0] == QUOTE && n == 1 + LiteralEnd(s[1..]) && (n == |s| ==> rest == [])
    ensures Filter(s[..n] + rest) == s[..n] + Filter(rest)
  {
    hide LiteralEnd, AfterLine, AfterBlock, Filter;
    var t := s[..n] + rest;
    LiteralEndLocal(s[1..], t[1..]);
    FilterHead(t);
    assert t[..n] == s[..n] && t[n..] == rest;
  }

  lemma {:induction false} FilterIdempotent(s: bytes)
    ensures Filter(Filter(s)) == Filter(s)
    decreases |s|
  {
    hide LiteralEnd, AfterLine, AfterBlock, Filter;
    if s == [] {
      AfterNothing();
    } else {
      FilterHead(s);
      if Droppable(s[0]) {
        FilterIdempotent(s[1..]);
      } else if s[0] == SLASH {
        if |s| > 1 && s[1] == SLASH {
          FilterIdempotent(AfterLine(s[2..]));
        } else if |s| > 1 && s[1] == STAR {
          FilterIdempotent(AfterBlock(s[2..]));
        } else {
          FilterIdempotent(s[1..]);
        }
      } else if s[0] == QUOTE {
        var n := 1 + LiteralEnd(s[1..]);
        FilterIdempotent(s[n..]);
        LiteralFiltered(s, n, Filter(s[n..]));
      } else {
        FilterIdempotent(s[1..]);
        FilterHead(Filter(s));
        assert Filter(s)[1..] == Filter(s[1..]);
      }
    }
  }

  lemma {:induction false} FilterHead(t: bytes)
    requires t != []
    ensures Filter(t) ==
      if Droppable(t[0]) then Filter(t[1..])
      else if t[0] == SLASH then
        if |t| > 1 && t[1] == SLASH then Filter(AfterLine(t[2..]))
        else if |t| > 1 && t[1] == STAR then Filter(AfterBlock(t[2..]))
        else Filter(t[1..])
      else if t[0] == QUOTE then t[..1 + LiteralEnd(t[1..])] + Filter(t[1 + LiteralEnd(t[1..])..])
      else [t[0]] + Filter(t[1..])
  {
    hide AfterLine, AfterBlock, LiteralEnd;
  }

  lemma AfterNothing()
    ensures AfterLine([]) == [] && AfterBlock([]) == [] && LiteralEnd([]) == 0 && Filter([]) == []
  {
  }

  // ----- the loops

  /** `s` is the content of a block whose text, from `from` on, ends with its first NUL at `n`. */
  ghost predicate TextUpTo(s: bytes, from: nat, n: nat) {
    from <= n < |s| && s[n] == 0 && forall i :: from <= i < n ==> s[i] != 0
  }

  /** From `from` on, the block still holds what it held in `s`. */
  ghost predicate Holds(json: array<byte>, s: bytes, from: nat)
    reads json
  {
    json.Length == |s| && forall i {:trigger json[i]} :: from <= i < |s| ==> json[i] == s[i]
  }

  /** The bytes of `s` from `i` up to `n`. */
  function Part(s: bytes, i: nat, n: nat): (r: bytes)
    requires i <= n <= |s|
    ensures |r| == n - i && forall k {:trigger r[k]} :: 0 <= k < n - i ==> r[k] == s[i + k]
  {
    s[i..n]
  }

  lemma TextPart(s: bytes)
    requires |CStr(s)| < |s|
    ensures Part(s, 0, |CStr(s)|) == CStr(s) && TextUpTo(s, 0, |CStr(s)|)
  {
  }

  lemma {:induction false} AfterLineStep(s: bytes, i: nat, n: nat)
    requires i < n <= |s|
    ensures AfterLine(Part(s, i, n)) == if s[i] == NEWLINE then Part(s, i + 1, n) else AfterLine(Part(s, i + 1, n))
  {
    assert Part(s, i, n)[1..] == Part(s, i + 1, n);
  }

  lemma {:induction false} AfterBlockStep(s: bytes, i: nat, n: nat)
    requires i < n < |s| && s[n] != SLASH
    ensures AfterBlock(Part(s, i, n)) ==
      if s[i] == STAR && s[i + 1] == SLASH then Part(s, i + 2, n) else AfterBlock(Part(s, i + 1, n))
    ensures s[i] == STAR && s[i + 1] == SLASH ==> i + 2 <= n
  {
    assert Part(s, i, n)[1..] == Part(s, i + 1, n);
    if i + 1 < n {
      assert Part(s, i, n)[2..] == Part(s, i + 2, n);
    }
  }

  lemma {:induction false} LiteralEndStep(s: bytes, i: nat, n: nat)
    requires i < n < |s| && s[n] != QUOTE
    ensures LiteralEnd(Part(s, i, n)) ==
      if s[i] == QUOTE then 1
      else if s[i] == BACKSLASH && s[i + 1] == QUOTE then 2 + LiteralEnd(Part(s, i + 2, n))
      else 1 + LiteralEnd(Part(s, i + 1, n))
    ensures s[i + 1] == QUOTE ==> i + 2 <= n
  {
    assert Part(s, i, n)[1..] == Part(s, i + 1, n);
    if i + 1 < n {
      assert Part(s, i, n)[2..] == Part(s, i + 2, n);
    }
  }

  lemma {:induction false} FilterStep(s: bytes, i: nat, n: nat)
    requires i < n < |s| && s[n] == 0
    ensures Filter(Part(s, i, n)) ==
      if Droppable(s[i]) then Filter(Part(s, i + 1, n))
      else if s[i] == SLASH then
        if s[i + 1] == SLASH then Filter(AfterLine(Part(s, i + 2, n)))
        else if s[i + 1] == STAR then Filter(AfterBlock(Part(s, i + 2, n)))
        else Filter(Part(s, i + 1, n))
      else if s[i] == QUOTE then
        var e := i + 1 + LiteralEnd(Part(s, i + 1, n));
        Part(s, i, e) + Filter(Part(s, e, n))
      else [s[i]] + Filter(Part(s, i + 1, n))
    ensures s[i + 1] != 0 ==> i + 2 <= n
  {
    hide AfterLine, AfterBlock, LiteralEnd, Filter, CStr;
    var t := Part(s, i, n);
    FilterHead(t);
    assert t[1..] == Part(s, i + 1, n);
    if i + 1 < n {
      assert t[2..] == Part(s, i + 2, n);
    }
    if s[i] == QUOTE {
      var k := 1 + LiteralEnd(t[1..]);
      assert t[..k] == Part(s, i, i + k) && t[k..] == Part(s, i + k, n);
    }
  }

  method SkipOnelineComment(json: array<byte>, start: nat, ghost n: nat, ghost s: bytes) returns (input: nat)
    requires start + 2 <= n && TextUpTo(s, start, n) && Holds(json, s, start)
    ensures start + 2 <= input <= n && Part(s, input, n) == AfterLine(Part(s, start + 2, n))
  {
    hide AfterLine, AfterBlock, LiteralEnd, Filter, CStr, Part;
    input := start + 2;
    while json[input] != 0
      invariant start + 2 <= input <= n
      invariant AfterLine(Part(s, start + 2, n)) == AfterLine(Part(s, input, n))
      decreases n - input
    {
      AfterLineStep(s, input, n);
      if json[input] == NEWLINE {
        input := input + 1;
        return;
      }
      input := input + 1;
    }
    AfterNothing();
  }

  method SkipMultilineComment(json: array<byte>, start: nat, ghost n: nat, ghost s: bytes) returns (input: nat)
    requires start + 2 <= n && TextUpTo(s, start, n) && Holds(json, s, start)
    ensures start + 2 <= input <= n && Part(s, input, n) == AfterBlock(Part(s, start + 2, n))
  {
    hide AfterLine, AfterBlock, LiteralEnd, Filter, CStr, Part;
    input := start + 2;
    while json[input] != 0
      invariant start + 2 <= input <= n
      invariant AfterBlock(Part(s, start + 2, n)) == AfterBlock(Part(s, input, n))
      decreases n - input
    {
      AfterBlockStep(s, input, n);
      if json[input] == STAR && json[input + 1] == SLASH {
        input := input + 2;
        return;
      }
      input := input + 1;
    }
    AfterNothing();
  }

  /** Copies a literal down to `to`, which never passes the position being read. */
  method MinifyString(json: array<byte>, from: nat, to: nat, ghost n: nat, ghost s: bytes)
    returns (input: nat, output: nat)
    requires to <= from < n && TextUpTo(s, from, n) && s[from] == QUOTE && Holds(json, s, to)
    modifies json
    ensures input == from + 1 + LiteralEnd(Part(s, from + 1, n)) <= n
    ensures output == to + (input - from)
    ensures Holds(json, s, output)
    ensures forall i {:trigger json[i]} :: 0 <= i < to ==> json[i] == old(json[i])
    ensures forall i {:trigger json[i]} :: to <= i < output ==> json[i] == s[i - to + from]
  {
    hide LiteralEnd, Part;
    json[to] := json[from];
    input := from + 1;
    output := to + 1;
    while json[input] != 0
      invariant from < input <= n && output == to + (input - from) && output < json.Length
      invariant LiteralEnd(Part(s, from + 1, n)) == (input - from - 1) + LiteralEnd(Part(s, input, n))
      invariant forall i {:trigger json[i]} :: 0 <= i < to ==> json[i] == old(json[i])
      invariant forall i {:trigger json[i]} :: to <= i < output ==> json[i] == s[i - to + from]
      invariant Holds(json, s, output)
      decreases n - input
    {
      LiteralEndStep(s, input, n);
      json[output] := json[input];
      if json[input] == QUOTE {
        json[output] := QUOTE;
        input := input + 1;
        output := output + 1;
        break;
      } else if json[input] == BACKSLASH && json[input + 1] == QUOTE {
        json[output + 1] := json[input + 1];
        input := input + 1;
        output := output + 1;
      }
      input := input + 1;
      output := output + 1;
    }
    AfterNothing();
  }

  /** The loop of cJSON_Minify on the text of length `n` held in `s`. */
  method Squeeze(json: array<byte>, ghost n: nat, ghost s: bytes) returns (into: nat)
    requires TextUpTo(s, 0, n) && Holds(json, s, 0)
    modifies json
    ensures into == |Filter(Part(s, 0, n))| <= n && Holds(json, s, into)
    ensures forall i {:trigger json[i]} :: 0 <= i < into ==> json[i] == Filter(Part(s, 0, n))[i]
  {
    hide Filter, AfterLine, AfterBlock, LiteralEnd, CStr, Part;
    var input: nat := 0;
    into := 0;
    ghost var done: bytes := [];
    while json[input] != 0
      invariant into <= input <= n < json.Length && TextUpTo(s, input, n)
      invariant |done| == into && forall i {:trigger json[i]} :: 0 <= i < into ==> json[i] == done[i]
      invariant Holds(json, s, into)
      invariant Filter(Part(s, 0, n)) == done + Filter(Part(s, input, n))
      decreases n - input
    {
      input, into, done := SqueezeOne(json, input, into, done, n, s);
    }
    AfterNothing();
    assert Part(s, input, n) == [];
    assert done + [] == done;
  }

  /** The body of the loop: `done` has been written when it starts, `done'` when it ends. */
  method SqueezeOne(json: array<byte>, from: nat, to: nat, ghost done: bytes, ghost n: nat, ghost s: bytes)
    returns (input: nat, into: nat, ghost done': bytes)
    requires to <= from < n && TextUpTo(s, from, n) && Holds(json, s, to)
    requires |done| == to && forall i {:trigger json[i]} :: 0 <= i < to ==> json[i] == done[i]
    modifies json
    ensures into <= input && from < input <= n && Holds(json, s, into)
    ensures |done'| == into && forall i {:trigger json[i]} :: 0 <= i < into ==> json[i] == done'[i]
    ensures done + Filter(Part(s, from, n)) == done' + Filter(Part(s, input, n))
  {
    hide Filter, AfterLine, AfterBlock, LiteralEnd, CStr, Part;
    input, into, done' := from, to, done;
    FilterStep(s, from, n);
    var b := json[from];
    if b == SPACE || b == TAB || b == RETURN || b == NEWLINE {
      input := from + 1;
    } else if b == SLASH {
      input := SkipSlash(json, from, n, s);
    } else if b == QUOTE {
      input, into := MinifyString(json, from, to, n, s);
      Regroup(done, Part(s, from, input), Filter(Part(s, input, n)));
      done' := done + Part(s, from, input);
    } else {
      json[to] := b;
      input := from + 1;
      into := to + 1;
      Regroup(done, [b], Filter(Part(s, input, n)));
      done' := done + [b];
    }
  }

  /** The case of a slash: a comment, or a stray slash that is dropped. */
  method SkipSlash(json: array<byte>, from: nat, ghost n: nat, ghost s: bytes) returns (input: nat)
    requires from < n && TextUpTo(s, from, n) && Holds(json, s, from) && s[from] == SLASH
    ensures from < input <= n && Filter(Part(s, from, n)) == Filter(Part(s, input, n))
  {
    hide Filter, AfterLine, AfterBlock, LiteralEnd, CStr, Part;
    FilterStep(s, from, n);
    if json[from + 1] == SLASH {
      input := SkipOnelineComment(json, from, n, s);
    } else if json[from + 1] == STAR {
      input := SkipMultilineComment(json, from, n, s);
    } else {
      input := from + 1;
    }
  }

  /** The text up to its terminator is replaced by its filter and a new terminator; what lies behind
      the new terminator is left alone. */
  method CJsonMinify(json: array<byte>)
    requires |CStr(json[..])| < json.Length
    modifies json
    ensures var out := Filter(CStr(old(json[..])));
      && |out| < json.Length && json[..|out|] == out && json[|out|] == 0
      && forall i :: |out| < i < json.Length ==> json[i] == old(json[i])
  {
    hide Filter, CStr, Part;
    ghost var s := json[..];
    TextPart(s);
    var into := Squeeze(json, |CStr(s)|, s);
    json[into] := 0;
  }
}

/** Which errors are reported at the very byte at which no accepted text can go on. */
module ErrorsExact {
  import opened Bytes
  import opened Json
  import opened NumberSpec
  import opened StringSpec
  import opened ParseSpec
  import opened Syntax
  import opened Completeness
  import opened Soundness
  import opened Documents
  import opened ErrorPositions

  /** The byte may belong to a word, a number or a string. A misspelt word and a minus sign without a number are
      reported at their first byte, a string that is not closed behind its quote, a bad escape at its backslash; and
      a number may have been read up to here and could still go on. */
  ghost predicate InToken(c: bytes, at: nat)
    requires at < |c|
  {
    || c[at] == 0x6E || c[at] == 0x74 || c[at] == 0x66 || c[at] == 0x2D || c[at] == 0x5C
    || (at > 0 && (c[at - 1] == 0x22 || InNumber(c, at)))
  }

  ghost predicate InNumber(c: bytes, at: nat)
    requires 0 < at < |c|
  {
    NumberCharacter(c[at - 1]) && NumberCharacter(c[at])
  }

  ghost predicate NumberCharacter(b: byte) {
    0x30 <= b <= 0x39 || b == 0x2B || b == 0x2D || b == 0x2E || b == 0x45 || b == 0x65
  }

  /** The buffers agree up to and including `at`, which is not the last byte of the first one. */
  ghost predicate Shared(c: bytes, t: bytes, at: nat) {
    at + 1 < |c| && at < |t| && forall i :: 0 <= i <= at ==> t[i] == c[i]
  }

  lemma {:induction false} AtShared(c: bytes, t: bytes, at: nat, o: nat, part: bytes)
    requires Shared(c, t, at) && At(c, o, part) && o + |part| <= at + 1
    ensures At(t, o, part)
  {
    assert t[o..o + |part|] == c[o..o + |part|];
  }

  lemma {:induction false} SkipsSame(c: bytes, t: bytes, at: nat, o: nat)
    requires Shared(c, t, at) && o <= |c| && SkipBlanks(c, o) <= at
    ensures o <= |t| && SkipBlanks(t, o) == SkipBlanks(c, o) && !IsBlank(c[SkipBlanks(c, o)])
  {
    hide SkipBlanks;
    SkipBlanksLands(c, o);
    var blank := SkippedBlanks(c, o);
    AtShared(c, t, at, o, blank);
    SkipsBlank(t, o, blank);
  }

  lemma {:induction false} ValueSame(c: bytes, t: bytes, at: nat, o: nat, depth: nat)
    requires o <= |c| && o <= |t| && depth <= NESTING_LIMIT && ParseValue(c, o, depth).Ok? && Shared(c, t, at)
    requires var e := ParseValue(c, o, depth).offset; e <= at && !InNumber(c, e)
    ensures ParseValue(t, o, depth) == ParseValue(c, o, depth)
  {
    hide ParseValue, Flatten, Valid, Meaning, Depth, At;
    var s := ValueRecovered(c, o, depth);
    AtShared(c, t, at, o, Flatten(s));
    if s.SNumber? {
      NumberLast(c, o, s);
    }
    ValueAccepted(t, o, depth, s);
  }

  lemma NumberLast(c: bytes, o: nat, s: Syntax)
    requires s.SNumber? && Valid(s) && At(c, o, Flatten(s))
    ensures var e := o + |Flatten(s)|; 0 < e <= |c| && NumberCharacter(c[e - 1])
  {
    hide Strtod;
    var e := o + |s.text|;
    assert c[o..e][|s.text| - 1] == c[e - 1];
  }

  lemma {:induction false} StringSame(c: bytes, t: bytes, at: nat, o: nat)
    requires o < |c| && o < |t| && ParseString(c, o).Ok? && ParseString(c, o).offset <= at && Shared(c, t, at)
    ensures ParseString(t, o) == ParseString(c, o)
  {
    hide ParseString, Quoted, Unescape, CStr, At, Balanced;
    var raw := StringRecovered(c, o);
    AtShared(c, t, at, o, Quoted(raw));
    StringAccepted(t, o, raw);
    QuotedLength(raw);
  }

  lemma QuotedLength(raw: bytes)
    ensures |Quoted(raw)| == |raw| + 2
  {
  }

  /** Decoding gives up at a backslash. */
  lemma {:induction false} StopsAtBackslash(s: bytes)
    requires Unescape(s).Bad?
    ensures 0 < Unescape(s).left <= |s| && s[|s| - Unescape(s).left] == BACKSLASH
    decreases |s|
  {
    BadLeft(s);
    match DecodeStep(s)
    case Stuck =>
    case Step(_, len) =>
      StopsAtBackslash(Drop(s, len));
      hide DecodeStep;
  }

  /** A string that starts with a quote fails behind the quote or at an escape. */
  lemma {:induction false} StringFails(c: bytes, o: nat)
    requires o < |c| && ParseString(c, o).Fail? && c[o] == QUOTE && ParseString(c, o).offset < |c|
    ensures InToken(c, ParseString(c, o).offset)
  {
    hide Unescape;
    var e := Close(c, o + 1);
    if e != -1 {
      var raw := c[o + 1..e];
      StopsAtBackslash(raw);
      assert raw[|raw| - Unescape(raw).left] == c[e - Unescape(raw).left];
    }
  }

  // ----- values

  /** A text that agrees with a rejected one up to an error outside tokens is rejected as well. */
  lemma {:induction false} ValueFailsToo(c: bytes, t: bytes, at: nat, o: nat, depth: nat)
    requires o <= |c| && o <= |t| && depth <= NESTING_LIMIT && ParseValue(c, o, depth) == Fail(at)
    requires Shared(c, t, at) && !InToken(c, at)
    ensures ParseValue(t, o, depth).Fail?
    decreases |c| - o, 3
  {
    hide ParseString, ParseNumber, ParseArray, ParseObject;
    LiteralsAway(c, t, at, o);
    if c[o] == QUOTE {
      StringFails(c, o);
    } else if c[o] == LBRACKET {
      ArrayFailsToo(c, t, at, o, depth);
    } else if c[o] == LBRACE {
      ObjectFailsToo(c, t, at, o, depth);
    } else if c[o] == MINUS || IsDigit(c[o]) {
      NumberFailsHere(c, o);
    }
  }

  lemma LiteralsAway(c: bytes, t: bytes, at: nat, o: nat)
    requires o <= |c| && o <= at && Shared(c, t, at)
    ensures o < |c| && o < |t| && t[o] == c[o]
    ensures c[o] != LOWER_N && c[o] != LOWER_T && c[o] != LOWER_F ==>
      !Looking(t, o, NULL_TEXT) && !Looking(t, o, TRUE_TEXT) && !Looking(t, o, FALSE_TEXT)
  {
    if c[o] != LOWER_N && c[o] != LOWER_T && c[o] != LOWER_F {
      NoLiteral(t, o);
    }
  }

  lemma NumberFailsHere(c: bytes, o: nat)
    requires o < |c| && ParseNumber(c, o).Fail?
    ensures ParseNumber(c, o).offset == o && !IsDigit(c[o])
  {
    hide Exponent, Decimal;
  }

  lemma {:induction false} ArrayFailsToo(c: bytes, t: bytes, at: nat, o: nat, depth: nat)
    requires o < |c| && o < |t| && depth <= NESTING_LIMIT && ParseArray(c, o, depth) == Fail(at)
    requires Shared(c, t, at) && !InToken(c, at)
    ensures ParseArray(t, o, depth).Fail?
    decreases |c| - o, 2
  {
    hide SkipBlanks, ParseElements;
    if depth < NESTING_LIMIT {
      var p := SkipBlanks(c, o + 1);
      SkipsSame(c, t, at, o + 1);
      ElementsFailToo(c, t, at, p, depth + 1);
    }
  }

  lemma {:induction false} ElementsFailToo(c: bytes, t: bytes, at: nat, p: nat, depth: nat)
    requires p <= |c| && p <= |t| && depth <= NESTING_LIMIT && ParseElements(c, p, depth) == Fail(at)
    requires Shared(c, t, at) && !InToken(c, at)
    ensures ParseElements(t, p, depth).Fail?
    decreases |c| - p, 4
  {
    hide SkipBlanks, ParseValue, InToken;
    if ParseValue(c, p, depth).Fail? {
      ValueFailsToo(c, t, at, p, depth);
    } else {
      var e := ParseValue(c, p, depth).offset;
      var q := SkipBlanks(c, e);
      SkipsSame(c, t, at, e);
      BehindValueEnds(c, e, at);
      ValueSame(c, t, at, p, depth);
      if c[q] == COMMA {
        var n := SkipBlanks(c, q + 1);
        SkipsSame(c, t, at, q + 1);
        ElementsFailToo(c, t, at, n, depth);
      }
    }
  }

  /** A value that a number character could continue is where parsing stops. */
  lemma {:induction false} BehindValueEnds(c: bytes, e: nat, at: nat)
    requires e <= |c| && SkipBlanks(c, e) <= at < |c| && !InToken(c, at)
    requires var q := SkipBlanks(c, e); q < at ==> c[q] == COMMA || c[q] == COLON || c[q] == RBRACKET || c[q] == RBRACE
    ensures e > 0 ==> !InNumber(c, e)
  {
    SkipBlanksLands(c, e);
  }

  // ----- objects

  lemma {:induction false} ObjectFailsToo(c: bytes, t: bytes, at: nat, o: nat, depth: nat)
    requires o < |c| && o < |t| && depth <= NESTING_LIMIT && ParseObject(c, o, depth) == Fail(at)
    requires Shared(c, t, at) && !InToken(c, at)
    ensures ParseObject(t, o, depth).Fail?
    decreases |c| - o, 2
  {
    hide SkipBlanks, ParseMembers;
    if depth < NESTING_LIMIT {
      var p := SkipBlanks(c, o + 1);
      SkipsSame(c, t, at, o + 1);
      MembersFailToo(c, t, at, p, depth + 1);
    }
  }

  lemma {:induction false} KeyFailsToo(c: bytes, t: bytes, at: nat, p: nat)
    requires p < |c| && p < |t| && ParseKey(c, p) == Fail(at) && Shared(c, t, at) && !InToken(c, at)
    ensures ParseKey(t, p).Fail?
  {
    hide SkipBlanks, InToken;
    if c[p] != QUOTE {
      assert t[p] == c[p];
    } else if ParseString(c, p).Fail? {
      StringFails(c, p);
    } else {
      hide ParseString;
      SkipsSame(c, t, at, ParseString(c, p).offset);
      StringSame(c, t, at, p);
    }
  }

  lemma {:induction false} KeySame(c: bytes, t: bytes, at: nat, p: nat)
    requires p < |c| && p < |t| && ParseKey(c, p).Ok? && ParseKey(c, p).offset <= at && Shared(c, t, at)
    ensures ParseKey(t, p) == ParseKey(c, p)
  {
    hide SkipBlanks, ParseString;
    var e := ParseString(c, p).offset;
    var q := SkipBlanks(c, e);
    SkipsSame(c, t, at, e);
    SkipsSame(c, t, at, q + 1);
    StringSame(c, t, at, p);
  }

  lemma {:induction false} MembersFailToo(c: bytes, t: bytes, at: nat, p: nat, depth: nat)
    requires p < |c| && p < |t| && depth <= NESTING_LIMIT && ParseMembers(c, p, depth) == Fail(at)
    requires Shared(c, t, at) && !InToken(c, at)
    ensures ParseMembers(t, p, depth).Fail?
    decreases |c| - p, 4
  {
    hide SkipBlanks, ParseKey, ParseValue, InToken;
    if ParseKey(c, p).Fail? {
      KeyFailsToo(c, t, at, p);
    } else {
      var start := ParseKey(c, p).offset;
      KeySame(c, t, at, p);
      if ParseValue(c, start, depth).Fail? {
        ValueFailsToo(c, t, at, start, depth);
      } else {
        MemberTailFailsToo(c, t, at, p, start, depth);
      }
    }
  }

  lemma {:induction false} MemberTailFailsToo(c: bytes, t: bytes, at: nat, p: nat, start: nat, depth: nat)
    requires p < |c| && p < |t| && depth <= NESTING_LIMIT && ParseMembers(c, p, depth) == Fail(at)
    requires Shared(c, t, at) && !InToken(c, at)
    requires ParseKey(c, p).Ok? && ParseKey(t, p) == ParseKey(c, p) && start == ParseKey(c, p).offset
    requires start <= |c| && ParseValue(c, start, depth).Ok?
    ensures ParseMembers(t, p, depth).Fail?
    decreases |c| - p, 3
  {
    hide SkipBlanks, ParseKey, ParseValue, InToken;
    var e := ParseValue(c, start, depth).offset;
    var q := SkipBlanks(c, e);
    SkipsSame(c, t, at, e);
    BehindValueEnds(c, e, at);
    ValueSame(c, t, at, start, depth);
    if c[q] == COMMA && q + 1 < |c| {
      var n := SkipBlanks(c, q + 1);
      if q < at {
        SkipsSame(c, t, at, q + 1);
        MembersFailToo(c, t, at, n, depth);
      }
    }
  }

  // ----- texts

  lemma {:induction false} StartSame(c: bytes, t: bytes, at: nat)
    requires Shared(c, t, at) && at + 1 < |t| && Start(c) <= at && c[|c| - 1] == 0 && c[0] != 0xEF
    ensures Start(t) == Start(c)
  {
    hide SkipBlanks;
    assert t[0] == c[0];
    if |c| > 4 {
      assert c[..3][0] == c[0];
    }
    if |t| > 4 {
      assert t[..3][0] == t[0];
    }
    SkipsSame(c, t, at, 0);
  }

  lemma {:induction false} MarkedStartSame(c: bytes, t: bytes, at: nat)
    requires Shared(c, t, at) && at + 1 < |t| && Start(c) <= at && |c| > 4 && c[..3] == BOM
    ensures Start(t) == Start(c)
  {
    hide SkipBlanks;
    var n := Start(c);
    assert n >= 3;
    assert t[..3] == c[..3];
    SkipsSame(c, t, at, 3);
  }

  lemma {:induction false} OtherMark(c: bytes)
    requires c != [] && c[0] == 0xEF && !(|c| > 4 && c[..3] == BOM)
    ensures Start(c) == 0 && ParseValue(c, 0, 0) == Fail(0)
  {
    NoLiteral(c, 0);
  }

  lemma {:induction false} BufferFailsToo(c: bytes, t: bytes, at: nat)
    requires Shared(c, t, at) && at + 1 < |t| && c[|c| - 1] == 0 && !InToken(c, at) && (at == 0 ==> c[0] != 0xEF)
    requires ParseBuffer(c, true) == Fail(at)
    ensures ParseBuffer(t, true).Fail?
  {
    hide ParseValue, SkipBlanks, Start, InToken;
    var p := Start(c);
    if c[0] == 0xEF && !(|c| > 4 && c[..3] == BOM) {
      OtherMark(c);
    }
    if c[0] == 0xEF {
      MarkedStartSame(c, t, at);
    } else {
      StartSame(c, t, at);
    }
    if ParseValue(c, p, 0).Fail? {
      ValueFailsToo(c, t, at, p, 0);
    } else {
      var e := ParseValue(c, p, 0).offset;
      SkipsSame(c, t, at, e);
      BehindValueEnds(c, e, at);
      ValueSame(c, t, at, p, 0);
    }
  }

  /** Outside words, numbers and strings the error is exactly at the byte with which no accepted text goes on. */
  lemma {:induction false} NoWayOn(text: cstring, more: cstring)
    requires ParseText(text, true).Fail?
    requires var at := ParseText(text, true).offset;
      at < |text| && !InToken(text, at) && (at == 0 ==> text[0] != 0xEF)
    ensures ParseText(text[..ParseText(text, true).offset + 1] + more, true).Fail?
  {
    hide ParseBuffer, InToken;
    var at := ParseText(text, true).offset;
    var c, t := text + [0], text[..at + 1] + more + [0];
    assert InToken(c, at) <==> InToken(text, at) by {
      SameToken(text, at);
    }
    BufferFailsToo(c, t, at);
  }

  lemma SameToken(text: bytes, at: nat)
    requires at < |text|
    ensures InToken(text + [0], at) <==> InToken(text, at)
  {
  }
}

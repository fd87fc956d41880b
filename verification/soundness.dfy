/** Whatever the parser accepts is the text of a valid syntax tree that denotes its result. */
module Soundness {
  import opened Bytes
  import opened Json
  import opened NumberSpec
  import opened StringSpec
  import opened ParseSpec
  import opened Syntax

  lemma {:induction false} BlankEndBlanks(c: bytes, o: nat)
    requires o <= |c|
    ensures Blank(c[o..BlankEnd(c, o)])
    decreases |c| - o
  {
    if o < |c| && IsBlank(c[o]) {
      BlankEndBlanks(c, o + 1);
      var e := BlankEnd(c, o);
      assert c[o..e] == [c[o]] + c[o + 1..e];
    }
  }

  lemma {:induction false} SkippedBlanks(c: bytes, o: nat) returns (blank: bytes)
    requires o <= |c|
    ensures At(c, o, blank) && Blank(blank) && SkipBlanks(c, o) == o + |blank|
  {
    BlankEndBlanks(c, o);
    var e := BlankEnd(c, o);
    blank := c[o..SkipBlanks(c, o)];
    forall i | 0 <= i < |blank| ensures IsBlank(blank[i]) {
      assert blank[i] == c[o..e][i];
    }
  }

  // ----- strtod sees no more than the prefix it consumes

  lemma {:induction false} DigitsEndPrefix(s: bytes, n: nat, i: nat)
    requires i <= n <= |s| && DigitsEnd(s, i) <= n
    ensures DigitsEnd(s[..n], i) == DigitsEnd(s, i)
  {
    DigitsEndUnique(s[..n], i, DigitsEnd(s, i));
  }

  lemma {:induction false} ExponentPrefix(s: bytes, f: nat)
    requires f <= |s|
    ensures Exponent(s[..Exponent(s, f).0], f) == Exponent(s, f)
  {
    var n := Exponent(s, f).0;
    if n > f {
      var signed := s[f + 1] == PLUS || s[f + 1] == MINUS;
      var g := if signed then f + 2 else f + 1;
      DigitsEndPrefix(s, n, g);
      assert s[..n][g..n] == s[g..n];
    }
  }

  lemma {:induction false} FractionPrefix(s: bytes, n: nat, i: nat)
    requires i <= n <= |s| && FractionEnd(s, i) <= n
    ensures FractionEnd(s[..n], i) == FractionEnd(s, i) && Fraction(s[..n], i) == Fraction(s, i)
  {
    if FractionEnd(s, i) > i {
      DigitsEndPrefix(s, n, i + 1);
    }
  }

  lemma {:induction false} StrtodPrefix(s: bytes)
    requires Strtod(s).Numeral?
    ensures Strtod(s[..Strtod(s).len]) == Strtod(s)
  {
    hide Decimal, Exponent, Fraction, FractionEnd, DigitsEnd;
    var n := Strtod(s).len;
    var a := SignEnd(s);
    var i := DigitsEnd(s, a);
    DigitsEndPrefix(s, n, a);
    FractionPrefix(s, n, i);
    assert s[..n][a..i] == s[a..i];
    ExponentPrefix(s, FractionEnd(s, i));
  }

  // ----- recovering the tree from an accepted text

  lemma {:induction false} StringRecovered(c: bytes, o: nat) returns (raw: bytes)
    requires o < |c| && ParseString(c, o).Ok?
    ensures ValidString(raw) && At(c, o, Quoted(raw))
    ensures ParseString(c, o) == Ok(CStr(Unescape(raw).out), o + |Quoted(raw)|)
  {
    hide Close, Balanced, Unescape, CStr, NulFree;
    CloseIsBalanced(c, o + 1);
    var e := Close(c, o + 1);
    raw := c[o + 1..e];
    assert c[o..e + 1] == Quoted(raw);
  }

  lemma {:induction false} NumberRecovered(c: bytes, o: nat) returns (text: bytes)
    requires o < |c| && (c[o] == MINUS || IsDigit(c[o])) && ParseNumber(c, o).Ok?
    ensures ValidNumber(text) && At(c, o, text)
    ensures ParseNumber(c, o) == Ok(Number(Strtod(text).value, Saturate(Strtod(text).value)), o + |text|)
  {
    hide Strtod, Saturate;
    var run := c[o..RunEnd(c, o)];
    var n := Strtod(run).len;
    StrtodPrefix(run);
    text := run[..n];
    assert text == c[o..o + n];
    forall i | 0 <= i < n ensures IsNumberChar(text[i]) {
      assert text[i] == c[o + i];
    }
  }

  lemma {:induction false} ValueRecovered(c: bytes, o: nat, depth: nat) returns (s: Syntax)
    requires o <= |c| && depth <= NESTING_LIMIT && ParseValue(c, o, depth).Ok?
    ensures Valid(s) && At(c, o, Flatten(s)) && depth + Depth(s) <= NESTING_LIMIT
    ensures ParseValue(c, o, depth) == Ok(Meaning(s), o + |Flatten(s)|)
    decreases |c| - o, 3
  {
    hide SkipBlanks, Unescape, Strtod, ParseString, ParseNumber, Balanced, ParseElements, ParseMembers;
    if Looking(c, o, NULL_TEXT) {
      s := SNull;
    } else if Looking(c, o, FALSE_TEXT) {
      s := SFalse;
    } else if Looking(c, o, TRUE_TEXT) {
      s := STrue;
    } else if c[o] == QUOTE {
      var raw := StringRecovered(c, o);
      s := SString(raw);
    } else if c[o] == MINUS || IsDigit(c[o]) {
      var text := NumberRecovered(c, o);
      s := SNumber(text);
    } else if c[o] == LBRACKET {
      s := ArrayRecovered(c, o, depth);
    } else {
      s := ObjectRecovered(c, o, depth);
    }
  }

  lemma {:induction false} EmptyRecovered(c: bytes, o: nat, close: byte) returns (blank: bytes)
    requires o < |c| && SkipBlanks(c, o + 1) < |c| && c[SkipBlanks(c, o + 1)] == close
    ensures Blank(blank) && At(c, o, [c[o]] + (blank + [close]))
    ensures SkipBlanks(c, o + 1) == o + 1 + |blank|
  {
    hide SkipBlanks;
    blank := SkippedBlanks(c, o + 1);
    AtJoin(c, o + 1, blank, [close]);
    AtJoin(c, o, [c[o]], blank + [close]);
  }

  lemma {:induction false} ArrayRecovered(c: bytes, o: nat, depth: nat) returns (s: Syntax)
    requires o < |c| && c[o] == LBRACKET && depth <= NESTING_LIMIT && ParseArray(c, o, depth).Ok?
    ensures Valid(s) && At(c, o, Flatten(s)) && depth + Depth(s) <= NESTING_LIMIT
    ensures Meaning(s) == Array(ParseArray(c, o, depth).value) && ParseArray(c, o, depth).offset == o + |Flatten(s)|
    decreases |c| - o, 2
  {
    hide SkipBlanks, ParseElements, FlattenElems, ElemsDepth, ElemsMeaning, ValidElems;
    var p := SkipBlanks(c, o + 1);
    if c[p] == RBRACKET {
      var blank := EmptyRecovered(c, o, RBRACKET);
      s := SEmptyArray(blank);
    } else {
      var elems := ElementsRecovered(c, o + 1, depth + 1);
      AtJoin(c, o, [LBRACKET], FlattenElems(elems));
      s := SArray(elems);
    }
  }

  lemma {:induction false} ElementsRecovered(c: bytes, o: nat, depth: nat) returns (es: Elems)
    requires o <= |c| && depth <= NESTING_LIMIT && ParseElements(c, SkipBlanks(c, o), depth).Ok?
    ensures ValidElems(es) && At(c, o, FlattenElems(es)) && depth + ElemsDepth(es) <= NESTING_LIMIT
    ensures ParseElements(c, SkipBlanks(c, o), depth) == Ok(ElemsMeaning(es), o + |FlattenElems(es)|)
    decreases |c| - o, 4
  {
    hide At, SkipBlanks, ParseValue, ParseElements, Flatten, Valid, Meaning, Depth;
    var before := SkippedBlanks(c, o);
    var p := SkipBlanks(c, o);
    ElementsUnfold(c, p, depth);
    var value := ValueRecovered(c, p, depth);
    var e := ParseValue(c, p, depth).offset;
    var after := SkippedBlanks(c, e);
    var q := SkipBlanks(c, e);
    if c[q] == COMMA {
      var rest := ElementsRecovered(c, q + 1, depth);
      JoinAfter(c, q, COMMA, FlattenElems(rest));
      SpacedJoin(c, o, before, Flatten(value), after, [COMMA] + FlattenElems(rest));
      es := MoreElems(before, value, after, rest);
    } else {
      JoinAfter(c, q, RBRACKET, []);
      SpacedJoin(c, o, before, Flatten(value), after, [RBRACKET]);
      es := LastElem(before, value, after);
    }
  }

  lemma {:induction false} JoinAfter(c: bytes, q: nat, b: byte, more: bytes)
    requires q < |c| && c[q] == b && (more == [] || At(c, q + 1, more))
    ensures At(c, q, [b] + more) && [b] + [] == [b]
  {
    assert [b] + [] == [b];
    assert At(c, q, [b]);
    if more != [] {
      AtJoin(c, q, [b], more);
    }
  }

  lemma {:induction false} SpacedJoin(c: bytes, o: nat, before: bytes, text: bytes, after: bytes, tail: bytes)
    requires At(c, o, before) && At(c, o + |before|, text) && At(c, o + |before| + |text|, after)
    requires At(c, o + |before| + |text| + |after|, tail)
    ensures At(c, o, Spaced(before, text, after, tail))
  {
    AtJoin(c, o + |before| + |text|, after, tail);
    AtJoin(c, o + |before|, text, after + tail);
    AtJoin(c, o, before, text + (after + tail));
  }

  lemma {:induction false} ElementsUnfold(c: bytes, p: nat, depth: nat)
    requires p <= |c| && depth <= NESTING_LIMIT && ParseElements(c, p, depth).Ok?
    ensures ParseValue(c, p, depth).Ok?
    ensures var end := ParseValue(c, p, depth).offset;
      var q, v := SkipBlanks(c, end), ParseValue(c, p, depth).value;
      && p < end <= q < |c|
      && if c[q] == COMMA then
           && var more := ParseElements(c, SkipBlanks(c, q + 1), depth);
           more.Ok? && ParseElements(c, p, depth) == Ok([v] + more.value, more.offset)
         else c[q] == RBRACKET && ParseElements(c, p, depth) == Ok([v], q + 1)
  {
    hide SkipBlanks, ParseValue;
  }

  lemma {:induction false} ObjectRecovered(c: bytes, o: nat, depth: nat) returns (s: Syntax)
    requires o < |c| && c[o] == LBRACE && depth <= NESTING_LIMIT && ParseObject(c, o, depth).Ok?
    ensures Valid(s) && At(c, o, Flatten(s)) && depth + Depth(s) <= NESTING_LIMIT
    ensures Meaning(s) == Object(ParseObject(c, o, depth).value) && ParseObject(c, o, depth).offset == o + |Flatten(s)|
    decreases |c| - o, 2
  {
    hide SkipBlanks, ParseMembers, ParseKey, FlattenMembers, MembersDepth, MembersMeaning, ValidMembers;
    var p := SkipBlanks(c, o + 1);
    if c[p] == RBRACE {
      var blank := EmptyRecovered(c, o, RBRACE);
      s := SEmptyObject(blank);
    } else {
      var members := MembersRecovered(c, o + 1, depth + 1);
      AtJoin(c, o, [LBRACE], FlattenMembers(members));
      s := SObject(members);
    }
  }

  lemma {:induction false} KeyRecovered(c: bytes, o: nat) returns (k: Key)
    requires o <= |c| && SkipBlanks(c, o) < |c| && ParseKey(c, SkipBlanks(c, o)).Ok?
    ensures ValidKey(k) && At(c, o, FlattenKey(k))
    ensures ParseKey(c, SkipBlanks(c, o)) == Ok(KeyMeaning(k), o + |FlattenKey(k)|)
  {
    hide SkipBlanks, ParseString, ValidString, Unescape;
    var before := SkippedBlanks(c, o);
    var p := SkipBlanks(c, o);
    var raw := StringRecovered(c, p);
    var e := ParseString(c, p).offset;
    var mid := SkippedBlanks(c, e);
    var q := SkipBlanks(c, e);
    var after := SkippedBlanks(c, q + 1);
    JoinAfter(c, q, COLON, after);
    SpacedJoin(c, o, before, Quoted(raw), mid, [COLON] + after);
    k := Key(before, raw, mid, after);
  }

  lemma {:induction false} MembersUnfold(c: bytes, p: nat, depth: nat)
    requires p < |c| && depth <= NESTING_LIMIT && ParseMembers(c, p, depth).Ok?
    ensures ParseKey(c, p).Ok?
    ensures ParseValue(c, ParseKey(c, p).offset, depth).Ok?
    ensures var key := ParseKey(c, p); var value := ParseValue(c, key.offset, depth);
      var q := SkipBlanks(c, value.offset);
      && p < value.offset <= q < |c|
      && if c[q] == COMMA then
           && q + 1 < |c|
           && var more := ParseMembers(c, SkipBlanks(c, q + 1), depth);
           more.Ok? && ParseMembers(c, p, depth) == Ok([Member(key.value, value.value)] + more.value, more.offset)
         else c[q] == RBRACE && ParseMembers(c, p, depth) == Ok([Member(key.value, value.value)], q + 1)
  {
    hide SkipBlanks, ParseValue, ParseKey;
  }

  lemma {:induction false} MembersRecovered(c: bytes, o: nat, depth: nat) returns (ms: Members)
    requires o <= |c| && depth <= NESTING_LIMIT
    requires SkipBlanks(c, o) < |c| && ParseMembers(c, SkipBlanks(c, o), depth).Ok?
    ensures ValidMembers(ms) && At(c, o, FlattenMembers(ms)) && depth + MembersDepth(ms) <= NESTING_LIMIT
    ensures ParseMembers(c, SkipBlanks(c, o), depth) == Ok(MembersMeaning(ms), o + |FlattenMembers(ms)|)
    decreases |c| - o, 4
  {
    hide At, SkipBlanks, ParseKey, ParseValue, ParseMembers, Flatten, FlattenKey, Valid, ValidKey, Meaning;
    hide KeyMeaning, Depth;
    var p := SkipBlanks(c, o);
    MembersUnfold(c, p, depth);
    var key := KeyRecovered(c, o);
    var start := ParseKey(c, p).offset;
    var value := ValueRecovered(c, start, depth);
    var e := ParseValue(c, start, depth).offset;
    var after := SkippedBlanks(c, e);
    var q := SkipBlanks(c, e);
    if c[q] == COMMA {
      var rest := MembersRecovered(c, q + 1, depth);
      JoinAfter(c, q, COMMA, FlattenMembers(rest));
      MemberJoin(c, o, key, Flatten(value), after, [COMMA] + FlattenMembers(rest));
      ms := MoreMembers(key, value, after, rest);
    } else {
      JoinAfter(c, q, RBRACE, []);
      MemberJoin(c, o, key, Flatten(value), after, [RBRACE]);
      ms := LastMember(key, value, after);
    }
  }

  lemma {:induction false} MemberJoin(c: bytes, o: nat, key: Key, text: bytes, after: bytes, tail: bytes)
    requires At(c, o, FlattenKey(key)) && At(c, o + |FlattenKey(key)|, text)
    requires At(c, o + |FlattenKey(key)| + |text|, after) && At(c, o + |FlattenKey(key)| + |text| + |after|, tail)
    ensures At(c, o, FlattenKey(key) + Spaced([], text, after, tail))
  {
    hide FlattenKey;
    SpacedJoin(c, o + |FlattenKey(key)|, [], text, after, tail);
    AtJoin(c, o, FlattenKey(key), Spaced([], text, after, tail));
  }
}

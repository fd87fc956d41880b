/** Every valid syntax tree is accepted, and the tree built is the one it denotes. */
module Completeness {
  import opened Bytes
  import opened Json
  import opened NumberSpec
  import opened StringSpec
  import opened ParseSpec
  import opened Syntax

  lemma {:induction false} SkipsBlank(c: bytes, o: nat, blank: bytes)
    requires At(c, o, blank) && Blank(blank)
    requires o + |blank| < |c| && !IsBlank(c[o + |blank|])
    ensures SkipBlanks(c, o) == o + |blank|
  {
    forall i | o <= i < o + |blank| ensures IsBlank(c[i]) {
      assert c[i] == c[o..o + |blank|][i - o];
    }
    BlankEndUnique(c, o, o + |blank|);
  }

  lemma {:induction false} BlankEndUnique(c: bytes, o: nat, r: nat)
    requires o <= r <= |c|
    requires forall i :: o <= i < r ==> IsBlank(c[i])
    requires r < |c| ==> !IsBlank(c[r])
    ensures BlankEnd(c, o) == r
    decreases |c| - o
  {
    if o < r {
      BlankEndUnique(c, o + 1, r);
    }
  }

  /** A value starts with a byte that is neither blank nor closes or separates anything. */
  lemma {:induction false} FlattenHead(s: Syntax)
    requires Valid(s)
    ensures Flatten(s) != []
    ensures var b := Flatten(s)[0]; !IsBlank(b) && b != RBRACKET && b != RBRACE && b != COMMA && b < 0x80
  {
  }

  lemma {:induction false} NotLooking(c: bytes, o: nat, text: bytes)
    requires o < |c| && text != [] && c[o] != text[0]
    ensures !Looking(c, o, text)
  {
    if o + |text| <= |c| {
      assert c[o..o + |text|][0] == c[o];
    }
  }

  lemma {:induction false} NoLiteral(c: bytes, o: nat)
    requires o < |c| && c[o] != LOWER_N && c[o] != LOWER_T && c[o] != LOWER_F
    ensures !Looking(c, o, NULL_TEXT) && !Looking(c, o, TRUE_TEXT) && !Looking(c, o, FALSE_TEXT)
  {
    NotLooking(c, o, NULL_TEXT);
    NotLooking(c, o, TRUE_TEXT);
    NotLooking(c, o, FALSE_TEXT);
  }

  lemma {:induction false} StringAccepted(c: bytes, o: nat, raw: bytes)
    requires ValidString(raw) && At(c, o, Quoted(raw))
    ensures ParseString(c, o) == Ok(CStr(Unescape(raw).out), o + |raw| + 2)
  {
    hide Unescape, CStr, Balanced, At, NulFree, ParseString;
    LiteralRead(c, o, raw);
  }

  /** A literal is closed at its quote and decoded, or the cursor is left where decoding gave up. */
  lemma {:induction false} LiteralRead(c: bytes, o: nat, raw: bytes)
    requires Balanced(raw) && At(c, o, Quoted(raw))
    ensures o < |c| && ParseString(c, o) ==
      match Unescape(raw)
      case Bad(left) => Fail(o + 1 + |raw| - left)
      case Text(out) => Ok(CStr(out), o + |raw| + 2)
  {
    hide Unescape, CStr, Balanced, At, NulFree;
    AtHead(c, o, Quoted(raw));
    assert Quoted(raw)[1..] == raw + [QUOTE];
    BalancedCloses(c, o + 1, raw);
    AtSplit(c, o + 1, raw, [QUOTE]);
  }

  lemma {:induction false} NumberAccepted(c: bytes, o: nat, text: bytes)
    requires ValidNumber(text) && At(c, o, text)
    requires o + |text| < |c| ==> !IsNumberChar(c[o + |text|])
    ensures ParseNumber(c, o) == Ok(Number(Strtod(text).value, Saturate(Strtod(text).value)), o + |text|)
  {
    hide Strtod, Saturate;
    forall k | o <= k < o + |text| ensures IsNumberChar(c[k]) {
      assert c[k] == c[o..o + |text|][k - o];
    }
    RunEndUnique(c, o, o + |text|);
  }

  ghost predicate EndsNumber(c: bytes, o: nat) {
    o < |c| ==> !IsNumberChar(c[o])
  }

  lemma {:induction false} ValueAccepted(c: bytes, o: nat, depth: nat, s: Syntax)
    requires Valid(s) && At(c, o, Flatten(s)) && depth + Depth(s) <= NESTING_LIMIT
    requires s.SNumber? ==> EndsNumber(c, o + |Flatten(s)|)
    ensures ParseValue(c, o, depth) == Ok(Meaning(s), o + |Flatten(s)|)
    decreases s
  {
    hide SkipBlanks, Unescape, Strtod, ParseString, ParseNumber, ParseElements, ParseMembers, Balanced,
      FlattenElems, FlattenMembers, ElemsMeaning, MembersMeaning, ValidElems, ValidMembers, ElemsDepth, MembersDepth;
    FlattenHead(s);
    AtHead(c, o, Flatten(s));
    match s
    case SNull =>
    case SFalse => NotLooking(c, o, NULL_TEXT);
    case STrue => NotLooking(c, o, NULL_TEXT); NotLooking(c, o, FALSE_TEXT);
    case SNumber(text) => NoLiteral(c, o); NumberAccepted(c, o, text);
    case SString(raw) => NoLiteral(c, o); StringAccepted(c, o, raw);
    case SEmptyArray(blank) =>
      NoLiteral(c, o);
      EmptyAccepted(c, o, LBRACKET, blank, RBRACKET);
    case SArray(elems) =>
      NoLiteral(c, o);
      AtSplit(c, o, [LBRACKET], FlattenElems(elems));
      ElementsAccepted(c, o + 1, depth + 1, elems);
    case SEmptyObject(blank) =>
      NoLiteral(c, o);
      EmptyAccepted(c, o, LBRACE, blank, RBRACE);
    case SObject(members) =>
      NoLiteral(c, o);
      AtSplit(c, o, [LBRACE], FlattenMembers(members));
      MembersAccepted(c, o + 1, depth + 1, members);
  }

  lemma {:induction false} EmptyAccepted(c: bytes, o: nat, open: byte, blank: bytes, close: byte)
    requires At(c, o, [open] + (blank + [close])) && Blank(blank) && !IsBlank(close)
    ensures o + 1 + |blank| < |c| && SkipBlanks(c, o + 1) == o + 1 + |blank| && c[o + 1 + |blank|] == close
  {
    AtSplit(c, o, [open], blank + [close]);
    AtSplit(c, o + 1, blank, [close]);
    AtHead(c, o + 1 + |blank|, [close]);
    SkipsBlank(c, o + 1, blank);
  }

  /** What SpacedFound says about the positions of a part, the blanks around it and its delimiter. */
  ghost predicate Found(c: bytes, o: nat, p: nat, text: bytes, q: nat, tail: bytes) {
    && text != [] && tail != []
    && o <= p < |c| && q < |c|
    && SkipBlanks(c, o) == p && At(c, p, text) && EndsNumber(c, p + |text|)
    && p + |text| <= q && SkipBlanks(c, p + |text|) == q && At(c, q, tail)
    && c[p] == text[0] && c[q] == tail[0]
  }

  lemma {:induction false} SpacedFound(c: bytes, o: nat, before: bytes, text: bytes, after: bytes, tail: bytes)
    requires At(c, o, Spaced(before, text, after, tail)) && Blank(before) && Blank(after)
    requires text != [] && !IsBlank(text[0])
    requires tail != [] && !IsBlank(tail[0]) && !IsNumberChar(tail[0])
    ensures Found(c, o, o + |before|, text, o + |before| + |text| + |after|, tail)
  {
    var p := o + |before|;
    AtSplit(c, o, before, text + (after + tail));
    AtSplit(c, p, text, after + tail);
    AtHead(c, p, text);
    SkipsBlank(c, o, before);
    var e := p + |text|;
    AtSplit(c, e, after, tail);
    AtHead(c, e + |after|, tail);
    SkipsBlank(c, e, after);
    if after != [] {
      AtHead(c, e, after);
    }
  }

  lemma {:induction false} OneMoreElement(c: bytes, p: nat, depth: nat, v: Value, end: nat, q: nat)
    requires p <= |c| && depth <= NESTING_LIMIT
    requires ParseValue(c, p, depth) == Ok(v, end)
    requires q == SkipBlanks(c, end) && q < |c| && c[q] == COMMA
    ensures ParseElements(c, p, depth) ==
      match ParseElements(c, SkipBlanks(c, q + 1), depth)
      case Fail(at) => Fail(at)
      case Ok(vs, last) => Ok([v] + vs, last)
  {
    hide ParseValue, SkipBlanks;
  }

  lemma {:induction false} LastElement(c: bytes, p: nat, depth: nat, v: Value, end: nat, q: nat)
    requires p <= |c| && depth <= NESTING_LIMIT
    requires ParseValue(c, p, depth) == Ok(v, end)
    requires q == SkipBlanks(c, end) && q < |c| && c[q] == RBRACKET
    ensures ParseElements(c, p, depth) == Ok([v], q + 1)
  {
    hide ParseValue, SkipBlanks;
  }

  /** Where the first element, the delimiter after it and the remaining elements stand. */
  lemma {:induction false} ElementFound(c: bytes, o: nat, es: Elems)
    requires ValidElems(es) && At(c, o, FlattenElems(es))
    ensures var p := o + |es.before|; var e := p + |Flatten(es.value)|; var d := e + |es.after|;
      && d < |c| && SkipBlanks(c, o) == p && SkipBlanks(c, e) == d && c[p] != RBRACKET
      && At(c, p, Flatten(es.value)) && EndsNumber(c, e)
      && match es
         case LastElem(_, _, _) => c[d] == RBRACKET && d + 1 == o + |FlattenElems(es)|
         case MoreElems(_, _, _, rest) =>
           && c[d] == COMMA && At(c, d + 1, FlattenElems(rest))
           && d + 1 + |FlattenElems(rest)| == o + |FlattenElems(es)|
  {
    hide At, SkipBlanks, Valid, Flatten, Spaced;
    FlattenHead(es.value);
    var text := Flatten(es.value);
    match es
    case LastElem(before, value, after) =>
      SpacedFound(c, o, before, text, after, [RBRACKET]);
    case MoreElems(before, value, after, rest) =>
      SpacedFound(c, o, before, text, after, [COMMA] + FlattenElems(rest));
      AtSplit(c, o + |before| + |text| + |after|, [COMMA], FlattenElems(rest));
  }

  lemma {:induction false} ElementsAccepted(c: bytes, o: nat, depth: nat, es: Elems)
    requires ValidElems(es) && At(c, o, FlattenElems(es)) && depth + ElemsDepth(es) <= NESTING_LIMIT
    ensures var p := SkipBlanks(c, o);
      && p < |c| && c[p] != RBRACKET
      && ParseElements(c, p, depth) == Ok(ElemsMeaning(es), o + |FlattenElems(es)|)
    decreases es
  {
    hide At, SkipBlanks, ParseValue, ParseElements, Valid, Flatten, FlattenElems, Meaning, Depth;
    ElementFound(c, o, es);
    var p := o + |es.before|;
    var e := p + |Flatten(es.value)|;
    var d := e + |es.after|;
    ValueAccepted(c, p, depth, es.value);
    if es.LastElem? {
      LastElement(c, p, depth, Meaning(es.value), e, d);
    } else {
      ElementsAccepted(c, d + 1, depth, es.rest);
      OneMoreElement(c, p, depth, Meaning(es.value), e, d);
    }
  }

  lemma {:induction false} ColonFound(c: bytes, e: nat, mid: bytes, after: bytes, tail: bytes)
    requires Blank(mid) && Blank(after) && tail != [] && !IsBlank(tail[0])
    requires At(c, e, mid + ([COLON] + after)) && At(c, e + |mid + ([COLON] + after)|, tail)
    ensures var d := SkipBlanks(c, e);
      d == e + |mid| < |c| && c[d] == COLON && SkipBlanks(c, d + 1) == d + 1 + |after|
  {
    AtSplit(c, e, mid, [COLON] + after);
    var d := e + |mid|;
    AtSplit(c, d, [COLON], after);
    AtHead(c, d, [COLON]);
    SkipsBlank(c, e, mid);
    AtHead(c, d + 1 + |after|, tail);
    SkipsBlank(c, d + 1, after);
  }

  lemma {:induction false} KeyAccepted(c: bytes, o: nat, k: Key, tail: bytes)
    requires ValidKey(k) && At(c, o, FlattenKey(k) + tail) && tail != [] && !IsBlank(tail[0])
    ensures var p := SkipBlanks(c, o);
      && p < |c| && c[p] == QUOTE
      && ParseKey(c, p) == Ok(KeyMeaning(k), o + |FlattenKey(k)|)
  {
    hide Unescape, CStr, SkipBlanks, ParseString, At, NulFree, Balanced;
    AtSplit(c, o, FlattenKey(k), tail);
    KeyFound(c, o, k);
    var p := o + |k.before|;
    StringAccepted(c, p, k.raw);
    ColonFound(c, p + |k.raw| + 2, k.mid, k.after, tail);
  }

  /** Where the parts of a key stand. */
  lemma {:induction false} KeyFound(c: bytes, o: nat, k: Key)
    requires Blank(k.before) && At(c, o, FlattenKey(k))
    ensures var p := o + |k.before|;
      && SkipBlanks(c, o) == p < |c| && c[p] == QUOTE && At(c, p, Quoted(k.raw))
      && At(c, p + |k.raw| + 2, k.mid + ([COLON] + k.after))
  {
    hide SkipBlanks, At;
    var rest := k.mid + ([COLON] + k.after);
    AtSplit(c, o, k.before, Quoted(k.raw) + rest);
    var p := o + |k.before|;
    AtSplit(c, p, Quoted(k.raw), rest);
    AtHead(c, p, Quoted(k.raw));
    SkipsBlank(c, o, k.before);
  }

  lemma {:induction false} OneMoreMember(c: bytes, p: nat, depth: nat, key: cstring, start: nat, v: Value, end: nat,
                                         q: nat)
    requires p < |c| && depth <= NESTING_LIMIT
    requires ParseKey(c, p) == Ok(key, start) && ParseValue(c, start, depth) == Ok(v, end)
    requires q == SkipBlanks(c, end) && q + 1 < |c| && c[q] == COMMA
    ensures ParseMembers(c, p, depth) ==
      match ParseMembers(c, SkipBlanks(c, q + 1), depth)
      case Fail(at) => Fail(at)
      case Ok(ms, last) => Ok([Member(key, v)] + ms, last)
  {
    hide ParseValue, ParseKey, SkipBlanks;
  }

  lemma {:induction false} LastMemberRead(c: bytes, p: nat, depth: nat, key: cstring, start: nat, v: Value, end: nat,
                                          q: nat)
    requires p < |c| && depth <= NESTING_LIMIT
    requires ParseKey(c, p) == Ok(key, start) && ParseValue(c, start, depth) == Ok(v, end)
    requires q == SkipBlanks(c, end) && q < |c| && c[q] == RBRACE
    ensures ParseMembers(c, p, depth) == Ok([Member(key, v)], q + 1)
  {
  }

  /** Where the first key and value, the delimiter after them and the remaining members stand. */
  lemma {:induction false} MemberFound(c: bytes, o: nat, ms: Members)
    requires ValidMembers(ms) && At(c, o, FlattenMembers(ms))
    ensures var p := SkipBlanks(c, o); var start := o + |FlattenKey(ms.key)|;
      var e := start + |Flatten(ms.value)|; var d := e + |ms.after|;
      && p < |c| && c[p] != RBRACE && ParseKey(c, p) == Ok(KeyMeaning(ms.key), start)
      && d < |c| && SkipBlanks(c, e) == d
      && At(c, start, Flatten(ms.value)) && EndsNumber(c, e)
      && match ms
         case LastMember(_, _, _) => c[d] == RBRACE && d + 1 == o + |FlattenMembers(ms)|
         case MoreMembers(_, _, _, rest) =>
           && d + 1 < |c| && c[d] == COMMA && At(c, d + 1, FlattenMembers(rest))
           && d + 1 + |FlattenMembers(rest)| == o + |FlattenMembers(ms)|
  {
    hide At, Spaced, SkipBlanks, ParseKey, Valid, ValidKey, Flatten, FlattenKey, KeyMeaning;
    FlattenHead(ms.value);
    var text := Flatten(ms.value);
    match ms
    case LastMember(key, value, after) =>
      KeyThenSpaced(c, o, key, text, after, [RBRACE]);
    case MoreMembers(key, value, after, rest) =>
      var more := FlattenMembers(rest);
      FlattenMembersLength(rest);
      KeyThenSpaced(c, o, key, text, after, [COMMA] + more);
      AtSplit(c, o + |FlattenKey(key)| + |text| + |after|, [COMMA], more);
  }

  lemma {:induction false} FlattenMembersLength(ms: Members)
    ensures |FlattenMembers(ms)| > |FlattenKey(ms.key)| + |Flatten(ms.value)|
  {
  }

  lemma {:induction false} KeyThenSpaced(c: bytes, o: nat, k: Key, text: bytes, after: bytes, tail: bytes)
    requires ValidKey(k) && Blank(after) && text != [] && !IsBlank(text[0])
    requires tail != [] && !IsBlank(tail[0]) && !IsNumberChar(tail[0])
    requires At(c, o, FlattenKey(k) + Spaced([], text, after, tail))
    ensures var p := SkipBlanks(c, o); var start := o + |FlattenKey(k)|;
      && p < |c| && c[p] == QUOTE && ParseKey(c, p) == Ok(KeyMeaning(k), start)
      && Found(c, start, start, text, start + |text| + |after|, tail)
  {
    hide SkipBlanks, ParseKey, ValidKey, FlattenKey, KeyMeaning;
    var spaced := Spaced([], text, after, tail);
    assert spaced[0] == text[0];
    KeyAccepted(c, o, k, spaced);
    AtSplit(c, o, FlattenKey(k), spaced);
    SpacedFound(c, o + |FlattenKey(k)|, [], text, after, tail);
  }

  lemma {:induction false} MembersAccepted(c: bytes, o: nat, depth: nat, ms: Members)
    requires ValidMembers(ms) && At(c, o, FlattenMembers(ms)) && depth + MembersDepth(ms) <= NESTING_LIMIT
    ensures var p := SkipBlanks(c, o);
      && p < |c| && c[p] != RBRACE
      && ParseMembers(c, p, depth) == Ok(MembersMeaning(ms), o + |FlattenMembers(ms)|)
    decreases ms
  {
    hide At, SkipBlanks, ParseKey, ParseValue, ParseMembers, Valid, ValidKey, Flatten, FlattenKey, FlattenMembers;
    hide Meaning;
    hide KeyMeaning, Depth;
    MemberFound(c, o, ms);
    var p := SkipBlanks(c, o);
    var start := o + |FlattenKey(ms.key)|;
    var e := start + |Flatten(ms.value)|;
    var d := e + |ms.after|;
    ValueAccepted(c, start, depth, ms.value);
    if ms.LastMember? {
      LastMemberRead(c, p, depth, KeyMeaning(ms.key), start, Meaning(ms.value), e, d);
    } else {
      MembersAccepted(c, d + 1, depth, ms.rest);
      OneMoreMember(c, p, depth, KeyMeaning(ms.key), start, Meaning(ms.value), e, d);
    }
  }
}

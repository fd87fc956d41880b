/** Where a failed parse leaves the error position: everything before it can be completed to an accepted text. */
module ErrorPositions {
  import opened Bytes
  import opened Json
  import opened NumberSpec
  import opened StringSpec
  import opened ParseSpec
  import opened Syntax
  import opened Soundness
  import opened Documents

  /** `good` is where the part that can be completed ends. It is the failing position, except that a key that does not
      start with a quote is reported one byte late. */
  ghost predicate EndsAt(c: bytes, at: nat, good: nat) {
    good <= |c| && (good == at || (good + 1 == at && good < |c| && c[good] != QUOTE))
  }

  /** In a terminated buffer that is before the terminator. */
  ghost predicate Inside(c: bytes, o: nat, good: nat) {
    o < |c| && c[|c| - 1] == 0 ==> good < |c|
  }

  lemma FourSlices(c: bytes, o: nat, p: nat, e: nat, q: nat, g: nat, tail: bytes)
    requires o <= p <= e <= q <= g <= |c|
    ensures c[o..p] + (c[p..e] + (c[e..q] + (c[q..g] + tail))) == c[o..g] + tail
  {
  }

  lemma AtIs(c: bytes, o: nat, part: bytes)
    requires At(c, o, part)
    ensures o + |part| <= |c| && part == c[o..o + |part|]
  {
  }

  /** Three parts that stand in the buffer, what follows up to `g`, and a tail. */
  lemma PartsThen(c: bytes, o: nat, x: bytes, y: bytes, z: bytes, g: nat, tail: bytes)
    requires At(c, o, x) && At(c, o + |x|, y) && At(c, o + |x| + |y|, z)
    requires o + |x| + |y| + |z| <= g <= |c|
    ensures x + (y + (z + (c[o + |x| + |y| + |z|..g] + tail))) == c[o..g] + tail
  {
    AtIs(c, o, x);
    AtIs(c, o + |x|, y);
    AtIs(c, o + |x| + |y|, z);
    FourSlices(c, o, o + |x|, o + |x| + |y|, o + |x| + |y| + |z|, g, tail);
  }

  lemma NothingBetween(c: bytes, q: nat, tail: bytes)
    requires q <= |c|
    ensures c[q..q] + tail == tail
  {
  }

  lemma CommaThen(c: bytes, q: nat, g: nat, tail: bytes)
    requires q < g <= |c| && c[q] == COMMA
    ensures [COMMA] + (c[q + 1..g] + tail) == c[q..g] + tail
  {
  }

  // ----- strings

  /** A decoding step looks at the bytes it consumes and at no others. */
  lemma {:induction false} StepLocal(s: bytes, t: bytes)
    requires s != [] && t != [] && DecodeStep(s).Step?
    requires DecodeStep(s).len <= |s| && DecodeStep(s).len <= |t| && t[..DecodeStep(s).len] == s[..DecodeStep(s).len]
    ensures DecodeStep(t) == DecodeStep(s)
  {
    hide Utf8, Hex4;
    var n := DecodeStep(s).len;
    assert forall i :: 0 <= i < n ==> s[i] == s[..n][i] == t[..n][i] == t[i];
    if s[0] == BACKSLASH && n >= 6 {
      HexLocal(s[2..], t[2..]);
      if n == 12 {
        HexLocal(s[8..], t[8..]);
      }
    }
  }

  lemma HexLocal(s: bytes, t: bytes)
    requires |s| >= 4 && |t| >= 4 && s[0] == t[0] && s[1] == t[1] && s[2] == t[2] && s[3] == t[3]
    ensures Hex4(s) == Hex4(t)
  {
  }

  /** The part of a literal before the byte at which decoding gives up can be decoded with any end that can. */
  lemma {:induction false} DecodedPart(s: bytes, fill: bytes)
    requires Unescape(s).Bad? && Unescape(fill).Text?
    ensures Unescape(s[..|s| - Unescape(s).left] + fill).Text?
    decreases |s|
  {
    hide DecodeStep;
    var k := |s| - Unescape(s).left;
    var t := s[..k] + fill;
    match DecodeStep(s)
    case Stuck =>
      assert t == fill;
    case Step(out, len) =>
      var rest := Drop(s, len);
      BadLeft(rest);
      assert len < |s| && rest == s[len..];
      DecodedPart(rest, fill);
      assert t[..len] == s[..len];
      StepLocal(s, t);
      assert Drop(t, len) == rest[..|rest| - Unescape(rest).left] + fill;
  }

  lemma BadLeft(s: bytes)
    requires Unescape(s).Bad?
    ensures s != [] && 0 < Unescape(s).left
  {
    hide DecodeStep;
    if DecodeStep(s).Step? {
      BadLeft(Drop(s, DecodeStep(s).len));
    }
  }

  /** A part of a balanced literal is balanced, or needs one more byte. */
  lemma {:induction false} BalancedPart(raw: bytes, k: nat)
    requires Balanced(raw) && k <= |raw|
    ensures Balanced(raw[..k]) || Balanced(raw[..k] + [LOWER_N])
  {
    var part := raw[..k];
    if k > 0 {
      if raw[0] == BACKSLASH {
        if k == 1 {
          assert (part + [LOWER_N])[2..] == [];
        } else {
          BalancedPart(raw[2..], k - 2);
          assert part[2..] == raw[2..][..k - 2];
          assert (part + [LOWER_N])[2..] == raw[2..][..k - 2] + [LOWER_N];
        }
      } else {
        BalancedPart(raw[1..], k - 1);
        assert part[1..] == raw[1..][..k - 1];
        assert (part + [LOWER_N])[1..] == raw[1..][..k - 1] + [LOWER_N];
      }
    }
  }

  lemma Fillers()
    ensures Unescape([]).Text? && Unescape([LOWER_N]).Text?
  {
    assert Drop([LOWER_N], 1) == [];
  }

  lemma {:induction false} LiteralPart(raw: bytes) returns (part: bytes, fill: bytes)
    requires Balanced(raw) && Unescape(raw).Bad?
    ensures part == raw[..|raw| - Unescape(raw).left] + fill && ValidString(part) && NulFree(fill)
  {
    hide Balanced, Unescape;
    var k := |raw| - Unescape(raw).left;
    BalancedPart(raw, k);
    Fillers();
    fill := if Balanced(raw[..k]) then [] else [LOWER_N];
    part := raw[..k] + fill;
    DecodedPart(raw, fill);
    assert fill == [] ==> part == raw[..k];
  }

  lemma {:induction false} StringCompleted(c: bytes, o: nat) returns (raw: bytes, good: nat, tail: bytes)
    requires o < |c| && ParseString(c, o).Fail?
    ensures EndsAt(c, ParseString(c, o).offset, good) && Inside(c, o, good) && o <= good
    ensures ValidString(raw) && NulFree(tail)
    ensures if c[o] == QUOTE then Quoted(raw) == c[o..good] + tail else good == o && raw == []
  {
    hide Close, Balanced, Unescape;
    EmptyLiteral();
    raw, good, tail := [], o, [];
    if c[o] == QUOTE {
      var e := Close(c, o + 1);
      if e == -1 {
        good, tail := o + 1, [QUOTE];
      } else {
        CloseIsBalanced(c, o + 1);
        var whole := c[o + 1..e];
        var fill;
        raw, fill := LiteralPart(whole);
        good, tail := e - Unescape(whole).left, fill + [QUOTE];
        assert c[o..good] == [QUOTE] + whole[..good - o - 1];
      }
    }
  }

  lemma EmptyLiteral()
    ensures ValidString([])
  {
  }

  // ----- values

  lemma NullCompletes(c: bytes, o: nat)
    requires o <= |c|
    ensures Flatten(SNull) == c[o..o] + NULL_TEXT && NulFree(NULL_TEXT) && Valid(SNull) && Depth(SNull) == 0
  {
  }

  /** A value never ends with a NUL, so in a terminated buffer it ends before the terminator. */
  lemma {:induction false} ValueInside(c: bytes, o: nat, depth: nat)
    requires o < |c| && c[|c| - 1] == 0 && depth <= NESTING_LIMIT && ParseValue(c, o, depth).Ok?
    ensures ParseValue(c, o, depth).offset < |c|
  {
    hide ParseValue, Flatten, Valid, Meaning, Depth;
    var s := ValueRecovered(c, o, depth);
    AtIs(c, o, Flatten(s));
    LastByte(s);
    var text := Flatten(s);
    assert text[|text| - 1] == c[o + |text| - 1];
  }

  lemma {:induction false} LastByte(s: Syntax)
    requires Valid(s)
    ensures Flatten(s) != [] && Flatten(s)[|Flatten(s)| - 1] != 0
  {
    hide FlattenElems, FlattenMembers, ValidElems, ValidMembers, ValidString, Strtod;
    match s
    case SArray(elems) => LastOfElems(elems);
    case SObject(members) => LastOfMembers(members);
    case _ =>
  }

  lemma {:induction false} LastOfElems(es: Elems)
    ensures FlattenElems(es) != [] && FlattenElems(es)[|FlattenElems(es)| - 1] == RBRACKET
    decreases es
  {
    hide Flatten;
    if es.MoreElems? {
      LastOfElems(es.rest);
    }
  }

  lemma {:induction false} LastOfMembers(ms: Members)
    ensures FlattenMembers(ms) != [] && FlattenMembers(ms)[|FlattenMembers(ms)| - 1] == RBRACE
    decreases ms
  {
    hide Flatten, FlattenKey;
    if ms.MoreMembers? {
      LastOfMembers(ms.rest);
    }
  }

  lemma {:induction false} ValueCompleted(c: bytes, o: nat, depth: nat) returns (s: Syntax, good: nat, tail: bytes)
    requires o <= |c| && depth <= NESTING_LIMIT && ParseValue(c, o, depth).Fail?
    ensures EndsAt(c, ParseValue(c, o, depth).offset, good) && Inside(c, o, good) && o <= good
    ensures Valid(s) && depth + Depth(s) <= NESTING_LIMIT && Flatten(s) == c[o..good] + tail && NulFree(tail)
    decreases |c| - o, 3
  {
    hide SkipBlanks, Unescape, Strtod, ParseString, ParseArray, ParseObject, Balanced;
    NullCompletes(c, o);
    s, good, tail := SNull, o, NULL_TEXT;
    if o < |c| && c[o] == QUOTE {
      var raw;
      raw, good, tail := StringCompleted(c, o);
      s := SString(raw);
    } else if o < |c| && c[o] == LBRACKET {
      s, good, tail := ArrayCompleted(c, o, depth);
    } else if o < |c| && c[o] == LBRACE {
      s, good, tail := ObjectCompleted(c, o, depth);
    }
  }

  lemma {:induction false} ArrayCompleted(c: bytes, o: nat, depth: nat) returns (s: Syntax, good: nat, tail: bytes)
    requires o < |c| && c[o] == LBRACKET && depth <= NESTING_LIMIT && ParseArray(c, o, depth).Fail?
    ensures EndsAt(c, ParseArray(c, o, depth).offset, good) && Inside(c, o, good) && o <= good
    ensures Valid(s) && depth + Depth(s) <= NESTING_LIMIT && Flatten(s) == c[o..good] + tail && NulFree(tail)
    decreases |c| - o, 2
  {
    hide SkipBlanks, ParseElements, FlattenElems, ElemsDepth, ValidElems;
    NullCompletes(c, o);
    s, good, tail := SNull, o, NULL_TEXT;
    if depth < NESTING_LIMIT && o + 1 < |c| {
      var elems;
      elems, good, tail := ElementsCompleted(c, o + 1, depth + 1);
      s := SArray(elems);
      assert c[o..good] == [LBRACKET] + c[o + 1..good];
    }
  }

  lemma {:induction false} ElementsCompleted(c: bytes, o: nat, depth: nat) returns (es: Elems, good: nat, tail: bytes)
    requires o <= |c| && depth <= NESTING_LIMIT && ParseElements(c, SkipBlanks(c, o), depth).Fail?
    ensures EndsAt(c, ParseElements(c, SkipBlanks(c, o), depth).offset, good) && Inside(c, o, good) && o <= good
    ensures ValidElems(es) && depth + ElemsDepth(es) <= NESTING_LIMIT
    ensures FlattenElems(es) == c[o..good] + tail && NulFree(tail)
    decreases |c| - o, 4
  {
    hide SkipBlanks, ParseValue, Flatten, Valid, Depth, Meaning;
    var p := SkipBlanks(c, o);
    if ParseValue(c, p, depth).Ok? {
      es, good, tail := ElementsAfterValue(c, o, depth);
    } else {
      var before := SkippedBlanks(c, o);
      AtIs(c, o, before);
      var s, t;
      s, good, t := ValueCompleted(c, p, depth);
      es, tail := LastElem(before, s, []), t + [RBRACKET];
      FourSlices(c, o, p, p, p, good, tail);
      assert (c[p..good] + t) + ([] + [RBRACKET]) == c[p..p] + (c[p..p] + (c[p..good] + tail));
    }
  }

  /** Where it goes wrong behind an element. */
  lemma {:induction false} ElementsFail(c: bytes, p: nat, depth: nat)
    requires p <= |c| && depth <= NESTING_LIMIT && ParseElements(c, p, depth).Fail? && ParseValue(c, p, depth).Ok?
    ensures var q := SkipBlanks(c, ParseValue(c, p, depth).offset);
      if q < |c| && c[q] == COMMA then
        && ParseElements(c, SkipBlanks(c, q + 1), depth).Fail?
        && ParseElements(c, p, depth).offset == ParseElements(c, SkipBlanks(c, q + 1), depth).offset
      else ParseElements(c, p, depth).offset == q
  {
    hide SkipBlanks, ParseValue;
  }

  lemma {:induction false} ElementsAfterValue(c: bytes, o: nat, depth: nat) returns (es: Elems, good: nat, tail: bytes)
    requires o <= |c| && depth <= NESTING_LIMIT && ParseElements(c, SkipBlanks(c, o), depth).Fail?
    requires ParseValue(c, SkipBlanks(c, o), depth).Ok?
    ensures EndsAt(c, ParseElements(c, SkipBlanks(c, o), depth).offset, good) && Inside(c, o, good) && o <= good
    ensures ValidElems(es) && depth + ElemsDepth(es) <= NESTING_LIMIT
    ensures FlattenElems(es) == c[o..good] + tail && NulFree(tail)
    decreases |c| - o, 3
  {
    hide SkipBlanks, ParseValue, Flatten, Valid, Depth, Meaning, ParseElements;
    ElementsFail(c, SkipBlanks(c, o), depth);
    var before := SkippedBlanks(c, o);
    var p := SkipBlanks(c, o);
    var e := ParseValue(c, p, depth).offset;
    if p < |c| && c[|c| - 1] == 0 {
      ValueInside(c, p, depth);
    }
    var s := ValueRecovered(c, p, depth);
    var after := SkippedBlanks(c, e);
    var q := SkipBlanks(c, e);
    AtIs(c, o, before);
    AtIs(c, p, Flatten(s));
    AtIs(c, e, after);
    if q < |c| && c[q] == COMMA {
      var more;
      more, good, tail := ElementsCompleted(c, q + 1, depth);
      es := MoreElems(before, s, after, more);
      FourSlices(c, o, p, e, q, good, tail);
      assert [COMMA] + (c[q + 1..good] + tail) == c[q..good] + tail;
    } else {
      es, good, tail := LastElem(before, s, after), q, [RBRACKET];
      FourSlices(c, o, p, e, q, q, tail);
      assert c[q..q] + tail == tail;
    }
  }

  // ----- objects

  lemma {:induction false} ObjectCompleted(c: bytes, o: nat, depth: nat) returns (s: Syntax, good: nat, tail: bytes)
    requires o < |c| && c[o] == LBRACE && depth <= NESTING_LIMIT && ParseObject(c, o, depth).Fail?
    ensures EndsAt(c, ParseObject(c, o, depth).offset, good) && Inside(c, o, good) && o <= good
    ensures Valid(s) && depth + Depth(s) <= NESTING_LIMIT && Flatten(s) == c[o..good] + tail && NulFree(tail)
    decreases |c| - o, 2
  {
    hide SkipBlanks, ParseMembers, FlattenMembers, MembersDepth, ValidMembers;
    NullCompletes(c, o);
    s, good, tail := SNull, o, NULL_TEXT;
    if depth < NESTING_LIMIT && o + 1 < |c| {
      var members;
      members, good, tail := MembersCompleted(c, o + 1, depth + 1);
      s := SObject(members);
      assert c[o..good] == [LBRACE] + c[o + 1..good];
    }
  }

  const NULL_MEMBER: bytes := [COLON] + NULL_TEXT + [RBRACE]

  lemma OnlyNull(k: Key)
    requires k.after == []
    ensures FlattenMembers(LastMember(k, SNull, [])) == k.before + (Quoted(k.raw) + (k.mid + NULL_MEMBER))
    ensures NulFree(NULL_MEMBER) && MembersDepth(LastMember(k, SNull, [])) == 0
    ensures ValidKey(k) ==> ValidMembers(LastMember(k, SNull, []))
  {
    hide Quoted, ValidKey;
    var a, b, m := k.before, Quoted(k.raw), k.mid;
    assert (a + (b + (m + ([COLON] + [])))) + ([] + (NULL_TEXT + ([] + [RBRACE]))) == a + (b + (m + NULL_MEMBER));
  }

  /** The member is completed from somewhere in its key. */
  lemma {:induction false} KeyCompleted(c: bytes, o: nat) returns (ms: Members, good: nat, tail: bytes)
    requires o <= |c| && SkipBlanks(c, o) < |c| && ParseKey(c, SkipBlanks(c, o)).Fail?
    ensures EndsAt(c, ParseKey(c, SkipBlanks(c, o)).offset, good) && Inside(c, o, good) && o <= good
    ensures ValidMembers(ms) && MembersDepth(ms) == 0 && FlattenMembers(ms) == c[o..good] + tail && NulFree(tail)
  {
    hide SkipBlanks, ParseString, ValidString, Unescape, FlattenMembers, ValidMembers, MembersDepth, Quoted;
    var p := SkipBlanks(c, o);
    match ParseString(c, p)
    case Fail(_) =>
      ms, good, tail := KeyNameCompleted(c, o);
    case Ok(_, e) =>
      var before := SkippedBlanks(c, o);
      AtIs(c, o, before);
      var raw := StringRecovered(c, p);
      var mid := SkippedBlanks(c, e);
      var q := SkipBlanks(c, e);
      AtIs(c, p, Quoted(raw));
      AtIs(c, e, mid);
      QuoteLast(c, p, raw);
      var k := Key(before, raw, mid, []);
      ms, good, tail := LastMember(k, SNull, []), q, NULL_MEMBER;
      OnlyNull(k);
      FourSlices(c, o, p, e, q, q, tail);
      assert c[q..q] + tail == tail;
  }

  lemma {:induction false} KeyNameCompleted(c: bytes, o: nat) returns (ms: Members, good: nat, tail: bytes)
    requires o <= |c| && SkipBlanks(c, o) < |c| && ParseString(c, SkipBlanks(c, o)).Fail?
    ensures EndsAt(c, ParseString(c, SkipBlanks(c, o)).offset, good) && Inside(c, o, good) && o <= good
    ensures ValidMembers(ms) && MembersDepth(ms) == 0 && FlattenMembers(ms) == c[o..good] + tail && NulFree(tail)
  {
    hide SkipBlanks, ParseString, ValidString, Unescape, FlattenMembers, ValidMembers, MembersDepth, Quoted;
    var before := SkippedBlanks(c, o);
    var p := SkipBlanks(c, o);
    AtIs(c, o, before);
    var raw, t;
    raw, good, t := StringCompleted(c, p);
    var k := Key(before, raw, [], []);
    ms := LastMember(k, SNull, []);
    OnlyNull(k);
    if c[p] == QUOTE {
      tail := t + NULL_MEMBER;
      QuotedThen(c, o, p, good, t);
    } else {
      tail := Quoted(raw) + NULL_MEMBER;
      EmptyQuoted(raw);
      assert Quoted(raw) + ([] + NULL_MEMBER) == tail;
    }
  }

  lemma QuotedThen(c: bytes, o: nat, p: nat, g: nat, t: bytes)
    requires o <= p <= g <= |c|
    ensures c[o..p] + ((c[p..g] + t) + ([] + NULL_MEMBER)) == c[o..g] + (t + NULL_MEMBER)
  {
    assert (c[p..g] + t) + ([] + NULL_MEMBER) == c[p..g] + (t + NULL_MEMBER);
    NothingBetween(c, p, c[p..g] + (t + NULL_MEMBER));
    FourSlices(c, o, p, p, p, g, t + NULL_MEMBER);
  }

  lemma EmptyQuoted(raw: bytes)
    requires raw == []
    ensures NulFree(Quoted(raw))
  {
  }

  lemma QuoteLast(c: bytes, p: nat, raw: bytes)
    requires At(c, p, Quoted(raw)) && p < |c|
    ensures c[|c| - 1] == 0 ==> p + |Quoted(raw)| < |c|
  {
    AtIs(c, p, Quoted(raw));
    assert Quoted(raw)[|raw| + 1] == c[p + |raw| + 1];
  }

  lemma {:induction false} KeyInside(c: bytes, o: nat)
    requires o <= |c| && SkipBlanks(c, o) < |c| && ParseKey(c, SkipBlanks(c, o)).Ok?
    ensures c[|c| - 1] == 0 ==> ParseKey(c, SkipBlanks(c, o)).offset < |c|
  {
    hide ParseString;
  }

  lemma {:induction false} MembersCompleted(c: bytes, o: nat, depth: nat) returns (ms: Members, good: nat, tail: bytes)
    requires o <= |c| && depth <= NESTING_LIMIT
    requires SkipBlanks(c, o) < |c| && ParseMembers(c, SkipBlanks(c, o), depth).Fail?
    ensures EndsAt(c, ParseMembers(c, SkipBlanks(c, o), depth).offset, good) && Inside(c, o, good) && o <= good
    ensures ValidMembers(ms) && depth + MembersDepth(ms) <= NESTING_LIMIT
    ensures FlattenMembers(ms) == c[o..good] + tail && NulFree(tail)
    decreases |c| - o, 4
  {
    hide SkipBlanks, ParseKey, ParseValue, Flatten, FlattenKey, Valid, ValidKey, Depth, Meaning, KeyMeaning;
    var p := SkipBlanks(c, o);
    match ParseKey(c, p)
    case Fail(_) =>
      ms, good, tail := KeyCompleted(c, o);
    case Ok(_, start) =>
      var key := KeyRecovered(c, o);
      KeyInside(c, o);
      AtIs(c, o, FlattenKey(key));
      match ParseValue(c, start, depth) {
        case Fail(_) =>
          var s, t;
          s, good, t := ValueCompleted(c, start, depth);
          ms, tail := LastMember(key, s, []), t + [RBRACE];
          assert FlattenKey(key) + ([] + ((c[start..good] + t) + ([] + [RBRACE]))) == c[o..good] + tail by {
            FourSlices(c, o, start, start, start, good, tail);
          }
        case Ok(_, e) =>
          ms, good, tail := MembersAfterValue(c, o, depth, key);
      }
  }

  /** Where it goes wrong behind the value of a member. */
  lemma {:induction false} MembersFail(c: bytes, p: nat, depth: nat)
    requires p < |c| && depth <= NESTING_LIMIT && ParseMembers(c, p, depth).Fail?
    requires ParseKey(c, p).Ok? && ParseValue(c, ParseKey(c, p).offset, depth).Ok?
    ensures var q := SkipBlanks(c, ParseValue(c, ParseKey(c, p).offset, depth).offset);
      if q + 1 < |c| && c[q] == COMMA then
        && SkipBlanks(c, q + 1) < |c| && ParseMembers(c, SkipBlanks(c, q + 1), depth).Fail?
        && ParseMembers(c, p, depth).offset == ParseMembers(c, SkipBlanks(c, q + 1), depth).offset
      else ParseMembers(c, p, depth).offset == q
  {
    hide SkipBlanks, ParseValue, ParseKey;
  }

  lemma {:induction false} MembersAfterValue(c: bytes, o: nat, depth: nat, key: Key)
    returns (ms: Members, good: nat, tail: bytes)
    requires o <= |c| && depth <= NESTING_LIMIT
    requires SkipBlanks(c, o) < |c| && ParseMembers(c, SkipBlanks(c, o), depth).Fail?
    requires var k := ParseKey(c, SkipBlanks(c, o));
      k.Ok? && ParseValue(c, k.offset, depth).Ok? && k.offset == o + |FlattenKey(key)|
    requires ValidKey(key) && At(c, o, FlattenKey(key)) && (c[|c| - 1] == 0 ==> o + |FlattenKey(key)| < |c|)
    ensures EndsAt(c, ParseMembers(c, SkipBlanks(c, o), depth).offset, good) && Inside(c, o, good) && o <= good
    ensures ValidMembers(ms) && depth + MembersDepth(ms) <= NESTING_LIMIT
    ensures FlattenMembers(ms) == c[o..good] + tail && NulFree(tail)
    decreases |c| - o, 3
  {
    hide SkipBlanks, ParseKey, ParseValue, Flatten, FlattenKey, Valid, ValidKey, Depth, Meaning, KeyMeaning;
    hide ParseMembers, FlattenMembers, At;
    MembersFail(c, SkipBlanks(c, o), depth);
    var start := o + |FlattenKey(key)|;
    var e := ParseValue(c, start, depth).offset;
    if start < |c| && c[|c| - 1] == 0 {
      ValueInside(c, start, depth);
    }
    var s := ValueRecovered(c, start, depth);
    var after := SkippedBlanks(c, e);
    var q := SkipBlanks(c, e);
    if q + 1 < |c| && c[q] == COMMA {
      var more;
      more, good, tail := MembersCompleted(c, q + 1, depth);
      ms := MoreMembers(key, s, after, more);
      PartsThen(c, o, FlattenKey(key), Flatten(s), after, good, tail);
      CommaThen(c, q, good, tail);
      MemberThen(key, s, after, more, c[q..good] + tail);
    } else {
      ms, good, tail := LastMember(key, s, after), q, [RBRACE];
      PartsThen(c, o, FlattenKey(key), Flatten(s), after, q, tail);
      NothingBetween(c, q, tail);
      MemberLast(key, s, after);
    }
  }

  lemma MemberLast(key: Key, value: Syntax, after: bytes)
    ensures FlattenMembers(LastMember(key, value, after)) == FlattenKey(key) + (Flatten(value) + (after + [RBRACE]))
  {
    hide FlattenKey, Flatten;
    assert [] + (Flatten(value) + (after + [RBRACE])) == Flatten(value) + (after + [RBRACE]);
  }

  lemma MemberThen(key: Key, value: Syntax, after: bytes, more: Members, rest: bytes)
    requires [COMMA] + FlattenMembers(more) == rest
    ensures FlattenMembers(MoreMembers(key, value, after, more)) == FlattenKey(key) + (Flatten(value) + (after + rest))
  {
    hide FlattenKey, Flatten;
    assert [] + (Flatten(value) + (after + rest)) == Flatten(value) + (after + rest);
  }

  // ----- documents

  lemma {:induction false} StartParts(c: bytes) returns (bom: bool, before: bytes)
    requires c != []
    ensures Blank(before) && c[..Start(c)] == (if bom then BOM else []) + before
  {
    hide SkipBlanks;
    bom := |c| > 4 && c[..3] == BOM;
    var n := if bom then 3 else 0;
    before := SkippedBlanks(c, n);
    AtIs(c, n, before);
    assert c[..Start(c)] == c[..n] + c[n..Start(c)];
  }

  lemma {:induction false} CompletedAccepted(text: cstring, bom: bool, before: bytes, s: Syntax, after: bytes)
    requires Blank(before) && Valid(s) && Blank(after) && Depth(s) <= NESTING_LIMIT
    requires (if bom then BOM else []) + (before + (Flatten(s) + after)) == text
    ensures ParseText(text, true).Ok?
  {
    hide Flatten, Valid, Meaning, Depth, ParseText;
    DocumentAccepted(text, Document(bom, before, s, after));
  }

  /** If parsing fails at a position, the text up to it can be completed to a text that is accepted; but where a key
      should start with a quote and does not, the position is one byte further on. */
  lemma {:induction false} BeforeErrorCompletes(text: cstring) returns (good: nat, tail: cstring)
    requires ParseText(text, true).Fail?
    ensures var at := ParseText(text, true).offset;
      && good <= |text|
      && (good == at || (good + 1 == at && good < |text| && text[good] != 0x22))
      && ParseText(text[..good] + tail, true).Ok?
  {
    hide ParseValue, Flatten, Valid, Meaning, Depth, SkipBlanks, Start;
    var c := text + [0];
    var p := Start(c);
    var bom, before := StartParts(c);
    var lead := if bom then BOM else [];
    if ParseValue(c, p, 0).Ok? {
      good := BehindValue(text, bom, before);
      tail := [];
      assert text[..good] + [] == text[..good];
    } else {
      var s;
      s, good, tail := ValueCompleted(c, p, 0);
      assert c[..p] + (c[p..good] + tail) == text[..good] + tail;
      assert lead + (before + (Flatten(s) + [])) == text[..good] + tail;
      CompletedAccepted(text[..good] + tail, bom, before, s, []);
    }
  }

  /** What stands before the first byte behind a value is a document. */
  lemma {:induction false} BehindValue(text: cstring, bom: bool, before: bytes) returns (good: nat)
    requires var c := text + [0]; var p := Start(c);
      && Blank(before) && c[..p] == (if bom then BOM else []) + before && ParseValue(c, p, 0).Ok?
    ensures var c := text + [0];
      good <= |text| && good == SkipBlanks(c, ParseValue(c, Start(c), 0).offset) && ParseText(text[..good], true).Ok?
  {
    hide ParseValue, Flatten, Valid, Meaning, Depth, SkipBlanks, Start, ParseText;
    var c := text + [0];
    var p := Start(c);
    ValueInside(c, p, 0);
    var s := ValueRecovered(c, p, 0);
    var e := ParseValue(c, p, 0).offset;
    var after := SkippedBlanks(c, e);
    good := SkipBlanks(c, e);
    AtIs(c, p, Flatten(s));
    AtIs(c, e, after);
    ThreeSlices(c, p, e, good);
    var lead := if bom then BOM else [];
    assert lead + (before + (Flatten(s) + after)) == (lead + before) + (Flatten(s) + after);
    assert c[..good] == text[..good];
    CompletedAccepted(text[..good], bom, before, s, after);
  }

  lemma ThreeSlices(c: bytes, p: nat, e: nat, g: nat)
    requires p <= e <= g <= |c|
    ensures c[..p] + (c[p..e] + c[e..g]) == c[..g]
  {
  }

  // ----- the late position

  /** `{x}` */
  const UNQUOTED: bytes := [0x7B, 0x78, 0x7D]

  /** The byte at which this text goes wrong is the second, and the position reported is that of the third. */
  lemma {:induction false} UnquotedKeyLate()
    ensures ParseText(UNQUOTED, true) == Fail(2)
  {
    var c: bytes := UNQUOTED + [0];
    assert c == [0x7B, 0x78, 0x7D, 0];
    assert BlankEnd(c, 0) == 0 && BlankEnd(c, 1) == 1;
    assert Start(c) == 0;
    assert ParseKey(c, 1) == Fail(2);
    assert ParseMembers(c, 1, 1) == Fail(2);
    assert ParseObject(c, 0, 0) == Fail(2);
    NotLiteral(c);
    assert ParseValue(c, 0, 0) == Fail(2);
  }

  lemma NotLiteral(c: bytes)
    requires c != [] && c[0] == LBRACE
    ensures !Looking(c, 0, NULL_TEXT) && !Looking(c, 0, FALSE_TEXT) && !Looking(c, 0, TRUE_TEXT)
  {
    if |c| >= 4 {
      assert c[0..4][0] == LBRACE;
    }
    if |c| >= 5 {
      assert c[0..5][0] == LBRACE;
    }
  }
}

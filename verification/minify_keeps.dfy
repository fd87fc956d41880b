/** Minifying an accepted text does not change the tree it denotes, unless a literal ends in an escaped backslash. */
module MinifyKeeps {
  import opened Bytes
  import opened Json
  import opened NumberSpec
  import opened StringSpec
  import opened ParseSpec
  import opened Syntax
  import opened Completeness
  import opened Soundness
  import opened Documents
  import opened Minify
  import opened MinifyGaps

  // ----- literals

  predicate EndsPlainly(raw: bytes) {
    raw == [] || raw[|raw| - 1] != BACKSLASH
  }

  /** The minifier finds the same end of a literal as the parser exactly when no backslash stands
      before the closing quote, or nothing comes after it. */
  lemma {:induction false} SameEnd(raw: bytes, rest: bytes)
    requires Balanced(raw)
    ensures LiteralEnd(raw + ([QUOTE] + rest)) == |raw| + 1 <==> EndsPlainly(raw) || rest == []
    decreases |raw|, 1
  {
    var s := raw + ([QUOTE] + rest);
    if raw == [] {
    } else if raw[0] == BACKSLASH {
      assert s[1] == raw[1];
      if raw[1] == QUOTE {
        assert s[2..] == raw[2..] + ([QUOTE] + rest);
        SameEnd(raw[2..], rest);
      } else {
        assert s[1..] == raw[1..] + ([QUOTE] + rest);
        if raw[1] == BACKSLASH {
          BackslashPair(raw, rest);
        } else {
          assert s[1..][1..] == raw[2..] + ([QUOTE] + rest);
          SameEnd(raw[2..], rest);
        }
      }
    } else {
      assert s[1..] == raw[1..] + ([QUOTE] + rest);
      SameEnd(raw[1..], rest);
    }
  }

  /** The second half of a `\\` pair is taken on its own, and hides a quote right behind it. */
  lemma {:induction false} BackslashPair(raw: bytes, rest: bytes)
    requires |raw| >= 2 && raw[0] == BACKSLASH && raw[1] == BACKSLASH && Balanced(raw[2..])
    ensures LiteralEnd(raw + ([QUOTE] + rest)) == |raw| + 1 <==> EndsPlainly(raw) || rest == []
    decreases |raw|, 0
  {
    var s := raw + ([QUOTE] + rest);
    assert s[1..][1..] == raw[2..] + ([QUOTE] + rest);
    assert LiteralEnd(s) == 1 + LiteralEnd(s[1..]);
    if |raw| == 2 {
      assert s[1..][0] == BACKSLASH && s[1..][1] == QUOTE;
      assert s[1..][2..] == rest;
    } else {
      assert raw[2] != QUOTE;
      assert LiteralEnd(s[1..]) == 1 + LiteralEnd(s[1..][1..]);
      SameEnd(raw[2..], rest);
    }
  }

  lemma {:induction false} FilterLiteral(raw: bytes, rest: bytes)
    requires Balanced(raw) && (EndsPlainly(raw) || rest == [])
    ensures Filter(Quoted(raw) + rest) == Quoted(raw) + Filter(rest)
  {
    hide LiteralEnd, AfterLine, AfterBlock, Balanced;
    SameEnd(raw, rest);
    var s := Quoted(raw) + rest;
    assert s[1..] == raw + ([QUOTE] + rest);
    assert s[..|raw| + 2] == Quoted(raw) && s[|raw| + 2..] == rest;
  }

  // ----- documents with comments, and what is left of them

  /** Valid but for the comments that may stand wherever a blank may. */
  ghost predicate Commented(s: Syntax, light: bool) {
    match s
    case SEmptyArray(blank) => Gap(blank, light)
    case SArray(elems) => CommentedElems(elems, light)
    case SEmptyObject(blank) => Gap(blank, light)
    case SObject(members) => CommentedMembers(members, light)
    case _ => Valid(s)
  }

  ghost predicate CommentedElems(es: Elems, light: bool) {
    && Gap(es.before, light) && Commented(es.value, light) && Gap(es.after, light)
    && (es.MoreElems? ==> CommentedElems(es.rest, light))
  }

  ghost predicate CommentedKey(k: Key, light: bool) {
    Gap(k.before, light) && ValidString(k.raw) && Gap(k.mid, light) && Gap(k.after, light)
  }

  ghost predicate CommentedMembers(ms: Members, light: bool) {
    && CommentedKey(ms.key, light) && Commented(ms.value, light) && Gap(ms.after, light)
    && (ms.MoreMembers? ==> CommentedMembers(ms.rest, light))
  }

  ghost predicate CommentedDocument(d: Document, light: bool) {
    Gap(d.before, light) && Commented(d.value, light) && Gap(d.after, light) && Depth(d.value) <= NESTING_LIMIT
  }

  /** Every gap filtered. */
  function Strip(s: Syntax): Syntax {
    match s
    case SEmptyArray(blank) => SEmptyArray(Filter(blank))
    case SArray(elems) => SArray(StripElems(elems))
    case SEmptyObject(blank) => SEmptyObject(Filter(blank))
    case SObject(members) => SObject(StripMembers(members))
    case _ => s
  }

  function StripElems(es: Elems): Elems {
    match es
    case LastElem(before, value, after) => LastElem(Filter(before), Strip(value), Filter(after))
    case MoreElems(before, value, after, rest) =>
      MoreElems(Filter(before), Strip(value), Filter(after), StripElems(rest))
  }

  function StripKey(k: Key): Key {
    Key(Filter(k.before), k.raw, Filter(k.mid), Filter(k.after))
  }

  function StripMembers(ms: Members): Members {
    match ms
    case LastMember(key, value, after) => LastMember(StripKey(key), Strip(value), Filter(after))
    case MoreMembers(key, value, after, rest) =>
      MoreMembers(StripKey(key), Strip(value), Filter(after), StripMembers(rest))
  }

  /** Every gap removed. */
  function Bare(s: Syntax): Syntax {
    match s
    case SEmptyArray(_) => SEmptyArray([])
    case SArray(elems) => SArray(BareElems(elems))
    case SEmptyObject(_) => SEmptyObject([])
    case SObject(members) => SObject(BareMembers(members))
    case _ => s
  }

  function BareElems(es: Elems): Elems {
    match es
    case LastElem(_, value, _) => LastElem([], Bare(value), [])
    case MoreElems(_, value, _, rest) => MoreElems([], Bare(value), [], BareElems(rest))
  }

  function BareMembers(ms: Members): Members {
    match ms
    case LastMember(key, value, _) => LastMember(Key([], key.raw, [], []), Bare(value), [])
    case MoreMembers(key, value, _, rest) => MoreMembers(Key([], key.raw, [], []), Bare(value), [], BareMembers(rest))
  }

  /** Gaps make no difference to the meaning, whether they are filtered or removed. */
  lemma {:induction false} StripMeans(s: Syntax, light: bool)
    requires Commented(s, light)
    ensures Valid(Strip(s)) && Valid(Bare(s)) && Meaning(Strip(s)) == Meaning(Bare(s)) && Depth(Strip(s)) == Depth(s)
    ensures Valid(s) ==> Meaning(s) == Meaning(Bare(s))
    ensures light ==> Strip(s) == Bare(s)
    decreases s
  {
    hide ValidElems, ValidMembers, ElemsMeaning, MembersMeaning, ElemsDepth, MembersDepth, StripElems, StripMembers,
      Filter, ValidNumber, ValidString, Strtod, Unescape, CommentedElems, CommentedMembers, Gap, BareElems, BareMembers;
    match s
    case SEmptyArray(blank) => FilterGap(blank, light, []);
    case SArray(elems) => StripElemsMeans(elems, light);
    case SEmptyObject(blank) => FilterGap(blank, light, []);
    case SObject(members) => StripMembersMeans(members, light);
    case _ =>
  }

  lemma {:induction false} StripElemsMeans(es: Elems, light: bool)
    requires CommentedElems(es, light)
    ensures ValidElems(StripElems(es)) && ValidElems(BareElems(es))
    ensures ElemsMeaning(StripElems(es)) == ElemsMeaning(BareElems(es)) && ElemsDepth(StripElems(es)) == ElemsDepth(es)
    ensures ValidElems(es) ==> ElemsMeaning(es) == ElemsMeaning(BareElems(es))
    ensures light ==> StripElems(es) == BareElems(es)
    decreases es
  {
    hide Valid, Meaning, Depth, Strip, Bare, Filter, Commented, Gap;
    StripMeans(es.value, light);
    FilterGap(es.before, light, []);
    FilterGap(es.after, light, []);
    if es.MoreElems? {
      StripElemsMeans(es.rest, light);
    }
  }

  lemma {:induction false} StripKeyMeans(k: Key, light: bool)
    requires CommentedKey(k, light)
    ensures ValidKey(StripKey(k)) && ValidKey(Key([], k.raw, [], []))
    ensures KeyMeaning(StripKey(k)) == KeyMeaning(Key([], k.raw, [], []))
    ensures ValidKey(k) ==> KeyMeaning(k) == KeyMeaning(Key([], k.raw, [], []))
    ensures light ==> StripKey(k) == Key([], k.raw, [], [])
  {
    hide ValidString, Unescape, Filter, Gap, CStr;
    FilterGap(k.before, light, []);
    FilterGap(k.mid, light, []);
    FilterGap(k.after, light, []);
  }

  lemma {:induction false} StripMembersMeans(ms: Members, light: bool)
    requires CommentedMembers(ms, light)
    ensures ValidMembers(StripMembers(ms)) && ValidMembers(BareMembers(ms))
    ensures MembersMeaning(StripMembers(ms)) == MembersMeaning(BareMembers(ms))
    ensures MembersDepth(StripMembers(ms)) == MembersDepth(ms)
    ensures ValidMembers(ms) ==> MembersMeaning(ms) == MembersMeaning(BareMembers(ms))
    ensures light ==> StripMembers(ms) == BareMembers(ms)
    decreases ms
  {
    hide Valid, Meaning, Depth, Strip, Bare, Filter, ValidKey, KeyMeaning, StripKey, Commented, CommentedKey, Gap;
    StripKeyMeans(ms.key, light);
    StripMeans(ms.value, light);
    FilterGap(ms.after, light, []);
    if ms.MoreMembers? {
      StripMembersMeans(ms.rest, light);
    }
  }

  /** What is valid as it stands is also valid with comments. */
  lemma {:induction false} ValidCommented(s: Syntax)
    requires Valid(s)
    ensures Commented(s, false)
    decreases s
  {
    hide ValidElems, ValidMembers, CommentedElems, CommentedMembers, Gap, ValidNumber, ValidString;
    match s
    case SEmptyArray(blank) => BlankGap(blank);
    case SArray(elems) => ValidElemsCommented(elems);
    case SEmptyObject(blank) => BlankGap(blank);
    case SObject(members) => ValidMembersCommented(members);
    case _ =>
  }

  lemma {:induction false} ValidElemsCommented(es: Elems)
    requires ValidElems(es)
    ensures CommentedElems(es, false)
    decreases es
  {
    hide Valid, Commented, Gap;
    ValidCommented(es.value);
    BlankGap(es.before);
    BlankGap(es.after);
    if es.MoreElems? {
      ValidElemsCommented(es.rest);
    }
  }

  lemma {:induction false} ValidMembersCommented(ms: Members)
    requires ValidMembers(ms)
    ensures CommentedMembers(ms, false)
    decreases ms
  {
    hide Valid, Commented, Gap, ValidString;
    BlankGap(ms.key.before);
    BlankGap(ms.key.mid);
    BlankGap(ms.key.after);
    ValidCommented(ms.value);
    BlankGap(ms.after);
    if ms.MoreMembers? {
      ValidMembersCommented(ms.rest);
    }
  }

  // ----- documents whose literals the minifier recognises

  /** No literal and no key ends in a backslash. */
  predicate PlainlyQuoted(s: Syntax) {
    match s
    case SString(raw) => EndsPlainly(raw)
    case SArray(elems) => PlainElems(elems)
    case SObject(members) => PlainMembers(members)
    case _ => true
  }

  predicate PlainElems(es: Elems) {
    PlainlyQuoted(es.value) && (es.MoreElems? ==> PlainElems(es.rest))
  }

  predicate PlainMembers(ms: Members) {
    EndsPlainly(ms.key.raw) && PlainlyQuoted(ms.value) && (ms.MoreMembers? ==> PlainMembers(ms.rest))
  }

  /** A string that is the whole document may end as it likes, if nothing stands behind it. */
  predicate PlainDocument(d: Document) {
    PlainlyQuoted(d.value) || (d.value.SString? && d.after == [])
  }

  // ----- filtering a document gives the text of the document without its blanks

  lemma {:induction false} FilterValue(s: Syntax, light: bool, rest: bytes)
    requires Commented(s, light) && (PlainlyQuoted(s) || (s.SString? && rest == []))
    ensures Filter(Flatten(s) + rest) == Flatten(Strip(s)) + Filter(rest)
    decreases s
  {
    hide Filter, Balanced, Unescape, Strtod, FlattenElems, FlattenMembers, StripElems, StripMembers,
      CommentedElems, CommentedMembers, PlainElems, PlainMembers, Quoted, Gap;
    match s
    case SNull => FilterPlain(NULL_TEXT, rest);
    case SFalse => FilterPlain(FALSE_TEXT, rest);
    case STrue => FilterPlain(TRUE_TEXT, rest);
    case SNumber(text) => FilterPlain(text, rest);
    case SString(raw) => FilterLiteral(raw, rest);
    case SEmptyArray(blank) => FilterEmpty(LBRACKET, blank, light, RBRACKET, rest);
    case SArray(elems) =>
      FilterElems(elems, light, rest);
      FilterOne(LBRACKET, FlattenElems(elems), rest);
    case SEmptyObject(blank) => FilterEmpty(LBRACE, blank, light, RBRACE, rest);
    case SObject(members) =>
      FilterMembers(members, light, rest);
      FilterOne(LBRACE, FlattenMembers(members), rest);
  }

  lemma {:induction false} FilterOne(b: byte, s: bytes, rest: bytes)
    requires Plain([b])
    ensures Filter(([b] + s) + rest) == [b] + Filter(s + rest)
  {
    hide Filter;
    assert ([b] + s) + rest == [b] + (s + rest);
    FilterPlain([b], s + rest);
  }

  lemma {:induction false} FilterEmpty(open: byte, blank: bytes, light: bool, close: byte, rest: bytes)
    requires Plain([open]) && Plain([close]) && Gap(blank, light)
    ensures Filter(([open] + (blank + [close])) + rest) == ([open] + (Filter(blank) + [close])) + Filter(rest)
  {
    hide Filter, Gap;
    assert ([open] + (blank + [close])) + rest == [open] + (blank + ([close] + rest));
    FilterPlain([open], blank + ([close] + rest));
    FilterGap(blank, light, [close] + rest);
    FilterPlain([close], rest);
  }

  /** Filtering a part with blanks around it, given what filtering does to the part and to the tail. */
  lemma {:induction false} FilterSpaced(before: bytes, text: bytes, text': bytes, after: bytes, light: bool,
                                        tail: bytes, tail': bytes, rest: bytes)
    requires Gap(before, light) && Gap(after, light)
    requires forall r :: Filter(text + r) == text' + Filter(r)
    requires Filter(tail + rest) == tail' + Filter(rest)
    ensures Filter(Spaced(before, text, after, tail) + rest)
      == Spaced(Filter(before), text', Filter(after), tail') + Filter(rest)
  {
    hide Filter, Gap;
    assert Spaced(before, text, after, tail) + rest == before + (text + (after + (tail + rest)));
    FilterGap(before, light, text + (after + (tail + rest)));
    FilterGap(after, light, tail + rest);
    assert Filter(text + (after + (tail + rest))) == text' + Filter(after + (tail + rest));
    RegroupSpaced(Filter(before), text', Filter(after), tail', Filter(rest));
  }

  lemma RegroupSpaced(a: bytes, b: bytes, c: bytes, d: bytes, rest: bytes)
    ensures Spaced(a, b, c, d) + rest == a + (b + (c + (d + rest)))
  {
  }

  lemma {:induction false} FilterElems(es: Elems, light: bool, rest: bytes)
    requires CommentedElems(es, light) && PlainElems(es)
    ensures Filter(FlattenElems(es) + rest) == FlattenElems(StripElems(es)) + Filter(rest)
    decreases es
  {
    hide Filter, Valid, Flatten, Strip, Spaced, PlainlyQuoted, Gap, Commented;
    var text := Flatten(es.value);
    match es
    case LastElem(before, value, after) =>
      forall r ensures Filter(text + r) == Flatten(Strip(value)) + Filter(r) {
        FilterValue(value, light, r);
      }
      FilterPlain([RBRACKET], rest);
      FilterSpaced(before, text, Flatten(Strip(value)), after, light, [RBRACKET], [RBRACKET], rest);
    case MoreElems(before, value, after, more) =>
      var tail := [COMMA] + FlattenElems(more);
      forall r ensures Filter(text + r) == Flatten(Strip(value)) + Filter(r) {
        FilterValue(value, light, r);
      }
      FilterElems(more, light, rest);
      FilterOne(COMMA, FlattenElems(more), rest);
      var tail' := [COMMA] + FlattenElems(StripElems(more));
      assert Filter(tail + rest) == tail' + Filter(rest);
      FilterSpaced(before, text, Flatten(Strip(value)), after, light, tail, tail', rest);
  }

  lemma {:induction false} FilterKey(k: Key, light: bool, rest: bytes)
    requires CommentedKey(k, light) && EndsPlainly(k.raw)
    ensures Filter(FlattenKey(k) + rest) == FlattenKey(StripKey(k)) + Filter(rest)
  {
    hide Filter, Quoted, Gap, Balanced, Unescape;
    var tail := [COLON] + k.after;
    forall r ensures Filter(Quoted(k.raw) + r) == Quoted(k.raw) + Filter(r) {
      FilterLiteral(k.raw, r);
    }
    FilterOne(COLON, k.after, rest);
    FilterGap(k.after, light, rest);
    var tail' := [COLON] + Filter(k.after);
    assert Filter(tail + rest) == tail' + Filter(rest);
    FilterSpaced(k.before, Quoted(k.raw), Quoted(k.raw), k.mid, light, tail, tail', rest);
  }

  lemma {:induction false} FilterMembers(ms: Members, light: bool, rest: bytes)
    requires CommentedMembers(ms, light) && PlainMembers(ms)
    ensures Filter(FlattenMembers(ms) + rest) == FlattenMembers(StripMembers(ms)) + Filter(rest)
    decreases ms
  {
    hide Filter, PlainlyQuoted, Valid, ValidKey, Flatten, FlattenKey, Strip, StripKey, Spaced, Gap, Commented;
    hide CommentedKey;
    var text := Flatten(ms.value);
    match ms
    case LastMember(key, value, after) =>
      forall r ensures Filter(text + r) == Flatten(Strip(value)) + Filter(r) {
        FilterValue(value, light, r);
      }
      FilterPlain([RBRACE], rest);
      FilterMember(key, text, Flatten(Strip(value)), after, light, [RBRACE], [RBRACE], rest);
    case MoreMembers(key, value, after, more) =>
      var tail := [COMMA] + FlattenMembers(more);
      forall r ensures Filter(text + r) == Flatten(Strip(value)) + Filter(r) {
        FilterValue(value, light, r);
      }
      FilterMembers(more, light, rest);
      FilterOne(COMMA, FlattenMembers(more), rest);
      var tail' := [COMMA] + FlattenMembers(StripMembers(more));
      assert Filter(tail + rest) == tail' + Filter(rest);
      FilterMember(key, text, Flatten(Strip(value)), after, light, tail, tail', rest);
  }

  lemma {:induction false} FilterMember(key: Key, text: bytes, text': bytes, after: bytes, light: bool,
                                        tail: bytes, tail': bytes, rest: bytes)
    requires CommentedKey(key, light) && EndsPlainly(key.raw) && Gap(after, light)
    requires forall r :: Filter(text + r) == text' + Filter(r)
    requires Filter(tail + rest) == tail' + Filter(rest)
    ensures Filter((FlattenKey(key) + Spaced([], text, after, tail)) + rest)
      == (FlattenKey(StripKey(key)) + Spaced([], text', Filter(after), tail')) + Filter(rest)
  {
    hide Filter, CommentedKey, Gap, FlattenKey, StripKey, Spaced;
    var spaced := Spaced([], text, after, tail);
    assert (FlattenKey(key) + spaced) + rest == FlattenKey(key) + (spaced + rest);
    FilterKey(key, light, spaced + rest);
    NoGap(light);
    FilterSpaced([], text, text', after, light, tail, tail', rest);
    FilterNothing();
  }

  function StripDocument(d: Document): Document {
    Document(d.bom, Filter(d.before), Strip(d.value), Filter(d.after))
  }

  lemma NoGap(light: bool)
    ensures Gap([], light)
  {
    assert ProperPieces([], light) && GapText([]) == [];
  }

  lemma {:induction false} FilterDocument(d: Document, light: bool)
    requires CommentedDocument(d, light) && PlainDocument(d)
    ensures Filter(FlattenDocument(d)) == FlattenDocument(StripDocument(d))
  {
    hide Filter, Commented, Gap, Flatten, Strip, PlainlyQuoted;
    var lead := if d.bom then BOM else [];
    var text := Flatten(d.value);
    var tail := text + d.after;
    FilterPlain(lead, d.before + tail);
    FilterGap(d.before, light, tail);
    FilterValue(d.value, light, d.after);
  }

  lemma {:induction false} AfterNulFree(s: bytes)
    requires NulFree(s)
    ensures NulFree(AfterLine(s)) && NulFree(AfterBlock(s))
  {
    if s != [] {
      AfterNulFree(s[1..]);
    }
  }

  lemma {:induction false} FilterNulFree(s: bytes)
    requires NulFree(s)
    ensures NulFree(Filter(s))
    decreases |s|
  {
    hide LiteralEnd, AfterLine, AfterBlock;
    if s == [] {
    } else if Droppable(s[0]) {
      FilterNulFree(s[1..]);
    } else if s[0] == SLASH {
      if |s| > 1 && s[1] == SLASH {
        AfterNulFree(s[2..]);
        FilterNulFree(AfterLine(s[2..]));
      } else if |s| > 1 && s[1] == STAR {
        AfterNulFree(s[2..]);
        FilterNulFree(AfterBlock(s[2..]));
      } else {
        FilterNulFree(s[1..]);
      }
    } else if s[0] == QUOTE {
      FilterNulFree(s[1 + LiteralEnd(s[1..])..]);
    } else {
      FilterNulFree(s[1..]);
    }
  }

  /** Minifying a document removes its comments and leaves the value as it was, unless a literal ends in a backslash. */
  lemma {:induction false} MinifyKeepsTree(d: Document, light: bool)
    requires CommentedDocument(d, light) && PlainDocument(d) && NulFree(FlattenDocument(d))
    ensures Valid(Bare(d.value))
    ensures var text := FlattenDocument(d);
      && NulFree(Filter(text)) && ParseText(Filter(text), true) == Ok(Meaning(Bare(d.value)), |Filter(text)|)
      && (ValidDocument(d) ==> ParseText(text, true) == Ok(Meaning(Bare(d.value)), |text|))
  {
    hide Filter, PlainDocument, ParseText, FlattenDocument, Valid, Meaning, Depth, Strip, Bare, Commented, Gap;
    var text := FlattenDocument(d);
    FilterNulFree(text);
    FilterDocument(d, light);
    StripMeans(d.value, light);
    FilterGap(d.before, light, []);
    FilterGap(d.after, light, []);
    if ValidDocument(d) {
      DocumentAccepted(text, d);
    }
    DocumentAccepted(Filter(text), StripDocument(d));
  }

  // ----- which literals the minifier takes for literals

  /** The literals and keys of the document, in order. */
  function Literals(s: Syntax): seq<bytes> {
    match s
    case SString(raw) => [Quoted(raw)]
    case SArray(elems) => ElemsLiterals(elems)
    case SObject(members) => MembersLiterals(members)
    case _ => []
  }

  function ElemsLiterals(es: Elems): seq<bytes> {
    Literals(es.value) + if es.LastElem? then [] else ElemsLiterals(es.rest)
  }

  function MembersLiterals(ms: Members): seq<bytes> {
    [Quoted(ms.key.raw)] + (Literals(ms.value) + if ms.LastMember? then [] else MembersLiterals(ms.rest))
  }

  /** From a part with the literals `lits`, followed by what is cut into `more`, the minifier cuts `cut`: these
      literals, or if they are not plain, something that does not even start with them. */
  ghost predicate Reads(plain: bool, lits: seq<bytes>, cut: seq<bytes>, more: seq<bytes>) {
    if plain then cut == lits + more else !(lits <= cut)
  }

  lemma ReadsJoin(p: bool, a: seq<bytes>, q: bool, b: seq<bytes>, cut: seq<bytes>, mid: seq<bytes>, more: seq<bytes>)
    requires Reads(p, a, cut, mid) && Reads(q, b, mid, more)
    ensures Reads(p && q, a + b, cut, more)
  {
    if a + b <= cut {
      PrefixParts(a, b, cut);
      assert p ==> cut[|a|..] == mid;
    }
  }

  lemma PrefixParts(a: seq<bytes>, b: seq<bytes>, whole: seq<bytes>)
    requires a + b <= whole
    ensures a <= whole && b <= whole[|a|..]
  {
    var c := whole[|a| + |b|..];
    assert whole == (a + b) + c;
    assert whole == a + (b + c);
    assert whole[|a|..] == b + c;
  }

  lemma {:induction false} CutSkips(s: bytes, rest: bytes)
    requires Blank(s) || Plain(s)
    ensures Cut(s + rest) == Cut(rest)
  {
    hide AfterLine, AfterBlock, LiteralEnd;
    if s == [] {
      assert s + rest == rest;
    } else {
      CutSkips(s[1..], rest);
      assert (s + rest)[1..] == s[1..] + rest;
    }
  }

  lemma {:induction false} CutLiteral(raw: bytes, rest: bytes)
    requires Balanced(raw)
    ensures EndsPlainly(raw) || rest == [] ==> Cut(Quoted(raw) + rest) == [Quoted(raw)] + Cut(rest)
    ensures rest != [] ==> Reads(EndsPlainly(raw), [Quoted(raw)], Cut(Quoted(raw) + rest), Cut(rest))
  {
    hide LiteralEnd, AfterLine, AfterBlock, Balanced;
    SameEnd(raw, rest);
    var s := Quoted(raw) + rest;
    assert s[1..] == raw + ([QUOTE] + rest);
    assert s[..|raw| + 2] == Quoted(raw) && s[|raw| + 2..] == rest;
    var n := 1 + LiteralEnd(s[1..]);
    assert Cut(s) == [s[..n]] + Cut(s[n..]);
    assert [Quoted(raw)] <= Cut(s) ==> Cut(s)[0] == Quoted(raw);
  }

  lemma {:induction false} CutValue(s: Syntax, rest: bytes)
    requires Valid(s)
    ensures (s.SString? && rest == [])
      || Reads(PlainlyQuoted(s), Literals(s), Cut(Flatten(s) + rest), Cut(rest))
    decreases s, 0
  {
    hide Cut, Balanced, Unescape, Strtod, FlattenElems, FlattenMembers, ElemsLiterals, MembersLiterals, ValidElems,
      ValidMembers, PlainElems, PlainMembers, Quoted;
    match s
    case SString(raw) => CutLiteral(raw, rest);
    case SEmptyArray(blank) => CutEmpty(LBRACKET, blank, RBRACKET, rest);
    case SArray(elems) =>
      CutElems(elems, rest);
      CutOne(LBRACKET, FlattenElems(elems), rest);
    case SEmptyObject(blank) => CutEmpty(LBRACE, blank, RBRACE, rest);
    case SObject(members) =>
      CutMembers(members, rest);
      CutOne(LBRACE, FlattenMembers(members), rest);
    case _ => CutSkips(Flatten(s), rest);
  }

  lemma CutOne(b: byte, s: bytes, rest: bytes)
    requires Plain([b])
    ensures Cut(([b] + s) + rest) == Cut(s + rest)
  {
    hide Cut;
    assert ([b] + s) + rest == [b] + (s + rest);
    CutSkips([b], s + rest);
  }

  lemma CutEmpty(open: byte, blank: bytes, close: byte, rest: bytes)
    requires Plain([open]) && Plain([close]) && Blank(blank)
    ensures Cut(([open] + (blank + [close])) + rest) == Cut(rest)
  {
    hide Cut;
    CutOne(open, blank + [close], rest);
    assert (blank + [close]) + rest == blank + ([close] + rest);
    CutSkips(blank, [close] + rest);
    CutSkips([close], rest);
  }

  lemma {:induction false} CutSpaced(before: bytes, value: Syntax, after: bytes, tail: bytes, rest: bytes)
    requires Blank(before) && Valid(value) && Blank(after) && tail != []
    ensures Reads(PlainlyQuoted(value), Literals(value),
                  Cut(Spaced(before, Flatten(value), after, tail) + rest), Cut(tail + rest))
    decreases value, 1
  {
    hide Cut, Valid, Flatten, PlainlyQuoted, Literals, Reads;
    var text := Flatten(value);
    RegroupSpaced(before, text, after, tail, rest);
    CutSkips(before, text + (after + (tail + rest)));
    CutValue(value, after + (tail + rest));
    CutSkips(after, tail + rest);
  }

  lemma {:induction false} CutElems(es: Elems, rest: bytes)
    requires ValidElems(es)
    ensures Reads(PlainElems(es), ElemsLiterals(es), Cut(FlattenElems(es) + rest), Cut(rest))
    decreases es
  {
    hide Cut, Valid, Flatten, PlainlyQuoted, Literals, Spaced;
    match es
    case LastElem(before, value, after) =>
      CutSpaced(before, value, after, [RBRACKET], rest);
      CutSkips([RBRACKET], rest);
    case MoreElems(before, value, after, more) =>
      var tail := [COMMA] + FlattenElems(more);
      CutSpaced(before, value, after, tail, rest);
      CutElems(more, rest);
      CutOne(COMMA, FlattenElems(more), rest);
      ReadsJoin(PlainlyQuoted(value), Literals(value), PlainElems(more), ElemsLiterals(more),
                Cut(FlattenElems(es) + rest), Cut(tail + rest), Cut(rest));
  }

  lemma {:induction false} CutKey(k: Key, rest: bytes)
    requires ValidKey(k)
    ensures Reads(EndsPlainly(k.raw), [Quoted(k.raw)], Cut(FlattenKey(k) + rest), Cut(rest))
  {
    hide Cut, Quoted, Balanced, Unescape, Reads;
    var tail := [COLON] + k.after;
    RegroupSpaced(k.before, Quoted(k.raw), k.mid, tail, rest);
    CutSkips(k.before, Quoted(k.raw) + (k.mid + (tail + rest)));
    CutLiteral(k.raw, k.mid + (tail + rest));
    CutSkips(k.mid, tail + rest);
    CutOne(COLON, k.after, rest);
    CutSkips(k.after, rest);
  }

  lemma {:induction false} CutMembers(ms: Members, rest: bytes)
    requires ValidMembers(ms)
    ensures Reads(PlainMembers(ms), MembersLiterals(ms), Cut(FlattenMembers(ms) + rest), Cut(rest))
    decreases ms
  {
    hide Cut, Valid, ValidKey, Flatten, FlattenKey, PlainlyQuoted, Literals, Spaced, EndsPlainly, Quoted;
    var key, value := ms.key, ms.value;
    var tail := if ms.LastMember? then [RBRACE] else [COMMA] + FlattenMembers(ms.rest);
    var spaced := Spaced([], Flatten(value), ms.after, tail);
    assert (FlattenKey(key) + spaced) + rest == FlattenKey(key) + (spaced + rest);
    CutKey(key, spaced + rest);
    CutSpaced([], value, ms.after, tail, rest);
    var p, lits := PlainlyQuoted(value), Literals(value);
    if ms.LastMember? {
      CutSkips([RBRACE], rest);
    } else {
      CutMembers(ms.rest, rest);
      CutOne(COMMA, FlattenMembers(ms.rest), rest);
      ReadsJoin(p, lits, PlainMembers(ms.rest), MembersLiterals(ms.rest),
                Cut(spaced + rest), Cut(tail + rest), Cut(rest));
      p, lits := p && PlainMembers(ms.rest), lits + MembersLiterals(ms.rest);
    }
    ReadsJoin(EndsPlainly(key.raw), [Quoted(key.raw)], p, lits,
              Cut(FlattenMembers(ms) + rest), Cut(spaced + rest), Cut(rest));
  }

  /** The minifier takes for literals exactly the literals of the document if and only if none of them ends in a
      backslash, or the document is a string and nothing else. */
  lemma {:induction false} LiteralsKept(d: Document)
    requires ValidDocument(d)
    ensures Cut(FlattenDocument(d)) == Literals(d.value) <==> PlainDocument(d)
  {
    hide Cut, Valid, Flatten, PlainlyQuoted, Literals;
    var lead := if d.bom then BOM else [];
    var tail := Flatten(d.value) + d.after;
    CutSkips(lead, d.before + tail);
    CutSkips(d.before, tail);
    CutValue(d.value, d.after);
    assert d.after + [] == d.after;
    CutSkips(d.after, []);
    assert Cut([]) == [] by { CutNothing(); }
    if d.value.SString? && d.after == [] {
      StringCut(d.value.raw);
    }
  }

  lemma CutNothing()
    ensures Cut([]) == []
  {
  }

  lemma StringCut(raw: bytes)
    requires Valid(SString(raw))
    ensures Cut(Flatten(SString(raw)) + []) == Literals(SString(raw))
  {
    hide Cut;
    CutLiteral(raw, []);
    CutNothing();
  }

  // ----- texts in which no quote follows two backslashes

  ghost predicate Clean(s: bytes) {
    forall i {:trigger s[i]} :: 0 <= i && i + 2 < |s| ==>
      !(s[i] == BACKSLASH && s[i + 1] == BACKSLASH && s[i + 2] == QUOTE)
  }

  lemma {:induction false} CleanParts(a: bytes, b: bytes)
    requires Clean(a + b)
    ensures Clean(a) && Clean(b)
  {
    var s := a + b;
    forall i {:trigger a[i]} | 0 <= i && i + 2 < |a|
      ensures !(a[i] == BACKSLASH && a[i + 1] == BACKSLASH && a[i + 2] == QUOTE)
    {
      assert s[i] == a[i] && s[i + 1] == a[i + 1] && s[i + 2] == a[i + 2];
    }
    forall i {:trigger b[i]} | 0 <= i && i + 2 < |b|
      ensures !(b[i] == BACKSLASH && b[i + 1] == BACKSLASH && b[i + 2] == QUOTE)
    {
      var j := |a| + i;
      assert s[j] == b[i] && s[j + 1] == b[i + 1] && s[j + 2] == b[i + 2];
    }
  }

  /** A literal that ends in a backslash ends in two of them. */
  lemma {:induction false} EndsInPair(raw: bytes)
    requires Balanced(raw) && !EndsPlainly(raw)
    ensures |raw| >= 2 && raw[|raw| - 2] == BACKSLASH
  {
    if raw[0] == BACKSLASH {
      if |raw| > 2 {
        EndsInPair(raw[2..]);
      }
    } else {
      EndsInPair(raw[1..]);
    }
  }

  lemma {:induction false} NotClean(raw: bytes)
    requires Balanced(raw) && !EndsPlainly(raw)
    ensures !Clean(Quoted(raw))
  {
    hide Balanced;
    EndsInPair(raw);
    var s := Quoted(raw);
    var i := |raw| - 1;
    assert s[i] == BACKSLASH && s[i + 1] == BACKSLASH && s[i + 2] == QUOTE;
  }

  lemma {:induction false} CleanLiteral(raw: bytes)
    requires Balanced(raw) && Clean(Quoted(raw))
    ensures EndsPlainly(raw)
  {
    hide Balanced, Clean;
    if !EndsPlainly(raw) {
      NotClean(raw);
    }
  }

  lemma {:induction false} CleanSpaced(before: bytes, text: bytes, after: bytes, tail: bytes)
    requires Clean(Spaced(before, text, after, tail))
    ensures Clean(text) && Clean(tail)
  {
    hide Clean;
    CleanParts(before, text + (after + tail));
    CleanParts(text, after + tail);
    CleanParts(after, tail);
  }

  lemma {:induction false} CleanValue(s: Syntax)
    requires Valid(s) && Clean(Flatten(s))
    ensures PlainlyQuoted(s)
    decreases s
  {
    hide FlattenElems, FlattenMembers, ValidElems, ValidMembers, PlainElems, PlainMembers, Clean, Quoted, Balanced;
    hide Unescape, EndsPlainly;
    match s
    case SString(raw) => CleanLiteral(raw);
    case SArray(elems) =>
      CleanParts([LBRACKET], FlattenElems(elems));
      CleanElems(elems);
    case SObject(members) =>
      CleanParts([LBRACE], FlattenMembers(members));
      CleanMembers(members);
    case _ =>
  }

  lemma {:induction false} CleanElems(es: Elems)
    requires ValidElems(es) && Clean(FlattenElems(es))
    ensures PlainElems(es)
    decreases es
  {
    hide Clean, Valid, Flatten, Spaced, PlainlyQuoted;
    var tail := if es.LastElem? then [RBRACKET] else [COMMA] + FlattenElems(es.rest);
    CleanSpaced(es.before, Flatten(es.value), es.after, tail);
    CleanValue(es.value);
    if es.MoreElems? {
      CleanParts([COMMA], FlattenElems(es.rest));
      CleanElems(es.rest);
    }
  }

  lemma {:induction false} CleanMembers(ms: Members)
    requires ValidMembers(ms) && Clean(FlattenMembers(ms))
    ensures PlainMembers(ms)
    decreases ms
  {
    hide Clean, Valid, Flatten, Spaced, PlainlyQuoted, Quoted, EndsPlainly, Balanced, Unescape;
    var k := ms.key;
    var tail := if ms.LastMember? then [RBRACE] else [COMMA] + FlattenMembers(ms.rest);
    CleanParts(FlattenKey(k), Spaced([], Flatten(ms.value), ms.after, tail));
    CleanParts(k.before, Quoted(k.raw) + (k.mid + ([COLON] + k.after)));
    CleanParts(Quoted(k.raw), k.mid + ([COLON] + k.after));
    CleanLiteral(k.raw);
    CleanSpaced([], Flatten(ms.value), ms.after, tail);
    CleanValue(ms.value);
    if ms.MoreMembers? {
      CleanParts([COMMA], FlattenMembers(ms.rest));
      CleanMembers(ms.rest);
    }
  }

  /** In particular, minifying an accepted text in which no quote follows two backslashes leaves the tree as it was. */
  lemma {:induction false} MinifyKeepsClean(text: cstring)
    requires ParseText(text, true).Ok? && Clean(text)
    ensures NulFree(Filter(text))
    ensures ParseText(Filter(text), true) == Ok(ParseText(text, true).value, |Filter(text)|)
  {
    hide Filter, Clean, ParseText, Valid, Meaning, Depth, PlainlyQuoted, Flatten;
    var d := DocumentRecovered(text);
    var lead := if d.bom then BOM else [];
    CleanParts(lead, d.before + (Flatten(d.value) + d.after));
    CleanParts(d.before, Flatten(d.value) + d.after);
    CleanParts(Flatten(d.value), d.after);
    CleanValue(d.value);
    ValidCommented(d.value);
    BlankGap(d.before);
    BlankGap(d.after);
    MinifyKeepsTree(d, false);
  }

  // ----- the restriction is needed

  /** `["\\", " "]` */
  const ESCAPED_PAIR: bytes := [91, 34, 92, 92, 34, 44, 32, 34, 32, 34, 93]
  /** `["\\", ""]` */
  const PAIR_MINIFIED: bytes := [91, 34, 92, 92, 34, 44, 32, 34, 34, 93]

  /** The quote behind an escaped backslash is taken for an escaped quote, and the blank inside the
      next string is dropped. */
  lemma {:induction false} EscapedBackslashMisread()
    ensures NulFree(ESCAPED_PAIR) && NulFree(PAIR_MINIFIED)
    ensures ParseText(ESCAPED_PAIR, true) == Ok(Array([String([BACKSLASH]), String([SPACE])]), |ESCAPED_PAIR|)
    ensures Filter(ESCAPED_PAIR) == PAIR_MINIFIED
    ensures ParseText(Filter(ESCAPED_PAIR), true) == Ok(Array([String([BACKSLASH]), String([])]), |PAIR_MINIFIED|)
  {
    hide ParseText;
    PairDocument(ESCAPED_PAIR, [SPACE]);
    PairDocument(PAIR_MINIFIED, []);
    PairFiltered();
  }

  function PairElems(second: bytes): Elems {
    MoreElems([], SString([BACKSLASH, BACKSLASH]), [], LastElem([SPACE], SString(second), []))
  }

  lemma OneElement(es: Elems)
    requires es.LastElem? && ValidElems(es)
    ensures ElemsMeaning(es) == [Meaning(es.value)] && ElemsDepth(es) == Depth(es.value)
  {
  }

  lemma {:induction false} PairMeans(second: cstring)
    requires second == [] || second == [SPACE]
    ensures ValidElems(PairElems(second)) && ElemsDepth(PairElems(second)) == 0
    ensures ElemsMeaning(PairElems(second)) == [String([BACKSLASH]), String(second)]
  {
    var pair := [BACKSLASH, BACKSLASH];
    assert Unescape(pair) == Text([BACKSLASH]);
    assert pair[2..] == [] && Balanced(pair);
    if second == [SPACE] {
      assert second[1..] == [] && Drop(second, 1) == [];
    }
    assert ValidString(second) && Unescape(second) == Text(second);
    CStrOfCString([BACKSLASH]);
    CStrOfCString(second);
    var last := LastElem([SPACE], SString(second), []);
    assert PairElems(second) == MoreElems([], SString(pair), [], last);
    assert Meaning(last.value) == String(second) && Depth(last.value) == 0;
    assert Meaning(SString(pair)) == String([BACKSLASH]) && Depth(SString(pair)) == 0;
    assert ValidElems(last);
    OneElement(last);
    assert ElemsMeaning(last) == [String(second)] && ElemsDepth(last) == 0;
    assert [String([BACKSLASH])] + [String(second)] == [String([BACKSLASH]), String(second)];
  }

  lemma {:induction false} PairText(second: bytes)
    ensures FlattenElems(PairElems(second)) == [34, 92, 92, 34, 44, 32, 34] + second + [34, 93]
  {
    assert Quoted([BACKSLASH, BACKSLASH]) == [34, 92, 92, 34];
    assert FlattenElems(PairElems(second).rest) == [32, 34] + second + [34, 93];
  }

  lemma {:induction false} PairDocument(text: cstring, second: cstring)
    requires second == [] || second == [SPACE]
    requires text == [91, 34, 92, 92, 34, 44, 32, 34] + second + [34, 93]
    ensures ParseText(text, true) == Ok(Array([String([BACKSLASH]), String(second)]), |text|)
  {
    hide ParseText, PairElems, FlattenElems, ElemsMeaning, ValidElems, ElemsDepth;
    PairMeans(second);
    PairText(second);
    var d := Document(false, [], SArray(PairElems(second)), []);
    assert FlattenDocument(d) == text;
    DocumentAccepted(text, d);
  }

  lemma {:induction false} PairFiltered()
    ensures Filter(ESCAPED_PAIR) == PAIR_MINIFIED
  {
    hide Filter, LiteralEnd, AfterLine, AfterBlock, CStr;
    var literal := [34, 92, 92, 34, 44, 32, 34];
    var rest := [32, 34, 93];
    assert ESCAPED_PAIR == [91] + (literal + rest);
    FilterPlain([91], literal + rest);
    assert (literal + rest)[1..] == [92, 92, 34, 44, 32, 34, 32, 34, 93];
    PairLiteral();
    FilterQuote(literal + rest);
    assert [32] + [34, 93] == rest;
    BlankGap([32]);
    FilterGap([32], true, [34, 93]);
    assert [34, 93][1..] == [93];
    FilterQuote([34, 93]);
    FilterNothing();
  }

  lemma PairLiteral()
    ensures LiteralEnd([92, 92, 34, 44, 32, 34, 32, 34, 93]) == 6 && LiteralEnd([93]) == 1
  {
    assert LiteralEnd([44, 32, 34, 32, 34, 93]) == 3;
    assert [92, 92, 34, 44, 32, 34, 32, 34, 93][1..][2..] == [44, 32, 34, 32, 34, 93];
  }

  lemma FilterQuote(s: bytes)
    requires s != [] && s[0] == QUOTE
    ensures var n := 1 + LiteralEnd(s[1..]); Filter(s) == s[..n] + Filter(s[n..])
  {
  }
}

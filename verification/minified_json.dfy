/** Minifying JSON texts, and what the two layouts of the printer have to do with it. */
module MinifiedJson {
  import opened Bytes
  import opened Json
  import opened StringSpec
  import opened ParseSpec
  import opened Syntax
  import opened Documents
  import opened Minify
  import opened MinifyGaps
  import opened MinifyKeeps
  import opened Rfc8259
  import opened RenderSpec
  import opened RoundTrip

  // ----- every text of the grammar

  lemma {:induction false} DerivedLight(s: Syntax, v: JsonValue)
    requires Derives(s, v)
    ensures Commented(s, true)
    decreases s
  {
    hide DerivesElems, DerivesMembers, CommentedElems, CommentedMembers, Gap, StringDenotes, NumberDenotes, ValidString;
    hide ValidNumber, Kept, Flatten;
    match s
    case SNumber(text) => DerivationMeans(s, v);
    case SString(raw) => DerivationMeans(s, v);
    case SEmptyArray(blank) => BlankGap(blank);
    case SArray(elems) => ElemsLight(elems, v.items);
    case SEmptyObject(blank) => BlankGap(blank);
    case SObject(members) => MembersLight(members, v.members);
    case _ =>
  }

  lemma {:induction false} ElemsLight(es: Elems, items: seq<JsonValue>)
    requires DerivesElems(es, items)
    ensures CommentedElems(es, true)
    decreases es
  {
    hide Derives, Commented, Gap;
    DerivedLight(es.value, items[0]);
    BlankGap(es.before);
    BlankGap(es.after);
    if es.MoreElems? {
      ElemsLight(es.rest, items[1..]);
    }
  }

  lemma {:induction false} MembersLight(ms: Members, members: seq<JsonMember>)
    requires DerivesMembers(ms, members)
    ensures CommentedMembers(ms, true)
    decreases ms
  {
    hide Derives, Commented, Gap, StringDenotes, ValidString, CStr, Unescape;
    DerivedString(ms.key.raw, members[0].key);
    BlankGap(ms.key.before);
    BlankGap(ms.key.mid);
    BlankGap(ms.key.after);
    DerivedLight(ms.value, members[0].value);
    BlankGap(ms.after);
    if ms.MoreMembers? {
      MembersLight(ms.rest, members[1..]);
    }
  }

  /** A text of characters of the grammar, with blanks and comments, is minified to the same text without them, unless
      a literal ends in a backslash. */
  lemma {:induction false} MinifiedText(before: bytes, s: Syntax, after: bytes)
    requires Gap(before, true) && Commented(s, true) && Gap(after, true)
    requires PlainlyQuoted(s) || (s.SString? && after == [])
    ensures Filter(before + JsonText(s) + after) == JsonText(Bare(s))
  {
    hide Filter, Gap, Commented, Flatten, JsonText, Strip, Bare, PlainlyQuoted, Valid, Meaning;
    SameText(s);
    SameText(Bare(s));
    assert before + JsonText(s) + after == before + (Flatten(s) + after);
    FilterGap(before, true, Flatten(s) + after);
    FilterValue(s, true, after);
    FilterGap(after, true, []);
    assert after + [] == after;
    StripMeans(s, true);
  }

  /** Minifying a JSON text removes its blanks and keeps what cJSON reads in it, unless a literal ends in a
      backslash. */
  lemma {:induction false} JsonTextMinified(before: bytes, s: Syntax, v: JsonValue, after: bytes)
    requires RfcBlank(before) && Derives(s, v) && RfcBlank(after) && Depth(s) <= NESTING_LIMIT
    requires PlainlyQuoted(s) || (s.SString? && after == [])
    ensures var text := before + JsonText(s) + after;
      && Filter(text) == JsonText(Bare(s)) && NulFree(Filter(text))
      && ParseText(Filter(text), true) == Ok(Kept(v), |Filter(text)|)
  {
    hide Filter, Gap, Commented, Flatten, JsonText, Strip, Bare, PlainlyQuoted, Valid, Meaning, Derives, Kept;
    hide ParseText;
    var text := before + JsonText(s) + after;
    BlankGap(before);
    BlankGap(after);
    DerivedLight(s, v);
    DerivationMeans(s, v);
    MinifiedText(before, s, after);
    SameText(s);
    assert [] + before == before;
    JsonTextAccepted([], before, s, v, after);
    var d := Document(false, before, s, after);
    assert FlattenDocument(d) == text;
    assert PlainDocument(d);
    MinifyKeepsTree(d, true);
  }

  // ----- the two layouts of the printer

  /** No string and no key ends in a backslash. */
  predicate PlainStrings(v: Value)
    decreases v
  {
    match v
    case String(s) => s == [] || s[|s| - 1] != 0x5C
    case Array(items) => PlainItems(items)
    case Object(members) => PlainKeys(members)
    case _ => true
  }

  predicate PlainItems(items: seq<Value>)
    decreases items
  {
    items != [] ==> PlainStrings(items[0]) && PlainItems(items[1..])
  }

  predicate PlainKeys(members: seq<Member>)
    decreases members
  {
    members != [] ==>
      var key := members[0].key;
      (key == [] || key[|key| - 1] != 0x5C) && PlainStrings(members[0].value) && PlainKeys(members[1..])
  }

  lemma {:induction false} EscapeEnds(s: bytes)
    ensures EndsPlainly(Escape(s)) <==> s == [] || s[|s| - 1] != 0x5C
  {
    if |s| == 1 {
      assert s[1..] == [] && Escape(s) == EscapeByte(s[0]) + Escape([]);
      assert Escape([]) == [];
      assert Escape(s) == EscapeByte(s[0]);
      LastOfEscape(s[0]);
    } else if |s| > 1 {
      EscapeEnds(s[1..]);
      var rest := Escape(s[1..]);
      assert rest == EscapeByte(s[1]) + Escape(s[1..][1..]);
      assert Escape(s)[|Escape(s)| - 1] == rest[|rest| - 1];
    }
  }

  lemma LastOfEscape(b: byte)
    ensures EscapeByte(b)[|EscapeByte(b)| - 1] == 0x5C <==> b == 0x5C
  {
  }

  /** Of the syntax of a formatted rendering the minifier leaves the syntax of the unformatted one. */
  lemma {:induction false} LayoutStripped(v: Value, f: Style, c: Style, depth: nat, outer: nat)
    requires Integral(v) && !c.formatted
    ensures Strip(SyntaxOf(v, f, depth)) == SyntaxOf(v, c, outer)
    ensures PlainlyQuoted(SyntaxOf(v, f, depth)) <==> PlainStrings(v)
    decreases v
  {
    hide ElemsOf, MembersOf, Filter, EndsPlainly, Escape, ShowInt, StripElems, StripMembers, PlainElems, PlainMembers;
    hide PlainItems, PlainKeys, Layout;
    LayoutFiltered(f, depth);
    UnformattedLayout(c, outer);
    match v
    case String(s) => EscapeEnds(s);
    case Array(items) =>
      if items != [] {
        FilterNothing();
        ItemsStripped(items, f, c, depth + 1, outer + 1, [], []);
      } else {
        FilterNothing();
        NothingPlain();
      }
    case Object(members) =>
      var indent := Layout(f, [NEWLINE] + Tabs(depth));
      if members != [] {
        MembersStripped(members, f, c, depth + 1, outer + 1, indent);
      } else {
        NothingPlain();
      }
    case _ =>
  }

  lemma NothingPlain()
    ensures PlainItems([]) && PlainKeys([])
  {
  }

  lemma {:induction false} LayoutFiltered(f: Style, depth: nat)
    ensures Filter(Layout(f, [NEWLINE] + Tabs(depth))) == []
    ensures Filter(Layout(f, [SPACE])) == [] && Filter(Layout(f, [TAB])) == []
  {
    hide Filter, Gap;
    BlankGap(Layout(f, [NEWLINE] + Tabs(depth)));
    BlankGap(Layout(f, [SPACE]));
    BlankGap(Layout(f, [TAB]));
    FilterGap(Layout(f, [NEWLINE] + Tabs(depth)), true, []);
    FilterGap(Layout(f, [SPACE]), true, []);
    FilterGap(Layout(f, [TAB]), true, []);
  }

  lemma UnformattedLayout(c: Style, depth: nat)
    requires !c.formatted
    ensures Layout(c, [NEWLINE] + Tabs(depth)) == [] && Layout(c, [SPACE]) == [] && Layout(c, [TAB]) == []
  {
  }

  lemma {:induction false} ItemsStripped(items: seq<Value>, f: Style, c: Style, depth: nat, outer: nat,
                                         before: bytes, left: bytes)
    requires items != [] && IntegralItems(items) && !c.formatted && Filter(before) == left
    ensures StripElems(ElemsOf(items, f, depth, before)) == ElemsOf(items, c, outer, left)
    ensures PlainElems(ElemsOf(items, f, depth, before)) <==> PlainItems(items)
    decreases items
  {
    hide Integral, SyntaxOf, Strip, PlainlyQuoted, PlainStrings, Filter, Layout;
    LayoutFiltered(f, depth);
    UnformattedLayout(c, outer);
    FilterNothing();
    NothingPlain();
    LayoutStripped(items[0], f, c, depth, outer);
    if |items| == 1 {
      assert items[1..] == [];
    } else {
      ItemsStripped(items[1..], f, c, depth, outer, Layout(f, [SPACE]), []);
    }
  }

  lemma {:induction false} MembersStripped(members: seq<Member>, f: Style, c: Style, depth: nat, outer: nat,
                                           indent: bytes)
    requires members != [] && IntegralMembers(members) && !c.formatted && Filter(indent) == []
    ensures StripMembers(MembersOf(members, f, depth, indent)) == MembersOf(members, c, outer, [])
    ensures PlainMembers(MembersOf(members, f, depth, indent)) <==> PlainKeys(members)
    decreases members
  {
    hide Integral, SyntaxOf, Strip, PlainlyQuoted, PlainStrings, Filter, Layout, Escape, EndsPlainly;
    LayoutFiltered(f, depth);
    UnformattedLayout(c, outer);
    FilterNothing();
    NothingPlain();
    EscapeEnds(members[0].key);
    LayoutStripped(members[0].value, f, c, depth, outer);
    if |members| == 1 {
      assert members[1..] == [];
    } else {
      MembersStripped(members[1..], f, c, depth, outer, indent);
    }
  }

  /** Minifying the formatted text gives the unformatted text, if no string and no key ends in a backslash. */
  lemma {:induction false} MinifyFormatted(v: Value, f: Style, c: Style)
    requires Integral(v) && f.formatted && !c.formatted && PlainStrings(v)
    ensures Filter(Render(v, f, 0)) == Render(v, c, 0)
  {
    hide Filter, Render, SyntaxOf, Flatten, Strip, PlainlyQuoted, PlainStrings, Integral, Commented, Valid, Meaning;
    hide Depth;
    RenderIsFlatten(v, f, 0);
    RenderIsFlatten(v, c, 0);
    LayoutStripped(v, f, c, 0, 0);
    SyntaxMeans(v, f, 0);
    ValidCommented(SyntaxOf(v, f, 0));
    FilterValue(SyntaxOf(v, f, 0), false, []);
    FilterNothing();
    assert Flatten(SyntaxOf(v, f, 0)) + [] == Flatten(SyntaxOf(v, f, 0));
    assert Flatten(SyntaxOf(v, c, 0)) + [] == Flatten(SyntaxOf(v, c, 0));
  }
}

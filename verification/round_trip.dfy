/** Printing and parsing: what the printer writes for a tree is a document that denotes the tree. */
module RoundTrip {
  import opened Bytes
  import opened Json
  import opened NumberSpec
  import opened StringSpec
  import opened ParseSpec
  import opened Syntax
  import opened RenderSpec
  import opened Documents
  import opened RenderFacts

  // ----- strings

  /** Decoding undoes the spelling of every byte, whatever follows it. */
  lemma {:induction false} DecodeEscapedByte(b: byte, rest: bytes)
    ensures DecodeStep(EscapeByte(b) + rest) == Step([b as byte], |EscapeByte(b)|)
  {
    var s := EscapeByte(b) + rest;
    if b < 32 && b != 8 && b != 9 && b != 10 && b != 12 && b != 13 {
      var hex := s[2..];
      assert hex[0] == 48 && hex[1] == 48 && hex[2] == HexChar(b / 16) && hex[3] == HexChar(b % 16);
      assert HexDigit(HexChar(b / 16)) == b / 16 && HexDigit(HexChar(b % 16)) == b % 16;
      assert Hex4(hex) == b;
    }
  }

  lemma {:induction false} UnescapeEscape(s: bytes)
    ensures Unescape(Escape(s)) == Text(s)
  {
    hide DecodeStep, EscapeByte;
    if s != [] {
      DecodeEscapedByte(s[0], Escape(s[1..]));
      UnescapeEscape(s[1..]);
      assert Drop(Escape(s), |EscapeByte(s[0])|) == Escape(s[1..]);
      assert [s[0]] + s[1..] == s;
    }
  }

  lemma {:induction false} BalancedEscapedByte(b: byte, rest: bytes)
    requires Balanced(rest)
    ensures Balanced(EscapeByte(b) + rest)
  {
    var s := EscapeByte(b) + rest;
    if b == QUOTE || b == BACKSLASH || b < 32 {
      if b < 32 && b != 8 && b != 9 && b != 10 && b != 12 && b != 13 {
        assert s[2..] == [48, 48, HexChar(b / 16), HexChar(b % 16)] + rest;
        PlainBalanced([48, 48, HexChar(b / 16), HexChar(b % 16)], rest);
      } else {
        assert s[2..] == rest;
      }
    } else {
      assert s[1..] == rest;
    }
  }

  lemma {:induction false} BalancedEscape(s: bytes)
    ensures Balanced(Escape(s))
  {
    hide EscapeByte;
    if s != [] {
      BalancedEscape(s[1..]);
      BalancedEscapedByte(s[0], Escape(s[1..]));
    }
  }

  lemma {:induction false} StringRoundTrip(s: cstring)
    ensures ValidString(Escape(s)) && CStr(Unescape(Escape(s)).out) == s
  {
    BalancedEscape(s);
    UnescapeEscape(s);
    CStrOfCString(s);
  }

  // ----- numbers

  lemma {:induction false} StrtodDigits(text: bytes, a: nat)
    requires a == SignEnd(text) < |text| && AllDigits(text[a..])
    ensures Strtod(text) == Numeral(|text|, Decimal(text[0] == MINUS, text[a..], 0, 0))
  {
    hide Decimal, DigitsEnd;
    var n := |text|;
    forall k | a <= k < n ensures IsDigit(text[k]) {
      assert text[k] == text[a..][k - a];
    }
    DigitsEndUnique(text, a, n);
    assert text[a..n] + [] == text[a..];
  }

  lemma {:induction false} NumberRoundTrip(i: int32)
    ensures ValidNumber(ShowInt(i)) && Strtod(ShowInt(i)) == Numeral(|ShowInt(i)|, i as real)
    ensures Saturate(i as real) == i
  {
    hide Strtod;
    var n: int := if i < 0 then -(i as int) else i;
    var text := ShowInt(i);
    ShowNatValue(n);
    var a := if i < 0 then 1 else 0;
    assert text[a..] == ShowNat(n);
    assert IsDigit(ShowNat(n)[0]);
    StrtodDigits(text, a);
    assert Decimal(text[0] == MINUS, text[a..], 0, 0) == i as real;
    forall k | 0 <= k < |text| ensures IsNumberChar(text[k]) {
      if k >= a {
        assert text[k] == ShowNat(n)[k - a];
      }
    }
  }

  // ----- trees

  /** Trees of JSON values whose numbers are all integers that fit their valueint. */
  ghost predicate Integral(v: Value)
    decreases v
  {
    match v
    case Number(d, i) => d == i as real
    case Array(items) => IntegralItems(items)
    case Object(members) => IntegralMembers(members)
    case Raw(_) => false
    case Invalid => false
    case _ => true
  }

  ghost predicate IntegralItems(items: seq<Value>)
    decreases items
  {
    items != [] ==> Integral(items[0]) && IntegralItems(items[1..])
  }

  ghost predicate IntegralMembers(members: seq<Member>)
    decreases members
  {
    members != [] ==> Integral(members[0].value) && IntegralMembers(members[1..])
  }

  /** The syntax tree of the rendering of an integral value. */
  function SyntaxOf(v: Value, style: Style, depth: nat): Syntax
    decreases v
  {
    match v
    case False => SFalse
    case True => STrue
    case Number(d, i) => SNumber(ShowInt(i))
    case String(s) => SString(Escape(s))
    case Array(items) =>
      if items == [] then SEmptyArray([]) else SArray(ElemsOf(items, style, depth + 1, []))
    case Object(members) =>
      var indent := Layout(style, [NEWLINE] + Tabs(depth));
      if members == [] then SEmptyObject(indent) else SObject(MembersOf(members, style, depth + 1, indent))
    case _ => SNull
  }

  function ElemsOf(items: seq<Value>, style: Style, depth: nat, before: bytes): Elems
    requires items != []
    decreases items
  {
    var first := SyntaxOf(items[0], style, depth);
    if |items| == 1 then LastElem(before, first, [])
    else MoreElems(before, first, [], ElemsOf(items[1..], style, depth, Layout(style, [SPACE])))
  }

  function KeyOf(key: bytes, style: Style, depth: nat): Key {
    Key(Layout(style, [NEWLINE] + Tabs(depth)), Escape(key), [], Layout(style, [TAB]))
  }

  function MembersOf(members: seq<Member>, style: Style, depth: nat, indent: bytes): Members
    requires members != []
    decreases members
  {
    var key := KeyOf(members[0].key, style, depth);
    var value := SyntaxOf(members[0].value, style, depth);
    if |members| == 1 then LastMember(key, value, indent)
    else MoreMembers(key, value, [], MembersOf(members[1..], style, depth, indent))
  }

  lemma {:induction false} SyntaxMeans(v: Value, style: Style, depth: nat)
    requires Integral(v)
    ensures Valid(SyntaxOf(v, style, depth)) && Meaning(SyntaxOf(v, style, depth)) == v
    ensures Depth(SyntaxOf(v, style, depth)) == Nesting(v)
    decreases v
  {
    hide ElemsOf, MembersOf, ValidString, ValidNumber, Unescape, Strtod, Escape, ShowInt, Saturate,
      ValidElems, ValidMembers, ElemsMeaning, MembersMeaning;
    match v
    case Number(d, i) => NumberRoundTrip(i);
    case String(s) => StringRoundTrip(s);
    case Array(items) => if items != [] { ElemsMean(items, style, depth + 1, []); }
    case Object(members) =>
      if members != [] { MembersMean(members, style, depth + 1, Layout(style, [NEWLINE] + Tabs(depth))); }
    case _ =>
  }

  lemma {:induction false} ElemsMean(items: seq<Value>, style: Style, depth: nat, before: bytes)
    requires items != [] && IntegralItems(items) && Blank(before)
    ensures ValidElems(ElemsOf(items, style, depth, before))
    ensures ElemsMeaning(ElemsOf(items, style, depth, before)) == items
    ensures ElemsDepth(ElemsOf(items, style, depth, before)) == NestingItems(items)
    decreases items
  {
    hide Valid, Meaning, Depth, SyntaxOf, Integral, Nesting;
    SyntaxMeans(items[0], style, depth);
    if |items| == 1 {
      assert items == [items[0]];
      assert NestingItems(items[1..]) == 0;
    } else {
      ElemsMean(items[1..], style, depth, Layout(style, [SPACE]));
      assert items == [items[0]] + items[1..];
    }
  }

  lemma {:induction false} KeyMeans(key: cstring, style: Style, depth: nat)
    ensures ValidKey(KeyOf(key, style, depth)) && KeyMeaning(KeyOf(key, style, depth)) == key
  {
    hide ValidString, Unescape, Escape;
    StringRoundTrip(key);
  }

  lemma {:induction false} MembersMean(members: seq<Member>, style: Style, depth: nat, indent: bytes)
    requires members != [] && IntegralMembers(members) && Blank(indent)
    ensures ValidMembers(MembersOf(members, style, depth, indent))
    ensures MembersMeaning(MembersOf(members, style, depth, indent)) == members
    ensures MembersDepth(MembersOf(members, style, depth, indent)) == NestingMembers(members)
    decreases members
  {
    hide Valid, Meaning, Depth, SyntaxOf, Integral, Nesting, ValidKey, KeyMeaning, KeyOf;
    SyntaxMeans(members[0].value, style, depth);
    KeyMeans(members[0].key, style, depth);
    if |members| == 1 {
      assert members == [members[0]];
      assert NestingMembers(members[1..]) == 0;
    } else {
      MembersMean(members[1..], style, depth, indent);
      assert members == [members[0]] + members[1..];
    }
  }

  lemma {:induction false} RenderIsFlatten(v: Value, style: Style, depth: nat)
    requires Integral(v)
    ensures Render(v, style, depth) == Flatten(SyntaxOf(v, style, depth))
    decreases v
  {
    hide ElemsOf, MembersOf, Escape, ShowInt, FlattenElems, FlattenMembers, RenderItems, RenderMembers;
    match v
    case Array(items) =>
      if items == [] {
        assert RenderItems([], style, depth + 1) == [] by { ItemsNil(style, depth + 1); }
      } else {
        ItemsAreElems(items, style, depth + 1, []);
      }
    case Object(members) =>
      var nl := Layout(style, [NEWLINE]);
      var indent := Layout(style, Tabs(depth));
      assert Layout(style, [NEWLINE] + Tabs(depth)) == nl + indent;
      var rest := RenderMembers(members, style, depth + 1);
      assert Render(v, style, depth) == [LBRACE] + (nl + (rest + (indent + [RBRACE])));
      if members == [] {
        MembersNil(style, depth + 1);
        assert nl + ([] + (indent + [RBRACE])) == (nl + indent) + [RBRACE];
      } else {
        MembersAreMembers(members, style, depth + 1, depth);
      }
    case _ =>
  }

  lemma ItemsNil(style: Style, depth: nat)
    ensures RenderItems([], style, depth) == []
  {
  }

  lemma MembersNil(style: Style, depth: nat)
    ensures RenderMembers([], style, depth) == []
  {
  }

  lemma {:induction false} ItemsAreElems(items: seq<Value>, style: Style, depth: nat, before: bytes)
    requires items != [] && IntegralItems(items)
    ensures before + (RenderItems(items, style, depth) + [RBRACKET])
      == FlattenElems(ElemsOf(items, style, depth, before))
    decreases items
  {
    hide Render, Flatten, SyntaxOf, Integral;
    RenderIsFlatten(items[0], style, depth);
    var first := Render(items[0], style, depth);
    var more := RenderItems(items[1..], style, depth);
    if |items| == 1 {
      ItemsNil(style, depth);
      assert before + ((first + ([] + [])) + [RBRACKET]) == before + (first + ([] + [RBRACKET]));
    } else {
      var space := Layout(style, [SPACE]);
      ItemsAreElems(items[1..], style, depth, space);
      assert before + ((first + (([COMMA] + space) + more)) + [RBRACKET])
        == before + (first + ([] + ([COMMA] + (space + (more + [RBRACKET])))));
    }
  }

  lemma {:induction false} KeyIsKey(key: bytes, style: Style, depth: nat)
    ensures Layout(style, [NEWLINE]) + KeyText(key, style, depth) == FlattenKey(KeyOf(key, style, depth))
  {
    hide Escape;
    var text := RenderString(key);
    var end := [COLON] + Layout(style, [TAB]);
    var nl := Layout(style, [NEWLINE]);
    var tabs := Layout(style, Tabs(depth));
    assert Layout(style, [NEWLINE] + Tabs(depth)) == nl + tabs;
    assert nl + (tabs + (text + end)) == (nl + tabs) + (text + ([] + end));
  }

  lemma RegroupLast(nl: bytes, key: bytes, value: bytes, tabs: bytes)
    ensures nl + ((key + (value + (([] + nl) + []))) + (tabs + [RBRACE]))
      == (nl + key) + ([] + (value + ((nl + tabs) + [RBRACE])))
  {
  }

  lemma RegroupMore(nl: bytes, key: bytes, value: bytes, more: bytes, close: bytes)
    ensures nl + ((key + (value + (([COMMA] + nl) + more))) + close)
      == (nl + key) + ([] + (value + ([] + ([COMMA] + (nl + (more + close))))))
  {
  }

  lemma {:induction false} MembersAreMembers(members: seq<Member>, style: Style, depth: nat, outer: nat)
    requires members != [] && IntegralMembers(members)
    ensures var indent := Layout(style, [NEWLINE] + Tabs(outer));
      Layout(style, [NEWLINE]) + (RenderMembers(members, style, depth) + (Layout(style, Tabs(outer)) + [RBRACE]))
        == FlattenMembers(MembersOf(members, style, depth, indent))
    decreases members
  {
    hide Render, Flatten, SyntaxOf, Integral, KeyText, KeyOf, FlattenKey, Layout;
    var nl := Layout(style, [NEWLINE]);
    var tabs := Layout(style, Tabs(outer));
    var key := KeyText(members[0].key, style, depth);
    var value := Render(members[0].value, style, depth);
    LayoutJoin(style, [NEWLINE], Tabs(outer));
    RenderIsFlatten(members[0].value, style, depth);
    KeyIsKey(members[0].key, style, depth);
    if |members| == 1 {
      MembersNil(style, depth);
      RegroupLast(nl, key, value, tabs);
    } else {
      MembersAreMembers(members[1..], style, depth, outer);
      RegroupMore(nl, key, value, RenderMembers(members[1..], style, depth), tabs + [RBRACE]);
    }
  }

  lemma LayoutJoin(style: Style, a: bytes, b: bytes)
    ensures Layout(style, a + b) == Layout(style, a) + Layout(style, b)
  {
  }

  lemma {:induction false} IntegralPrintable(v: Value, style: Style)
    requires Integral(v)
    ensures Printable(v, style)
    decreases v
  {
    hide IntegralItems, IntegralMembers, PrintableItems, PrintableMembers;
    match v
    case Number(d, i) => ShowIntShort(i);
    case Array(items) => ItemsPrintable(items, style);
    case Object(members) => MembersPrintable(members, style);
    case _ =>
  }

  lemma {:induction false} ItemsPrintable(items: seq<Value>, style: Style)
    requires IntegralItems(items)
    ensures PrintableItems(items, style)
    decreases items
  {
    if items != [] {
      IntegralPrintable(items[0], style);
      ItemsPrintable(items[1..], style);
    }
  }

  lemma {:induction false} MembersPrintable(members: seq<Member>, style: Style)
    requires IntegralMembers(members)
    ensures PrintableMembers(members, style)
    decreases members
  {
    if members != [] {
      IntegralPrintable(members[0].value, style);
      MembersPrintable(members[1..], style);
    }
  }

  /** Printing a tree and parsing the text gives the tree back, formatted or not. */
  lemma {:induction false} PrintThenParse(v: Value, style: Style)
    requires Integral(v) && Nesting(v) <= NESTING_LIMIT
    ensures NulFree(Render(v, style, 0))
    ensures ParseText(Render(v, style, 0), true) == Ok(v, |Render(v, style, 0)|)
  {
    hide Render, SyntaxOf, Valid, Meaning, Flatten;
    SyntaxMeans(v, style, 0);
    RenderIsFlatten(v, style, 0);
    var d := Document(false, [], SyntaxOf(v, style, 0), []);
    assert [] + ([] + (Flatten(d.value) + [])) == Flatten(d.value);
    RenderNulFree(v, style, 0);
    DocumentAccepted(Render(v, style, 0), d);
  }
}

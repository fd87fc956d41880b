/** The two layouts of the printer, written down line by line. */
module Layouts {
  import opened Bytes
  import opened Json
  import opened RenderSpec

  /** The parts with a separator between any two of them. */
  function Joined(parts: seq<bytes>, separator: bytes): bytes {
    if parts == [] then []
    else if |parts| == 1 then parts[0]
    else parts[0] + separator + Joined(parts[1..], separator)
  }

  /** Text on one line, without a blank outside strings. */
  function Compact(v: Value, style: Style): bytes
    decreases v
  {
    match v
    case Null => Ascii("null")
    case False => Ascii("false")
    case True => Ascii("true")
    case Number(d, i) => if d == i as real then ShowInt(i) else style.double(d)
    case String(s) => Ascii("\"") + Escape(s) + Ascii("\"")
    case Array(items) => Ascii("[") + Joined(CompactItems(items, style), Ascii(",")) + Ascii("]")
    case Object(members) => Ascii("{") + Joined(CompactMembers(members, style), Ascii(",")) + Ascii("}")
    case Raw(text) => text
    case Invalid => []
  }

  function CompactItems(items: seq<Value>, style: Style): seq<bytes>
    decreases items
  {
    if items == [] then [] else [Compact(items[0], style)] + CompactItems(items[1..], style)
  }

  function CompactMembers(members: seq<Member>, style: Style): seq<bytes>
    decreases members
  {
    if members == [] then []
    else
      [Ascii("\"") + Escape(members[0].key) + Ascii("\":") + Compact(members[0].value, style)]
        + CompactMembers(members[1..], style)
  }

  /** The elements of an array on one line; every member of an object on a line of its own, indented by one tab more
      than the line on which the object starts would be; the closing brace indented like that line. */
  function Pretty(v: Value, style: Style, indent: bytes): bytes
    decreases v
  {
    match v
    case Null => Ascii("null")
    case False => Ascii("false")
    case True => Ascii("true")
    case Number(d, i) => if d == i as real then ShowInt(i) else style.double(d)
    case String(s) => Ascii("\"") + Escape(s) + Ascii("\"")
    case Array(items) => Ascii("[") + Joined(PrettyItems(items, style, indent + Ascii("\t")), Ascii(", ")) + Ascii("]")
    case Object(members) =>
      if members == [] then Ascii("{\n") + indent + Ascii("}")
      else
        Ascii("{\n") + Joined(PrettyMembers(members, style, indent + Ascii("\t")), Ascii(",\n")) + Ascii("\n")
          + indent + Ascii("}")
    case Raw(text) => text
    case Invalid => []
  }

  function PrettyItems(items: seq<Value>, style: Style, indent: bytes): seq<bytes>
    decreases items
  {
    if items == [] then [] else [Pretty(items[0], style, indent)] + PrettyItems(items[1..], style, indent)
  }

  function PrettyMembers(members: seq<Member>, style: Style, indent: bytes): seq<bytes>
    decreases members
  {
    if members == [] then []
    else
      [indent + Ascii("\"") + Escape(members[0].key) + Ascii("\":\t") + Pretty(members[0].value, style, indent)]
        + PrettyMembers(members[1..], style, indent)
  }

  // ----- the rendering has these layouts

  lemma Characters()
    ensures Ascii("[") == [LBRACKET] && Ascii("]") == [RBRACKET] && Ascii("{") == [LBRACE] && Ascii("}") == [RBRACE]
    ensures Ascii(",") == [COMMA] && Ascii(", ") == [COMMA, SPACE] && Ascii(",\n") == [COMMA, NEWLINE]
    ensures Ascii("\"") == [QUOTE] && Ascii("\":") == [QUOTE, COLON] && Ascii("\":\t") == [QUOTE, COLON, TAB]
    ensures Ascii("{\n") == [LBRACE, NEWLINE] && Ascii("\n") == [NEWLINE] && Ascii("\t") == [TAB]
    ensures Ascii("null") == NULL_TEXT && Ascii("true") == TRUE_TEXT && Ascii("false") == FALSE_TEXT
  {
  }

  lemma {:induction false} JoinedMore(part: bytes, parts: seq<bytes>, separator: bytes)
    ensures Joined([part] + parts, separator)
      == if parts == [] then part else part + separator + Joined(parts, separator)
  {
    assert ([part] + parts)[1..] == parts;
  }

  lemma {:induction false} RenderCompact(v: Value, style: Style, depth: nat)
    requires !style.formatted
    ensures Render(v, style, depth) == Compact(v, style)
    decreases v
  {
    hide Escape, RenderItems, RenderMembers, CompactItems, CompactMembers, Ascii;
    Characters();
    match v
    case Array(items) => ItemsCompact(items, style, depth + 1);
    case Object(members) => MembersCompact(members, style, depth + 1);
    case _ =>
  }

  lemma {:induction false} ItemsCompact(items: seq<Value>, style: Style, depth: nat)
    requires !style.formatted
    ensures RenderItems(items, style, depth) == Joined(CompactItems(items, style), Ascii(","))
    ensures CompactItems(items, style) == [] <==> items == []
    decreases items
  {
    hide Render, Compact, Ascii, Joined;
    Characters();
    JoinedNothing(Ascii(","));
    if items != [] {
      RenderCompact(items[0], style, depth);
      ItemsCompact(items[1..], style, depth);
      JoinedMore(Compact(items[0], style), CompactItems(items[1..], style), Ascii(","));
      assert [COMMA] + [] == [COMMA];
      var a, b := Render(items[0], style, depth), RenderItems(items[1..], style, depth);
      assert a + ([COMMA] + b) == a + [COMMA] + b && a + ([] + []) == a;
    }
  }

  lemma JoinedNothing(separator: bytes)
    ensures Joined([], separator) == []
  {
  }

  lemma {:induction false} MembersCompact(members: seq<Member>, style: Style, depth: nat)
    requires !style.formatted
    ensures RenderMembers(members, style, depth) == Joined(CompactMembers(members, style), Ascii(","))
    ensures CompactMembers(members, style) == [] <==> members == []
    decreases members
  {
    hide Render, Compact, Ascii, Joined, Escape;
    Characters();
    JoinedNothing(Ascii(","));
    if members != [] {
      var m := members[0];
      RenderCompact(m.value, style, depth);
      MembersCompact(members[1..], style, depth);
      var a, b := Render(m.value, style, depth), RenderMembers(members[1..], style, depth);
      var part := [QUOTE] + Escape(m.key) + [QUOTE, COLON] + a;
      JoinedMore(part, CompactMembers(members[1..], style), Ascii(","));
      CompactLine(m.key, a, b, style, depth);
    }
  }

  lemma CompactLine(key: bytes, a: bytes, b: bytes, style: Style, depth: nat)
    requires !style.formatted
    ensures KeyText(key, style, depth) + (a + (MemberEnd(false, style) + b))
      == ([QUOTE] + Escape(key) + [QUOTE, COLON] + a) + [COMMA] + b
    ensures KeyText(key, style, depth) + (a + (MemberEnd(true, style) + []))
      == [QUOTE] + Escape(key) + [QUOTE, COLON] + a
  {
    hide Escape;
  }

  lemma MoreTabs(depth: nat)
    ensures Tabs(depth) + [TAB] == Tabs(depth + 1)
  {
  }

  lemma {:induction false} RenderPretty(v: Value, style: Style, depth: nat)
    requires style.formatted
    ensures Render(v, style, depth) == Pretty(v, style, Tabs(depth))
    decreases v
  {
    hide Escape, RenderItems, RenderMembers, PrettyItems, PrettyMembers, Ascii, Joined, Tabs;
    Characters();
    MoreTabs(depth);
    match v
    case Array(items) => ItemsPretty(items, style, depth + 1);
    case Object(members) =>
      MembersPretty(members, style, depth + 1);
      var body, tabs := Joined(PrettyMembers(members, style, Tabs(depth + 1)), [COMMA, NEWLINE]), Tabs(depth);
      assert [LBRACE] + [NEWLINE] == [LBRACE, NEWLINE];
      assert [LBRACE, NEWLINE] + ((body + [NEWLINE]) + (tabs + [RBRACE]))
        == [LBRACE, NEWLINE] + body + [NEWLINE] + tabs + [RBRACE];
      assert [LBRACE, NEWLINE] + ([] + (tabs + [RBRACE])) == [LBRACE, NEWLINE] + tabs + [RBRACE];
    case _ =>
  }

  /** What is printed: the one layout or the other. */
  lemma {:induction false} RenderLayout(v: Value, style: Style)
    ensures Render(v, style, 0) == if style.formatted then Pretty(v, style, []) else Compact(v, style)
  {
    hide Render, Pretty, Compact;
    if style.formatted {
      RenderPretty(v, style, 0);
      assert Tabs(0) == [];
    } else {
      RenderCompact(v, style, 0);
    }
  }

  lemma {:induction false} ItemsPretty(items: seq<Value>, style: Style, depth: nat)
    requires style.formatted
    ensures RenderItems(items, style, depth) == Joined(PrettyItems(items, style, Tabs(depth)), Ascii(", "))
    ensures PrettyItems(items, style, Tabs(depth)) == [] <==> items == []
    decreases items
  {
    hide Render, Pretty, Ascii, Joined, Tabs;
    Characters();
    JoinedNothing(Ascii(", "));
    if items != [] {
      RenderPretty(items[0], style, depth);
      ItemsPretty(items[1..], style, depth);
      JoinedMore(Pretty(items[0], style, Tabs(depth)), PrettyItems(items[1..], style, Tabs(depth)), Ascii(", "));
      assert [COMMA] + [SPACE] == [COMMA, SPACE];
      var a, b := Render(items[0], style, depth), RenderItems(items[1..], style, depth);
      assert a + ([COMMA, SPACE] + b) == a + [COMMA, SPACE] + b && a + ([] + []) == a;
    }
  }

  lemma {:induction false} MembersPretty(members: seq<Member>, style: Style, depth: nat)
    requires style.formatted
    ensures RenderMembers(members, style, depth)
      == if members == [] then [] else Joined(PrettyMembers(members, style, Tabs(depth)), Ascii(",\n")) + [NEWLINE]
    ensures PrettyMembers(members, style, Tabs(depth)) == [] <==> members == []
    decreases members
  {
    hide Render, Pretty, Ascii, Joined, Escape, Tabs;
    Characters();
    if members != [] {
      var m := members[0];
      RenderPretty(m.value, style, depth);
      MembersPretty(members[1..], style, depth);
      var a, b := Render(m.value, style, depth), RenderMembers(members[1..], style, depth);
      var part := Tabs(depth) + [QUOTE] + Escape(m.key) + [QUOTE, COLON, TAB] + a;
      var rest := PrettyMembers(members[1..], style, Tabs(depth));
      JoinedMore(part, rest, Ascii(",\n"));
      PrettyLine(m.key, a, b, style, depth);
      if |members| > 1 {
        var more := Joined(rest, Ascii(",\n"));
        assert part + [COMMA, NEWLINE] + (more + [NEWLINE]) == (part + [COMMA, NEWLINE] + more) + [NEWLINE];
      }
    }
  }

  lemma PrettyLine(key: bytes, a: bytes, b: bytes, style: Style, depth: nat)
    requires style.formatted
    ensures KeyText(key, style, depth) + (a + (MemberEnd(false, style) + b))
      == (Tabs(depth) + [QUOTE] + Escape(key) + [QUOTE, COLON, TAB] + a) + [COMMA, NEWLINE] + b
    ensures KeyText(key, style, depth) + (a + (MemberEnd(true, style) + []))
      == (Tabs(depth) + [QUOTE] + Escape(key) + [QUOTE, COLON, TAB] + a) + [NEWLINE]
  {
    hide Escape, Tabs;
  }
}

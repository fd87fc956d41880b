/** The text the printer produces, as a function of the tree. */
module RenderSpec {
  import opened Bytes
  import opened Json

  /** Layout, and what sprintf writes for a number whose valuedouble and valueint differ. */
  datatype Style = Style(formatted: bool, double: real -> cstring)

  function HexChar(n: nat): byte
    requires n < 16
  {
    if n < 10 then 48 + n else 87 + n
  }

  /** How print_string_ptr spells one byte. */
  function EscapeByte(b: byte): (r: bytes)
    ensures 1 <= |r| <= 6
  {
    if b == QUOTE then [BACKSLASH, QUOTE]
    else if b == BACKSLASH then [BACKSLASH, BACKSLASH]
    else if b >= 32 then [b]
    else if b == 8 then [BACKSLASH, LOWER_B]
    else if b == 12 then [BACKSLASH, LOWER_F]
    else if b == 10 then [BACKSLASH, LOWER_N]
    else if b == 13 then [BACKSLASH, LOWER_R]
    else if b == 9 then [BACKSLASH, LOWER_T]
    else [BACKSLASH, LOWER_U, 48, 48, HexChar(b / 16), HexChar(b % 16)]
  }

  function Escape(s: bytes): bytes {
    if s == [] then [] else EscapeByte(s[0]) + Escape(s[1..])
  }

  function RenderString(s: bytes): bytes {
    [QUOTE] + (Escape(s) + [QUOTE])
  }

  /** "%u" */
  function ShowNat(n: nat): (r: bytes)
    ensures r != []
  {
    if n < 10 then [48 + n] else ShowNat(n / 10) + [48 + n % 10]
  }

  /** "%d" */
  function ShowInt(i: int): bytes {
    if i < 0 then [MINUS] + ShowNat(-i) else ShowNat(i)
  }

  function RenderNumber(d: real, i: int32, style: Style): bytes {
    if d == i as real then ShowInt(i) else style.double(d)
  }

  function Tabs(n: nat): (r: bytes)
    ensures |r| == n
    ensures forall i :: 0 <= i < n ==> r[i] == TAB
  {
    seq(n, _ => TAB)
  }

  /** `s` in formatted output, nothing otherwise. */
  function Layout(style: Style, s: bytes): bytes {
    if style.formatted then s else []
  }

  /** The rendering of `v` while the printer stands at nesting depth `depth`. */
  function Render(v: Value, style: Style, depth: nat): bytes
    decreases v
  {
    match v
    case Null => NULL_TEXT
    case False => FALSE_TEXT
    case True => TRUE_TEXT
    case Number(d, i) => RenderNumber(d, i, style)
    case String(s) => RenderString(s)
    case Array(items) => [LBRACKET] + (RenderItems(items, style, depth + 1) + [RBRACKET])
    case Object(members) =>
      ([LBRACE] + Layout(style, [NEWLINE]))
        + (RenderMembers(members, style, depth + 1) + (Layout(style, Tabs(depth)) + [RBRACE]))
    case Raw(text) => text
    case Invalid => []
  }

  function ItemSeparator(style: Style): bytes {
    [COMMA] + Layout(style, [SPACE])
  }

  function RenderItems(items: seq<Value>, style: Style, depth: nat): bytes
    decreases items
  {
    if items == [] then []
    else
      Render(items[0], style, depth)
        + ((if |items| > 1 then ItemSeparator(style) else []) + RenderItems(items[1..], style, depth))
  }

  function KeyText(key: bytes, style: Style, depth: nat): bytes {
    Layout(style, Tabs(depth)) + (RenderString(key) + ([COLON] + Layout(style, [TAB])))
  }

  function MemberEnd(last: bool, style: Style): bytes {
    (if last then [] else [COMMA]) + Layout(style, [NEWLINE])
  }

  function RenderMembers(members: seq<Member>, style: Style, depth: nat): bytes
    decreases members
  {
    if members == [] then []
    else
      KeyText(members[0].key, style, depth)
        + (Render(members[0].value, style, depth)
        + (MemberEnd(|members| == 1, style) + RenderMembers(members[1..], style, depth)))
  }

  // ----- trees the printer can print

  /** print_number keeps the text in 26 bytes, terminator included. */
  predicate PrintableNumber(d: real, i: int32, style: Style) {
    |RenderNumber(d, i, style)| <= 25
  }

  predicate Printable(v: Value, style: Style)
    decreases v
  {
    match v
    case Number(d, i) => PrintableNumber(d, i, style)
    case Array(items) => PrintableItems(items, style)
    case Object(members) => PrintableMembers(members, style)
    case Invalid => false
    case _ => true
  }

  predicate PrintableItems(items: seq<Value>, style: Style)
    decreases items
  {
    items != [] ==> Printable(items[0], style) && PrintableItems(items[1..], style)
  }

  predicate PrintableMembers(members: seq<Member>, style: Style)
    decreases members
  {
    members != [] ==> Printable(members[0].value, style) && PrintableMembers(members[1..], style)
  }
}

module RenderFacts {
  import opened Bytes
  import opened Json
  import opened NumberSpec
  import opened Decimals
  import opened RenderSpec

  ghost predicate LowerHexDigit(b: byte) {
    exists d :: 0 <= d < 16 && b as int == LOWER_HEX[d] as int
  }

  /** `%x` writes lower-case digits. */
  lemma {:induction false} LowerDigit(d: nat)
    requires d < 16
    ensures HexChar(d) as int == LOWER_HEX[d] as int && LowerHexDigit(HexChar(d)) && DigitSpells(HexChar(d), d)
  {
    assert LOWER_HEX[d] as int == if d < 10 then 48 + d else 87 + d;
  }

  lemma {:induction false} ShowNatValue(n: nat)
    ensures AllDigits(ShowNat(n)) && DigitsValue(ShowNat(n)) == n
  {
    if n < 10 {
      assert [48 + n][..0] == [];
      assert DigitsValue([]) == 0;
    } else {
      ShowNatValue(n / 10);
      var s := ShowNat(n);
      assert s[..|s| - 1] == ShowNat(n / 10);
    }
  }

  lemma {:induction false} ShowNatTrim(n: nat)
    ensures Trim(ShowNat(n)) && Places(ShowNat(n)) == n
  {
    ShowNatValue(n);
    PlacesValue(ShowNat(n));
    ShowNatHead(n);
  }

  lemma {:induction false} ShowNatHead(n: nat)
    ensures ShowNat(n)[0] == 48 <==> n == 0
  {
    if n >= 10 {
      ShowNatHead(n / 10);
    }
  }

  /** A minus sign exactly in front of negative numbers, and digits without superfluous zeros. */
  ghost predicate CanonicalInt(text: bytes, i: int) {
    if i < 0 then text != [] && text[0] == 0x2D && Trim(text[1..]) && Places(text[1..]) == -i
    else Trim(text) && Places(text) == i
  }

  /** Digits, perhaps behind a minus sign, that say `i`. */
  ghost predicate SaysInt(text: bytes, i: int) {
    || (text != [] && Numerals(text) && Places(text) == i)
    || (|text| > 1 && text[0] == 0x2D && Numerals(text[1..]) && -(Places(text[1..]) as int) == i)
  }

  /** The canonical text is the only one of its kind, and the shortest that says the number. */
  lemma {:induction false} IntCanonical(i: int, other: bytes)
    ensures CanonicalInt(ShowInt(i), i)
    ensures CanonicalInt(other, i) ==> other == ShowInt(i)
    ensures SaysInt(other, i) ==> |ShowInt(i)| <= |other|
  {
    hide ShowNat, Places, Trim;
    var n: int := if i < 0 then -i else i;
    var text := ShowInt(i);
    ShowNatTrim(n);
    assert i < 0 ==> text[1..] == ShowNat(n);
    if CanonicalInt(other, i) {
      if i < 0 {
        NotEmpty(other[1..]);
        TrimShortest(ShowNat(n), other[1..]);
        assert other == [other[0]] + other[1..];
      } else {
        NotEmpty(other);
        TrimShortest(ShowNat(n), other);
      }
    }
    if SaysInt(other, i) {
      var digits := if other != [] && Numerals(other) && Places(other) == i then other else other[1..];
      TrimShortest(ShowNat(n), digits);
    }
  }

  lemma NotEmpty(s: bytes)
    requires Trim(s)
    ensures s != [] && Numerals(s)
  {
  }

  lemma {:induction false} ShowNatLength(n: nat, k: nat, bound: nat)
    requires k >= 1 && n < bound && bound == Power10(k)
    ensures |ShowNat(n)| <= k
  {
    if n >= 10 {
      assert k >= 2;
      ShowNatLength(n / 10, k - 1, bound / 10);
    }
  }

  function Power10(k: nat): nat {
    if k == 0 then 1 else 10 * Power10(k - 1)
  }

  lemma {:induction false} ShowIntShort(i: int32)
    ensures NulFree(ShowInt(i)) && |ShowInt(i)| <= 11
  {
    var n: int := if i < 0 then -(i as int) else i;
    ShowNatValue(n);
    assert Power10(5) == 100000;
    assert Power10(10) == 10000000000;
    ShowNatLength(n, 10, 10000000000);
  }

  lemma {:induction false} EscapeNulFree(s: cstring)
    ensures NulFree(Escape(s))
  {
    if s != [] {
      EscapeNulFree(s[1..]);
    }
  }

  lemma {:induction false} RenderNulFree(v: Value, style: Style, depth: nat)
    ensures NulFree(Render(v, style, depth))
    decreases v
  {
    hide Escape, ShowInt, RenderItems, RenderMembers;
    match v
    case Number(d, i) => ShowIntShort(i);
    case String(s) => EscapeNulFree(s);
    case Array(items) => ItemsNulFree(items, style, depth + 1);
    case Object(members) => MembersNulFree(members, style, depth + 1);
    case _ =>
  }

  lemma {:induction false} ItemsNulFree(items: seq<Value>, style: Style, depth: nat)
    ensures NulFree(RenderItems(items, style, depth))
    decreases items
  {
    hide Render;
    if items != [] {
      RenderNulFree(items[0], style, depth);
      ItemsNulFree(items[1..], style, depth);
    }
  }

  lemma {:induction false} MembersNulFree(members: seq<Member>, style: Style, depth: nat)
    ensures NulFree(RenderMembers(members, style, depth))
    decreases members
  {
    hide Render, Escape;
    if members != [] {
      RenderNulFree(members[0].value, style, depth);
      EscapeNulFree(members[0].key);
      MembersNulFree(members[1..], style, depth);
    }
  }
}

/** What the printer writes is JSON: a text of the grammar of RFC 8259 that denotes the printed value. */
module PrintedJson {
  import opened Bytes
  import opened Json
  import opened Decimals
  import opened StringSpec
  import opened Syntax
  import opened RenderSpec
  import opened RenderFacts
  import opened RoundTrip
  import opened Rfc8259

  // ----- strings

  function HexOf(b: byte): bytes {
    [48, 48, HexChar(b / 16), HexChar(b % 16)]
  }

  /** The character of the grammar that print_string_ptr writes for a byte. */
  function CharOf(b: byte): Char {
    if b == 0x22 || b == 0x5C then Short(b)
    else if b >= 0x20 then Unescaped(b)
    else if b == 0x08 then Short(0x62)
    else if b == 0x0C then Short(0x66)
    else if b == 0x0A then Short(0x6E)
    else if b == 0x0D then Short(0x72)
    else if b == 0x09 then Short(0x74)
    else Escaped(b, HexOf(b))
  }

  lemma {:induction false} HexOfSpells(b: byte)
    ensures HexSpells(HexOf(b), b)
  {
    hide DigitSpells, HexChar;
    LowerDigit(0);
    LowerDigit(b / 16);
    LowerDigit(b % 16);
    var hex := HexOf(b);
    assert HexChar(0) == 48 by { ZeroChar(); }
    assert DigitSpells(hex[0], 0) && DigitSpells(hex[1], 0);
    assert DigitSpells(hex[2], b / 16) && DigitSpells(hex[3], b % 16);
    assert b as int == 0 * 0x1000 + 0 * 0x100 + (b / 16) * 0x10 + b % 16;
  }

  lemma ZeroChar()
    ensures HexChar(0) == 48
  {
  }

  /** The spelling of a byte is a character of the grammar that denotes it, with lower-case digits. */
  lemma {:induction false} EscapeIsChar(b: byte)
    ensures WellFormed(CharOf(b)) && CharMeaning(CharOf(b)) == [b] && SpellChar(CharOf(b)) == EscapeByte(b)
    ensures CharOf(b).Escaped? ==> forall i :: 2 <= i < 6 ==> LowerHexDigit(EscapeByte(b)[i])
  {
    hide HexSpells, LowerHexDigit;
    HexOfSpells(b);
    if CharOf(b).Escaped? {
      LowerDigit(0);
      LowerDigit(b / 16);
      LowerDigit(b % 16);
    }
  }

  /** The grammar has no shorter way to write it. */
  lemma {:induction false} EscapeShortest(b: byte, ch: Char)
    requires WellFormed(ch) && CharMeaning(ch) == [b]
    ensures |EscapeByte(b)| <= |SpellChar(ch)|
  {
    hide DigitSpells;
  }

  function CharsOf(s: bytes): seq<Char> {
    if s == [] then [] else [CharOf(s[0])] + CharsOf(s[1..])
  }

  lemma {:induction false} EscapeDenotes(s: bytes)
    ensures AllWellFormed(CharsOf(s)) && Spell(CharsOf(s)) == Escape(s) && CharsMeaning(CharsOf(s)) == s
  {
    hide WellFormed, CharMeaning, SpellChar, CharOf, EscapeByte;
    if s != [] {
      EscapeIsChar(s[0]);
      EscapeDenotes(s[1..]);
      var chars := CharsOf(s);
      assert chars[1..] == CharsOf(s[1..]);
      assert forall i :: 1 <= i < |chars| ==> chars[i] == chars[1..][i - 1];
      assert [s[0]] + s[1..] == s;
    }
  }

  // ----- numbers

  lemma {:induction false} IntDenotes(i: int32)
    ensures NumberDenotes(ShowInt(i), i as real)
  {
    hide ShowNat, Places, Trim;
    var n: int := if i < 0 then -(i as int) else i;
    var number := RfcNumber(i < 0, ShowNat(n), [], NoExp);
    ShowNatTrim(n);
    NotEmpty(ShowNat(n));
    Whole(number);
    assert SpellNumber(number) == ShowInt(i);
  }

  lemma {:induction false} Whole(n: RfcNumber)
    requires n.frac == [] && n.exp.NoExp? && Trim(n.whole)
    ensures DerivedNumber(n)
    ensures NumberMeaning(n) == if n.minus then -(Places(n.whole) as real) else Places(n.whole) as real
  {
    assert Places([]) == 0 && TenTo(0) == 1;
    var w := Places(n.whole) as real;
    assert w + 0.0 / 1.0 == w && w * 1.0 == w && (-w) * 1.0 == -w;
  }

  // ----- values

  /** The value as RFC 8259 sees it. */
  function JsonOf(v: Value): JsonValue
    decreases v
  {
    match v
    case False => JsonFalse
    case True => JsonTrue
    case Number(d, _) => JsonNumber(d)
    case String(s) => JsonString(s)
    case Array(items) => JsonArray(JsonItems(items))
    case Object(members) => JsonObject(JsonMembers(members))
    case _ => JsonNull
  }

  function JsonItems(items: seq<Value>): seq<JsonValue>
    decreases items
  {
    if items == [] then [] else [JsonOf(items[0])] + JsonItems(items[1..])
  }

  function JsonMembers(members: seq<Member>): seq<JsonMember>
    decreases members
  {
    if members == [] then [] else [JsonMember(members[0].key, JsonOf(members[0].value))] + JsonMembers(members[1..])
  }

  lemma BlankLayout(style: Style, depth: nat)
    ensures RfcBlank(Layout(style, [NEWLINE] + Tabs(depth))) && RfcBlank(Layout(style, [SPACE])) && RfcBlank([])
    ensures RfcBlank(Layout(style, [TAB]))
  {
  }

  /** The syntax of the rendering is a derivation of the grammar, and denotes the value. */
  lemma {:induction false} RenderingDerives(v: Value, style: Style, depth: nat)
    requires Integral(v)
    ensures Derives(SyntaxOf(v, style, depth), JsonOf(v))
    decreases v
  {
    hide ElemsOf, MembersOf, StringDenotes, NumberDenotes, ShowInt, Escape, DerivesElems, DerivesMembers, RfcBlank;
    hide Layout;
    hide JsonItems, JsonMembers;
    BlankLayout(style, depth);
    NothingListed();
    match v
    case Number(d, i) => IntDenotes(i);
    case String(s) => StringDerives(s);
    case Array(items) => if items != [] { ItemsDerive(items, style, depth + 1, []); }
    case Object(members) =>
      if members != [] { MembersDerive(members, style, depth + 1, Layout(style, [NEWLINE] + Tabs(depth))); }
    case _ =>
  }

  lemma NothingListed()
    ensures JsonItems([]) == [] && JsonMembers([]) == []
  {
  }

  lemma StringDerives(s: bytes)
    ensures StringDenotes(Escape(s), s)
  {
    EscapeDenotes(s);
  }

  lemma {:induction false} ItemsDerive(items: seq<Value>, style: Style, depth: nat, before: bytes)
    requires items != [] && IntegralItems(items) && RfcBlank(before)
    ensures DerivesElems(ElemsOf(items, style, depth, before), JsonItems(items))
    decreases items
  {
    hide Integral, SyntaxOf, JsonOf, Derives, RfcBlank, Layout;
    BlankLayout(style, depth);
    NothingListed();
    RenderingDerives(items[0], style, depth);
    if |items| == 1 {
      assert items[1..] == [];
    } else {
      ItemsDerive(items[1..], style, depth, Layout(style, [SPACE]));
      assert JsonItems(items)[1..] == JsonItems(items[1..]);
    }
  }

  lemma {:induction false} MembersDerive(members: seq<Member>, style: Style, depth: nat, indent: bytes)
    requires members != [] && IntegralMembers(members) && RfcBlank(indent)
    ensures DerivesMembers(MembersOf(members, style, depth, indent), JsonMembers(members))
    decreases members
  {
    hide Integral, SyntaxOf, JsonOf, Derives, RfcBlank, Layout, StringDenotes, Escape;
    BlankLayout(style, depth);
    NothingListed();
    StringDerives(members[0].key);
    RenderingDerives(members[0].value, style, depth);
    if |members| == 1 {
      assert members[1..] == [];
    } else {
      MembersDerive(members[1..], style, depth, indent);
      assert JsonMembers(members)[1..] == JsonMembers(members[1..]);
    }
  }

  // ----- the value is the one that was printed

  lemma {:induction false} Denoted(v: Value)
    requires Integral(v)
    ensures Represents(v, JsonOf(v))
    decreases v
  {
    hide JsonItems, JsonMembers, RepresentsItems, RepresentsMembers, IntegralItems, IntegralMembers;
    match v
    case Array(items) => ItemsDenoted(items);
    case Object(members) => MembersDenoted(members);
    case _ =>
  }

  lemma {:induction false} ItemsDenoted(items: seq<Value>)
    requires IntegralItems(items)
    ensures RepresentsItems(items, JsonItems(items)) && |JsonItems(items)| == |items|
    decreases items
  {
    hide Integral, JsonOf, Represents;
    if items != [] {
      Denoted(items[0]);
      ItemsDenoted(items[1..]);
      assert JsonItems(items)[1..] == JsonItems(items[1..]);
    }
  }

  lemma {:induction false} MembersDenoted(members: seq<Member>)
    requires IntegralMembers(members)
    ensures RepresentsMembers(members, JsonMembers(members)) && |JsonMembers(members)| == |members|
    decreases members
  {
    hide Integral, JsonOf, Represents;
    if members != [] {
      Denoted(members[0].value);
      MembersDenoted(members[1..]);
      assert JsonMembers(members)[1..] == JsonMembers(members[1..]);
    }
  }

  /** The printed text of every integral value, formatted or not, is a JSON text that denotes the value. */
  lemma {:induction false} PrintedIsJson(v: Value, style: Style)
    requires Integral(v)
    ensures var s := SyntaxOf(v, style, 0);
      Render(v, style, 0) == JsonText(s) && Derives(s, JsonOf(v)) && Represents(v, JsonOf(v))
  {
    hide Render, SyntaxOf, JsonText, Derives, Represents, Integral, Flatten;
    RenderIsFlatten(v, style, 0);
    SameText(SyntaxOf(v, style, 0));
    RenderingDerives(v, style, 0);
    Denoted(v);
  }
}

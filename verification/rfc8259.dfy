/** The grammar of sections 2 to 7 of RFC 8259 with the value each derivation denotes, and the
    parser's completeness against it. */
module Rfc8259 {
  import opened Bytes
  import opened Json
  import opened NumberSpec
  import opened Decimals
  import opened StringSpec
  import opened ParseSpec
  import opened Syntax
  import opened Completeness
  import opened Documents

  // ----- section 7: strings

  /** A character of a string literal, with the code point an escape stands for. */
  datatype Char =
    | Unescaped(b: byte)                            // one byte of a character written as itself
    | Short(letter: byte)                           // \n and its like
    | Escaped(cp: nat, hex: bytes)                  // \uXXXX
    | Surrogates(cp: nat, high: bytes, low: bytes)  // \uXXXX\uXXXX

  /** Four hexadecimal digits, in either case, and the number they spell. */
  ghost predicate HexSpells(hex: bytes, u: nat) {
    |hex| == 4 && exists a, b, c, d ::
      && DigitSpells(hex[0], a) && DigitSpells(hex[1], b) && DigitSpells(hex[2], c) && DigitSpells(hex[3], d)
      && u == a * 0x1000 + b * 0x100 + c * 0x10 + d
  }

  /** Section 2.1 of RFC 2781 for the surrogate pair. */
  ghost predicate WellFormed(ch: Char) {
    match ch
    case Unescaped(b) => b >= 0x20 && b != 0x22 && b != 0x5C
    case Short(letter) => ShortMeaning(letter) != []
    case Escaped(cp, hex) => HexSpells(hex, cp) && !(0xD800 <= cp <= 0xDFFF)
    case Surrogates(cp, high, low) =>
      && 0x1_0000 <= cp <= 0x10FFFF
      && HexSpells(high, 0xD800 + (cp - 0x1_0000) / 0x400) && HexSpells(low, 0xDC00 + (cp - 0x1_0000) % 0x400)
  }

  function ShortMeaning(letter: byte): bytes {
    match letter
    case 34 => [0x22]
    case 92 => [0x5C]
    case 47 => [0x2F]
    case 98 => [0x08]
    case 102 => [0x0C]
    case 110 => [0x0A]
    case 114 => [0x0D]
    case 116 => [0x09]
    case _ => []
  }

  function SpellChar(ch: Char): bytes {
    match ch
    case Unescaped(b) => [b]
    case Short(letter) => [0x5C, letter]
    case Escaped(_, hex) => [0x5C, 0x75] + hex
    case Surrogates(_, high, low) => ([0x5C, 0x75] + high) + ([0x5C, 0x75] + low)
  }

  ghost function CharMeaning(ch: Char): bytes
    requires WellFormed(ch)
  {
    match ch
    case Unescaped(b) => [b]
    case Short(letter) => ShortMeaning(letter)
    case Escaped(cp, _) => Utf8(cp)
    case Surrogates(cp, _, _) => Utf8(cp)
  }

  ghost predicate AllWellFormed(chars: seq<Char>) {
    forall i :: 0 <= i < |chars| ==> WellFormed(chars[i])
  }

  function Spell(chars: seq<Char>): bytes {
    if chars == [] then [] else SpellChar(chars[0]) + Spell(chars[1..])
  }

  ghost function CharsMeaning(chars: seq<Char>): bytes
    requires AllWellFormed(chars)
  {
    if chars == [] then [] else CharMeaning(chars[0]) + CharsMeaning(chars[1..])
  }

  lemma {:induction false} HexSpelled(hex: bytes, rest: bytes, u: nat)
    requires HexSpells(hex, u)
    ensures Hex4(hex + rest) == u < 0x1_0000
  {
    hide Hex4, DigitSpells;
    var a, b, c, d :| DigitSpells(hex[0], a) && DigitSpells(hex[1], b) && DigitSpells(hex[2], c)
      && DigitSpells(hex[3], d) && u == a * 0x1000 + b * 0x100 + c * 0x10 + d;
    Hex4Digits(hex + rest, a, b, c, d);
    DigitRead(hex[0], a);
  }

  lemma {:induction false} EscapedDecodes(cp: nat, hex: bytes, rest: bytes)
    requires WellFormed(Escaped(cp, hex))
    ensures DecodeStep(SpellChar(Escaped(cp, hex)) + rest) == Step(Utf8(cp), 6)
  {
    hide Hex4, HexSpells, Utf8;
    var s := SpellChar(Escaped(cp, hex)) + rest;
    assert |hex| == 4 by { HexLength(hex, cp); }
    assert s[2..] == hex + rest;
    HexSpelled(hex, rest, cp);
  }

  lemma HexLength(hex: bytes, u: nat)
    requires HexSpells(hex, u)
    ensures |hex| == 4
  {
  }

  lemma {:induction false} SurrogatesDecode(cp: nat, high: bytes, low: bytes, rest: bytes)
    requires WellFormed(Surrogates(cp, high, low))
    ensures DecodeStep(SpellChar(Surrogates(cp, high, low)) + rest) == Step(Utf8(cp), 12)
  {
    hide Hex4, HexSpells, Utf8;
    var u := cp - 0x1_0000;
    var s := SpellChar(Surrogates(cp, high, low)) + rest;
    HexLength(high, 0xD800 + u / 0x400);
    HexLength(low, 0xDC00 + u % 0x400);
    assert s[2..] == high + (([BACKSLASH, LOWER_U] + low) + rest);
    assert s[8..] == low + rest;
    HexSpelled(high, ([BACKSLASH, LOWER_U] + low) + rest, 0xD800 + u / 0x400);
    HexSpelled(low, rest, 0xDC00 + u % 0x400);
    assert s[6] == BACKSLASH && s[7] == LOWER_U;
    assert (0xD800 + u / 0x400) % 0x400 == u / 0x400;
    assert (0xDC00 + u % 0x400) % 0x400 == u % 0x400;
  }

  /** One well-formed character is decoded to its meaning, whatever follows. */
  lemma {:induction false} CharDecodes(ch: Char, rest: bytes)
    requires WellFormed(ch)
    ensures DecodeStep(SpellChar(ch) + rest) == Step(CharMeaning(ch), |SpellChar(ch)|)
  {
    hide Utf16, Utf8;
    match ch
    case Unescaped(b) =>
    case Short(letter) =>
      assert ShortMeaning(letter) == [SimpleEscape(letter) as byte];
    case Escaped(cp, hex) => EscapedDecodes(cp, hex, rest);
    case Surrogates(cp, high, low) => SurrogatesDecode(cp, high, low, rest);
  }

  lemma {:induction false} CharsDecode(chars: seq<Char>)
    requires AllWellFormed(chars)
    ensures Unescape(Spell(chars)) == Text(CharsMeaning(chars))
  {
    hide DecodeStep, CharMeaning, WellFormed;
    if chars != [] {
      var rest := Spell(chars[1..]);
      assert WellFormed(chars[0]);
      CharDecodes(chars[0], rest);
      CharsDecode(chars[1..]);
      assert Spell(chars)[|SpellChar(chars[0])|..] == rest;
      assert Drop(Spell(chars), |SpellChar(chars[0])|) == rest;
    }
  }

  lemma {:induction false} HexPlain(hex: bytes, u: nat)
    requires HexSpells(hex, u)
    ensures forall i :: 0 <= i < |hex| ==> hex[i] != QUOTE && hex[i] != BACKSLASH && hex[i] != 0
  {
    hide DigitSpells;
    var a, b, c, d :| DigitSpells(hex[0], a) && DigitSpells(hex[1], b) && DigitSpells(hex[2], c)
      && DigitSpells(hex[3], d) && u == a * 0x1000 + b * 0x100 + c * 0x10 + d;
    DigitRead(hex[0], a);
    DigitRead(hex[1], b);
    DigitRead(hex[2], c);
    DigitRead(hex[3], d);
  }

  lemma {:induction false} EscapedBalanced(letter: byte, plain: bytes, rest: bytes)
    requires Balanced(rest) && forall i :: 0 <= i < |plain| ==> plain[i] != QUOTE && plain[i] != BACKSLASH
    ensures Balanced(([BACKSLASH, letter] + plain) + rest)
  {
    PlainBalanced(plain, rest);
    assert (([BACKSLASH, letter] + plain) + rest)[2..] == plain + rest;
  }

  lemma {:induction false} CharBalanced(ch: Char, rest: bytes)
    requires WellFormed(ch) && Balanced(rest)
    ensures Balanced(SpellChar(ch) + rest)
  {
    hide HexSpells;
    match ch
    case Unescaped(b) => PlainBalanced([b], rest);
    case Short(letter) =>
      assert [BACKSLASH, letter] + [] == [BACKSLASH, letter];
      EscapedBalanced(letter, [], rest);
    case Escaped(cp, hex) =>
      HexPlain(hex, cp);
      EscapedBalanced(LOWER_U, hex, rest);
    case Surrogates(cp, high, low) =>
      HexPlain(high, 0xD800 + (cp - 0x1_0000) / 0x400);
      HexPlain(low, 0xDC00 + (cp - 0x1_0000) % 0x400);
      EscapedBalanced(LOWER_U, low, rest);
      var second := [BACKSLASH, LOWER_U] + low;
      EscapedBalanced(LOWER_U, high, second + rest);
      assert SpellChar(ch) + rest == ([BACKSLASH, LOWER_U] + high) + (second + rest);
  }

  lemma {:induction false} CharsBalanced(chars: seq<Char>)
    requires AllWellFormed(chars)
    ensures Balanced(Spell(chars))
  {
    hide WellFormed;
    if chars != [] {
      assert WellFormed(chars[0]);
      CharsBalanced(chars[1..]);
      CharBalanced(chars[0], Spell(chars[1..]));
    }
  }

  // ----- section 6: numbers

  datatype Sign = NoSign | Plus | Minus

  datatype Exp = NoExp | Exp(marker: byte, sign: Sign, digits: bytes)

  /** [ minus ] int [ frac ] [ exp ]; an absent frac has no digits. */
  datatype RfcNumber = RfcNumber(minus: bool, whole: bytes, frac: bytes, exp: Exp)

  ghost predicate DerivedNumber(n: RfcNumber) {
    && n.whole != [] && Numerals(n.whole) && (n.whole[0] == 0x30 ==> |n.whole| == 1)
    && Numerals(n.frac) && DerivedExp(n.exp)
  }

  ghost predicate DerivedExp(e: Exp) {
    e.Exp? ==> (e.marker == 0x65 || e.marker == 0x45) && e.digits != [] && Numerals(e.digits)
  }

  function SpellSign(s: Sign): bytes {
    match s
    case NoSign => []
    case Plus => [0x2B]
    case Minus => [0x2D]
  }

  function SpellExp(e: Exp): bytes {
    match e
    case NoExp => []
    case Exp(marker, sign, digits) => [marker] + (SpellSign(sign) + digits)
  }

  function SpellFrac(frac: bytes): bytes {
    if frac == [] then [] else [0x2E] + frac
  }

  function SpellNumber(n: RfcNumber): bytes {
    (if n.minus then [0x2D] else []) + (n.whole + (SpellFrac(n.frac) + SpellExp(n.exp)))
  }

  ghost function ExpValue(e: Exp): int
    requires DerivedExp(e)
  {
    match e
    case NoExp => 0
    case Exp(_, sign, digits) => if sign == Minus then -(Places(digits) as int) else Places(digits)
  }

  ghost function NumberMeaning(n: RfcNumber): real
    requires DerivedNumber(n)
  {
    ByPlaces(n.minus, n.whole, n.frac, ExpValue(n.exp))
  }

  lemma {:induction false} DigitsEndAt(s: bytes, i: nat, digits: bytes)
    requires At(s, i, digits) && AllDigits(digits) && (i + |digits| < |s| ==> !IsDigit(s[i + |digits|]))
    ensures DigitsEnd(s, i) == i + |digits|
  {
    forall k | i <= k < i + |digits| ensures IsDigit(s[k]) {
      assert s[k] == s[i..i + |digits|][k - i];
    }
    DigitsEndUnique(s, i, i + |digits|);
  }

  lemma {:induction false} ExponentRead(s: bytes, f: nat, e: Exp)
    requires At(s, f, SpellExp(e)) && f + |SpellExp(e)| == |s|
    requires DerivedExp(e)
    ensures Exponent(s, f) == (|s|, ExpValue(e))
  {
    hide At, DigitsEnd, DigitsValue;
    match e
    case NoExp =>
    case Exp(marker, sign, digits) =>
      AtSplit(s, f, [marker], SpellSign(sign) + digits);
      AtHead(s, f, [marker]);
      AtSplit(s, f + 1, SpellSign(sign), digits);
      AtHead(s, f + 1, SpellSign(sign) + digits);
      var g := f + 1 + |SpellSign(sign)|;
      DigitsEndAt(s, g, digits);
      AtSlice(s, g, digits);
      PlacesValue(digits);
  }

  lemma {:induction false} FractionRead(s: bytes, i: nat, frac: bytes, e: Exp)
    requires At(s, i, SpellFrac(frac) + SpellExp(e)) && i + |SpellFrac(frac) + SpellExp(e)| == |s|
    requires Numerals(frac) && DerivedExp(e)
    ensures FractionEnd(s, i) == i + |SpellFrac(frac)| && Fraction(s, i) == frac
    ensures At(s, i + |SpellFrac(frac)|, SpellExp(e))
    ensures i < |s| ==> !IsDigit(s[i])
  {
    AtSplit(s, i, SpellFrac(frac), SpellExp(e));
    if e.Exp? {
      AtHead(s, i + |SpellFrac(frac)|, SpellExp(e));
    }
    if frac != [] {
      AtSplit(s, i, [DOT], frac);
      AtHead(s, i, [DOT]);
      DigitsEndAt(s, i + 1, frac);
    }
  }

  lemma {:induction false} NumberRead(n: RfcNumber)
    requires DerivedNumber(n)
    ensures Strtod(SpellNumber(n)) == Numeral(|SpellNumber(n)|, NumberMeaning(n))
  {
    hide Decimal, Exponent, Fraction, FractionEnd, DigitsEnd, SpellExp, SpellFrac, ExpValue, At, ByPlaces;
    var s := SpellNumber(n);
    var sign := if n.minus then [MINUS] else [];
    var a := |sign|;
    var i := a + |n.whole|;
    var rest := SpellFrac(n.frac) + SpellExp(n.exp);
    NumberLayout(n);
    FractionRead(s, i, n.frac, n.exp);
    DigitsEndAt(s, a, n.whole);
    ExponentRead(s, i + |SpellFrac(n.frac)|, n.exp);
    PlacesAreDecimal(n.minus, n.whole, n.frac, ExpValue(n.exp));
  }

  lemma {:induction false} NumberLayout(n: RfcNumber)
    requires DerivedNumber(n)
    ensures var s := SpellNumber(n); var a := if n.minus then 1 else 0; var i := a + |n.whole|;
      var rest := SpellFrac(n.frac) + SpellExp(n.exp);
      && i + |rest| == |s| && SignEnd(s) == a && (s[0] == MINUS <==> n.minus)
      && At(s, a, n.whole) && s[a..i] == n.whole && At(s, i, rest)
  {
    hide SpellExp, SpellFrac, At;
    var s := SpellNumber(n);
    var sign := if n.minus then [MINUS] else [];
    var rest := SpellFrac(n.frac) + SpellExp(n.exp);
    WholeAt(s);
    AtSplit(s, 0, sign, n.whole + rest);
    AtSplit(s, |sign|, n.whole, rest);
    AtHead(s, |sign|, n.whole);
    AtSlice(s, |sign|, n.whole);
  }

  lemma WholeAt(s: bytes)
    ensures At(s, 0, s)
  {
    assert s[0..|s|] == s;
  }

  lemma AtSlice(s: bytes, o: nat, part: bytes)
    requires At(s, o, part)
    ensures o + |part| <= |s| && s[o..o + |part|] == part
  {
  }

  lemma {:induction false} NumberValid(n: RfcNumber)
    requires DerivedNumber(n)
    ensures ValidNumber(SpellNumber(n))
  {
    hide Strtod;
    NumberRead(n);
    var s := SpellNumber(n);
    assert AllNumberChars(SpellExp(n.exp));
    assert AllNumberChars(SpellFrac(n.frac));
  }

  // ----- sections 2 to 5: values and texts

  ghost predicate RfcBlank(s: bytes) {
    forall i :: 0 <= i < |s| ==> s[i] == 0x20 || s[i] == 0x09 || s[i] == 0x0A || s[i] == 0x0D
  }

  /** The values of section 3: strings and names are any characters, here in UTF-8, and numbers have no limits. */
  datatype JsonValue =
    | JsonNull
    | JsonFalse
    | JsonTrue
    | JsonNumber(d: real)
    | JsonString(s: bytes)
    | JsonArray(items: seq<JsonValue>)
    | JsonObject(members: seq<JsonMember>)

  datatype JsonMember = JsonMember(key: bytes, value: JsonValue)

  ghost predicate StringDenotes(raw: bytes, s: bytes) {
    exists chars: seq<Char> :: AllWellFormed(chars) && Spell(chars) == raw && s == CharsMeaning(chars)
  }

  ghost predicate NumberDenotes(text: bytes, d: real) {
    exists n: RfcNumber :: DerivedNumber(n) && SpellNumber(n) == text && d == NumberMeaning(n)
  }

  /** The grammar derives the text of `s`, and `v` is the value it denotes. */
  ghost predicate Derives(s: Syntax, v: JsonValue) {
    match s
    case SNull => v == JsonNull
    case SFalse => v == JsonFalse
    case STrue => v == JsonTrue
    case SNumber(text) => v.JsonNumber? && NumberDenotes(text, v.d)
    case SString(raw) => v.JsonString? && StringDenotes(raw, v.s)
    case SEmptyArray(blank) => RfcBlank(blank) && v == JsonArray([])
    case SArray(elems) => v.JsonArray? && DerivesElems(elems, v.items)
    case SEmptyObject(blank) => RfcBlank(blank) && v == JsonObject([])
    case SObject(members) => v.JsonObject? && DerivesMembers(members, v.members)
  }

  ghost predicate DerivesElems(es: Elems, items: seq<JsonValue>) {
    && items != [] && RfcBlank(es.before) && Derives(es.value, items[0]) && RfcBlank(es.after)
    && if es.MoreElems? then DerivesElems(es.rest, items[1..]) else |items| == 1
  }

  ghost predicate DerivesKey(k: Key, key: bytes) {
    RfcBlank(k.before) && StringDenotes(k.raw, key) && RfcBlank(k.mid) && RfcBlank(k.after)
  }

  ghost predicate DerivesMembers(ms: Members, members: seq<JsonMember>) {
    && members != [] && DerivesKey(ms.key, members[0].key) && Derives(ms.value, members[0].value) && RfcBlank(ms.after)
    && if ms.MoreMembers? then DerivesMembers(ms.rest, members[1..]) else |members| == 1
  }

  // ----- what cJSON keeps of a value

  /** Strings and keys end at their first NUL, and a number is kept twice, once as a saturated int. */
  ghost function Kept(v: JsonValue): Value
    decreases v
  {
    match v
    case JsonNull => Null
    case JsonFalse => False
    case JsonTrue => True
    case JsonNumber(d) => Number(d, Saturate(d))
    case JsonString(s) => String(CStr(s))
    case JsonArray(items) => Array(KeptItems(items))
    case JsonObject(members) => Object(KeptMembers(members))
  }

  ghost function KeptItems(items: seq<JsonValue>): seq<Value>
    decreases items
  {
    if items == [] then [] else [Kept(items[0])] + KeptItems(items[1..])
  }

  ghost function KeptMembers(members: seq<JsonMember>): seq<Member>
    decreases members
  {
    if members == [] then []
    else [Member(CStr(members[0].key), Kept(members[0].value))] + KeptMembers(members[1..])
  }

  /** The tree holds the value, strings and keys in full. */
  ghost predicate Represents(w: Value, v: JsonValue)
    decreases v
  {
    match v
    case JsonNull => w == Null
    case JsonFalse => w == False
    case JsonTrue => w == True
    case JsonNumber(d) => w.Number? && w.d == d
    case JsonString(s) => w.String? && w.s == s
    case JsonArray(items) => w.Array? && RepresentsItems(w.items, items)
    case JsonObject(members) => w.Object? && RepresentsMembers(w.members, members)
  }

  ghost predicate RepresentsItems(ws: seq<Value>, vs: seq<JsonValue>)
    decreases vs
  {
    |ws| == |vs| && (vs != [] ==> Represents(ws[0], vs[0]) && RepresentsItems(ws[1..], vs[1..]))
  }

  ghost predicate RepresentsMembers(ws: seq<Member>, vs: seq<JsonMember>)
    decreases vs
  {
    && |ws| == |vs|
    && (vs != [] ==>
          ws[0].key == vs[0].key && Represents(ws[0].value, vs[0].value) && RepresentsMembers(ws[1..], vs[1..]))
  }

  /** No string and no key contains U+0000. */
  ghost predicate WithoutNul(v: JsonValue)
    decreases v
  {
    match v
    case JsonString(s) => NulFree(s)
    case JsonArray(items) => ItemsWithoutNul(items)
    case JsonObject(members) => MembersWithoutNul(members)
    case _ => true
  }

  ghost predicate ItemsWithoutNul(items: seq<JsonValue>)
    decreases items
  {
    items != [] ==> WithoutNul(items[0]) && ItemsWithoutNul(items[1..])
  }

  ghost predicate MembersWithoutNul(members: seq<JsonMember>)
    decreases members
  {
    members != [] ==>
      NulFree(members[0].key) && WithoutNul(members[0].value) && MembersWithoutNul(members[1..])
  }

  /** What is kept represents the value if and only if there is no U+0000 in it. */
  lemma {:induction false} KeptInFull(v: JsonValue)
    ensures Represents(Kept(v), v) <==> WithoutNul(v)
    decreases v
  {
    hide KeptItems, KeptMembers, RepresentsItems, RepresentsMembers, ItemsWithoutNul, MembersWithoutNul, Saturate, CStr;
    match v
    case JsonString(s) => CutShort(s);
    case JsonArray(items) => ItemsInFull(items);
    case JsonObject(members) => MembersInFull(members);
    case _ =>
  }

  lemma {:induction false} CutShort(s: bytes)
    ensures CStr(s) == s <==> NulFree(s)
  {
    if NulFree(s) {
      CStrOfCString(s);
    }
  }

  lemma {:induction false} ItemsInFull(items: seq<JsonValue>)
    ensures RepresentsItems(KeptItems(items), items) <==> ItemsWithoutNul(items)
    decreases items
  {
    hide Kept, Represents, WithoutNul;
    if items != [] {
      KeptInFull(items[0]);
      ItemsInFull(items[1..]);
      ItemsCount(items[1..]);
    }
  }

  lemma {:induction false} ItemsCount(items: seq<JsonValue>)
    ensures |KeptItems(items)| == |items|
  {
    if items != [] {
      ItemsCount(items[1..]);
    }
  }

  lemma {:induction false} MembersInFull(members: seq<JsonMember>)
    ensures RepresentsMembers(KeptMembers(members), members) <==> MembersWithoutNul(members)
    decreases members
  {
    hide Kept, Represents, WithoutNul, CStr;
    if members != [] {
      CutShort(members[0].key);
      KeptInFull(members[0].value);
      MembersInFull(members[1..]);
      MembersCount(members[1..]);
    }
  }

  lemma {:induction false} MembersCount(members: seq<JsonMember>)
    ensures |KeptMembers(members)| == |members|
  {
    if members != [] {
      MembersCount(members[1..]);
    }
  }

  /** A literal denotes a string with a NUL exactly if one of its characters is written `\u0000`. */
  lemma {:induction false} NulCharacter(chars: seq<Char>)
    requires AllWellFormed(chars)
    ensures NulFree(CharsMeaning(chars)) <==> forall i :: 0 <= i < |chars| ==> !(chars[i].Escaped? && chars[i].cp == 0)
  {
    hide WellFormed, CharMeaning;
    if chars != [] {
      var ch := chars[0];
      assert WellFormed(ch);
      OneNul(ch);
      NulCharacter(chars[1..]);
      assert chars == [ch] + chars[1..];
      JoinNulFree(CharMeaning(ch), CharsMeaning(chars[1..]));
      if forall i :: 0 <= i < |chars[1..]| ==> !(chars[1..][i].Escaped? && chars[1..][i].cp == 0) {
        assert forall i :: 1 <= i < |chars| ==> chars[i] == chars[1..][i - 1];
      } else {
        var i :| 0 <= i < |chars[1..]| && chars[1..][i].Escaped? && chars[1..][i].cp == 0;
        assert chars[i + 1] == chars[1..][i];
      }
    }
  }

  lemma OneNul(ch: Char)
    requires WellFormed(ch)
    ensures NulFree(CharMeaning(ch)) <==> !(ch.Escaped? && ch.cp == 0)
  {
    hide HexSpells;
    if ch.Escaped? && ch.cp == 0 {
      assert CharMeaning(ch)[0] == 0;
    }
  }

  lemma JoinNulFree(a: bytes, b: bytes)
    ensures NulFree(a + b) <==> NulFree(a) && NulFree(b)
  {
    var s := a + b;
    assert forall i :: 0 <= i < |a| ==> s[i] == a[i];
    assert forall i :: 0 <= i < |b| ==> s[|a| + i] == b[i];
  }

  // ----- every derivation is accepted

  lemma {:induction false} DerivedString(raw: bytes, s: bytes)
    requires StringDenotes(raw, s)
    ensures ValidString(raw) && CStr(Unescape(raw).out) == CStr(s) && NulFree(raw)
  {
    hide WellFormed, CharMeaning, SpellChar, Balanced, CStr;
    var chars: seq<Char> :| AllWellFormed(chars) && Spell(chars) == raw && s == CharsMeaning(chars);
    CharsBalanced(chars);
    CharsDecode(chars);
    CharsNulFree(chars);
  }

  lemma {:induction false} CharsNulFree(chars: seq<Char>)
    requires AllWellFormed(chars)
    ensures NulFree(Spell(chars))
  {
    hide WellFormed, SpellChar;
    if chars != [] {
      assert WellFormed(chars[0]);
      CharNulFree(chars[0]);
      CharsNulFree(chars[1..]);
    }
  }

  lemma {:induction false} CharNulFree(ch: Char)
    requires WellFormed(ch)
    ensures NulFree(SpellChar(ch))
  {
    hide HexSpells;
    match ch
    case Unescaped(b) =>
    case Short(letter) =>
    case Escaped(cp, hex) =>
      HexPlain(hex, cp);
    case Surrogates(cp, high, low) =>
      HexPlain(high, 0xD800 + (cp - 0x1_0000) / 0x400);
      HexPlain(low, 0xDC00 + (cp - 0x1_0000) % 0x400);
  }

  /** Every derivation is a syntax tree the parser accepts, and its meaning is what is kept of the denoted value. */
  lemma {:induction false} DerivationMeans(s: Syntax, v: JsonValue)
    requires Derives(s, v)
    ensures Valid(s) && Meaning(s) == Kept(v) && NulFree(Flatten(s))
    decreases s
  {
    hide StringDenotes, ValidString, Unescape, ValidNumber, Strtod, Saturate, NumberMeaning, SpellNumber, DerivedNumber,
      DerivesElems, DerivesMembers, ElemsMeaning, MembersMeaning, ValidElems, ValidMembers, FlattenElems,
      FlattenMembers, KeptItems, KeptMembers, CStr;
    match s
    case SNumber(text) =>
      var n: RfcNumber :| DerivedNumber(n) && SpellNumber(n) == text && v.d == NumberMeaning(n);
      NumberRead(n);
      NumberValid(n);
      NumberNulFree(text);
    case SString(raw) => DerivedString(raw, v.s);
    case SEmptyArray(_) => NothingKept();
    case SArray(elems) => ElemsMean(elems, v.items);
    case SEmptyObject(_) => NothingKept();
    case SObject(members) => MembersMean(members, v.members);
    case _ =>
  }

  lemma NothingKept()
    ensures KeptItems([]) == [] && KeptMembers([]) == []
  {
  }

  lemma NumberNulFree(text: bytes)
    requires ValidNumber(text)
    ensures NulFree(text)
  {
  }

  lemma {:induction false} ElemsMean(es: Elems, items: seq<JsonValue>)
    requires DerivesElems(es, items)
    ensures ValidElems(es) && ElemsMeaning(es) == KeptItems(items) && NulFree(FlattenElems(es))
    decreases es
  {
    hide Derives, Valid, Meaning, Flatten, Kept;
    DerivationMeans(es.value, items[0]);
    if es.MoreElems? {
      ElemsMean(es.rest, items[1..]);
    } else {
      NothingKept();
      assert items[1..] == [];
    }
  }

  lemma {:induction false} KeyMeans(k: Key, key: bytes)
    requires DerivesKey(k, key)
    ensures ValidKey(k) && KeyMeaning(k) == CStr(key) && NulFree(FlattenKey(k))
  {
    hide StringDenotes, ValidString, Unescape, CStr;
    DerivedString(k.raw, key);
  }

  lemma {:induction false} MembersMean(ms: Members, members: seq<JsonMember>)
    requires DerivesMembers(ms, members)
    ensures ValidMembers(ms) && MembersMeaning(ms) == KeptMembers(members) && NulFree(FlattenMembers(ms))
    decreases ms
  {
    hide Derives, DerivesKey, Valid, Meaning, Flatten, ValidKey, KeyMeaning, FlattenKey, Kept, CStr;
    KeyMeans(ms.key, members[0].key);
    DerivationMeans(ms.value, members[0].value);
    if ms.MoreMembers? {
      MembersMean(ms.rest, members[1..]);
    } else {
      NothingKept();
      assert members[1..] == [];
    }
  }

  // ----- the text, in the characters of the grammar

  function JsonText(s: Syntax): bytes
    decreases s
  {
    match s
    case SNull => [0x6E, 0x75, 0x6C, 0x6C]
    case SFalse => [0x66, 0x61, 0x6C, 0x73, 0x65]
    case STrue => [0x74, 0x72, 0x75, 0x65]
    case SNumber(text) => text
    case SString(raw) => [0x22] + raw + [0x22]
    case SEmptyArray(blank) => [0x5B] + blank + [0x5D]
    case SArray(elems) => [0x5B] + ElemsText(elems) + [0x5D]
    case SEmptyObject(blank) => [0x7B] + blank + [0x7D]
    case SObject(members) => [0x7B] + MembersText(members) + [0x7D]
  }

  function ElemsText(es: Elems): bytes
    decreases es
  {
    es.before + JsonText(es.value) + es.after + if es.LastElem? then [] else [0x2C] + ElemsText(es.rest)
  }

  function MembersText(ms: Members): bytes
    decreases ms
  {
    ms.key.before + [0x22] + ms.key.raw + [0x22] + ms.key.mid + [0x3A] + ms.key.after
      + JsonText(ms.value) + ms.after + if ms.LastMember? then [] else [0x2C] + MembersText(ms.rest)
  }

  lemma {:induction false} SameText(s: Syntax)
    ensures JsonText(s) == Flatten(s)
    decreases s
  {
    hide ElemsText, MembersText, FlattenElems, FlattenMembers;
    match s
    case SArray(elems) => SameElems(elems);
    case SObject(members) => SameMembers(members);
    case _ =>
  }

  lemma {:induction false} SameElems(es: Elems)
    ensures ElemsText(es) + [0x5D] == FlattenElems(es)
    decreases es
  {
    hide JsonText, Flatten;
    SameText(es.value);
    if es.MoreElems? {
      SameElems(es.rest);
    }
  }

  lemma {:induction false} SameMembers(ms: Members)
    ensures MembersText(ms) + [0x7D] == FlattenMembers(ms)
    decreases ms
  {
    hide JsonText, Flatten;
    SameText(ms.value);
    if ms.MoreMembers? {
      SameMembers(ms.rest);
    }
  }

  /** JSON-text = ws value ws: every such text within the nesting limit is accepted whole. The tree built represents
      the value it denotes if and only if no string or key of the value contains U+0000. A byte order mark may come
      first, as section 8.1 permits. */
  lemma {:induction false} JsonTextAccepted(mark: bytes, before: bytes, s: Syntax, v: JsonValue, after: bytes)
    requires mark == [] || mark == [0xEF, 0xBB, 0xBF]
    requires RfcBlank(before) && Derives(s, v) && RfcBlank(after) && Depth(s) <= 1000
    ensures var text := mark + before + JsonText(s) + after;
      NulFree(text) && ParseText(text, true) == Ok(Kept(v), |text|)
    ensures Represents(Kept(v), v) <==> WithoutNul(v)
  {
    hide Derives, Valid, Meaning, Flatten, JsonText, ParseText, Kept, Represents, WithoutNul;
    DerivationMeans(s, v);
    KeptInFull(v);
    SameText(s);
    var d := Document(mark != [], before, s, after);
    var text := mark + before + JsonText(s) + after;
    assert FlattenDocument(d) == mark + (before + (JsonText(s) + after)) == text;
    DocumentAccepted(text, d);
  }

  /** `\u0000` */
  const NUL_ESCAPE: bytes := [92, 117, 48, 48, 48, 48]

  lemma ZeroSpelled(hex: bytes)
    requires hex == [48, 48, 48, 48]
    ensures HexSpells(hex, 0)
  {
    assert DigitSpells(hex[0], 0) && DigitSpells(hex[1], 0) && DigitSpells(hex[2], 0) && DigitSpells(hex[3], 0);
  }

  lemma NulDenoted()
    ensures StringDenotes(NUL_ESCAPE, [0]) && CStr([0]) == []
  {
    hide HexSpells;
    var hex := [48, 48, 48, 48];
    var chars := [Escaped(0, hex)];
    ZeroSpelled(hex);
    assert SpellChar(chars[0]) == NUL_ESCAPE && Spell(chars[1..]) == [];
    assert Spell(chars) == NUL_ESCAPE;
    assert WellFormed(chars[0]) && CharMeaning(chars[0]) == [0] && CharsMeaning(chars[1..]) == [];
    assert CharsMeaning(chars) == [0];
  }

  /** The text `"\u0000"` denotes a string of one character, and is read as the empty string. */
  lemma {:induction false} NulTruncated()
    ensures Derives(SString(NUL_ESCAPE), JsonString([0]))
    ensures ParseText(Quoted(NUL_ESCAPE), true) == Ok(String([]), |NUL_ESCAPE| + 2)
    ensures !Represents(String([]), JsonString([0]))
  {
    hide ParseText, StringDenotes, CStr;
    NulDenoted();
    JsonTextAccepted([], [], SString(NUL_ESCAPE), JsonString([0]), []);
    assert [] + JsonText(SString(NUL_ESCAPE)) + [] == Quoted(NUL_ESCAPE);
  }
}

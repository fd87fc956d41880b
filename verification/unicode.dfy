/** Escaped UTF-16: which sequences of \uXXXX escapes are accepted, and the UTF-8 they become. */
module Unicode {
  import opened Bytes
  import opened StringSpec
  import opened Syntax
  import opened Completeness
  import opened Rfc8259

  /** The scalar values, or the position of the first surrogate that belongs to no pair. */
  datatype Scalars = IllFormed(at: nat) | Scalars(cps: seq<nat>)

  ghost predicate Unit(u: nat) {
    u < 0x1_0000
  }

  ghost predicate Scalar(cp: nat) {
    cp <= 0x10FFFF && !(0xD800 <= cp <= 0xDFFF)
  }

  /** Decoding UTF-16 code units, section 2.2 of RFC 2781. */
  function DecodeUtf16(units: seq<nat>): (r: Scalars)
    ensures r.IllFormed? ==> r.at < |units|
  {
    if units == [] then Scalars([])
    else
      var u := units[0];
      if u < 0xD800 || u > 0xDFFF then PrependScalar(u, 1, DecodeUtf16(units[1..]))
      else if u > 0xDBFF || |units| == 1 || !(0xDC00 <= units[1] <= 0xDFFF) then IllFormed(0)
      else
        PrependScalar(0x1_0000 + (u - 0xD800) * 0x400 + (units[1] - 0xDC00), 2, DecodeUtf16(units[2..]))
  }

  function PrependScalar(cp: nat, len: nat, rest: Scalars): Scalars {
    match rest
    case IllFormed(at) => IllFormed(len + at)
    case Scalars(cps) => Scalars([cp] + cps)
  }

  /** Encoding scalar values as UTF-16 code units, section 2.1 of RFC 2781. */
  function EncodeUtf16(cps: seq<nat>): seq<nat> {
    if cps == [] then []
    else
      var cp := cps[0];
      (if cp < 0x1_0000 then [cp] else [0xD800 + (cp - 0x1_0000) / 0x400, 0xDC00 + (cp - 0x1_0000) % 0x400])
        + EncodeUtf16(cps[1..])
  }

  lemma {:induction false} DecodePair(cp: nat, rest: seq<nat>)
    requires 0x1_0000 <= cp <= 0x10FFFF
    ensures DecodeUtf16([0xD800 + (cp - 0x1_0000) / 0x400, 0xDC00 + (cp - 0x1_0000) % 0x400] + rest)
      == PrependScalar(cp, 2, DecodeUtf16(rest))
  {
    var units := [0xD800 + (cp - 0x1_0000) / 0x400, 0xDC00 + (cp - 0x1_0000) % 0x400] + rest;
    assert units[2..] == rest;
  }

  lemma {:induction false} DecodeEncoded(cps: seq<nat>)
    requires forall i :: 0 <= i < |cps| ==> Scalar(cps[i])
    ensures DecodeUtf16(EncodeUtf16(cps)) == Scalars(cps)
  {
    if cps != [] {
      DecodeEncoded(cps[1..]);
      assert Scalar(cps[0]);
      assert cps == [cps[0]] + cps[1..];
      if cps[0] < 0x1_0000 {
        assert EncodeUtf16(cps)[1..] == EncodeUtf16(cps[1..]);
      } else {
        DecodePair(cps[0], EncodeUtf16(cps[1..]));
      }
    }
  }

  /** The escapes spelled by four hexadecimal digits each. */
  function SpellUnits(hexes: seq<bytes>): bytes {
    if hexes == [] then [] else ([BACKSLASH, LOWER_U] + hexes[0]) + SpellUnits(hexes[1..])
  }

  ghost predicate SpellsAll(hexes: seq<bytes>, units: seq<nat>) {
    |hexes| == |units| && forall i :: 0 <= i < |units| ==> HexSpells(hexes[i], units[i])
  }

  ghost predicate AllInRange(cps: seq<nat>) {
    forall i :: 0 <= i < |cps| ==> cps[i] <= 0x10FFFF
  }

  function Utf8All(cps: seq<nat>): bytes
    requires AllInRange(cps)
  {
    if cps == [] then [] else Utf8(cps[0]) + Utf8All(cps[1..])
  }

  lemma {:induction false} DecodedInRange(units: seq<nat>)
    requires forall i :: 0 <= i < |units| ==> Unit(units[i])
    requires DecodeUtf16(units).Scalars?
    ensures AllInRange(DecodeUtf16(units).cps)
  {
    if units != [] {
      assert Unit(units[0]);
      if units[0] < 0xD800 || units[0] > 0xDFFF {
        DecodedInRange(units[1..]);
      } else {
        DecodedInRange(units[2..]);
      }
    }
  }

  /** What utf16_literal_to_utf8 sees at the head of a run of escapes. */
  lemma {:induction false} HeadUnits(hexes: seq<bytes>, units: seq<nat>)
    requires SpellsAll(hexes, units) && units != []
    ensures var s := SpellUnits(hexes); var u := units[0];
      && |s| >= 6 && s[0] == BACKSLASH && s[1] == LOWER_U && Hex4(s[2..]) == u < 0x1_0000
      && (|s| >= 12 <==> |units| > 1)
      && (|units| > 1 ==> s[6] == BACKSLASH && s[7] == LOWER_U && Hex4(s[8..]) == units[1] < 0x1_0000)
      && s[6..] == SpellUnits(hexes[1..])
      && (|units| > 1 ==> s[12..] == SpellUnits(hexes[2..]))
  {
    hide Hex4, HexSpells;
    var s := SpellUnits(hexes);
    var rest := SpellUnits(hexes[1..]);
    HexLength(hexes[0], units[0]);
    HexSpelled(hexes[0], rest, units[0]);
    assert s[2..] == hexes[0] + rest;
    assert s[6..] == rest;
    if |units| > 1 {
      assert hexes[1..][1..] == hexes[2..];
      var more := SpellUnits(hexes[2..]);
      assert rest == ([BACKSLASH, LOWER_U] + hexes[1]) + more;
      HexLength(hexes[1], units[1]);
      HexSpelled(hexes[1], more, units[1]);
      assert s[8..] == rest[2..] == hexes[1] + more;
      assert s[12..] == rest[6..] == more;
    }
  }

  lemma {:induction false} UnitsInRange(hexes: seq<bytes>, units: seq<nat>)
    requires SpellsAll(hexes, units)
    ensures forall i :: 0 <= i < |units| ==> Unit(units[i])
  {
  }

  /** The units start with a surrogate pair. */
  predicate Paired(units: seq<nat>) {
    |units| > 1 && 0xD800 <= units[0] <= 0xDBFF && 0xDC00 <= units[1] <= 0xDFFF
  }

  function PairValue(units: seq<nat>): nat
    requires Paired(units)
  {
    0x1_0000 + (units[0] - 0xD800) * 0x400 + (units[1] - 0xDC00)
  }

  /** The first step of the second pass over a run of escapes. */
  lemma {:induction false} HeadDecodes(hexes: seq<bytes>, units: seq<nat>)
    requires SpellsAll(hexes, units) && units != []
    ensures var s := SpellUnits(hexes); var u := units[0];
      && s != [] && u < 0x1_0000
      && DecodeStep(s) ==
           (if u < 0xD800 || u > 0xDFFF then Step(Utf8(u), 6)
            else if Paired(units) then Step(Utf8(PairValue(units)), 12)
            else Stuck)
      && Drop(s, 6) == SpellUnits(hexes[1..]) && (|units| > 1 ==> Drop(s, 12) == SpellUnits(hexes[2..]))
  {
    hide Hex4, HexSpells, Utf8, SpellUnits;
    HeadUnits(hexes, units);
    if Paired(units) {
      assert units[0] % 0x400 == units[0] - 0xD800 && units[1] % 0x400 == units[1] - 0xDC00;
    }
  }

  /** What the second pass makes of a run of \u escapes. */
  lemma {:induction false} RunDecodes(hexes: seq<bytes>, units: seq<nat>)
    requires SpellsAll(hexes, units)
    ensures match DecodeUtf16(units)
      case IllFormed(at) => Unescape(SpellUnits(hexes)) == Bad(6 * (|units| - at))
      case Scalars(cps) => AllInRange(cps) && Unescape(SpellUnits(hexes)) == Text(Utf8All(cps))
    decreases |units|
  {
    hide HexSpells, Utf8, SpellUnits, DecodeStep, Drop;
    UnitsInRange(hexes, units);
    RunLength(hexes, units);
    if units == [] {
      NoUnits();
    } else {
      if DecodeUtf16(units).Scalars? {
        DecodedInRange(units);
      }
      HeadDecodes(hexes, units);
      if units[0] < 0xD800 || units[0] > 0xDFFF {
        RunDecodes(hexes[1..], units[1..]);
      } else if Paired(units) {
        RunDecodes(hexes[2..], units[2..]);
      }
    }
  }

  lemma {:induction false} RunLength(hexes: seq<bytes>, units: seq<nat>)
    requires SpellsAll(hexes, units)
    ensures |SpellUnits(hexes)| == 6 * |units|
  {
    hide HexSpells;
    if units != [] {
      HexLength(hexes[0], units[0]);
      RunLength(hexes[1..], units[1..]);
    }
  }

  lemma {:induction false} RunBalanced(hexes: seq<bytes>, units: seq<nat>)
    requires SpellsAll(hexes, units)
    ensures Balanced(SpellUnits(hexes))
  {
    hide HexSpells;
    if units != [] {
      HexPlain(hexes[0], units[0]);
      RunBalanced(hexes[1..], units[1..]);
      EscapedBalanced(LOWER_U, hexes[0], SpellUnits(hexes[1..]));
    }
  }

  /** parse_string on a literal that is a run of \u escapes, anywhere in a buffer. It succeeds exactly when the units
      are well-formed UTF-16, and then stores the UTF-8 of the scalar values they encode, up to the first NUL; otherwise
      the cursor is left at the escape of the first unpaired surrogate. */
  lemma {:induction false} EscapedUtf16(c: bytes, o: nat, hexes: seq<bytes>, units: seq<nat>)
    requires SpellsAll(hexes, units) && At(c, o, Quoted(SpellUnits(hexes)))
    ensures o < |c| && match DecodeUtf16(units)
      case IllFormed(at) => ParseString(c, o) == Fail(o + 1 + 6 * at)
      case Scalars(cps) => AllInRange(cps) && ParseString(c, o) == Ok(CStr(Utf8All(cps)), o + 6 * |units| + 2)
  {
    hide SpellUnits, DecodeUtf16, Unescape, ParseString, Balanced, HexSpells, CStr;
    RunDecodes(hexes, units);
    RunLength(hexes, units);
    RunBalanced(hexes, units);
    LiteralRead(c, o, SpellUnits(hexes));
  }

  lemma NoUnits()
    ensures SpellUnits([]) == []
  {
  }

  // ----- UTF-8

  /** The number of bytes a lead byte announces, and the code point the bytes carry. */
  function Utf8Length(lead: byte): nat {
    if lead < 0x80 then 1 else if 0xC0 <= lead < 0xE0 then 2 else if 0xE0 <= lead < 0xF0 then 3
    else if 0xF0 <= lead < 0xF8 then 4 else 0
  }

  /** Six more bits. */
  function Continue(high: nat, b: byte): nat {
    high * 0x40 + b % 0x40
  }

  function Utf8Value(s: bytes): nat {
    if |s| == 1 then s[0]
    else if |s| == 2 then Continue(s[0] % 0x20, s[1])
    else if |s| == 3 then Continue(Continue(s[0] % 0x10, s[1]), s[2])
    else if |s| == 4 then Continue(Continue(Continue(s[0] % 8, s[1]), s[2]), s[3])
    else 0
  }

  lemma SixBits(n: nat, b: byte)
    requires b == 0x80 + n % 0x40
    ensures Continue(n / 0x40, b) == n
  {
  }

  lemma Sixes(cp: nat)
    ensures cp / 0x1000 == cp / 0x40 / 0x40 && cp / 0x4_0000 == cp / 0x1000 / 0x40
  {
  }

  /** The lead byte announces the length, the rest are continuation bytes, and the code point can be read back. */
  lemma {:induction false} Utf8Decodes(cp: nat)
    requires cp <= 0x10FFFF
    ensures Utf8Value(Utf8(cp)) == cp && Utf8Length(Utf8(cp)[0]) == |Utf8(cp)|
    ensures forall i :: 0 < i < |Utf8(cp)| ==> 0x80 <= Utf8(cp)[i] < 0xC0
  {
    hide Continue;
    var s := Utf8(cp);
    Sixes(cp);
    if cp >= 0x80 {
      SixBits(cp, s[|s| - 1]);
    }
    if cp >= 0x800 {
      SixBits(cp / 0x40, s[|s| - 2]);
    }
    if cp >= 0x1_0000 {
      SixBits(cp / 0x1000, s[|s| - 3]);
    }
  }
}

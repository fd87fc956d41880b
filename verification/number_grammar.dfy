/** Exactly which numerals cJSON accepts: more than RFC 8259 does, but read by the same places. */
module NumberGrammar {
  import opened Bytes
  import opened Json
  import opened NumberSpec
  import opened Decimals
  import opened Syntax
  import opened Rfc8259

  /** A minus sign, digits, a point with digits behind it, an exponent. There may be leading zeros, and digits may be
      missing on one side of the point; without a minus sign there is a digit in front. */
  datatype Numeric = Numeric(minus: bool, whole: bytes, point: bool, frac: bytes, exp: Exp)

  ghost predicate Acceptable(n: Numeric) {
    && Numerals(n.whole) && Numerals(n.frac) && DerivedExp(n.exp)
    && (n.frac != [] ==> n.point) && n.whole + n.frac != [] && (!n.minus ==> n.whole != [])
  }

  function PointText(point: bool, frac: bytes): bytes {
    if point then [0x2E] + frac else []
  }

  function NumberText(n: Numeric): bytes {
    (if n.minus then [0x2D] else []) + (n.whole + (PointText(n.point, n.frac) + SpellExp(n.exp)))
  }

  ghost function NumberValue(n: Numeric): real
    requires Acceptable(n)
  {
    ByPlaces(n.minus, n.whole, n.frac, ExpValue(n.exp))
  }

  // ----- what is acceptable is accepted

  lemma {:induction false} PointRead(s: bytes, i: nat, point: bool, frac: bytes, e: Exp)
    requires At(s, i, PointText(point, frac) + SpellExp(e)) && i + |PointText(point, frac) + SpellExp(e)| == |s|
    requires Numerals(frac) && DerivedExp(e) && (frac != [] ==> point)
    ensures FractionEnd(s, i) == i + |PointText(point, frac)| && Fraction(s, i) == frac
    ensures At(s, i + |PointText(point, frac)|, SpellExp(e))
    ensures i < |s| ==> !IsDigit(s[i])
  {
    AtSplit(s, i, PointText(point, frac), SpellExp(e));
    if e.Exp? {
      AtHead(s, i + |PointText(point, frac)|, SpellExp(e));
    }
    if point {
      AtSplit(s, i, [0x2E], frac);
      AtHead(s, i, [0x2E]);
      DigitsEndAt(s, i + 1, frac);
    }
  }

  lemma {:induction false} NumberLayout(n: Numeric)
    requires Acceptable(n)
    ensures var s := NumberText(n); var a := if n.minus then 1 else 0; var i := a + |n.whole|;
      var rest := PointText(n.point, n.frac) + SpellExp(n.exp);
      && i + |rest| == |s| && s != [] && SignEnd(s) == a && (s[0] == 0x2D <==> n.minus)
      && At(s, a, n.whole) && s[a..i] == n.whole && At(s, i, rest)
  {
    hide SpellExp, PointText, At;
    var s := NumberText(n);
    var sign := if n.minus then [0x2D] else [];
    var rest := PointText(n.point, n.frac) + SpellExp(n.exp);
    WholeAt(s);
    AtSplit(s, 0, sign, n.whole + rest);
    AtSplit(s, |sign|, n.whole, rest);
    AtSlice(s, |sign|, n.whole);
    if n.whole != [] {
      AtHead(s, |sign|, n.whole);
    }
  }

  lemma {:induction false} AcceptableRead(n: Numeric)
    requires Acceptable(n)
    ensures ValidNumber(NumberText(n)) && Strtod(NumberText(n)) == Numeral(|NumberText(n)|, NumberValue(n))
  {
    hide Decimal, Exponent, Fraction, FractionEnd, DigitsEnd, SpellExp, PointText, ExpValue, At, ByPlaces;
    var s := NumberText(n);
    var a := if n.minus then 1 else 0;
    var i := a + |n.whole|;
    NumberLayout(n);
    PointRead(s, i, n.point, n.frac, n.exp);
    DigitsEndAt(s, a, n.whole);
    ExponentRead(s, i + |PointText(n.point, n.frac)|, n.exp);
    PlacesAreDecimal(n.minus, n.whole, n.frac, ExpValue(n.exp));
    NumberCharacters(n);
  }

  lemma {:induction false} NumberCharacters(n: Numeric)
    requires Acceptable(n)
    ensures AllNumberChars(NumberText(n)) && Signed(NumberText(n))
  {
    assert AllNumberChars(SpellExp(n.exp));
    assert AllNumberChars(PointText(n.point, n.frac));
  }

  // ----- what is accepted is acceptable

  lemma {:induction false} DigitsSlice(s: bytes, i: nat)
    requires i <= |s|
    ensures Numerals(s[i..DigitsEnd(s, i)])
  {
  }

  /** The exponent part that Strtod finds at `f`, when it takes the rest of the text. */
  lemma {:induction false} ExponentFound(s: bytes, f: nat) returns (e: Exp)
    requires f <= |s| && Exponent(s, f).0 == |s|
    ensures DerivedExp(e) && SpellExp(e) == s[f..]
  {
    hide DigitsEnd, DigitsValue;
    if f == |s| {
      e := NoExp;
    } else {
      var signed := f + 1 < |s| && (s[f + 1] == PLUS || s[f + 1] == MINUS);
      var g := if signed then f + 2 else f + 1;
      DigitsSlice(s, g);
      var sign := if !signed then NoSign else if s[f + 1] == MINUS then Minus else Plus;
      e := Exp(s[f], sign, s[g..]);
      assert SpellSign(sign) == s[f + 1..g];
      assert s[f..] == [s[f]] + (s[f + 1..g] + s[g..]);
    }
  }

  lemma {:induction false} NumberFound(s: bytes) returns (n: Numeric)
    requires ValidNumber(s)
    ensures Acceptable(n) && NumberText(n) == s
  {
    hide DigitsEnd, DigitsValue, Exponent, AllNumberChars, Strtod, FractionEnd, Fraction, SpellExp;
    var a := SignEnd(s);
    var i := DigitsEnd(s, a);
    var f := FractionEnd(s, i);
    DigitsSlice(s, a);
    WholeTaken(s);
    var frac, point := PointFound(s, i);
    var e := ExponentFound(s, f);
    SignedWhole(s);
    n := Numeric(s[0] == MINUS, s[a..i], point, frac, e);
    FourParts(s, a, i, f);
  }

  lemma WholeTaken(s: bytes)
    requires ValidNumber(s)
    ensures var i := DigitsEnd(s, SignEnd(s)); var f := FractionEnd(s, i);
      s[SignEnd(s)..i] + Fraction(s, i) != [] && Exponent(s, f).0 == |s| && Signed(s)
  {
    hide DigitsEnd, DigitsValue, Exponent, AllNumberChars, FractionEnd, Fraction, Decimal;
  }

  lemma PointFound(s: bytes, i: nat) returns (frac: bytes, point: bool)
    requires i <= |s|
    ensures Numerals(frac) && (frac != [] ==> point) && frac == Fraction(s, i)
    ensures PointText(point, frac) == s[i..FractionEnd(s, i)]
  {
    frac, point := [], i < |s| && s[i] == DOT;
    if point {
      DigitsSlice(s, i + 1);
      frac := s[i + 1..FractionEnd(s, i)];
    }
  }

  lemma FourParts(s: bytes, a: nat, i: nat, f: nat)
    requires a <= i <= f <= |s|
    ensures s == s[..a] + (s[a..i] + (s[i..f] + s[f..]))
  {
  }

  lemma SignedWhole(s: bytes)
    requires Signed(s)
    ensures SignEnd(s) == (if s[0] == MINUS then 1 else 0) && (s[0] != MINUS ==> DigitsEnd(s, 0) > 0)
  {
  }

  /** A numeral is accepted if and only if it has this form; its value is what the places of its digits say. */
  lemma {:induction false} AcceptedNumbers(s: bytes)
    ensures ValidNumber(s) <==> exists n: Numeric :: Acceptable(n) && NumberText(n) == s
    ensures forall n: Numeric :: Acceptable(n) && NumberText(n) == s ==> Strtod(s) == Numeral(|s|, NumberValue(n))
  {
    hide ValidNumber, Acceptable, NumberText, Strtod, NumberValue;
    if ValidNumber(s) {
      var n := NumberFound(s);
    }
    forall n: Numeric | Acceptable(n) && NumberText(n) == s
      ensures ValidNumber(s) && Strtod(s) == Numeral(|s|, NumberValue(n))
    {
      AcceptableRead(n);
    }
  }
}

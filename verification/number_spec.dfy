/** Reading a numeral: the prefix strtod would consume and the exact decimal it denotes. */
module NumberSpec {
  import opened Bytes
  import opened Json

  predicate IsDigit(b: byte) {
    48 <= b <= 57
  }

  /** The characters parse_number copies into its temporary buffer. */
  predicate IsNumberChar(b: byte) {
    IsDigit(b) || b == PLUS || b == MINUS || b == LOWER_E || b == UPPER_E || b == DOT
  }

  ghost predicate AllDigits(s: bytes) {
    forall i :: 0 <= i < |s| ==> IsDigit(s[i])
  }

  ghost predicate AllNumberChars(s: bytes) {
    forall i :: 0 <= i < |s| ==> IsNumberChar(s[i])
  }

  /** End of the run of digits that starts at `i`. */
  function DigitsEnd(s: bytes, i: nat): (r: nat)
    requires i <= |s|
    ensures i <= r <= |s|
    ensures forall k :: i <= k < r ==> IsDigit(s[k])
    ensures r < |s| ==> !IsDigit(s[r])
    decreases |s| - i
  {
    if i < |s| && IsDigit(s[i]) then DigitsEnd(s, i + 1) else i
  }

  function DigitsValue(s: bytes): (n: nat)
    requires AllDigits(s)
  {
    if s == [] then 0 else 10 * DigitsValue(s[..|s| - 1]) + (s[|s| - 1] - 48)
  }

  function Pow10(e: int): real
    decreases if e < 0 then -e else e
  {
    if e == 0 then 1.0
    else if e > 0 then 10.0 * Pow10(e - 1)
    else Pow10(e + 1) / 10.0
  }

  /** The number `digits` * 10^(`exponent` - `scale`), negated when `negative`. */
  function Decimal(negative: bool, digits: bytes, scale: nat, exponent: int): real
    requires AllDigits(digits)
  {
    var magnitude := DigitsValue(digits) as real * Pow10(exponent - scale);
    if negative then -magnitude else magnitude
  }

  datatype Numeral = NoNumeral | Numeral(len: nat, value: real)

  /** The exponent part that starts at `f`: where it ends and its value; empty unless a digit follows. */
  function Exponent(s: bytes, f: nat): (r: (nat, int))
    requires f <= |s|
    ensures f <= r.0 <= |s|
  {
    if f < |s| && (s[f] == LOWER_E || s[f] == UPPER_E) then
      var signed := f + 1 < |s| && (s[f + 1] == PLUS || s[f + 1] == MINUS);
      var g := if signed then f + 2 else f + 1;
      var h := DigitsEnd(s, g);
      if h > g then (h, (if signed && s[f + 1] == MINUS then -1 else 1) * DigitsValue(s[g..h]))
      else (f, 0)
    else (f, 0)
  }

  function SignEnd(s: bytes): (r: nat)
    ensures r <= |s|
  {
    if |s| > 0 && (s[0] == PLUS || s[0] == MINUS) then 1 else 0
  }

  /** End of a decimal point and the digits after it, if a point stands at `i`. */
  function FractionEnd(s: bytes, i: nat): (r: nat)
    requires i <= |s|
    ensures i <= r <= |s|
  {
    if i < |s| && s[i] == DOT then DigitsEnd(s, i + 1) else i
  }

  /** The digits between the point at `i` and `f`. */
  function Fraction(s: bytes, i: nat): (r: bytes)
    requires i <= |s|
    ensures AllDigits(r)
  {
    if FractionEnd(s, i) > i then s[i + 1..FractionEnd(s, i)] else []
  }

  /** strtod on a text made of number characters, without rounding. */
  function Strtod(s: bytes): (r: Numeral)
    ensures r.Numeral? ==> 0 < r.len <= |s|
  {
    var a := SignEnd(s);
    var i := DigitsEnd(s, a);
    var fraction := Fraction(s, i);
    var digits := s[a..i] + fraction;
    if digits == [] then NoNumeral
    else
      var (end, exponent) := Exponent(s, FractionEnd(s, i));
      Numeral(end, Decimal(|s| > 0 && s[0] == MINUS, digits, |fraction|, exponent))
  }

  /** The saturating conversion of a number to valueint. */
  function Saturate(d: real): int32 {
    if d >= INT_MAX as real then INT_MAX
    else if d <= INT_MIN as real then INT_MIN
    else if d >= 0.0 then d.Floor
    else -((-d).Floor)
  }

  /** Towards zero, and to the nearest end of the range outside it. */
  lemma {:induction false} SaturateMeans(d: real)
    ensures var i: int := Saturate(d);
      if d >= 2147483647.0 then i == 2147483647
      else if d <= -2147483648.0 then i == -2147483648
      else if d >= 0.0 then i >= 0 && i as real <= d < (i + 1) as real
      else i <= 0 && (i - 1) as real < d <= i as real
  {
  }

  /** End of the run of number characters that starts at `o`. */
  function RunEnd(c: bytes, o: nat): (r: nat)
    requires o <= |c|
    ensures o <= r <= |c|
    ensures forall k :: o <= k < r ==> IsNumberChar(c[k])
    ensures r < |c| ==> !IsNumberChar(c[r])
    decreases |c| - o
  {
    if o < |c| && IsNumberChar(c[o]) then RunEnd(c, o + 1) else o
  }

  lemma RunEndUnique(c: bytes, o: nat, r: nat)
    requires o <= r <= |c|
    requires forall k :: o <= k < r ==> IsNumberChar(c[k])
    requires r < |c| ==> !IsNumberChar(c[r])
    ensures RunEnd(c, o) == r
  {
  }

  lemma DigitsEndUnique(s: bytes, i: nat, r: nat)
    requires i <= r <= |s|
    requires forall k :: i <= k < r ==> IsDigit(s[k])
    requires r < |s| ==> !IsDigit(s[r])
    ensures DigitsEnd(s, i) == r
  {
  }
}

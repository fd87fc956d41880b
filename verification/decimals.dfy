/** Decimal numerals read by the places of their digits, and what that has to do with reading them from the left. */
module Decimals {
  import opened Bytes
  import opened NumberSpec

  function TenTo(n: nat): (r: nat)
    ensures r > 0
  {
    if n == 0 then 1 else 10 * TenTo(n - 1)
  }

  ghost predicate Numerals(s: bytes) {
    forall i :: 0 <= i < |s| ==> 0x30 <= s[i] <= 0x39
  }

  /** The digit in front counts as often as its place says. */
  function Places(s: bytes): nat
    requires Numerals(s)
  {
    if s == [] then 0 else (s[0] - 0x30) * TenTo(|s| - 1) + Places(s[1..])
  }

  lemma {:induction false} TenToSum(m: nat, n: nat)
    ensures TenTo(m + n) == TenTo(m) * TenTo(n)
  {
    if m > 0 {
      TenToSum(m - 1, n);
      assert TenTo(m + n) == 10 * (TenTo(m - 1) * TenTo(n)) == (10 * TenTo(m - 1)) * TenTo(n);
    }
  }

  lemma {:induction false} PlacesSplit(a: bytes, b: bytes)
    requires Numerals(a) && Numerals(b)
    ensures Numerals(a + b) && Places(a + b) == Places(a) * TenTo(|b|) + Places(b)
  {
    if a == [] {
      assert a + b == b;
    } else {
      PlacesSplit(a[1..], b);
      TenToSum(|a| - 1, |b|);
      assert (a + b)[1..] == a[1..] + b;
      var d, t := a[0] - 0x30, TenTo(|a| - 1);
      Distribute(d, t, Places(a[1..]), TenTo(|b|));
    }
  }

  lemma Distribute(d: int, t: int, p: int, u: int)
    ensures d * (t * u) + p * u == (d * t + p) * u
  {
  }

  /** Both ways of reading give the same number. */
  lemma {:induction false} PlacesValue(s: bytes)
    requires AllDigits(s)
    ensures Numerals(s) && Places(s) == DigitsValue(s)
  {
    if s != [] {
      var front, last := s[..|s| - 1], [s[|s| - 1]];
      PlacesValue(front);
      PlacesSplit(front, last);
      assert front + last == s;
      assert TenTo(1) == 10 && TenTo(0) == 1;
      assert Places(last) == s[|s| - 1] - 0x30 by { assert last[1..] == []; }
    }
  }

  lemma {:induction false} PlacesBound(s: bytes)
    requires Numerals(s)
    ensures Places(s) < TenTo(|s|)
    ensures s != [] && s[0] != 0x30 ==> Places(s) >= TenTo(|s| - 1)
  {
    if s != [] {
      PlacesBound(s[1..]);
      OneDigit(s[0] - 0x30, TenTo(|s| - 1));
    }
  }

  lemma OneDigit(d: int, t: nat)
    requires 0 <= d <= 9
    ensures 0 <= d * t <= 9 * t && (d > 0 ==> d * t >= t)
  {
  }

  lemma {:induction false} TenToGrows(m: nat, n: nat)
    requires m <= n
    ensures TenTo(m) <= TenTo(n)
  {
    if m < n {
      TenToGrows(m, n - 1);
    }
  }

  /** Numerals of the same length that say the same are the same. */
  lemma {:induction false} SameDigits(a: bytes, b: bytes)
    requires Numerals(a) && Numerals(b) && |a| == |b| && Places(a) == Places(b)
    ensures a == b
  {
    if a != [] {
      PlacesBound(a[1..]);
      PlacesBound(b[1..]);
      LeadingDigit(a[0] - 0x30, b[0] - 0x30, TenTo(|a| - 1), Places(a[1..]), Places(b[1..]));
      SameDigits(a[1..], b[1..]);
      assert a == [a[0]] + a[1..] && b == [b[0]] + b[1..];
    }
  }

  lemma LeadingDigit(c: int, d: int, t: nat, p: nat, q: nat)
    requires c * t + p == d * t + q && p < t && q < t
    ensures c == d && p == q
  {
    if c > d {
      LeadingLess(d, c, t, q, p);
    } else if c < d {
      LeadingLess(c, d, t, p, q);
    }
  }

  lemma LeadingLess(c: int, d: int, t: nat, p: nat, q: nat)
    requires c < d && p < t
    ensures c * t + p < d * t + q
  {
    var k: nat := d - c - 1;
    assert d * t == (c + 1 + k) * t == c * t + t + k * t;
    NotNegative(k, t);
  }

  lemma NotNegative(k: nat, t: nat)
    ensures k * t >= 0
  {
  }

  /** A numeral without superfluous zeros is the only one that says what it says, and the shortest. */
  ghost predicate Trim(s: bytes) {
    s != [] && Numerals(s) && (s[0] == 0x30 ==> |s| == 1)
  }

  lemma {:induction false} TrimShortest(a: bytes, b: bytes)
    requires Trim(a) && b != [] && Numerals(b) && Places(a) == Places(b)
    ensures |a| <= |b| && (Trim(b) ==> a == b)
  {
    PlacesBound(a);
    PlacesBound(b);
    if |a| > |b| {
      TenToGrows(|b|, |a| - 1);
    }
    if Trim(b) {
      if |b| > |a| {
        TenToGrows(|a|, |b| - 1);
      }
      SameDigits(a, b);
    }
  }

  // ----- powers of ten with any exponent

  lemma {:induction false} PowerUp(n: nat)
    ensures Pow10(n) == TenTo(n) as real
  {
    if n > 0 {
      PowerUp(n - 1);
    }
  }

  /** One step down is a division by ten, wherever it starts. */
  lemma PowerStep(e: int)
    ensures Pow10(e - 1) * 10.0 == Pow10(e)
  {
  }

  lemma {:induction false} PowerScaled(e: int, n: nat)
    ensures Pow10(e - n) * TenTo(n) as real == Pow10(e)
  {
    if n > 0 {
      PowerScaled(e, n - 1);
      PowerStep(e - n + 1);
      assert e - n + 1 - 1 == e - n && e - (n - 1) == e - n + 1;
      var p, t := Pow10(e - n), TenTo(n - 1) as real;
      assert TenTo(n) as real == 10.0 * t;
      Reorder(p, t);
    }
  }

  lemma Reorder(p: real, t: real)
    ensures p * (10.0 * t) == (p * 10.0) * t
  {
  }

  /** The number with these digits before and behind the point, times ten to the exponent. */
  function ByPlaces(minus: bool, whole: bytes, frac: bytes, exponent: int): real
    requires Numerals(whole) && Numerals(frac)
  {
    var magnitude := Places(whole) as real + Places(frac) as real / TenTo(|frac|) as real;
    var signed := if minus then -magnitude else magnitude;
    if exponent >= 0 then signed * TenTo(exponent) as real else signed / TenTo(-exponent) as real
  }

  /** Reading all the digits from the left and moving the point afterwards comes to the same. */
  lemma {:induction false} PlacesAreDecimal(minus: bool, whole: bytes, frac: bytes, e: int)
    requires Numerals(whole) && Numerals(frac)
    ensures AllDigits(whole + frac)
    ensures ByPlaces(minus, whole, frac, e) == Decimal(minus, whole + frac, |frac|, e)
  {
    hide Places, TenTo, Pow10, DigitsValue;
    var k := |frac|;
    PlacesSplit(whole, frac);
    PlacesValue(whole + frac);
    PowerScaled(e, k);
    PowerOf(e);
    var w, f, t := Places(whole) as real, Places(frac) as real, TenTo(k) as real;
    assert Places(whole + frac) as real == w * t + f;
    Magnitude(w, f, t, Pow10(e - k), Pow10(e), e, if e < 0 then TenTo(-e) as real else 1.0);
  }

  lemma PowerOf(e: int)
    ensures if e >= 0 then Pow10(e) == TenTo(e) as real else Pow10(e) * TenTo(-e) as real == 1.0
  {
    if e >= 0 {
      PowerUp(e);
    } else {
      PowerScaled(0, -e);
    }
  }

  lemma Magnitude(w: real, f: real, t: real, p: real, q: real, e: int, u: real)
    requires t > 0.0 && p * t == q && u > 0.0 && (e < 0 ==> q * u == 1.0)
    ensures (w * t + f) * p == (w + f / t) * q && -((w * t + f) * p) == -(w + f / t) * q
    ensures e < 0 ==> (w + f / t) / u == (w + f / t) * q && -(w + f / t) / u == -(w + f / t) * q
  {
    ScaleBack(w, f, t, p, q);
    var m := w + f / t;
    Negated(m, q);
    if e < 0 {
      Inverse(m, q, u);
    }
  }

  lemma Negated(m: real, q: real)
    ensures -(m * q) == -m * q
  {
  }

  lemma ScaleBack(w: real, f: real, t: real, p: real, q: real)
    requires t > 0.0 && p * t == q
    ensures (w * t + f) * p == (w + f / t) * q
  {
    var g := f / t;
    assert f == g * t;
    assert (w * t + g * t) * p == (w + g) * (p * t);
  }

  lemma Inverse(m: real, q: real, t: real)
    requires t > 0.0 && q * t == 1.0
    ensures m / t == m * q && (-m) / t == (-m) * q
  {
    assert q == 1.0 / t;
  }
}

/** The nesting limit, exactly. */
module NestingLimit {
  import opened Bytes
  import opened Json
  import opened StringSpec
  import opened ParseSpec
  import opened Syntax
  import opened Documents

  function Repeat(b: byte, n: nat): (s: bytes)
    ensures |s| == n && forall i :: 0 <= i < n ==> s[i] == b
  {
    if n == 0 then [] else [b] + Repeat(b, n - 1)
  }

  /** `n` arrays inside one another. */
  function Arrays(n: nat): Syntax
    requires n > 0
  {
    if n == 1 then SEmptyArray([]) else SArray(LastElem([], Arrays(n - 1), []))
  }

  lemma {:induction false} RepeatLast(b: byte, n: nat)
    ensures [b] + Repeat(b, n) == Repeat(b, n) + [b] == Repeat(b, n + 1)
  {
    if n > 0 {
      RepeatLast(b, n - 1);
      assert [b] + Repeat(b, n) == ([b] + Repeat(b, n - 1)) + [b];
    }
  }

  lemma {:induction false} ArraysText(n: nat)
    requires n > 0
    ensures Valid(Arrays(n)) && Depth(Arrays(n)) == n
    ensures Flatten(Arrays(n)) == Repeat(0x5B, n) + Repeat(0x5D, n)
  {
    if n == 1 {
      assert Repeat(0x5B, 1) == [0x5B] && Repeat(0x5D, 1) == [0x5D];
      assert [0x5B] + ([] + [0x5D]) == [0x5B] + [0x5D];
    } else {
      ArraysText(n - 1);
      var inner := Arrays(n - 1);
      RepeatLast(0x5D, n - 1);
      var text, close := Flatten(inner), Repeat(0x5D, n - 1);
      assert FlattenElems(LastElem([], inner, [])) == [] + (text + ([] + [0x5D])) == text + [0x5D];
      assert [0x5B] + ((Repeat(0x5B, n - 1) + close) + [0x5D]) == ([0x5B] + Repeat(0x5B, n - 1)) + (close + [0x5D]);
    }
  }

  /** Behind more than a thousand opening brackets the parser gives up at the last of them it could not enter. */
  lemma {:induction false} TooDeep(c: bytes, k: nat)
    requires k <= 1000 < |c| && forall i :: k <= i <= 1000 ==> c[i] == 0x5B
    ensures ParseValue(c, k, k) == Fail(1000)
    decreases 1000 - k
  {
    NoLiteralHere(c, k);
    if k < 1000 {
      TooDeep(c, k + 1);
      assert BlankEnd(c, k + 1) == k + 1;
      assert ParseElements(c, k + 1, k + 1) == Fail(1000);
      assert ParseArray(c, k, k) == Fail(1000);
    } else {
      assert ParseArray(c, k, k) == Fail(1000);
    }
  }

  lemma NoLiteralHere(c: bytes, o: nat)
    requires o < |c| && c[o] == 0x5B
    ensures !Looking(c, o, NULL_TEXT) && !Looking(c, o, FALSE_TEXT) && !Looking(c, o, TRUE_TEXT)
  {
    if o + 4 <= |c| {
      assert c[o..o + 4][0] == 0x5B;
    }
    if o + 5 <= |c| {
      assert c[o..o + 5][0] == 0x5B;
    }
  }

  /** Arrays inside one another are accepted up to a thousand of them; of more, the thousand and first is the error. */
  lemma {:induction false} NestingExact(n: nat)
    requires n > 0
    ensures var text: bytes := Repeat(0x5B, n) + Repeat(0x5D, n);
      && NulFree(text)
      && if n <= 1000 then ParseText(text, true).Ok? else ParseText(text, true) == Fail(1000)
  {
    hide ParseText, Flatten, Valid, Meaning, Depth;
    var text: bytes := Repeat(0x5B, n) + Repeat(0x5D, n);
    ArraysText(n);
    if n <= 1000 {
      var d := Document(false, [], Arrays(n), []);
      assert FlattenDocument(d) == text;
      DocumentAccepted(text, d);
    } else {
      Rejected(text);
    }
  }

  lemma {:induction false} Rejected(text: cstring)
    requires |text| > 1000 && forall i :: 0 <= i <= 1000 ==> text[i] == 0x5B
    ensures ParseText(text, true) == Fail(1000)
  {
    hide ParseValue;
    var c := text + [0];
    assert forall i :: 0 <= i <= 1000 ==> c[i] == text[i];
    TooDeep(c, 0);
    assert c[..3][0] == 0x5B;
    assert BlankEnd(c, 0) == 0;
    assert Start(c) == 0;
  }
}

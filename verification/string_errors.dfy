/** Where a string that cannot be read is reported. */
module StringErrors {
  import opened Bytes
  import opened Json
  import opened StringSpec
  import opened ParseSpec
  import opened Syntax
  import opened Completeness
  import opened Rfc8259

  lemma {:induction false} CharsThen(chars: seq<Char>, tail: bytes)
    requires AllWellFormed(chars)
    ensures Unescape(Spell(chars) + tail) == Prepend(CharsMeaning(chars), Unescape(tail))
    ensures Balanced(tail) ==> Balanced(Spell(chars) + tail)
  {
    hide DecodeStep, CharMeaning, WellFormed, SpellChar;
    if chars == [] {
      assert Spell(chars) + tail == tail;
      assert Prepend([], Unescape(tail)) == Unescape(tail);
    } else {
      var first, rest := SpellChar(chars[0]), Spell(chars[1..]) + tail;
      assert WellFormed(chars[0]);
      CharsThen(chars[1..], tail);
      assert Spell(chars) + tail == first + rest;
      CharDecodes(chars[0], rest);
      assert Drop(first + rest, |first|) == rest;
      PrependTwice(CharMeaning(chars[0]), CharsMeaning(chars[1..]), Unescape(tail));
      if Balanced(tail) {
        CharBalanced(chars[0], rest);
      }
    }
  }

  /** A string of characters of RFC 8259 up to a backslash before anything but the letters of an escape is reported at
      that backslash, wherever it stands. */
  lemma {:induction false} BadEscape(c: bytes, o: nat, depth: nat, chars: seq<Char>, x: byte, rest: bytes)
    requires depth <= NESTING_LIMIT && AllWellFormed(chars) && Balanced(rest)
    requires x != 0x75 && forall i :: 0 <= i < 8 ==> x as int != ESCAPE_LETTERS[i] as int
    requires At(c, o, [0x22] + (Spell(chars) + ([0x5C, x] + rest)) + [0x22])
    ensures ParseValue(c, o, depth) == Fail(o + 1 + |Spell(chars)|)
  {
    hide Balanced, At, AllWellFormed, Spell, DecodeStep;
    var bad := [0x5C, x] + rest;
    var raw := Spell(chars) + bad;
    OtherEscapesFail(x, rest);
    assert Unescape(bad) == Bad(|bad|);
    assert Balanced(bad) by {
      PairBalanced(bad, rest);
    }
    CharsThen(chars, bad);
    assert [0x22] + raw + [0x22] == Quoted(raw);
    AtHead(c, o, Quoted(raw));
    NoLiteral(c, o);
    LiteralRead(c, o, raw);
  }

  lemma PairBalanced(bad: bytes, rest: bytes)
    requires |bad| >= 2 && bad[0] == 0x5C && bad[2..] == rest && Balanced(rest)
    ensures Balanced(bad)
  {
  }

  /** A string that is not closed is reported right behind its opening quote. */
  lemma {:induction false} OpenString(c: bytes, o: nat, depth: nat, raw: bytes)
    requires depth <= NESTING_LIMIT && Balanced(raw) && At(c, o, [0x22] + raw) && o + 1 + |raw| + 1 == |c|
    requires c[|c| - 1] == 0
    ensures ParseValue(c, o, depth) == Fail(o + 1)
  {
    AtHead(c, o, [0x22] + raw);
    assert ([0x22] + raw)[1..] == raw;
    assert c[o + 1..] == raw + [0] by {
      assert c[o + 1..] == c[o + 1..o + 1 + |raw|] + [c[|c| - 1]];
    }
    NeverClosed(c, o + 1, raw);
    NoLiteral(c, o);
  }

  lemma {:induction false} NeverClosed(c: bytes, p: nat, raw: bytes)
    requires p <= |c| && c[p..] == raw + [0] && Balanced(raw)
    ensures Close(c, p) == -1
    decreases |raw|
  {
    assert forall i :: 0 <= i < |raw| ==> c[p + i] == c[p..][i] == raw[i];
    if raw != [] {
      if raw[0] == BACKSLASH {
        assert c[p + 2..] == c[p..][2..] == raw[2..] + [0];
        NeverClosed(c, p + 2, raw[2..]);
      } else {
        assert c[p + 1..] == c[p..][1..] == raw[1..] + [0];
        NeverClosed(c, p + 1, raw[1..]);
      }
    } else {
      assert c[p] == c[p..][0] == 0 && |c| == p + 1;
    }
  }
}

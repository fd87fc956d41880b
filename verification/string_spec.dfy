/** String literals: finding the closing quote, undoing escapes, and UTF-16 to UTF-8. */
module StringSpec {
  import opened Bytes

  // ----- the first pass: where the literal ends

  /** Position of the closing quote when the scan stands at `p`; every backslash hides one byte. */
  function Close(c: bytes, p: nat): (r: int)
    requires p <= |c|
    ensures r == -1 || p <= r < |c|
    decreases |c| - p
  {
    if p == |c| then -1
    else if c[p] == QUOTE then p
    else if c[p] == BACKSLASH then (if p + 1 >= |c| then -1 else Close(c, p + 2))
    else Close(c, p + 1)
  }

  /** The text between two quotes that the first pass would scan as one literal. */
  predicate Balanced(raw: bytes) {
    if raw == [] then true
    else if raw[0] == QUOTE then false
    else if raw[0] == BACKSLASH then |raw| >= 2 && Balanced(raw[2..])
    else Balanced(raw[1..])
  }

  lemma {:induction false} CloseIsBalanced(c: bytes, p: nat)
    requires p <= |c| && Close(c, p) != -1
    ensures c[Close(c, p)] == QUOTE && Balanced(c[p..Close(c, p)])
    decreases |c| - p
  {
    var e := Close(c, p);
    if c[p] == QUOTE {
    } else if c[p] == BACKSLASH {
      CloseIsBalanced(c, p + 2);
      assert c[p..e][2..] == c[p + 2..e];
    } else {
      CloseIsBalanced(c, p + 1);
      assert c[p..e][1..] == c[p + 1..e];
    }
  }

  lemma {:induction false} BalancedCloses(c: bytes, p: nat, raw: bytes)
    requires Balanced(raw) && At(c, p, raw + [QUOTE])
    ensures Close(c, p) == p + |raw|
    decreases |raw|
  {
    AtHead(c, p, raw + [QUOTE]);
    if raw == [] {
    } else if raw[0] == BACKSLASH {
      assert (raw + [QUOTE])[1..] == raw[1..] + [QUOTE];
      AtHead(c, p + 1, raw[1..] + [QUOTE]);
      assert (raw[1..] + [QUOTE])[1..] == raw[2..] + [QUOTE];
      BalancedCloses(c, p + 2, raw[2..]);
    } else {
      assert (raw + [QUOTE])[1..] == raw[1..] + [QUOTE];
      BalancedCloses(c, p + 1, raw[1..]);
    }
  }

  /** Bytes that are neither quotes nor backslashes leave the first pass where it was. */
  lemma {:induction false} PlainBalanced(plain: bytes, rest: bytes)
    requires Balanced(rest) && forall i :: 0 <= i < |plain| ==> plain[i] != QUOTE && plain[i] != BACKSLASH
    ensures Balanced(plain + rest)
  {
    if plain == [] {
      assert plain + rest == rest;
    } else {
      PlainBalanced(plain[1..], rest);
      assert (plain + rest)[1..] == plain[1..] + rest;
    }
  }

  // ----- the second pass: what the literal says

  function HexDigit(b: byte): (r: int)
    ensures -1 <= r < 16
  {
    if 48 <= b <= 57 then b - 48
    else if 65 <= b <= 70 then b - 55
    else if 97 <= b <= 102 then b - 87
    else -1
  }

  lemma {:induction false} DigitRead(b: byte, d: int)
    requires DigitSpells(b, d)
    ensures HexDigit(b) == d && 0 <= d < 16
  {
    assert UPPER_HEX[d] as int == if d < 10 then 48 + d else 55 + d;
    assert LOWER_HEX[d] as int == if d < 10 then 48 + d else 87 + d;
  }

  /** A byte is read as a digit exactly if it spells one, in either case. */
  lemma {:induction false} OnlyDigitsRead(b: byte)
    ensures HexDigit(b) >= 0 ==> DigitSpells(b, HexDigit(b))
    ensures HexDigit(b) == -1 <==> forall d :: !DigitSpells(b, d)
  {
    var d := HexDigit(b);
    if d >= 0 {
      assert UPPER_HEX[d] as int == if d < 10 then 48 + d else 55 + d;
      assert LOWER_HEX[d] as int == if d < 10 then 48 + d else 87 + d;
      assert DigitSpells(b, d);
    } else {
      forall e ensures !DigitSpells(b, e) {
        if DigitSpells(b, e) {
          DigitRead(b, e);
        }
      }
    }
  }

  predicate IsHex(b: byte) {
    HexDigit(b) >= 0
  }

  /** Four hexadecimal digits as a number; 0 as soon as one of them is no digit. */
  function Hex4(s: bytes): (r: nat)
    requires |s| >= 4
    ensures r < 0x1_0000
  {
    if IsHex(s[0]) && IsHex(s[1]) && IsHex(s[2]) && IsHex(s[3]) then
      ((HexDigit(s[0]) * 16 + HexDigit(s[1])) * 16 + HexDigit(s[2])) * 16 + HexDigit(s[3])
    else 0
  }

  /** Four digits are read in base 16, and anything else as 0. */
  lemma {:induction false} Hex4Digits(s: bytes, a: int, b: int, c: int, d: int)
    requires |s| >= 4
    requires DigitSpells(s[0], a) && DigitSpells(s[1], b) && DigitSpells(s[2], c) && DigitSpells(s[3], d)
    ensures Hex4(s) == a * 0x1000 + b * 0x100 + c * 0x10 + d
  {
    hide HexDigit, DigitSpells;
    DigitRead(s[0], a);
    DigitRead(s[1], b);
    DigitRead(s[2], c);
    DigitRead(s[3], d);
  }

  lemma {:induction false} Hex4NoDigit(s: bytes, k: nat)
    requires |s| >= 4 && k < 4 && forall d :: !DigitSpells(s[k], d)
    ensures Hex4(s) == 0
  {
    hide HexDigit, DigitSpells;
    OnlyDigitsRead(s[k]);
  }

  predicate IsHighSurrogate(u: nat) {
    0xD800 <= u <= 0xDBFF
  }

  predicate IsLowSurrogate(u: nat) {
    0xDC00 <= u <= 0xDFFF
  }

  datatype CodePoint = NoCodePoint | CodePoint(value: nat, len: nat)

  /** The code point spelled by one or two `\uXXXX` sequences at the head of `s`. */
  function Utf16(s: bytes): (r: CodePoint)
    ensures r.CodePoint? ==> 0 < r.len <= |s| && r.value <= 0x10FFFF
    ensures r.CodePoint? ==> r.len == if r.value < 0x1_0000 then 6 else 12
  {
    if |s| < 6 then NoCodePoint
    else
      var first := Hex4(s[2..]);
      if IsLowSurrogate(first) then NoCodePoint
      else if IsHighSurrogate(first) then
        if |s| < 12 || s[6] != BACKSLASH || s[7] != LOWER_U then NoCodePoint
        else
          var second := Hex4(s[8..]);
          if !IsLowSurrogate(second) then NoCodePoint
          else CodePoint(0x1_0000 + (first % 0x400) * 0x400 + second % 0x400, 12)
      else CodePoint(first, 6)
  }

  /** Section 3 of RFC 3629. */
  function Utf8(cp: nat): (r: bytes)
    requires cp <= 0x10FFFF
    ensures |r| == if cp < 0x80 then 1 else if cp < 0x800 then 2 else if cp < 0x1_0000 then 3 else 4
  {
    if cp < 0x80 then [cp]
    else if cp < 0x800 then [0xC0 + cp / 0x40, 0x80 + cp % 0x40]
    else if cp < 0x1_0000 then [0xE0 + cp / 0x1000, 0x80 + cp / 0x40 % 0x40, 0x80 + cp % 0x40]
    else [0xF0 + cp / 0x4_0000, 0x80 + cp / 0x1000 % 0x40, 0x80 + cp / 0x40 % 0x40, 0x80 + cp % 0x40]
  }

  /** What a one-character escape stands for; -1 when there is no such escape. */
  function SimpleEscape(b: byte): (r: int)
    ensures -1 <= r < 256
  {
    if b == LOWER_B then 8
    else if b == LOWER_F then 12
    else if b == LOWER_N then 10
    else if b == LOWER_R then 13
    else if b == LOWER_T then 9
    else if b == QUOTE || b == BACKSLASH || b == SLASH then b
    else -1
  }

  const ESCAPE_LETTERS: string := "\"\\/bfnrt"
  const ESCAPED_BYTES: seq<int> := [0x22, 0x5C, 0x2F, 0x08, 0x0C, 0x0A, 0x0D, 0x09]

  /** The eight letters that may follow a backslash, what they stand for, and that there are no others. */
  lemma {:induction false} EscapeLetters(b: byte)
    ensures forall i :: 0 <= i < 8 && b as int == ESCAPE_LETTERS[i] as int ==> SimpleEscape(b) == ESCAPED_BYTES[i]
    ensures SimpleEscape(b) == -1 <==> forall i :: 0 <= i < 8 ==> b as int != ESCAPE_LETTERS[i] as int
  {
    assert forall i :: 0 <= i < 8 ==> ESCAPE_LETTERS[i] as int == [34, 92, 47, 98, 102, 110, 114, 116][i];
    if SimpleEscape(b) != -1 {
      var i := if b == 34 then 0 else if b == 92 then 1 else if b == 47 then 2 else if b == 98 then 3
               else if b == 102 then 4 else if b == 110 then 5 else if b == 114 then 6 else 7;
      assert b as int == ESCAPE_LETTERS[i] as int;
    }
  }

  /** The unescaped text, or how many bytes of the literal were left when decoding gave up. */
  datatype Unescaped = Text(out: bytes) | Bad(left: nat)

  function Prepend(out: bytes, u: Unescaped): Unescaped {
    match u
    case Text(rest) => Text(out + rest)
    case Bad(left) => Bad(left)
  }

  lemma PrependTwice(a: bytes, b: bytes, u: Unescaped)
    ensures Prepend(a, Prepend(b, u)) == Prepend(a + b, u)
  {
    if u.Text? {
      assert a + (b + u.out) == a + b + u.out;
    }
  }

  /** One decoding step at the head of `s`: the bytes it yields and how much of `s` it consumes.
      A backslash in last place takes the closing quote as its partner and overshoots by one. */
  datatype Step = Stuck | Step(out: bytes, len: nat)

  function DecodeStep(s: bytes): (r: Step)
    requires s != []
    ensures r.Step? ==> 0 < r.len <= |s| + 1 && r.out != []
  {
    if s[0] != BACKSLASH then Step([s[0]], 1)
    else
      var x := if |s| == 1 then QUOTE else s[1];
      if SimpleEscape(x) >= 0 then Step([SimpleEscape(x)], 2)
      else if x == LOWER_U then
        match Utf16(s)
        case NoCodePoint => Stuck
        case CodePoint(cp, len) => Step(Utf8(cp), len)
      else Stuck
  }

  /** A backslash before anything but those letters and `u` is where decoding gives up. */
  lemma {:induction false} OtherEscapesFail(x: byte, rest: bytes)
    requires x != 0x75 && forall i :: 0 <= i < 8 ==> x as int != ESCAPE_LETTERS[i] as int
    ensures DecodeStep([0x5C, x] + rest) == Stuck
  {
    EscapeLetters(x);
  }

  /** `s` without its first `n` bytes; empty when there are fewer. */
  function Drop(s: bytes, n: nat): bytes {
    if n <= |s| then s[n..] else []
  }

  function Unescape(s: bytes): (r: Unescaped)
    ensures r.Bad? ==> r.left <= |s|
    decreases |s|
  {
    if s == [] then Text([])
    else
      match DecodeStep(s)
      case Stuck => Bad(|s|)
      case Step(out, len) => Prepend(out, Unescape(Drop(s, len)))
  }

  /** `\u123\\`: the first pass pairs the two backslashes; the second reads the first of them as a bad digit, and the
      other one together with the closing quote. */
  lemma {:induction false} PassesDisagree(raw: bytes)
    requires raw == [0x5C, 0x75, 0x31, 0x32, 0x33, 0x5C, 0x5C]
    ensures Balanced(raw) && DecodeStep([0x5C]) == Step([0x22], 2) && Unescape(raw) == Text([0, 0x22])
  {
    assert raw[2..] == [0x31, 0x32, 0x33] + [0x5C, 0x5C] && raw[6..] == [0x5C];
    PlainBalanced([0x31, 0x32, 0x33], [0x5C, 0x5C]);
    assert Unescape([0x5C]) == Prepend([0x22], Unescape([]));
    assert DecodeStep(raw) == Step([0], 6);
    assert Unescape(raw) == Prepend([0], Unescape([0x5C]));
  }

  datatype Parsed<+T> = Ok(value: T, offset: nat) | Fail(offset: nat)

  /** parse_string at position `o`: the C string stored, or the position the cursor is left at. */
  function ParseString(c: bytes, o: nat): (r: Parsed<cstring>)
    requires o < |c|
    ensures r.offset <= |c| && o < r.offset
  {
    if c[o] != QUOTE then Fail(o + 1)
    else
      var e := Close(c, o + 1);
      if e == -1 then Fail(o + 1)
      else
        match Unescape(c[o + 1..e])
        case Bad(left) => Fail(e - left)
        case Text(out) => Ok(CStr(out), e + 1)
  }

  // ----- the size estimate: how the two passes can disagree

  /** Does the first pass, started at position 0 of `s`, see the start of an escape at `p`? */
  predicate EscapeStart(s: bytes, p: nat)
    requires p < |s|
  {
    s[p] == BACKSLASH && (p == 0 || !EscapeStart(s, p - 1))
  }

  /** How many escapes the first pass counts before position `p`. */
  function Escapes(s: bytes, p: nat): nat
    requires p <= |s|
  {
    if p == 0 then 0 else Escapes(s, p - 1) + (if EscapeStart(s, p - 1) then 1 else 0)
  }

  /** Escapes never start at adjacent positions, so any window holds at most half of its length, rounded up. */
  lemma {:induction false} EscapesInWindow(s: bytes, p: nat, n: nat)
    requires p + n <= |s|
    ensures Escapes(s, p + n) <= Escapes(s, p) + (n + 1) / 2
    ensures n % 2 == 1 && !EscapeStart(s, p) ==> Escapes(s, p + n) <= Escapes(s, p) + n / 2
    decreases n
  {
    if n == 1 {
      assert Escapes(s, p + 1) == Escapes(s, p) + (if EscapeStart(s, p) then 1 else 0);
    } else if n >= 2 {
      EscapesInWindow(s, p, n - 2);
      assert Escapes(s, p + n) == Escapes(s, p + n - 2)
        + (if EscapeStart(s, p + n - 2) then 1 else 0) + (if EscapeStart(s, p + n - 1) then 1 else 0);
    }
  }

  /** One decoding step keeps the number of bytes written within position minus escapes counted so far. */
  lemma {:induction false} StepFits(s: bytes, p: nat)
    requires p < |s| && DecodeStep(s[p..]).Step?
    ensures var step := DecodeStep(s[p..]);
      && (p + step.len <= |s| ==> |step.out| + Escapes(s, p + step.len) <= Escapes(s, p) + step.len)
      && (p + step.len > |s| ==> |step.out| + Escapes(s, |s|) <= Escapes(s, p) + step.len)
  {
    var step := DecodeStep(s[p..]);
    if p + step.len <= |s| {
      EscapesInWindow(s, p, step.len);
    } else {
      EscapesInWindow(s, p, 1);
    }
  }

  /** Whatever escapes the literal `s` contains, decoding it from `p` on writes at most the number
      of bytes the first pass reserves, even when the two passes cut `s` into different escapes. */
  lemma {:induction false} UnescapeFits(s: bytes, p: nat)
    requires p <= |s| && Unescape(s[p..]).Text?
    ensures |Unescape(s[p..]).out| + Escapes(s, |s|) <= Escapes(s, p) + (|s| - p) + 1
    decreases |s| - p
  {
    hide DecodeStep, EscapeStart;
    if p < |s| {
      StepFits(s, p);
      var step := DecodeStep(s[p..]);
      if p + step.len <= |s| {
        assert Drop(s[p..], step.len) == s[p + step.len..];
        UnescapeFits(s, p + step.len);
      }
    }
  }
}

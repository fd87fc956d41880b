/** The loops that read a string literal: parse_hex4, utf16_literal_to_utf8 and the two passes of parse_string. */
module StringDecoder {
  import opened Bytes
  import opened StringSpec

  /** parse_hex4 */
  method ParseHex4(input: bytes, at: nat) returns (h: nat)
    requires at + 4 <= |input|
    ensures h == Hex4(input[at..])
  {
    h := 0;
    var i := 0;
    while i < 4
      invariant 0 <= i <= 4
      invariant forall k :: 0 <= k < i ==> IsHex(input[at..][k])
      invariant h == HexPrefix(input[at..], i)
    {
      var b := input[at + i];
      assert b == input[at..][i];
      if 48 <= b <= 57 {
        h := h + (b - 48);
      } else if 65 <= b <= 70 {
        h := h + 10 + b - 65;
      } else if 97 <= b <= 102 {
        h := h + 10 + b - 97;
      } else {
        return 0;
      }
      if i < 3 {
        h := 16 * h;
      }
      i := i + 1;
    }
    HexPrefixWhole(input[at..]);
  }

  /** The accumulator of parse_hex4 after `i` digits; it is shifted except after the last. */
  function HexPrefix(s: bytes, i: nat): nat
    requires |s| >= 4 && i <= 4
    requires forall k :: 0 <= k < i ==> IsHex(s[k])
  {
    if i == 0 then 0
    else
      assert IsHex(s[i - 1]);
      var h := HexPrefix(s, i - 1) + HexDigit(s[i - 1]);
      if i < 4 then 16 * h else h
  }

  lemma {:induction false} HexPrefixWhole(s: bytes)
    requires |s| >= 4 && forall k :: 0 <= k < 4 ==> IsHex(s[k])
    ensures HexPrefix(s, 4) == Hex4(s)
  {
    assert HexPrefix(s, 1) == 16 * HexDigit(s[0]);
    assert HexPrefix(s, 2) == 16 * (16 * HexDigit(s[0]) + HexDigit(s[1]));
    assert HexPrefix(s, 3) == 16 * (16 * (16 * HexDigit(s[0]) + HexDigit(s[1])) + HexDigit(s[2]));
  }

  /** utf16_literal_to_utf8 on the literal that ends at `end`, writing at `to`; 0 when it fails. */
  method Utf16LiteralToUtf8(input: bytes, at: nat, end: nat, output: array<byte>, to: nat) returns (len: nat, next: nat)
    requires at <= end <= |input|
    requires var r := Utf16(input[at..end]); r.CodePoint? ==> to + |Utf8(r.value)| <= output.Length
    modifies output
    ensures match Utf16(input[at..end])
      case NoCodePoint =>
        && len == 0 && next == to
        && forall i {:trigger output[i]} :: 0 <= i < output.Length ==> output[i] == old(output[i])
      case CodePoint(cp, l) => len == l && next == to + |Utf8(cp)| && Spelled(output, to, Utf8(cp))
    ensures forall i {:trigger output[i]} :: 0 <= i < to && i < output.Length ==> output[i] == old(output[i])
  {
    hide Hex4, Utf8, Spelled;
    ghost var s := input[at..end];
    len, next := 0, to;
    if end - at < 6 {
      return;
    }
    var first := ParseHex4(input, at + 2);
    Hex4Prefix(input, at, end, 2);
    if 0xDC00 <= first <= 0xDFFF {
      return;
    }
    var codepoint;
    if 0xD800 <= first <= 0xDBFF {
      if end - (at + 6) < 6 {
        return;
      }
      if input[at + 6] != BACKSLASH || input[at + 7] != LOWER_U {
        return;
      }
      var second := ParseHex4(input, at + 8);
      Hex4Prefix(input, at, end, 8);
      if second < 0xDC00 || second > 0xDFFF {
        return;
      }
      len := 12;
      codepoint := 0x1_0000 + (first % 0x400) * 0x400 + second % 0x400;
    } else {
      len := 6;
      codepoint := first;
    }
    next := EncodeUtf8(codepoint, output, to);
  }

  lemma {:induction false} Hex4Prefix(input: bytes, at: nat, end: nat, k: nat)
    requires at + k + 4 <= end <= |input|
    ensures Hex4(input[at..end][k..]) == Hex4(input[at + k..])
  {
  }

  /** The encoding loop at the end of utf16_literal_to_utf8: continuation bytes last to first, six bits each. */
  method EncodeUtf8(cp: nat, output: array<byte>, to: nat) returns (next: nat)
    requires cp <= 0x10FFFF && to + |Utf8(cp)| <= output.Length
    modifies output
    ensures next == to + |Utf8(cp)| && Spelled(output, to, Utf8(cp))
    ensures forall i {:trigger output[i]} :: 0 <= i < to ==> output[i] == old(output[i])
  {
    hide Utf8;
    var length, mark;
    if cp < 0x80 {
      length, mark := 1, 0;
    } else if cp < 0x800 {
      length, mark := 2, 0xC0;
    } else if cp < 0x1_0000 {
      length, mark := 3, 0xE0;
    } else {
      length, mark := 4, 0xF0;
    }
    var codepoint := cp;
    var position := length - 1;
    Shifted(cp);
    while position > 0
      invariant 0 <= position < length
      invariant codepoint == Shift(cp, length - 1 - position)
      invariant forall i {:trigger output[i]} :: 0 <= i <= to + position ==> i < to ==> output[i] == old(output[i])
      invariant forall i {:trigger output[i]} :: to + position < i < to + length ==> output[i] == Utf8(cp)[i - to]
    {
      output[to + position] := 0x80 + codepoint % 0x40;
      codepoint := codepoint / 0x40;
      position := position - 1;
    }
    if length > 1 {
      output[to] := mark + codepoint;
    } else {
      output[to] := codepoint;
    }
    next := to + length;
  }

  /** `cp` shifted right by 6 * `k` bits. */
  function Shift(cp: nat, k: nat): nat {
    if k == 0 then cp else Shift(cp, k - 1) / 0x40
  }

  /** The bytes of the encoding in terms of the shifted code point. */
  lemma {:induction false} Shifted(cp: nat)
    requires cp <= 0x10FFFF
    ensures var n := |Utf8(cp)|;
      && Utf8(cp)[0] == Shift(cp, n - 1)
           + (if n == 1 then 0 else if n == 2 then 0xC0 else if n == 3 then 0xE0 else 0xF0)
      && forall k :: 0 <= k < n - 1 ==> Utf8(cp)[n - 1 - k] == 0x80 + Shift(cp, k) % 0x40
  {
    assert Shift(cp, 1) == cp / 0x40;
    assert Shift(cp, 2) == cp / 0x40 / 0x40 == cp / 0x1000;
    assert Shift(cp, 3) == cp / 0x40 / 0x40 / 0x40 == cp / 0x4_0000;
  }

  // ----- the first pass

  /** Counting escapes in a prefix of the literal. */
  lemma {:induction false} StartsInPrefix(s: bytes, n: nat, p: nat)
    requires p < n <= |s|
    ensures EscapeStart(s[..n], p) == EscapeStart(s, p)
  {
    if p > 0 {
      StartsInPrefix(s, n, p - 1);
    }
  }

  lemma {:induction false} EscapesInPrefix(s: bytes, n: nat, p: nat)
    requires p <= n <= |s|
    ensures Escapes(s[..n], p) == Escapes(s, p)
  {
    if p > 0 {
      EscapesInPrefix(s, n, p - 1);
      StartsInPrefix(s, n, p - 1);
    }
  }

  /** The scan of parse_string for the closing quote. `end` is where it stops and `skipped` the number
      of escapes passed; the literal is unterminated when `end` is -1. */
  method FindEnd(content: bytes, start: nat) returns (end: int, skipped: nat)
    requires start <= |content|
    ensures end == Close(content, start)
    ensures end != -1 ==> skipped == Escapes(content[start..end], end - start)
  {
    hide Escapes, EscapeStart;
    ghost var s := content[start..];
    end, skipped := start, 0;
    NoEscapes(s);
    while end < |content| && content[end] != QUOTE
      invariant start <= end <= |content|
      invariant Close(content, start) == Close(content, end)
      invariant skipped == Escapes(s, end - start)
      invariant end > start ==> Boundary(s, end - start)
    {
      if content[end] == BACKSLASH {
        if end + 1 >= |content| {
          return -1, skipped;
        }
        EscapePassed(s, end - start);
        skipped := skipped + 1;
        end := end + 1;
      } else {
        PlainPassed(s, end - start);
      }
      end := end + 1;
    }
    if end >= |content| || content[end] != QUOTE {
      return -1, skipped;
    }
    EscapesInPrefix(s, end - start, end - start);
    assert s[..end - start] == content[start..end];
  }

  /** The byte before `p` does not start an escape. */
  ghost predicate Boundary(s: bytes, p: nat) {
    0 < p <= |s| && !EscapeStart(s, p - 1)
  }

  lemma NoEscapes(s: bytes)
    ensures Escapes(s, 0) == 0
  {
  }

  lemma {:induction false} EscapePassed(s: bytes, p: nat)
    requires p + 1 < |s| && s[p] == BACKSLASH && (p > 0 ==> Boundary(s, p))
    ensures Escapes(s, p + 2) == Escapes(s, p) + 1 && Boundary(s, p + 2)
  {
    assert EscapeStart(s, p) && !EscapeStart(s, p + 1);
  }

  lemma {:induction false} PlainPassed(s: bytes, p: nat)
    requires p < |s| && s[p] != BACKSLASH
    ensures Escapes(s, p + 1) == Escapes(s, p) && Boundary(s, p + 1)
  {
  }

  // ----- the second pass

  /** The room left in the output never runs out, whichever bytes the escapes are made of. */
  lemma {:induction false} StepHasRoom(s: bytes, p: nat, written: nat)
    requires p < |s| && DecodeStep(s[p..]).Step? && written + Escapes(s, p) <= p
    ensures var step := DecodeStep(s[p..]);
      && written + |step.out| + Escapes(s, |s|) <= |s| + 1
      && (p + step.len <= |s| ==> written + |step.out| + Escapes(s, p + step.len) <= p + step.len)
  {
    hide DecodeStep, Escapes;
    StepFits(s, p);
    var step := DecodeStep(s[p..]);
    if p + step.len <= |s| {
      EscapesGrow(s, p + step.len, |s|);
    }
  }

  lemma {:induction false} EscapesGrow(s: bytes, p: nat, q: nat)
    requires p <= q <= |s|
    ensures Escapes(s, q) <= Escapes(s, p) + (q - p)
    decreases q - p
  {
    if p < q {
      EscapesGrow(s, p, q - 1);
    }
  }

  lemma {:induction false} UnescapeStep(c: bytes, p: nat, e: nat)
    requires p < e <= |c|
    ensures match DecodeStep(c[p..e])
      case Stuck => Unescape(c[p..e]) == Bad(e - p)
      case Step(out, len) =>
        Unescape(c[p..e]) == Prepend(out, Unescape(if p + len <= e then c[p + len..e] else []))
  {
    hide DecodeStep;
    var s := c[p..e];
    match DecodeStep(s)
    case Stuck =>
    case Step(out, len) =>
      if p + len <= e {
        assert Drop(s, len) == c[p + len..e];
      }
  }

  /** One turn of the decoding loop at `p`: the bytes written at `to`, and how far the input moves (0 on failure). */
  method DecodeOne(content: bytes, p: nat, end: nat, output: array<byte>, to: nat) returns (len: nat, next: nat)
    requires p < end < |content| && content[end] == QUOTE
    requires var r := DecodeStep(content[p..end]); r.Step? ==> to + |r.out| <= output.Length
    modifies output
    ensures match DecodeStep(content[p..end])
      case Stuck => len == 0
      case Step(out, l) => len == l && next == to + |out| && Spelled(output, to, out)
    ensures forall i {:trigger output[i]} :: 0 <= i < to && i < output.Length ==> output[i] == old(output[i])
  {
    hide Utf16, Utf8;
    len, next := 2, to;
    ghost var s := content[p..end];
    assert s[0] == content[p];
    if content[p] != BACKSLASH {
      output[to] := content[p];
      return 1, to + 1;
    }
    var x := content[p + 1];
    assert x == if |s| == 1 then QUOTE else s[1];
    match x
    case 98 => output[to] := 8; next := to + 1;
    case 102 => output[to] := 12; next := to + 1;
    case 110 => output[to] := 10; next := to + 1;
    case 114 => output[to] := 13; next := to + 1;
    case 116 => output[to] := 9; next := to + 1;
    case 34 => output[to] := x; next := to + 1;
    case 92 => output[to] := x; next := to + 1;
    case 47 => output[to] := x; next := to + 1;
    case 117 => len, next := Utf16LiteralToUtf8(content, p, end, output, to);
    case _ => len := 0;
  }

  /** What is left of the literal when the input pointer stands at `p`, possibly one past its end. */
  function Rest(content: bytes, p: nat, end: nat): bytes
    requires p <= end + 1 && end <= |content|
  {
    if p <= end then content[p..end] else []
  }

  /** The decoding loop of parse_string. It fails at the position the decoder gives up, and otherwise
      leaves the decoded text and a terminator in `output`, which is as long as the first pass asked for. */
  method Decode(content: bytes, start: nat, end: nat, output: array<byte>) returns (ok: bool, input: nat)
    requires start <= end < |content| && content[end] == QUOTE
    requires output.Length == (end - start) + 2 - Escapes(content[start..end], end - start)
    modifies output
    ensures match Unescape(content[start..end])
      case Bad(left) => !ok && input == end - left
      case Text(out) => ok && Spelled(output, 0, out + [0])
  {
    hide Escapes, Unescape, DecodeStep, Rest;
    ghost var s := content[start..end];
    ghost var done: bytes := [];
    var to := 0;
    input := start;
    StartOfLiteral(content, start, end, output);
    while input < end
      invariant start <= input <= end + 1 && |done| == to
      invariant Unescape(s) == Prepend(done, Unescape(Rest(content, input, end)))
      invariant Spelled(output, 0, done)
      invariant to + Escapes(s, |s|) <= |s| + 1
      invariant input <= end ==> to + Escapes(s, input - start) <= input - start
      decreases end + 1 - input
    {
      StepInLiteral(content, start, input, end, to, done);
      var len, next := DecodeOne(content, input, end, output, to);
      if len == 0 {
        return false, input;
      }
      ghost var out := DecodeStep(content[input..end]).out;
      SpelledMore(output, done, out);
      done := done + out;
      to := next;
      input := input + len;
    }
    EndOfLiteral(content, input, end, done);
    output[to] := 0;
    SpelledMore(output, done, [0]);
    ok := true;
  }

  lemma StartOfLiteral(content: bytes, start: nat, end: nat, output: array<byte>)
    requires start <= end <= |content|
    ensures Unescape(content[start..end]) == Prepend([], Unescape(Rest(content, start, end)))
    ensures Spelled(output, 0, []) && Escapes(content[start..end], 0) == 0
    ensures Escapes(content[start..end], end - start) <= end - start
  {
    EscapesGrow(content[start..end], 0, end - start);
    if Unescape(content[start..end]).Text? {
      assert [] + Unescape(content[start..end]).out == Unescape(content[start..end]).out;
    }
  }

  lemma EndOfLiteral(content: bytes, input: nat, end: nat, done: bytes)
    requires end <= input <= end + 1 && end <= |content|
    ensures Prepend(done, Unescape(Rest(content, input, end))) == Text(done)
  {
    assert Rest(content, input, end) == [];
    assert done + [] == done;
  }

  /** One turn: what decoding has still to yield, and the room it needs. */
  lemma {:induction false} StepInLiteral(content: bytes, start: nat, input: nat, end: nat, to: nat, done: bytes)
    requires start <= input < end <= |content|
    requires to + Escapes(content[start..end], input - start) <= input - start
    ensures var s := content[start..end]; var before := Prepend(done, Unescape(Rest(content, input, end)));
      match DecodeStep(content[input..end])
      case Stuck => before == Bad(end - input)
      case Step(out, len) =>
        && input + len <= end + 1
        && before == Prepend(done + out, Unescape(Rest(content, input + len, end)))
        && to + |out| + Escapes(s, |s|) <= |s| + 1
        && (input + len <= end ==> to + |out| + Escapes(s, input + len - start) <= input + len - start)
  {
    hide Escapes, Unescape, DecodeStep;
    var s := content[start..end];
    assert s[input - start..] == content[input..end];
    UnescapeStep(content, input, end);
    match DecodeStep(content[input..end])
    case Stuck =>
    case Step(out, len) =>
      StepHasRoom(s, input - start, to);
      PrependTwice(done, out, Unescape(Rest(content, input + len, end)));
  }
}

/** Bytes, C strings, and the character codes the JSON code compares against. */
module Bytes {
  type byte = x: int | 0 <= x < 256
  type bytes = seq<byte>

  ghost predicate NulFree(s: bytes) {
    forall i :: 0 <= i < |s| ==> s[i] != 0
  }

  /** The characters of a `char*` string: everything before its terminator. */
  type cstring = s: bytes | NulFree(s)

  const TAB: byte := 9
  const NEWLINE: byte := 10
  const RETURN: byte := 13
  const SPACE: byte := 32
  const QUOTE: byte := 34
  const PLUS: byte := 43
  const COMMA: byte := 44
  const MINUS: byte := 45
  const DOT: byte := 46
  const SLASH: byte := 47
  const STAR: byte := 42
  const COLON: byte := 58
  const UPPER_E: byte := 69
  const LBRACKET: byte := 91
  const BACKSLASH: byte := 92
  const RBRACKET: byte := 93
  const LOWER_B: byte := 98
  const LOWER_E: byte := 101
  const LOWER_F: byte := 102
  const LOWER_N: byte := 110
  const LOWER_R: byte := 114
  const LOWER_T: byte := 116
  const LOWER_U: byte := 117
  const LBRACE: byte := 123
  const RBRACE: byte := 125

  const NULL_TEXT: bytes := [110, 117, 108, 108]
  const TRUE_TEXT: bytes := [116, 114, 117, 101]
  const FALSE_TEXT: bytes := [102, 97, 108, 115, 101]
  const BOM: bytes := [0xEF, 0xBB, 0xBF]

  const UPPER_HEX: string := "0123456789ABCDEF"
  const LOWER_HEX: string := "0123456789abcdef"

  /** The hexadecimal digits, in either case. */
  ghost predicate DigitSpells(b: byte, d: int) {
    0 <= d < 16 && (b as int == UPPER_HEX[d] as int || b as int == LOWER_HEX[d] as int)
  }

  /** The bytes of a text of ASCII characters. */
  function Ascii(s: string): (r: bytes)
    requires forall i :: 0 <= i < |s| ==> s[i] as int < 128
    ensures |r| == |s| && forall i :: 0 <= i < |s| ==> r[i] == s[i] as int
  {
    seq(|s|, i requires 0 <= i < |s| => s[i] as int)
  }

  const INT_MAX: int := 0x7FFF_FFFF
  const INT_MIN: int := -0x8000_0000

  /** What strlen, strcmp and strcpy see of a block: the bytes before its first NUL. */
  function CStr(s: bytes): (r: cstring)
    ensures r <= s
    ensures |r| < |s| ==> s[|r|] == 0
  {
    if s == [] || s[0] == 0 then []
    else
      var rest := CStr(s[1..]);
      assert s == [s[0]] + s[1..];
      [s[0]] + rest
  }

  lemma {:induction false} CStrUnique(s: bytes, n: nat)
    requires n < |s| && s[n] == 0 && NulFree(s[..n])
    ensures CStr(s) == s[..n]
  {
    if n > 0 {
      assert s[..n][0] != 0;
      assert s[1..][..n - 1] == s[..n][1..];
      CStrUnique(s[1..], n - 1);
      assert s[..n] == [s[0]] + s[1..][..n - 1];
    }
  }

  lemma {:induction false} CStrOfCString(s: cstring)
    ensures CStr(s) == s
  {
    if s != [] {
      CStrOfCString(s[1..]);
    }
  }

  /** `part` occupies the bytes of `c` from position `o` on. */
  ghost predicate At(c: bytes, o: nat, part: bytes) {
    o + |part| <= |c| && c[o..o + |part|] == part
  }

  lemma AtSplit(c: bytes, o: nat, a: bytes, b: bytes)
    requires At(c, o, a + b)
    ensures At(c, o, a) && At(c, o + |a|, b)
  {
    var whole := c[o..o + |a + b|];
    assert a == whole[..|a|] == c[o..o + |a|];
    assert b == whole[|a|..] == c[o + |a|..o + |a| + |b|];
  }

  lemma AtJoin(c: bytes, o: nat, a: bytes, b: bytes)
    requires At(c, o, a) && At(c, o + |a|, b)
    ensures At(c, o, a + b)
  {
    assert c[o..o + |a + b|] == c[o..o + |a|] + c[o + |a|..o + |a| + |b|];
  }

  lemma AtHead(c: bytes, o: nat, part: bytes)
    requires At(c, o, part) && |part| > 0
    ensures o < |c| && c[o] == part[0]
    ensures At(c, o + 1, part[1..])
  {
    assert part == [part[0]] + part[1..];
    AtSplit(c, o, [part[0]], part[1..]);
    assert c[o] == c[o..o + 1][0];
  }

  /** The bytes from `at` on are those of `part`. */
  ghost predicate Spelled(a: array<byte>, at: nat, part: bytes)
    reads a
  {
    at + |part| <= a.Length && forall i {:trigger a[i]} :: at <= i < at + |part| ==> a[i] == part[i - at]
  }

  lemma SpelledMore(a: array<byte>, done: bytes, out: bytes)
    requires Spelled(a, 0, done) && Spelled(a, |done|, out)
    ensures Spelled(a, 0, done + out)
  {
  }

  /** The characters of a string in memory and its terminator, one by one. */
  lemma StringEnd(block: array<byte>, chars: cstring)
    requires |chars| < block.Length && CStr(block[..]) == chars
    ensures forall k {:trigger chars[k]} {:trigger block[k]} :: 0 <= k < |chars| ==>
      block[k] == chars[k] && block[k] != 0
    ensures block[|chars|] == 0
  {
    assert chars <= block[..];
    assert forall k {:trigger block[k]} :: 0 <= k < |chars| ==> block[..][k] == chars[k];
  }

  lemma Regroup(a: bytes, b: bytes, c: bytes)
    ensures a + (b + c) == a + b + c && a + (b + []) == a + b
  {
  }
}

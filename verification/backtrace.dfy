/** The call-stack scanner of cm_backtrace, in its bare-metal configuration. */
module Backtrace {
  import opened Bytes
  import opened Words
  import opened Json
  import opened RenderSpec
  import opened RenderFacts
  import opened StringSpec

  /** What the processor reads at an address. */
  type Memory = word -> byte

  const MAX_DEPTH: nat := 32

  function Read16(m: Memory, addr: word): nat {
    m(addr) as nat + 256 * (m(Wrap(addr + 1)) as nat)
  }

  function Read32(m: Memory, addr: word): word {
    Read16(m, addr) + 65536 * Read16(m, Wrap(addr + 2))
  }

  /** Whether a BL starts at the address, or a BLX (register) two bytes behind it. */
  predicate IsBlOrBlx(m: Memory, addr: word) {
    var ins1, ins2 := Read16(m, addr), Read16(m, Wrap(addr + 2));
    (ins1 / 2048 == 30 && ins2 / 2048 == 31) || ins2 / 256 == 0x47
  }

  datatype Code = Code(start: word, size: word)

  /** A stack word that can be the return address of a call: a Thumb address in the code, behind a call. */
  predicate IsReturnAddress(m: Memory, code: Code, w: word) {
    && w % 2 == 1
    && Wrap(code.start + 4) <= w - 1 <= Wrap(code.start + code.size)
    && IsBlOrBlx(m, Wrap(w - 1 - 4))
  }

  // ----- what a call looks like in memory

  /** BL: two halfwords, each with eleven bits of the target, low byte first. */
  function EncodeBl(hi: nat, lo: nat): seq<byte>
    requires hi < 0x800 && lo < 0x800
  {
    [(0xF000 + hi) % 0x100, (0xF000 + hi) / 0x100, (0xF800 + lo) % 0x100, (0xF800 + lo) / 0x100]
  }

  /** The branch to a register. */
  function EncodeBlx(x: byte): seq<byte> {
    [x, 0x47]
  }

  function BytesAt(m: Memory, addr: int, n: nat): (r: seq<byte>)
    ensures |r| == n && forall i :: 0 <= i < n ==> r[i] == m((addr + i) % 0x1_0000_0000)
  {
    seq(n, i requires 0 <= i < n => m((addr + i) % 0x1_0000_0000))
  }

  ghost predicate IsBl(code: seq<byte>) {
    exists hi: nat, lo: nat :: hi < 0x800 && lo < 0x800 && code == EncodeBl(hi, lo)
  }

  ghost predicate IsBlx(code: seq<byte>) {
    exists x: byte :: code == EncodeBlx(x)
  }

  /** A stack word that points behind a call: an odd word, one more than an address in the code, and the bytes
      before that address are a call. */
  ghost predicate PointsBehindCall(m: Memory, code: Code, w: word) {
    && w % 2 == 1
    && (code.start + 4) % 0x1_0000_0000 <= w - 1 <= (code.start + code.size) % 0x1_0000_0000
    && (IsBl(BytesAt(m, w - 5, 4)) || IsBlx(BytesAt(m, w - 3, 2)))
  }

  /** Low byte first. */
  lemma {:induction false} LittleEndian(m: Memory, addr: word)
    ensures Read16(m, addr) == m(addr) + 0x100 * m((addr + 1) % 0x1_0000_0000)
    ensures Read32(m, addr) ==
      m(addr) + 0x100 * m((addr + 1) % 0x1_0000_0000) + 0x1_0000 * m((addr + 2) % 0x1_0000_0000)
        + 0x100_0000 * m((addr + 3) % 0x1_0000_0000)
  {
    assert Wrap(Wrap(addr + 2) + 1) == (addr + 3) % 0x1_0000_0000;
  }

  lemma {:induction false} BlPair(a: byte, b: byte, c: byte, d: byte)
    ensures IsBl([a, b, c, d]) <==> (a + 0x100 * b) / 2048 == 30 && (c + 0x100 * d) / 2048 == 31
  {
    var ins1, ins2: nat := a + 0x100 * b, c + 0x100 * d;
    if ins1 / 2048 == 30 && ins2 / 2048 == 31 {
      var hi, lo: nat := ins1 - 0xF000, ins2 - 0xF800;
      assert [a, b, c, d] == EncodeBl(hi, lo);
    }
    if hi: nat, lo: nat :| hi < 0x800 && lo < 0x800 && [a, b, c, d] == EncodeBl(hi, lo) {
      var code := EncodeBl(hi, lo);
      assert a == code[0] && b == code[1] && c == code[2] && d == code[3];
      assert ins1 == 0xF000 + hi && ins2 == 0xF800 + lo;
    }
  }

  lemma {:induction false} BlxHalf(c: byte, d: byte)
    ensures IsBlx([c, d]) <==> (c + 0x100 * d) / 256 == 0x47
  {
    if d == 0x47 {
      assert [c, d] == EncodeBlx(c);
    }
    if x: byte :| [c, d] == EncodeBlx(x) {
      assert d == EncodeBlx(x)[1];
    }
  }

  lemma {:induction false} CallBefore(m: Memory, w: word)
    ensures IsBlOrBlx(m, Wrap(w - 5)) <==> IsBl(BytesAt(m, w - 5, 4)) || IsBlx(BytesAt(m, w - 3, 2))
  {
    hide IsBl, IsBlx, Read16, Read32;
    var four, two := BytesAt(m, w - 5, 4), BytesAt(m, w - 3, 2);
    var addr: word := Wrap(w - 5);
    var next: word := Wrap(addr + 2);
    LittleEndian(m, addr);
    LittleEndian(m, next);
    Neighbours(w);
    assert four == [m(addr), m((w - 4) % 0x1_0000_0000), m(next), m((w - 2) % 0x1_0000_0000)];
    assert two == [m(next), m((w - 2) % 0x1_0000_0000)];
    BlPair(four[0], four[1], four[2], four[3]);
    BlxHalf(two[0], two[1]);
  }

  /** The addresses of the bytes before an address. */
  lemma Neighbours(w: word)
    ensures Wrap(Wrap(w - 5) + 2) == (w - 3) % 0x1_0000_0000
    ensures (Wrap(w - 5) + 1) % 0x1_0000_0000 == (w - 4) % 0x1_0000_0000
    ensures (Wrap(Wrap(w - 5) + 2) + 1) % 0x1_0000_0000 == (w - 2) % 0x1_0000_0000
  {
  }

  /** The tests of the scan loops pick exactly the words that point behind a call. */
  lemma {:induction false} ReturnAddressMeans(m: Memory, code: Code, w: word)
    ensures IsReturnAddress(m, code, w) <==> PointsBehindCall(m, code, w)
  {
    hide IsBl, IsBlx, IsBlOrBlx;
    CallBefore(m, w);
    assert w - 1 - 4 == w - 5;
  }

  /** The words of the stack from `sp` up to `end`. */
  function StackWords(m: Memory, sp: nat, end: word): seq<word>
    decreases if sp < end then end - sp else 0
  {
    if sp >= end then [] else [Read32(m, sp)] + StackWords(m, sp + 4, end)
  }

  /** The return addresses among some stack words, in order, as addresses of instructions. */
  function Callers(m: Memory, code: Code, words: seq<word>): seq<word> {
    if words == [] then []
    else (if IsReturnAddress(m, code, words[0]) then [words[0] - 1] else []) + Callers(m, code, words[1..])
  }

  function Take(n: nat, s: seq<word>): seq<word> {
    if |s| <= n then s else s[..n]
  }

  function SkipRepeats(lr: word, s: seq<word>): seq<word> {
    if s != [] && s[0] == lr then SkipRepeats(lr, s[1..]) else s
  }

  /** The registers saved on a fault. */
  datatype Fault = NoFault | Fault(pc: word, lr: word)

  predicate LrInCode(code: Code, lr: word) {
    code.start <= Wrap(lr - 1) <= Wrap(code.start + code.size)
  }

  /** The whole call stack: on a fault the program counter, then the link register if it lies in the code;
      then the callers on the stack, without repeating the link register right behind itself. */
  function CallStack(code: Code, fault: Fault, callers: seq<word>): seq<word> {
    match fault
    case NoFault => callers
    case Fault(pc, lr) =>
      if LrInCode(code, lr) then [pc, Wrap(lr - 1)] + SkipRepeats(Wrap(lr - 1), callers) else [pc] + callers
  }

  /** On a fault the program counter comes first. The link register comes second if it is an address in the code, and
      then its copies at the start of the callers are left out. */
  lemma {:induction false} CallStackShape(code: Code, fault: Fault, callers: seq<word>) returns (n: nat)
    ensures var stack := CallStack(code, fault, callers);
      match fault
      case NoFault => stack == callers
      case Fault(pc, lr) =>
        var ret := (lr - 1) % 0x1_0000_0000;
        && |stack| >= 1 && stack[0] == pc
        && if code.start <= ret <= (code.start + code.size) % 0x1_0000_0000 then
             && |stack| >= 2 && stack[1] == ret && n <= |callers| && stack[2..] == callers[n..]
             && (forall i :: 0 <= i < n ==> callers[i] == ret) && (n < |callers| ==> callers[n] != ret)
           else stack[1..] == callers
  {
    n := 0;
    if fault.Fault? {
      n := SkipsOnlyRepeats(Wrap(fault.lr - 1), callers);
    }
  }

  // ----- what the scan finds

  /** Where the return addresses stand, counting from `from`. */
  function Positions(m: Memory, code: Code, words: seq<word>, from: nat): seq<nat> {
    if words == [] then []
    else (if IsReturnAddress(m, code, words[0]) then [from] else []) + Positions(m, code, words[1..], from + 1)
  }

  /** Only words that point behind a call are reported, in the order in which they stand on the stack. */
  lemma {:induction false} CallersInOrder(m: Memory, code: Code, words: seq<word>, from: nat)
    ensures var ps, cs := Positions(m, code, words, from), Callers(m, code, words);
      && |ps| == |cs|
      && (forall i :: 0 <= i < |ps| ==>
            && from <= ps[i] < from + |words| && PointsBehindCall(m, code, words[ps[i] - from])
            && cs[i] as int == words[ps[i] - from] as int - 1)
      && (forall i, j :: 0 <= i < j < |ps| ==> ps[i] < ps[j])
    decreases words
  {
    hide IsReturnAddress, PointsBehindCall;
    OddOnly(m, code, words);
    if words != [] {
      CallersInOrder(m, code, words[1..], from + 1);
      var ps, cs := Positions(m, code, words, from), Callers(m, code, words);
      var ps', cs' := Positions(m, code, words[1..], from + 1), Callers(m, code, words[1..]);
      ReturnAddressMeans(m, code, words[0]);
      var n := if IsReturnAddress(m, code, words[0]) then 1 else 0;
      assert forall i {:trigger ps[i]} :: n <= i < |ps| ==> ps[i] == ps'[i - n];
      assert forall i {:trigger cs[i]} :: n <= i < |cs| ==> cs[i] == cs'[i - n];
    }
  }

  lemma OddOnly(m: Memory, code: Code, words: seq<word>)
    ensures forall i {:trigger words[i]} :: 0 <= i < |words| && IsReturnAddress(m, code, words[i]) ==> words[i] > 0
  {
  }

  /** No word that points behind a call is missed. */
  lemma {:induction false} NoneMissed(m: Memory, code: Code, words: seq<word>, from: nat, k: nat)
    requires k < |words| && PointsBehindCall(m, code, words[k])
    ensures from + k in Positions(m, code, words, from)
    decreases words
  {
    hide IsReturnAddress, PointsBehindCall;
    ReturnAddressMeans(m, code, words[k]);
    if k > 0 {
      NoneMissed(m, code, words[1..], from + 1, k - 1);
    }
  }

  lemma {:induction false} CallersMore(m: Memory, code: Code, words: seq<word>, w: word)
    ensures Callers(m, code, words + [w]) ==
      Callers(m, code, words) + if IsReturnAddress(m, code, w) then [w - 1] else []
  {
    hide IsReturnAddress;
    if words == [] {
      assert [] + [w] == [w] && [w][1..] == [];
    } else {
      CallersMore(m, code, words[1..], w);
      assert (words + [w])[1..] == words[1..] + [w];
    }
  }

  lemma {:induction false} StackWordAt(m: Memory, sp: nat, end: word, k: nat)
    ensures |StackWords(m, sp, end)| == if sp < end then (end - sp + 3) / 4 else 0
    ensures sp + 4 * k < end ==> k < |StackWords(m, sp, end)| && StackWords(m, sp, end)[k] == Read32(m, sp + 4 * k)
    decreases if sp < end then end - sp else 0
  {
    hide Read32;
    if sp < end {
      StackWordAt(m, sp + 4, end, if k > 0 then k - 1 else 0);
    }
  }

  lemma {:induction false} SkipMore(lr: word, s: seq<word>, w: word)
    ensures SkipRepeats(lr, s + [w]) ==
      if SkipRepeats(lr, s) == [] && w == lr then [] else SkipRepeats(lr, s) + [w]
  {
    if s == [] {
      assert [] + [w] == [w] && [w][1..] == [];
    } else if s[0] == lr {
      SkipMore(lr, s[1..], w);
      assert (s + [w])[1..] == s[1..] + [w];
    }
  }

  /** What the scan leaves out is a run of link registers at the bottom, and it goes no further. */
  lemma {:induction false} SkipsOnlyRepeats(lr: word, s: seq<word>) returns (n: nat)
    ensures n <= |s| && SkipRepeats(lr, s) == s[n..]
    ensures (forall i :: 0 <= i < n ==> s[i] == lr) && (n < |s| ==> s[n] != lr)
  {
    n := 0;
    if s != [] && s[0] == lr {
      n := SkipsOnlyRepeats(lr, s[1..]);
      n := n + 1;
      assert s[1..][n - 1..] == s[n..];
    }
  }

  // ----- the scanner

  /** `found` stands at the start of the buffer. */
  ghost predicate Stored(buffer: array<word>, found: seq<word>)
    reads buffer
  {
    |found| <= buffer.Length && forall i {:trigger buffer[i]} :: 0 <= i < |found| ==> buffer[i] == found[i]
  }

  /** Never more entries than the buffer is said to hold, and never more than 32. */
  function Limit(size: nat): (n: nat)
    ensures n <= size && n <= 32 && (n == size || n == 32)
  {
    if size < MAX_DEPTH then size else MAX_DEPTH
  }

  /** The cursor of the scan loops after `k` turns, in 32-bit arithmetic. */
  function Cursor(sp: word, k: nat): word {
    Wrap(sp + 4 * k)
  }

  /** The first cursor that is not below the end of the stack is an address. */
  predicate Reaches(sp: word, end: word) {
    sp >= end || sp + (end - sp + 3) / 4 * 4 < 0x1_0000_0000
  }

  /** The scan ends if and only if it does so before the cursor wraps around; otherwise it goes on forever. */
  lemma {:induction false} ScanEnds(sp: word, end: word)
    ensures Reaches(sp, end) <==> exists k: nat :: Cursor(sp, k) >= end
  {
    if Reaches(sp, end) {
      var k := if sp >= end then 0 else (end - sp + 3) / 4;
      assert Cursor(sp, k) >= end;
    } else {
      forall k: nat ensures Cursor(sp, k) < end {
        CursorStays(sp, end, k);
      }
    }
  }

  lemma {:induction false} CursorStays(sp: word, end: word, k: nat)
    requires !Reaches(sp, end)
    ensures Cursor(sp, k) < end && !Reaches(Cursor(sp, k), end)
    decreases k
  {
    assert Wrap(sp) == sp;
    hide Wrap, Reaches;
    if k > 0 {
      CursorStays(sp, end, k - 1);
      WrapSum(sp + 4 * (k - 1), 4);
      assert sp + 4 * (k - 1) + 4 == sp + 4 * k;
      NextStays(Cursor(sp, k - 1), end);
    } else {
      assert sp + 4 * k == sp;
    }
  }

  lemma NextStays(at: word, end: word)
    requires !Reaches(at, end)
    ensures Wrap(at + 4) < end && !Reaches(Wrap(at + 4), end)
  {
  }

  lemma NextReaches(at: word, end: word)
    requires Reaches(at, end) && at < end
    ensures at + 4 < 0x1_0000_0000 && Wrap(at + 4) == at + 4 && Reaches(at + 4, end)
  {
  }

  /** cm_backtrace_call_stack_any: the callers found on the stack, cut at the size of the buffer and at the
      greatest depth, whenever the scan ends. */
  method CallStackAny(m: Memory, code: Code, buffer: array<word>, size: nat,
                      sp: word, stackStartAddr: word, stackSize: word)
    returns (depth: nat)
    requires size <= buffer.Length && Reaches(sp, Wrap(stackStartAddr + stackSize))
    modifies buffer
    ensures var found := Take(Limit(size), Callers(m, code, StackWords(m, sp, Wrap(stackStartAddr + stackSize))));
      depth == |found| && Stored(buffer, found) && depth <= size && depth <= 32
    ensures forall i {:trigger buffer[i]} :: depth <= i < buffer.Length ==> buffer[i] == old(buffer[i])
  {
    hide IsReturnAddress, Callers, StackWords, Wrap, Read32, Reaches;
    var end := Wrap(stackStartAddr + stackSize);
    ghost var all := StackWords(m, sp, end);
    ghost var seen, rest := [], all;
    var at: word := sp;
    depth := 0;
    assert Callers(m, code, []) == [] by { NoCallers(m, code); }
    assert [] + all == all;
    while at < end
      invariant seen + rest == all && rest == StackWords(m, at, end)
      invariant var found := Take(Limit(size), Callers(m, code, seen)); depth == |found| && Stored(buffer, found)
      invariant forall i {:trigger buffer[i]} :: depth <= i < buffer.Length ==> buffer[i] == old(buffer[i])
      invariant Reaches(at, end)
      decreases end as int - at
    {
      NextReaches(at, end);
      ghost var w := Read32(m, at);
      NextWord(m, at, end, seen);
      CallersMore(m, code, seen, w);
      depth := ScanWord(m, code, buffer, size, depth, at, Callers(m, code, seen));
      seen, rest := seen + [w], StackWords(m, at + 4, end);
      at := Wrap(at + 4);
    }
    NoWords(m, at, end, seen);
  }

  lemma NoCallers(m: Memory, code: Code)
    ensures Callers(m, code, []) == []
  {
  }

  lemma NextWord(m: Memory, at: nat, end: word, seen: seq<word>)
    requires at < end
    ensures seen + StackWords(m, at, end) == seen + [Read32(m, at)] + StackWords(m, at + 4, end)
  {
  }

  lemma NoWords(m: Memory, at: nat, end: word, seen: seq<word>)
    requires at >= end
    ensures seen + StackWords(m, at, end) == seen
  {
  }

  lemma OddWord(w: word)
    ensures Wrap(w - 4) % 2 == w % 2
    ensures w % 2 == 1 ==> Wrap(w - 1) == w - 1
  {
  }

  /** The tests both scan loops make of a stack word, in 32-bit arithmetic. */
  method IsCaller(m: Memory, code: Code, at: word) returns (isCaller: bool, pc: word)
    ensures isCaller <==> IsReturnAddress(m, code, Read32(m, at))
    ensures isCaller <==> PointsBehindCall(m, code, Read32(m, at))
    ensures isCaller ==> pc == Read32(m, at) - 1
  {
    hide Read32, IsBlOrBlx, PointsBehindCall;
    ReturnAddressMeans(m, code, Read32(m, at));
    OddWord(Read32(m, at));
    pc := Wrap(Read32(m, at) - 4);
    if pc % 2 == 0 {
      return false, pc;
    }
    pc := Wrap(Read32(m, at) - 1);
    isCaller := pc >= Wrap(code.start + 4) && pc <= Wrap(code.start + code.size) && IsBlOrBlx(m, Wrap(pc - 4));
  }

  /** The body of the loop of cm_backtrace_call_stack_any. */
  method ScanWord(m: Memory, code: Code, buffer: array<word>, size: nat, depth: nat, at: word, ghost found: seq<word>)
    returns (depth': nat)
    requires size <= buffer.Length && depth == |Take(Limit(size), found)| && Stored(buffer, Take(Limit(size), found))
    modifies buffer
    ensures var w := Read32(m, at);
      var found' := Take(Limit(size), found + if IsReturnAddress(m, code, w) then [w - 1] else []);
      depth' == |found'| && Stored(buffer, found')
    ensures forall i {:trigger buffer[i]} :: depth' <= i < buffer.Length ==> buffer[i] == old(buffer[i])
  {
    hide Read32, IsReturnAddress;
    var isCaller, pc := IsCaller(m, code, at);
    depth' := depth;
    if isCaller && depth < MAX_DEPTH && depth < size {
      buffer[depth] := pc;
      depth' := depth + 1;
    }
  }

  // ----- rendering

  /** The `n` low hexadecimal digits of a word, as `%0nlx` writes them. */
  function Hex(w: nat, n: nat): bytes {
    if n == 0 then [] else Hex(w / 16, n - 1) + [HexChar(w % 16)]
  }

  function Power16(n: nat): nat {
    if n == 0 then 1 else 16 * Power16(n - 1)
  }

  /** The number a hexadecimal string denotes. */
  function HexValue(text: bytes): int {
    if text == [] then 0 else 16 * HexValue(text[..|text| - 1]) + HexDigit(text[|text| - 1])
  }

  lemma {:induction false} HexLength(w: nat, n: nat)
    ensures |Hex(w, n)| == n
  {
    if n > 0 {
      HexLength(w / 16, n - 1);
    }
  }

  lemma {:induction false} HexLower(w: nat, n: nat)
    ensures forall i :: 0 <= i < |Hex(w, n)| ==> LowerHexDigit(Hex(w, n)[i])
  {
    hide HexChar, LowerHexDigit;
    if n > 0 {
      HexLower(w / 16, n - 1);
      LowerDigit(w % 16);
    }
  }

  lemma {:induction false} HexValueOfHex(w: nat, n: nat)
    requires w < Power16(n)
    ensures HexValue(Hex(w, n)) == w
  {
    if n > 0 {
      HexValueOfHex(w / 16, n - 1);
      var text := Hex(w, n);
      assert text[..|text| - 1] == Hex(w / 16, n - 1);
    }
  }

  /** Nine characters per entry. */
  function Rendered(stack: seq<word>): bytes {
    if stack == [] then [] else Hex(stack[0], 8) + [SPACE] + Rendered(stack[1..])
  }

  /** Reading the entries back. */
  function Decoded(text: bytes): seq<int> {
    if |text| < 9 then [] else [HexValue(text[..8])] + Decoded(text[9..])
  }

  lemma NothingRendered()
    ensures Rendered([]) == []
  {
  }

  /** The printed call stack tells the addresses. */
  lemma {:induction false} DecodedRendered(stack: seq<word>)
    ensures |Rendered(stack)| == 9 * |stack|
    ensures Decoded(Rendered(stack)) == stack
  {
    hide Hex, HexValue;
    if stack != [] {
      var text := Rendered(stack);
      HexLength(stack[0], 8);
      EightDigits();
      HexValueOfHex(stack[0], 8);
      DecodedRendered(stack[1..]);
      assert text[..8] == Hex(stack[0], 8) && text[9..] == Rendered(stack[1..]);
      assert stack == [stack[0]] + stack[1..];
    }
  }

  /** Entry `k` stands in the nine characters from 9k on: eight lower-case hexadecimal digits, the most significant
      first, and a space. */
  lemma {:induction false} EntryAt(stack: seq<word>, k: nat)
    requires k < |stack|
    ensures var text := Rendered(stack);
      && |text| == 9 * |stack| && text[9 * k..9 * k + 8] == Hex(stack[k], 8) && text[9 * k + 8] == 0x20
      && HexValue(Hex(stack[k], 8)) == stack[k] && forall i :: 9 * k <= i < 9 * k + 8 ==> LowerHexDigit(text[i])
  {
    hide Hex, HexValue, LowerHexDigit;
    var text, rest := Rendered(stack), Rendered(stack[1..]);
    HexLength(stack[0], 8);
    DecodedRendered(stack);
    assert text == Hex(stack[0], 8) + [SPACE] + rest;
    if k == 0 {
      EightDigits();
      HexValueOfHex(stack[0], 8);
      HexLower(stack[0], 8);
    } else {
      EntryAt(stack[1..], k - 1);
      assert forall i {:trigger text[i]} :: 9 <= i < |text| ==> text[i] == rest[i - 9];
      assert text[9 * k..9 * k + 8] == rest[9 * (k - 1)..9 * (k - 1) + 8];
    }
  }

  lemma EightDigits()
    ensures Power16(8) == 0x1_0000_0000
  {
    assert Power16(4) == 65536;
  }

  lemma {:induction false} RenderedMore(stack: seq<word>, w: word)
    ensures Rendered(stack + [w]) == Rendered(stack) + (Hex(w, 8) + [SPACE])
  {
    hide Hex;
    if stack == [] {
      assert [] + [w] == [w] && [w][1..] == [];
      assert Hex(w, 8) + [SPACE] + [] == [] + (Hex(w, 8) + [SPACE]);
    } else {
      RenderedMore(stack[1..], w);
      assert (stack + [w])[1..] == stack[1..] + [w];
      assert Hex(stack[0], 8) + [SPACE] + (Rendered(stack[1..]) + (Hex(w, 8) + [SPACE]))
        == Hex(stack[0], 8) + [SPACE] + Rendered(stack[1..]) + (Hex(w, 8) + [SPACE]);
    }
  }

  /** sprintf with `%08lx`, and the blank that takes the place of its terminator. */
  method PrintEntry(out: array<byte>, at: nat, w: word)
    requires at + 9 <= out.Length
    modifies out
    ensures Spelled(out, at, Hex(w, 8) + [SPACE])
    ensures forall i {:trigger out[i]} :: 0 <= i < at ==> out[i] == old(out[i])
  {
    hide HexChar;
    HexLength(w, 8);
    var text := Hex(w, 8);
    for i := 0 to 8
      invariant forall k {:trigger out[k]} :: 0 <= k < at ==> out[k] == old(out[k])
      invariant forall k {:trigger out[k]} :: at <= k < at + i ==> out[k] == text[k - at]
    {
      out[at + i] := text[i];
    }
    out[at + 8] := 0;
    out[at + 8] := SPACE;
  }

  /** The static state of the component. */
  class Backtracer {
    const memory: Memory
    const code: Code
    const mainStackStartAddr: word
    const mainStackSize: word
    const callStackInfo: array<byte>
    var onFault: bool
    var stackIsOverflow: bool
    var savedPc: word
    var savedLr: word

    constructor (memory: Memory, code: Code, mainStackStartAddr: word, mainStackSize: word)
      ensures this.memory == memory && this.code == code
      ensures this.mainStackStartAddr == mainStackStartAddr && this.mainStackSize == mainStackSize
      ensures !onFault && !stackIsOverflow && fresh(callStackInfo) && callStackInfo.Length == MAX_DEPTH * 9
    {
      this.memory, this.code := memory, code;
      this.mainStackStartAddr, this.mainStackSize := mainStackStartAddr, mainStackSize;
      callStackInfo := new byte[MAX_DEPTH * 9](_ => 0);
      onFault, stackIsOverflow, savedPc, savedLr := false, false, 0, 0;
    }

    function StackEnd(): word {
      Wrap(mainStackStartAddr + mainStackSize)
    }

    function CurrentFault(): Fault
      reads this
    {
      if onFault && !stackIsOverflow then Fault(savedPc, savedLr) else NoFault
    }

    /** Where the scan starts: after an overflow the whole stack is scanned. */
    function ScanStart(sp: word): word
      reads this
    {
      if stackIsOverflow then mainStackStartAddr else sp
    }

    /** The call stack there is to find from `sp` on. */
    function Expected(sp: word): seq<word>
      reads this
    {
      CallStack(code, CurrentFault(), Callers(memory, code, StackWords(memory, ScanStart(sp), StackEnd())))
    }

    /** How many entries are stored: on a fault at least the program counter, even if the size given is zero. */
    function Room(size: nat): nat
      reads this
    {
      if CurrentFault().Fault? && size == 0 then 1 else Limit(size)
    }

    /** After an overflow the whole main stack is scanned, otherwise its part from `sp` on; the registers come first on
        a fault without overflow. */
    lemma {:induction false} ExpectedMeans(sp: word, size: nat)
      ensures var end := (mainStackStartAddr + mainStackSize) % 0x1_0000_0000;
        var callers :=
          Callers(memory, code, StackWords(memory, if stackIsOverflow then mainStackStartAddr else sp, end));
        && Expected(sp) ==
             (if !onFault || stackIsOverflow then callers else CallStack(code, Fault(savedPc, savedLr), callers))
        && Room(size) == if onFault && !stackIsOverflow && size == 0 then 1 else if size < 32 then size else 32
    {
      hide Callers, StackWords;
    }

    /** cm_backtrace_call_stack. */
    method GetCallStack(buffer: array<word>, size: nat, sp: word) returns (depth: nat)
      requires size <= buffer.Length && Room(size) <= buffer.Length && Reaches(ScanStart(sp), StackEnd())
      modifies buffer
      ensures var found := Take(Room(size), Expected(sp)); depth == |found| && Stored(buffer, found)
      // outside a fault this is what cm_backtrace_call_stack_any finds on the main stack
      ensures !onFault && !stackIsOverflow ==>
        var found := Take(Limit(size), Callers(memory, code, StackWords(memory, sp, StackEnd())));
        depth == |found| && Stored(buffer, found)
    {
      hide IsReturnAddress, Callers, StackWords, Wrap, Read32, CallStack, LrInCode, Reaches;
      ghost var m, end := memory, StackEnd();
      depth := 0;
      var regsSavedLrIsValid := false;
      if onFault {
        if !stackIsOverflow {
          depth, regsSavedLrIsValid := StoreRegisters(buffer, size);
        }
      }
      var at: word := sp;
      if stackIsOverflow {
        at := mainStackStartAddr;
      }
      ghost var all := StackWords(m, at, end);
      ghost var seen, rest := [], all;
      NoCallers(m, code);
      EmptyStack(code, CurrentFault(), size);
      assert [] + all == all;
      while at < Wrap(mainStackStartAddr + mainStackSize)
        invariant seen + rest == all && rest == StackWords(m, at, end)
        invariant Shown(buffer, size, depth, Callers(m, code, seen))
        invariant regsSavedLrIsValid <==> CurrentFault().Fault? && LrInCode(code, savedLr) && size > 1
        invariant Reaches(at, end)
        decreases end as int - at
      {
        NextReaches(at, end);
        ghost var w := Read32(m, at);
        NextWord(m, at, end, seen);
        CallersMore(m, code, seen, w);
        depth := Scan(buffer, size, depth, at, regsSavedLrIsValid, Callers(m, code, seen));
        seen, rest := seen + [w], StackWords(m, at + 4, end);
        at := Wrap(at + 4);
      }
      NoWords(m, at, end, seen);
      NoFaultStack(code);
    }

    /** The buffer holds the call stack with the given callers, as far as it fits. */
    ghost predicate Shown(buffer: array<word>, size: nat, depth: nat, callers: seq<word>)
      reads this, buffer
    {
      var found := Take(Room(size), CallStack(code, CurrentFault(), callers));
      depth == |found| && Stored(buffer, found)
    }

    /** print_call_stack: the entries are rendered into the static buffer, nine characters each, and as many
        characters are printed. They tell the call stack. */
    method PrintCallStack(sp: word) returns (printed: bytes)
      requires Reaches(ScanStart(sp), StackEnd()) && callStackInfo.Length == MAX_DEPTH * 9
      modifies callStackInfo
      ensures printed == Rendered(Take(32, Expected(sp)))
      ensures Decoded(printed) == Take(32, Expected(sp))
    {
      hide Expected, Wrap, Reaches, Rendered, Decoded;
      var callStackBuf := new word[MAX_DEPTH](_ => 0);
      var curDepth := GetCallStack(callStackBuf, MAX_DEPTH, sp);
      ghost var stack := Take(MAX_DEPTH, Expected(sp));
      DecodedRendered(stack);
      RenderEntries(callStackBuf, curDepth, stack);
      printed := callStackInfo[..curDepth * 9];
    }

    /** The loop of print_call_stack. */
    method RenderEntries(callStackBuf: array<word>, curDepth: nat, ghost stack: seq<word>)
      requires curDepth == |stack| && Stored(callStackBuf, stack) && 9 * |stack| <= callStackInfo.Length
      modifies callStackInfo
      ensures Spelled(callStackInfo, 0, Rendered(stack))
    {
      hide Hex, Decoded, Rendered;
      var i := 0;
      assert stack[..0] == [];
      NothingRendered();
      while i < curDepth
        modifies callStackInfo
        invariant 0 <= i <= curDepth
        invariant Spelled(callStackInfo, 0, Rendered(stack[..i]))
      {
        DecodedRendered(stack[..i]);
        assert stack[..i + 1] == stack[..i] + [stack[i]];
        RenderedMore(stack[..i], stack[i]);
        HexLength(stack[i], 8);
        PrintEntry(callStackInfo, i * 9, callStackBuf[i]);
        i := i + 1;
      }
      assert stack[..i] == stack;
    }

    /** The program counter and, if there is room and it lies in the code, the link register. */
    method StoreRegisters(buffer: array<word>, size: nat) returns (depth: nat, regsSavedLrIsValid: bool)
      requires size <= buffer.Length && 1 <= buffer.Length && onFault && !stackIsOverflow
      modifies buffer
      ensures Shown(buffer, size, depth, [])
      ensures regsSavedLrIsValid <==> LrInCode(code, savedLr) && size > 1
    {
      hide Wrap;
      depth, regsSavedLrIsValid := 0, false;
      buffer[depth] := savedPc;
      depth := depth + 1;
      var pc := Wrap(savedLr - 1);
      if pc >= code.start && pc <= Wrap(code.start + code.size) && depth < MAX_DEPTH && depth < size {
        buffer[depth] := pc;
        depth := depth + 1;
        regsSavedLrIsValid := true;
      }
    }

    /** The body of the loop of cm_backtrace_call_stack. */
    method Scan(buffer: array<word>, size: nat, depth: nat, at: word, regsSavedLrIsValid: bool,
                ghost callers: seq<word>)
      returns (depth': nat)
      requires size <= buffer.Length && Shown(buffer, size, depth, callers)
      requires regsSavedLrIsValid <==> CurrentFault().Fault? && LrInCode(code, savedLr) && size > 1
      modifies buffer
      ensures var w := Read32(memory, at);
        Shown(buffer, size, depth', callers + if IsReturnAddress(memory, code, w) then [w - 1] else [])
    {
      hide Read32, IsReturnAddress, LrInCode, CallStack, Wrap;
      var isCaller, pc := IsCaller(memory, code, at);
      depth' := depth;
      assert callers + [] == callers;
      if isCaller {
        StackMore(code, CurrentFault(), callers, pc);
        if depth < MAX_DEPTH && depth < size {
          if depth == 2 && regsSavedLrIsValid && pc == buffer[1] {
            return;
          }
          buffer[depth] := pc;
          depth' := depth + 1;
        }
      }
    }
  }

  lemma NoFaultStack(code: Code)
    ensures forall callers :: CallStack(code, NoFault, callers) == callers
  {
  }

  lemma EmptyStack(code: Code, fault: Fault, size: nat)
    ensures fault.NoFault? ==> CallStack(code, fault, []) == []
  {
  }

  /** One caller more: the stack grows by it, unless it repeats the link register right behind it. */
  lemma {:induction false} StackMore(code: Code, fault: Fault, callers: seq<word>, pc: word)
    ensures var before, after := CallStack(code, fault, callers), CallStack(code, fault, callers + [pc]);
      var lrShown := fault.Fault? && LrInCode(code, fault.lr);
      && (fault.Fault? ==> |before| >= 1) && (lrShown ==> |before| >= 2 && before[1] == Wrap(fault.lr - 1))
      && after == if lrShown && |before| == 2 && pc == before[1] then before else before + [pc]
  {
    hide Wrap, LrInCode;
    if fault.Fault? {
      SkipMore(Wrap(fault.lr - 1), callers, pc);
    }
  }
}

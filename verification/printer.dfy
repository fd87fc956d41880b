/** cJSON's printer: a growing, NUL-terminated buffer, and the methods that write a value into it. */
module Printer {
  import opened Bytes
  import opened Words
  import opened Json
  import opened Nodes
  import opened TreeValue
  import opened RenderSpec
  import opened RenderFacts

  /** `size_t` on the 32-bit target. */
  type size_t = word

  class PrintBuffer {
    var buffer: array?<byte>
    var length: size_t
    var offset: size_t
    var depth: size_t
    const noalloc: bool
    const style: Style              // `format`, and the rendering of non-integral doubles
    const hooks: Hooks
    const hasRealloc: bool          // hooks.reallocate != NULL

    constructor (buffer: array<byte>, length: size_t, noalloc: bool, style: Style, hooks: Hooks, hasRealloc: bool)
      ensures this.buffer == buffer && this.length == length && offset == 0 && depth == 0
      ensures this.noalloc == noalloc && this.style == style && this.hooks == hooks && this.hasRealloc == hasRealloc
    {
      this.buffer, this.length, offset, depth := buffer, length, 0, 0;
      this.noalloc, this.style, this.hooks, this.hasRealloc := noalloc, style, hooks, hasRealloc;
    }

    /** The buffer is there and the cursor stands inside it, behind at least as many characters as arrays and
        objects are open. A buffer that is never copied byte by byte may also be empty. A buffer of the printer's
        own is live. */
    ghost predicate Valid()
      reads this, hooks
    {
      && buffer != null && length <= buffer.Length && length <= INT_MAX
      && (offset < length || ((noalloc || hasRealloc) && length == 0 && offset == 0)) && depth <= offset
      && (!noalloc ==> buffer in hooks.live)
    }

    /** The blocks of everybody else. */
    ghost function Others(): set<object>
      reads this, hooks
    {
      if noalloc then hooks.live else hooks.live - Block(buffer)
    }

    /** The buffer starts with `before`, and the cursor stands behind it. */
    ghost predicate Holding(before: bytes)
      requires Valid()
      reads this, hooks, buffer
    {
      offset == |before| && Spelled(buffer, 0, before)
    }

    /** What every printing step keeps: a caller's buffer stays, a buffer of the printer's own may be
        replaced, nobody else's blocks are touched. */
    twostate predicate Kept(ok: bool)
      reads this, hooks
    {
      && (ok ==> Valid() && (buffer == old(buffer) || fresh(buffer)))
      && (noalloc ==> Valid() && buffer == old(buffer) && length == old(length))
      && Others() == old(Others()) && (buffer != null && !noalloc ==> buffer in hooks.live)
      && (if ok then hooks.refusals == old(hooks.refusals) else hooks.refusals >= old(hooks.refusals))
    }

    /** When a step that takes the buffer to `size` bytes succeeds: in a caller's buffer exactly if they
        fit; otherwise unless an allocation is refused or the size leaves the range of an int. */
    twostate predicate Verdict(ok: bool, size: nat)
      reads this, hooks
    {
      if noalloc then ok <==> size <= length else !ok ==> hooks.Refused() || size > INT_MAX
    }

    /** ensure: room for `needed` more bytes and a terminator, growing the buffer if that is allowed. */
    method Ensure(needed: size_t, ghost before: bytes) returns (ok: bool)
      requires Valid() && Holding(before)
      modifies this`buffer, this`length, hooks
      ensures Kept(ok) && Verdict(ok, offset + needed + 1)
      ensures ok ==> Holding(before) && offset + needed + 1 <= length
    {
      if buffer == null {
        return false;
      }
      if length > 0 && offset >= length {
        return false;
      }
      if needed > INT_MAX {
        return false;
      }
      var wanted: size_t := needed + (offset + 1);
      if wanted <= length {
        return true;
      }
      if noalloc {
        return false;
      }
      var newsize: size_t;
      if wanted > INT_MAX / 2 {
        if wanted <= INT_MAX {
          newsize := INT_MAX;
        } else {
          return false;
        }
      } else {
        newsize := wanted * 2;
      }
      ok := Grow(newsize);
    }

    /** The two ways `ensure` moves the text to a larger block; the old block is gone either way. */
    method Grow(newsize: size_t) returns (ok: bool)
      requires Valid() && !noalloc && length < newsize <= INT_MAX
      modifies this`buffer, this`length, hooks
      ensures ok ==> Valid() && fresh(buffer) && length == newsize && hooks.refusals == old(hooks.refusals)
      ensures ok ==> forall i {:trigger buffer[i]} :: 0 <= i < offset ==> buffer[i] == old(buffer)[i]
      ensures !ok ==> buffer == null && hooks.Refused()
      ensures Others() == old(Others())
      ensures hooks.refusals >= old(hooks.refusals)
    {
      var newbuffer;
      if hasRealloc {
        newbuffer := hooks.Reallocate(buffer, newsize);
        if newbuffer == null {
          hooks.Deallocate(buffer);
          length := 0;
          buffer := null;
          return false;
        }
      } else {
        newbuffer := hooks.Allocate(newsize);
        if newbuffer == null {
          hooks.Deallocate(buffer);
          length := 0;
          buffer := null;
          return false;
        }
        for i := 0 to offset + 1
          modifies newbuffer
          invariant forall k {:trigger newbuffer[k]} :: 0 <= k < i ==> newbuffer[k] == buffer[k]
        {
          newbuffer[i] := buffer[i];
        }
        hooks.Deallocate(buffer);
      }
      length := newsize;
      buffer := newbuffer;
      ok := true;
    }

    /** `text` has been written behind `before` with a terminator; the cursor stands somewhere within it. */
    ghost predicate Wrote(before: bytes, text: bytes)
      reads this, hooks, buffer
    {
      && Valid() && |before| <= offset <= |before| + |text| < length
      && Spelled(buffer, 0, before) && Spelled(buffer, |before|, text) && buffer[|before| + |text|] == 0
    }

    /** update_offset: the cursor moves on to the terminator. */
    method UpdateOffset(ghost before: bytes, ghost text: bytes)
      requires Wrote(before, text) && NulFree(text)
      modifies this`offset
      ensures Valid() && Holding(before + text)
    {
      var n := 0;
      while buffer[offset + n] != 0
        invariant offset + n <= |before| + |text|
        decreases |before| + |text| - offset - n
      {
        n := n + 1;
      }
      offset := offset + n;
    }

    // ----- strings

    /** What is printed shares no block with the printer. */
    ghost predicate Beside(region: set<object>)
      reads this
    {
      this !in region && hooks !in region && (buffer != null ==> buffer !in region)
    }

    /** The first loop of print_string_ptr: the length of the string and, in a `size_t` that may wrap, how many
        characters escaping adds. */
    method CountEscapes(input: array<byte>, ghost s: cstring) returns (length: size_t, extra: size_t)
      requires HoldsText(input, s) && |s| < 0x1_0000_0000
      ensures length == |s| && extra == Wrap(|Escape(s)| - |s|)
    {
      hide Escape, EscapeByte, CStr;
      StringEnd(input, s);
      length, extra := 0, 0;
      assert Wrap(0) == 0;
      hide Wrap;
      assert s[..0] == [];
      EscapeNothing();
      while input[length] != 0
        invariant length <= |s| && extra == Wrap(|Escape(s[..length])| - length)
        decreases |s| - length
      {
        EscapeMore(s, length);
        var more := match input[length]
          case 34 => 1
          case 92 => 1
          case 8 => 1
          case 12 => 1
          case 10 => 1
          case 13 => 1
          case 9 => 1
          case b => if b < 32 then 5 else 0;
        WrapSum(|Escape(s[..length])| - length, more);
        extra := Wrap(extra + more);
        length := length + 1;
      }
      assert s[..|s|] == s;
    }

    /** print_string_ptr: the quoted, escaped string and a terminator, in exactly the bytes asked of `ensure`. */
    method PrintString(input: array?<byte>, ghost s: cstring, ghost before: bytes) returns (ok: bool)
      requires Valid() && Holding(before) && CarriesText(input, s) && input != buffer && Measurable(s)
      modifies this`buffer, this`length, hooks, buffer
      ensures Kept(ok) && Verdict(ok, |before| + |RenderString(s)| + 2)
      ensures ok ==> Wrote(before, RenderString(s))
    {
      hide Escape, CStr;
      if input == null {
        EscapeNothing();
        ok := PrintLiteral([QUOTE, QUOTE], before);
        return;
      }
      RequestExact(s);
      var length, extra := CountEscapes(input, s);
      var outputLength: size_t := Wrap(length + extra);
      ok := Ensure(Wrap(outputLength + 3), before);
      if ok {
        WriteString(input, length, extra, buffer, offset, s);
      }
    }

    // ----- literals and numbers

    /** strcpy of a literal, and the memcpy of raw text. */
    method PrintLiteral(text: cstring, ghost before: bytes) returns (ok: bool)
      requires Valid() && Holding(before) && |text| + 1 < 0x1_0000_0000
      modifies this`buffer, this`length, hooks, buffer
      ensures Kept(ok) && Verdict(ok, |before| + |text| + 2)
      ensures ok ==> Wrote(before, text)
    {
      ok := Ensure(|text| + 1, before);
      if ok {
        WriteText(text, true, buffer, offset);
      }
    }

    /** print_number: unlike the other cases it moves the cursor itself. */
    method PrintNumber(d: real, i: int32, ghost before: bytes) returns (ok: bool)
      requires Valid() && Holding(before)
      modifies this`buffer, this`length, this`offset, hooks, buffer
      ensures Kept(ok)
      ensures |RenderNumber(d, i, style)| <= 25 ==> Verdict(ok, |before| + |RenderNumber(d, i, style)| + 2)
      ensures ok ==> |RenderNumber(d, i, style)| <= 25 && Wrote(before, RenderNumber(d, i, style))
    {
      ShowIntShort(i);
      var text: cstring := if d == i as real then ShowInt(i) else style.double(d);
      if |text| > 25 {
        return false;
      }
      ok := Ensure(|text| + 1, before);
      if ok {
        WriteText(text, true, buffer, offset);
        offset := offset + |text|;
      }
    }

    /** `ensure`, write, advance: how arrays and objects write their punctuation. Some of it is terminated, and
        `{` has room for a terminator (`spare`) that is not written. */
    method Append(text: bytes, spare: nat, terminated: bool, ghost before: bytes) returns (ok: bool)
      requires Valid() && Holding(before) && |text| + spare < 0x1_0000_0000 && (terminated ==> spare > 0)
      modifies this`buffer, this`length, this`offset, hooks, buffer
      ensures Kept(ok) && Verdict(ok, |before| + |text| + spare + 1)
      ensures ok ==> Holding(before + text)
    {
      ok := Ensure(|text| + spare, before);
      if ok {
        WriteText(text, terminated, buffer, offset);
        offset := offset + |text|;
        SpelledMore(buffer, before, text);
      }
    }

    // ----- values

    /** The case of print_value for raw text, which is copied with its terminator. */
    method PrintRaw(input: array?<byte>, ghost v: Value, ghost before: bytes) returns (ok: bool)
      requires Valid() && Holding(before) && Sized(v)
      requires if input == null then v == Invalid else v.Raw? && HoldsText(input, v.text)
      modifies this`buffer, this`length, hooks, buffer
      ensures Kept(ok) && (v.Raw? ==> Verdict(ok, |before| + |v.text| + 2))
      ensures ok ==> v.Raw? && Wrote(before, v.text)
    {
      if input == null {
        return false;
      }
      ok := PrintLiteral(CStr(input[..]), before);
    }

    /** print_value on an item that reads as `v` */
    method PrintValue(item: Node, ghost t: Tree, ghost v: Value, ghost before: bytes) returns (ok: bool)
      requires Valid() && Holding(before) && item == t.node && Carries(t, v) && Sized(v) && Beside(Blocks(t))
      modifies this`buffer, this`length, this`offset, this`depth, hooks, buffer
      ensures Kept(ok) && (Printable(v, style) ==> Verdict(ok, |before| + |Render(v, style, old(depth))| + 2))
      ensures ok ==> Printable(v, style) && depth == old(depth) && Wrote(before, Render(v, style, depth))
      decreases v, 1
    {
      hide Escape, ShowInt, Spelled, RenderItems, RenderMembers, CarriesItems, CarriesMembers, Chained, CStr, Sized;
      hide PrintableItems, PrintableMembers, Measurable, RenderString, RenderNumber, CarriesText;
      InnerParts(t);
      SizedText(v);
      match item.kind
      case KNull => ok := PrintLiteral(NULL_TEXT, before);
      case KFalse => ok := PrintLiteral(FALSE_TEXT, before);
      case KTrue => ok := PrintLiteral(TRUE_TEXT, before);
      case KNumber => ok := PrintNumber(item.valuedouble, item.valueint, before);
      case KString => ok := PrintString(item.valuestring, v.s, before);
      case KArray => ok := PrintArray(item, t, v.items, before);
      case KObject => ok := PrintObject(item, t, v.members, before);
      case KRaw => ok := PrintRaw(item.valuestring, v, before);
      case KInvalid => ok := false;
    }

    // ----- arrays

    /** print_array */
    method PrintArray(item: Node, ghost t: Tree, ghost items: seq<Value>, ghost before: bytes) returns (ok: bool)
      requires Valid() && Holding(before) && item == t.node && Carries(t, Array(items)) && Sized(Array(items))
      requires Beside(Blocks(t))
      modifies this`buffer, this`length, this`offset, this`depth, hooks, buffer
      ensures Kept(ok)
      ensures PrintableItems(items, style) ==> Verdict(ok, |before| + |Render(Array(items), style, old(depth))| + 2)
      ensures ok ==>
        PrintableItems(items, style) && depth == old(depth) && Wrote(before, Render(Array(items), style, depth))
      decreases items, 3
    {
      hide Spelled, Render, RenderItems, PrintableItems, Carries, CarriesItems, HoldsText, Chained, Blocks, BlocksOf;
      ContainersRendered(items, [], style, depth);
      ArrayParts(t, items);
      TreeAllocated(t);
      var currentElement := item.child;
      ok := Append([LBRACKET], 0, false, before);
      if ok {
        ok := PrintElements(currentElement, t.kids, items, before);
      }
    }

    /** print_array behind the opening bracket. */
    method PrintElements(first: Node?, ghost kids: seq<Tree>, ghost items: seq<Value>, ghost before: bytes)
      returns (ok: bool)
      requires Valid() && Holding(before + [LBRACKET]) && depth < offset
      requires first == First(kids) && Chained(kids) && CarriesItems(kids, items) && Sized(Array(items))
      requires Beside(BlocksOf(kids))
      modifies this`buffer, this`length, this`offset, this`depth, hooks, buffer
      ensures Kept(ok)
      ensures PrintableItems(items, style) ==> Verdict(ok, |before| + |Render(Array(items), style, old(depth))| + 2)
      ensures ok ==>
        PrintableItems(items, style) && depth == old(depth) && Wrote(before, Render(Array(items), style, depth))
      decreases items, 2, 1
    {
      hide Spelled, Render, RenderItems, PrintableItems, CarriesItems, Chained, BlocksOf;
      ContainersRendered(items, [], style, depth);
      NodesAndInner(kids);
      depth := depth + 1;
      ok := PrintItems(first, kids, items, before + [LBRACKET]);
      if !ok {
        return;
      }
      ghost var middle := RenderItems(items, style, depth);
      ok := Close([RBRACKET], before, [LBRACKET], middle);
      depth := if ok then depth - 1 else depth;
    }

    /** The closing bracket or brace, with its indentation; the cursor is left in front of it. */
    method Close(close: bytes, ghost before: bytes, ghost open: bytes, ghost middle: bytes) returns (ok: bool)
      requires Valid() && Holding(before + open + middle) && |close| + 1 < 0x1_0000_0000
      modifies this`buffer, this`length, hooks, buffer
      ensures Kept(ok) && Verdict(ok, |before| + |open + (middle + close)| + 2)
      ensures ok ==> Wrote(before, open + (middle + close))
    {
      ok := Ensure(|close| + 1, before + open + middle);
      if ok {
        WriteText(close, true, buffer, offset);
        Enclosed(buffer, before, open, middle, close);
      }
    }

    /** The loop of print_array. */
    method PrintItems(first: Node?, ghost kids: seq<Tree>, ghost items: seq<Value>, ghost before: bytes)
      returns (ok: bool)
      requires Valid() && Holding(before)
      requires first == First(kids) && Chained(kids) && CarriesItems(kids, items) && Sized(Array(items))
      requires Beside(BlocksOf(kids))
      modifies this`buffer, this`length, this`offset, this`depth, hooks, buffer
      ensures Kept(ok)
      ensures PrintableItems(items, style) && items != [] ==>
        Verdict(ok, |before| + |RenderItems(items, style, old(depth))| + 2)
      ensures items == [] ==> ok
      ensures ok ==>
        PrintableItems(items, style) && depth == old(depth) && Holding(before + RenderItems(items, style, depth))
      decreases items, 2, 0
    {
      hide Spelled, Holding, ItemText, RenderItems, PrintableItems, Chained, CarriesItems, Carries, BlocksOf, Blocks;
      hide Sized, NulFree;
      hide NodesOf;
      NodesAndInner(kids);
      TreesAllocated(kids);
      SameLength(kids, items);
      ghost var done := before;
      ok := true;
      var current := first;
      ghost var i := 0;
      assert items[0..] == items;
      while current != null
        invariant 0 <= i <= |items| && Valid() && Holding(done) && depth == old(depth) && Kept(true)
        invariant current == NodeAt(kids, i) && Chained(kids) && CarriesItems(kids, items)
        invariant done + RenderItems(items[i..], style, depth) == before + RenderItems(items, style, depth)
        invariant PrintableItems(items[i..], style) <==> PrintableItems(items, style)
        invariant i > 0 && noalloc ==> |done| + 2 <= length
        decreases |items| - i
      {
        ItemsStep(items, i, style, depth, done);
        CarriesItemAt(kids, items, i);
        SizedItem(items, i);
        NextOf(kids, i);
        ok := PrintItem(current, kids[i], items[i], i + 1 == |items|, done);
        if !ok {
          return;
        }
        NextOf(kids, i);
        done := done + ItemText(items[i], i + 1 == |items|, style, depth);
        current := current.next;
        i := i + 1;
      }
      assert items[i..] == [];
      NoItems(style, depth);
      assert done + [] == done;
    }

    /** One turn of the loop of print_array: an element and, unless it is the last, a separator. */
    method PrintItem(item: Node, ghost t: Tree, ghost v: Value, ghost last: bool, ghost before: bytes)
      returns (ok: bool)
      requires Valid() && Holding(before) && item == t.node && Carries(t, v) && Sized(v) && Beside(Blocks(t))
      requires last <==> item.next == null
      modifies this`buffer, this`length, this`offset, this`depth, hooks, buffer
      ensures Kept(ok) && (Printable(v, style) ==> Verdict(ok, |before| + |ItemText(v, last, style, old(depth))| + 2))
      ensures ok ==> Printable(v, style) && depth == old(depth) && Holding(before + ItemText(v, last, style, depth))
      decreases v, 2
    {
      hide Spelled, Render, Printable, Carries, Blocks;
      NodeIn(t);
      ok := PrintValue(item, t, v, before);
      if !ok {
        return;
      }
      ghost var text := Render(v, style, depth);
      RenderNulFree(v, style, depth);
      UpdateOffset(before, text);
      if item.next != null {
        var separator := if style.formatted then [COMMA, SPACE] else [COMMA];
        assert separator == ItemSeparator(style);
        ok := Append(separator, 1, true, before + text);
      }
      Regroup(before, text, ItemSeparator(style));
    }

    // ----- objects

    /** print_object */
    method PrintObject(item: Node, ghost t: Tree, ghost members: seq<Member>, ghost before: bytes) returns (ok: bool)
      requires Valid() && Holding(before) && item == t.node && Carries(t, Object(members)) && Sized(Object(members))
      requires Beside(Blocks(t))
      modifies this`buffer, this`length, this`offset, this`depth, hooks, buffer
      ensures Kept(ok)
      ensures PrintableMembers(members, style) ==>
        Verdict(ok, |before| + |Render(Object(members), style, old(depth))| + 2)
      ensures ok ==>
        PrintableMembers(members, style) && depth == old(depth) && Wrote(before, Render(Object(members), style, depth))
      decreases members, 3
    {
      hide Spelled, Render, RenderMembers, PrintableMembers, Carries, CarriesMembers, HoldsText, Chained, Blocks;
      hide BlocksOf;
      ContainersRendered([], members, style, depth);
      ObjectParts(t, members);
      TreeAllocated(t);
      var currentItem := item.child;
      var open := if style.formatted then [LBRACE, NEWLINE] else [LBRACE];
      assert open == [LBRACE] + Layout(style, [NEWLINE]);
      ok := Append(open, 1, false, before);
      if ok {
        ok := PrintFields(currentItem, t.kids, members, before);
      }
    }

    /** print_object behind the opening brace. */
    method PrintFields(first: Node?, ghost kids: seq<Tree>, ghost members: seq<Member>, ghost before: bytes)
      returns (ok: bool)
      requires Valid() && Holding(before + ([LBRACE] + Layout(style, [NEWLINE]))) && depth < offset
      requires first == First(kids) && Chained(kids) && CarriesMembers(kids, members) && Sized(Object(members))
      requires Beside(BlocksOf(kids))
      modifies this`buffer, this`length, this`offset, this`depth, hooks, buffer
      ensures Kept(ok)
      ensures PrintableMembers(members, style) ==>
        Verdict(ok, |before| + |Render(Object(members), style, old(depth))| + 2)
      ensures ok ==>
        PrintableMembers(members, style) && depth == old(depth) && Wrote(before, Render(Object(members), style, depth))
      decreases members, 2, 1
    {
      hide Spelled, Render, RenderMembers, PrintableMembers, CarriesMembers, Chained, BlocksOf;
      ContainersRendered([], members, style, depth);
      NodesAndInner(kids);
      ghost var open := [LBRACE] + Layout(style, [NEWLINE]);
      depth := depth + 1;
      ok := PrintMembers(first, kids, members, before + open);
      if !ok {
        return;
      }
      ghost var middle := RenderMembers(members, style, depth);
      var close := if style.formatted then Tabs(depth - 1) + [RBRACE] else [RBRACE];
      assert close == Layout(style, Tabs(depth - 1)) + [RBRACE];
      ok := Close(close, before, open, middle);
      depth := if ok then depth - 1 else depth;
    }

    /** The loop of print_object. */
    method PrintMembers(first: Node?, ghost kids: seq<Tree>, ghost members: seq<Member>, ghost before: bytes)
      returns (ok: bool)
      requires Valid() && Holding(before) && depth > 0
      requires first == First(kids) && Chained(kids) && CarriesMembers(kids, members) && Sized(Object(members))
      requires Beside(BlocksOf(kids))
      modifies this`buffer, this`length, this`offset, this`depth, hooks, buffer
      ensures Kept(ok)
      ensures PrintableMembers(members, style) && members != [] ==>
        Verdict(ok, |before| + |RenderMembers(members, style, old(depth))| + 2)
      ensures members == [] ==> ok
      ensures ok ==>
        && PrintableMembers(members, style) && depth == old(depth)
        && Holding(before + RenderMembers(members, style, depth))
      decreases members, 2, 0
    {
      hide Spelled, Holding, MemberText, RenderMembers, PrintableMembers, Chained, CarriesMembers, CarriesMember;
      hide Sized, Measurable, NulFree;
      hide BlocksOf, Blocks, NodesOf;
      NodesAndInner(kids);
      TreesAllocated(kids);
      SameCount(kids, members);
      ghost var done := before;
      ok := true;
      var current := first;
      ghost var i := 0;
      assert members[0..] == members;
      while current != null
        invariant 0 <= i <= |members| && Valid() && Holding(done) && depth == old(depth) && Kept(true)
        invariant current == NodeAt(kids, i) && Chained(kids) && CarriesMembers(kids, members)
        invariant done + RenderMembers(members[i..], style, depth) == before + RenderMembers(members, style, depth)
        invariant PrintableMembers(members[i..], style) <==> PrintableMembers(members, style)
        invariant i > 0 && noalloc ==> |done| + 2 <= length
        decreases |members| - i
      {
        MembersStep(members, i, style, depth, done);
        CarriesMemberAt(kids, members, i);
        SizedMember(members, i);
        NextOf(kids, i);
        ok := PrintMember(current, kids[i], members[i], i + 1 == |members|, done);
        if !ok {
          return;
        }
        NextOf(kids, i);
        done := done + MemberText(members[i], i + 1 == |members|, style, depth);
        current := current.next;
        i := i + 1;
      }
      assert members[i..] == [];
      NoMembers(style, depth);
      assert done + [] == done;
    }

    /** The indentation, key and colon of a member. */
    method PrintKey(name: array?<byte>, ghost key: cstring, ghost before: bytes) returns (ok: bool)
      requires Valid() && Holding(before) && depth > 0 && CarriesText(name, key) && name != buffer && Measurable(key)
      modifies this`buffer, this`length, this`offset, hooks, buffer
      ensures Kept(ok) && (!ok ==> Verdict(false, |before| + |KeyText(key, style, depth)| + 1))
      ensures ok ==> Holding(before + KeyText(key, style, depth))
    {
      hide Spelled, RenderString, Escape, KeyText, Layout, HoldsText;
      ghost var tabs := Layout(style, Tabs(depth));
      ghost var text := RenderString(key);
      var colon := if style.formatted then [COLON, TAB] else [COLON];
      KeyParts(key, style, depth, before);
      if style.formatted {
        ok := Append(Tabs(depth), 0, false, before);
        if !ok {
          return;
        }
      }
      ok := PrintString(name, key, before + tabs);
      if !ok {
        return;
      }
      EscapeNulFree(key);
      QuotedNulFree(key);
      UpdateOffset(before + tabs, text);
      ok := Append(colon, 0, false, before + tabs + text);
    }

    /** One turn of the loop of print_object. */
    method PrintMember(item: Node, ghost t: Tree, ghost m: Member, ghost last: bool, ghost before: bytes)
      returns (ok: bool)
      requires Valid() && Holding(before) && depth > 0 && item == t.node && CarriesMember(t, m) && Measurable(m.key)
      requires Sized(m.value) && Beside(Blocks(t))
      requires last <==> item.next == null
      modifies this`buffer, this`length, this`offset, this`depth, hooks, buffer
      ensures Kept(ok)
      ensures Printable(m.value, style) ==> Verdict(ok, |before| + |MemberText(m, last, style, old(depth))| + 2)
      ensures ok ==>
        Printable(m.value, style) && depth == old(depth) && Holding(before + MemberText(m, last, style, depth))
      decreases m, 2
    {
      hide Spelled, Render, Printable, KeyText, Carries, CarriesMember, CarriesText, HoldsText, Blocks, Inner;
      hide BlocksOf, MemberEnd, Measurable, Sized, NulFree;
      MemberParts(t, m);
      TreeAllocated(t);
      ghost var key := KeyText(m.key, style, depth);
      ok := PrintKey(item.name, m.key, before);
      if !ok {
        return;
      }
      ok := PrintValue(item, t, m.value, before + key);
      if !ok {
        return;
      }
      ghost var text := Render(m.value, style, depth);
      RenderNulFree(m.value, style, depth);
      UpdateOffset(before + key, text);
      var end := (if item.next == null then [] else [COMMA]) + (if style.formatted then [NEWLINE] else []);
      MemberEnds(last, style, before, key, text);
      ok := Append(end, 1, true, before + key + text);
    }
  }

  lemma {:induction false} KeyParts(key: cstring, style: Style, depth: nat, before: bytes)
    ensures var tabs := Layout(style, Tabs(depth));
      var colon := if style.formatted then [COLON, TAB] else [COLON];
      && tabs == (if style.formatted then Tabs(depth) else []) && before + [] == before
      && before + KeyText(key, style, depth) == before + tabs + RenderString(key) + colon
  {
    hide RenderString;
    var tabs, text := Layout(style, Tabs(depth)), RenderString(key);
    var colon := if style.formatted then [COLON, TAB] else [COLON];
    assert colon == [COLON] + Layout(style, [TAB]);
    assert before + tabs + text + colon == before + (tabs + (text + colon));
  }

  function MemberText(m: Member, last: bool, style: Style, depth: nat): bytes {
    KeyText(m.key, style, depth) + (Render(m.value, style, depth) + MemberEnd(last, style))
  }

  lemma MemberEnds(last: bool, style: Style, before: bytes, key: bytes, text: bytes)
    ensures MemberEnd(last, style) == (if last then [] else [COMMA]) + (if style.formatted then [NEWLINE] else [])
    ensures before + key + text + MemberEnd(last, style) == before + (key + (text + MemberEnd(last, style)))
  {
  }

  lemma NoMembers(style: Style, depth: nat)
    ensures RenderMembers([], style, depth) == [] && PrintableMembers([], style)
  {
  }

  lemma {:induction false} MembersStep(members: seq<Member>, i: nat, style: Style, depth: nat, done: bytes)
    requires i < |members|
    ensures done + RenderMembers(members[i..], style, depth)
      == done + MemberText(members[i], i + 1 == |members|, style, depth) + RenderMembers(members[i + 1..], style, depth)
    ensures PrintableMembers(members[i..], style)
      <==> Printable(members[i].value, style) && PrintableMembers(members[i + 1..], style)
    ensures i + 1 == |members| ==> members[i + 1..] == []
  {
    hide Render, Printable, KeyText, MemberEnd;
    var rest := members[i..];
    assert rest[1..] == members[i + 1..];
    var key, value := KeyText(rest[0].key, style, depth), Render(rest[0].value, style, depth);
    var end := MemberEnd(|rest| == 1, style);
    var more := RenderMembers(rest[1..], style, depth);
    assert done + (key + (value + (end + more))) == done + (key + (value + end)) + more;
  }

  lemma {:induction false} QuotedNulFree(s: cstring)
    requires NulFree(Escape(s))
    ensures NulFree(RenderString(s))
  {
  }

  lemma ContainersRendered(items: seq<Value>, members: seq<Member>, style: Style, depth: nat)
    ensures Render(Array(items), style, depth) == [LBRACKET] + (RenderItems(items, style, depth + 1) + [RBRACKET])
    ensures Render(Object(members), style, depth) == ([LBRACE] + Layout(style, [NEWLINE]))
      + (RenderMembers(members, style, depth + 1) + (Layout(style, Tabs(depth)) + [RBRACE]))
  {
  }

  // ----- the interface

  /** cJSON_PrintPreallocated: succeeds exactly if the buffer has two bytes more than the text. */
  method PrintPreallocated(item: Node, buffer: array?<byte>, length: int32, style: Style, hooks: Hooks,
                           hasRealloc: bool, ghost t: Tree, ghost v: Value)
    returns (ok: bool)
    requires item == t.node && Carries(t, v) && Sized(v) && hooks !in Blocks(t)
    requires buffer != null ==> length <= buffer.Length && buffer !in Blocks(t)
    modifies buffer, hooks
    ensures ok <==> buffer != null && Printable(v, style) && length >= |Render(v, style, 0)| + 2
    ensures ok ==> Spelled(buffer, 0, Render(v, style, 0)) && buffer[|Render(v, style, 0)|] == 0
    ensures hooks.live == old(hooks.live)
  {
    hide Render, Printable, Carries, Blocks, Sized;
    if length < 0 || buffer == null {
      return false;
    }
    TreeAllocated(t);
    BlocksParts(t);
    var p := new PrintBuffer(buffer, length, true, style, hooks, hasRealloc);
    ok := p.PrintValue(item, t, v, []);
  }

  /** A printer with a buffer of its own that starts with `size` bytes, and the item printed into it. */
  method PrintOwned(item: Node, size: size_t, style: Style, hooks: Hooks, hasRealloc: bool,
                    ghost t: Tree, ghost v: Value)
    returns (ok: bool, p: PrintBuffer?)
    requires item == t.node && Carries(t, v) && Sized(v) && hooks !in Blocks(t)
    requires size <= INT_MAX && (size == 0 ==> hasRealloc)
    modifies hooks
    ensures p == null ==> !ok && hooks.Refused() && hooks.live == old(hooks.live)
    ensures p != null ==>
      && fresh(p) && !p.noalloc && p.hooks == hooks && p.hasRealloc == hasRealloc
      && hooks.live == old(hooks.live) + Block(p.buffer) && Block(p.buffer) !! old(hooks.live)
    ensures ok ==>
      && p != null && fresh(p.buffer) && Printable(v, style) && p.Wrote([], Render(v, style, 0))
      && hooks.refusals == old(hooks.refusals)
    ensures !ok ==> hooks.Refused() || !Printable(v, style) || |Render(v, style, 0)| + 2 > INT_MAX
  {
    hide Render, Printable, Carries, Blocks, Sized;
    TreeAllocated(t);
    BlocksParts(t);
    ok, p := false, null;
    var buffer := hooks.Allocate(size);
    if buffer == null {
      return;
    }
    p := new PrintBuffer(buffer, size, false, style, hooks, hasRealloc);
    ok := p.PrintValue(item, t, v, []);
  }

  /** cJSON_PrintBuffered with a buffer of `prebuffer` bytes to start from. */
  method PrintBuffered(item: Node, prebuffer: int32, style: Style, hooks: Hooks, hasRealloc: bool,
                       ghost t: Tree, ghost v: Value)
    returns (printed: array?<byte>)
    requires item == t.node && Carries(t, v) && Sized(v) && hooks !in Blocks(t)
    requires prebuffer == 0 ==> hasRealloc
    modifies hooks
    ensures printed != null ==>
      && fresh(printed) && Printable(v, style) && |Render(v, style, 0)| < printed.Length
      && Spelled(printed, 0, Render(v, style, 0)) && printed[|Render(v, style, 0)|] == 0
      && hooks.refusals == old(hooks.refusals)
    ensures printed == null ==>
      prebuffer < 0 || hooks.Refused() || !Printable(v, style) || |Render(v, style, 0)| + 2 > INT_MAX
    ensures hooks.live == old(hooks.live) + Block(printed)
  {
    hide Render, Printable, Carries, Blocks, Sized, Spelled;
    printed := null;
    if prebuffer < 0 {
      return;
    }
    var ok, p := PrintOwned(item, prebuffer, style, hooks, hasRealloc, t, v);
    if ok {
      return p.buffer;
    }
    if p != null && p.buffer != null {
      hooks.Deallocate(p.buffer);
    }
  }

  /** `print`, behind cJSON_Print and cJSON_PrintUnformatted: the result is cut to the size of the text. */
  method Print(item: Node, style: Style, hooks: Hooks, hasRealloc: bool, ghost t: Tree, ghost v: Value)
    returns (printed: array?<byte>)
    requires item == t.node && Carries(t, v) && Sized(v) && hooks !in Blocks(t)
    modifies hooks
    ensures printed != null ==>
      && fresh(printed) && Printable(v, style) && printed[..] == Render(v, style, 0) + [0]
      && hooks.refusals == old(hooks.refusals)
    ensures printed == null ==> hooks.Refused() || !Printable(v, style) || |Render(v, style, 0)| + 2 > INT_MAX
    ensures hooks.live == old(hooks.live) + Block(printed)
  {
    hide Render, Printable, Carries, Blocks, Sized;
    printed := null;
    var ok, p := PrintOwned(item, 256, style, hooks, hasRealloc, t, v);
    if p == null {
      return;
    }
    if ok {
      RenderNulFree(v, style, 0);
      p.UpdateOffset([], Render(v, style, 0));
      printed := CutToSize(p, Render(v, style, 0));
      if printed != null {
        return;
      }
    }
    if p.buffer != null {
      hooks.Deallocate(p.buffer);
    }
  }

  /** The end of `print`: the text moves to a block of exactly its size. */
  method CutToSize(p: PrintBuffer, ghost text: bytes) returns (printed: array?<byte>)
    requires p.Valid() && p.Holding([] + text) && !p.noalloc && |text| < p.buffer.Length && p.buffer[|text|] == 0
    modifies p.hooks
    ensures printed != null ==>
      && fresh(printed) && printed[..] == text + [0] && p.hooks.refusals == old(p.hooks.refusals)
      && p.hooks.live == old(p.hooks.live) - {p.buffer} + {printed}
    ensures printed == null ==> p.hooks.Refused() && p.hooks.live == old(p.hooks.live)
  {
    assert [] + text == text;
    if p.hasRealloc {
      printed := p.hooks.Reallocate(p.buffer, p.offset + 1);
    } else {
      printed := p.hooks.Allocate(p.offset + 1);
      if printed != null {
        CopyText(printed, p.buffer, p.offset);
        p.hooks.Deallocate(p.buffer);
      }
    }
  }

  /** The copy at the end of `print`. */
  method CopyText(printed: array<byte>, buffer: array<byte>, n: nat)
    requires printed.Length == n + 1 && n < buffer.Length && printed != buffer
    modifies printed
    ensures forall i {:trigger printed[i]} :: 0 <= i < n ==> printed[i] == buffer[i]
    ensures printed[n] == 0
  {
    for i := 0 to n + 1
      invariant forall k {:trigger printed[k]} :: 0 <= k < i ==> printed[k] == buffer[k]
    {
      printed[i] := buffer[i];
    }
    printed[n] := 0;
  }

  function ItemText(v: Value, last: bool, style: Style, depth: nat): bytes {
    Render(v, style, depth) + if last then [] else ItemSeparator(style)
  }

  /** The `i`-th node of a list, or its end. */
  ghost function NodeAt(kids: seq<Tree>, i: nat): Node? {
    if i < |kids| then kids[i].node else null
  }

  lemma NextOf(kids: seq<Tree>, i: nat)
    requires Chained(kids) && i < |kids|
    ensures kids[i].node.next == NodeAt(kids, i + 1)
  {
  }

  lemma SameLength(kids: seq<Tree>, items: seq<Value>)
    requires CarriesItems(kids, items)
    ensures |kids| == |items| && First(kids) == NodeAt(kids, 0)
  {
  }

  lemma SameCount(kids: seq<Tree>, members: seq<Member>)
    requires CarriesMembers(kids, members)
    ensures |kids| == |members| && First(kids) == NodeAt(kids, 0)
  {
  }

  lemma NodeIn(t: Tree)
    ensures t.node in Blocks(t)
  {
  }

  lemma NoItems(style: Style, depth: nat)
    ensures RenderItems([], style, depth) == [] && PrintableItems([], style)
  {
  }

  lemma {:induction false} ItemsStep(items: seq<Value>, i: nat, style: Style, depth: nat, done: bytes)
    requires i < |items|
    ensures done + RenderItems(items[i..], style, depth)
      == done + ItemText(items[i], i + 1 == |items|, style, depth) + RenderItems(items[i + 1..], style, depth)
    ensures PrintableItems(items[i..], style) <==> Printable(items[i], style) && PrintableItems(items[i + 1..], style)
    ensures i + 1 == |items| ==> items[i + 1..] == []
  {
    hide Render, Printable, ItemSeparator;
    var rest := items[i..];
    assert rest[1..] == items[i + 1..];
    var separator := if |rest| > 1 then ItemSeparator(style) else [];
    assert done + (Render(rest[0], style, depth) + (separator + RenderItems(rest[1..], style, depth)))
      == done + (Render(rest[0], style, depth) + separator) + RenderItems(rest[1..], style, depth);
  }

  /** The closing part of an array or object continues what stands behind `before`. */
  lemma Enclosed(a: array<byte>, before: bytes, open: bytes, middle: bytes, close: bytes)
    requires Spelled(a, 0, before + open + middle) && Spelled(a, |before| + |open| + |middle|, close)
    ensures Spelled(a, 0, before) && Spelled(a, |before|, open + (middle + close))
  {
  }

  /** strcpy, or the same without the terminator. */
  method WriteText(text: bytes, terminated: bool, out: array<byte>, at: nat)
    requires at + |text| + (if terminated then 1 else 0) <= out.Length
    modifies out
    ensures Spelled(out, at, text) && (terminated ==> out[at + |text|] == 0)
    ensures forall i {:trigger out[i]} :: 0 <= i < at ==> out[i] == old(out[i])
  {
    for i := 0 to |text|
      invariant forall k {:trigger out[k]} :: 0 <= k < at ==> out[k] == old(out[k])
      invariant Spelled(out, at, text[..i])
    {
      out[at + i] := text[i];
    }
    if terminated {
      out[at + |text|] := 0;
    }
  }

  /** What print_string_ptr asks of `ensure`, in 32-bit sums. */
  function Requested(s: bytes): size_t {
    Wrap(Wrap(|s| + Wrap(|Escape(s)| - |s|)) + 3)
  }

  /** The escaped string, its quotes and its terminator have a 32-bit size. */
  predicate Measurable(s: bytes) {
    |Escape(s)| + 3 < 0x1_0000_0000
  }

  /** The request is for the bytes that are written exactly if their number is a `size_t`. */
  lemma {:induction false} RequestExact(s: bytes)
    ensures Requested(s) == Wrap(|Escape(s)| + 3)
    ensures Requested(s) == |Escape(s)| + 3 <==> Measurable(s)
    ensures |s| <= |Escape(s)|
    ensures Measurable(s) ==> Wrap(|Escape(s)| - |s|) == |Escape(s)| - |s| && Wrap(|Escape(s)|) == |Escape(s)|
  {
    hide Escape;
    PlainEscape(s);
    WrapSum(|Escape(s)| - |s|, |s|);
    WrapSum(|Escape(s)|, 3);
  }

  /** 715,827,883 control characters take more than four billion bytes, and the request is for five. */
  lemma {:induction false} RequestTooSmall()
    ensures var s := seq(715_827_883, _ => 1); Requested(s) == 5 && |Escape(s)| == 0x1_0000_0002
  {
    hide Escape;
    var s := seq(715_827_883, _ => 1);
    EscapeControls(s);
    RequestExact(s);
  }

  lemma {:induction false} EscapeControls(s: bytes)
    requires forall i :: 0 <= i < |s| ==> s[i] == 1
    ensures |Escape(s)| == 6 * |s|
  {
    if s != [] {
      EscapeControls(s[1..]);
    }
  }

  /** Every string in the value, keys included, can be asked room for. */
  predicate Sized(v: Value)
    decreases v
  {
    match v
    case String(s) => Measurable(s)
    case Array(items) => forall i :: 0 <= i < |items| ==> Sized(items[i])
    case Object(members) => forall i :: 0 <= i < |members| ==> Measurable(members[i].key) && Sized(members[i].value)
    case Raw(text) => |text| + 1 < 0x1_0000_0000
    case _ => true
  }

  lemma SizedItem(items: seq<Value>, i: nat)
    requires Sized(Array(items)) && i < |items|
    ensures Sized(items[i])
  {
  }

  lemma SizedMember(members: seq<Member>, i: nat)
    requires Sized(Object(members)) && i < |members|
    ensures Measurable(members[i].key) && Sized(members[i].value)
  {
  }

  lemma SizedText(v: Value)
    requires Sized(v)
    ensures v.String? ==> Measurable(v.s)
  {
  }

  /** That only shuts out values whose text has no 32-bit size. */
  lemma {:induction false} SizedIfShort(v: Value, style: Style, depth: nat)
    requires |Render(v, style, depth)| + 1 < 0x1_0000_0000
    ensures Sized(v)
    decreases v
  {
    hide RenderItems, RenderMembers, RenderNumber, Escape;
    match v
    case Array(items) => ItemsSized(items, style, depth + 1);
    case Object(members) => MembersSized(members, style, depth + 1);
    case _ =>
  }

  lemma {:induction false} ItemsSized(items: seq<Value>, style: Style, depth: nat)
    requires |RenderItems(items, style, depth)| + 1 < 0x1_0000_0000
    ensures forall i :: 0 <= i < |items| ==> Sized(items[i])
    decreases items
  {
    hide Render, Sized;
    if items != [] {
      SizedIfShort(items[0], style, depth);
      ItemsSized(items[1..], style, depth);
      forall i | 0 <= i < |items| ensures Sized(items[i]) {
        assert i > 0 ==> items[i] == items[1..][i - 1];
      }
    }
  }

  lemma {:induction false} MembersSized(members: seq<Member>, style: Style, depth: nat)
    requires |RenderMembers(members, style, depth)| + 1 < 0x1_0000_0000
    ensures forall i :: 0 <= i < |members| ==> Measurable(members[i].key) && Sized(members[i].value)
    decreases members
  {
    hide Render, Sized, Escape;
    if members != [] {
      SizedIfShort(members[0].value, style, depth);
      MembersSized(members[1..], style, depth);
      forall i | 0 <= i < |members| ensures Measurable(members[i].key) && Sized(members[i].value) {
        assert i > 0 ==> members[i] == members[1..][i - 1];
      }
    }
  }

  lemma EscapeNothing()
    ensures Escape([]) == []
  {
  }

  lemma {:induction false} EscapeMore(s: bytes, i: nat)
    requires i < |s|
    ensures Escape(s[..i + 1]) == Escape(s[..i]) + EscapeByte(s[i])
    ensures |EscapeByte(s[i])| ==
      if s[i] == 34 || s[i] == 92 || s[i] == 8 || s[i] == 12 || s[i] == 10 || s[i] == 13 || s[i] == 9 then 2
      else if s[i] < 32 then 6 else 1
  {
    assert s[..i + 1] == s[..i] + [s[i]];
    EscapeJoin(s[..i], [s[i]]);
    assert Escape([s[i]]) == EscapeByte(s[i]) + Escape([]);
  }

  lemma {:induction false} EscapeJoin(a: bytes, b: bytes)
    ensures Escape(a + b) == Escape(a) + Escape(b)
  {
    hide EscapeByte;
    if a == [] {
      assert a + b == b;
    } else {
      EscapeJoin(a[1..], b);
      assert (a + b)[1..] == a[1..] + b;
    }
  }

  /** The rest of print_string_ptr, once the room has been secured. */
  method WriteString(input: array<byte>, length: nat, extra: nat, out: array<byte>, at: nat, ghost s: cstring)
    requires HoldsText(input, s) && input != out && length == |s|
    requires |Escape(s)| == |s| + extra && at + |Escape(s)| + 3 <= out.Length
    modifies out
    ensures Spelled(out, at, RenderString(s)) && out[at + |RenderString(s)|] == 0
    ensures forall i {:trigger out[i]} :: 0 <= i < at ==> out[i] == old(out[i])
  {
    hide Escape, CStr;
    out[at] := QUOTE;
    if extra == 0 {
      CopyPlain(input, length, out, at + 1, s);
    } else {
      CopyEscaped(input, out, at + 1, s);
    }
    out[at + length + extra + 1] := QUOTE;
    out[at + length + extra + 2] := 0;
  }

  /** The memcpy of a string that needs no escaping. */
  method CopyPlain(input: array<byte>, length: nat, out: array<byte>, at: nat, ghost s: cstring)
    requires HoldsText(input, s) && input != out && length == |s| && at + |s| <= out.Length && |Escape(s)| == |s|
    modifies out
    ensures Spelled(out, at, Escape(s))
    ensures forall i {:trigger out[i]} :: 0 <= i < at ==> out[i] == old(out[i])
  {
    hide Escape, CStr;
    StringEnd(input, s);
    PlainEscape(s);
    for i := 0 to length
      invariant forall k {:trigger out[k]} :: 0 <= k < at ==> out[k] == old(out[k])
      invariant forall k {:trigger out[k]} :: at <= k < at + i ==> out[k] == s[k - at]
    {
      out[at + i] := input[i];
    }
  }

  /** When escaping adds nothing, the string is spelled as it is. */
  lemma {:induction false} PlainEscape(s: bytes)
    ensures |Escape(s)| >= |s|
    ensures |Escape(s)| == |s| ==> Escape(s) == s
  {
    if s != [] {
      PlainEscape(s[1..]);
      assert s == [s[0]] + s[1..];
    }
  }

  /** The second loop of print_string_ptr. */
  method CopyEscaped(input: array<byte>, out: array<byte>, at: nat, ghost s: cstring)
    requires HoldsText(input, s) && input != out && at + |Escape(s)| < out.Length
    modifies out
    ensures Spelled(out, at, Escape(s))
    ensures forall i {:trigger out[i]} :: 0 <= i < at ==> out[i] == old(out[i])
  {
    hide Escape, EscapeByte, CStr;
    StringEnd(input, s);
    var end, i := at, 0;
    assert s[..0] == [];
    EscapeNothing();
    while input[i] != 0
      invariant 0 <= i <= |s| && end == at + |Escape(s[..i])|
      invariant Spelled(out, at, Escape(s[..i]))
      invariant forall k {:trigger out[k]} :: 0 <= k < at ==> out[k] == old(out[k])
      decreases |s| - i
    {
      EscapeMore(s, i);
      EscapeBound(s, i + 1);
      end := WriteEscaped(input[i], out, end);
      i := i + 1;
    }
    assert s[..|s|] == s;
  }

  lemma {:induction false} EscapeBound(s: bytes, i: nat)
    requires i <= |s|
    ensures |Escape(s[..i])| <= |Escape(s)|
  {
    assert s == s[..i] + s[i..];
    EscapeJoin(s[..i], s[i..]);
  }

  /** The body of the second loop for one byte; sprintf leaves a terminator behind its five characters. */
  method WriteEscaped(b: byte, out: array<byte>, at: nat) returns (end: nat)
    requires at + |EscapeByte(b)| < out.Length
    modifies out
    ensures end == at + |EscapeByte(b)| && Spelled(out, at, EscapeByte(b))
    ensures forall i {:trigger out[i]} :: 0 <= i < at ==> out[i] == old(out[i])
  {
    if b > 31 && b != QUOTE && b != BACKSLASH {
      out[at] := b;
      return at + 1;
    }
    out[at] := BACKSLASH;
    end := at + 2;
    match b
    case 92 => out[at + 1] := BACKSLASH;
    case 34 => out[at + 1] := QUOTE;
    case 8 => out[at + 1] := LOWER_B;
    case 12 => out[at + 1] := LOWER_F;
    case 10 => out[at + 1] := LOWER_N;
    case 13 => out[at + 1] := LOWER_R;
    case 9 => out[at + 1] := LOWER_T;
    case _ =>
      out[at + 1] := LOWER_U;
      out[at + 2] := 48;
      out[at + 3] := 48;
      out[at + 4] := HexChar(b / 16);
      out[at + 5] := HexChar(b % 16);
      out[at + 6] := 0;
      end := at + 6;
  }
}

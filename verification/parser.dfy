/** cJSON's parser: a cursor over the input that builds a tree of nodes with an allocator that may refuse any
    request. */
module Parser {
  import opened Bytes
  import opened Json
  import opened NumberSpec
  import opened StringSpec
  import opened StringDecoder
  import opened Nodes
  import opened TreeValue
  import Spec = ParseSpec

  class ParseBuffer {
    const content: bytes
    var offset: nat
    var depth: nat
    const hooks: Hooks

    constructor (content: bytes, hooks: Hooks)
      ensures this.content == content && this.hooks == hooks && offset == 0 && depth == 0
    {
      this.content := content;
      this.hooks := hooks;
      offset, depth := 0, 0;
    }

    ghost predicate Valid()
      reads this
    {
      offset <= |content| && depth <= Spec.NESTING_LIMIT
    }

    predicate CanRead(n: nat)
      reads this
    {
      offset + n <= |content|
    }

    predicate At(b: byte)
      reads this
    {
      offset < |content| && content[offset] == b
    }

    /** buffer_skip_whitespace */
    method SkipWhitespace()
      requires Valid()
      modifies this`offset
      ensures Valid() && offset == Spec.SkipBlanks(content, old(offset))
    {
      if offset >= |content| {
        return;
      }
      while offset < |content| && content[offset] <= 32
        invariant old(offset) <= offset <= |content|
        invariant Spec.BlankEnd(content, old(offset)) == Spec.BlankEnd(content, offset)
      {
        offset := offset + 1;
      }
      if offset == |content| {
        offset := offset - 1;
      }
    }

    /** skip_utf8_bom: at the start of the buffer only. */
    method SkipUtf8Bom() returns (ok: bool)
      requires Valid()
      modifies this`offset
      ensures Valid() && (ok <==> old(offset) == 0)
      ensures offset == if ok && |content| > 4 && content[..3] == BOM then 3 else old(offset)
    {
      if offset != 0 {
        return false;
      }
      ok := true;
      if CanRead(5) && content[0] == 0xEF && content[1] == 0xBB && content[2] == 0xBF {
        offset := offset + 3;
      }
    }

    /** The loop of parse_number that measures the run of number characters. */
    method NumberRun() returns (n: nat)
      requires Valid()
      ensures offset + n == RunEnd(content, offset)
    {
      n := 0;
      while offset + n < |content| && IsNumberChar(content[offset + n])
        invariant offset + n <= |content|
        invariant RunEnd(content, offset) == RunEnd(content, offset + n)
      {
        n := n + 1;
      }
    }

    /** parse_number: the run of number characters is copied into a block of its own, read by strtod, and the block
        freed. */
    method ParseNumber(item: Node) returns (ok: bool)
      requires Valid()
      modifies this`offset, hooks, item`kind, item`valueint, item`valuedouble
      ensures Valid() && hooks.live == old(hooks.live)
      ensures ok ==> var r := Spec.ParseNumber(content, old(offset));
        && r == Ok(Number(item.valuedouble, item.valueint), offset) && item.kind == KNumber
        && hooks.refusals == old(hooks.refusals)
      ensures !ok ==> offset == old(offset) && (hooks.Refused() || Spec.ParseNumber(content, offset) == Fail(offset))
      ensures hooks.refusals >= old(hooks.refusals)
    {
      hide Strtod, Saturate, RunEnd;
      var n := NumberRun();
      var copy := hooks.Allocate(n + 1);
      if copy == null {
        return false;
      }
      CopyRun(copy, n);
      var numeral := Strtod(copy[..n]);
      hooks.Deallocate(copy);
      if numeral.NoNumeral? {
        return false;
      }
      item.valuedouble := numeral.value;
      item.valueint := Saturate(numeral.value);
      item.kind := KNumber;
      offset := offset + numeral.len;
      return true;
    }

    method CopyRun(copy: array<byte>, n: nat)
      requires offset + n <= |content| && n < copy.Length
      modifies copy
      ensures copy[..n] == content[offset..offset + n]
    {
      for i := 0 to n
        invariant forall k {:trigger copy[k]} :: 0 <= k < i ==> copy[k] == content[offset + k]
      {
        copy[i] := content[offset + i];
      }
      copy[n] := 0;
    }

    /** parse_string: the decoded literal is stored as the item's valuestring. */
    method ParseString(item: Node) returns (ok: bool)
      requires Valid() && offset < |content|
      modifies this`offset, hooks, item`kind, item`valuestring
      ensures Valid()
      ensures ok ==> var r := StringSpec.ParseString(content, old(offset));
        && r.Ok? && r.offset == offset && item.kind == KString
        && HoldsText(item.valuestring, r.value) && fresh(item.valuestring)
        && hooks.live == old(hooks.live) + {item.valuestring} && hooks.refusals == old(hooks.refusals)
      ensures !ok ==>
        hooks.live == old(hooks.live) && item.kind == old(item.kind) && item.valuestring == old(item.valuestring)
      ensures !ok ==>
        (hooks.Refused() && offset == old(offset) + 1) || StringSpec.ParseString(content, old(offset)) == Fail(offset)
      ensures hooks.refusals >= old(hooks.refusals)
    {
      hide Close, Unescape, Escapes, CStr;
      var start := offset + 1;
      if content[offset] != QUOTE {
        offset := start;
        return false;
      }
      var end, skipped := FindEnd(content, start);
      if end == -1 {
        offset := start;
        return false;
      }
      CloseIsBalanced(content, start);
      EscapesBounded(content[start..end]);
      var output := hooks.Allocate(end - offset - skipped + 1);
      if output == null {
        offset := start;
        return false;
      }
      var decoded, input := Decode(content, start, end, output);
      if !decoded {
        hooks.Deallocate(output);
        offset := input;
        return false;
      }
      TextStored(output, Unescape(content[start..end]).out);
      item.kind := KString;
      item.valuestring := output;
      offset := end + 1;
      return true;
    }

    /** Nothing hangs on the item yet, so deleting it frees the item (and its name) only. */
    static ghost predicate Bare(item: Node)
      reads item`child, item`valuestring, item`isReference, item`stringIsConst
    {
      item.child == null && item.valuestring == null && !item.isReference && !item.stringIsConst
    }

    /** `strncmp` of the remaining input with a literal. */
    predicate Looking(text: bytes)
      requires Valid()
      reads this
    {
      CanRead(|text|) && content[offset..offset + |text|] == text
    }

    /** parse_value. On success `t` lists the nodes and blocks of the value now hanging on the item. */
    method ParseValue(item: Node) returns (ok: bool, ghost t: Tree)
      requires Valid() && Bare(item)
      modifies this`offset, this`depth, hooks
      modifies item`kind, item`child, item`valuestring, item`valueint, item`valuedouble
      ensures Valid()
      ensures ok ==>
        var r := Spec.ParseValue(content, old(offset), old(depth));
        && r.Ok? && offset == r.offset && depth == old(depth)
        && t.node == item && t.key == null && Holds(t, r.value)
      ensures ok ==>
        && Distinct(t) && fresh(Inner(t))
        && hooks.live == old(hooks.live) + Inner(t) && hooks.refusals == old(hooks.refusals)
      ensures !ok ==> Bare(item) && hooks.live == old(hooks.live)
      ensures !ok ==> hooks.Refused() || Spec.ParseValue(content, old(offset), old(depth)) == Fail(offset)
      ensures hooks.refusals >= old(hooks.refusals)
      decreases |content| - offset, 6
    {
      hide Strtod, Saturate, RunEnd, Close, Unescape, CStr, Spec.ParseArray, Spec.ParseObject, Spec.ParseNumber;
      hide StringSpec.ParseString, CarriesItems, CarriesMembers, TidyItems, TidyMembers;
      t := Tree(item, null, null, []);
      LeafDistinct(t);
      if Looking(NULL_TEXT) {
        item.kind := KNull;
        offset := offset + 4;
        LeafTidy(t);
        return true, t;
      }
      if Looking(FALSE_TEXT) {
        item.kind := KFalse;
        offset := offset + 5;
        LeafTidy(t);
        return true, t;
      }
      if Looking(TRUE_TEXT) {
        item.kind := KTrue;
        item.valueint := 1;
        offset := offset + 4;
        LeafTidy(t);
        return true, t;
      }
      if At(QUOTE) {
        ok := ParseString(item);
        if ok {
          t := Tree(item, item.valuestring, null, []);
          LeafDistinct(t);
          LeafTidy(t);
        }
        return;
      }
      if At(MINUS) || (offset < |content| && IsDigit(content[offset])) {
        ok := ParseNumber(item);
        if ok {
          LeafTidy(t);
        }
        return;
      }
      if At(LBRACKET) {
        ok, t := ParseArray(item);
        return;
      }
      if At(LBRACE) {
        ok, t := ParseObject(item);
        return;
      }
      return false, t;
    }

    /** The children read so far: a chain of nodes, and the blocks they own are the ones that have
        become live since `before`. */
    ghost predicate Reading(head: Node?, current: Node?, kids: seq<Tree>, before: set<object>)
      reads hooks, NodesOf(kids)
    {
      && head == First(kids) && current == Last(kids) && Chained(kids) && BackChained(kids)
      && DistinctAll(kids) && BlocksOf(kids) !! before && hooks.live == before + BlocksOf(kids)
      && this !in BlocksOf(kids) && hooks !in BlocksOf(kids)
    }

    /** Allocates the next node and hangs it on the end of the chain. */
    method AddItem(head: Node?, current: Node?, ghost kids: seq<Tree>, ghost before: set<object>)
      returns (item: Node?, first: Node?)
      requires Reading(head, current, kids, before)
      modifies hooks, Opt(current)`next
      ensures item == null ==>
        && hooks.Refused() && hooks.live == old(hooks.live) && Reading(head, current, kids, before)
      ensures item != null ==>
        && fresh(item) && hooks.refusals == old(hooks.refusals) && Bare(item) && item.name == null
        && Reading(first, item, kids + [Tree(item, null, null, [])], before)
    {
      hide BlocksOf, DistinctAll, Distinct, Blocks, Inner, NodesOf, Chained, BackChained;
      KidsApart(head, current, kids, before);
      first := head;
      item := hooks.NewItem();
      if item == null {
        return;
      }
      ghost var leaf := Tree(item, null, null, []);
      LeafDistinct(leaf);
      Extended(kids, leaf);
      if head == null {
        first := item;
        OneLinked(leaf);
      } else {
        SuffixObject(current, item, kids, leaf);
      }
    }

    /** The nodes of the chain are blocks of the list, and none of the nodes is owned by another. */
    lemma {:induction false} KidsApart(head: Node?, current: Node?, kids: seq<Tree>, before: set<object>)
      requires Reading(head, current, kids, before)
      ensures BlocksOf(kids) == NodesOf(kids) + InnerOf(kids) && NodesOf(kids) !! InnerOf(kids)
      ensures BlocksOf(kids) <= hooks.live && this !in BlocksOf(kids) && hooks !in BlocksOf(kids)
      ensures Opt(head) <= NodesOf(kids) && Opt(current) <= NodesOf(kids)
    {
      NodesAndInner(kids);
    }

    /** A value has been read into the node at the end of the chain. */
    lemma {:induction false} Grown(first: Node?, kids: seq<Tree>, leaf: Tree, t: Tree, before: set<object>)
      requires first == First(kids + [leaf]) && Chained(kids + [leaf]) && BackChained(kids + [leaf])
      requires leaf.node == t.node && DistinctAll(kids) && Distinct(t) && BlocksOf(kids) !! Blocks(t)
      requires (BlocksOf(kids) + Blocks(t)) !! before && hooks.live == before + BlocksOf(kids) + Blocks(t)
      requires this !in BlocksOf(kids) + Blocks(t) && hooks !in BlocksOf(kids) + Blocks(t)
      ensures Reading(first, t.node, kids + [t], before)
    {
      hide BlocksOf, Blocks, DistinctAll, Distinct, Chained, BackChained;
      SameLinks(kids, leaf, t);
      Extended(kids, leaf);
      Extended(kids, t);
    }

    // ----- arrays

    /** parse_array: on failure every element built so far is deleted again. */
    method ParseArray(item: Node) returns (ok: bool, ghost t: Tree)
      requires Valid() && At(LBRACKET) && Bare(item)
      modifies this`offset, this`depth, hooks, item`kind, item`child
      ensures Valid()
      ensures ok ==>
        var r := Spec.ParseArray(content, old(offset), old(depth));
        && r.Ok? && offset == r.offset && depth == old(depth)
        && t.node == item && t.key == null && Holds(t, Array(r.value))
      ensures ok ==>
        && Distinct(t) && fresh(Inner(t))
        && hooks.live == old(hooks.live) + Inner(t) && hooks.refusals == old(hooks.refusals)
      ensures !ok ==> Bare(item) && hooks.live == old(hooks.live)
      ensures !ok ==> hooks.Refused() || Spec.ParseArray(content, old(offset), old(depth)) == Fail(offset)
      ensures hooks.refusals >= old(hooks.refusals)
      decreases |content| - offset, 5, 1
    {
      hide Spec.ParseArray, Listed, HoldsItems, Holds, Chained, BackChained, NodesOf, BlocksOf, Distinct, DistinctAll;
      hide InnerOf, Inner;
      var head: Node?, current: Node?;
      ghost var kids, items;
      ok, head, current, kids, items := ArrayBody();
      t := Tree(item, null, null, kids);
      if ok {
        KidsApart(head, current, kids, old(hooks.live));
        NodesDistinct(kids);
        depth := depth - 1;
        Attach(item, KArray, head, current, kids);
        offset := offset + 1;
        ParentDistinct(t);
        ArrayHeld(t, items);
      }
    }

    /** parse_array up to its closing bracket: the elements read, or nothing once a failed list has been deleted. */
    method ArrayBody() returns (ok: bool, head: Node?, current: Node?, ghost kids: seq<Tree>, ghost items: seq<Value>)
      requires Valid() && At(LBRACKET)
      modifies this`offset, this`depth, hooks
      ensures Valid()
      ensures ok ==>
        && Spec.ParseArray(content, old(offset), old(depth)) == Ok(items, offset + 1) && offset < |content|
        && depth == old(depth) + 1 && hooks.refusals == old(hooks.refusals)
      ensures ok ==> fresh(BlocksOf(kids)) && Reading(head, current, kids, old(hooks.live)) && HoldsItems(kids, items)
      ensures !ok ==> hooks.live == old(hooks.live)
      ensures !ok ==> hooks.Refused() || Spec.ParseArray(content, old(offset), old(depth)) == Fail(offset)
      ensures hooks.refusals >= old(hooks.refusals)
      decreases |content| - offset, 5, 0
    {
      hide Spec.ParseElements, Spec.SkipBlanks, HoldsItems, Chained, BackChained, NodesOf, BlocksOf, DistinctAll;
      hide OwnedEach, InnerOf;
      ok, head, current, kids, items := false, null, null, [], [];
      NoTrees();
      if depth >= Spec.NESTING_LIMIT {
        return;
      }
      depth := depth + 1;
      offset := offset + 1;
      SkipWhitespace();
      if At(RBRACKET) {
        NoTrees();
        ok := true;
        return;
      }
      if offset >= |content| {
        offset := offset - 1;
        return;
      }
      offset := offset - 1;
      Spec.SkipBlanksTwice(content, old(offset) + 1);
      ok, head, current, kids, items := ParseElements();
      if !ok && head != null {
        Delete(head, hooks, kids);
      }
    }

    /** The do-while loop of parse_array. On failure the chain read so far is handed back for deletion. */
    method ParseElements()
      returns (ok: bool, head: Node?, current: Node?, ghost kids: seq<Tree>, ghost items: seq<Value>)
      requires Valid() && offset + 1 < |content| && Spec.SkipBlanks(content, offset + 1) == offset + 1
      modifies this`offset, this`depth, hooks
      ensures Valid() && fresh(BlocksOf(kids)) && Reading(head, current, kids, old(hooks.live))
      ensures ok ==>
        && Spec.ParseElements(content, old(offset) + 1, old(depth)) == Ok(items, offset + 1)
        && At(RBRACKET) && depth == old(depth) && HoldsItems(kids, items) && kids != []
        && hooks.refusals == old(hooks.refusals)
      ensures !ok ==> OwnedEach(kids)
      ensures !ok ==> hooks.Refused() || Spec.ParseElements(content, old(offset) + 1, old(depth)) == Fail(offset)
      ensures hooks.refusals >= old(hooks.refusals)
      decreases |content| - offset, 4
    {
      hide Spec.ParseElements, Spec.SkipBlanks, OwnedEach, HoldsItems, Chained, BackChained, BlocksOf, DistinctAll;
      hide NodesOf, InnerOf;
      head, current, kids, items := null, null, [], [];
      ghost var before := hooks.live;
      ghost var start := offset + 1;
      NoTrees();
      PrependMore([], [], Spec.ParseElements(content, start, depth));
      var more := true;
      while more
        invariant Valid() && depth == old(depth) && old(offset) <= offset && (more ==> offset < |content|)
        invariant fresh(BlocksOf(kids)) && Reading(head, current, kids, before) && HoldsItems(kids, items)
        invariant hooks.refusals == old(hooks.refusals) && (more || kids != [])
        invariant Spec.ParseElements(content, start, depth) == PrependItems(items, ElementsLeft(more))
        decreases more, |content| - offset
      {
        ghost var done := items;
        KidsApart(head, current, kids, before);
        ok, head, current, kids, items := ParseElement(head, current, kids, items, before);
        if !ok {
          return;
        }
        PrependMore(done, items[|done|..], ElementsLeft(At(COMMA)));
        assert items == done + items[|done|..];
        more := At(COMMA);
      }
      ok := At(RBRACKET);
      PrependMore(items, [], Ok([], 0));
      ItemsOwned(kids, items);
    }

    /** What the loop has still to read: the elements behind the cursor, or nothing but the closing bracket. */
    ghost function ElementsLeft(more: bool): Parsed<seq<Value>>
      requires Valid() && (more ==> offset < |content|)
      reads this
    {
      if more then Spec.ParseElements(content, Spec.SkipBlanks(content, offset + 1), depth)
      else if At(RBRACKET) then Ok([], offset + 1)
      else Fail(offset)
    }

    /** One turn of the loop of parse_array: a new node, and the value read into it. */
    method ParseElement(head: Node?, current: Node?, ghost kids: seq<Tree>, ghost items: seq<Value>,
                        ghost before: set<object>)
      returns (ok: bool, first: Node?, last: Node?, ghost kids': seq<Tree>, ghost items': seq<Value>)
      requires Valid() && offset < |content| && Reading(head, current, kids, before) && HoldsItems(kids, items)
      modifies this`offset, this`depth, hooks, Opt(current)`next
      ensures Valid() && fresh(BlocksOf(kids') - BlocksOf(kids)) && Reading(first, last, kids', before)
      ensures ok ==>
        && hooks.refusals == old(hooks.refusals) && depth == old(depth) && offset > old(offset)
        && kids' != [] && HoldsItems(kids', items') && items' != [] && items'[..|items'| - 1] == items
        && (At(COMMA) ==> offset < |content|)
        && Spec.ParseElements(content, Spec.SkipBlanks(content, old(offset) + 1), depth)
           == PrependItems(items'[|items'| - 1..], ElementsLeft(At(COMMA)))
      ensures !ok ==> OwnedEach(kids')
      ensures !ok ==>
        || hooks.Refused()
        || Spec.ParseElements(content, Spec.SkipBlanks(content, old(offset) + 1), old(depth)) == Fail(offset)
      ensures hooks.refusals >= old(hooks.refusals)
      decreases |content| - offset, 3, 1
    {
      hide HoldsItems, HoldsItem, Chained, BackChained, BlocksOf, DistinctAll, OwnedEach, NodesOf, InnerOf, Inner;
      hide Holds, Distinct, Spec.ParseElements, Spec.SkipBlanks;
      kids', items' := kids, items;
      KidsApart(head, current, kids, before);
      last, first := AddItem(head, current, kids, before);
      if last == null {
        ItemsOwned(kids, items);
        return false, head, current, kids, items;
      }
      LeafDistinct(Tree(last, null, null, []));
      Extended(kids, Tree(last, null, null, []));
      ok, kids', items' := FillElement(first, last, kids, items, before);
    }

    /** The value is read into the node at the end of the chain. */
    method FillElement(first: Node?, last: Node, ghost kids: seq<Tree>, ghost items: seq<Value>,
                       ghost before: set<object>)
      returns (ok: bool, ghost kids': seq<Tree>, ghost items': seq<Value>)
      requires Valid() && offset < |content| && HoldsItems(kids, items) && Bare(last) && last.name == null
      requires Reading(first, last, kids + [Tree(last, null, null, [])], before)
      modifies this`offset, this`depth, hooks
      modifies last`kind, last`child, last`valuestring, last`valueint, last`valuedouble
      ensures Valid() && fresh(BlocksOf(kids') - BlocksOf(kids) - {last}) && Reading(first, last, kids', before)
      ensures ok ==>
        && hooks.refusals == old(hooks.refusals) && depth == old(depth) && offset > old(offset)
        && kids' != [] && HoldsItems(kids', items') && items' != [] && items'[..|items'| - 1] == items
        && (At(COMMA) ==> offset < |content|)
        && Spec.ParseElements(content, Spec.SkipBlanks(content, old(offset) + 1), depth)
           == PrependItems(items'[|items'| - 1..], ElementsLeft(At(COMMA)))
      ensures !ok ==> OwnedEach(kids')
      ensures !ok ==>
        || hooks.Refused()
        || Spec.ParseElements(content, Spec.SkipBlanks(content, old(offset) + 1), old(depth)) == Fail(offset)
      ensures hooks.refusals >= old(hooks.refusals)
      decreases |content| - offset, 3, 0
    {
      hide HoldsItems, HoldsItem, Chained, BackChained, BlocksOf, DistinctAll, OwnedEach, NodesOf, InnerOf, Inner;
      hide Holds, Distinct, Spec.ParseElements, Spec.SkipBlanks;
      ghost var leaf := Tree(last, null, null, []);
      Extended(kids, leaf);
      LeafDistinct(leaf);
      KidsApart(first, last, kids + [leaf], before);
      NodesAndInner(kids);
      ghost var t, v;
      ok, t, v := ReadElement(last);
      InnerParts(t);
      if ok {
        kids', items' := kids + [t], items + [v];
        ItemsExtended(kids, t, items, v);
        Extended(kids, t);
        Grown(first, kids, leaf, t, before);
      } else {
        kids', items' := kids + [leaf], items;
        ItemsOwned(kids, items);
        LeafOwned(leaf);
        OwnedExtended(kids, leaf);
      }
    }

    /** One element of an array is read into a new node. */
    method ReadElement(item: Node) returns (ok: bool, ghost t: Tree, ghost v: Value)
      requires Valid() && offset < |content| && Bare(item)
      modifies this`offset, this`depth, hooks
      modifies item`kind, item`child, item`valuestring, item`valueint, item`valuedouble
      ensures Valid()
      ensures ok ==>
        && t.node == item && t.key == null && Holds(t, v) && Distinct(t) && fresh(Inner(t))
        && hooks.live == old(hooks.live) + Inner(t) && hooks.refusals == old(hooks.refusals)
      ensures ok ==>
        && depth == old(depth) && offset > old(offset) && (At(COMMA) ==> offset < |content|)
        && Spec.ParseElements(content, Spec.SkipBlanks(content, old(offset) + 1), depth)
           == PrependItems([v], ElementsLeft(At(COMMA)))
      ensures !ok ==> Bare(item) && hooks.live == old(hooks.live)
      ensures !ok ==>
        || hooks.Refused()
        || Spec.ParseElements(content, Spec.SkipBlanks(content, old(offset) + 1), old(depth)) == Fail(offset)
      ensures hooks.refusals >= old(hooks.refusals)
      decreases |content| - offset, 2
    {
      hide Spec.ParseValue, Spec.SkipBlanks, Spec.BlankEnd, Holds, Distinct, Inner;
      v := Null;
      offset := offset + 1;
      SkipWhitespace();
      ok, t := ParseValue(item);
      InnerParts(t);
      if ok {
        v := Spec.ParseValue(content, Spec.SkipBlanks(content, old(offset) + 1), depth).value;
        SkipWhitespace();
        PrependMore([v], [], Ok([], 0));
      }
    }

    // ----- objects

    /** parse_object: on failure every member built so far is deleted again. */
    method ParseObject(item: Node) returns (ok: bool, ghost t: Tree)
      requires Valid() && At(LBRACE) && Bare(item)
      modifies this`offset, this`depth, hooks, item`kind, item`child
      ensures Valid()
      ensures ok ==>
        var r := Spec.ParseObject(content, old(offset), old(depth));
        && r.Ok? && offset == r.offset && depth == old(depth)
        && t.node == item && t.key == null && Holds(t, Object(r.value))
      ensures ok ==>
        && Distinct(t) && fresh(Inner(t))
        && hooks.live == old(hooks.live) + Inner(t) && hooks.refusals == old(hooks.refusals)
      ensures !ok ==> Bare(item) && hooks.live == old(hooks.live)
      ensures !ok ==> hooks.Refused() || Spec.ParseObject(content, old(offset), old(depth)) == Fail(offset)
      ensures hooks.refusals >= old(hooks.refusals)
      decreases |content| - offset, 5, 1
    {
      hide Spec.ParseObject, Listed, HoldsMembers, Holds, Chained, BackChained, NodesOf, BlocksOf, Distinct;
      hide DistinctAll, InnerOf, Inner;
      var head: Node?, current: Node?;
      ghost var kids, members;
      ok, head, current, kids, members := ObjectBody();
      t := Tree(item, null, null, kids);
      if ok {
        KidsApart(head, current, kids, old(hooks.live));
        NodesDistinct(kids);
        depth := depth - 1;
        Attach(item, KObject, head, current, kids);
        offset := offset + 1;
        ParentDistinct(t);
        ObjectHeld(t, members);
      }
    }

    /** parse_object up to its closing brace: the members read, or nothing once a failed list has been deleted. */
    method ObjectBody()
      returns (ok: bool, head: Node?, current: Node?, ghost kids: seq<Tree>, ghost members: seq<Member>)
      requires Valid() && At(LBRACE)
      modifies this`offset, this`depth, hooks
      ensures Valid()
      ensures ok ==>
        && Spec.ParseObject(content, old(offset), old(depth)) == Ok(members, offset + 1) && offset < |content|
        && depth == old(depth) + 1 && hooks.refusals == old(hooks.refusals)
      ensures ok ==>
        fresh(BlocksOf(kids)) && Reading(head, current, kids, old(hooks.live)) && HoldsMembers(kids, members)
      ensures !ok ==> hooks.live == old(hooks.live)
      ensures !ok ==> hooks.Refused() || Spec.ParseObject(content, old(offset), old(depth)) == Fail(offset)
      ensures hooks.refusals >= old(hooks.refusals)
      decreases |content| - offset, 5, 0
    {
      hide Spec.ParseMembers, Spec.SkipBlanks, HoldsMembers, Chained, BackChained, NodesOf, BlocksOf, DistinctAll;
      hide OwnedEach, InnerOf;
      ok, head, current, kids, members := false, null, null, [], [];
      NoTrees();
      if depth >= Spec.NESTING_LIMIT {
        return;
      }
      depth := depth + 1;
      offset := offset + 1;
      SkipWhitespace();
      if At(RBRACE) {
        NoTrees();
        ok := true;
        return;
      }
      if offset >= |content| {
        offset := offset - 1;
        return;
      }
      offset := offset - 1;
      Spec.SkipBlanksTwice(content, old(offset) + 1);
      ok, head, current, kids, members := ParseMembers();
      if !ok && head != null {
        Delete(head, hooks, kids);
      }
    }

    /** The do-while loop of parse_object. On failure the chain read so far is handed back for deletion. */
    method ParseMembers()
      returns (ok: bool, head: Node?, current: Node?, ghost kids: seq<Tree>, ghost members: seq<Member>)
      requires Valid() && offset + 1 < |content| && Spec.SkipBlanks(content, offset + 1) == offset + 1
      modifies this`offset, this`depth, hooks
      ensures Valid() && fresh(BlocksOf(kids)) && Reading(head, current, kids, old(hooks.live))
      ensures ok ==>
        && Spec.ParseMembers(content, old(offset) + 1, old(depth)) == Ok(members, offset + 1)
        && At(RBRACE) && depth == old(depth) && HoldsMembers(kids, members) && kids != []
        && hooks.refusals == old(hooks.refusals)
      ensures !ok ==> OwnedEach(kids)
      ensures !ok ==> hooks.Refused() || Spec.ParseMembers(content, old(offset) + 1, old(depth)) == Fail(offset)
      ensures hooks.refusals >= old(hooks.refusals)
      decreases |content| - offset, 4
    {
      hide Spec.ParseMembers, Spec.SkipBlanks, OwnedEach, HoldsMembers, Chained, BackChained, BlocksOf, DistinctAll;
      hide NodesOf, InnerOf;
      head, current, kids, members := null, null, [], [];
      ghost var before := hooks.live;
      ghost var start := offset + 1;
      NoTrees();
      PrependMoreMembers([], [], Spec.ParseMembers(content, start, depth));
      var more := true;
      while more
        invariant Valid() && depth == old(depth) && old(offset) <= offset && (more ==> offset < |content|)
        invariant fresh(BlocksOf(kids)) && Reading(head, current, kids, before) && HoldsMembers(kids, members)
        invariant hooks.refusals == old(hooks.refusals) && (more || kids != [])
        invariant Spec.ParseMembers(content, start, depth) == PrependMembers(members, MembersLeft(more))
        decreases more, |content| - offset
      {
        ghost var done := members;
        KidsApart(head, current, kids, before);
        ok, head, current, kids, members := ParseMember(head, current, kids, members, before);
        if !ok {
          return;
        }
        PrependMoreMembers(done, members[|done|..], MembersLeft(At(COMMA)));
        assert members == done + members[|done|..];
        more := At(COMMA);
      }
      ok := At(RBRACE);
      PrependMoreMembers(members, [], Ok([], 0));
      MembersOwned(kids, members);
    }

    /** What the loop has still to read: the members behind the cursor, or nothing but the closing brace. */
    ghost function MembersLeft(more: bool): Parsed<seq<Member>>
      requires Valid() && (more ==> offset < |content|)
      reads this
    {
      if more then MembersFrom(content, offset, depth)
      else if At(RBRACE) then Ok([], offset + 1)
      else Fail(offset)
    }

    /** One turn of the loop of parse_object: a new node, and the key and value read into it. */
    method ParseMember(head: Node?, current: Node?, ghost kids: seq<Tree>, ghost members: seq<Member>,
                       ghost before: set<object>)
      returns (ok: bool, first: Node?, last: Node?, ghost kids': seq<Tree>, ghost members': seq<Member>)
      requires Valid() && offset < |content| && Reading(head, current, kids, before) && HoldsMembers(kids, members)
      modifies this`offset, this`depth, hooks, Opt(current)`next
      ensures Valid() && fresh(BlocksOf(kids') - BlocksOf(kids)) && Reading(first, last, kids', before)
      ensures ok ==>
        && hooks.refusals == old(hooks.refusals) && depth == old(depth) && offset > old(offset)
        && kids' != [] && HoldsMembers(kids', members') && members' != [] && members'[..|members'| - 1] == members
        && (At(COMMA) ==> offset < |content|)
        && MembersFrom(content, old(offset), depth)
           == PrependMembers(members'[|members'| - 1..], MembersLeft(At(COMMA)))
      ensures !ok ==> OwnedEach(kids')
      ensures !ok ==> hooks.Refused() || MembersFrom(content, old(offset), old(depth)) == Fail(offset)
      ensures hooks.refusals >= old(hooks.refusals)
      decreases |content| - offset, 3
    {
      hide HoldsMembers, HoldsMember, Chained, BackChained, BlocksOf, DistinctAll, OwnedEach, NodesOf, InnerOf, Inner;
      hide Holds, Distinct;
      hide Spec.ParseMembers, Spec.SkipBlanks;
      kids', members' := kids, members;
      KidsApart(head, current, kids, before);
      last, first := AddItem(head, current, kids, before);
      if last == null {
        MembersOwned(kids, members);
        return false, head, current, kids, members;
      }
      ghost var leaf := Tree(last, null, null, []);
      Extended(kids, leaf);
      LeafDistinct(leaf);
      KidsApart(first, last, kids + [leaf], before);
      ghost var t, m;
      ok, t, m := ReadMember(last);
      InnerParts(t);
      kids' := kids + [t];
      Extended(kids, t);
      Grown(first, kids, leaf, t, before);
      if ok {
        members' := members + [m];
        MembersExtended(kids, t, members, m);
      } else {
        MembersOwned(kids, members);
        OwnedExtended(kids, t);
      }
    }

    /** The key of a member: a string read into the item and then moved from `valuestring` to `string`. */
    method ReadKey(item: Node) returns (ok: bool)
      requires Valid() && offset + 1 < |content| && Bare(item) && item.name == null
      modifies this`offset, hooks, item`kind, item`valuestring, item`name
      ensures Valid() && Bare(item) && fresh(Block(item.name)) && hooks.live == old(hooks.live) + Block(item.name)
      ensures ok ==>
        var r := Spec.ParseKey(content, Spec.SkipBlanks(content, old(offset) + 1));
        && r.Ok? && r.offset == offset && offset > old(offset) && item.name != null && HoldsText(item.name, r.value)
        && hooks.refusals == old(hooks.refusals)
      ensures !ok ==>
        hooks.Refused() || Spec.ParseKey(content, Spec.SkipBlanks(content, old(offset) + 1)) == Fail(offset)
      ensures hooks.refusals >= old(hooks.refusals)
    {
      hide StringSpec.ParseString, Spec.SkipBlanks, CStr;
      offset := offset + 1;
      SkipWhitespace();
      ok := ParseString(item);
      if !ok {
        return;
      }
      SkipWhitespace();
      item.name := item.valuestring;
      item.valuestring := null;
      if !At(COLON) {
        return false;
      }
      offset := offset + 1;
      SkipWhitespace();
    }

    /** One member of an object is read into a new node; on failure the node keeps at most its key. */
    method ReadMember(item: Node) returns (ok: bool, ghost t: Tree, ghost m: Member)
      requires Valid() && offset < |content| && Bare(item) && item.name == null
      modifies this`offset, this`depth, hooks
      modifies item`kind, item`child, item`valuestring, item`valueint, item`valuedouble, item`name
      ensures Valid() && t.node == item && Distinct(t) && fresh(Inner(t)) && hooks.live == old(hooks.live) + Inner(t)
      ensures ok ==> HoldsMember(t, m) && hooks.refusals == old(hooks.refusals)
      ensures ok ==>
        && depth == old(depth) && offset > old(offset) && (At(COMMA) ==> offset < |content|)
        && MembersFrom(content, old(offset), depth) == PrependMembers([m], MembersLeft(At(COMMA)))
      ensures !ok ==> Owned(t)
      ensures !ok ==> hooks.Refused() || MembersFrom(content, old(offset), old(depth)) == Fail(offset)
      ensures hooks.refusals >= old(hooks.refusals)
      decreases |content| - offset, 2
    {
      hide Spec.ParseValue, Spec.ParseKey, Spec.SkipBlanks, Spec.BlankEnd, Holds, HoldsText, Distinct, Inner, Owned;
      hide Blocks;
      t := Tree(item, null, null, []);
      m := Member([], Null);
      KeyedLeaf(t);
      ok := false;
      if offset + 1 >= |content| {
        return;
      }
      ok := ReadKey(item);
      t := Tree(item, null, item.name, []);
      KeyedLeaf(t);
      if !ok {
        return;
      }
      ghost var start := offset;
      ghost var value;
      ok, value := ParseValue(item);
      if ok {
        var p := Spec.SkipBlanks(content, old(offset) + 1);
        m := Member(Spec.ParseKey(content, p).value, Spec.ParseValue(content, start, depth).value);
        InnerParts(value);
        t := value.(key := item.name);
        Keyed(value, t);
        SkipWhitespace();
        PrependMoreMembers([m], [], Ok([], 0));
      } else {
        KeyedLeaf(t);
      }
    }
  }

  /** cJSON_ParseWithLengthOpts. `position` is where the returned end pointer or the error position
      points. A tree that is returned owns exactly the blocks that have become live, and meets what
      cJSON_Delete requires; a failed parse leaves no block behind. */
  method ParseWithLengthOpts(content: bytes, terminated: bool, hooks: Hooks)
    returns (item: Node?, position: nat, ghost ts: seq<Tree>)
    modifies hooks
    ensures item != null ==>
      var r := Spec.ParseBuffer(content, terminated);
      && r.Ok? && position == r.offset && |ts| == 1 && HoldsItem(ts[0], r.value)
      && hooks.refusals == old(hooks.refusals)
    ensures item == null ==> ts == [] && (hooks.Refused() || Spec.ParseBuffer(content, terminated) == Fail(position))
    ensures item == null && content != [] ==> position < |content|
    ensures item == First(ts) && Chained(ts) && OwnedEach(ts) && DistinctAll(ts)
    ensures fresh(BlocksOf(ts)) && hooks.live == old(hooks.live) + BlocksOf(ts)
  {
    hide Holds, Inner, Blocks, BlocksOf, Distinct, DistinctAll, Owned, OwnedEach, Spec.ParseBuffer;
    item, position, ts := null, 0, [];
    NoTrees();
    if content == [] {
      EmptyBuffer(terminated);
      return;
    }
    var root := hooks.NewItem();
    if root == null {
      return;
    }
    var ok, at, t := ParseRoot(root, content, terminated, hooks);
    SingleTree(t);
    if ok {
      return root, at, [t];
    }
    Delete(root, hooks, [t]);
    position := if at < |content| then at else |content| - 1;
  }

  lemma EmptyBuffer(terminated: bool)
    ensures Spec.ParseBuffer([], terminated) == Fail(0)
  {
  }

  /** The part of cJSON_ParseWithLengthOpts that runs on the root node: `at` is where the cursor ends up. */
  method ParseRoot(root: Node, content: bytes, terminated: bool, hooks: Hooks)
    returns (ok: bool, at: nat, ghost t: Tree)
    requires content != [] && ParseBuffer.Bare(root) && root.name == null
    modifies hooks, root`kind, root`child, root`valuestring, root`valueint, root`valuedouble
    ensures ok ==> hooks.refusals == old(hooks.refusals) && t.key == null
    ensures ok ==> var r := Spec.ParseBuffer(content, terminated); r.Ok? && at == r.offset && HoldsItem(t, r.value)
    ensures !ok ==> hooks.Refused() || Spec.ParseBuffer(content, terminated) == Fail(Spec.ErrorPosition(content, at))
    ensures t.node == root && Owned(t) && Distinct(t) && fresh(Inner(t)) && hooks.live == old(hooks.live) + Inner(t)
    ensures hooks.refusals >= old(hooks.refusals)
  {
    hide Holds, Inner, Blocks, Distinct, Owned, Spec.ParseValue, Spec.SkipBlanks;
    var buffer := new ParseBuffer(content, hooks);
    var atStart := buffer.SkipUtf8Bom();
    assert atStart;
    buffer.SkipWhitespace();
    ok, t := buffer.ParseValue(root);
    if ok {
      InnerParts(t);
      if terminated {
        buffer.SkipWhitespace();
        ok := buffer.At(0);
      }
      ValueOwned(t, Spec.ParseValue(content, Spec.Start(content), 0).value);
    } else {
      t := Tree(root, null, null, []);
      KeyedLeaf(t);
    }
    at := buffer.offset;
  }

  /** The members from position `q` on, where a comma, or whatever stands before the first key, was found. */
  ghost function MembersFrom(c: bytes, q: nat, depth: nat): Parsed<seq<Member>>
    requires q < |c| && depth <= Spec.NESTING_LIMIT
  {
    if q + 1 == |c| then Fail(q) else Spec.ParseMembers(c, Spec.SkipBlanks(c, q + 1), depth)
  }

  function PrependMembers(members: seq<Member>, r: Parsed<seq<Member>>): Parsed<seq<Member>> {
    match r
    case Ok(ms, end) => Ok(members + ms, end)
    case Fail(at) => Fail(at)
  }

  lemma PrependMoreMembers(members: seq<Member>, more: seq<Member>, r: Parsed<seq<Member>>)
    ensures PrependMembers(members, PrependMembers(more, r)) == PrependMembers(members + more, r)
    ensures members + [] == members && [] + more == more && PrependMembers([], r) == r
  {
    if r.Ok? {
      assert members + (more + r.value) == members + more + r.value;
      assert [] + r.value == r.value;
    }
  }

  lemma KeyedLeaf(t: Tree)
    requires ParseBuffer.Bare(t.node) && t.text == null && t.kids == [] && t.node.name == t.key
    ensures Owned(t) && Distinct(t) && Inner(t) == Block(t.key)
  {
  }

  /** Giving a tree a key block of its own. */
  lemma Keyed(t: Tree, t': Tree)
    requires Distinct(t) && t.key == null && t' == t.(key := t'.key) && t'.key != null && t'.key !in Inner(t)
    ensures Distinct(t') && Inner(t') == Inner(t) + {t'.key}
    ensures forall v :: Holds(t, v) ==> Holds(t', v)
  {
  }

  lemma ObjectHeld(t: Tree, members: seq<Member>)
    requires Listed(t.kids) && HoldsMembers(t.kids, members) && t.text == null
    requires t.node.kind == KObject && !t.node.isReference && t.node.valuestring == null
    requires t.node.child == First(t.kids)
    ensures Holds(t, Object(members))
  {
  }

  lemma LeafTidy(t: Tree)
    requires !t.node.isReference && t.node.child == null && t.node.valuestring == t.text && t.kids == []
    requires t.node.kind != KInvalid && (t.text != null <==> t.node.kind == KString || t.node.kind == KRaw)
    ensures Tidy(t)
  {
  }

  lemma LeafOwned(t: Tree)
    requires ParseBuffer.Bare(t.node) && t.text == null && t.kids == [] && t.node.name == t.key
    ensures Owned(t)
  {
  }

  lemma ArrayHeld(t: Tree, items: seq<Value>)
    requires Listed(t.kids) && HoldsItems(t.kids, items) && t.text == null
    requires t.node.kind == KArray && !t.node.isReference && t.node.valuestring == null && t.node.child == First(t.kids)
    ensures Holds(t, Array(items))
  {
  }

  lemma ParentDistinct(t: Tree)
    requires t.text == null && t.key == null && t.node !in BlocksOf(t.kids) && DistinctAll(t.kids)
    ensures Distinct(t) && Inner(t) == BlocksOf(t.kids)
  {
  }

  lemma {:induction false} SameLinks(ts: seq<Tree>, t: Tree, t': Tree)
    requires t.node == t'.node && Chained(ts + [t]) && BackChained(ts + [t])
    ensures Chained(ts + [t']) && BackChained(ts + [t'])
  {
    var us, us' := ts + [t], ts + [t'];
    assert forall i {:trigger us'[i]} :: 0 <= i < |us'| ==> us'[i].node == us[i].node;
  }

  function PrependItems(items: seq<Value>, r: Parsed<seq<Value>>): Parsed<seq<Value>> {
    match r
    case Ok(vs, end) => Ok(items + vs, end)
    case Fail(at) => Fail(at)
  }

  lemma PrependMore(items: seq<Value>, more: seq<Value>, r: Parsed<seq<Value>>)
    ensures PrependItems(items, PrependItems(more, r)) == PrependItems(items + more, r)
    ensures items + [] == items && [] + more == more && PrependItems([], r) == r
  {
    if r.Ok? {
      assert items + (more + r.value) == items + more + r.value;
      assert [] + r.value == r.value;
    }
  }

  lemma LeafDistinct(t: Tree)
    requires t.kids == [] && t.key == null
    ensures Distinct(t) && Blocks(t) == {t.node} + Block(t.text) && BlocksOf(t.kids) == {}
    ensures DistinctAll([]) && Chained([]) && BackChained([]) && Listed([])
  {
  }

  lemma EscapesBounded(s: bytes)
    ensures Escapes(s, |s|) <= |s|
  {
    EscapesGrow(s, 0, |s|);
  }

  /** A block that spells a text and a terminator holds the text up to its first NUL. */
  lemma {:induction false} TextStored(block: array<byte>, out: bytes)
    requires Spelled(block, 0, out + [0])
    ensures HoldsText(block, CStr(out))
  {
    var t := CStr(out);
    var s := out + [0];
    assert forall i :: 0 <= i < |s| ==> block[..][i] == block[i] == s[i];
    assert block[..][..|t|] == t;
    if |t| < |out| {
      assert out[|t|] == 0;
    }
    assert block[..][|t|] == 0;
    CStrUnique(block[..], |t|);
  }
}

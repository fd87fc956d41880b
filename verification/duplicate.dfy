/** cJSON_Duplicate: deep copies. */
module Duplicate {
  import opened Bytes
  import opened Json
  import opened Nodes
  import opened TreeValue
  import opened Views

  const CIRCULAR_LIMIT: nat := 10000

  /** How many levels of children there are below an item. */
  ghost function Height(x: View): nat
    decreases x
  {
    if x.kids == [] then 0 else 1 + HeightOf(x.kids)
  }

  ghost function HeightOf(vs: seq<View>): nat
    decreases vs
  {
    if vs == [] then 0 else Max(Height(vs[0]), HeightOf(vs[1..]))
  }

  lemma {:induction false} HeightAt(vs: seq<View>, i: nat)
    requires i < |vs|
    ensures Height(vs[i]) <= HeightOf(vs)
    decreases vs
  {
    if i > 0 {
      HeightAt(vs[1..], i - 1);
    }
  }

  lemma {:induction false} HeightStep(vs: seq<View>, i: nat)
    requires i < |vs|
    ensures HeightOf(vs[i..]) == Max(Height(vs[i]), HeightOf(vs[i + 1..]))
  {
    assert vs[i..][0] == vs[i] && vs[i..][1..] == vs[i + 1..];
  }

  // ----- a tree that is a copy

  ghost predicate CopiedText(block: array?<byte>, s: Text)
    reads block
  {
    if s.Absent? then block == null else HoldsText(block, s.chars)
  }

  /** The fields of an item are those of `x`: it is no reference; its strings are its own, except for a constant
      name. */
  ghost predicate CopiedFields(n: Node, text: array?<byte>, key: array?<byte>, x: View)
    reads n`kind, n`isReference, n`stringIsConst, n`valueint, n`valuedouble, n`valuestring, n`name, text, key
  {
    && n.kind == x.kind && !n.isReference && n.stringIsConst == x.stringIsConst
    && n.valueint == x.i && n.valuedouble == x.d
    && n.valuestring == text && CopiedText(text, x.text)
    && if x.stringIsConst && x.name.Present? then key == null && n.name == x.name.block
       else n.name == key && CopiedText(key, x.name)
  }

  ghost predicate Copied(t: Tree, x: View)
    reads t.node`kind, t.node`isReference, t.node`stringIsConst, t.node`valueint, t.node`valuedouble
    reads t.node`valuestring, t.node`name, t.node`child, t.text, t.key, BlocksOf(t.kids)
    decreases t
  {
    && CopiedFields(t.node, t.text, t.key, x) && t.node.child == First(t.kids)
    && (NodesAndInner(t.kids); Listed(t.kids)) && CopiedAll(t.kids, x.kids)
  }

  ghost predicate CopiedAll(ts: seq<Tree>, vs: seq<View>)
    reads NodesOf(ts)`kind, NodesOf(ts)`isReference, NodesOf(ts)`stringIsConst
    reads NodesOf(ts)`valueint, NodesOf(ts)`valuedouble, NodesOf(ts)`valuestring
    reads NodesOf(ts)`name, NodesOf(ts)`child, InnerOf(ts)
    decreases ts
  {
    |ts| == |vs| &&
    (ts == [] ||
     (NodesSplit(ts);
      CopiedAll(ts[..|ts| - 1], vs[..|vs| - 1]) && Copied(ts[|ts| - 1], vs[|vs| - 1])))
  }

  lemma {:induction false} CopyOwned(t: Tree, x: View)
    requires Copied(t, x)
    ensures Owned(t)
    decreases t
  {
    hide CopiedAll, HoldsText, OwnedEach, Chained, BackChained;
    CopiesOwned(t.kids, x.kids);
  }

  lemma {:induction false} CopiesOwned(ts: seq<Tree>, vs: seq<View>)
    requires CopiedAll(ts, vs)
    ensures OwnedEach(ts)
    decreases ts
  {
    hide Copied, Owned;
    if ts != [] {
      CopiesOwned(ts[..|ts| - 1], vs[..|vs| - 1]);
      CopyOwned(ts[|ts| - 1], vs[|vs| - 1]);
    }
  }

  lemma {:induction false} CopiesExtended(ts: seq<Tree>, t: Tree, vs: seq<View>, x: View)
    requires CopiedAll(ts, vs) && Copied(t, x)
    ensures CopiedAll(ts + [t], vs + [x])
  {
    assert (ts + [t])[..|ts|] == ts && (vs + [x])[..|vs|] == vs;
  }

  // ----- copying one item

  /** cJSON_strdup: the string and its terminator in a block of exactly that size. */
  method Strdup(text: array?<byte>, hooks: Hooks, ghost s: Text) returns (copy: array?<byte>)
    requires ShowsText(text, s) && hooks !in TextBlock(s)
    modifies hooks
    ensures copy == null ==> (text == null || hooks.Refused()) && hooks.live == old(hooks.live)
    ensures copy != null ==>
      && fresh(copy) && CopiedText(copy, s) && s.Present? && copy.Length == |s.chars| + 1
      && hooks.live == old(hooks.live) + {copy} && hooks.refusals == old(hooks.refusals)
    ensures text == null ==> hooks.refusals == old(hooks.refusals)
  {
    if text == null {
      return null;
    }
    var length := |CStr(text[..])| + 1;
    copy := hooks.Allocate(length);
    if copy == null {
      return;
    }
    for i := 0 to length
      modifies copy
      invariant forall k {:trigger copy[k]} :: 0 <= k < i ==> copy[k] == text[k]
    {
      copy[i] := text[i];
    }
    CopyHolds(copy, text, s.chars);
  }

  lemma {:induction false} CopyHolds(copy: array<byte>, text: array<byte>, s: cstring)
    requires |s| < text.Length && CStr(text[..]) == s && copy.Length == |s| + 1
    requires forall k {:trigger copy[k]} :: 0 <= k < copy.Length ==> copy[k] == text[k]
    ensures HoldsText(copy, s)
  {
    var n := |s|;
    assert s <= text[..] && text[..][n] == 0;
    assert forall k {:trigger copy[k]} :: 0 <= k < n ==> copy[k] == text[..][k];
    assert copy[..][..n] == s;
    CStrUnique(copy[..], n);
  }

  /** Everything before the children: a new item with the fields of `item`, or nothing. */
  method CopyItem(item: Node, hooks: Hooks, ghost x: View)
    returns (newitem: Node?, ghost text: array?<byte>, ghost key: array?<byte>)
    requires item == x.node && Shows(x) && hooks !in Region(x)
    modifies hooks
    ensures newitem == null ==> hooks.Refused() && hooks.live == old(hooks.live)
    ensures newitem != null ==>
      && fresh(newitem) && newitem.next == null && newitem.prev == null && newitem.child == null
      && CopiedFields(newitem, text, key, x) && fresh(Block(text) + Block(key)) && (text != null ==> text != key)
      && hooks.live == old(hooks.live) + {newitem} + Block(text) + Block(key) && hooks.refusals == old(hooks.refusals)
  {
    hide Shows, ShowsList, ShowsText, HoldsText, CopiedText, TextBlock, Region, RegionOf;
    ItemShown(x);
    RegionAllocated(x);
    text, key := null, null;
    newitem := NewLike(item, hooks);
    if newitem == null {
      return;
    }
    ItemShown(x);
    var ok;
    ok, text, key := CopyTexts(newitem, item, hooks, x);
    if !ok {
      Discard(newitem, hooks, text, key);
      newitem := null;
    }
  }

  /** A new item with the kind and the numbers of `item`. */
  method NewLike(item: Node, hooks: Hooks) returns (newitem: Node?)
    modifies hooks
    ensures newitem == null ==> hooks.Refused() && hooks.live == old(hooks.live)
    ensures newitem != null ==>
      && fresh(newitem) && hooks.live == old(hooks.live) + {newitem} && hooks.refusals == old(hooks.refusals)
      && newitem.next == null && newitem.prev == null && newitem.child == null
      && newitem.valuestring == null && newitem.name == null
      && newitem.kind == item.kind && !newitem.isReference && newitem.stringIsConst == item.stringIsConst
      && newitem.valueint == item.valueint && newitem.valuedouble == item.valuedouble
  {
    newitem := hooks.NewItem();
    if newitem == null {
      return;
    }
    newitem.kind, newitem.isReference, newitem.stringIsConst := item.kind, false, item.stringIsConst;
    newitem.valueint, newitem.valuedouble := item.valueint, item.valuedouble;
  }

  lemma ItemShown(x: View)
    requires Shows(x)
    ensures var n := x.node;
      && n.kind == x.kind && n.stringIsConst == x.stringIsConst && n.valueint == x.i && n.valuedouble == x.d
      && ShowsText(n.valuestring, x.text) && ShowsText(n.name, x.name) && n.child == HeadNode(x.kids)
    ensures TextBlock(x.text) <= Region(x) && TextBlock(x.name) <= Region(x) && x.node in Region(x)
    ensures forall o {:trigger o in TextBlock(x.text)} :: o in TextBlock(x.text) ==> allocated(o)
    ensures forall o {:trigger o in TextBlock(x.name)} :: o in TextBlock(x.name) ==> allocated(o)
  {
  }

  /** The two strings; if one cannot be copied, the item holds what there is of them. */
  method CopyTexts(newitem: Node, item: Node, hooks: Hooks, ghost x: View)
    returns (ok: bool, ghost text: array?<byte>, ghost key: array?<byte>)
    requires ShowsText(item.valuestring, x.text) && ShowsText(item.name, x.name)
    requires item.stringIsConst == x.stringIsConst
    requires newitem != item && newitem.valuestring == null && newitem.name == null
    requires hooks !in TextBlock(x.text) + TextBlock(x.name)
    modifies hooks, newitem`valuestring, newitem`name
    ensures fresh(Block(text) + Block(key)) && (text != null ==> text != key)
    ensures hooks.live == old(hooks.live) + Block(text) + Block(key) && newitem.valuestring == text
    ensures ok ==>
      && hooks.refusals == old(hooks.refusals) && CopiedText(text, x.text)
      && if x.stringIsConst && x.name.Present? then key == null && newitem.name == x.name.block
         else newitem.name == key && CopiedText(key, x.name)
    ensures !ok ==> hooks.Refused() && key == null && newitem.name == null
  {
    hide HoldsText;
    text, key := null, null;
    if item.valuestring != null {
      newitem.valuestring := Strdup(item.valuestring, hooks, x.text);
      text := newitem.valuestring;
      if newitem.valuestring == null {
        return false, null, null;
      }
    }
    if item.name != null {
      if item.stringIsConst {
        newitem.name := item.name;
      } else {
        newitem.name := Strdup(item.name, hooks, x.name);
        key := newitem.name;
      }
      if newitem.name == null {
        return false, text, null;
      }
    }
    ok := true;
  }

  /** `fail` while the item has no children. */
  method Discard(newitem: Node, hooks: Hooks, ghost text: array?<byte>, ghost key: array?<byte>)
    requires newitem.next == null && newitem.child == null && !newitem.isReference
    requires newitem.valuestring == text && (if newitem.stringIsConst then key == null else newitem.name == key)
    requires (text != null ==> text != key) && {newitem} + Block(text) + Block(key) <= hooks.live
    modifies hooks, newitem, Block(text), Block(key)
    ensures hooks.live == old(hooks.live) - {newitem} - Block(text) - Block(key)
    ensures hooks.refusals == old(hooks.refusals)
  {
    ghost var t := Tree(newitem, text, key, []);
    NoTrees();
    SingleTree(t);
    Delete(newitem, hooks, [t]);
  }

  // ----- copying the children

  /** The children copied so far hang on the new item; only the head's `prev` is still missing. */
  ghost predicate Growing(newitem: Node, next: Node?, hooks: Hooks, kids: seq<Tree>, vs: seq<View>)
    reads newitem`child, hooks, NodesOf(kids), InnerOf(kids)
  {
    && |kids| == |vs| && newitem.child == First(kids) && next == Last(kids)
    && Chained(kids) && BackChained(kids) && CopiedAll(kids, vs) && DistinctAll(kids)
    && newitem !in BlocksOf(kids) && hooks !in BlocksOf(kids) && {newitem} + BlocksOf(kids) <= hooks.live
  }

  lemma NothingCopied(kids: seq<Tree>, vs: seq<View>)
    requires kids == [] && vs == []
    ensures CopiedAll(kids, vs)
  {
  }

  lemma EndsInside(kids: seq<Tree>)
    ensures Opt(First(kids)) <= NodesOf(kids) <= BlocksOf(kids) && Opt(Last(kids)) <= NodesOf(kids)
  {
    NodesAreBlocks(kids);
  }

  lemma NotAmong(kids: seq<Tree>, n: Node)
    requires n !in BlocksOf(kids)
    ensures forall i {:trigger kids[i]} :: 0 <= i < |kids| ==> kids[i].node != n
  {
    NodesAreBlocks(kids);
    assert forall i {:trigger kids[i]} :: 0 <= i < |kids| ==> kids[i].node in NodesOf(kids);
  }

  /** The copy of one child is linked behind the others. */
  method AddCopy(newitem: Node, next: Node?, newchild: Node, ghost hooks: Hooks,
                 ghost kids: seq<Tree>, ghost vs: seq<View>, ghost t: Tree, ghost v: View)
    requires Growing(newitem, next, hooks, kids, vs)
    requires newchild == t.node && newchild.next == null && Copied(t, v) && Distinct(t)
    requires Blocks(t) !! BlocksOf(kids) + {newitem} && Blocks(t) <= hooks.live && hooks !in Blocks(t)
    modifies newitem`child, Opt(next)`next, newchild`prev
    ensures Growing(newitem, newchild, hooks, kids + [t], vs + [v])
    ensures BlocksOf(kids + [t]) == BlocksOf(kids) + Blocks(t)
  {
    hide Copied, CopiedAll, Chained, BackChained, Distinct, DistinctAll, NodesOf, InnerOf, Blocks, BlocksOf, Inner;
    NodesAndInner(kids);
    EndsInside(kids);
    NodeOutside(t);
    InnerParts(t);
    NotAmong(kids, newchild);
    assert newitem !in NodesOf(kids) && newitem !in InnerOf(kids);
    if next != null {
      SuffixObject(next, newchild, kids, t);
    } else {
      newitem.child := newchild;
      OneLinked(t);
      NothingCopied(kids, vs);
    }
    CopiesExtended(kids, t, vs, v);
    Extended(kids, t);
  }

  /** The last step: the head's `prev` is the last copy. */
  method CloseList(newitem: Node, newchild: Node?, ghost hooks: Hooks, ghost kids: seq<Tree>, ghost vs: seq<View>)
    requires Growing(newitem, newchild, hooks, kids, vs)
    modifies Opt(newitem.child)`prev
    ensures Growing(newitem, newchild, hooks, kids, vs) && Listed(kids)
  {
    hide CopiedAll, Chained, DistinctAll, NodesOf, InnerOf, BlocksOf;
    NodesAndInner(kids);
    EndsInside(kids);
    NodesDistinct(kids);
    if newitem.child != null {
      newitem.child.prev := newchild;
    }
  }

  /** One turn of the loop: a child is copied, with everything below it, and linked. */
  method NextChild(newitem: Node, next: Node?, child: Node, depth: nat, hooks: Hooks,
                   ghost kids: seq<Tree>, ghost vs: seq<View>, ghost v: View)
    returns (newchild: Node?, ghost ts: seq<Tree>)
    requires depth <= CIRCULAR_LIMIT
    requires Growing(newitem, next, hooks, kids, vs) && child == v.node && Shows(v) && hooks !in Region(v)
    modifies hooks, newitem`child, Opt(next)`next
    ensures newchild == null ==>
      && Growing(newitem, next, hooks, kids, vs) && hooks.live == old(hooks.live)
      && (hooks.Refused() || depth + Height(v) > CIRCULAR_LIMIT)
    ensures newchild != null ==>
      && |ts| == 1 && Growing(newitem, newchild, hooks, kids + ts, vs + [v]) && fresh(Blocks(ts[0]))
      && BlocksOf(kids + ts) == BlocksOf(kids) + Blocks(ts[0]) && hooks.live == old(hooks.live) + Blocks(ts[0])
      && hooks.refusals == old(hooks.refusals) && depth + Height(v) <= CIRCULAR_LIMIT
    decreases v, 3
  {
    hide Copied, CopiedAll, Chained, BackChained, Distinct, DistinctAll, NodesOf, InnerOf, Blocks, BlocksOf, Inner;
    hide Shows, Region;
    NodesAndInner(kids);
    EndsInside(kids);
    newchild, ts := DuplicateRec(child, depth, true, hooks, v);
    NoHeight(v);
    if newchild != null {
      InnerParts(ts[0]);
      assert ts == [ts[0]];
      AddCopy(newitem, next, newchild, hooks, kids, vs, ts[0], v);
    }
  }

  /** The loop over the children. */
  method DuplicateChildren(newitem: Node, item: Node, depth: nat, hooks: Hooks, ghost x: View)
    returns (ok: bool, ghost kids: seq<Tree>)
    requires item == x.node && Shows(x) && hooks !in Region(x) && newitem !in Region(x)
    requires newitem.child == null && newitem in hooks.live
    modifies hooks, newitem`child
    ensures newitem.child == First(kids) && DistinctAll(kids) && OwnedEach(kids) && Chained(kids)
    ensures fresh(BlocksOf(kids)) && hooks.live == old(hooks.live) + BlocksOf(kids)
    ensures ok ==>
      && Listed(kids) && CopiedAll(kids, x.kids) && hooks.refusals == old(hooks.refusals)
      && (x.kids == [] || depth + Height(x) <= CIRCULAR_LIMIT)
    ensures !ok ==> hooks.Refused() || (x.kids != [] && depth + Height(x) > CIRCULAR_LIMIT)
    decreases x, 1
  {
    hide Copied, CopiedAll, Chained, BackChained, Distinct, DistinctAll, NodesOf, InnerOf, Blocks, BlocksOf, Inner;
    hide Region, OwnedEach, ShowsList, HeightOf, ShowsText, Growing;
    RegionAllocated(x);
    NoTrees();
    kids := [];
    NothingCopied([], []);
    StartsGrowing(newitem, hooks);
    var child, next := item.child, null;
    ghost var i := 0;
    assert x.kids[..0] == [] && x.kids[0..] == x.kids;
    while child != null
      invariant 0 <= i <= |x.kids| && child == HeadNode(x.kids[i..]) && Shows(x)
      invariant Growing(newitem, next, hooks, kids, x.kids[..i]) && fresh(BlocksOf(kids))
      invariant hooks.live == old(hooks.live) + BlocksOf(kids) && hooks.refusals == old(hooks.refusals)
      invariant i > 0 ==> depth < CIRCULAR_LIMIT
      invariant depth + 1 + HeightOf(x.kids) > CIRCULAR_LIMIT ==> depth + 1 + HeightOf(x.kids[i..]) > CIRCULAR_LIMIT
      decreases |x.kids| - i
    {
      ShowsAt(x.kids, i);
      RegionKid(x, i);
      HeightAt(x.kids, i);
      HeightStep(x.kids, i);
      EndsInside(kids);
      GrowingParts(newitem, next, hooks, kids, x.kids[..i]);
      if depth >= CIRCULAR_LIMIT {
        return false, kids;
      }
      ghost var ts;
      var newchild;
      newchild, ts := NextChild(newitem, next, child, depth + 1, hooks, kids, x.kids[..i], x.kids[i]);
      if newchild == null {
        GrowingParts(newitem, next, hooks, kids, x.kids[..i]);
        return false, kids;
      }
      kids := kids + ts;
      assert x.kids[..i] + [x.kids[i]] == x.kids[..i + 1];
      assert Shows(x);
      ShowsAt(x.kids, i);
      next := newchild;
      child := child.next;
      i := i + 1;
    }
    assert x.kids[..i] == x.kids && x.kids[i..] == [];
    NoHeight(x);
    GrowingParts(newitem, next, hooks, kids, x.kids);
    EndsInside(kids);
    CloseList(newitem, next, hooks, kids, x.kids);
    GrowingParts(newitem, next, hooks, kids, x.kids);
    ok := true;
  }

  lemma StartsGrowing(newitem: Node, hooks: Hooks)
    requires newitem.child == null && newitem in hooks.live
    ensures Growing(newitem, null, hooks, [], [])
  {
    NoTrees();
    NothingCopied([], []);
  }

  lemma GrowingParts(newitem: Node, next: Node?, hooks: Hooks, kids: seq<Tree>, vs: seq<View>)
    requires Growing(newitem, next, hooks, kids, vs)
    ensures newitem.child == First(kids) && next == Last(kids) && Chained(kids) && DistinctAll(kids) && OwnedEach(kids)
    ensures CopiedAll(kids, vs) && newitem !in BlocksOf(kids) && hooks !in BlocksOf(kids)
  {
    hide CopiedAll, Chained, DistinctAll, OwnedEach, BackChained;
    CopiesOwned(kids, vs);
  }

  lemma NoHeight(x: View)
    ensures HeightOf([]) == 0 && (x.kids == [] ==> Height(x) == 0)
    ensures (x.kids != [] ==> Height(x) == 1 + HeightOf(x.kids))
  {
  }

  lemma RegionKid(x: View, i: nat)
    requires i < |x.kids|
    ensures Region(x.kids[i]) <= Region(x) && x.kids[i].node in Region(x)
  {
    RegionAt(x.kids, i);
  }

  /** cJSON_Duplicate_rec. Either a copy made of new blocks only, or no block is left behind; the latter
      only if an allocation is refused or the tree is too high. */
  method DuplicateRec(item: Node?, depth: nat, recurse: bool, hooks: Hooks, ghost x: View)
    returns (copy: Node?, ghost ts: seq<Tree>)
    requires item != null ==> item == x.node && Shows(x) && hooks !in Region(x)
    modifies hooks
    ensures copy == null ==>
      && ts == [] && hooks.live == old(hooks.live)
      && (item == null || hooks.Refused() || (recurse && x.kids != [] && depth + Height(x) > CIRCULAR_LIMIT))
    ensures copy != null ==>
      && item != null && |ts| == 1 && copy == ts[0].node && Copied(ts[0], if recurse then x else x.(kids := []))
      && Owned(ts[0]) && Distinct(ts[0]) && copy.next == null && fresh(Blocks(ts[0]))
      && hooks.live == old(hooks.live) + Blocks(ts[0]) && hooks.refusals == old(hooks.refusals)
      && (recurse && x.kids != [] ==> depth + Height(x) <= CIRCULAR_LIMIT)
    decreases x, 2
  {
    hide CopiedText, Chained, BackChained, Distinct, DistinctAll, NodesOf, InnerOf, Inner, Blocks, BlocksOf, Region;
    hide OwnedEach, Shows, Height, Copied, CopiedAll, Owned;
    ts := [];
    if item == null {
      return null, [];
    }
    RegionAllocated(x);
    ghost var text, key;
    copy, text, key := CopyItem(item, hooks, x);
    if copy == null {
      return;
    }
    ghost var leaf := Tree(copy, text, key, []);
    LeafCopied(leaf, x);
    if !recurse {
      CopyOwned(leaf, x.(kids := []));
      return copy, [leaf];
    }
    var ok;
    ghost var kids;
    ok, kids := DuplicateChildren(copy, item, depth, hooks, x);
    ghost var t := Tree(copy, text, key, kids);
    ParentOfCopies(t, x);
    if ok {
      CopyOwned(t, x);
      return copy, [t];
    }
    SingleTree(t);
    Delete(copy, hooks, [t]);
    copy := null;
  }

  lemma LeafCopied(t: Tree, x: View)
    requires CopiedFields(t.node, t.text, t.key, x) && t.node.child == null && t.kids == []
    requires t.text != null ==> t.text != t.key
    ensures Copied(t, x.(kids := [])) && Distinct(t) && Blocks(t) == {t.node} + Block(t.text) + Block(t.key)
  {
    NoTrees();
  }

  lemma ParentOfCopies(t: Tree, x: View)
    requires CopiedFields(t.node, t.text, t.key, x) && t.node.child == First(t.kids)
    requires DistinctAll(t.kids) && OwnedEach(t.kids) && Chained(t.kids)
    requires (t.text != null ==> t.text != t.key) && ({t.node} + Block(t.text) + Block(t.key)) !! BlocksOf(t.kids)
    ensures Distinct(t) && Owned(t) && Blocks(t) == {t.node} + Block(t.text) + Block(t.key) + BlocksOf(t.kids)
    ensures Listed(t.kids) && CopiedAll(t.kids, x.kids) ==> Copied(t, x)
  {
    hide DistinctAll, OwnedEach, Chained, BackChained;
  }
}

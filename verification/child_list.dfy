/** The list operations on the children of an array or object. */
module ChildList {
  import opened Bytes
  import opened Json
  import opened Nodes
  import opened TreeValue

  /** `kids` are the children of `parent`, in order, and no node occurs twice among them. */
  ghost predicate Children(parent: Node, kids: seq<Tree>)
    reads parent`child, NodesOf(kids)`next, NodesOf(kids)`prev
  {
    && parent.child == First(kids) && Listed(kids)
    && forall i, j :: 0 <= i < j < |kids| ==> kids[i].node != kids[j].node
  }

  /** `t` is not in the list yet. */
  ghost predicate Outside(t: Tree, kids: seq<Tree>) {
    forall i {:trigger kids[i]} :: 0 <= i < |kids| ==> kids[i].node != t.node
  }

  ghost function Without(kids: seq<Tree>, k: nat): seq<Tree>
    requires k < |kids|
  {
    kids[..k] + kids[k + 1..]
  }

  ghost function With(kids: seq<Tree>, k: nat, t: Tree): seq<Tree>
    requires k <= |kids|
  {
    kids[..k] + [t] + kids[k..]
  }

  /** add_item_to_array: the item becomes the last child. Only an empty list clears the item's `next`. */
  method AddItemToArray(parent: Node?, item: Node?, ghost kids: seq<Tree>, ghost t: Tree) returns (ok: bool)
    requires parent != null ==> Children(parent, kids)
    requires item != null ==> item == t.node && Outside(t, kids) && (kids != [] ==> item.next == null)
    modifies Opt(parent)`child, Opt(item)`next, Opt(item)`prev, NodesOf(kids)`next, NodesOf(kids)`prev
    ensures ok <==> parent != null && item != null && parent != item
    ensures parent != null ==> Children(parent, if ok then kids + [t] else kids)
  {
    if item == null || parent == null || parent == item {
      return false;
    }
    var child := parent.child;
    if child == null {
      parent.child := item;
      item.prev := item;
      item.next := null;
    } else if child.prev != null {
      EndsInside(kids);
      SuffixObject(child.prev, item, kids, t);
      parent.child.prev := item;
    }
    ok := true;
  }

  lemma EndsInside(kids: seq<Tree>)
    ensures Opt(First(kids)) <= NodesOf(kids) && Opt(Last(kids)) <= NodesOf(kids)
    ensures forall i {:trigger kids[i]} :: 0 <= i < |kids| ==> kids[i].node in NodesOf(kids)
  {
  }

  /** get_array_item */
  method GetArrayItem(parent: Node?, index: nat, ghost kids: seq<Tree>) returns (item: Node?)
    requires parent != null ==> Children(parent, kids)
    ensures item == if parent != null && index < |kids| then kids[index].node else null
  {
    if parent == null {
      return null;
    }
    item := parent.child;
    var left := index;
    ghost var i := 0;
    while item != null && left > 0
      invariant 0 <= i <= |kids| && i + left == index
      invariant item == if i < |kids| then kids[i].node else null
    {
      assert i + 1 < |kids| ==> kids[i].node.next == kids[i + 1].node;
      left := left - 1;
      item := item.next;
      i := i + 1;
    }
  }

  /** Where the pointers of the `k`-th child lead. */
  lemma Links(kids: seq<Tree>, k: nat)
    requires Listed(kids) && k < |kids|
    ensures kids[k].node.next == if k + 1 < |kids| then kids[k + 1].node else null
    ensures kids[k].node.prev == if k > 0 then kids[k - 1].node else kids[|kids| - 1].node
    ensures Last(kids) == kids[|kids| - 1].node && First(kids) == kids[0].node
    ensures forall i {:trigger kids[i]} :: 0 <= i < |kids| ==> kids[i].node in NodesOf(kids)
  {
  }

  /** Pointwise form of Listed. */
  lemma FromLinks(kids: seq<Tree>)
    requires forall i {:trigger kids[i].node.next} :: 0 <= i < |kids| ==>
      kids[i].node.next == if i == |kids| - 1 then null else kids[i + 1].node
    requires forall i {:trigger kids[i].node.prev} :: 0 <= i < |kids| ==>
      kids[i].node.prev == if i == 0 then kids[|kids| - 1].node else kids[i - 1].node
    ensures Listed(kids)
  {
  }

  lemma ToLinks(kids: seq<Tree>)
    requires Listed(kids)
    ensures forall i {:trigger kids[i].node.next} :: 0 <= i < |kids| ==>
      kids[i].node.next == if i == |kids| - 1 then null else kids[i + 1].node
    ensures forall i {:trigger kids[i].node.prev} :: 0 <= i < |kids| ==>
      kids[i].node.prev == if i == 0 then kids[|kids| - 1].node else kids[i - 1].node
  {
    forall i | 0 <= i < |kids|
      ensures kids[i].node.next == if i == |kids| - 1 then null else kids[i + 1].node
      ensures kids[i].node.prev == if i == 0 then kids[|kids| - 1].node else kids[i - 1].node
    {
      Links(kids, i);
    }
  }

  /** cJSON_DetachItemViaPointer on the `k`-th child: the others stay, and the item points nowhere any more. */
  method DetachItemViaPointer(parent: Node?, item: Node?, ghost kids: seq<Tree>, ghost k: nat) returns (detached: Node?)
    requires parent != null && item != null ==> Children(parent, kids) && k < |kids| && item == kids[k].node
    modifies Opt(parent)`child, NodesOf(kids)`next, NodesOf(kids)`prev
    ensures parent == null || item == null ==>
      detached == null && (parent != null ==> parent.child == old(parent.child))
    ensures parent == null || item == null ==> unchanged(NodesOf(kids))
    ensures parent != null && item != null ==>
      detached == item && item.next == null && item.prev == null && Children(parent, Without(kids, k))
  {
    hide NodesOf, Listed;
    if parent == null || item == null {
      return null;
    }
    Links(kids, k);
    Links(kids, 0);
    ToLinks(kids);
    ghost var rest := Without(kids, k);
    if item != parent.child && item.prev == null {
      return null;
    }
    if item != parent.child {
      item.prev.next := item.next;
    }
    if item.next != null {
      item.next.prev := item.prev;
    }
    if item == parent.child {
      parent.child := item.next;
    } else if item.next == null {
      parent.child.prev := item.prev;
    }
    item.prev := null;
    item.next := null;
    assert forall i {:trigger rest[i]} :: 0 <= i < |rest| ==> rest[i] == kids[if i < k then i else i + 1];
    FromLinks(rest);
    detached := item;
  }

  /** cJSON_DetachItemFromArray: takes out the child at position `which`, if there is one. */
  method DetachItemFromArray(parent: Node?, which: int32, ghost kids: seq<Tree>) returns (detached: Node?)
    requires parent != null ==> Children(parent, kids)
    modifies Opt(parent)`child, NodesOf(kids)`next, NodesOf(kids)`prev
    ensures detached == if parent != null && 0 <= which < |kids| then kids[which].node else null
    ensures parent != null ==> Children(parent, if 0 <= which < |kids| then Without(kids, which) else kids)
    ensures detached != null ==> detached.next == null && detached.prev == null
  {
    if which < 0 {
      return null;
    }
    var item := GetArrayItem(parent, which, kids);
    detached := DetachItemViaPointer(parent, item, kids, which);
  }

  /** cJSON_InsertItemInArray: the item takes position `which`, or the end if the list is shorter. */
  method InsertItemInArray(parent: Node?, which: int32, newitem: Node?, ghost kids: seq<Tree>, ghost t: Tree)
    returns (ok: bool)
    requires parent != null ==> Children(parent, kids)
    requires newitem != null ==> newitem == t.node && Outside(t, kids) && newitem.next == null
    modifies Opt(parent)`child, Opt(newitem)`next, Opt(newitem)`prev, NodesOf(kids)`next, NodesOf(kids)`prev
    ensures ok <==> which >= 0 && newitem != null && parent != null && (parent != newitem || which < |kids|)
    ensures parent != null ==>
      Children(parent, if !ok then kids else With(kids, if which < |kids| then which else |kids|, t))
  {
    hide NodesOf;
    if which < 0 || newitem == null {
      return false;
    }
    var after := GetArrayItem(parent, which, kids);
    if after == null {
      ok := AddItemToArray(parent, newitem, kids, t);
      assert kids + [t] == With(kids, |kids|, t);
      return;
    }
    Links(kids, which);
    if after != parent.child && after.prev == null {
      return false;
    }
    InsertBefore(parent, which, newitem, after, kids, t);
    ok := true;
  }

  /** The pointer updates of cJSON_InsertItemInArray. */
  method InsertBefore(parent: Node, k: nat, newitem: Node, after: Node, ghost kids: seq<Tree>, ghost t: Tree)
    requires Children(parent, kids) && k < |kids| && after == kids[k].node && newitem == t.node && Outside(t, kids)
    modifies parent`child, newitem`next, newitem`prev, NodesOf(kids)`next, NodesOf(kids)`prev
    ensures Children(parent, With(kids, k, t))
  {
    hide NodesOf, Listed;
    Links(kids, k);
    Links(kids, 0);
    ToLinks(kids);
    ghost var more := With(kids, k, t);
    newitem.next := after;
    newitem.prev := after.prev;
    after.prev := newitem;
    if after == parent.child {
      parent.child := newitem;
    } else {
      newitem.prev.next := newitem;
    }
    assert forall i {:trigger more[i]} :: 0 <= i < |more| ==>
      more[i] == if i < k then kids[i] else if i == k then t else kids[i - 1];
    FromLinks(more);
  }

  /** cJSON_ReplaceItemViaPointer on the `k`-th child: the replacement takes its place, and the item is
      freed with everything it owns. Replacing an item by itself changes nothing. */
  method ReplaceItemViaPointer(parent: Node?, item: Node?, replacement: Node?, hooks: Hooks,
                               ghost kids: seq<Tree>, ghost k: nat, ghost t: Tree) returns (ok: bool)
    requires parent != null ==> Children(parent, kids)
    requires parent != null && kids != [] && item != null ==> k < |kids| && item == kids[k].node
    requires parent != null && item != null && replacement != null && k < |kids| ==>
      Replaceable(parent, item, replacement, hooks, kids, k, t)
    modifies hooks, Opt(parent)`child, Opt(replacement)`next, Opt(replacement)`prev
    modifies NodesOf(kids)`next, NodesOf(kids)`prev, if k < |kids| then Blocks(kids[k]) else {}
    ensures ok <==> parent != null && kids != [] && replacement != null && item != null
    ensures ok && replacement != item ==>
      Children(parent, kids[k := t]) && hooks.live == old(hooks.live) - Blocks(kids[k])
    ensures !ok || replacement == item ==>
      (parent != null ==> Children(parent, kids)) && hooks.live == old(hooks.live)
    ensures hooks.refusals == old(hooks.refusals)
  {
    hide Listed, Owned, Distinct, Inner, Blocks, BlocksOf;
    if parent == null || parent.child == null || replacement == null || item == null {
      return false;
    }
    if replacement == item {
      return true;
    }
    ReplaceChild(parent, item, replacement, hooks, kids, k, t);
    ok := true;
  }

  /** The item is owned by the list and can be freed; the replacement is it or stands outside the list. */
  ghost predicate Replaceable(parent: Node, item: Node, replacement: Node, hooks: Hooks,
                              kids: seq<Tree>, k: nat, t: Tree)
    requires k < |kids|
    reads hooks, kids[k].node, BlocksOf(kids[k].kids)
  {
    && replacement == t.node && (replacement == item || Outside(t, kids)) && replacement !in Inner(kids[k])
    && Owned(kids[k]) && Distinct(kids[k]) && Blocks(kids[k]) <= hooks.live
    && hooks !in Blocks(kids[k]) && parent !in Blocks(kids[k])
    && forall i {:trigger kids[i]} :: 0 <= i < |kids| && i != k ==> kids[i].node !in Blocks(kids[k])
  }

  /** The part of cJSON_ReplaceItemViaPointer behind its checks. */
  method ReplaceChild(parent: Node, item: Node, replacement: Node, hooks: Hooks,
                      ghost kids: seq<Tree>, ghost k: nat, ghost t: Tree)
    requires Children(parent, kids) && k < |kids| && item == kids[k].node && replacement != item
    requires Replaceable(parent, item, replacement, hooks, kids, k, t)
    modifies hooks, parent`child, replacement`next, replacement`prev
    modifies NodesOf(kids)`next, NodesOf(kids)`prev, Blocks(kids[k])
    ensures Children(parent, kids[k := t]) && hooks.live == old(hooks.live) - Blocks(kids[k])
    ensures hooks.refusals == old(hooks.refusals)
  {
    hide Listed, Owned, Distinct, Inner, Blocks, BlocksOf;
    Links(kids, 0);
    ghost var gone := kids[k];
    InnerParts(gone);
    NodeOutside(gone);
    SiblingsOutside(kids, k, t);
    Relink(parent, item, replacement, kids, k, t);
    item.next := null;
    item.prev := null;
    SingleTree(gone);
    Delete(item, hooks, [gone]);
  }

  lemma SiblingsOutside(kids: seq<Tree>, k: nat, t: Tree)
    requires k < |kids| && kids[k].node !in Inner(kids[k]) && t.node !in Inner(kids[k]) && t.node != kids[k].node
    requires forall i {:trigger kids[i]} :: 0 <= i < |kids| && i != k ==> kids[i].node !in Blocks(kids[k])
    ensures NodesOf(kids[k := t]) !! Blocks(kids[k]) && NodesOf(kids) !! Inner(kids[k])
    ensures Opt(kids[k].node) <= NodesOf(kids)
  {
    hide Inner;
    var more := kids[k := t];
    forall n | n in NodesOf(more) ensures n !in Blocks(kids[k]) {
      var i :| 0 <= i < |more| && more[i].node == n;
      assert i != k ==> more[i] == kids[i];
    }
  }

  /** The pointer updates of cJSON_ReplaceItemViaPointer. */
  method Relink(parent: Node, item: Node, replacement: Node, ghost kids: seq<Tree>, ghost k: nat, ghost t: Tree)
    requires Children(parent, kids) && k < |kids| && item == kids[k].node && replacement == t.node && Outside(t, kids)
    modifies parent`child, replacement`next, replacement`prev, NodesOf(kids)`next, NodesOf(kids)`prev
    ensures Children(parent, kids[k := t])
  {
    hide NodesOf, Listed;
    Links(kids, k);
    Links(kids, 0);
    ToLinks(kids);
    ghost var more := kids[k := t];
    replacement.next := item.next;
    replacement.prev := item.prev;
    if replacement.next != null {
      replacement.next.prev := replacement;
    }
    if parent.child == item {
      if parent.child.prev == parent.child {
        replacement.prev := replacement;
      }
      parent.child := replacement;
    } else {
      if replacement.prev != null {
        replacement.prev.next := replacement;
      }
      if replacement.next == null {
        parent.child.prev := replacement;
      }
    }
    assert forall i {:trigger more[i]} :: 0 <= i < |more| ==> more[i] == if i == k then t else kids[i];
    FromLinks(more);
  }
}

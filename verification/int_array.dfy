/** Building a whole array in one go: cJSON_CreateIntArray. */
module IntArray {
  import opened Bytes
  import opened Json
  import opened Nodes
  import opened TreeValue
  import opened NumberSpec

  ghost function Leaf(n: Node): Tree {
    Tree(n, null, null, [])
  }

  /** The elements for the first `n` numbers. */
  ghost function Numbers(numbers: seq<int32>): seq<Value> {
    seq(|numbers|, i requires 0 <= i < |numbers| => Number(numbers[i] as real, numbers[i]))
  }

  /** cJSON_CreateNumber */
  method CreateNumber(num: real, hooks: Hooks) returns (item: Node?)
    modifies hooks
    ensures item == null ==> hooks.Refused() && hooks.live == old(hooks.live)
    ensures item != null ==>
      && fresh(item) && hooks.live == old(hooks.live) + {item} && hooks.refusals == old(hooks.refusals)
      && item.next == null && HoldsItem(Leaf(item), Number(num, Saturate(num)))
  {
    item := hooks.NewItem();
    if item != null {
      item.kind := KNumber;
      item.valuedouble := num;
      if num >= INT_MAX as real {
        item.valueint := INT_MAX;
      } else if num <= INT_MIN as real {
        item.valueint := INT_MIN;
      } else {
        item.valueint := if num >= 0.0 then num.Floor else -((-num).Floor);
      }
    }
  }

  lemma ExactInt(i: int32)
    ensures Saturate(i as real) == i
  {
    var n: int := i;
    assert (n as real).Floor == n && ((-n) as real).Floor == -n && -(n as real) == (-n) as real;
  }

  /** The array under construction: its children so far hold `vs`, and only the head's `prev` is still missing. */
  ghost predicate Building(a: Node, p: Node?, hooks: Hooks, kids: seq<Tree>, vs: seq<Value>)
    reads a, hooks, NodesOf(kids), InnerOf(kids)
  {
    && |kids| == |vs| && a.kind == KArray && a.child == First(kids) && p == Last(kids)
    && a.next == null && a.valuestring == null && a.name == null && !a.isReference && !a.stringIsConst
    && Chained(kids) && BackChained(kids) && HoldsItems(kids, vs) && DistinctAll(kids) && a !in BlocksOf(kids)
    && {a} + BlocksOf(kids) <= hooks.live && hooks !in BlocksOf(kids)
  }

  /** Frees the array and what has been built of it. */
  method Abandon(a: Node, p: Node?, hooks: Hooks, ghost kids: seq<Tree>, ghost vs: seq<Value>)
    requires Building(a, p, hooks, kids, vs)
    modifies hooks, a, BlocksOf(kids)
    ensures hooks.live == old(hooks.live) - {a} - BlocksOf(kids) && hooks.refusals == old(hooks.refusals)
  {
    hide HoldsItems, Chained, BackChained, DistinctAll, OwnedEach;
    ghost var t := Tree(a, null, null, kids);
    ItemsOwned(kids, vs);
    WholeTree(a, kids);
    SingleTree(t);
    Delete(a, hooks, [t]);
  }

  lemma {:induction false} WholeTree(a: Node, kids: seq<Tree>)
    requires a !in BlocksOf(kids) && DistinctAll(kids)
    ensures Distinct(Tree(a, null, null, kids)) && Inner(Tree(a, null, null, kids)) == BlocksOf(kids)
    ensures Blocks(Tree(a, null, null, kids)) == {a} + BlocksOf(kids)
  {
  }

  /** One turn of the loop: the number becomes the last child. */
  method AddNumber(a: Node, p: Node?, n: Node, first: bool, ghost hooks: Hooks,
                   ghost kids: seq<Tree>, ghost vs: seq<Value>, ghost v: Value)
    requires Building(a, p, hooks, kids, vs) && (first <==> kids == [])
    requires n.next == null && HoldsItem(Leaf(n), v) && n !in BlocksOf(kids) && n != a && n in hooks.live
    modifies a`child, Opt(p)`next, n`prev
    ensures Building(a, n, hooks, kids + [Leaf(n)], vs + [v])
    ensures BlocksOf(kids + [Leaf(n)]) == BlocksOf(kids) + {n}
  {
    hide HoldsItems, HoldsItem, Chained, BackChained, Distinct, DistinctAll, NodesOf, InnerOf, Inner, Blocks, BlocksOf;
    NodesAndInner(kids);
    LastInside(kids, n);
    LeafAlone(n);
    Extended(kids, Leaf(n));
    ItemsExtended(kids, Leaf(n), vs, v);
    Grown(kids, n);
    if first {
      a.child := n;
      OneLinked(Leaf(n));
    } else {
      SuffixObject(p, n, kids, Leaf(n));
    }
  }

  /** The nodes of a list that has grown by one, and what they own. */
  lemma {:induction false} Grown(kids: seq<Tree>, n: Node)
    requires DistinctAll(kids) && n !in BlocksOf(kids)
    ensures NodesOf(kids + [Leaf(n)]) == NodesOf(kids) + {n} && InnerOf(kids + [Leaf(n)]) == InnerOf(kids)
    ensures NodesOf(kids) !! InnerOf(kids) && n !in InnerOf(kids)
  {
    var ts := kids + [Leaf(n)];
    assert ts[..|kids|] == kids && ts[|kids|] == Leaf(n);
    NodesSplit(ts);
    NodesAndInner(kids);
    NoTrees();
    assert Inner(Leaf(n)) == {};
  }

  lemma LeafAlone(n: Node)
    ensures Distinct(Leaf(n)) && Blocks(Leaf(n)) == {n} && BlocksOf(Leaf(n).kids) == {}
  {
    NoTrees();
  }

  lemma LastInside(kids: seq<Tree>, n: Node)
    requires n !in BlocksOf(kids)
    ensures Opt(First(kids)) <= NodesOf(kids) <= BlocksOf(kids) && Opt(Last(kids)) <= NodesOf(kids)
    ensures forall i {:trigger kids[i]} :: 0 <= i < |kids| ==> kids[i].node != n
  {
    NodesAreBlocks(kids);
    assert forall i {:trigger kids[i]} :: 0 <= i < |kids| ==> kids[i].node in NodesOf(kids);
  }

  /** Creating and linking one number. */
  method NextNumber(a: Node, p: Node?, number: int32, first: bool, hooks: Hooks,
                    ghost kids: seq<Tree>, ghost vs: seq<Value>)
    returns (n: Node?)
    requires Building(a, p, hooks, kids, vs) && (first <==> kids == [])
    modifies hooks, a`child, Opt(p)`next
    ensures n == null ==> Building(a, p, hooks, kids, vs) && hooks.Refused() && hooks.live == old(hooks.live)
    ensures n != null ==>
      && fresh(n) && hooks.refusals == old(hooks.refusals) && hooks.live == old(hooks.live) + {n}
      && Building(a, n, hooks, kids + [Leaf(n)], vs + [Number(number as real, number)])
      && BlocksOf(kids + [Leaf(n)]) == BlocksOf(kids) + {n}
  {
    hide HoldsItems, HoldsItem, Chained, BackChained, DistinctAll, BlocksOf, NodesOf, InnerOf;
    NodesAndInner(kids);
    LastInside(kids, a);
    ExactInt(number);
    n := CreateNumber(number as real, hooks);
    if n != null {
      AddNumber(a, p, n, first, hooks, kids, vs, Number(number as real, number));
    }
  }

  /** The last step: the head's `prev` is the last node. */
  method CloseList(a: Node, n: Node?, ghost hooks: Hooks, ghost kids: seq<Tree>, ghost vs: seq<Value>)
    requires Building(a, n, hooks, kids, vs)
    modifies Opt(a.child)`prev
    ensures Building(a, n, hooks, kids, vs) && (kids != [] ==> kids[0].node.prev == Last(kids))
  {
    hide HoldsItems, Chained, DistinctAll, NodesOf, InnerOf, BlocksOf;
    NodesAndInner(kids);
    LastInside(kids, a);
    NodesDistinct(kids);
    if a.child != null {
      a.child.prev := n;
    }
  }

  lemma ArrayBuilt(t: Tree, hooks: Hooks, vs: seq<Value>)
    requires Building(t.node, Last(t.kids), hooks, t.kids, vs) && t.text == null && t.key == null
    requires t.kids != [] ==> t.kids[0].node.prev == Last(t.kids)
    ensures Holds(t, Array(vs)) && Owned(t)
  {
    ValueOwned(t, Array(vs));
  }

  /** cJSON_CreateIntArray: an array of exactly these numbers, or nothing at all. */
  method CreateIntArray(numbers: array?<int32>, count: int32, hooks: Hooks) returns (a: Node?, ghost ts: seq<Tree>)
    requires numbers != null ==> count <= numbers.Length
    modifies hooks
    ensures a == null ==> ts == [] && (hooks.Refused() || count < 0 || numbers == null)
    ensures a != null ==>
      && numbers != null && 0 <= count && hooks.refusals == old(hooks.refusals)
      && |ts| == 1 && ts[0].node == a && ts[0].key == null && Holds(ts[0], Array(Numbers(numbers[..count])))
    ensures a == First(ts) && Chained(ts) && OwnedEach(ts) && DistinctAll(ts)
    ensures fresh(BlocksOf(ts)) && hooks.live == old(hooks.live) + BlocksOf(ts)
  {
    hide HoldsItems, HoldsItem, Holds, Chained, BackChained, Distinct, DistinctAll, Blocks, BlocksOf, NodesOf;
    hide InnerOf, OwnedEach, Owned, Numbers;
    NoTrees();
    a, ts := null, [];
    if count < 0 || numbers == null {
      return;
    }
    a := hooks.NewItem();
    if a == null {
      NoTrees();
      return;
    }
    a.kind := KArray;
    NoTrees();
    var ok, n;
    ghost var kids;
    ok, n, kids := AddNumbers(a, numbers, count, hooks);
    if !ok {
      NoTrees();
      return null, [];
    }
    LastInside(kids, a);
    ts := Finish(a, n, hooks, kids, Numbers(numbers[..count]));
  }

  /** The loop over the numbers; if one of them cannot be created, everything is freed. */
  method AddNumbers(a: Node, numbers: array<int32>, count: nat, hooks: Hooks)
    returns (ok: bool, n: Node?, ghost kids: seq<Tree>)
    requires count <= numbers.Length && Building(a, null, hooks, [], [])
    modifies hooks, a
    ensures ok ==>
      && Building(a, n, hooks, kids, Numbers(numbers[..count])) && fresh(BlocksOf(kids))
      && hooks.live == old(hooks.live) + BlocksOf(kids) && hooks.refusals == old(hooks.refusals)
    ensures !ok ==> hooks.Refused() && hooks.live == old(hooks.live) - {a}
  {
    hide HoldsItems, HoldsItem, Holds, Chained, BackChained, Distinct, DistinctAll, Blocks, BlocksOf, NodesOf;
    hide InnerOf, OwnedEach, Owned;
    NoTrees();
    kids := [];
    ghost var vs: seq<Value> := [];
    assert vs == Numbers(numbers[..0]);
    var p: Node?;
    n, p := null, null;
    for i := 0 to count
      invariant |kids| == i && vs == Numbers(numbers[..i]) && hooks.refusals == old(hooks.refusals)
      invariant Building(a, p, hooks, kids, vs) && n == p && fresh(BlocksOf(kids))
      invariant hooks.live == old(hooks.live) + BlocksOf(kids) && a in old(hooks.live)
    {
      LastInside(kids, a);
      n := NextNumber(a, p, numbers[i], i == 0, hooks, kids, vs);
      if n == null {
        Abandon(a, p, hooks, kids, vs);
        return false, null, [];
      }
      kids, vs := kids + [Leaf(n)], vs + [Number(numbers[i] as real, numbers[i])];
      p := n;
    }
    ok := true;
  }

  /** Behind the loop: the array is complete. */
  method Finish(a: Node, n: Node?, ghost hooks: Hooks, ghost kids: seq<Tree>, ghost vs: seq<Value>)
    returns (ghost ts: seq<Tree>)
    requires Building(a, n, hooks, kids, vs)
    modifies Opt(a.child)`prev
    ensures |ts| == 1 && ts[0].node == a && ts[0].key == null && Holds(ts[0], Array(vs))
    ensures Chained(ts) && OwnedEach(ts) && DistinctAll(ts) && BlocksOf(ts) == {a} + BlocksOf(kids)
  {
    hide HoldsItems, HoldsItem, Holds, Chained, BackChained, Distinct, DistinctAll, Blocks, BlocksOf, NodesOf;
    hide InnerOf, OwnedEach, Owned;
    CloseList(a, n, hooks, kids, vs);
    ghost var t := Tree(a, null, null, kids);
    WholeTree(a, kids);
    ArrayBuilt(t, hooks, vs);
    SingleTree(t);
    ts := [t];
  }
}

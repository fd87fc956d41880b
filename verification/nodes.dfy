/** cJSON nodes on the heap, the blocks a tree owns, and the allocator that hands blocks out. */
module Nodes {
  import opened Bytes
  import opened Json

  /** The low byte of `type`. */
  datatype Kind = KInvalid | KFalse | KTrue | KNull | KNumber | KString | KArray | KObject | KRaw

  class Node {
    var next: Node?
    var prev: Node?
    var child: Node?
    var kind: Kind
    var isReference: bool         // cJSON_IsReference
    var stringIsConst: bool       // cJSON_StringIsConst
    var valuestring: array?<byte>
    var valueint: int32
    var valuedouble: real
    var name: array?<byte>        // the field called `string`

    /** A zeroed node. */
    constructor ()
      ensures Blank()
    {
      next, prev, child := null, null, null;
      kind, isReference, stringIsConst := KInvalid, false, false;
      valuestring, valueint, valuedouble, name := null, 0, 0.0, null;
    }

    ghost predicate Blank()
      reads this
    {
      && next == null && prev == null && child == null
      && kind == KInvalid && !isReference && !stringIsConst
      && valuestring == null && valueint == 0 && valuedouble == 0.0 && name == null
    }
  }

  // ----- the shape of a tree: its nodes and the string blocks they own

  datatype Tree = Tree(node: Node, text: array?<byte>, key: array?<byte>, kids: seq<Tree>)

  ghost function Block(a: array?<byte>): set<object> {
    if a == null then {} else {a}
  }

  /** What a node owns besides itself. */
  ghost function Inner(t: Tree): set<object>
    decreases t, 0
  {
    Block(t.text) + Block(t.key) + BlocksOf(t.kids)
  }

  ghost function Blocks(t: Tree): set<object>
    decreases t, 1
  {
    {t.node} + Inner(t)
  }

  ghost function BlocksOf(ts: seq<Tree>): set<object>
    decreases ts
  {
    if ts == [] then {} else BlocksOf(ts[..|ts| - 1]) + Blocks(ts[|ts| - 1])
  }

  /** No block occurs twice. */
  ghost predicate Distinct(t: Tree)
    decreases t
  {
    && (t.text != null ==> t.text != t.key)
    && t.node !in Inner(t) && (Block(t.text) + Block(t.key)) !! BlocksOf(t.kids)
    && DistinctAll(t.kids)
  }

  ghost predicate DistinctAll(ts: seq<Tree>)
    decreases ts
  {
    ts == [] ||
    (DistinctAll(ts[..|ts| - 1]) && Distinct(ts[|ts| - 1]) && Blocks(ts[|ts| - 1]) !! BlocksOf(ts[..|ts| - 1]))
  }

  ghost function First(ts: seq<Tree>): Node? {
    if ts == [] then null else ts[0].node
  }

  ghost function Last(ts: seq<Tree>): Node? {
    if ts == [] then null else ts[|ts| - 1].node
  }

  ghost function NodesOf(ts: seq<Tree>): set<Node> {
    set i | 0 <= i < |ts| :: ts[i].node
  }

  ghost function InnerOf(ts: seq<Tree>): set<object> {
    if ts == [] then {} else InnerOf(ts[..|ts| - 1]) + Inner(ts[|ts| - 1])
  }

  /** The blocks of a list of trees are its nodes and what they own; no node is owned by another of them. */
  lemma {:induction false} NodesAndInner(ts: seq<Tree>)
    ensures BlocksOf(ts) == NodesOf(ts) + InnerOf(ts)
    ensures DistinctAll(ts) ==> NodesOf(ts) !! InnerOf(ts)
  {
    if ts != [] {
      var front := ts[..|ts| - 1];
      var last := ts[|ts| - 1];
      NodesAndInner(front);
      NodesSplit(ts);
      if DistinctAll(ts) {
        assert Distinct(last) && last.node in Blocks(last);
        NodeOutside(last);
        forall n | n in NodesOf(front) ensures n !in Inner(last) {
          assert n in BlocksOf(front);
        }
      }
    }
  }

  lemma InnerParts(t: Tree)
    ensures Block(t.text) <= Inner(t) && Block(t.key) <= Inner(t) && BlocksOf(t.kids) <= Inner(t)
    ensures Blocks(t) == {t.node} + Inner(t)
    ensures t.text != null ==> t.text in Inner(t)
    ensures t.key != null ==> t.key in Inner(t)
  {
  }

  lemma NodeOutside(t: Tree)
    requires Distinct(t)
    ensures t.node !in Inner(t)
  {
  }

  lemma NodesSplit(ts: seq<Tree>)
    requires ts != []
    ensures NodesOf(ts) == NodesOf(ts[..|ts| - 1]) + {ts[|ts| - 1].node}
  {
    var front := ts[..|ts| - 1];
    forall n | n in NodesOf(ts) ensures n in NodesOf(front) + {ts[|ts| - 1].node} {
      var i :| 0 <= i < |ts| && ts[i].node == n;
      if i < |front| {
        assert front[i].node == n;
      }
    }
    forall n | n in NodesOf(front) ensures n in NodesOf(ts) {
      var i :| 0 <= i < |front| && front[i].node == n;
      assert ts[i].node == n;
    }
  }

  ghost function Opt(n: Node?): set<Node> {
    if n == null then {} else {n}
  }

  lemma {:induction false} BlocksAt(ts: seq<Tree>, i: nat)
    requires i < |ts|
    ensures Blocks(ts[i]) <= BlocksOf(ts) && ts[i].node in Blocks(ts[i])
    decreases |ts|
  {
    if i < |ts| - 1 {
      BlocksAt(ts[..|ts| - 1], i);
    }
  }

  lemma {:induction false} DistinctPair(ts: seq<Tree>, i: nat, j: nat)
    requires DistinctAll(ts) && i < j < |ts|
    ensures Blocks(ts[i]) !! Blocks(ts[j])
    decreases |ts|
  {
    if j == |ts| - 1 {
      BlocksAt(ts[..j], i);
    } else {
      DistinctPair(ts[..|ts| - 1], i, j);
    }
  }

  // ----- what the nodes must look like for a tree to be deleted

  /** The `next` pointers run through the nodes of `ts` and then end. */
  ghost predicate Chained(ts: seq<Tree>)
    reads NodesOf(ts)`next
  {
    && (forall i, j :: 0 <= i && j == i + 1 && j < |ts| ==> ts[i].node.next == ts[j].node)
    && (ts != [] ==> ts[|ts| - 1].node.next == null)
  }

  /** `t` lists exactly what the node owns; a reference owns neither its text nor its children. */
  ghost predicate Owned(t: Tree)
    reads t.node`child, t.node`valuestring, t.node`name, t.node`isReference, t.node`stringIsConst
    reads BlocksOf(t.kids)
    decreases t
  {
    && (if t.node.isReference then t.text == null && t.kids == []
        else t.node.valuestring == t.text && t.node.child == First(t.kids))
    && (if t.node.stringIsConst then t.key == null else t.node.name == t.key)
    && (NodesAreBlocks(t.kids); Chained(t.kids)) && OwnedEach(t.kids)
  }

  ghost predicate OwnedEach(ts: seq<Tree>)
    reads BlocksOf(ts)
    decreases ts
  {
    ts == [] ||
    (var last := ts[|ts| - 1];
     assert Blocks(last) <= BlocksOf(ts) && BlocksOf(last.kids) <= Blocks(last);
     OwnedEach(ts[..|ts| - 1]) && Owned(last))
  }

  lemma {:induction false} NodesAreBlocks(ts: seq<Tree>)
    ensures NodesOf(ts) <= BlocksOf(ts)
  {
    forall i | 0 <= i < |ts| ensures ts[i].node in BlocksOf(ts) {
      BlocksAt(ts, i);
    }
  }

  // ----- the allocator

  class Hooks {
    ghost var live: set<object>   // blocks handed out and not yet returned
    ghost var refusals: nat       // how many requests have been refused

    /** Some request has been refused since the earlier state. */
    twostate predicate Refused()
      reads this
    {
      refusals > old(refusals)
    }

    /** cJSON_New_Item. */
    method NewItem() returns (item: Node?)
      modifies this
      ensures item == null ==> Refused() && live == old(live)
      ensures item != null ==> fresh(item) && item.Blank() && live == old(live) + {item} && refusals == old(refusals)
    {
      if * {
        refusals := refusals + 1;
        item := null;
      } else {
        item := new Node();
        live := live + {item};
      }
    }

    method Allocate(size: nat) returns (block: array?<byte>)
      modifies this
      ensures block == null ==> Refused() && live == old(live)
      ensures block != null ==>
        fresh(block) && block.Length == size && live == old(live) + {block} && refusals == old(refusals)
    {
      if * {
        refusals := refusals + 1;
        block := null;
      } else {
        block := new byte[size];
        live := live + {block};
      }
    }

    /** realloc: the block moves with its content, or stays where it is when the request is refused. */
    method Reallocate(block: array<byte>, size: nat) returns (moved: array?<byte>)
      requires block in live
      modifies this
      ensures moved == null ==> Refused() && live == old(live)
      ensures moved != null ==>
        && fresh(moved) && moved.Length == size && live == old(live) - {block} + {moved} && refusals == old(refusals)
        && forall i {:trigger moved[i]} :: 0 <= i < size && i < block.Length ==> moved[i] == block[i]
    {
      if * {
        refusals := refusals + 1;
        moved := null;
      } else {
        moved := new byte[size](i requires 0 <= i reads block => if i < block.Length then block[i] else 0);
        live := live - {block} + {moved};
      }
    }

    /** Only a block that is still live may be returned. */
    method Deallocate(block: object)
      requires block in live
      modifies this
      ensures live == old(live) - {block} && refusals == old(refusals)
    {
      live := live - {block};
    }
  }

  lemma {:induction false} SplitHead(ts: seq<Tree>)
    requires ts != []
    ensures BlocksOf(ts) == Blocks(ts[0]) + BlocksOf(ts[1..])
    ensures DistinctAll(ts) <==> Distinct(ts[0]) && DistinctAll(ts[1..]) && Blocks(ts[0]) !! BlocksOf(ts[1..])
  {
    if |ts| == 1 {
      assert ts[..0] == [] && ts[1..] == [];
    } else {
      SplitHead(ts[..|ts| - 1]);
      assert ts[1..][..|ts| - 2] == ts[..|ts| - 1][1..];
    }
  }

  lemma {:induction false} ChainedHead(ts: seq<Tree>)
    requires Chained(ts) && ts != []
    ensures Chained(ts[1..]) && ts[0].node.next == First(ts[1..])
  {
    var rest := ts[1..];
    forall i, j | 0 <= i && j == i + 1 && j < |rest| ensures rest[i].node.next == rest[j].node {
      assert rest[i] == ts[i + 1] && rest[j] == ts[j + 1];
    }
    if |ts| > 1 {
      assert ts[0].node.next == ts[1].node;
    }
  }

  lemma {:induction false} SplitOwned(ts: seq<Tree>)
    requires ts != [] && OwnedEach(ts) && Chained(ts)
    ensures Owned(ts[0]) && OwnedEach(ts[1..]) && Chained(ts[1..]) && ts[0].node.next == First(ts[1..])
  {
    OwnedSuffix(ts);
    ChainedHead(ts);
  }

  lemma {:induction false} OwnedSuffix(ts: seq<Tree>)
    requires ts != [] && OwnedEach(ts)
    ensures Owned(ts[0]) && OwnedEach(ts[1..])
  {
    if |ts| == 1 {
      assert ts[1..] == [];
    } else {
      OwnedSuffix(ts[..|ts| - 1]);
      assert ts[1..][..|ts| - 2] == ts[..|ts| - 1][1..];
    }
  }

  /** cJSON_Delete: frees the item and its right siblings with everything they own, each block once. */
  method Delete(first: Node?, hooks: Hooks, ghost ts: seq<Tree>)
    requires first == First(ts) && Chained(ts) && OwnedEach(ts) && DistinctAll(ts)
    requires BlocksOf(ts) <= hooks.live && hooks !in BlocksOf(ts)
    modifies hooks, BlocksOf(ts)
    ensures hooks.live == old(hooks.live) - BlocksOf(ts) && hooks.refusals == old(hooks.refusals)
    decreases ts
  {
    hide Owned, OwnedEach, Chained, Blocks, BlocksOf, Distinct, DistinctAll, NodesOf;
    var item := first;
    ghost var i, rest := 0, ts;
    NoBlocks();
    while item != null
      invariant item == First(rest) && Chained(rest) && OwnedEach(rest) && DistinctAll(rest)
      invariant 0 <= i <= |ts| && rest == ts[i..]
      invariant BlocksOf(rest) <= BlocksOf(ts) && BlocksOf(rest) <= hooks.live
      invariant hooks.live - BlocksOf(rest) == old(hooks.live) - BlocksOf(ts) && hooks.refusals == old(hooks.refusals)
      decreases |rest|
    {
      var next := item.next;
      SplitHead(rest);
      SplitOwned(rest);
      NodesAreBlocks(rest[1..]);
      KidsInside(rest[0]);
      DeleteOne(item, hooks, rest[0]);
      item := next;
      i, rest := i + 1, rest[1..];
    }
  }

  lemma NoBlocks()
    ensures BlocksOf([]) == {} && NodesOf([]) == {}
  {
  }

  lemma KidsInside(t: Tree)
    ensures t.node in Blocks(t) && BlocksOf(t.kids) <= Blocks(t)
  {
  }

  /** The body of the loop of cJSON_Delete. */
  method DeleteOne(item: Node, hooks: Hooks, ghost t: Tree)
    requires item == t.node && Owned(t) && Distinct(t) && Blocks(t) <= hooks.live && hooks !in Blocks(t)
    modifies hooks, Blocks(t)
    ensures hooks.live == old(hooks.live) - Blocks(t) && hooks.refusals == old(hooks.refusals)
    decreases t
  {
    if !item.isReference && item.child != null {
      Delete(item.child, hooks, t.kids);
    }
    if !item.isReference && item.valuestring != null {
      hooks.Deallocate(item.valuestring);
      item.valuestring := null;
    }
    if !item.stringIsConst && item.name != null {
      hooks.Deallocate(item.name);
      item.name := null;
    }
    hooks.Deallocate(item);
  }
}

/** LiteOS's intrusive, circular, doubly linked list (liteos/utils/los_list.h). */
module Ring {
  class ListNode {
    var pstPrev: ListNode?
    var pstNext: ListNode?

    constructor ()
      ensures pstPrev == null && pstNext == null
    {
      pstPrev, pstNext := null, null;
    }
  }

  ghost predicate Linked(a: ListNode, b: ListNode)
    reads a, b
  {
    a.pstNext == b && b.pstPrev == a
  }

  ghost function Members(s: seq<ListNode>): set<ListNode> {
    set n | n in s
  }

  /** `s` are the nodes of a ring, in order, each once; conventionally the list head comes first. */
  ghost predicate IsRing(s: seq<ListNode>)
    reads Members(s)
  {
    && s != [] && NoRepeats(s)
    && (forall i, j :: 0 <= i && j == i + 1 && j < |s| ==> Linked(s[i], s[j]))
    && Linked(s[|s| - 1], s[0])
  }

  ghost predicate NoRepeats(s: seq<ListNode>) {
    forall i, j :: 0 <= i < j < |s| ==> s[i] != s[j]
  }

  ghost function Without(s: seq<ListNode>, k: nat): seq<ListNode>
    requires k < |s|
  {
    s[..k] + s[k + 1..]
  }

  /** Where the pointers of the `k`-th node lead. */
  ghost function After(s: seq<ListNode>, k: nat): ListNode
    requires k < |s|
  {
    if k == |s| - 1 then s[0] else s[k + 1]
  }

  ghost function Before(s: seq<ListNode>, k: nat): ListNode
    requires k < |s|
  {
    if k == 0 then s[|s| - 1] else s[k - 1]
  }

  lemma {:induction false} RingLinks(s: seq<ListNode>)
    requires IsRing(s)
    ensures forall k {:trigger s[k].pstNext} :: 0 <= k < |s| ==> s[k].pstNext == After(s, k)
    ensures forall k {:trigger s[k].pstPrev} :: 0 <= k < |s| ==> s[k].pstPrev == Before(s, k)
  {
    forall k | 0 <= k < |s| ensures s[k].pstNext == After(s, k) && s[k].pstPrev == Before(s, k) {
      if k < |s| - 1 {
        assert Linked(s[k], s[k + 1]);
      }
      if k > 0 {
        assert Linked(s[k - 1], s[k]);
      }
    }
  }

  lemma Inside(s: seq<ListNode>, k: nat)
    requires k < |s|
    ensures s[k] in Members(s) && After(s, k) in Members(s) && Before(s, k) in Members(s)
  {
  }

  lemma {:induction false} LinksRing(s: seq<ListNode>)
    requires s != [] && NoRepeats(s)
    requires forall k {:trigger s[k].pstNext} :: 0 <= k < |s| ==> s[k].pstNext == After(s, k)
    requires forall k {:trigger s[k].pstPrev} :: 0 <= k < |s| ==> s[k].pstPrev == Before(s, k)
    ensures IsRing(s)
  {
  }

  /** A ring can be read from any of its nodes. */
  lemma {:induction false} Rotate(s: seq<ListNode>, k: nat)
    requires IsRing(s) && k < |s|
    ensures IsRing(s[k..] + s[..k])
  {
    hide IsRing, NoRepeats;
    RingLinks(s);
    var t := s[k..] + s[..k];
    RotateDistinct(s, k);
    forall i | 0 <= i < |t| ensures t[i].pstNext == After(t, i) && t[i].pstPrev == Before(t, i) {
      var at := if i < |s| - k then k + i else i - (|s| - k);
      assert t[i] == s[at] && After(t, i) == After(s, at) && Before(t, i) == Before(s, at);
    }
    LinksRing(t);
  }

  lemma {:induction false} RotateDistinct(s: seq<ListNode>, k: nat)
    requires IsRing(s) && k < |s|
    ensures NoRepeats(s[k..] + s[..k])
  {
  }

  // ----- the operations

  /** LOS_ListInit */
  method ListInit(list: ListNode)
    modifies list
    ensures IsRing([list])
  {
    list.pstNext := list;
    list.pstPrev := list;
  }

  /** LOS_ListAdd: the node comes right behind the `k`-th. */
  method ListAdd(list: ListNode, node: ListNode, ghost s: seq<ListNode>, ghost k: nat)
    requires IsRing(s) && k < |s| && list == s[k] && node !in s
    modifies Members(s), node
    ensures IsRing(s[..k + 1] + [node] + s[k + 1..])
  {
    hide IsRing, Members;
    RingLinks(s);
    RingDistinct(s);
    Inside(s, k);
    node.pstNext := list.pstNext;
    node.pstPrev := list;
    list.pstNext.pstPrev := node;
    list.pstNext := node;
    Longer(s, k, node);
  }

  lemma RingDistinct(s: seq<ListNode>)
    requires IsRing(s)
    ensures NoRepeats(s) && s != []
  {
  }

  /** The node is in the ring once it and its neighbours point at each other. */
  lemma {:induction false} Longer(s: seq<ListNode>, k: nat, node: ListNode)
    requires k < |s| && NoRepeats(s) && node !in s && Linked(s[k], node) && Linked(node, After(s, k))
    requires forall i {:trigger s[i].pstNext} :: 0 <= i < |s| && i != k ==> s[i].pstNext == After(s, i)
    requires forall i {:trigger s[i].pstPrev} :: 0 <= i < |s| && s[i] != After(s, k) ==> s[i].pstPrev == Before(s, i)
    ensures IsRing(s[..k + 1] + [node] + s[k + 1..])
  {
    hide IsRing;
    var t := s[..k + 1] + [node] + s[k + 1..];
    assert forall i {:trigger t[i]} :: 0 <= i < |t| ==>
      t[i] == if i <= k then s[i] else if i == k + 1 then node else s[i - 1];
    LinksRing(t);
  }

  /** LOS_ListHeadInsert: the node becomes the first member. */
  method ListHeadInsert(list: ListNode, node: ListNode, ghost s: seq<ListNode>)
    requires IsRing(s) && list == s[0] && node !in s
    modifies Members(s), node
    ensures IsRing([list, node] + s[1..])
  {
    ListAdd(list, node, s, 0);
    assert s[..0 + 1] + [node] + s[0 + 1..] == [list, node] + s[1..];
  }

  /** LOS_ListTailInsert: the node becomes the last member. */
  method ListTailInsert(list: ListNode, node: ListNode, ghost s: seq<ListNode>)
    requires IsRing(s) && list == s[0] && node !in s
    modifies Members(s), node
    ensures IsRing(s + [node])
  {
    RingLinks(s);
    ListAdd(list.pstPrev, node, s, |s| - 1);
    assert s[..|s| - 1 + 1] + [node] + s[|s| - 1 + 1..] == s + [node];
  }

  /** LOS_ListDelete: the others stay in order, and the node leads nowhere. */
  method ListDelete(node: ListNode, ghost s: seq<ListNode>, ghost k: nat)
    requires IsRing(s) && k < |s| && node == s[k]
    modifies Members(s)
    ensures node.pstNext == null && node.pstPrev == null
    ensures |s| > 1 ==> IsRing(Without(s, k))
  {
    hide IsRing, Members;
    RingDistinct(s);
    RingLinks(s);
    Inside(s, k);
    node.pstNext.pstPrev := node.pstPrev;
    node.pstPrev.pstNext := node.pstNext;
    node.pstNext := null;
    node.pstPrev := null;
    if |s| > 1 {
      Shorter(s, k);
    }
  }

  /** The node is out of the ring once its neighbours point at each other. */
  lemma {:induction false} Shorter(s: seq<ListNode>, k: nat)
    requires |s| > 1 && k < |s| && NoRepeats(s)
    requires forall i {:trigger s[i].pstNext} :: 0 <= i < |s| && i != k ==>
      s[i].pstNext == if After(s, i) == s[k] then After(s, k) else After(s, i)
    requires forall i {:trigger s[i].pstPrev} :: 0 <= i < |s| && i != k ==>
      s[i].pstPrev == if Before(s, i) == s[k] then Before(s, k) else Before(s, i)
    ensures IsRing(Without(s, k))
  {
    var t := Without(s, k);
    assert forall i {:trigger t[i]} :: 0 <= i < |t| ==> t[i] == s[if i < k then i else i + 1];
    LinksRing(t);
  }

  /** LOS_ListDelInit: the same, but the node ends up as a ring of its own. */
  method ListDelInit(list: ListNode, ghost s: seq<ListNode>, ghost k: nat)
    requires IsRing(s) && k < |s| && list == s[k]
    modifies Members(s)
    ensures IsRing([list])
    ensures |s| > 1 ==> IsRing(Without(s, k))
  {
    hide IsRing, Members;
    RingDistinct(s);
    RingLinks(s);
    Inside(s, k);
    list.pstNext.pstPrev := list.pstPrev;
    list.pstPrev.pstNext := list.pstNext;
    ListInit(list);
    if |s| > 1 {
      Shorter(s, k);
    }
  }

  /** LOS_ListEmpty */
  method ListEmpty(node: ListNode, ghost s: seq<ListNode>) returns (empty: bool)
    requires IsRing(s) && node == s[0]
    ensures empty <==> s == [node]
  {
    RingLinks(s);
    empty := node.pstNext == node;
  }

  // ----- the loops

  /** LOS_DL_LIST_FOR_EACH with a body that leaves the list alone: it sees every member once, in order. */
  method ForEach(list: ListNode, ghost s: seq<ListNode>) returns (visited: seq<ListNode>)
    requires IsRing(s) && list == s[0]
    ensures visited == s[1..]
  {
    RingLinks(s);
    visited := [];
    var item := list.pstNext;
    while item != list
      invariant |visited| < |s| && visited == s[1..|visited| + 1] && item == After(s, |visited|)
      decreases |s| - |visited|
    {
      ghost var n := |visited|;
      assert item == s[n + 1] && s[1..n + 2] == s[1..n + 1] + [s[n + 1]];
      visited := visited + [item];
      item := item.pstNext;
    }
  }

  /** The members that are not in `doomed`. */
  ghost function Spared(s: seq<ListNode>, doomed: set<ListNode>): seq<ListNode> {
    if s == [] then [] else (if s[0] in doomed then [] else [s[0]]) + Spared(s[1..], doomed)
  }

  lemma {:induction false} SparedOnly(s: seq<ListNode>, doomed: set<ListNode>)
    ensures forall n :: n in Spared(s, doomed) <==> n in s && n !in doomed
  {
    if s != [] {
      SparedOnly(s[1..], doomed);
      assert s == [s[0]] + s[1..];
    }
  }

  ghost function First(rest: seq<ListNode>, list: ListNode): ListNode {
    if rest == [] then list else rest[0]
  }

  /** The body of the safe loop: the node may go, and the saved `next` is still the next member or the head. */
  method Visit(item: ListNode, next: ListNode?, doomed: set<ListNode>, ghost list: ListNode,
               ghost kept: seq<ListNode>, ghost rest: seq<ListNode>)
    returns (ghost kept': seq<ListNode>, ghost rest': seq<ListNode>)
    requires rest != [] && kept != [] && kept[0] == list && IsRing(kept + rest) && item == rest[0]
    requires next == item.pstNext
    modifies Members(kept + rest)
    ensures rest' == rest[1..] && kept' == (if item in doomed then kept else kept + [item])
    ensures IsRing(kept' + rest') && next == First(rest', list) && item !in rest' && (item in doomed ==> item !in kept')
    ensures item in doomed ==> item.pstNext == null && item.pstPrev == null && item !in Members(kept' + rest')
    ensures list !in rest' && Members(kept' + rest') <= Members(kept + rest)
    ensures kept' + Spared(rest', doomed) == kept + Spared(rest, doomed)
  {
    hide IsRing, Members, Spared, After, Before, NoRepeats, First;
    ghost var s, k := kept + rest, |kept|;
    AtCursor(kept, rest, list);
    SparedStep(kept, rest, doomed);
    rest' := rest[1..];
    kept' := if item in doomed then kept else kept + [item];
    if item in doomed {
      ListDelete(item, s, k);
    }
  }

  lemma {:induction false} AtCursor(kept: seq<ListNode>, rest: seq<ListNode>, list: ListNode)
    requires rest != [] && kept != [] && kept[0] == list && IsRing(kept + rest)
    ensures rest[0].pstNext == First(rest[1..], list) && rest[0] !in kept && rest[0] !in rest[1..]
    ensures (kept + rest)[|kept|] == rest[0] && Without(kept + rest, |kept|) == kept + rest[1..]
    ensures kept + [rest[0]] + rest[1..] == kept + rest && list !in rest[1..]
    ensures Members(kept + rest[1..]) <= Members(kept + rest) && rest[0] !in Members(kept + rest[1..])
  {
    hide IsRing;
    var s, k := kept + rest, |kept|;
    RingLinks(s);
    RingDistinct(s);
    assert s[k] == rest[0] && s[0] == list && s[..k] == kept && s[k + 1..] == rest[1..];
    forall i | 0 <= i < |kept| ensures kept[i] != rest[0] {
      assert s[i] == kept[i];
    }
    forall i | 0 <= i < |rest[1..]| ensures rest[1..][i] != rest[0] {
      assert s[k + 1 + i] == rest[1..][i];
    }
  }

  lemma {:induction false} SparedStep(kept: seq<ListNode>, rest: seq<ListNode>, doomed: set<ListNode>)
    requires rest != []
    ensures (if rest[0] in doomed then kept else kept + [rest[0]]) + Spared(rest[1..], doomed)
      == kept + Spared(rest, doomed)
  {
    var more := Spared(rest[1..], doomed);
    assert kept + ([rest[0]] + more) == kept + [rest[0]] + more;
    assert [] + more == more;
  }

  /** LOS_DL_LIST_FOR_EACH_SAFE with a body that deletes the current node if it is in `doomed`: every original
      member is visited once, in order, and exactly the others remain, in order. */
  method ForEachSafe(list: ListNode, doomed: set<ListNode>, ghost s: seq<ListNode>) returns (visited: seq<ListNode>)
    requires IsRing(s) && list == s[0]
    modifies Members(s)
    ensures visited == s[1..]
    ensures IsRing([list] + Spared(s[1..], doomed))
    ensures forall n :: n in s[1..] && n in doomed ==> n.pstNext == null && n.pstPrev == null
  {
    hide IsRing, Members, Spared, After, Before, NoRepeats, Without;
    RingStart(s);
    ghost var kept, rest := [list], s[1..];
    assert kept + rest == s;
    visited := [];
    ghost var gone: set<ListNode> := {};
    var item := list.pstNext;
    var next := item.pstNext;
    while item != list
      invariant visited + rest == s[1..] && kept != [] && kept[0] == list && IsRing(kept + rest)
      invariant kept + Spared(rest, doomed) == [list] + Spared(s[1..], doomed)
      invariant item == First(rest, list) && next == item.pstNext && list !in rest
      invariant Members(kept + rest) <= Members(s) && gone <= Members(s) && gone !! Members(kept + rest)
      invariant (forall n :: n in visited && n in doomed ==> n in gone) && Unlinked(gone)
      decreases |rest|
    {
      visited := visited + [item];
      gone := if item in doomed then gone + {item} else gone;
      kept, rest := Visit(item, next, doomed, list, kept, rest);
      item := next;
      next := item.pstNext;
    }
    NoneLeft(doomed);
    assert kept + [] == kept;
  }

  /** The nodes lead nowhere. */
  ghost predicate Unlinked(gone: set<ListNode>)
    reads gone
  {
    forall n :: n in gone ==> n.pstNext == null && n.pstPrev == null
  }

  lemma RingStart(s: seq<ListNode>)
    requires IsRing(s)
    ensures s != [] && s[0].pstNext == First(s[1..], s[0]) && s[0] !in s[1..] && s[0] in Members(s)
  {
    RingLinks(s);
  }

  lemma NoneLeft(doomed: set<ListNode>)
    ensures Spared([], doomed) == []
  {
  }
}

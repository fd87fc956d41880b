/** What a copy is worth: its contents, its addresses, and how it compares with the original. */
module CopyLaws {
  import opened Bytes
  import opened Json
  import opened Nodes
  import opened TreeValue
  import opened Views
  import opened Compare
  import opened CompareLaws
  import opened Duplicate

  ghost function TextOf(block: array?<byte>, s: Text): Text {
    if block == null || s.Absent? then Absent else Present(block, s.chars)
  }

  /** The snapshot of a tree that is a copy of `x`. */
  ghost function ViewOf(t: Tree, x: View): View
    decreases t
  {
    View(t.node, x.kind, false, x.stringIsConst, x.i, x.d, TextOf(t.text, x.text),
         if x.stringIsConst && x.name.Present? then x.name else TextOf(t.key, x.name), ViewsOf(t.kids, x.kids))
  }

  ghost function ViewsOf(ts: seq<Tree>, xs: seq<View>): seq<View>
    decreases ts
  {
    if ts == [] || xs == [] then [] else [ViewOf(ts[0], xs[0])] + ViewsOf(ts[1..], xs[1..])
  }

  /** No item of the tree is a reference. */
  ghost predicate NoReference(v: View)
    decreases v
  {
    !v.isReference && forall i :: 0 <= i < |v.kids| ==> NoReference(v.kids[i])
  }

  lemma {:induction false} CopiedHead(ts: seq<Tree>, vs: seq<View>)
    requires CopiedAll(ts, vs) && ts != []
    ensures Copied(ts[0], vs[0]) && CopiedAll(ts[1..], vs[1..])
    decreases ts
  {
    hide Copied;
    if |ts| == 1 {
      NothingCopied(ts[1..], vs[1..]);
    } else {
      CopiedHead(ts[..|ts| - 1], vs[..|vs| - 1]);
      assert ts[1..][..|ts| - 2] == ts[..|ts| - 1][1..] && vs[1..][..|vs| - 2] == vs[..|vs| - 1][1..];
    }
  }

  /** The copy has the content of the original, at the addresses of the new blocks. */
  lemma {:induction false} CopyShown(t: Tree, x: View)
    requires Copied(t, x) && Shows(x)
    ensures Shows(ViewOf(t, x)) && SameContent(x, ViewOf(t, x)) && NoReference(ViewOf(t, x))
    ensures NodesIn(ViewOf(t, x)) <= Blocks(t)
    decreases t
  {
    hide CopiedAll, ShowsList, SameContents, Chained, BackChained, NodesInAll, HoldsText;
    CopiesShown(t.kids, x.kids);
    TextShown(t.text, x.text);
    TextShown(t.key, x.name);
  }

  lemma TextShown(block: array?<byte>, s: Text)
    ensures CopiedText(block, s) ==> ShowsText(block, TextOf(block, s)) && SameChars(s, TextOf(block, s))
  {
  }

  lemma {:induction false} CopiesShown(ts: seq<Tree>, xs: seq<View>)
    requires CopiedAll(ts, xs) && Chained(ts) && ShowsList(xs)
    ensures ShowsList(ViewsOf(ts, xs)) && SameContents(xs, ViewsOf(ts, xs)) && HeadNode(ViewsOf(ts, xs)) == First(ts)
    ensures forall i :: 0 <= i < |ViewsOf(ts, xs)| ==> NoReference(ViewsOf(ts, xs)[i])
    ensures NodesInAll(ViewsOf(ts, xs)) <= BlocksOf(ts)
    decreases ts
  {
    hide Copied, Shows, SameContent, Chained, Blocks, NodesIn;
    if ts != [] {
      CopiedHead(ts, xs);
      ChainedHead(ts);
      SplitHead(ts);
      CopyShown(ts[0], xs[0]);
      CopiesShown(ts[1..], xs[1..]);
      var ys := ViewsOf(ts, xs);
      assert ys == [ViewOf(ts[0], xs[0])] + ViewsOf(ts[1..], xs[1..]);
      assert ys[0] == ViewOf(ts[0], xs[0]) && ys[1..] == ViewsOf(ts[1..], xs[1..]);
      forall i | 0 <= i < |ys| ensures NoReference(ys[i]) {
        assert i > 0 ==> ys[i] == ys[1..][i - 1];
      }
    }
  }

  lemma {:induction false} NodesInRegion(v: View)
    ensures NodesIn(v) <= Region(v)
    decreases v
  {
    AllNodesInRegion(v.kids);
  }

  lemma {:induction false} AllNodesInRegion(vs: seq<View>)
    ensures NodesInAll(vs) <= RegionOf(vs)
    decreases vs
  {
    if vs != [] {
      NodesInRegion(vs[0]);
      AllNodesInRegion(vs[1..]);
    }
  }

  /** cJSON_Duplicate with `recurse`: the copy has the same content in new items none of which is a reference;
      cJSON_Compare finds it equal to a tree whose objects have distinct names, and in general to exactly the
      fit trees. */
  method DuplicateTree(item: Node, hooks: Hooks, ghost x: View)
    returns (copy: Node?, ghost ts: seq<Tree>, ghost y: View)
    requires item == x.node && Shows(x) && hooks !in Region(x)
    modifies hooks
    ensures copy == null ==> hooks.live == old(hooks.live) && (hooks.Refused() || Height(x) > 10000)
    ensures copy != null ==>
      && copy == y.node && Shows(y) && SameContent(x, y) && NoReference(y) && fresh(NodesIn(y))
      && (Proper(x) ==> Equal(x, y, true)) && (Unshared(x) ==> (Equal(x, y, true) <==> Fit(x, true)))
      && (Unshared(x) ==> (Equal(x, y, false) <==> Fit(x, false)))
    ensures copy != null ==>
      && |ts| == 1 && ts[0].node == copy && Owned(ts[0]) && Distinct(ts[0]) && Listed(ts[0].kids)
      && fresh(Blocks(ts[0])) && hooks.live == old(hooks.live) + Blocks(ts[0]) && Height(x) <= 10000
  {
    hide Shows, Region, SameContent, Equal, Fit, Proper, Unshared, NodesIn, Blocks, Owned, Distinct, CopiedFields;
    hide CopiedAll, HeightOf;
    y := x;
    RegionAllocated(x);
    copy, ts := DuplicateRec(item, 0, true, hooks, x);
    if copy != null {
      y := ViewOf(ts[0], x);
      CopyShown(ts[0], x);
      NodesInRegion(x);
      if Proper(x) {
        CopyOfProper(x, y);
      }
      if Unshared(x) {
        CopyEqualIff(x, y, true);
        CopyEqualIff(x, y, false);
      }
    }
  }
}

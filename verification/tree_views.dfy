/** The snapshot of a tree: comparison and copying are stated on snapshots, reading and printing on trees. */
module TreeViews {
  import opened Bytes
  import opened Json
  import opened Nodes
  import opened TreeValue
  import opened Views
  import opened Compare
  import opened CompareLaws

  ghost function TextOf(block: array?<byte>): Text
    reads block
  {
    if block == null then Absent else Present(block, CStr(block[..]))
  }

  ghost function ViewOf(t: Tree): View
    reads t.node, t.text, t.key, BlocksOf(t.kids)
    decreases t
  {
    var n := t.node;
    View(n, n.kind, n.isReference, n.stringIsConst, n.valueint, n.valuedouble,
         TextOf(t.text), TextOf(t.key), ViewsOf(t.kids))
  }

  ghost function ViewsOf(ts: seq<Tree>): seq<View>
    reads BlocksOf(ts)
    decreases ts
  {
    if ts == [] then []
    else
      var last := ts[|ts| - 1];
      BlocksParts(last);
      ViewsOf(ts[..|ts| - 1]) + [ViewOf(last)]
  }

  lemma {:induction false} ViewsAt(ts: seq<Tree>)
    ensures |ViewsOf(ts)| == |ts| && forall i {:trigger ts[i]} :: 0 <= i < |ts| ==> ViewsOf(ts)[i] == ViewOf(ts[i])
  {
    hide ViewOf;
    if ts != [] {
      ViewsAt(ts[..|ts| - 1]);
      forall i | 0 <= i < |ts| ensures ViewsOf(ts)[i] == ViewOf(ts[i]) {
        assert i < |ts| - 1 ==> ts[i] == ts[..|ts| - 1][i];
      }
    }
  }

  lemma {:induction false} ReadableAt(ts: seq<Tree>, i: nat)
    requires ReadableEach(ts) && i < |ts|
    ensures Readable(ts[i])
    decreases |ts|
  {
    hide Readable;
    if i < |ts| - 1 {
      ReadableAt(ts[..|ts| - 1], i);
    }
  }

  /** The heap looks like the snapshot of a tree, and the items shown are nodes of the tree. */
  lemma {:induction false} ViewShown(t: Tree)
    requires Readable(t)
    ensures Shows(ViewOf(t)) && ViewOf(t).node == t.node && NodesIn(ViewOf(t)) <= Blocks(t)
    decreases t, 0
  {
    hide ViewsOf, ReadableEach, ShowsList, NodesInAll, Chained, CStr;
    ViewsShown(t.kids, 0);
    assert ViewsOf(t.kids)[0..] == ViewsOf(t.kids);
    BlocksParts(t);
  }

  lemma {:induction false} ViewsShown(ts: seq<Tree>, i: nat)
    requires ReadableEach(ts) && Chained(ts) && i <= |ts|
    ensures |ViewsOf(ts)| == |ts| && ShowsList(ViewsOf(ts)[i..]) && NodesInAll(ViewsOf(ts)[i..]) <= BlocksOf(ts)
    ensures HeadNode(ViewsOf(ts)[i..]) == if i < |ts| then ts[i].node else null
    decreases ts, |ts| - i
  {
    hide ViewOf, ViewsOf, ReadableEach, Readable, Shows, NodesIn, Blocks, BlocksOf;
    ViewsAt(ts);
    var rest := ViewsOf(ts)[i..];
    if i < |ts| {
      ReadableAt(ts, i);
      ViewShown(ts[i]);
      ViewsShown(ts, i + 1);
      BlocksAt(ts, i);
      assert rest[0] == ViewOf(ts[i]) && rest[1..] == ViewsOf(ts)[i + 1..];
    }
  }

  // ----- what may be missing

  /** No kind is invalid, no string is missing, and every member of an object has a name. */
  ghost predicate Complete(x: View)
    decreases x
  {
    && x.kind != KInvalid && (x.kind == KString || x.kind == KRaw ==> x.text.Present?)
    && (x.kind == KArray ==> forall i :: 0 <= i < |x.kids| ==> Complete(x.kids[i]))
    && (x.kind == KObject ==> forall i :: 0 <= i < |x.kids| ==> x.kids[i].name.Present? && Complete(x.kids[i]))
  }

  /** A tree only equals one at other addresses if nothing is missing in it. */
  lemma {:induction false} EqualComplete(x: View, y: View, caseSensitive: bool)
    requires Equal(x, y, caseSensitive) && NodesIn(x) !! NodesIn(y)
    ensures Complete(x)
    decreases x
  {
    hide CompareDouble, Find, NodesInAll, ElementsEqual, MembersFound, Weight, WeightOf;
    if x.kind == KArray {
      ElementsComplete(x.kids, y.kids, caseSensitive);
    } else if x.kind == KObject {
      FoundComplete(x.kids, y.kids, caseSensitive);
    }
  }

  lemma {:induction false} ElementsComplete(xs: seq<View>, ys: seq<View>, caseSensitive: bool)
    requires ElementsEqual(xs, ys, caseSensitive) && NodesInAll(xs) !! NodesInAll(ys)
    ensures forall i :: 0 <= i < |xs| ==> Complete(xs[i])
    decreases xs
  {
    hide Equal, NodesIn, NodesInAll, Complete;
    forall i | 0 <= i < |xs| ensures Complete(xs[i]) {
      NodesInAt(xs, i);
      NodesInAt(ys, i);
      EqualComplete(xs[i], ys[i], caseSensitive);
    }
  }

  lemma {:induction false} FoundComplete(xs: seq<View>, ys: seq<View>, caseSensitive: bool)
    requires MembersFound(xs, ys, caseSensitive) && NodesInAll(xs) !! NodesInAll(ys)
    ensures forall i :: 0 <= i < |xs| ==> xs[i].name.Present? && Complete(xs[i])
    decreases xs
  {
    hide Equal, NodesIn, NodesInAll, Complete, FindFrom;
    forall i | 0 <= i < |xs| ensures xs[i].name.Present? && Complete(xs[i]) {
      var j := Find(ys, xs[i].name, caseSensitive);
      NodesInAt(xs, i);
      NodesInAt(ys, j);
      EqualComplete(xs[i], ys[j], caseSensitive);
    }
  }

  /** A tree that owns its blocks is complete. */
  lemma {:induction false} TidyComplete(t: Tree)
    requires Tidy(t)
    ensures Complete(ViewOf(t))
    decreases t
  {
    hide TidyItems, TidyMembers, ViewsOf, Chained, BackChained, CStr;
    ViewsAt(t.kids);
    var xs := ViewsOf(t.kids);
    if t.node.kind == KArray {
      ItemsComplete(t.kids);
      assert forall i :: 0 <= i < |xs| ==> xs[i] == ViewOf(t.kids[i]);
    } else if t.node.kind == KObject {
      MembersComplete(t.kids);
      assert forall i :: 0 <= i < |xs| ==> xs[i] == ViewOf(t.kids[i]);
    }
  }

  lemma {:induction false} ItemsComplete(ts: seq<Tree>)
    requires TidyItems(ts)
    ensures forall i {:trigger ts[i]} :: 0 <= i < |ts| ==> Complete(ViewOf(ts[i]))
    decreases ts
  {
    hide Tidy, ViewOf, Complete;
    if ts != [] {
      ItemsComplete(ts[..|ts| - 1]);
      TidyComplete(ts[|ts| - 1]);
      forall i | 0 <= i < |ts| ensures Complete(ViewOf(ts[i])) {
        assert i < |ts| - 1 ==> ts[i] == ts[..|ts| - 1][i];
      }
    }
  }

  lemma {:induction false} MembersComplete(ts: seq<Tree>)
    requires TidyMembers(ts)
    ensures forall i {:trigger ts[i]} :: 0 <= i < |ts| ==> ViewOf(ts[i]).name.Present? && Complete(ViewOf(ts[i]))
    decreases ts
  {
    hide Tidy, Complete, CStr, ViewsOf;
    if ts != [] {
      MembersComplete(ts[..|ts| - 1]);
      TidyComplete(ts[|ts| - 1]);
      forall i | 0 <= i < |ts| ensures ViewOf(ts[i]).name.Present? && Complete(ViewOf(ts[i])) {
        assert i < |ts| - 1 ==> ts[i] == ts[..|ts| - 1][i];
      }
    }
  }

  /** A tree that holds a value can be read. */
  lemma {:induction false} HeldReadable(t: Tree, v: Value)
    requires Carries(t, v) && Tidy(t) && t.node.name == t.key && Terminated(t.key)
    ensures Readable(t)
    decreases t
  {
    hide CarriesItems, CarriesMembers, TidyItems, TidyMembers, CStr, Chained, BackChained;
    match v
    case Array(items) => ItemsReadable(t.kids, items);
    case Object(members) => MembersReadable(t.kids, members);
    case _ =>
  }

  lemma {:induction false} ItemsReadable(ts: seq<Tree>, vs: seq<Value>)
    requires CarriesItems(ts, vs) && TidyItems(ts)
    ensures ReadableEach(ts)
    decreases ts
  {
    hide Carries, Tidy, Readable;
    if ts != [] {
      ItemsReadable(ts[..|ts| - 1], vs[..|ts| - 1]);
      HeldReadable(ts[|ts| - 1], vs[|ts| - 1]);
    }
  }

  lemma {:induction false} MembersReadable(ts: seq<Tree>, ms: seq<Member>)
    requires CarriesMembers(ts, ms) && TidyMembers(ts)
    ensures ReadableEach(ts)
    decreases ts
  {
    hide Carries, Tidy, Readable, CStr;
    if ts != [] {
      MembersReadable(ts[..|ts| - 1], ms[..|ts| - 1]);
      HeldReadable(ts[|ts| - 1], ms[|ts| - 1].value);
    }
  }
}

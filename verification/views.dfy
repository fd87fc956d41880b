/** Snapshots of cJSON items: everything an item and its children contain, with the addresses it is at. */
module Views {
  import opened Bytes
  import opened Json
  import opened Nodes

  /** A `char*` field: NULL, or a block and the C string in it. */
  datatype Text = Absent | Present(block: array<byte>, chars: cstring)

  datatype View = View(node: Node, kind: Kind, isReference: bool, stringIsConst: bool, i: int32, d: real,
                       text: Text, name: Text, kids: seq<View>)

  ghost function TextBlock(t: Text): set<object> {
    if t.Present? then {t.block} else {}
  }

  ghost predicate ShowsText(p: array?<byte>, t: Text)
    reads TextBlock(t)
  {
    match t
    case Absent => p == null
    case Present(block, chars) => p == block && |chars| < block.Length && CStr(block[..]) == chars
  }

  ghost function HeadNode(vs: seq<View>): Node? {
    if vs == [] then null else vs[0].node
  }

  ghost function Region(v: View): set<object>
    decreases v
  {
    {v.node} + TextBlock(v.text) + TextBlock(v.name) + RegionOf(v.kids)
  }

  ghost function RegionOf(vs: seq<View>): set<object>
    decreases vs
  {
    if vs == [] then {} else Region(vs[0]) + RegionOf(vs[1..])
  }

  /** The heap looks like this from the item down. */
  ghost predicate Shows(v: View)
    reads Region(v)
    decreases v
  {
    && v.node.kind == v.kind && v.node.isReference == v.isReference && v.node.stringIsConst == v.stringIsConst
    && v.node.valueint == v.i && v.node.valuedouble == v.d
    && ShowsText(v.node.valuestring, v.text) && ShowsText(v.node.name, v.name)
    && v.node.child == HeadNode(v.kids) && ShowsList(v.kids)
  }

  /** A list of siblings, linked by `next`. */
  ghost predicate ShowsList(vs: seq<View>)
    reads RegionOf(vs)
    decreases vs
  {
    vs == [] || (Shows(vs[0]) && vs[0].node.next == HeadNode(vs[1..]) && ShowsList(vs[1..]))
  }

  /** What is at an address is determined by the heap. */
  lemma {:induction false} OneView(x: View, y: View)
    requires Shows(x) && Shows(y) && x.node == y.node
    ensures x == y
    decreases x
  {
    hide ShowsList;
    OneList(x.kids, y.kids);
  }

  lemma {:induction false} OneList(xs: seq<View>, ys: seq<View>)
    requires ShowsList(xs) && ShowsList(ys) && HeadNode(xs) == HeadNode(ys)
    ensures xs == ys
    decreases xs
  {
    hide Shows;
    if xs != [] {
      OneView(xs[0], ys[0]);
      OneList(xs[1..], ys[1..]);
      assert xs == [xs[0]] + xs[1..] && ys == [ys[0]] + ys[1..];
    }
  }

  lemma {:induction false} ShowsAt(vs: seq<View>, i: nat)
    requires ShowsList(vs) && i < |vs|
    ensures Shows(vs[i]) && vs[i].node.next == HeadNode(vs[i + 1..]) && ShowsList(vs[i + 1..])
    decreases vs
  {
    hide Shows;
    if i > 0 {
      ShowsAt(vs[1..], i - 1);
      assert vs[1..][i..] == vs[i + 1..];
    }
  }

  lemma {:induction false} RegionAt(vs: seq<View>, i: nat)
    requires i < |vs|
    ensures Region(vs[i]) <= RegionOf(vs)
    decreases vs
  {
    if i > 0 {
      RegionAt(vs[1..], i - 1);
    }
  }

  lemma {:induction false} RegionAllocated(v: View)
    ensures forall o {:trigger o in Region(v)} :: o in Region(v) ==> allocated(o)
    decreases v
  {
    RegionsAllocated(v.kids);
  }

  lemma {:induction false} RegionsAllocated(vs: seq<View>)
    ensures forall o {:trigger o in RegionOf(vs)} :: o in RegionOf(vs) ==> allocated(o)
    decreases vs
  {
    if vs != [] {
      RegionAllocated(vs[0]);
      RegionsAllocated(vs[1..]);
    }
  }

  /** How many items there are in a tree. */
  ghost function Weight(v: View): (n: nat)
    ensures n > 0
    decreases v
  {
    1 + WeightOf(v.kids)
  }

  ghost function WeightOf(vs: seq<View>): nat
    decreases vs
  {
    if vs == [] then 0 else Weight(vs[0]) + WeightOf(vs[1..])
  }

  lemma {:induction false} WeightAt(vs: seq<View>, i: nat)
    requires i < |vs|
    ensures Weight(vs[i]) <= WeightOf(vs)
    decreases vs
  {
    if i > 0 {
      WeightAt(vs[1..], i - 1);
    }
  }

  /** The same content at other addresses; whether an item is a reference, and who owns its name, do not matter. */
  ghost predicate SameContent(x: View, y: View)
    decreases x
  {
    && x.kind == y.kind && x.i == y.i && x.d == y.d
    && SameChars(x.text, y.text) && SameChars(x.name, y.name) && SameContents(x.kids, y.kids)
  }

  ghost predicate SameContents(xs: seq<View>, ys: seq<View>)
    decreases xs
  {
    |xs| == |ys| && (xs == [] || (SameContent(xs[0], ys[0]) && SameContents(xs[1..], ys[1..])))
  }

  ghost predicate SameChars(s: Text, t: Text) {
    s.Present? == t.Present? && (s.Present? ==> s.chars == t.chars)
  }

  lemma {:induction false} SameContentAt(xs: seq<View>, ys: seq<View>, i: nat)
    requires SameContents(xs, ys) && i < |xs|
    ensures SameContent(xs[i], ys[i])
    decreases xs
  {
    if i > 0 {
      SameContentAt(xs[1..], ys[1..], i - 1);
    }
  }

  /** One child of an item that is shown. */
  lemma {:induction false} Kid(x: View, i: nat)
    requires Shows(x) && i < |x.kids|
    ensures Shows(x.kids[i]) && x.kids[i].node.next == HeadNode(x.kids[i + 1..])
    ensures HeadNode(x.kids[i..]) == x.kids[i].node && Weight(x.kids[i]) < Weight(x)
  {
    ShowsAt(x.kids, i);
    WeightAt(x.kids, i);
  }

  lemma FirstKid(x: View)
    requires Shows(x)
    ensures x.node.child == HeadNode(x.kids[0..]) && x.kids[0..] == x.kids
  {
  }
}

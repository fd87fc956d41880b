/** What cJSON_Compare amounts to: it is symmetric, it is equality of objects as maps when keys are distinct,
    and exactly which trees compare equal to a copy of themselves. */
module CompareLaws {
  import opened Bytes
  import opened Json
  import opened Nodes
  import opened Views
  import opened Compare

  // ----- symmetry

  lemma {:induction false} CloseSymmetric(a: real, b: real)
    ensures CompareDouble(a, b) == CompareDouble(b, a)
  {
    CompareDoubleIsClose(a, b);
    CompareDoubleIsClose(b, a);
  }

  /** On any two trees, whatever their kinds, names and addresses. */
  lemma {:induction false} EqualSymmetric(x: View, y: View, caseSensitive: bool)
    ensures Equal(x, y, caseSensitive) == Equal(y, x, caseSensitive)
    decreases Weight(x) + Weight(y)
  {
    hide Find, CompareDouble, MembersFound;
    CloseSymmetric(x.d, y.d);
    if |x.kids| == |y.kids| {
      forall i | 0 <= i < |x.kids|
        ensures Equal(x.kids[i], y.kids[i], caseSensitive) == Equal(y.kids[i], x.kids[i], caseSensitive)
      {
        WeightAt(x.kids, i);
        WeightAt(y.kids, i);
        EqualSymmetric(x.kids[i], y.kids[i], caseSensitive);
      }
    }
  }

  /** An item equals itself exactly if its kind is valid, whatever is missing in it. */
  lemma {:induction false} EqualSelf(x: View, caseSensitive: bool)
    ensures Equal(x, x, caseSensitive) <==> x.kind != KInvalid
  {
  }

  // ----- the meaning on well-formed trees

  /** Kinds are valid, strings are there, and the members of every object have distinct names. */
  ghost predicate Proper(x: View)
    decreases x
  {
    && x.kind != KInvalid && (x.kind == KString || x.kind == KRaw ==> x.text.Present?)
    && (x.kind == KArray || x.kind == KObject ==> forall i :: 0 <= i < |x.kids| ==> Proper(x.kids[i]))
    && (x.kind == KObject ==> Named(x.kids) && DistinctNames(x.kids))
  }

  ghost predicate Named(vs: seq<View>) {
    forall i :: 0 <= i < |vs| ==> vs[i].name.Present?
  }

  ghost predicate DistinctNames(vs: seq<View>)
    requires Named(vs)
  {
    forall i, j :: 0 <= i < j < |vs| ==> vs[i].name.chars != vs[j].name.chars
  }

  ghost function Names(vs: seq<View>): set<cstring>
    requires Named(vs)
  {
    set i | 0 <= i < |vs| :: vs[i].name.chars
  }

  /** Arrays match element by element, objects as maps from names to values; addresses do not matter. */
  ghost predicate Match(x: View, y: View)
    requires Proper(x) && Proper(y)
    decreases x
  {
    && x.kind == y.kind
    && match x.kind
       case KNumber => Close(x.d, y.d)
       case KString => x.text.chars == y.text.chars
       case KRaw => x.text.chars == y.text.chars
       case KArray => |x.kids| == |y.kids| && forall i :: 0 <= i < |x.kids| ==> Match(x.kids[i], y.kids[i])
       case KObject =>
         && Names(x.kids) == Names(y.kids)
         && forall i, j :: 0 <= i < |x.kids| && 0 <= j < |y.kids| && x.kids[i].name.chars == y.kids[j].name.chars ==>
              Match(x.kids[i], y.kids[j])
       case _ => true
  }

  lemma {:induction false} CloseSelf(d: real)
    ensures CompareDouble(d, d) && Close(d, d)
  {
    CompareDoubleIsClose(d, d);
  }

  lemma {:induction false} MatchSelf(x: View)
    requires Proper(x)
    ensures Match(x, x)
    decreases x
  {
    hide CompareDouble, Close;
    CloseSelf(x.d);
    if x.kind == KArray || x.kind == KObject {
      forall i | 0 <= i < |x.kids| ensures Match(x.kids[i], x.kids[i]) {
        MatchSelf(x.kids[i]);
      }
    }
  }

  /** The search finds the first member of the name; among named members it misses none. */
  lemma {:induction false} FindFirst(vs: seq<View>, from: nat, name: cstring, caseSensitive: bool)
    requires Named(vs) && from <= |vs|
    ensures var r := FindFrom(vs, from, name, caseSensitive);
      && (r < |vs| ==> SameName(name, vs[r].name.chars, caseSensitive))
      && forall k :: from <= k < r ==> !SameName(name, vs[k].name.chars, caseSensitive)
    decreases |vs| - from
  {
    hide SameName;
    if from < |vs| && !SameName(name, vs[from].name.chars, caseSensitive) {
      FindFirst(vs, from + 1, name, caseSensitive);
    }
  }

  /** With distinct names the search finds the member of the name, if there is one. */
  lemma {:induction false} FindOnly(vs: seq<View>, name: cstring, j: nat)
    requires Named(vs) && DistinctNames(vs) && j < |vs| && vs[j].name.chars == name
    ensures FindFrom(vs, 0, name, true) == j
  {
    FindFirst(vs, 0, name, true);
  }

  lemma {:induction false} FindNone(vs: seq<View>, name: cstring)
    requires Named(vs)
    ensures name in Names(vs) <==> FindFrom(vs, 0, name, true) < |vs|
    ensures FindFrom(vs, 0, name, true) < |vs| ==> vs[FindFrom(vs, 0, name, true)].name.chars == name
  {
    FindFirst(vs, 0, name, true);
    var r := FindFrom(vs, 0, name, true);
    if r < |vs| {
      assert vs[r].name.chars in Names(vs);
    }
  }

  /** On two trees in memory whose objects have distinct names, cJSON_Compare decides whether they match. */
  lemma {:induction false} CompareMeansMatch(x: View, y: View)
    requires Shows(x) && Shows(y) && Proper(x) && Proper(y)
    ensures Equal(x, y, true) <==> Match(x, y)
    decreases Weight(x) + Weight(y)
  {
    hide Find, FindFrom, CompareDouble, ElementsEqual, MembersFound, Shows, ShowsList, Names, Named, DistinctNames;
    hide Close;
    CompareDoubleIsClose(x.d, y.d);
    if x.node == y.node {
      OneView(x, y);
      MatchSelf(x);
    } else if x.kind == KArray && y.kind == KArray {
      ArraysMatch(x, y);
    } else if x.kind == KObject && y.kind == KObject {
      ObjectsMatch(x, y);
    }
  }

  lemma {:induction false} ArraysMatch(x: View, y: View)
    requires Shows(x) && Shows(y) && Proper(x) && Proper(y) && x.kind == KArray && y.kind == KArray
    ensures ElementsEqual(x.kids, y.kids, true) <==> Match(x, y)
    decreases Weight(x) + Weight(y), 0
  {
    hide Equal, Shows, ShowsList;
    if |x.kids| == |y.kids| {
      forall i | 0 <= i < |x.kids| ensures Equal(x.kids[i], y.kids[i], true) <==> Match(x.kids[i], y.kids[i]) {
        Kid(x, i);
        Kid(y, i);
        CompareMeansMatch(x.kids[i], y.kids[i]);
      }
    }
  }

  lemma {:induction false} ObjectsMatch(x: View, y: View)
    requires Shows(x) && Shows(y) && Proper(x) && Proper(y) && x.kind == KObject && y.kind == KObject
    ensures MembersFound(x.kids, y.kids, true) && MembersFound(y.kids, x.kids, true) <==> Match(x, y)
    decreases Weight(x) + Weight(y), 0
  {
    hide Equal, Shows, ShowsList, FindFrom;
    forall i, j | 0 <= i < |x.kids| && 0 <= j < |y.kids|
      ensures Equal(x.kids[i], y.kids[j], true) <==> Match(x.kids[i], y.kids[j])
      ensures Equal(y.kids[j], x.kids[i], true) <==> Match(x.kids[i], y.kids[j])
    {
      Kid(x, i);
      Kid(y, j);
      CompareMeansMatch(x.kids[i], y.kids[j]);
      EqualSymmetric(x.kids[i], y.kids[j], true);
    }
    FoundMatches(x, y);
    FoundMatches(y, x);
  }

  /** One of the two loops: every name of `x` occurs in `y`, with an equal value. */
  lemma {:induction false} FoundMatches(x: View, y: View)
    requires Named(x.kids) && Named(y.kids) && DistinctNames(y.kids)
    ensures MembersFound(x.kids, y.kids, true) <==>
      && Names(x.kids) <= Names(y.kids)
      && forall i, j :: 0 <= i < |x.kids| && 0 <= j < |y.kids| && x.kids[i].name.chars == y.kids[j].name.chars ==>
           Equal(x.kids[i], y.kids[j], true)
  {
    hide Equal, FindFrom;
    forall i | 0 <= i < |x.kids| ensures x.kids[i].name.chars in Names(x.kids) {
    }
    forall i | 0 <= i < |x.kids|
      ensures var j := Find(y.kids, x.kids[i].name, true);
        && (x.kids[i].name.chars in Names(y.kids) <==> j < |y.kids|)
        && (j < |y.kids| ==> y.kids[j].name.chars == x.kids[i].name.chars)
    {
      FindNone(y.kids, x.kids[i].name.chars);
    }
    forall i, j | 0 <= i < |x.kids| && 0 <= j < |y.kids| && x.kids[i].name.chars == y.kids[j].name.chars
      ensures Find(y.kids, x.kids[i].name, true) == j
    {
      FindOnly(y.kids, x.kids[i].name.chars, j);
    }
  }

  // ----- copies

  ghost function NodesIn(v: View): set<Node>
    decreases v
  {
    {v.node} + NodesInAll(v.kids)
  }

  ghost function NodesInAll(vs: seq<View>): set<Node>
    decreases vs
  {
    if vs == [] then {} else NodesIn(vs[0]) + NodesInAll(vs[1..])
  }

  /** No item occurs twice. */
  ghost predicate Unshared(v: View)
    decreases v
  {
    v.node !in NodesInAll(v.kids) && UnsharedAll(v.kids)
  }

  ghost predicate UnsharedAll(vs: seq<View>)
    decreases vs
  {
    vs == [] || (Unshared(vs[0]) && UnsharedAll(vs[1..]) && NodesIn(vs[0]) !! NodesInAll(vs[1..]))
  }

  lemma {:induction false} NodesInAt(vs: seq<View>, i: nat)
    requires i < |vs|
    ensures NodesIn(vs[i]) <= NodesInAll(vs) && vs[i].node in NodesIn(vs[i])
    decreases vs
  {
    if i > 0 {
      NodesInAt(vs[1..], i - 1);
    }
  }

  lemma {:induction false} UnsharedAt(vs: seq<View>, i: nat, j: nat)
    requires UnsharedAll(vs) && i < |vs| && j < |vs|
    ensures Unshared(vs[i]) && (i != j ==> NodesIn(vs[i]) !! NodesIn(vs[j]))
    decreases vs
  {
    hide Unshared, NodesIn;
    if i == 0 && j > 0 {
      NodesInAt(vs[1..], j - 1);
    } else if i > 0 && j == 0 {
      NodesInAt(vs[1..], i - 1);
      UnsharedAt(vs[1..], i - 1, i - 1);
    } else if i > 0 {
      UnsharedAt(vs[1..], i - 1, j - 1);
    }
  }

  /** The search only looks at names. */
  lemma {:induction false} FindInCopy(xs: seq<View>, ys: seq<View>, from: nat, name: cstring, caseSensitive: bool)
    requires SameContents(xs, ys) && from <= |xs|
    ensures FindFrom(xs, from, name, caseSensitive) == FindFrom(ys, from, name, caseSensitive)
    decreases |xs| - from
  {
    hide SameName;
    if from < |xs| {
      SameContentAt(xs, ys, from);
      FindInCopy(xs, ys, from + 1, name, caseSensitive);
    }
  }

  lemma {:induction false} FindCopied(xs: seq<View>, ys: seq<View>, name: Text, name': Text, caseSensitive: bool)
    requires SameContents(xs, ys) && SameChars(name, name')
    ensures Find(xs, name, caseSensitive) == Find(ys, name', caseSensitive)
  {
    if name.Present? {
      FindInCopy(xs, ys, 0, name.chars, caseSensitive);
    }
  }

  /** A tree whose objects have distinct names compares equal to every copy of it. */
  lemma {:induction false} CopyOfProper(x: View, y: View)
    requires Proper(x) && SameContent(x, y)
    ensures Equal(x, y, true) && Equal(y, x, true)
    decreases x
  {
    hide CompareDouble, Find, FindFrom, ElementsEqual, MembersFound;
    CloseSelf(x.d);
    if x.kind == KArray || x.kind == KObject {
      forall i | 0 <= i < |x.kids|
        ensures Equal(x.kids[i], y.kids[i], true) && Equal(y.kids[i], x.kids[i], true)
      {
        SameContentAt(x.kids, y.kids, i);
        CopyOfProper(x.kids[i], y.kids[i]);
      }
      if x.kind == KArray {
        ElementsFromPairs(x.kids, y.kids);
      } else {
        MembersFromPairs(x.kids, y.kids);
      }
    }
  }

  lemma ElementsFromPairs(xs: seq<View>, ys: seq<View>)
    requires |xs| == |ys|
    requires forall i :: 0 <= i < |xs| ==> Equal(xs[i], ys[i], true) && Equal(ys[i], xs[i], true)
    ensures ElementsEqual(xs, ys, true) && ElementsEqual(ys, xs, true)
  {
    hide Equal;
  }

  lemma {:induction false} MembersFromPairs(xs: seq<View>, ys: seq<View>)
    requires SameContents(xs, ys) && Named(xs) && DistinctNames(xs)
    requires forall i :: 0 <= i < |xs| ==> Equal(xs[i], ys[i], true) && Equal(ys[i], xs[i], true)
    ensures MembersFound(xs, ys, true) && MembersFound(ys, xs, true)
  {
    hide Equal, FindFrom;
    forall i | 0 <= i < |xs|
      ensures Find(ys, xs[i].name, true) == i && Find(xs, ys[i].name, true) == i
    {
      SameContentAt(xs, ys, i);
      FindOnly(xs, xs[i].name.chars, i);
      FindCopied(xs, ys, xs[i].name, xs[i].name, true);
    }
  }

  /** Which trees equal their copies: valid kinds, strings and names present, and every member that is not
      the first of its name compares equal to the first. */
  ghost predicate Fit(x: View, caseSensitive: bool)
    decreases x
  {
    && x.kind != KInvalid && (x.kind == KString || x.kind == KRaw ==> x.text.Present?)
    && (x.kind == KArray ==> forall i :: 0 <= i < |x.kids| ==> Fit(x.kids[i], caseSensitive))
    && (x.kind == KObject ==> FitMembers(x.kids, caseSensitive))
  }

  ghost predicate FitMembers(vs: seq<View>, caseSensitive: bool)
    decreases vs
  {
    forall i :: 0 <= i < |vs| ==>
      var j := Find(vs, vs[i].name, caseSensitive);
      j < |vs| && if j == i then Fit(vs[i], caseSensitive) else Equal(vs[i], vs[j], caseSensitive)
  }

  /** Comparing with a copy is comparing with the original, where neither shares an item with the other side. */
  lemma {:induction false} EqualToCopy(u: View, v: View, w: View, caseSensitive: bool)
    requires SameContent(v, w) && NodesIn(u) !! NodesIn(v) && NodesIn(u) !! NodesIn(w)
    ensures Equal(u, v, caseSensitive) == Equal(u, w, caseSensitive)
    ensures Equal(v, u, caseSensitive) == Equal(w, u, caseSensitive)
    decreases u, 1
  {
    hide CompareDouble, Find, NodesInAll, ElementsEqual, MembersFound, SameContents;
    if (u.kind == KArray || u.kind == KObject) && u.kind == v.kind {
      KidsToCopy(u.kids, v.kids, w.kids, caseSensitive);
    }
    EqualSymmetric(u, v, caseSensitive);
    EqualSymmetric(u, w, caseSensitive);
  }

  lemma {:induction false} KidsToCopy(us: seq<View>, vs: seq<View>, ws: seq<View>, caseSensitive: bool)
    requires SameContents(vs, ws) && NodesInAll(us) !! NodesInAll(vs) && NodesInAll(us) !! NodesInAll(ws)
    ensures ElementsEqual(us, vs, caseSensitive) == ElementsEqual(us, ws, caseSensitive)
    ensures MembersFound(us, vs, caseSensitive) == MembersFound(us, ws, caseSensitive)
    ensures MembersFound(vs, us, caseSensitive) == MembersFound(ws, us, caseSensitive)
    decreases us, 0
  {
    hide Equal, Find, NodesIn, NodesInAll, SameContent;
    forall i, j | 0 <= i < |us| && 0 <= j < |vs|
      ensures Equal(us[i], vs[j], caseSensitive) == Equal(us[i], ws[j], caseSensitive)
      ensures Equal(vs[j], us[i], caseSensitive) == Equal(ws[j], us[i], caseSensitive)
    {
      NodesInAt(us, i);
      NodesInAt(vs, j);
      NodesInAt(ws, j);
      SameContentAt(vs, ws, j);
      EqualToCopy(us[i], vs[j], ws[j], caseSensitive);
    }
    forall i | 0 <= i < |us|
      ensures Find(vs, us[i].name, caseSensitive) == Find(ws, us[i].name, caseSensitive)
    {
      FindCopied(vs, ws, us[i].name, us[i].name, caseSensitive);
    }
    forall j | 0 <= j < |vs|
      ensures Find(us, vs[j].name, caseSensitive) == Find(us, ws[j].name, caseSensitive)
    {
      SameContentAt(vs, ws, j);
      SameFound(us, vs[j], ws[j], caseSensitive);
    }
  }

  lemma {:induction false} SameFound(us: seq<View>, v: View, w: View, caseSensitive: bool)
    requires SameContent(v, w)
    ensures Find(us, v.name, caseSensitive) == Find(us, w.name, caseSensitive)
  {
  }

  /** A tree without shared items compares equal to a copy at other addresses exactly if it is fit. */
  lemma {:induction false} CopyEqualIff(x: View, y: View, caseSensitive: bool)
    requires SameContent(x, y) && Unshared(x) && NodesIn(x) !! NodesIn(y)
    ensures Equal(x, y, caseSensitive) <==> Fit(x, caseSensitive)
    decreases x, 1
  {
    hide CompareDouble, Find, NodesInAll, ElementsEqual, MembersFound, FitMembers, UnsharedAll;
    CloseSelf(x.d);
    if x.kind == KArray {
      ElementsFit(x.kids, y.kids, caseSensitive);
    } else if x.kind == KObject {
      MembersFit(x.kids, y.kids, caseSensitive);
    }
  }

  lemma {:induction false} ElementsFit(xs: seq<View>, ys: seq<View>, caseSensitive: bool)
    requires SameContents(xs, ys) && UnsharedAll(xs) && NodesInAll(xs) !! NodesInAll(ys)
    ensures ElementsEqual(xs, ys, caseSensitive) <==> forall i :: 0 <= i < |xs| ==> Fit(xs[i], caseSensitive)
    decreases xs, 0
  {
    hide Equal, Fit, NodesIn, NodesInAll, SameContent, Unshared, UnsharedAll;
    forall i | 0 <= i < |xs| ensures Equal(xs[i], ys[i], caseSensitive) <==> Fit(xs[i], caseSensitive) {
      NodesInAt(xs, i);
      NodesInAt(ys, i);
      SameContentAt(xs, ys, i);
      UnsharedAt(xs, i, i);
      CopyEqualIff(xs[i], ys[i], caseSensitive);
    }
  }

  lemma {:induction false} MembersFit(xs: seq<View>, ys: seq<View>, caseSensitive: bool)
    requires SameContents(xs, ys) && UnsharedAll(xs) && NodesInAll(xs) !! NodesInAll(ys)
    ensures MembersFound(xs, ys, caseSensitive) && MembersFound(ys, xs, caseSensitive)
      <==> FitMembers(xs, caseSensitive)
    decreases xs, 1
  {
    hide Equal, Fit, Find, NodesIn, NodesInAll, SameContent, SameContents, Unshared, UnsharedAll;
    SameLength(xs, ys);
    forall i | 0 <= i < |xs|
      ensures var j := Find(xs, xs[i].name, caseSensitive);
        && Find(ys, xs[i].name, caseSensitive) == j && Find(xs, ys[i].name, caseSensitive) == j
        && (j < |xs| ==>
              && Equal(ys[i], xs[j], caseSensitive) == Equal(xs[i], ys[j], caseSensitive)
              && (Equal(xs[i], ys[j], caseSensitive) <==>
                    if i == j then Fit(xs[i], caseSensitive) else Equal(xs[i], xs[j], caseSensitive)))
    {
      var j := Find(xs, xs[i].name, caseSensitive);
      SameContentAt(xs, ys, i);
      FindCopied(xs, ys, xs[i].name, xs[i].name, caseSensitive);
      SameFound(xs, xs[i], ys[i], caseSensitive);
      if j < |xs| {
        MemberFit(xs, ys, i, j, caseSensitive);
      }
    }
  }

  lemma {:induction false} MemberFit(xs: seq<View>, ys: seq<View>, i: nat, j: nat, caseSensitive: bool)
    requires SameContents(xs, ys) && UnsharedAll(xs) && NodesInAll(xs) !! NodesInAll(ys) && i < |xs| && j < |xs|
    ensures Equal(ys[i], xs[j], caseSensitive) == Equal(xs[i], ys[j], caseSensitive)
    ensures Equal(xs[i], ys[j], caseSensitive) <==>
      if i == j then Fit(xs[i], caseSensitive) else Equal(xs[i], xs[j], caseSensitive)
    decreases xs, 0
  {
    hide Equal, Fit, NodesIn, NodesInAll, SameContent, SameContents, Unshared, UnsharedAll;
    NodesInAt(xs, i);
    NodesInAt(xs, j);
    SameLength(xs, ys);
    NodesInAt(ys, i);
    NodesInAt(ys, j);
    SameContentAt(xs, ys, i);
    SameContentAt(xs, ys, j);
    UnsharedAt(xs, i, j);
    EqualSymmetric(ys[i], xs[j], caseSensitive);
    if i == j {
      CopyEqualIff(xs[i], ys[i], caseSensitive);
    } else {
      EqualToCopy(xs[i], xs[j], ys[j], caseSensitive);
      UnsharedAt(xs, j, i);
      EqualToCopy(xs[j], xs[i], ys[i], caseSensitive);
      EqualSymmetric(xs[i], xs[j], caseSensitive);
    }
  }

  lemma SameLength(xs: seq<View>, ys: seq<View>)
    requires SameContents(xs, ys)
    ensures |xs| == |ys|
  {
  }

  ghost function Scalar(n: Node, kind: Kind, name: Text): View {
    View(n, kind, false, false, 0, 0.0, Absent, name, [])
  }

  /** {"a": null, "a": true} differs from its copy: the second member is compared with the first. */
  lemma DuplicateNamesDiffer(nodes: seq<Node>, a: array<byte>)
    requires |nodes| == 6 && forall i, j :: 0 <= i < j < 6 ==> nodes[i] != nodes[j]
    ensures var name := Present(a, [97]);
      var x := View(nodes[0], KObject, false, false, 0, 0.0, Absent, Absent,
        [Scalar(nodes[1], KNull, name), Scalar(nodes[2], KTrue, name)]);
      var y := View(nodes[3], KObject, false, false, 0, 0.0, Absent, Absent,
        [Scalar(nodes[4], KNull, name), Scalar(nodes[5], KTrue, name)]);
      SameContent(x, y) && !Equal(x, y, true) && !Equal(x, y, false)
  {
    var name := Present(a, [97]);
    var x1, x2 := Scalar(nodes[1], KNull, name), Scalar(nodes[2], KTrue, name);
    var y1, y2 := Scalar(nodes[4], KNull, name), Scalar(nodes[5], KTrue, name);
    assert [x1, x2][1..] == [x2] && [y1, y2][1..] == [y2];
    assert [x2][1..] == [] && [y2][1..] == [];
    assert SameContent(x1, y1) && SameContent(x2, y2) && SameContents([x2], [y2]);
    assert SameContents([x1, x2], [y1, y2]);
    assert FindFrom([y1, y2], 0, name.chars, true) == 0 && FindFrom([y1, y2], 0, name.chars, false) == 0;
    assert !Equal([x1, x2][1], [y1, y2][0], true) && !Equal([x1, x2][1], [y1, y2][0], false);
  }
}

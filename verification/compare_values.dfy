/** cJSON_Compare on trees that hold JSON values. */
module CompareValues {
  import opened Bytes
  import opened Json
  import opened Nodes
  import opened TreeValue
  import opened Views
  import opened Compare
  import opened CompareLaws
  import opened TreeViews

  // ----- equality of values

  ghost predicate DistinctKeys(v: Value)
    decreases v
  {
    match v
    case Array(items) => forall i :: 0 <= i < |items| ==> DistinctKeys(items[i])
    case Object(members) =>
      && (forall i :: 0 <= i < |members| ==> DistinctKeys(members[i].value))
      && (forall i, j :: 0 <= i < j < |members| ==> members[i].key != members[j].key)
    case _ => true
  }

  ghost function Keys(members: seq<Member>): set<cstring> {
    set i | 0 <= i < |members| :: members[i].key
  }

  /** Numbers agree up to rounding, arrays element by element, objects as maps from keys to values. */
  ghost predicate SameValue(v: Value, w: Value)
    decreases v
  {
    match (v, w)
    case (Null, Null) => true
    case (False, False) => true
    case (True, True) => true
    case (Number(d, _), Number(e, _)) => Close(d, e)
    case (String(s), String(t)) => s == t
    case (Raw(s), Raw(t)) => s == t
    case (Array(xs), Array(ys)) => |xs| == |ys| && forall i :: 0 <= i < |xs| ==> SameValue(xs[i], ys[i])
    case (Object(ms), Object(ns)) =>
      && Keys(ms) == Keys(ns)
      && forall i, j :: 0 <= i < |ms| && 0 <= j < |ns| && ms[i].key == ns[j].key ==>
           SameValue(ms[i].value, ns[j].value)
    case _ => false
  }

  lemma {:induction false} SameValueSelf(v: Value)
    requires DistinctKeys(v) && Known(v)
    ensures SameValue(v, v)
    decreases v
  {
    hide Close;
    match v
    case Number(d, _) => CloseSelf(d);
    case Array(items) =>
      forall i | 0 <= i < |items| ensures SameValue(items[i], items[i]) {
        SameValueSelf(items[i]);
      }
    case Object(members) =>
      forall i | 0 <= i < |members| ensures SameValue(members[i].value, members[i].value) {
        SameValueSelf(members[i].value);
      }
    case _ =>
  }

  /** Nothing in the value is invalid. */
  ghost predicate Known(v: Value)
    decreases v
  {
    match v
    case Array(items) => forall i :: 0 <= i < |items| ==> Known(items[i])
    case Object(members) => forall i :: 0 <= i < |members| ==> Known(members[i].value)
    case Invalid => false
    case _ => true
  }

  // ----- snapshots of trees that can be read as values

  /** A missing string reads like the empty one. */
  ghost function Chars(t: Text): cstring {
    if t.Absent? then [] else t.chars
  }

  /** The snapshot denotes the value. */
  ghost predicate Means(x: View, v: Value)
    decreases v
  {
    match v
    case Null => x.kind == KNull
    case False => x.kind == KFalse
    case True => x.kind == KTrue
    case Number(d, i) => x.kind == KNumber && x.d == d && x.i == i
    case String(s) => x.kind == KString && Chars(x.text) == s
    case Array(items) =>
      x.kind == KArray && |x.kids| == |items| && forall i :: 0 <= i < |items| ==> Means(x.kids[i], items[i])
    case Object(members) =>
      && x.kind == KObject && |x.kids| == |members|
      && forall i :: 0 <= i < |members| ==> MeansMember(x.kids[i], members[i])
    case Raw(s) => x.kind == KRaw && x.text.Present? && x.text.chars == s
    case Invalid => x.kind == KInvalid || (x.kind == KRaw && x.text.Absent?)
  }

  ghost predicate MeansMember(x: View, m: Member)
    decreases m
  {
    Chars(x.name) == m.key && Means(x, m.value)
  }

  /** The snapshot of a tree denotes what the tree can be read as. */
  lemma {:induction false} ViewMeans(t: Tree, v: Value)
    requires Carries(t, v)
    ensures Means(ViewOf(t), v)
    decreases t
  {
    hide CarriesItems, CarriesMembers, ViewsOf, Means, MeansMember, Chained, CStr;
    match v {
      case Array(items) => ItemsMean(t.kids, items);
      case Object(members) => MembersMean(t.kids, members);
      case _ =>
    }
    MeansKids(ViewOf(t), v);
  }

  /** What a snapshot means is settled by its kind, its scalar fields and its children. */
  lemma MeansKids(x: View, v: Value)
    requires match v
      case Null => x.kind == KNull
      case False => x.kind == KFalse
      case True => x.kind == KTrue
      case Number(d, i) => x.kind == KNumber && x.d == d && x.i == i
      case String(s) => x.kind == KString && Chars(x.text) == s
      case Array(items) =>
        x.kind == KArray && |x.kids| == |items| && forall i :: 0 <= i < |items| ==> Means(x.kids[i], items[i])
      case Object(members) =>
        && x.kind == KObject && |x.kids| == |members|
        && forall i :: 0 <= i < |members| ==> MeansMember(x.kids[i], members[i])
      case Raw(s) => x.kind == KRaw && x.text.Present? && x.text.chars == s
      case Invalid => x.kind == KInvalid || (x.kind == KRaw && x.text.Absent?)
    ensures Means(x, v)
  {
  }

  lemma {:induction false} ItemsMean(ts: seq<Tree>, vs: seq<Value>)
    requires CarriesItems(ts, vs)
    ensures |ViewsOf(ts)| == |ts| == |vs| && forall i :: 0 <= i < |vs| ==> Means(ViewsOf(ts)[i], vs[i])
    decreases ts
  {
    hide Carries, Means;
    if ts != [] {
      var n := |ts| - 1;
      ItemsMean(ts[..n], vs[..n]);
      ViewMeans(ts[n], vs[n]);
      assert ViewsOf(ts) == ViewsOf(ts[..n]) + [ViewOf(ts[n])];
      forall i | 0 <= i < |vs| ensures Means(ViewsOf(ts)[i], vs[i]) {
        assert i < n ==> ViewsOf(ts)[i] == ViewsOf(ts[..n])[i] && vs[i] == vs[..n][i];
      }
    }
  }

  lemma {:induction false} MembersMean(ts: seq<Tree>, ms: seq<Member>)
    requires CarriesMembers(ts, ms)
    ensures |ViewsOf(ts)| == |ts| == |ms| && forall i :: 0 <= i < |ms| ==> MeansMember(ViewsOf(ts)[i], ms[i])
    decreases ts
  {
    hide Carries, Means, CStr;
    if ts != [] {
      var n := |ts| - 1;
      MembersMean(ts[..n], ms[..n]);
      ViewMeans(ts[n], ms[n].value);
      assert ViewsOf(ts) == ViewsOf(ts[..n]) + [ViewOf(ts[n])];
      forall i | 0 <= i < |ms| ensures MeansMember(ViewsOf(ts)[i], ms[i]) {
        assert i < n ==> ViewsOf(ts)[i] == ViewsOf(ts[..n])[i] && ms[i] == ms[..n][i];
      }
    }
  }

  lemma {:induction false} MeansProper(x: View, v: Value)
    requires Means(x, v) && DistinctKeys(v) && Complete(x)
    ensures Proper(x)
    decreases v
  {
    match v
    case Array(items) =>
      forall i | 0 <= i < |items| ensures Proper(x.kids[i]) {
        MeansProper(x.kids[i], items[i]);
      }
    case Object(members) =>
      forall i | 0 <= i < |members| ensures Proper(x.kids[i]) && x.kids[i].name.chars == members[i].key {
        assert MeansMember(x.kids[i], members[i]);
        MeansProper(x.kids[i], members[i].value);
      }
    case _ =>
  }

  /** Snapshots match exactly if the values they denote are the same. */
  lemma {:induction false} MatchMeans(x: View, v: Value, y: View, w: Value)
    requires Means(x, v) && Means(y, w) && Proper(x) && Proper(y)
    ensures Match(x, y) <==> SameValue(v, w)
    decreases v
  {
    hide Close, DistinctNames;
    if v.Array? && w.Array? && |v.items| == |w.items| {
      forall i | 0 <= i < |v.items| ensures Match(x.kids[i], y.kids[i]) <==> SameValue(v.items[i], w.items[i]) {
        MatchMeans(x.kids[i], v.items[i], y.kids[i], w.items[i]);
      }
    } else if v.Object? && w.Object? {
      ObjectsMean(x, v.members, y, w.members);
    }
  }

  lemma {:induction false} ObjectsMean(x: View, ms: seq<Member>, y: View, ns: seq<Member>)
    requires Means(x, Object(ms)) && Means(y, Object(ns)) && Proper(x) && Proper(y)
    ensures Match(x, y) <==> SameValue(Object(ms), Object(ns))
    decreases ms
  {
    hide Means, Close, DistinctNames, Names, Keys;
    MembersMeant(x, ms);
    MembersMeant(y, ns);
    forall i, j | 0 <= i < |ms| && 0 <= j < |ns|
      ensures Match(x.kids[i], y.kids[j]) <==> SameValue(ms[i].value, ns[j].value)
    {
      MatchMeans(x.kids[i], ms[i].value, y.kids[j], ns[j].value);
    }
  }

  lemma {:induction false} MembersMeant(x: View, ms: seq<Member>)
    requires Means(x, Object(ms)) && Proper(x)
    ensures x.kind == KObject && |x.kids| == |ms| && Named(x.kids) && Names(x.kids) == Keys(ms)
    ensures forall i {:trigger x.kids[i]} {:trigger ms[i]} :: 0 <= i < |ms| ==>
      x.kids[i].name.chars == ms[i].key && Means(x.kids[i], ms[i].value) && Proper(x.kids[i])
  {
    hide Means;
    ObjectMeant(x, ms);
    forall k | k in Names(x.kids) ensures k in Keys(ms) {
      var i :| 0 <= i < |x.kids| && x.kids[i].name.chars == k;
      assert ms[i].key == k;
    }
    forall k | k in Keys(ms) ensures k in Names(x.kids) {
      var i :| 0 <= i < |ms| && ms[i].key == k;
      assert x.kids[i].name.chars == k;
    }
  }

  lemma ObjectMeant(x: View, ms: seq<Member>)
    requires Means(x, Object(ms)) && Proper(x)
    ensures |x.kids| == |ms| && x.kind == KObject
    ensures forall i {:trigger x.kids[i]} {:trigger ms[i]} :: 0 <= i < |ms| ==>
      x.kids[i].name.Present? && x.kids[i].name.chars == ms[i].key && Means(x.kids[i], ms[i].value)
  {
    forall i | 0 <= i < |ms|
      ensures x.kids[i].name.Present? && x.kids[i].name.chars == ms[i].key && Means(x.kids[i], ms[i].value)
    {
      assert MeansMember(x.kids[i], ms[i]);
    }
  }

  /** On two trees without duplicate keys in which nothing is missing, the comparison of their snapshots decides
      whether their values are the same; a tree in which something is missing equals nothing at other addresses. */
  lemma {:induction false} EqualMeans(t: Tree, v: Value, u: Tree, w: Value)
    requires Readable(t) && Carries(t, v) && DistinctKeys(v)
    requires Readable(u) && Carries(u, w) && DistinctKeys(w)
    ensures Complete(ViewOf(t)) && Complete(ViewOf(u)) ==> (Equal(ViewOf(t), ViewOf(u), true) <==> SameValue(v, w))
    ensures Blocks(t) !! Blocks(u) && Equal(ViewOf(t), ViewOf(u), true) ==> Complete(ViewOf(t)) && Complete(ViewOf(u))
  {
    hide Carries, Readable, Shows, Means, Proper, Match, Equal, SameValue, Complete, ViewOf, Blocks, NodesIn;
    var x, y := ViewOf(t), ViewOf(u);
    ViewShown(t);
    ViewShown(u);
    if Complete(x) && Complete(y) {
      ViewMeans(t, v);
      ViewMeans(u, w);
      MeansProper(x, v);
      MeansProper(y, w);
      MatchMeans(x, v, y, w);
      CompareMeansMatch(x, y);
    }
    if Blocks(t) !! Blocks(u) && Equal(x, y, true) {
      EqualComplete(x, y, true);
      EqualSymmetric(x, y, true);
      EqualComplete(y, x, true);
    }
  }

  /** cJSON_Compare, case-sensitively, on two trees without duplicate keys. */
  method CompareCarried(a: Node, b: Node, ghost t: Tree, ghost v: Value, ghost u: Tree, ghost w: Value)
    returns (same: bool)
    requires a == t.node && Readable(t) && Carries(t, v) && DistinctKeys(v)
    requires b == u.node && Readable(u) && Carries(u, w) && DistinctKeys(w)
    ensures Complete(ViewOf(t)) && Complete(ViewOf(u)) ==> (same <==> SameValue(v, w))
    ensures Blocks(t) !! Blocks(u) && same ==> Complete(ViewOf(t)) && Complete(ViewOf(u))
  {
    hide Carries, Readable, Shows, Equal, SameValue, Complete, ViewOf, Blocks;
    TreeAllocated(t);
    TreeAllocated(u);
    BlocksParts(t);
    BlocksParts(u);
    ViewShown(t);
    ViewShown(u);
    EqualMeans(t, v, u, w);
    same := CompareItems(a, b, true, ViewOf(t), ViewOf(u));
  }
}

/** cJSON_Compare on numbers, and on values whose numbers are all ints. */
module CompareIntegral {
  import opened Bytes
  import opened Json
  import opened Nodes
  import opened TreeValue
  import opened Views
  import opened Compare
  import opened CompareLaws
  import opened TreeViews
  import opened CompareValues
  import opened RoundTrip

  // ----- numbers

  /** Two number items are equal if and only if their values differ by at most 2^-52 of the larger magnitude. */
  lemma {:induction false} NumbersEqual(x: View, y: View, caseSensitive: bool)
    requires x.kind == KNumber && y.kind == KNumber && x.node != y.node
    ensures Equal(x, y, caseSensitive) <==>
      var difference := if x.d < y.d then y.d - x.d else x.d - y.d;
      || difference * 4503599627370496.0 <= (if x.d < 0.0 then -x.d else x.d)
      || difference * 4503599627370496.0 <= (if y.d < 0.0 then -y.d else y.d)
  {
    CompareDoubleIsClose(x.d, y.d);
  }

  /** Ints are equal only if they are the same. */
  lemma {:induction false} CloseInts(i: int32, j: int32)
    ensures Close(i as real, j as real) <==> i == j
  {
    var a, b := i as real, j as real;
    if i < j {
      assert b - a >= 1.0;
    } else if j < i {
      assert a - b >= 1.0;
    }
  }

  lemma {:induction false} IntsEqual(x: View, y: View, i: int32, j: int32, caseSensitive: bool)
    requires x.kind == KNumber && y.kind == KNumber && x.node != y.node && x.d == i as real && y.d == j as real
    ensures Equal(x, y, caseSensitive) <==> i == j
  {
    hide CompareDouble, Close;
    CompareDoubleIsClose(x.d, y.d);
    CloseInts(i, j);
  }

  // ----- values

  /** The same value, except for the order of members. */
  ghost predicate SameUpToOrder(v: Value, w: Value)
    decreases v
  {
    match (v, w)
    case (Number(_, i), Number(_, j)) => i == j
    case (Array(xs), Array(ys)) => |xs| == |ys| && forall i :: 0 <= i < |xs| ==> SameUpToOrder(xs[i], ys[i])
    case (Object(ms), Object(ns)) =>
      && |ms| == |ns|
      && forall i :: 0 <= i < |ms| ==>
           exists j :: 0 <= j < |ns| && ns[j].key == ms[i].key && SameUpToOrder(ms[i].value, ns[j].value)
    case (Number(_, _), _) => false
    case (Array(_), _) => false
    case (Object(_), _) => false
    case _ => v == w
  }

  /** As many keys as members. */
  lemma {:induction false} KeysCount(ms: seq<Member>)
    requires forall i, j :: 0 <= i < j < |ms| ==> ms[i].key != ms[j].key
    ensures |Keys(ms)| == |ms|
  {
    if ms != [] {
      var front, last := ms[..|ms| - 1], ms[|ms| - 1];
      KeysCount(front);
      assert Keys(ms) == Keys(front) + {last.key} by {
        forall k | k in Keys(ms) ensures k in Keys(front) + {last.key} {
          var i :| 0 <= i < |ms| && ms[i].key == k;
          assert i < |front| ==> front[i].key == k;
        }
        forall k | k in Keys(front) + {last.key} ensures k in Keys(ms) {
          if k in Keys(front) {
            var i :| 0 <= i < |front| && front[i].key == k;
            assert ms[i].key == k;
          } else {
            assert ms[|ms| - 1].key == k;
          }
        }
      }
      assert last.key !in Keys(front);
    }
  }

  lemma SameSize(a: set<cstring>, b: set<cstring>)
    requires a <= b && |a| == |b|
    ensures a == b
  {
    if a != b {
      var k :| k in b && k !in a;
      assert a <= b - {k};
      Smaller(a, b - {k});
    }
  }

  lemma {:induction false} Smaller(a: set<cstring>, b: set<cstring>)
    requires a <= b
    ensures |a| <= |b|
  {
    assert b == a + (b - a);
  }

  lemma {:induction false} SameKeys(ms: seq<Member>, ns: seq<Member>)
    requires forall i, j :: 0 <= i < j < |ms| ==> ms[i].key != ms[j].key
    requires forall i, j :: 0 <= i < j < |ns| ==> ns[i].key != ns[j].key
    ensures Keys(ms) == Keys(ns) <==>
      |ms| == |ns| && forall i :: 0 <= i < |ms| ==> exists j :: 0 <= j < |ns| && ns[j].key == ms[i].key
  {
    KeysCount(ms);
    KeysCount(ns);
    if |ms| == |ns| && forall i :: 0 <= i < |ms| ==> exists j :: 0 <= j < |ns| && ns[j].key == ms[i].key {
      forall k | k in Keys(ms) ensures k in Keys(ns) {
        var i :| 0 <= i < |ms| && ms[i].key == k;
        var j :| 0 <= j < |ns| && ns[j].key == ms[i].key;
      }
      SameSize(Keys(ms), Keys(ns));
    }
    if Keys(ms) == Keys(ns) {
      forall i | 0 <= i < |ms| ensures exists j :: 0 <= j < |ns| && ns[j].key == ms[i].key {
        assert ms[i].key in Keys(ns);
      }
    }
  }

  lemma {:induction false} SameIntegral(v: Value, w: Value)
    requires Integral(v) && DistinctKeys(v) && Integral(w) && DistinctKeys(w)
    ensures SameValue(v, w) <==> SameUpToOrder(v, w)
    decreases v
  {
    hide Close, Keys;
    match (v, w)
    case (Number(d, i), Number(e, j)) => CloseInts(i, j);
    case (Array(xs), Array(ys)) =>
      if |xs| == |ys| {
        forall i | 0 <= i < |xs| ensures SameValue(xs[i], ys[i]) <==> SameUpToOrder(xs[i], ys[i]) {
          IntegralItem(xs, i);
          IntegralItem(ys, i);
          SameIntegral(xs[i], ys[i]);
        }
      }
    case (Object(ms), Object(ns)) => SameMembers(ms, ns);
    case _ =>
  }

  lemma {:induction false} SameMembers(ms: seq<Member>, ns: seq<Member>)
    requires IntegralMembers(ms) && DistinctKeys(Object(ms)) && IntegralMembers(ns) && DistinctKeys(Object(ns))
    ensures SameValue(Object(ms), Object(ns)) <==> SameUpToOrder(Object(ms), Object(ns))
    decreases ms
  {
    hide Close, Keys, Integral;
    SameKeys(ms, ns);
    forall i, j | 0 <= i < |ms| && 0 <= j < |ns|
      ensures SameValue(ms[i].value, ns[j].value) <==> SameUpToOrder(ms[i].value, ns[j].value)
    {
      IntegralMember(ms, i);
      IntegralMember(ns, j);
      SameIntegral(ms[i].value, ns[j].value);
    }
  }

  lemma {:induction false} IntegralItem(items: seq<Value>, i: nat)
    requires IntegralItems(items) && i < |items|
    ensures Integral(items[i])
  {
    if i > 0 {
      IntegralItem(items[1..], i - 1);
    }
  }

  lemma {:induction false} IntegralMember(members: seq<Member>, i: nat)
    requires IntegralMembers(members) && i < |members|
    ensures Integral(members[i].value)
  {
    if i > 0 {
      IntegralMember(members[1..], i - 1);
    }
  }

  /** On trees of ints, strings, arrays and objects with distinct keys, in which nothing is missing, the case-sensitive
      comparison holds if and only if the values are the same up to the order of members. */
  lemma {:induction false} EqualIntegral(t: Tree, v: Value, u: Tree, w: Value)
    requires Readable(t) && Carries(t, v) && DistinctKeys(v) && Integral(v) && Complete(ViewOf(t))
    requires Readable(u) && Carries(u, w) && DistinctKeys(w) && Integral(w) && Complete(ViewOf(u))
    ensures Equal(ViewOf(t), ViewOf(u), true) <==> SameUpToOrder(v, w)
  {
    hide Carries, Readable, Equal, SameValue, SameUpToOrder, Complete, ViewOf, Blocks, Integral, DistinctKeys;
    EqualMeans(t, v, u, w);
    SameIntegral(v, w);
  }
}

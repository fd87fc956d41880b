/** cJSON_Compare: what it computes on any two trees, and when that is equality. */
module Compare {
  import opened Bytes
  import opened Json
  import opened Nodes
  import opened Views

  // ----- strings and numbers

  /** tolower in the C locale. */
  function Lower(b: byte): byte {
    if 65 <= b <= 90 then b + 32 else b
  }

  const UPPER_LETTERS: string := "ABCDEFGHIJKLMNOPQRSTUVWXYZ"
  const LOWER_LETTERS: string := "abcdefghijklmnopqrstuvwxyz"

  /** The same character, or the two cases of a letter. */
  ghost predicate SameLetter(b: byte, c: byte) {
    b == c || exists i :: 0 <= i < 26 && CaseOf(b, i) && CaseOf(c, i)
  }

  ghost predicate CaseOf(b: byte, i: int)
    requires 0 <= i < 26
  {
    b as int == UPPER_LETTERS[i] as int || b as int == LOWER_LETTERS[i] as int
  }

  lemma {:induction false} LetterCase(b: byte, i: int)
    requires 0 <= i < 26
    ensures CaseOf(b, i) <==> b == 65 + i || b == 97 + i
  {
    assert UPPER_LETTERS[i] as int == 65 + i && LOWER_LETTERS[i] as int == 97 + i;
  }

  /** Folding to lower case identifies exactly the two cases of each letter. */
  lemma {:induction false} LowerMeans(b: byte, c: byte)
    ensures Lower(b) == Lower(c) <==> SameLetter(b, c)
  {
    hide CaseOf;
    if Lower(b) == Lower(c) && b != c {
      var i := Lower(b) - 97;
      LetterCase(b, i);
      LetterCase(c, i);
    }
    if i :| 0 <= i < 26 && CaseOf(b, i) && CaseOf(c, i) {
      LetterCase(b, i);
      LetterCase(c, i);
    }
  }

  ghost predicate SameFolded(s: cstring, t: cstring) {
    |s| == |t| && forall i :: 0 <= i < |s| ==> SameLetter(s[i], t[i])
  }

  ghost predicate SameName(s: cstring, t: cstring, caseSensitive: bool) {
    if caseSensitive then s == t else SameFolded(s, t)
  }

  /** DBL_EPSILON is 2^-52. */
  const EPSILON: real := 1.0 / 4503599627370496.0

  function Abs(d: real): real {
    if d < 0.0 then -d else d
  }

  /** compare_double, without rounding. */
  predicate CompareDouble(a: real, b: real) {
    var maxVal := if Abs(a) > Abs(b) then Abs(a) else Abs(b);
    Abs(a - b) <= maxVal * EPSILON
  }

  /** The difference is at most 2^-52 of the larger magnitude. */
  ghost predicate Close(a: real, b: real) {
    var difference := if a < b then b - a else a - b;
    var m, n := if a < 0.0 then -a else a, if b < 0.0 then -b else b;
    difference * 4503599627370496.0 <= if m < n then n else m
  }

  lemma {:induction false} CompareDoubleIsClose(a: real, b: real)
    ensures CompareDouble(a, b) <==> Close(a, b)
  {
    var maxVal := if Abs(a) > Abs(b) then Abs(a) else Abs(b);
    assert maxVal * EPSILON == maxVal / 4503599627370496.0;
  }

  // ----- the comparison on snapshots

  /** Position of the member get_object_item returns from position `i` on, or the number of members: the
      case-sensitive search gives up at the first member without a name. */
  ghost function FindFrom(kids: seq<View>, i: nat, name: cstring, caseSensitive: bool): (r: nat)
    requires i <= |kids|
    ensures i <= r <= |kids|
    decreases |kids| - i
  {
    if i == |kids| then i
    else if kids[i].name.Absent? then if caseSensitive then |kids| else FindFrom(kids, i + 1, name, caseSensitive)
    else if SameName(name, kids[i].name.chars, caseSensitive) then i
    else FindFrom(kids, i + 1, name, caseSensitive)
  }

  ghost function Find(kids: seq<View>, name: Text, caseSensitive: bool): (r: nat)
    ensures r <= |kids|
  {
    if name.Absent? then |kids| else FindFrom(kids, 0, name.chars, caseSensitive)
  }

  /** The member looked for is the first of the name, where a case-sensitive search sees nothing behind a member
      without a name. */
  ghost predicate FirstOfName(kids: seq<View>, from: nat, k: nat, name: cstring, caseSensitive: bool)
    requires k < |kids|
  {
    && kids[k].name.Present? && SameName(name, kids[k].name.chars, caseSensitive)
    && forall j :: from <= j < k ==>
         if kids[j].name.Absent? then !caseSensitive else !SameName(name, kids[j].name.chars, caseSensitive)
  }

  lemma {:induction false} FindFromMeans(kids: seq<View>, from: nat, name: cstring, caseSensitive: bool)
    requires from <= |kids|
    ensures forall k: nat :: from <= k < |kids| ==>
      (FindFrom(kids, from, name, caseSensitive) == k <==> FirstOfName(kids, from, k, name, caseSensitive))
    decreases |kids| - from
  {
    hide SameName;
    if from < |kids| {
      FindFromMeans(kids, from + 1, name, caseSensitive);
      forall k: nat | from <= k < |kids|
        ensures FindFrom(kids, from, name, caseSensitive) == k <==> FirstOfName(kids, from, k, name, caseSensitive)
      {
        if from < k {
          assert FirstOfName(kids, from, k, name, caseSensitive) <==>
            FirstOfName(kids, from + 1, k, name, caseSensitive) &&
            if kids[from].name.Absent? then !caseSensitive else !SameName(name, kids[from].name.chars, caseSensitive);
        }
      }
    }
  }

  lemma {:induction false} FindMeans(kids: seq<View>, name: Text, caseSensitive: bool)
    ensures forall k: nat :: k < |kids| ==>
      (Find(kids, name, caseSensitive) == k <==>
        name.Present? && FirstOfName(kids, 0, k, name.chars, caseSensitive))
  {
    hide FirstOfName;
    if name.Present? {
      FindFromMeans(kids, 0, name.chars, caseSensitive);
    } else {
      assert Find(kids, name, caseSensitive) == |kids|;
    }
  }

  ghost predicate Equal(x: View, y: View, caseSensitive: bool)
    decreases Weight(x) + Weight(y), 0
  {
    && x.kind == y.kind && x.kind != KInvalid
    && (x.node == y.node ||
        match x.kind
        case KNumber => CompareDouble(x.d, y.d)
        case KString => x.text.Present? && y.text.Present? && x.text.chars == y.text.chars
        case KRaw => x.text.Present? && y.text.Present? && x.text.chars == y.text.chars
        case KArray => ElementsEqual(x.kids, y.kids, caseSensitive)
        case KObject => MembersFound(x.kids, y.kids, caseSensitive) && MembersFound(y.kids, x.kids, caseSensitive)
        case _ => true)
  }

  ghost predicate ElementsEqual(xs: seq<View>, ys: seq<View>, caseSensitive: bool)
    decreases WeightOf(xs) + WeightOf(ys), 1
  {
    && |xs| == |ys|
    && forall i :: 0 <= i < |xs| ==> (WeightAt(xs, i); WeightAt(ys, i); Equal(xs[i], ys[i], caseSensitive))
  }

  /** Every member of `xs` equals the member that is found under its name in `ys`. */
  ghost predicate MembersFound(xs: seq<View>, ys: seq<View>, caseSensitive: bool)
    decreases WeightOf(xs) + WeightOf(ys), 1
  {
    forall i :: 0 <= i < |xs| ==>
      var j := Find(ys, xs[i].name, caseSensitive);
      j < |ys| && (WeightAt(xs, i); WeightAt(ys, j); Equal(xs[i], ys[j], caseSensitive))
  }

  // ----- the methods

  /** The loop of case_insensitive_strcmp: returns whether the strings differ. */
  method CaseInsensitiveStrcmp(string1: array?<byte>, string2: array?<byte>, ghost s: Text, ghost t: Text)
    returns (differ: bool)
    requires ShowsText(string1, s) && ShowsText(string2, t)
    ensures differ <==> !(s.Present? && t.Present? && SameFolded(s.chars, t.chars))
  {
    hide CStr, SameLetter;
    if string1 == null || string2 == null {
      return true;
    }
    StringEnd(string1, s.chars);
    StringEnd(string2, t.chars);
    forall b {:trigger SameLetter(b, b)} ensures SameLetter(b, b) {
      LowerMeans(b, b);
    }
    if string1 == string2 {
      return false;
    }
    var i := 0;
    while Lower(string1[i]) == Lower(string2[i])
      invariant 0 <= i <= |s.chars| && i <= |t.chars|
      invariant forall k :: 0 <= k < i ==> SameLetter(s.chars[k], t.chars[k])
      decreases |s.chars| - i
    {
      if string1[i] == 0 {
        NulFolds(string2[i]);
        return false;
      }
      LowerMeans(string1[i], string2[i]);
      NulFolds(string1[i]);
      i := i + 1;
    }
    LowerMeans(string1[i], string2[i]);
    differ := true;
  }

  lemma NulFolds(b: byte)
    ensures Lower(b) == Lower(0) <==> b == 0
  {
  }

  /** get_object_item */
  method GetObjectItem(holder: Node?, name: array?<byte>, caseSensitive: bool, ghost x: View, ghost n: Text)
    returns (item: Node?)
    requires holder != null ==> holder == x.node && Shows(x)
    requires ShowsText(name, n)
    ensures item == if holder != null && Find(x.kids, n, caseSensitive) < |x.kids|
                    then x.kids[Find(x.kids, n, caseSensitive)].node else null
  {
    hide SameFolded, Shows, ShowsList, Region, RegionOf, NulFree, TextBlock;
    if holder == null || name == null {
      return null;
    }
    TextAllocated(n);
    RegionAllocated(x);
    FirstKid(x);
    item := holder.child;
    ghost var i := 0;
    while item != null
      invariant 0 <= i <= |x.kids| && item == HeadNode(x.kids[i..]) && Shows(x) && ShowsText(name, n)
      invariant FindFrom(x.kids, i, n.chars, caseSensitive) == Find(x.kids, n, caseSensitive)
      decreases |x.kids| - i
    {
      Kid(x, i);
      var differ := NameDiffers(item, name, caseSensitive, x.kids[i], n);
      Kid(x, i);
      if !differ {
        break;
      }
      item := item.next;
      i := i + 1;
    }
    if item == null || item.name == null {
      return null;
    }
  }

  lemma TextAllocated(t: Text)
    ensures forall o {:trigger o in TextBlock(t)} :: o in TextBlock(t) ==> allocated(o)
  {
  }

  /** The loop conditions of get_object_item: whether the search passes over a member. */
  method NameDiffers(item: Node, name: array<byte>, caseSensitive: bool, ghost v: View, ghost n: Text)
    returns (differ: bool)
    requires item == v.node && Shows(v) && ShowsText(name, n)
    ensures differ <==>
      if caseSensitive then v.name.Present? && n.chars != v.name.chars
      else v.name.Absent? || !SameFolded(n.chars, v.name.chars)
    ensures v.name.Absent? <==> item.name == null
  {
    hide SameFolded, ShowsList, Region, RegionOf, NulFree;
    if caseSensitive {
      differ := item.name != null && CStr(name[..]) != CStr(item.name[..]);
    } else {
      differ := CaseInsensitiveStrcmp(name, item.name, n, v.name);
    }
  }

  /** cJSON_Compare */
  method CompareItems(a: Node?, b: Node?, caseSensitive: bool, ghost x: View, ghost y: View) returns (same: bool)
    requires a != null ==> a == x.node && Shows(x)
    requires b != null ==> b == y.node && Shows(y)
    ensures same <==> a != null && b != null && Equal(x, y, caseSensitive)
    decreases Weight(x) + Weight(y), 2
  {
    hide FindFrom, Find, CompareDouble, ElementsEqual, MembersFound, Weight, WeightOf, Region, RegionOf, ShowsList;
    hide CStr;
    if a == null || b == null || a.kind != b.kind {
      return false;
    }
    if a.kind == KInvalid {
      return false;
    }
    if a == b {
      return true;
    }
    match a.kind
    case KNumber =>
      same := CompareDouble(a.valuedouble, b.valuedouble);
    case KString =>
      same := a.valuestring != null && b.valuestring != null && CStr(a.valuestring[..]) == CStr(b.valuestring[..]);
    case KRaw =>
      same := a.valuestring != null && b.valuestring != null && CStr(a.valuestring[..]) == CStr(b.valuestring[..]);
    case KArray =>
      same := CompareElements(a, b, caseSensitive, x, y);
    case KObject =>
      RegionAllocated(x);
      RegionAllocated(y);
      same := EachFound(a, b, caseSensitive, x, y);
      if same {
        same := EachFound(b, a, caseSensitive, y, x);
      }
    case _ =>
      same := true;
  }

  /** The loop over two arrays. */
  method CompareElements(a: Node, b: Node, caseSensitive: bool, ghost x: View, ghost y: View) returns (same: bool)
    requires a == x.node && Shows(x) && b == y.node && Shows(y)
    ensures same <==> ElementsEqual(x.kids, y.kids, caseSensitive)
    decreases Weight(x) + Weight(y), 1
  {
    hide Equal, Shows, ShowsList, Region, RegionOf, Weight, WeightOf;
    RegionAllocated(x);
    RegionAllocated(y);
    FirstKid(x);
    FirstKid(y);
    var aElement, bElement := a.child, b.child;
    ghost var i := 0;
    while aElement != null && bElement != null
      invariant 0 <= i <= |x.kids| && aElement == HeadNode(x.kids[i..]) && Shows(x)
      invariant i <= |y.kids| && bElement == HeadNode(y.kids[i..]) && Shows(y)
      invariant forall k :: 0 <= k < i ==> Equal(x.kids[k], y.kids[k], caseSensitive)
      decreases |x.kids| - i
    {
      Kid(x, i);
      Kid(y, i);
      same := CompareItems(aElement, bElement, caseSensitive, x.kids[i], y.kids[i]);
      if !same {
        return;
      }
      Kid(x, i);
      Kid(y, i);
      aElement, bElement := aElement.next, bElement.next;
      i := i + 1;
    }
    same := aElement == bElement;
  }

  /** One of the two loops over the members of an object. */
  method EachFound(a: Node, b: Node, caseSensitive: bool, ghost x: View, ghost y: View) returns (same: bool)
    requires a == x.node && Shows(x) && b == y.node && Shows(y)
    ensures same <==> MembersFound(x.kids, y.kids, caseSensitive)
    decreases Weight(x) + Weight(y), 1
  {
    hide Equal, Find, Shows, ShowsList, ShowsText, Region, RegionOf, Weight, WeightOf;
    RegionAllocated(x);
    RegionAllocated(y);
    FirstKid(x);
    var element := a.child;
    ghost var i := 0;
    while element != null
      invariant 0 <= i <= |x.kids| && element == HeadNode(x.kids[i..]) && Shows(x) && Shows(y)
      invariant forall k :: 0 <= k < i ==>
        var j := Find(y.kids, x.kids[k].name, caseSensitive);
        j < |y.kids| && Equal(x.kids[k], y.kids[j], caseSensitive)
      decreases |x.kids| - i
    {
      Kid(x, i);
      NameShown(x.kids[i]);
      var other := GetObjectItem(b, element.name, caseSensitive, y, x.kids[i].name);
      if other == null {
        return false;
      }
      ghost var j := Find(y.kids, x.kids[i].name, caseSensitive);
      Kid(x, i);
      Kid(y, j);
      same := CompareItems(element, other, caseSensitive, x.kids[i], y.kids[j]);
      if !same {
        return;
      }
      Kid(x, i);
      element := element.next;
      i := i + 1;
    }
    same := true;
  }

  lemma NameShown(v: View)
    requires Shows(v)
    ensures ShowsText(v.node.name, v.name)
  {
  }
}

/** When a tree of nodes on the heap can be read as a value, and when it holds one of its own. */
module TreeValue {
  import opened Bytes
  import opened Json
  import opened Nodes

  /** The block holds the C string `s`. */
  ghost predicate HoldsText(block: array?<byte>, s: cstring)
    reads block
  {
    block != null && |s| < block.Length && CStr(block[..]) == s
  }

  /** cJSON's child list: `next` runs through the nodes and ends, `prev` runs back, and the first
      node's `prev` is the last node. */
  ghost predicate Listed(ts: seq<Tree>)
    reads NodesOf(ts)`next, NodesOf(ts)`prev
  {
    && Chained(ts) && BackChained(ts)
    && (ts != [] ==> ts[0].node.prev == Last(ts))
  }

  ghost predicate BackChained(ts: seq<Tree>)
    reads NodesOf(ts)`prev
  {
    forall i, j :: 0 <= i && j == i + 1 && j < |ts| ==> ts[j].node.prev == ts[i].node
  }

  // ----- reading a tree: what its items say, whoever owns them

  /** A `char*` field that may be NULL, which prints like the empty string. */
  ghost predicate CarriesText(block: array?<byte>, s: cstring)
    reads block
  {
    if block == null then s == [] else HoldsText(block, s)
  }

  /** The tree can be read as `v`. References, constant names and names of array elements make no difference. */
  ghost predicate Carries(t: Tree, v: Value)
    reads t.node`kind, t.node`child, t.node`valuestring, t.node`valueint, t.node`valuedouble
    reads t.text, BlocksOf(t.kids)
    decreases t, 0
  {
    match v
    case Null => t.node.kind == KNull
    case False => t.node.kind == KFalse
    case True => t.node.kind == KTrue
    case Number(d, i) => t.node.kind == KNumber && t.node.valuedouble == d && t.node.valueint == i
    case String(s) => t.node.kind == KString && t.node.valuestring == t.text && CarriesText(t.text, s)
    case Array(items) =>
      && t.node.kind == KArray && t.node.child == First(t.kids)
      && (NodesAndInner(t.kids); Chained(t.kids)) && CarriesItems(t.kids, items)
    case Object(members) =>
      && t.node.kind == KObject && t.node.child == First(t.kids)
      && (NodesAndInner(t.kids); Chained(t.kids)) && CarriesMembers(t.kids, members)
    case Raw(s) => t.node.kind == KRaw && t.node.valuestring == t.text && HoldsText(t.text, s)
    case Invalid => t.node.kind == KInvalid || (t.node.kind == KRaw && t.node.valuestring == t.text && t.text == null)
  }

  ghost predicate CarriesItems(ts: seq<Tree>, vs: seq<Value>)
    reads NodesOf(ts)`kind, NodesOf(ts)`child, NodesOf(ts)`valuestring, NodesOf(ts)`valueint, NodesOf(ts)`valuedouble
    reads NodesOf(ts)`name, InnerOf(ts)
    decreases ts
  {
    |ts| == |vs| &&
    (ts == [] ||
     (NodesSplit(ts);
      CarriesItems(ts[..|ts| - 1], vs[..|vs| - 1]) && Carries(ts[|ts| - 1], vs[|vs| - 1])))
  }

  /** A member of an object: a value with the name its key block spells. */
  ghost predicate CarriesMember(t: Tree, m: Member)
    reads t.node`kind, t.node`child, t.node`valuestring, t.node`valueint, t.node`valuedouble, t.node`name
    reads t.text, t.key, BlocksOf(t.kids)
    decreases t, 1
  {
    t.node.name == t.key && CarriesText(t.key, m.key) && Carries(t, m.value)
  }

  ghost predicate CarriesMembers(ts: seq<Tree>, ms: seq<Member>)
    reads NodesOf(ts)`kind, NodesOf(ts)`child, NodesOf(ts)`valuestring, NodesOf(ts)`valueint, NodesOf(ts)`valuedouble
    reads NodesOf(ts)`name, InnerOf(ts)
    decreases ts
  {
    |ts| == |ms| &&
    (ts == [] ||
     (NodesSplit(ts);
      CarriesMembers(ts[..|ts| - 1], ms[..|ms| - 1]) && CarriesMember(ts[|ts| - 1], ms[|ms| - 1])))
  }

  // ----- trees as the parser builds them

  /** Every item has a valid kind and owns what it consists of. */
  ghost predicate Tidy(t: Tree)
    reads t.node`kind, t.node`child, t.node`valuestring, t.node`isReference, BlocksOf(t.kids)
    decreases t, 0
  {
    && t.node.kind != KInvalid && !t.node.isReference
    && t.node.valuestring == t.text && t.node.child == First(t.kids)
    && (NodesAndInner(t.kids); Listed(t.kids))
    && (t.text != null <==> t.node.kind == KString || t.node.kind == KRaw)
    && (t.node.kind != KArray && t.node.kind != KObject ==> t.kids == [])
    && if t.node.kind == KObject then TidyMembers(t.kids) else TidyItems(t.kids)
  }

  /** An element of an array has no name. */
  ghost predicate TidyItem(t: Tree)
    reads t.node`kind, t.node`child, t.node`valuestring, t.node`isReference, t.node`name, t.node`stringIsConst
    reads BlocksOf(t.kids)
    decreases t, 1
  {
    t.key == null && t.node.name == null && !t.node.stringIsConst && Tidy(t)
  }

  ghost predicate TidyItems(ts: seq<Tree>)
    reads NodesOf(ts)`kind, NodesOf(ts)`child, NodesOf(ts)`valuestring, NodesOf(ts)`isReference
    reads NodesOf(ts)`name, NodesOf(ts)`stringIsConst, InnerOf(ts)
    decreases ts
  {
    ts == [] || (NodesSplit(ts); TidyItems(ts[..|ts| - 1]) && TidyItem(ts[|ts| - 1]))
  }

  /** A member of an object is named by a block of its own. */
  ghost predicate TidyMember(t: Tree)
    reads t.node`kind, t.node`child, t.node`valuestring, t.node`isReference, t.node`name, t.node`stringIsConst
    reads BlocksOf(t.kids)
    decreases t, 1
  {
    t.key != null && t.node.name == t.key && !t.node.stringIsConst && Tidy(t)
  }

  ghost predicate TidyMembers(ts: seq<Tree>)
    reads NodesOf(ts)`kind, NodesOf(ts)`child, NodesOf(ts)`valuestring, NodesOf(ts)`isReference
    reads NodesOf(ts)`name, NodesOf(ts)`stringIsConst, InnerOf(ts)
    decreases ts
  {
    ts == [] || (NodesSplit(ts); TidyMembers(ts[..|ts| - 1]) && TidyMember(ts[|ts| - 1]))
  }

  /** The tree is read as `v` and owns all its blocks. */
  ghost predicate Holds(t: Tree, v: Value)
    reads t.node`kind, t.node`child, t.node`valuestring, t.node`valueint, t.node`valuedouble, t.node`isReference
    reads t.text, BlocksOf(t.kids)
  {
    Carries(t, v) && Tidy(t)
  }

  ghost predicate HoldsItem(t: Tree, v: Value)
    reads t.node`kind, t.node`child, t.node`valuestring, t.node`valueint, t.node`valuedouble, t.node`isReference
    reads t.node`name, t.node`stringIsConst, t.text, BlocksOf(t.kids)
  {
    t.key == null && t.node.name == null && !t.node.stringIsConst && Holds(t, v)
  }

  ghost predicate HoldsItems(ts: seq<Tree>, vs: seq<Value>)
    reads NodesOf(ts)`kind, NodesOf(ts)`child, NodesOf(ts)`valuestring, NodesOf(ts)`valueint, NodesOf(ts)`valuedouble
    reads NodesOf(ts)`isReference, NodesOf(ts)`name, NodesOf(ts)`stringIsConst, InnerOf(ts)
  {
    CarriesItems(ts, vs) && TidyItems(ts)
  }

  ghost predicate HoldsMember(t: Tree, m: Member)
    reads t.node`kind, t.node`child, t.node`valuestring, t.node`valueint, t.node`valuedouble, t.node`isReference
    reads t.node`name, t.node`stringIsConst, t.text, t.key, BlocksOf(t.kids)
  {
    && t.key != null && t.node.name == t.key && !t.node.stringIsConst
    && HoldsText(t.key, m.key) && Holds(t, m.value)
  }

  ghost predicate HoldsMembers(ts: seq<Tree>, ms: seq<Member>)
    reads NodesOf(ts)`kind, NodesOf(ts)`child, NodesOf(ts)`valuestring, NodesOf(ts)`valueint, NodesOf(ts)`valuedouble
    reads NodesOf(ts)`isReference, NodesOf(ts)`name, NodesOf(ts)`stringIsConst, InnerOf(ts)
  {
    CarriesMembers(ts, ms) && TidyMembers(ts)
  }

  // ----- a tidy tree owns its blocks

  lemma {:induction false} TidyOwned(t: Tree)
    requires Tidy(t) && t.node.name == t.key && !t.node.stringIsConst
    ensures Owned(t)
    decreases t
  {
    hide TidyItems, TidyMembers, OwnedEach, Chained, BackChained;
    if t.node.kind == KObject {
      TidyMembersOwned(t.kids);
    } else {
      TidyItemsOwned(t.kids);
    }
  }

  lemma {:induction false} TidyItemsOwned(ts: seq<Tree>)
    requires TidyItems(ts)
    ensures OwnedEach(ts)
    decreases ts
  {
    hide Tidy, Owned;
    if ts != [] {
      TidyItemsOwned(ts[..|ts| - 1]);
      TidyOwned(ts[|ts| - 1]);
    }
  }

  lemma {:induction false} TidyMembersOwned(ts: seq<Tree>)
    requires TidyMembers(ts)
    ensures OwnedEach(ts)
    decreases ts
  {
    hide Tidy, Owned;
    if ts != [] {
      TidyMembersOwned(ts[..|ts| - 1]);
      TidyOwned(ts[|ts| - 1]);
    }
  }

  lemma {:induction false} ValueOwned(t: Tree, v: Value)
    requires Holds(t, v) && t.node.name == t.key && !t.node.stringIsConst
    ensures Owned(t)
  {
    hide Carries, Tidy, Owned;
    TidyOwned(t);
  }

  lemma {:induction false} ItemsOwned(ts: seq<Tree>, vs: seq<Value>)
    requires HoldsItems(ts, vs)
    ensures OwnedEach(ts)
  {
    hide CarriesItems, TidyItems, OwnedEach;
    TidyItemsOwned(ts);
  }

  lemma {:induction false} MembersOwned(ts: seq<Tree>, ms: seq<Member>)
    requires HoldsMembers(ts, ms)
    ensures OwnedEach(ts)
  {
    hide CarriesMembers, TidyMembers, OwnedEach;
    TidyMembersOwned(ts);
  }

  // ----- the parts of a tree

  lemma {:induction false} CarriesItemAt(ts: seq<Tree>, vs: seq<Value>, i: nat)
    requires CarriesItems(ts, vs) && i < |ts|
    ensures |ts| == |vs| && Carries(ts[i], vs[i]) && Blocks(ts[i]) <= BlocksOf(ts)
    decreases |ts|
  {
    hide Carries;
    BlocksAt(ts, i);
    if i < |ts| - 1 {
      CarriesItemAt(ts[..|ts| - 1], vs[..|vs| - 1], i);
    }
  }

  lemma {:induction false} CarriesMemberAt(ts: seq<Tree>, ms: seq<Member>, i: nat)
    requires CarriesMembers(ts, ms) && i < |ts|
    ensures |ts| == |ms| && CarriesMember(ts[i], ms[i]) && Blocks(ts[i]) <= BlocksOf(ts)
    decreases |ts|
  {
    hide CarriesMember;
    BlocksAt(ts, i);
    if i < |ts| - 1 {
      CarriesMemberAt(ts[..|ts| - 1], ms[..|ms| - 1], i);
    }
  }

  lemma {:induction false} TreeAllocated(t: Tree)
    ensures forall o {:trigger o in Blocks(t)} :: o in Blocks(t) ==> allocated(o)
    decreases t
  {
    TreesAllocated(t.kids);
    BlocksParts(t);
  }

  lemma BlocksParts(t: Tree)
    ensures Blocks(t) == {t.node} + Block(t.text) + Block(t.key) + BlocksOf(t.kids)
  {
  }

  lemma {:induction false} TreesAllocated(ts: seq<Tree>)
    ensures forall o {:trigger o in BlocksOf(ts)} :: o in BlocksOf(ts) ==> allocated(o)
    decreases ts
  {
    if ts != [] {
      TreesAllocated(ts[..|ts| - 1]);
      TreeAllocated(ts[|ts| - 1]);
    }
  }

  lemma ArrayParts(t: Tree, items: seq<Value>)
    requires Carries(t, Array(items))
    ensures t.node.child == First(t.kids) && Chained(t.kids) && CarriesItems(t.kids, items)
    ensures NodesOf(t.kids) + InnerOf(t.kids) == BlocksOf(t.kids) <= Blocks(t) && t.node in Blocks(t)
  {
    hide CarriesItems, Chained;
    NodesAndInner(t.kids);
    InnerParts(t);
  }

  lemma ObjectParts(t: Tree, members: seq<Member>)
    requires Carries(t, Object(members))
    ensures t.node.child == First(t.kids) && Chained(t.kids) && CarriesMembers(t.kids, members)
    ensures NodesOf(t.kids) + InnerOf(t.kids) == BlocksOf(t.kids) <= Blocks(t) && t.node in Blocks(t)
  {
    hide CarriesMembers, Chained;
    NodesAndInner(t.kids);
    InnerParts(t);
  }

  lemma MemberParts(t: Tree, m: Member)
    requires CarriesMember(t, m)
    ensures t.node.name == t.key && CarriesText(t.key, m.key) && Carries(t, m.value)
    ensures t.node in Blocks(t) && Block(t.key) <= Blocks(t) && Block(t.text) <= Blocks(t)
    ensures BlocksOf(t.kids) <= Blocks(t)
  {
    hide Carries, CarriesText;
    InnerParts(t);
  }

  // ----- every tree can be read

  /** The strings are terminated, and the children are the nodes reached by `child` and `next`. */
  ghost predicate Readable(t: Tree)
    reads t.node`child, t.node`valuestring, t.node`name, t.text, t.key, BlocksOf(t.kids)
    decreases t
  {
    && t.node.valuestring == t.text && t.node.name == t.key && Terminated(t.text) && Terminated(t.key)
    && t.node.child == First(t.kids) && (NodesAreBlocks(t.kids); Chained(t.kids)) && ReadableEach(t.kids)
  }

  ghost predicate Terminated(block: array?<byte>)
    reads block
  {
    block != null ==> |CStr(block[..])| < block.Length
  }

  ghost predicate ReadableEach(ts: seq<Tree>)
    reads BlocksOf(ts)
    decreases ts
  {
    ts == [] ||
    (var last := ts[|ts| - 1];
     BlocksParts(last);
     ReadableEach(ts[..|ts| - 1]) && Readable(last))
  }

  /** Whatever kinds, flags and NULL strings occur in it, a tree carries a value. */
  lemma {:induction false} EveryTreeCarries(t: Tree) returns (v: Value)
    requires Readable(t)
    ensures Carries(t, v)
    decreases t
  {
    hide CarriesItems, CarriesMembers, ReadableEach, Chained, CStr;
    var text := if t.text == null then [] else CStr(t.text[..]);
    match t.node.kind {
      case KNull => v := Null;
      case KFalse => v := False;
      case KTrue => v := True;
      case KNumber => v := Number(t.node.valuedouble, t.node.valueint);
      case KString => v := String(text);
      case KArray =>
        var items := EveryListCarries(t.kids);
        v := Array(items);
      case KObject =>
        var members := EveryMemberCarries(t.kids);
        v := Object(members);
      case KRaw => v := if t.text == null then Invalid else Raw(text);
      case KInvalid => v := Invalid;
    }
  }

  lemma {:induction false} EveryListCarries(ts: seq<Tree>) returns (vs: seq<Value>)
    requires ReadableEach(ts)
    ensures CarriesItems(ts, vs)
    decreases ts
  {
    hide Carries, Readable;
    vs := [];
    if ts != [] {
      var front := EveryListCarries(ts[..|ts| - 1]);
      var last := EveryTreeCarries(ts[|ts| - 1]);
      vs := front + [last];
      assert vs[..|vs| - 1] == front;
    }
  }

  lemma {:induction false} EveryMemberCarries(ts: seq<Tree>) returns (ms: seq<Member>)
    requires ReadableEach(ts)
    ensures CarriesMembers(ts, ms)
    decreases ts
  {
    hide Carries, CStr;
    ms := [];
    if ts != [] {
      var front := EveryMemberCarries(ts[..|ts| - 1]);
      var t := ts[|ts| - 1];
      var last := EveryTreeCarries(t);
      ms := front + [Member(if t.key == null then [] else CStr(t.key[..]), last)];
      assert ms[..|ms| - 1] == front;
    }
  }

  // ----- one tree more in a list

  lemma NoTrees()
    ensures BlocksOf([]) == {} && Chained([]) && BackChained([]) && DistinctAll([])
    ensures HoldsItems([], []) && HoldsMembers([], []) && OwnedEach([])
  {
  }

  lemma {:induction false} Extended(ts: seq<Tree>, t: Tree)
    ensures BlocksOf(ts + [t]) == BlocksOf(ts) + Blocks(t)
    ensures DistinctAll(ts + [t]) <==> DistinctAll(ts) && Distinct(t) && Blocks(t) !! BlocksOf(ts)
    ensures First(ts + [t]) == (if ts == [] then t.node else First(ts)) && Last(ts + [t]) == t.node
  {
    assert (ts + [t])[..|ts|] == ts;
  }

  lemma {:induction false} OwnedExtended(ts: seq<Tree>, t: Tree)
    requires OwnedEach(ts) && Owned(t)
    ensures OwnedEach(ts + [t])
  {
    assert (ts + [t])[..|ts|] == ts;
  }

  lemma {:induction false} ItemsExtended(ts: seq<Tree>, t: Tree, vs: seq<Value>, v: Value)
    requires HoldsItems(ts, vs) && HoldsItem(t, v)
    ensures HoldsItems(ts + [t], vs + [v])
  {
    assert (ts + [t])[..|ts|] == ts && (vs + [v])[..|vs|] == vs;
  }

  lemma {:induction false} MembersExtended(ts: seq<Tree>, t: Tree, ms: seq<Member>, m: Member)
    requires HoldsMembers(ts, ms) && HoldsMember(t, m)
    ensures HoldsMembers(ts + [t], ms + [m])
  {
    assert (ts + [t])[..|ts|] == ts && (ms + [m])[..|ms|] == ms;
  }

  /** A list of one tree. */
  lemma {:induction false} SingleTree(t: Tree)
    requires Owned(t) && Distinct(t) && t.node.next == null
    ensures Chained([t]) && OwnedEach([t]) && DistinctAll([t])
    ensures BlocksOf([t]) == Blocks(t) == {t.node} + Inner(t)
  {
    hide Owned, Distinct, Inner;
    assert [] + [t] == [t];
    NoTrees();
    Extended([], t);
    OwnedExtended([], t);
  }

  // ----- linking nodes

  lemma OneLinked(t: Tree)
    requires t.node.next == null
    ensures Chained([] + [t]) && BackChained([] + [t]) && [] + [t] == [t]
  {
  }

  /** suffix_object: `item` becomes the successor of the last node of a chain. */
  method SuffixObject(last: Node, item: Node, ghost ts: seq<Tree>, ghost t: Tree)
    requires ts != [] && last == Last(ts) && item == t.node
    requires Chained(ts) && BackChained(ts) && item.next == null
    requires forall i {:trigger ts[i]} :: 0 <= i < |ts| ==> ts[i].node != item
    modifies last`next, item`prev
    ensures Chained(ts + [t]) && BackChained(ts + [t])
  {
    hide NodesOf;
    ghost var us := ts + [t];
    assert forall i {:trigger us[i]} :: 0 <= i < |ts| ==> us[i] == ts[i];
    forall i | 0 <= i < |ts| - 1 ensures ts[i].node != last {
      assert ts[i].node.next == ts[i + 1].node;
    }
    last.next := item;
    item.prev := last;
    forall i, j | 0 <= i && j == i + 1 && j < |us|
      ensures us[i].node.next == us[j].node && us[j].node.prev == us[i].node
    {
      assert us[i] == ts[i];
    }
  }

  lemma {:induction false} NodesDistinct(ts: seq<Tree>)
    requires DistinctAll(ts)
    ensures forall i, j :: 0 <= i < j < |ts| ==> ts[i].node != ts[j].node
  {
    forall i, j | 0 <= i < j < |ts| ensures ts[i].node != ts[j].node {
      DistinctPair(ts, i, j);
    }
  }

  /** The end of parse_array and parse_object: the child list is closed and hung on the item. */
  method Attach(item: Node, kind: Kind, head: Node?, current: Node?, ghost kids: seq<Tree>)
    requires head == First(kids) && current == Last(kids) && Chained(kids) && BackChained(kids)
    requires forall i {:trigger kids[i]} :: 0 < i < |kids| ==> kids[i].node != head
    modifies item`kind, item`child, Opt(head)`prev
    ensures item.kind == kind && item.child == First(kids) && Listed(kids)
  {
    hide NodesOf, Chained;
    if head != null {
      head.prev := current;
    }
    item.kind := kind;
    item.child := head;
  }
}

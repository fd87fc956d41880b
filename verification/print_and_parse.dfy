/** The document round trip on the methods themselves: print, parse the text, free the text. */
module PrintAndParse {
  import opened Bytes
  import opened Json
  import opened ParseSpec
  import opened StringSpec
  import opened RenderSpec
  import opened RoundTrip
  import opened Nodes
  import opened TreeValue
  import opened TreeViews
  import opened CompareValues
  import opened CompareIntegral
  import Printer
  import Parser

  /** Unless an allocation is refused or the text outgrows an int, the tree read back holds the value of the
      tree printed, in blocks of its own, and the text is gone. */
  method PrintThenParseBack(root: Node, style: Style, hooks: Hooks, hasRealloc: bool, ghost t: Tree, ghost v: Value)
    returns (item: Node?, ghost ts: seq<Tree>)
    requires root == t.node && Carries(t, v) && hooks !in Blocks(t)
    requires Integral(v) && Printer.Sized(v) && Nesting(v) <= NESTING_LIMIT
    modifies hooks
    ensures item != null ==> |ts| == 1 && HoldsItem(ts[0], v)
    ensures item == null ==> hooks.Refused() || |Render(v, style, 0)| + 2 > INT_MAX
    ensures item == First(ts) && Chained(ts) && OwnedEach(ts) && DistinctAll(ts)
    ensures fresh(BlocksOf(ts)) && hooks.live == old(hooks.live) + BlocksOf(ts)
  {
    hide Integral, Nesting, Printable, Render, Carries, Tidy, Owned, OwnedEach, DistinctAll, BlocksOf, ParseBuffer;
    hide Chained, First, Printer.Sized;
    item, ts := null, [];
    Empty();
    IntegralPrintable(v, style);
    var text := Printer.Print(root, style, hooks, hasRealloc, t, v);
    NoTrees();
    if text == null {
      return;
    }
    PrintThenParse(v, style);
    var position;
    item, position, ts := Parser.ParseWithLengthOpts(text[..], true, hooks);
    NodesAreBlocks(ts);
    if item != null {
      BlocksAt(ts, 0);
      InnerParts(ts[0]);
    }
    hooks.Deallocate(text);
  }

  /** cJSON_Compare agrees: printed and read back, a tree without duplicate keys equals itself if and only if no
      string or name in it is missing; the text has an empty one in its place. */
  method RoundTripCompares(root: Node, style: Style, hooks: Hooks, hasRealloc: bool, ghost t: Tree, ghost v: Value)
    returns (item: Node?, same: bool)
    requires root == t.node && Readable(t) && Carries(t, v) && hooks !in Blocks(t)
    requires Integral(v) && Printer.Sized(v) && DistinctKeys(v) && Nesting(v) <= NESTING_LIMIT
    modifies hooks
    ensures item != null ==> (same <==> Complete(ViewOf(t)))
    ensures item == null ==> hooks.Refused() || |Render(v, style, 0)| + 2 > INT_MAX
  {
    hide Integral, Nesting, Render, Carries, Tidy, Owned, OwnedEach, DistinctAll, BlocksOf, Chained, First;
    hide DistinctKeys, SameValue, Complete, ViewOf, Readable, Printer.Sized, Known, Blocks;
    TreeAllocated(t);
    BlocksParts(t);
    ghost var ts;
    item, ts := PrintThenParseBack(root, style, hooks, hasRealloc, t, v);
    same := false;
    if item != null {
      IntegralKnown(v);
      SameValueSelf(v);
      FirstOf(ts);
      BlocksAt(ts, 0);
      HeldReadable(ts[0], v);
      TidyComplete(ts[0]);
      TreeAllocated(ts[0]);
      BlocksParts(ts[0]);
      same := CompareCarried(root, item, t, v, ts[0], v);
    }
  }

  lemma {:induction false} IntegralKnown(v: Value)
    requires Integral(v)
    ensures Known(v)
    decreases v
  {
    match v
    case Array(items) =>
      forall i | 0 <= i < |items| ensures Known(items[i]) {
        IntegralItem(items, i);
        IntegralKnown(items[i]);
      }
    case Object(members) =>
      forall i | 0 <= i < |members| ensures Known(members[i].value) {
        IntegralMember(members, i);
        IntegralKnown(members[i].value);
      }
    case _ =>
  }

  lemma FirstOf(ts: seq<Tree>)
    requires ts != []
    ensures First(ts) == ts[0].node
  {
  }

  lemma Empty()
    ensures First([]) == null
  {
  }
}

/** Parsing the start of a buffer: any bytes may follow the document, and none of them need be a NUL. */
module Buffers {
  import opened Bytes
  import opened Json
  import opened NumberSpec
  import opened StringSpec
  import opened ParseSpec
  import opened Syntax
  import opened Completeness
  import opened Soundness
  import opened Documents

  /** The buffer starts with the document, of which the mark is looked for only if there are more than four bytes.
      A number is not continued by what follows. */
  ghost predicate StartsWith(c: bytes, d: Document) {
    && At(c, 0, FlattenDocument(d)) && (d.bom ==> |c| > 4)
    && (d.value.SNumber? ==> EndsNumber(c, |FlattenDocument(d)| - |d.after|))
  }

  lemma {:induction false} PrefixLayout(c: bytes, d: Document)
    requires At(c, 0, FlattenDocument(d))
    ensures var p := Lead(d) + |d.before|; var e := p + |Flatten(d.value)|;
      && At(c, Lead(d), d.before) && At(c, p, Flatten(d.value)) && At(c, e, d.after)
      && |FlattenDocument(d)| == e + |d.after| <= |c| && c[..Lead(d)] == if d.bom then BOM else []
  {
    hide Flatten, At;
    var lead := if d.bom then BOM else [];
    var text := Flatten(d.value);
    AtSplit(c, 0, lead, d.before + (text + d.after));
    AtSplit(c, |lead|, d.before, text + d.after);
    AtSplit(c, |lead| + |d.before|, text, d.after);
    AtSlices(c, lead);
    AtInside(c, |lead| + |d.before| + |text|, d.after);
  }

  lemma AtSlices(c: bytes, part: bytes)
    requires At(c, 0, part)
    ensures |part| <= |c| && c[..|part|] == part
  {
  }

  lemma AtInside(c: bytes, o: nat, part: bytes)
    requires At(c, o, part)
    ensures o + |part| <= |c| && (part != [] ==> c[o + |part| - 1] == part[|part| - 1])
  {
    var slice := c[o..o + |part|];
    assert forall i :: 0 <= i < |part| ==> slice[i] == c[o + i];
  }

  lemma {:induction false} PrefixStart(c: bytes, d: Document)
    requires ValidDocument(d) && StartsWith(c, d)
    ensures Start(c) == Lead(d) + |d.before|
  {
    hide Flatten, FlattenDocument, Valid, SkipBlanks, At;
    PrefixLayout(c, d);
    FlattenHead(d.value);
    AtHead(c, Lead(d) + |d.before|, Flatten(d.value));
    SkipsBlank(c, Lead(d), d.before);
    if !d.bom && |c| > 4 {
      if d.before != [] {
        AtHead(c, 0, d.before);
      }
      assert c[..3][0] == c[0] < 0x80;
    }
  }

  /** The blanks behind the value reach to the first other byte, or to the end of the buffer. */
  ghost predicate AllBlanks(c: bytes, d: Document) {
    var e := |FlattenDocument(d)|;
    e < |c| ==> !IsBlank(c[e])
  }

  /** What both ways of parsing make of a buffer that starts with a document. */
  lemma {:induction false} PrefixAccepted(c: bytes, d: Document)
    requires ValidDocument(d) && StartsWith(c, d) && AllBlanks(c, d)
    ensures var e := |FlattenDocument(d)|; var v := Meaning(d.value);
      && ParseBuffer(c, false) == Ok(v, e - |d.after|)
      && ParseBuffer(c, true) ==
           if e < |c| then Fail(e)
           else if d.after != [] && d.after[|d.after| - 1] == 0 then Ok(v, |c| - 1)
           else Fail(|c| - 1)
  {
    hide Flatten, FlattenDocument, Valid, Meaning, SkipBlanks, Start, ParseValue, Depth, At;
    PrefixLayout(c, d);
    PrefixStart(c, d);
    FlattenHead(d.value);
    ValueAccepted(c, Start(c), 0, d.value);
    var e := |FlattenDocument(d)|;
    AtInside(c, e - |d.after|, d.after);
    if e < |c| {
      SkipsBlank(c, e - |d.after|, d.after);
    } else if d.after != [] {
      AllBlankToEnd(c, e - |d.after|, d.after);
      assert c[|c| - 1] == d.after[|d.after| - 1];
    }
  }

  /** Whatever is accepted with anything behind it is a document. */
  lemma {:induction false} PrefixRecovered(c: bytes) returns (d: Document)
    requires c != [] && ParseBuffer(c, false).Ok?
    ensures ValidDocument(d) && d.after == [] && At(c, 0, FlattenDocument(d)) && (d.bom ==> |c| > 4)
    ensures ParseBuffer(c, false) == Ok(Meaning(d.value), |FlattenDocument(d)|)
  {
    hide Flatten, Valid, Meaning, SkipBlanks, BlankEnd, ParseValue, Depth;
    var bom := |c| > 4 && c[..3] == BOM;
    var lead := if bom then BOM else [];
    assert At(c, 0, lead);
    var before := SkippedBlanks(c, |lead|);
    var p := Start(c);
    var value := ValueRecovered(c, p, 0);
    d := Document(bom, before, value, []);
    AtNothing(c, |lead + before + Flatten(value)|);
    PartsJoin(c, lead, before, Flatten(value), []);
  }

  lemma AtNothing(c: bytes, o: nat)
    requires o <= |c|
    ensures At(c, o, [])
  {
  }
}

/** The exact language and meaning of cJSON_ParseWithOpts(text, .., require_null_terminated). */
module Documents {
  import opened Bytes
  import opened Json
  import opened NumberSpec
  import opened StringSpec
  import opened ParseSpec
  import opened Syntax
  import opened Completeness
  import opened Soundness

  function Lead(d: Document): nat {
    if d.bom then 3 else 0
  }

  lemma {:induction false} DocumentLayout(c: bytes, d: Document)
    requires c == FlattenDocument(d) + [0]
    ensures At(c, Lead(d), d.before) && At(c, Lead(d) + |d.before|, Flatten(d.value))
    ensures At(c, Lead(d) + |d.before| + |Flatten(d.value)|, d.after + [0])
    ensures Lead(d) + |d.before| + |Flatten(d.value)| + |d.after + [0]| == |c|
  {
    hide Flatten, At;
    var lead := if d.bom then BOM else [];
    var text := Flatten(d.value);
    var tail := d.after + [0];
    var spaced := d.before + (text + tail);
    assert c == lead + spaced;
    assert c[0..|c|] == c;
    AtSplit(c, 0, lead, spaced);
    AtSplit(c, |lead|, d.before, text + tail);
    AtSplit(c, |lead| + |d.before|, text, tail);
  }

  lemma {:induction false} DocumentFound(c: bytes, d: Document)
    requires ValidDocument(d) && c == FlattenDocument(d) + [0]
    ensures var p := Lead(d) + |d.before|; var e := p + |Flatten(d.value)|;
      && SkipBlanks(c, Lead(d)) == p && p < |c| && At(c, p, Flatten(d.value)) && EndsNumber(c, e)
      && e <= |c| && SkipBlanks(c, e) == |c| - 1
  {
    hide Flatten, FlattenDocument, Valid, SkipBlanks, At;
    DocumentLayout(c, d);
    var p := Lead(d) + |d.before|;
    var e := p + |Flatten(d.value)|;
    FlattenHead(d.value);
    AtHead(c, p, Flatten(d.value));
    SkipsBlank(c, Lead(d), d.before);
    AtHead(c, e, d.after + [0]);
    AllBlankToEnd(c, e, d.after + [0]);
  }

  /** When only blanks are left, the cursor comes to rest on the last byte of the buffer. */
  lemma {:induction false} AllBlankToEnd(c: bytes, o: nat, tail: bytes)
    requires At(c, o, tail) && o + |tail| == |c| && tail != [] && Blank(tail)
    ensures SkipBlanks(c, o) == |c| - 1
  {
    forall i | o <= i < |c| ensures IsBlank(c[i]) {
      assert c[i] == c[o..o + |tail|][i - o];
    }
    BlankEndUnique(c, o, |c|);
  }

  lemma {:induction false} StartOfDocument(c: bytes, d: Document)
    requires ValidDocument(d) && c == FlattenDocument(d) + [0]
    ensures Start(c) == SkipBlanks(c, Lead(d))
  {
    hide Flatten, Valid, SkipBlanks;
    FlattenHead(d.value);
    var rest := d.before + (Flatten(d.value) + d.after);
    if d.bom {
      assert c == BOM + (rest + [0]);
    } else {
      assert FlattenDocument(d) == rest;
      if d.before != [] {
        assert c[0] == d.before[0];
      } else {
        assert c[0] == Flatten(d.value)[0];
      }
      if |c| > 4 {
        assert c[..3][0] == c[0];
      }
    }
  }

  /** Every valid document parses to what it denotes. */
  lemma {:induction false} DocumentAccepted(text: cstring, d: Document)
    requires ValidDocument(d) && FlattenDocument(d) == text
    ensures ParseText(text, true) == Ok(Meaning(d.value), |text|)
  {
    hide Flatten, FlattenDocument, Valid, Meaning, SkipBlanks, BlankEnd, Start, ParseValue, At, Depth;
    var c := text + [0];
    DocumentFound(c, d);
    StartOfDocument(c, d);
    ValueAccepted(c, Start(c), 0, d.value);
    assert c[|c| - 1] == 0;
  }

  lemma FirstNul(text: cstring, z: nat)
    requires z <= |text| && (text + [0])[z] == 0
    ensures z == |text|
  {
  }

  /** Every accepted text is a valid document. */
  lemma {:induction false} DocumentRecovered(text: cstring) returns (d: Document)
    requires ParseText(text, true).Ok?
    ensures ValidDocument(d) && FlattenDocument(d) == text
    ensures ParseText(text, true) == Ok(Meaning(d.value), |text|)
  {
    hide Flatten, Valid, Meaning, SkipBlanks, BlankEnd, ParseValue, Depth;
    var c := text + [0];
    var bom := |c| > 4 && c[..3] == BOM;
    var lead := if bom then BOM else [];
    assert At(c, 0, lead);
    var before := SkippedBlanks(c, |lead|);
    var p := Start(c);
    var value := ValueRecovered(c, p, 0);
    var e := ParseValue(c, p, 0).offset;
    var blank := SkippedBlanks(c, e);
    var z := SkipBlanks(c, e);
    FirstNul(text, z);
    d := Document(bom, before, value, blank);
    PartsJoin(c, lead, before, Flatten(value), blank);
    assert c[0..|text|] == text;
  }

  lemma PartsJoin(c: bytes, lead: bytes, before: bytes, value: bytes, after: bytes)
    requires At(c, 0, lead) && At(c, |lead|, before) && At(c, |lead + before|, value)
    requires At(c, |lead + before + value|, after)
    ensures At(c, 0, lead + (before + (value + after)))
  {
    hide At;
    AtJoin(c, |lead + before|, value, after);
    AtJoin(c, |lead|, before, value + after);
    AtJoin(c, 0, lead, before + (value + after));
  }

  ghost predicate Denotes(text: bytes, v: Value) {
    exists d: Document :: ValidDocument(d) && FlattenDocument(d) == text && Meaning(d.value) == v
  }

  /** A C string is accepted with a given result exactly when it is the text of a document that denotes it. */
  lemma {:induction false} AcceptedLanguage(text: cstring, v: Value)
    ensures ParseText(text, true) == Ok(v, |text|) <==> Denotes(text, v)
    ensures ParseText(text, true).Ok? ==> ParseText(text, true).offset == |text|
  {
    hide ParseText, FlattenDocument, Meaning;
    if ParseText(text, true).Ok? {
      var d := DocumentRecovered(text);
      assert Denotes(text, Meaning(d.value));
    }
    if Denotes(text, v) {
      var d: Document :| ValidDocument(d) && FlattenDocument(d) == text && Meaning(d.value) == v;
      DocumentAccepted(text, d);
    }
  }
}

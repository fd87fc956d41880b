/** What cJSON_Minify does to the parts of a text: blanks and comments, literals, and everything else. */
module MinifyGaps {
  import opened Bytes
  import opened ParseSpec
  import opened Syntax
  import opened Minify

  // ----- blanks and comments

  /** What may stand between the tokens of a text that is to be minified. */
  datatype Piece =
    | BlankByte(b: byte)           // up to 0x20
    | LineComment(text: bytes)     // between `//` and the end of the line
    | BlockComment(text: bytes)    // between `/*` and `*/`

  /** Light blanks are those RFC 8259 knows; cJSON takes every control character for one. */
  ghost predicate ProperPiece(p: Piece, light: bool) {
    match p
    case BlankByte(b) => if light then b == 0x20 || b == 0x09 || b == 0x0A || b == 0x0D else b <= 0x20
    case LineComment(text) => forall i :: 0 <= i < |text| ==> text[i] != 0x0A
    case BlockComment(text) => NoEnd(text)
  }

  function PieceText(p: Piece): bytes {
    match p
    case BlankByte(b) => [b]
    case LineComment(text) => [0x2F, 0x2F] + text + [0x0A]
    case BlockComment(text) => [0x2F, 0x2A] + text + [0x2A, 0x2F]
  }

  function GapText(ps: seq<Piece>): bytes {
    if ps == [] then [] else PieceText(ps[0]) + GapText(ps[1..])
  }

  /** There is no end of a block comment in the text. */
  ghost predicate NoEnd(text: bytes) {
    forall i, j :: 0 <= i && j == i + 1 && j < |text| ==> !(text[i] == 0x2A && text[j] == 0x2F)
  }

  lemma NoEndBehind(text: bytes)
    requires NoEnd(text) && text != []
    ensures NoEnd(text[1..]) && (|text| > 1 ==> !(text[0] == 0x2A && text[1] == 0x2F))
  {
    var rest := text[1..];
    forall i, j | 0 <= i && j == i + 1 && j < |rest| ensures !(rest[i] == 0x2A && rest[j] == 0x2F) {
      assert rest[i] == text[i + 1] && rest[j] == text[j + 1];
    }
  }

  ghost predicate ProperPieces(ps: seq<Piece>, light: bool) {
    forall i :: 0 <= i < |ps| ==> ProperPiece(ps[i], light)
  }

  /** Blanks and comments. */
  ghost predicate Gap(s: bytes, light: bool) {
    exists ps: seq<Piece> :: ProperPieces(ps, light) && GapText(ps) == s
  }

  /** What minifying leaves of them: the control characters other than tab, line feed and carriage return. */
  function Residue(ps: seq<Piece>): bytes {
    if ps == [] then []
    else
      var p := ps[0];
      (if p.BlankByte? && p.b != 0x20 && p.b != 0x09 && p.b != 0x0A && p.b != 0x0D then [p.b] else [])
        + Residue(ps[1..])
  }

  lemma {:induction false} LineSkipped(text: bytes, rest: bytes)
    requires forall i :: 0 <= i < |text| ==> text[i] != 0x0A
    ensures AfterLine(text + ([0x0A] + rest)) == rest
  {
    var s := text + ([0x0A] + rest);
    if text == [] {
      assert s[1..] == rest;
    } else {
      LineSkipped(text[1..], rest);
      assert s[1..] == text[1..] + ([0x0A] + rest);
    }
  }

  lemma {:induction false} BlockSkipped(text: bytes, rest: bytes)
    requires NoEnd(text)
    ensures AfterBlock(text + ([0x2A, 0x2F] + rest)) == rest
  {
    var s := text + ([0x2A, 0x2F] + rest);
    if text == [] {
      assert s[2..] == rest;
    } else {
      NoEndBehind(text);
      BlockSkipped(text[1..], rest);
      assert s[1..] == text[1..] + ([0x2A, 0x2F] + rest);
      assert s[1] == if |text| > 1 then text[1] else 0x2A;
    }
  }

  lemma {:induction false} FilterLineComment(text: bytes, rest: bytes)
    requires forall i :: 0 <= i < |text| ==> text[i] != 0x0A
    ensures Filter(([0x2F, 0x2F] + text + [0x0A]) + rest) == Filter(rest)
  {
    hide AfterLine, AfterBlock, LiteralEnd, Filter;
    var s := ([0x2F, 0x2F] + text + [0x0A]) + rest;
    FilterHead(s);
    LineSkipped(text, rest);
    assert s[2..] == text + ([0x0A] + rest);
  }

  lemma {:induction false} FilterBlockComment(text: bytes, rest: bytes)
    requires NoEnd(text)
    ensures Filter(([0x2F, 0x2A] + text + [0x2A, 0x2F]) + rest) == Filter(rest)
  {
    hide AfterLine, AfterBlock, LiteralEnd, Filter, NoEnd;
    var s := ([0x2F, 0x2A] + text + [0x2A, 0x2F]) + rest;
    FilterHead(s);
    BlockSkipped(text, rest);
    assert s[2..] == text + ([0x2A, 0x2F] + rest);
  }

  lemma {:induction false} FilterPiece(p: Piece, light: bool, rest: bytes)
    requires ProperPiece(p, light)
    ensures Filter(PieceText(p) + rest) == Residue([p]) + Filter(rest)
  {
    hide AfterLine, AfterBlock, LiteralEnd, Filter, NoEnd;
    assert [p][1..] == [] && Residue([]) == [];
    match p
    case BlankByte(b) =>
      FilterHead([b] + rest);
      assert ([b] + rest)[1..] == rest;
    case LineComment(text) => FilterLineComment(text, rest);
    case BlockComment(text) => FilterBlockComment(text, rest);
  }

  lemma {:induction false} FilterPieces(ps: seq<Piece>, light: bool, rest: bytes)
    requires ProperPieces(ps, light)
    ensures Filter(GapText(ps) + rest) == Residue(ps) + Filter(rest)
  {
    hide Filter, PieceText, ProperPiece, Residue;
    ResidueHead(ps);
    if ps == [] {
      assert [] + rest == rest && [] + Filter(rest) == Filter(rest);
    } else {
      var more := GapText(ps[1..]);
      assert ProperPiece(ps[0], light);
      FilterPieces(ps[1..], light, rest);
      FilterPiece(ps[0], light, more + rest);
      assert GapText(ps) + rest == PieceText(ps[0]) + (more + rest);
      Regroup(Residue([ps[0]]), Residue(ps[1..]), Filter(rest));
    }
  }

  lemma ResidueHead(ps: seq<Piece>)
    ensures Residue(ps) == if ps == [] then [] else Residue([ps[0]]) + Residue(ps[1..])
  {
    if ps != [] {
      assert [ps[0]][1..] == [] && Residue([]) == [];
    }
  }

  /** A gap is filtered on its own, and to blanks; of a light gap nothing is left. */
  lemma {:induction false} FilterGap(s: bytes, light: bool, rest: bytes)
    requires Gap(s, light)
    ensures Filter(s + rest) == Filter(s) + Filter(rest) && Blank(Filter(s)) && (light ==> Filter(s) == [])
  {
    hide Filter;
    var ps :| ProperPieces(ps, light) && GapText(ps) == s;
    FilterPieces(ps, light, rest);
    FilterPieces(ps, light, []);
    FilterNothing();
    assert s + [] == s && Residue(ps) + [] == Residue(ps);
    ResidueBlank(ps, light);
  }

  lemma {:induction false} ResidueBlank(ps: seq<Piece>, light: bool)
    requires ProperPieces(ps, light)
    ensures Blank(Residue(ps)) && (light ==> Residue(ps) == [])
  {
    if ps != [] {
      assert ProperPiece(ps[0], light);
      ResidueBlank(ps[1..], light);
    }
  }

  /** Blanks make a gap, the blanks of RFC 8259 a light one. */
  lemma {:induction false} BlankGap(s: bytes)
    requires Blank(s)
    ensures Gap(s, false)
    ensures (forall i :: 0 <= i < |s| ==> s[i] == 0x20 || s[i] == 0x09 || s[i] == 0x0A || s[i] == 0x0D) ==> Gap(s, true)
  {
    var ps := BlankPieces(s);
    assert ProperPieces(ps, false) && GapText(ps) == s;
    if forall i :: 0 <= i < |s| ==> s[i] == 0x20 || s[i] == 0x09 || s[i] == 0x0A || s[i] == 0x0D {
      assert ProperPieces(ps, true);
    }
  }

  lemma {:induction false} BlankPieces(s: bytes) returns (ps: seq<Piece>)
    requires Blank(s)
    ensures GapText(ps) == s && |ps| == |s|
    ensures forall i :: 0 <= i < |ps| ==> ps[i] == BlankByte(s[i])
  {
    ps := [];
    if s != [] {
      var rest := BlankPieces(s[1..]);
      ps := [BlankByte(s[0])] + rest;
      assert ps[1..] == rest;
    }
  }

  /** A comment that is not closed swallows everything behind it. */
  lemma {:induction false} OpenComment(text: bytes)
    requires NoEnd(text)
    ensures Filter([0x2F, 0x2A] + text) == []
    ensures (forall i :: 0 <= i < |text| ==> text[i] != 0x0A) ==> Filter([0x2F, 0x2F] + text) == []
  {
    hide AfterLine, AfterBlock, LiteralEnd, Filter;
    FilterHead([0x2F, 0x2A] + text);
    FilterHead([0x2F, 0x2F] + text);
    assert ([0x2F, 0x2A] + text)[2..] == text && ([0x2F, 0x2F] + text)[2..] == text;
    NoBlockEnd(text);
    FilterNothing();
    if forall i :: 0 <= i < |text| ==> text[i] != 0x0A {
      NoLineEnd(text);
    }
  }

  lemma {:induction false} NoBlockEnd(text: bytes)
    requires NoEnd(text)
    ensures AfterBlock(text) == []
  {
    if text != [] {
      NoEndBehind(text);
      NoBlockEnd(text[1..]);
    }
  }

  lemma {:induction false} NoLineEnd(text: bytes)
    requires forall i :: 0 <= i < |text| ==> text[i] != 0x0A
    ensures AfterLine(text) == []
  {
    if text != [] {
      NoLineEnd(text[1..]);
    }
  }

  lemma FilterNothing()
    ensures Filter([]) == []
  {
  }

  /** Bytes the filter has no reason to look at. */
  ghost predicate Plain(s: bytes) {
    forall i :: 0 <= i < |s| ==>
      s[i] != 0x20 && s[i] != 0x09 && s[i] != 0x0A && s[i] != 0x0D && s[i] != 0x2F && s[i] != 0x22
  }

  lemma {:induction false} FilterPlain(s: bytes, rest: bytes)
    requires Plain(s)
    ensures Filter(s + rest) == s + Filter(rest)
  {
    hide AfterLine, AfterBlock, LiteralEnd;
    if s == [] {
      assert s + rest == rest;
    } else {
      FilterPlain(s[1..], rest);
      assert (s + rest)[1..] == s[1..] + rest;
      assert [s[0]] + (s[1..] + Filter(rest)) == s + Filter(rest);
    }
  }

  // ----- the output

  /** A slash that starts no comment is dropped. */
  lemma {:induction false} StraySlash(rest: bytes)
    requires rest != [] ==> rest[0] != 0x2F && rest[0] != 0x2A
    ensures Filter([0x2F] + rest) == Filter(rest)
  {
    hide Filter, AfterLine, AfterBlock, LiteralEnd;
    FilterHead([0x2F] + rest);
    assert ([0x2F] + rest)[1..] == rest;
  }

  ghost predicate EndsLiteral(s: bytes, i: nat)
    requires i < |s|
  {
    s[i] == 0x22 && (i == 0 || s[i - 1] != 0x5C)
  }

  /** Behind an opening quote everything is copied up to the first quote that no backslash precedes, or to the end. */
  lemma {:induction false} LiteralCopied(s: bytes) returns (n: nat)
    ensures n <= |s| && Filter([0x22] + s) == [0x22] + s[..n] + Filter(s[n..])
    ensures forall i :: 0 <= i < n && EndsLiteral(s, i) ==> i == n - 1
    ensures n < |s| ==> n > 0 && EndsLiteral(s, n - 1)
  {
    hide Filter, AfterLine, AfterBlock, LiteralEnd, EndsLiteral;
    n := LiteralEnd(s);
    var t := [0x22] + s;
    FilterHead(t);
    assert t[1..] == s && t[..1 + n] == [0x22] + s[..n] && t[1 + n..] == s[n..];
    EndOfLiteral(s);
  }

  lemma {:induction false} EndOfLiteral(s: bytes)
    ensures var n := LiteralEnd(s);
      && (forall i :: 0 <= i < n && EndsLiteral(s, i) ==> i == n - 1)
      && (n < |s| ==> n > 0 && EndsLiteral(s, n - 1))
  {
    if s != [] && s[0] != QUOTE {
      var k := if s[0] == BACKSLASH && |s| > 1 && s[1] == QUOTE then 2 else 1;
      EndOfLiteral(s[k..]);
      forall i | k <= i < |s| ensures EndsLiteral(s, i) <==> EndsLiteral(s[k..], i - k) {
      }
    }
  }

  /** The output consists of literals, copied as they are, and of single bytes. */
  datatype Token = Copied(text: bytes) | Single(b: byte)

  function Glue(ts: seq<Token>): bytes {
    if ts == [] then [] else (match ts[0] case Copied(text) => text case Single(b) => [b]) + Glue(ts[1..])
  }

  function Literal(ts: seq<Token>): seq<bytes> {
    if ts == [] then [] else (match ts[0] case Copied(text) => [text] case Single(_) => []) + Literal(ts[1..])
  }

  /** Outside literals there is no blank, no slash and no quote left. */
  ghost predicate Clean(ts: seq<Token>) {
    forall i :: 0 <= i < |ts| ==>
      match ts[i]
      case Copied(text) => text != [] && text[0] == 0x22
      case Single(b) => b != 0x20 && b != 0x09 && b != 0x0A && b != 0x0D && b != 0x2F && b != 0x22
  }

  /** The literals the minifier copies, in order. */
  function Cut(s: bytes): seq<bytes>
    decreases |s|
  {
    if s == [] then []
    else if Droppable(s[0]) then Cut(s[1..])
    else if s[0] == SLASH then
      if |s| > 1 && s[1] == SLASH then Cut(AfterLine(s[2..]))
      else if |s| > 1 && s[1] == STAR then Cut(AfterBlock(s[2..]))
      else Cut(s[1..])
    else if s[0] == QUOTE then
      var n := 1 + LiteralEnd(s[1..]);
      [s[..n]] + Cut(s[n..])
    else Cut(s[1..])
  }

  /** Whatever the input, the output is made of the literals that were cut out and of bytes that had to stay. */
  lemma {:induction false} OutputClean(s: bytes) returns (ts: seq<Token>)
    ensures Glue(ts) == Filter(s) && Literal(ts) == Cut(s) && Clean(ts)
    decreases |s|
  {
    hide AfterLine, AfterBlock, LiteralEnd;
    ts := [];
    if s == [] {
    } else if Droppable(s[0]) {
      ts := OutputClean(s[1..]);
    } else if s[0] == SLASH {
      if |s| > 1 && s[1] == SLASH {
        ts := OutputClean(AfterLine(s[2..]));
      } else if |s| > 1 && s[1] == STAR {
        ts := OutputClean(AfterBlock(s[2..]));
      } else {
        ts := OutputClean(s[1..]);
      }
    } else if s[0] == QUOTE {
      var n := 1 + LiteralEnd(s[1..]);
      var rest := OutputClean(s[n..]);
      ts := [Copied(s[..n])] + rest;
      assert ts[1..] == rest;
    } else {
      var rest := OutputClean(s[1..]);
      ts := [Single(s[0])] + rest;
      assert ts[1..] == rest;
    }
  }
}

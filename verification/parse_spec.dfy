/** cJSON's recursive-descent parser as functions of the text, a position and the nesting depth. */
module ParseSpec {
  import opened Bytes
  import opened Json
  import opened NumberSpec
  import opened StringSpec

  const NESTING_LIMIT: nat := 1000

  /** Every byte up to the space character counts as blank, NUL included. */
  predicate IsBlank(b: byte) {
    b <= 32
  }

  function BlankEnd(c: bytes, o: nat): (r: nat)
    requires o <= |c|
    ensures o <= r <= |c|
    ensures r < |c| ==> !IsBlank(c[r])
    decreases |c| - o
  {
    if o == |c| || !IsBlank(c[o]) then o else BlankEnd(c, o + 1)
  }

  /** buffer_skip_whitespace: at the end of the buffer the cursor steps back onto the last byte. */
  function SkipBlanks(c: bytes, o: nat): (r: nat)
    requires o <= |c|
    ensures o <= r <= |c|
    ensures o < |c| ==> r < |c|
  {
    if o == |c| then o
    else
      var e := BlankEnd(c, o);
      if e == |c| then e - 1 else e
  }

  /** Only bytes up to the space are skipped, and all of them, except for the last byte of the buffer. */
  lemma {:induction false} SkipBlanksLands(c: bytes, o: nat)
    requires o < |c|
    ensures forall i :: o <= i < SkipBlanks(c, o) ==> c[i] <= 0x20
    ensures c[SkipBlanks(c, o)] > 0x20 || SkipBlanks(c, o) == |c| - 1
    decreases |c| - o
  {
    if IsBlank(c[o]) && o + 1 < |c| {
      SkipBlanksLands(c, o + 1);
    }
  }

  lemma SkipBlanksTwice(c: bytes, o: nat)
    requires o <= |c|
    ensures SkipBlanks(c, SkipBlanks(c, o)) == SkipBlanks(c, o)
  {
  }

  predicate Looking(c: bytes, o: nat, text: bytes) {
    o + |text| <= |c| && c[o..o + |text|] == text
  }

  function ParseNumber(c: bytes, o: nat): (r: Parsed<Value>)
    requires o <= |c|
    ensures o <= r.offset <= |c|
    ensures r.Ok? ==> o < r.offset
  {
    match Strtod(c[o..RunEnd(c, o)])
    case NoNumeral => Fail(o)
    case Numeral(len, value) => Ok(Number(value, Saturate(value)), o + len)
  }

  function ParseValue(c: bytes, o: nat, depth: nat): (r: Parsed<Value>)
    requires o <= |c| && depth <= NESTING_LIMIT
    ensures o <= r.offset <= |c|
    ensures r.Ok? ==> o < r.offset
    decreases |c| - o, 3
  {
    if Looking(c, o, NULL_TEXT) then Ok(Null, o + 4)
    else if Looking(c, o, FALSE_TEXT) then Ok(False, o + 5)
    else if Looking(c, o, TRUE_TEXT) then Ok(True, o + 4)
    else if o < |c| && c[o] == QUOTE then
      match ParseString(c, o)
      case Ok(s, end) => Ok(String(s), end)
      case Fail(at) => Fail(at)
    else if o < |c| && (c[o] == MINUS || IsDigit(c[o])) then ParseNumber(c, o)
    else if o < |c| && c[o] == LBRACKET then
      match ParseArray(c, o, depth)
      case Ok(items, end) => Ok(Array(items), end)
      case Fail(at) => Fail(at)
    else if o < |c| && c[o] == LBRACE then
      match ParseObject(c, o, depth)
      case Ok(members, end) => Ok(Object(members), end)
      case Fail(at) => Fail(at)
    else Fail(o)
  }

  function ParseArray(c: bytes, o: nat, depth: nat): (r: Parsed<seq<Value>>)
    requires o < |c| && depth <= NESTING_LIMIT
    ensures o <= r.offset <= |c|
    ensures r.Ok? ==> o < r.offset
    decreases |c| - o, 2
  {
    if depth >= NESTING_LIMIT then Fail(o)
    else
      var p := SkipBlanks(c, o + 1);
      if p < |c| && c[p] == RBRACKET then Ok([], p + 1)
      else if p == |c| then Fail(p - 1)
      else ParseElements(c, p, depth + 1)
  }

  /** The elements of an array from position `p` on, where the blanks before the first one end. */
  function ParseElements(c: bytes, p: nat, depth: nat): (r: Parsed<seq<Value>>)
    requires p <= |c| && depth <= NESTING_LIMIT
    ensures p <= r.offset <= |c|
    ensures r.Ok? ==> p < r.offset && r.value != []
    decreases |c| - p, 4
  {
    match ParseValue(c, p, depth)
    case Fail(at) => Fail(at)
    case Ok(v, end) =>
      var q := SkipBlanks(c, end);
      if q < |c| && c[q] == COMMA then
        match ParseElements(c, SkipBlanks(c, q + 1), depth)
        case Fail(at) => Fail(at)
        case Ok(vs, last) => Ok([v] + vs, last)
      else if q < |c| && c[q] == RBRACKET then Ok([v], q + 1)
      else Fail(q)
  }

  function ParseObject(c: bytes, o: nat, depth: nat): (r: Parsed<seq<Member>>)
    requires o < |c| && depth <= NESTING_LIMIT
    ensures o <= r.offset <= |c|
    ensures r.Ok? ==> o < r.offset
    decreases |c| - o, 2
  {
    if depth >= NESTING_LIMIT then Fail(o)
    else
      var p := SkipBlanks(c, o + 1);
      if p < |c| && c[p] == RBRACE then Ok([], p + 1)
      else if p == |c| then Fail(p - 1)
      else ParseMembers(c, p, depth + 1)
  }

  /** A key at position `p`, and where the value after its colon starts. */
  function ParseKey(c: bytes, p: nat): (r: Parsed<cstring>)
    requires p < |c|
    ensures p < r.offset <= |c|
  {
    match ParseString(c, p)
    case Fail(at) => Fail(at)
    case Ok(key, end) =>
      var q := SkipBlanks(c, end);
      if q < |c| && c[q] == COLON then Ok(key, SkipBlanks(c, q + 1)) else Fail(q)
  }

  /** The members of an object from position `p` on, where the blanks before the first key end. */
  function ParseMembers(c: bytes, p: nat, depth: nat): (r: Parsed<seq<Member>>)
    requires p < |c| && depth <= NESTING_LIMIT
    ensures p <= r.offset <= |c|
    ensures r.Ok? ==> p < r.offset && r.value != []
    decreases |c| - p, 4
  {
    match ParseKey(c, p)
    case Fail(at) => Fail(at)
    case Ok(key, start) =>
      match ParseValue(c, start, depth)
      case Fail(at) => Fail(at)
      case Ok(v, end) =>
        var q := SkipBlanks(c, end);
        if q < |c| && c[q] == COMMA then
          if q + 1 == |c| then Fail(q)
          else
            match ParseMembers(c, SkipBlanks(c, q + 1), depth)
            case Fail(at) => Fail(at)
            case Ok(ms, last) => Ok([Member(key, v)] + ms, last)
        else if q < |c| && c[q] == RBRACE then Ok([Member(key, v)], q + 1)
        else Fail(q)
  }

  /** Where parsing starts: after a byte order mark (only looked for when a fifth byte exists) and blanks. */
  function Start(c: bytes): (r: nat)
    ensures r <= |c|
    ensures c != [] ==> r < |c|
  {
    SkipBlanks(c, if |c| > 4 && c[..3] == BOM then 3 else 0)
  }

  /** cJSON_ParseWithLengthOpts when no allocation fails: the tree and the end position,
      or the position that is reported as the error. */
  function ParseBuffer(c: bytes, terminated: bool): (r: Parsed<Value>)
    ensures c != [] && r.Fail? ==> r.offset < |c|
    ensures r.offset <= |c|
  {
    if c == [] then Fail(0)
    else
      match ParseValue(c, Start(c), 0)
      case Fail(at) => Fail(ErrorPosition(c, at))
      case Ok(v, end) =>
        if !terminated then Ok(v, end)
        else
          var p := SkipBlanks(c, end);
          if p < |c| && c[p] == 0 then Ok(v, p) else Fail(ErrorPosition(c, p))
  }

  function ErrorPosition(c: bytes, at: nat): nat
    requires c != []
  {
    if at < |c| then at else |c| - 1
  }

  /** cJSON_ParseWithOpts: the buffer is the C string together with its terminator. */
  function ParseText(text: cstring, terminated: bool): Parsed<Value> {
    ParseBuffer(text + [0], terminated)
  }
}

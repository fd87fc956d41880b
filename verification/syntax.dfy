/** Concrete syntax trees of the language cJSON accepts, and the value each of them denotes. */
module Syntax {
  import opened Bytes
  import opened Json
  import opened NumberSpec
  import opened StringSpec
  import opened ParseSpec

  datatype Syntax =
    | SNull
    | SFalse
    | STrue
    | SNumber(text: bytes)
    | SString(raw: bytes)               // what stands between the quotes
    | SEmptyArray(blank: bytes)
    | SArray(elems: Elems)
    | SEmptyObject(blank: bytes)
    | SObject(members: Members)

  datatype Elems =
    | LastElem(before: bytes, value: Syntax, after: bytes)
    | MoreElems(before: bytes, value: Syntax, after: bytes, rest: Elems)

  datatype Members =
    | LastMember(key: Key, value: Syntax, after: bytes)
    | MoreMembers(key: Key, value: Syntax, after: bytes, rest: Members)

  /** A quoted key, its colon, and the blanks before, between and after them. */
  datatype Key = Key(before: bytes, raw: bytes, mid: bytes, after: bytes)

  // ----- the text

  function Flatten(s: Syntax): bytes {
    match s
    case SNull => NULL_TEXT
    case SFalse => FALSE_TEXT
    case STrue => TRUE_TEXT
    case SNumber(text) => text
    case SString(raw) => Quoted(raw)
    case SEmptyArray(blank) => [LBRACKET] + (blank + [RBRACKET])
    case SArray(elems) => [LBRACKET] + FlattenElems(elems)
    case SEmptyObject(blank) => [LBRACE] + (blank + [RBRACE])
    case SObject(members) => [LBRACE] + FlattenMembers(members)
  }

  function Quoted(raw: bytes): bytes {
    [QUOTE] + (raw + [QUOTE])
  }

  /** A part with blanks around it and what comes next. */
  function Spaced(before: bytes, text: bytes, after: bytes, tail: bytes): (r: bytes)
    ensures |r| == |before| + |text| + |after| + |tail|
  {
    before + (text + (after + tail))
  }

  /** The elements together with the bracket that closes them. */
  function FlattenElems(es: Elems): bytes {
    Spaced(es.before, Flatten(es.value), es.after,
      match es
      case LastElem(_, _, _) => [RBRACKET]
      case MoreElems(_, _, _, rest) => [COMMA] + FlattenElems(rest))
  }

  function FlattenKey(k: Key): bytes {
    k.before + (Quoted(k.raw) + (k.mid + ([COLON] + k.after)))
  }

  function FlattenMembers(ms: Members): bytes {
    FlattenKey(ms.key) + Spaced([], Flatten(ms.value), ms.after,
      match ms
      case LastMember(_, _, _) => [RBRACE]
      case MoreMembers(_, _, _, rest) => [COMMA] + FlattenMembers(rest))
  }

  // ----- which trees are accepted

  ghost predicate Blank(s: bytes) {
    forall i :: 0 <= i < |s| ==> IsBlank(s[i])
  }

  predicate Signed(text: bytes) {
    text != [] && (text[0] == MINUS || IsDigit(text[0]))
  }

  ghost predicate ValidNumber(text: bytes) {
    && Signed(text) && AllNumberChars(text)
    && Strtod(text).Numeral? && Strtod(text).len == |text|
  }

  ghost predicate ValidString(raw: bytes) {
    Balanced(raw) && Unescape(raw).Text?
  }

  ghost predicate Valid(s: Syntax) {
    match s
    case SNumber(text) => ValidNumber(text)
    case SString(raw) => ValidString(raw)
    case SEmptyArray(blank) => Blank(blank)
    case SArray(elems) => ValidElems(elems)
    case SEmptyObject(blank) => Blank(blank)
    case SObject(members) => ValidMembers(members)
    case _ => true
  }

  ghost predicate ValidElems(es: Elems) {
    && Blank(es.before) && Valid(es.value) && Blank(es.after)
    && (es.MoreElems? ==> ValidElems(es.rest))
  }

  ghost predicate ValidKey(k: Key) {
    Blank(k.before) && ValidString(k.raw) && Blank(k.mid) && Blank(k.after)
  }

  ghost predicate ValidMembers(ms: Members) {
    && ValidKey(ms.key) && Valid(ms.value) && Blank(ms.after)
    && (ms.MoreMembers? ==> ValidMembers(ms.rest))
  }

  // ----- what they mean

  ghost function Meaning(s: Syntax): Value
    requires Valid(s)
  {
    match s
    case SNull => Null
    case SFalse => False
    case STrue => True
    case SNumber(text) => Number(Strtod(text).value, Saturate(Strtod(text).value))
    case SString(raw) => String(CStr(Unescape(raw).out))
    case SEmptyArray(_) => Array([])
    case SArray(elems) => Array(ElemsMeaning(elems))
    case SEmptyObject(_) => Object([])
    case SObject(members) => Object(MembersMeaning(members))
  }

  ghost function ElemsMeaning(es: Elems): seq<Value>
    requires ValidElems(es)
  {
    match es
    case LastElem(_, value, _) => [Meaning(value)]
    case MoreElems(_, value, _, rest) => [Meaning(value)] + ElemsMeaning(rest)
  }

  ghost function KeyMeaning(k: Key): cstring
    requires ValidKey(k)
  {
    CStr(Unescape(k.raw).out)
  }

  ghost function MembersMeaning(ms: Members): seq<Member>
    requires ValidMembers(ms)
  {
    match ms
    case LastMember(key, value, _) => [Member(KeyMeaning(key), Meaning(value))]
    case MoreMembers(key, value, _, rest) => [Member(KeyMeaning(key), Meaning(value))] + MembersMeaning(rest)
  }

  /** Nesting depth of the text. */
  function Depth(s: Syntax): nat {
    match s
    case SEmptyArray(_) => 1
    case SArray(elems) => 1 + ElemsDepth(elems)
    case SEmptyObject(_) => 1
    case SObject(members) => 1 + MembersDepth(members)
    case _ => 0
  }

  function ElemsDepth(es: Elems): nat {
    match es
    case LastElem(_, value, _) => Depth(value)
    case MoreElems(_, value, _, rest) => Max(Depth(value), ElemsDepth(rest))
  }

  function MembersDepth(ms: Members): nat {
    match ms
    case LastMember(_, value, _) => Depth(value)
    case MoreMembers(_, value, _, rest) => Max(Depth(value), MembersDepth(rest))
  }

  // ----- whole documents

  datatype Document = Document(bom: bool, before: bytes, value: Syntax, after: bytes)

  function FlattenDocument(d: Document): bytes {
    (if d.bom then BOM else []) + (d.before + (Flatten(d.value) + d.after))
  }

  ghost predicate ValidDocument(d: Document) {
    Blank(d.before) && Valid(d.value) && Blank(d.after) && Depth(d.value) <= NESTING_LIMIT
  }
}

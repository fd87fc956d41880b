/** What a cJSON tree can stand for (middlewares/cJSON/cJSON.h). */
module Json {
  import opened Bytes

  /** The range of a 32-bit `int` field. */
  type int32 = x: int | INT_MIN <= x <= INT_MAX

  datatype Value =
    | Null
    | False
    | True
    | Number(d: real, i: int32)          // valuedouble (exact here) and valueint
    | String(s: cstring)
    | Array(items: seq<Value>)
    | Object(members: seq<Member>)
    | Raw(text: cstring)                 // printed as it stands; the parser never builds it
    | Invalid                            // what cannot be printed: an unknown kind, or raw text that is missing

  datatype Member = Member(key: cstring, value: Value)

  function Max(a: nat, b: nat): nat {
    if a < b then b else a
  }

  /** How many arrays and objects enclose one another at most. */
  function Nesting(v: Value): nat
    decreases v
  {
    match v
    case Array(items) => 1 + NestingItems(items)
    case Object(members) => 1 + NestingMembers(members)
    case _ => 0
  }

  function NestingItems(items: seq<Value>): nat
    decreases items
  {
    if items == [] then 0 else Max(Nesting(items[0]), NestingItems(items[1..]))
  }

  function NestingMembers(members: seq<Member>): nat
    decreases members
  {
    if members == [] then 0 else Max(Nesting(members[0].value), NestingMembers(members[1..]))
  }
}

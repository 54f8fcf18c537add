/**
  Decoded JSON values, as `response.json()` hands them to the Semantic Scholar client, together
  with the few Python operations the client applies to them: truthiness, `dict.get`, `in`,
  `isinstance(..., int)` and iteration.

  An object is the decoded dict: its entries in insertion order. Decoding keeps one entry per
  key, so `Get` can take the first entry with the key.
 */
module Json {
  import opened Wrappers
  import opened Text

  datatype Json =
    | JNull
    | JBool(b: bool)
    | JInt(i: int)
    | JReal(r: real)
    | JStr(s: string)
    | JArr(elems: seq<Json>)
    | JObj(fields: seq<(string, Json)>)

  /** Python's `bool(v)`: None, False, zero, and empty strings, lists and dicts are false. */
  predicate Truthy(v: Json) {
    match v
    case JNull => false
    case JBool(b) => b
    case JInt(i) => i != 0
    case JReal(r) => r != 0.0
    case JStr(s) => s != []
    case JArr(elems) => elems != []
    case JObj(fields) => fields != []
  }

  /** `d.get(key)`, with None for a missing key. */
  function Get(fields: seq<(string, Json)>, key: string): Option<Json> {
    if fields == [] then None
    else if fields[0].0 == key then Some(fields[0].1)
    else Get(fields[1..], key)
  }

  /** A key has a value exactly when some entry has it, and the value is that of such an entry. */
  lemma {:induction false} GetFound(fields: seq<(string, Json)>, key: string)
    ensures Get(fields, key).Some? <==> exists k :: 0 <= k < |fields| && fields[k].0 == key
    ensures Get(fields, key).Some? ==> exists k :: 0 <= k < |fields| && fields[k] == (key, Get(fields, key).value)
  {
    if fields != [] && fields[0].0 != key {
      GetFound(fields[1..], key);
      assert forall k :: 0 <= k < |fields[1..]| ==> fields[1..][k] == fields[k + 1];
    }
  }

  /** The value of a key is that of its first entry. */
  lemma {:induction false} GetAt(fields: seq<(string, Json)>, k: nat)
    requires k < |fields|
    requires forall j :: 0 <= j < k ==> fields[j].0 != fields[k].0
    ensures Get(fields, fields[k].0) == Some(fields[k].1)
  {
    if k > 0 {
      assert fields[1..][k - 1] == fields[k];
      GetAt(fields[1..], k - 1);
    }
  }

  /** `d.get(key, default)`. */
  function GetOrDefault(fields: seq<(string, Json)>, key: string, default: Json): Json {
    Get(fields, key).GetOr(default)
  }

  /** The keys of a dict, in order. */
  function Keys(fields: seq<(string, Json)>): (ks: seq<Json>)
    ensures |ks| == |fields|
    ensures forall k :: 0 <= k < |ks| ==> ks[k] == JStr(fields[k].0)
  {
    seq(|fields|, k requires 0 <= k < |fields| => JStr(fields[k].0))
  }

  /** The one-character strings of a string, in order. */
  function Chars(s: string): (cs: seq<Json>)
    ensures |cs| == |s|
    ensures forall k :: 0 <= k < |cs| ==> cs[k] == JStr([s[k]])
  {
    seq(|s|, k requires 0 <= k < |s| => JStr([s[k]]))
  }

  /**
    What a `for` loop visits: a list's elements, a dict's keys or a string's characters.
    None stands for the TypeError any other value raises.
   */
  function Iterate(v: Json): Option<seq<Json>> {
    match v
    case JArr(elems) => Some(elems)
    case JObj(fields) => Some(Keys(fields))
    case JStr(s) => Some(Chars(s))
    case _ => None
  }

  /** `isinstance(v, int)`: Python's booleans are integers too. */
  predicate IsInt(v: Json) {
    v.JInt? || v.JBool?
  }

  /** The integer value of an `int` or `bool`. */
  function IntValue(v: Json): int
    requires IsInt(v)
  {
    match v
    case JInt(i) => i
    case JBool(b) => if b then 1 else 0
  }

  /**
    Python's `"data" in v`: a key of a dict, an element of a list, a substring of a string.
    None stands for the TypeError a number, a boolean or None raises.
   */
  function HasMember(v: Json, key: string): Option<bool> {
    match v
    case JObj(fields) => Some(Get(fields, key).Some?)
    case JArr(elems) => Some(JStr(key) in elems)
    case JStr(s) => Some(Contains(s, key))
    case _ => None
  }
}

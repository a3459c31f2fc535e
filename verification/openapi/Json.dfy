/** JSON values, and the two ways their strings are measured. */
module Json {
  datatype Json =
    | Null
    | Bool(b: bool)
    | Num(n: real)
    | Str(s: string)
    | Arr(items: seq<Json>)
    | Obj(fields: map<string, Json>)

  // `s.length` in JavaScript: a character outside the basic plane takes two code units. (JSON
  // Schema counts characters, which is `|s|`.)
  function Utf16Length(s: string): (n: nat)
    ensures |s| <= n <= 2 * |s|
  {
    if s == "" then 0 else (if s[0] >= '\U{10000}' then 2 else 1) + Utf16Length(s[1..])
  }

  predicate BasicPlane(s: string) {
    forall i :: 0 <= i < |s| ==> s[i] < '\U{10000}'
  }

  lemma BasicPlaneLength(s: string)
    requires BasicPlane(s)
    ensures Utf16Length(s) == |s|
  {
  }

  // Every string of the value stays in the basic plane.
  ghost predicate AllBasicPlane(v: Json) {
    match v
    case Str(s) => BasicPlane(s)
    case Arr(items) => forall i :: 0 <= i < |items| ==> AllBasicPlane(items[i])
    case Obj(fields) => forall k :: k in fields ==> AllBasicPlane(fields[k])
    case _ => true
  }
}

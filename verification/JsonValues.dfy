/** JSON values as immutable trees. The members of an object keep their order. */
module JsonValues {
  import opened Bytes
  import opened Members

  datatype Json =
    | Null
    | Bool(flag: bool)
    | Num(number: real)
    | Str(chars: seq<byte>)
    | Arr(items: seq<Json>)
    | Obj(members: seq<Member<Json>>)

  /** What every `JSON_Object` guarantees, at every level: distinct names. */
  ghost predicate WellFormed(v: Json) {
    match v
    case Arr(items) => forall i :: 0 <= i < |items| ==> WellFormed(items[i])
    case Obj(members) =>
      Distinct(members) && forall i :: 0 <= i < |members| ==> WellFormed(members[i].value)
    case _ => true
  }

  ghost predicate NumberFree(v: Json) {
    match v
    case Num(_) => false
    case Arr(items) => forall i :: 0 <= i < |items| ==> NumberFree(items[i])
    case Obj(members) => forall i :: 0 <= i < |members| ==> NumberFree(members[i].value)
    case _ => true
  }

  /** How many levels of containers stand above the deepest value. */
  ghost function Height(v: Json): nat {
    match v
    case Arr(items) => if items == [] then 0 else 1 + HeightOfItems(items)
    case Obj(members) => if members == [] then 0 else 1 + HeightOfMembers(members)
    case _ => 0
  }

  ghost function HeightOfItems(items: seq<Json>): nat {
    if items == [] then 0 else Max(Height(items[0]), HeightOfItems(items[1..]))
  }

  ghost function HeightOfMembers(members: seq<Member<Json>>): nat {
    if members == [] then 0 else Max(Height(members[0].value), HeightOfMembers(members[1..]))
  }
}

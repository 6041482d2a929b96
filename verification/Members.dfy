/**
 The meaning of a JSON object: an ordered list of members with pairwise
 distinct names. Every operation of the hash table is specified by one of the
 functions below.
 */
module Members {
  import opened Bytes

  datatype Option<+T> = None | Some(value: T)

  datatype Member<+V> = Member(name: cstr, value: V)

  ghost predicate Distinct<V>(ms: seq<Member<V>>) {
    forall i, j :: 0 <= i < j < |ms| ==> ms[i].name != ms[j].name
  }

  /** The position of the first member called `name`, or the length when there is none. */
  function IndexOf<V>(ms: seq<Member<V>>, name: cstr): (ix: nat)
    ensures ix <= |ms|
    ensures ix < |ms| ==> ms[ix].name == name
    ensures forall k :: 0 <= k < ix ==> ms[k].name != name
  {
    if ms == [] then 0
    else if ms[0].name == name then 0
    else 1 + IndexOf(ms[1..], name)
  }

  predicate Has<V>(ms: seq<Member<V>>, name: cstr) {
    IndexOf(ms, name) < |ms|
  }

  function Lookup<V>(ms: seq<Member<V>>, name: cstr): Option<V> {
    var ix := IndexOf(ms, name);
    if ix < |ms| then Some(ms[ix].value) else None
  }

  /** Replaces the value of an existing member in place, or appends a new one. */
  function Put<V>(ms: seq<Member<V>>, name: cstr, value: V): seq<Member<V>> {
    var ix := IndexOf(ms, name);
    if ix < |ms| then ms[ix := Member(name, value)] else ms + [Member(name, value)]
  }

  /** Removal moves the last member into the hole. */
  function Remove<V>(ms: seq<Member<V>>, name: cstr): seq<Member<V>> {
    var ix := IndexOf(ms, name);
    if ix < |ms| then ms[ix := ms[|ms| - 1]][..|ms| - 1] else ms
  }

  // ----- every operation keeps the names distinct and acts as on a map -----

  ghost function Names<V>(ms: seq<Member<V>>): (ns: set<cstr>)
    ensures forall k :: k in ns <==> IndexOf(ms, k) < |ms|
  {
    var ns := set m | m in ms :: m.name;
    assert forall k :: IndexOf(ms, k) < |ms| ==> ms[IndexOf(ms, k)] in ms;
    assert forall m | m in ms :: IndexOf(ms, m.name) < |ms|;
    ns
  }

  ghost function ToMap<V>(ms: seq<Member<V>>): map<cstr, V>
  {
    map k | k in Names(ms) :: ms[IndexOf(ms, k)].value
  }

  /** With distinct names, a position determines what lookup returns. */
  lemma IndexOfAt<V>(ms: seq<Member<V>>, k: nat)
    requires Distinct(ms) && k < |ms|
    ensures IndexOf(ms, ms[k].name) == k
  {
    var ix := IndexOf(ms, ms[k].name);
    assert ix <= k;
  }

  /** A new value is written where the old one stood. */
  lemma PutInPlace<V>(a: seq<Member<V>>, m: Member<V>, b: seq<Member<V>>, value: V)
    requires forall i :: 0 <= i < |a| ==> a[i].name != m.name
    ensures Put(a + [m] + b, m.name, value) == a + [Member(m.name, value)] + b
  {
    var all := a + [m] + b;
    assert all[|a|] == m && forall i :: 0 <= i < |a| ==> all[i] == a[i];
  }

  /** Without an old value the member goes behind all others. */
  lemma PutBehind<V>(ms: seq<Member<V>>, name: cstr, value: V)
    requires forall i :: 0 <= i < |ms| ==> ms[i].name != name
    ensures Put(ms, name, value) == ms + [Member(name, value)]
  {
  }

  /** The last member takes the place of the removed one; the others stay where they are. */
  lemma RemoveMovesLast<V>(a: seq<Member<V>>, m: Member<V>, b: seq<Member<V>>, last: Member<V>)
    requires forall i :: 0 <= i < |a| ==> a[i].name != m.name
    ensures Remove(a + [m] + b + [last], m.name) == a + [last] + b
    ensures Remove(a + [m], m.name) == a
  {
    var all := a + [m] + b + [last];
    assert all[|a|] == m && forall i :: 0 <= i < |a| ==> all[i] == a[i];
    assert (a + [m])[|a|] == m && forall i :: 0 <= i < |a| ==> (a + [m])[i] == a[i];
  }

  lemma LookupAfterPut<V>(ms: seq<Member<V>>, name: cstr, value: V, k: cstr)
    requires Distinct(ms)
    ensures Distinct(Put(ms, name, value))
    ensures Lookup(Put(ms, name, value), k) == if k == name then Some(value) else Lookup(ms, k)
  {
    hide IndexOf;
    var r := Put(ms, name, value);
    var ix := IndexOf(r, k);
    if ix < |r| && ix < |ms| { IndexOfAt(ms, ix); IndexOfAt(r, ix); }
    if IndexOf(ms, k) < |ms| { IndexOfAt(r, IndexOf(ms, k)); }
    if k == name { IndexOfAt(r, IndexOf(ms, name)); }
  }

  lemma PutIsMapUpdate<V>(ms: seq<Member<V>>, name: cstr, value: V)
    requires Distinct(ms)
    ensures Distinct(Put(ms, name, value))
    ensures ToMap(Put(ms, name, value)) == ToMap(ms)[name := value]
  {
    var r := Put(ms, name, value);
    forall k: cstr
      ensures Lookup(r, k) == if k == name then Some(value) else Lookup(ms, k)
    {
      LookupAfterPut(ms, name, value, k);
    }
    forall k
      ensures k in ToMap(r) <==> k in ToMap(ms)[name := value]
      ensures k in ToMap(r) ==> ToMap(r)[k] == ToMap(ms)[name := value][k]
    {
      assert Lookup(r, k) == if k == name then Some(value) else Lookup(ms, k);
    }
  }

  lemma LookupAfterRemove<V>(ms: seq<Member<V>>, name: cstr, k: cstr)
    requires Distinct(ms)
    ensures Distinct(Remove(ms, name))
    ensures Lookup(Remove(ms, name), k) == if k == name then None else Lookup(ms, k)
  {
    hide IndexOf;
    var r := Remove(ms, name);
    var hole, last := IndexOf(ms, name), |ms| - 1;
    if hole < |ms| {
      var ix := IndexOf(ms, k);
      if k != name && ix < |ms| {
        IndexOfAt(r, if ix == last then hole else ix);
      }
      if IndexOf(r, k) < |r| {
        var at := IndexOf(r, k);
        IndexOfAt(ms, if at == hole then last else at);
      }
    }
  }

  lemma RemoveIsMapRemove<V>(ms: seq<Member<V>>, name: cstr)
    requires Distinct(ms)
    ensures Distinct(Remove(ms, name))
    ensures ToMap(Remove(ms, name)) == ToMap(ms) - {name}
  {
    hide IndexOf, Remove, Names;
    var r := Remove(ms, name);
    LookupAfterRemove(ms, name, name);
    forall k: cstr
      ensures Lookup(r, k) == if k == name then None else Lookup(ms, k)
    {
      LookupAfterRemove(ms, name, k);
    }
    forall k
      ensures k in ToMap(r) <==> k in ToMap(ms) - {name}
      ensures k in ToMap(r) ==> ToMap(r)[k] == ToMap(ms)[k]
    {
      assert Lookup(r, k) == if k == name then None else Lookup(ms, k);
    }
  }

  lemma SplitOffLast<T>(s: seq<T>)
    requires s != []
    ensures multiset(s) == multiset(s[..|s| - 1]) + multiset{s[|s| - 1]}
  {
    assert s == s[..|s| - 1] + [s[|s| - 1]];
  }

  /** The last element moved into the place of element `ix`. */
  lemma MoveLastKeepsTheRest<T>(s: seq<T>, ix: nat)
    requires ix < |s|
    ensures multiset(s) == multiset(s[ix := s[|s| - 1]][..|s| - 1]) + multiset{s[ix]}
  {
    var last := |s| - 1;
    if ix == last {
      assert s[ix := s[last]][..last] == s[..last];
      SplitOffLast(s);
    } else {
      var front, moved := s[..last], s[last];
      assert s[ix := moved][..last] == front[ix := moved];
      SplitOffLast(s);
      assert multiset(front[ix := moved]) == multiset(front) - multiset{front[ix]} + multiset{moved};
    }
  }

  /** Nothing but the removed member is lost, although the order changes. */
  lemma RemoveKeepsTheRest<V>(ms: seq<Member<V>>, name: cstr)
    requires Has(ms, name)
    ensures multiset(ms) == multiset(Remove(ms, name)) + multiset{ms[IndexOf(ms, name)]}
  {
    hide IndexOf;
    MoveLastKeepsTheRest(ms, IndexOf(ms, name));
  }

  // ----- runs -----

  /** The mutating calls of the object API. */
  datatype Call<+V> =
    | CallAdd(name: cstr, value: V)
    | CallSet(name: cstr, value: V)
    | CallRemove(name: cstr)
    | CallClear

  /** The member list after a call (growth never refused). */
  function After<V>(ms: seq<Member<V>>, c: Call<V>): seq<Member<V>> {
    match c
    case CallAdd(name, value) => if Has(ms, name) then ms else ms + [Member(name, value)]
    case CallSet(name, value) => Put(ms, name, value)
    case CallRemove(name) => Remove(ms, name)
    case CallClear => []
  }

  function Run<V>(calls: seq<Call<V>>): seq<Member<V>> {
    if calls == [] then [] else After(Run(calls[..|calls| - 1]), calls[|calls| - 1])
  }

  /** The same run on a plain map. */
  ghost function RunOnMap<V>(calls: seq<Call<V>>): map<cstr, V> {
    if calls == [] then map[]
    else
      var m := RunOnMap(calls[..|calls| - 1]);
      match calls[|calls| - 1]
      case CallAdd(name, value) => if name in m then m else m[name := value]
      case CallSet(name, value) => m[name := value]
      case CallRemove(name) => m - {name}
      case CallClear => map[]
  }

  lemma {:induction false} RunRefinesMap<V>(calls: seq<Call<V>>)
    ensures Distinct(Run(calls))
    ensures ToMap(Run(calls)) == RunOnMap(calls)
  {
    if calls != [] {
      var before, c := calls[..|calls| - 1], calls[|calls| - 1];
      RunRefinesMap(before);
      match c
      case CallAdd(name, value) =>
        assert name in ToMap(Run(before)) <==> Has(Run(before), name);
        if !Has(Run(before), name) { PutIsMapUpdate(Run(before), name, value); }
      case CallSet(name, value) => PutIsMapUpdate(Run(before), name, value);
      case CallRemove(name) => RemoveIsMapRemove(Run(before), name);
      case CallClear =>
    }
  }
}

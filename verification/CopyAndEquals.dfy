/** `json_value_deep_copy` and `json_value_equals`, which read members by name. */
module CopyAndEquals {
  import opened Bytes
  import opened Members
  import opened JsonValues
  import opened Doubles

  // ----- deep copy -----

  function DeepCopy(v: Json): Option<Json>
    decreases v, 1, 0
  {
    match v
    case Arr(_) => CopyItems(v, 0, [])
    case Obj(_) => CopyMembers(v, 0, [])
    case _ => Some(v)
  }

  function CopyItems(v: Json, i: nat, copy: seq<Json>): Option<Json>
    requires v.Arr? && i <= |v.items|
    decreases v, 0, |v.items| - i
  {
    if i == |v.items| then Some(Arr(copy))
    else
      match DeepCopy(v.items[i])
      case None => None
      case Some(item) => CopyItems(v, i + 1, copy + [item])
  }

  /** The value of member `i` is looked up by its name; adding refuses a name already there. */
  function CopyMembers(v: Json, i: nat, copy: seq<Member<Json>>): Option<Json>
    requires v.Obj? && i <= |v.members|
    decreases v, 0, |v.members| - i
  {
    if i == |v.members| then Some(Obj(copy))
    else
      var key := v.members[i].name;
      var ix := IndexOf(v.members, key);
      match DeepCopy(v.members[ix].value)
      case None => None
      case Some(value) => if Has(copy, key) then None else CopyMembers(v, i + 1, copy + [Member(key, value)])
  }

  method DeepCopyValue(v: Json) returns (r: Option<Json>)
    ensures r == DeepCopy(v)
    decreases v
  {
    match v
    case Arr(items) =>
      var copy := [];
      for i := 0 to |items|
        invariant CopyItems(v, i, copy) == DeepCopy(v)
      {
        var item := DeepCopyValue(items[i]);
        if item.None? { return None; }
        copy := copy + [item.value];
      }
      return Some(Arr(copy));
    case Obj(members) =>
      var copy: seq<Member<Json>> := [];
      for i := 0 to |members|
        invariant CopyMembers(v, i, copy) == DeepCopy(v)
      {
        var key := members[i].name;
        var ix := IndexOf(members, key);
        var value := DeepCopyValue(members[ix].value);
        if value.None? || Has(copy, key) { return None; }
        copy := copy + [Member(key, value.value)];
      }
      return Some(Obj(copy));
    case _ => return Some(v);
  }

  /**
   A copy is the same tree, members in the same order; copying fails exactly
   on trees that no sequence of object calls can build.
   */
  lemma {:induction false} DeepCopyIsSame(v: Json)
    ensures DeepCopy(v) == if WellFormed(v) then Some(v) else None
    decreases v, 1, 0
  {
    match v
    case Arr(items) =>
      assert items[..0] == [];
      CopyItemsIsSame(v, 0);
      assert items[..|items|] == items;
    case Obj(members) =>
      assert members[..0] == [];
      CopyMembersIsSame(v, 0);
    case _ =>
  }

  lemma {:induction false} CopyItemsIsSame(v: Json, i: nat)
    requires v.Arr? && i <= |v.items|
    requires forall k :: 0 <= k < i ==> WellFormed(v.items[k])
    ensures CopyItems(v, i, v.items[..i]) == if WellFormed(v) then Some(v) else None
    decreases v, 0, |v.items| - i
  {
    var items := v.items;
    if i == |items| {
      assert items[..i] == items;
    } else {
      DeepCopyIsSame(items[i]);
      if WellFormed(items[i]) {
        assert items[..i] + [items[i]] == items[..i + 1];
        CopyItemsIsSame(v, i + 1);
      }
    }
  }

  lemma {:induction false} CopyMembersIsSame(v: Json, i: nat)
    requires v.Obj? && i <= |v.members|
    requires Distinct(v.members[..i]) && forall k :: 0 <= k < i ==> WellFormed(v.members[k].value)
    ensures CopyMembers(v, i, v.members[..i]) == if WellFormed(v) then Some(v) else None
    decreases v, 0, |v.members| - i
  {
    var ms := v.members;
    if i == |ms| {
      assert ms[..i] == ms;
    } else {
      var key := ms[i].name;
      var ix := IndexOf(ms, key);
      if ix < i {
        assert ms[ix].name == ms[i].name;  // a repeated name: not well-formed, and refused
        assert ms[..i][ix].name == key;
        DeepCopyIsSame(ms[ix].value);
      } else {
        assert ix == i;
        DeepCopyIsSame(ms[i].value);
        if WellFormed(ms[i].value) {
          assert ms[..i] + [ms[i]] == ms[..i + 1];
          assert Distinct(ms[..i + 1]);
          CopyMembersIsSame(v, i + 1);
        }
      }
    }
  }

  // ----- equality -----

  predicate Equals(a: Json, b: Json)
    decreases a, 1, 0
  {
    match (a, b)
    case (Arr(xs), Arr(ys)) => |xs| == |ys| && ItemsEqual(a, b, 0)
    case (Obj(xs), Obj(ys)) => |xs| == |ys| && MembersEqual(a, b, 0)
    case (Str(s), Str(t)) => s == t
    case (Bool(x), Bool(y)) => x == y
    case (Num(x), Num(y)) => Near(x, y)
    case (Null, Null) => true
    case _ => false
  }

  predicate ItemsEqual(a: Json, b: Json, i: nat)
    requires a.Arr? && b.Arr? && |a.items| == |b.items| && i <= |a.items|
    decreases a, 0, |a.items| - i
  {
    i == |a.items| || (Equals(a.items[i], b.items[i]) && ItemsEqual(a, b, i + 1))
  }

  /** Both values are looked up by the name of member `i` of `a`. */
  predicate MembersEqual(a: Json, b: Json, i: nat)
    requires a.Obj? && b.Obj? && |a.members| == |b.members| && i <= |a.members|
    decreases a, 0, |a.members| - i
  {
    i == |a.members| ||
    (var key := a.members[i].name;
     var x, y := IndexOf(a.members, key), IndexOf(b.members, key);
     && y < |b.members|
     && Equals(a.members[x].value, b.members[y].value)
     && MembersEqual(a, b, i + 1))
  }

  method ValueEquals(a: Json, b: Json) returns (r: bool)
    ensures r == Equals(a, b)
    decreases a
  {
    hide Near;
    match (a, b)
    case (Arr(xs), Arr(ys)) =>
      if |xs| != |ys| { return false; }
      for i := 0 to |xs|
        invariant ItemsEqual(a, b, i) == Equals(a, b)
      {
        var same := ValueEquals(xs[i], ys[i]);
        if !same { return false; }
      }
      return true;
    case (Obj(xs), Obj(ys)) =>
      if |xs| != |ys| { return false; }
      for i := 0 to |xs|
        invariant MembersEqual(a, b, i) == Equals(a, b)
      {
        var key := xs[i].name;
        var x, y := IndexOf(xs, key), IndexOf(ys, key);
        if y == |ys| { return false; }
        var same := ValueEquals(xs[x].value, ys[y].value);
        if !same { return false; }
      }
      return true;
    case (Str(s), Str(t)) => return s == t;
    case (Bool(x), Bool(y)) => return x == y;
    case (Num(x), Num(y)) => return Near(x, y);
    case (Null, Null) => return true;
    case _ => return false;
  }

  // ----- equality up to member order -----

  /** A value with the order of members forgotten. */
  datatype Plain =
    | PlainNull
    | PlainBool(flag: bool)
    | PlainNum(number: real)
    | PlainStr(chars: seq<byte>)
    | PlainArr(items: seq<Plain>)
    | PlainObj(members: map<cstr, Plain>)

  ghost function Meaning(v: Json): Plain {
    match v
    case Null => PlainNull
    case Bool(flag) => PlainBool(flag)
    case Num(number) => PlainNum(number)
    case Str(chars) => PlainStr(chars)
    case Arr(items) => PlainArr(seq(|items|, i requires 0 <= i < |items| => Meaning(items[i])))
    case Obj(members) => PlainObj(map k | k in Names(members) :: Meaning(members[IndexOf(members, k)].value))
  }

  lemma NameMeansMember(ms: seq<Member<Json>>, k: cstr)
    ensures k in Names(ms) <==> exists i :: 0 <= i < |ms| && ms[i].name == k
  {
    if k in Names(ms) { assert ms[IndexOf(ms, k)].name == k; }
  }

  lemma {:induction false} NamesCount(ms: seq<Member<Json>>)
    requires Distinct(ms)
    ensures |Names(ms)| == |ms|
  {
    if ms != [] {
      var front, last := ms[..|ms| - 1], ms[|ms| - 1];
      assert Distinct(front);
      NamesCount(front);
      forall k ensures k in Names(ms) <==> k in Names(front) + {last.name} {
        NameMeansMember(ms, k);
        NameMeansMember(front, k);
      }
      assert Names(ms) == Names(front) + {last.name};
      NameMeansMember(front, last.name);
    }
  }

  lemma SameSizeSubset<T>(a: set<T>, b: set<T>)
    requires a <= b && |a| == |b|
    ensures a == b
  {
    assert |b - a| == |b| - |a|;
  }

  /** With as many distinct names on both sides, finding all of `a` in `b` is finding all of `b` in `a`. */
  lemma NamesAgree(a: seq<Member<Json>>, b: seq<Member<Json>>)
    requires Distinct(a) && Distinct(b) && |a| == |b|
    requires forall i :: 0 <= i < |a| ==> Has(b, a[i].name)
    ensures Names(a) == Names(b)
  {
    NamesCount(a);
    NamesCount(b);
    forall k | k in Names(a) ensures k in Names(b) {
      assert Has(b, a[IndexOf(a, k)].name);
    }
    SameSizeSubset(Names(a), Names(b));
  }

  /** The loops compare exactly the pairs of values under equal names. */
  lemma {:induction false} MembersEqualAll(a: Json, b: Json, i: nat)
    requires a.Obj? && b.Obj? && |a.members| == |b.members| && i <= |a.members| && Distinct(a.members)
    ensures MembersEqual(a, b, i) <==>
            forall k :: i <= k < |a.members| ==>
              var y := IndexOf(b.members, a.members[k].name);
              y < |b.members| && Equals(a.members[k].value, b.members[y].value)
    decreases |a.members| - i
  {
    if i < |a.members| {
      IndexOfAt(a.members, i);
      MembersEqualAll(a, b, i + 1);
    }
  }

  lemma {:induction false} ItemsEqualAll(a: Json, b: Json, i: nat)
    requires a.Arr? && b.Arr? && |a.items| == |b.items| && i <= |a.items|
    ensures ItemsEqual(a, b, i) <==> forall k :: i <= k < |a.items| ==> Equals(a.items[k], b.items[k])
    decreases |a.items| - i
  {
    if i < |a.items| { ItemsEqualAll(a, b, i + 1); }
  }

  lemma {:induction false} EqualsReflexive(a: Json)
    requires WellFormed(a)
    ensures Equals(a, a)
  {
    match a
    case Arr(items) =>
      forall k | 0 <= k < |items| ensures Equals(items[k], items[k]) { EqualsReflexive(items[k]); }
      ItemsEqualAll(a, a, 0);
    case Obj(ms) =>
      forall k | 0 <= k < |ms|
        ensures IndexOf(ms, ms[k].name) == k && Equals(ms[k].value, ms[k].value)
      {
        IndexOfAt(ms, k);
        EqualsReflexive(ms[k].value);
      }
      MembersEqualAll(a, a, 0);
    case _ =>
  }

  lemma {:induction false} EqualsSymmetric(a: Json, b: Json)
    requires WellFormed(a) && WellFormed(b) && Equals(a, b)
    ensures Equals(b, a)
  {
    match (a, b)
    case (Arr(xs), Arr(ys)) =>
      ItemsEqualAll(a, b, 0);
      forall k | 0 <= k < |xs| ensures Equals(ys[k], xs[k]) { EqualsSymmetric(xs[k], ys[k]); }
      ItemsEqualAll(b, a, 0);
    case (Obj(xs), Obj(ys)) =>
      MembersEqualAll(a, b, 0);
      NamesAgree(xs, ys);
      forall k | 0 <= k < |ys|
        ensures var x := IndexOf(xs, ys[k].name); x < |xs| && Equals(ys[k].value, xs[x].value)
      {
        IndexOfAt(ys, k);
        assert ys[k].name in Names(ys);
        var x := IndexOf(xs, ys[k].name);
        EqualsSymmetric(xs[x].value, ys[k].value);
      }
      MembersEqualAll(b, a, 0);
    case _ =>
  }

  lemma SameItems(xs: seq<Json>, ys: seq<Json>)
    ensures Meaning(Arr(xs)) == Meaning(Arr(ys)) <==>
            |xs| == |ys| && forall k :: 0 <= k < |xs| ==> Meaning(xs[k]) == Meaning(ys[k])
  {
    var p, q := Meaning(Arr(xs)).items, Meaning(Arr(ys)).items;
    assert forall k :: 0 <= k < |xs| ==> p[k] == Meaning(xs[k]);
    assert forall k :: 0 <= k < |ys| ==> q[k] == Meaning(ys[k]);
    if |xs| == |ys| && forall k :: 0 <= k < |xs| ==> Meaning(xs[k]) == Meaning(ys[k]) { assert p == q; }
  }

  /** Every member has a partner of the same name and meaning, and none is left over. */
  ghost predicate Paired(xs: seq<Member<Json>>, ys: seq<Member<Json>>) {
    && |xs| == |ys|
    && forall k :: 0 <= k < |xs| ==>
         var y := IndexOf(ys, xs[k].name); y < |ys| && Meaning(xs[k].value) == Meaning(ys[y].value)
  }

  ghost predicate IsMapOf(m: map<cstr, Plain>, ms: seq<Member<Json>>) {
    && m.Keys == Names(ms) && |m.Keys| == |ms|
    && forall n :: n in m ==> IndexOf(ms, n) < |ms| && m[n] == Meaning(ms[IndexOf(ms, n)].value)
  }

  lemma MeaningIsMapOf(ms: seq<Member<Json>>)
    requires Distinct(ms)
    ensures Meaning(Obj(ms)).PlainObj? && IsMapOf(Meaning(Obj(ms)).members, ms)
  {
    NamesCount(ms);
    assert Meaning(Obj(ms)).members.Keys == Names(ms);
  }

  lemma PairedGivesSameMap(xs: seq<Member<Json>>, ys: seq<Member<Json>>, p: map<cstr, Plain>, q: map<cstr, Plain>)
    requires Distinct(xs) && Distinct(ys) && IsMapOf(p, xs) && IsMapOf(q, ys) && Paired(xs, ys)
    ensures p == q
  {
    hide Meaning, Names, IndexOf;
    NamesAgree(xs, ys);
    forall n | n in p ensures p[n] == q[n] {
      var k := IndexOf(xs, n);
      assert xs[k].name == n;
      assert q[n] == Meaning(ys[IndexOf(ys, n)].value);
    }
  }

  lemma SameMapGivesPaired(xs: seq<Member<Json>>, ys: seq<Member<Json>>, p: map<cstr, Plain>)
    requires Distinct(xs) && IsMapOf(p, xs) && IsMapOf(p, ys)
    ensures Paired(xs, ys)
  {
    forall k | 0 <= k < |xs|
      ensures var y := IndexOf(ys, xs[k].name); y < |ys| && Meaning(xs[k].value) == Meaning(ys[y].value)
    {
      IndexOfAt(xs, k);
      assert xs[k].name in p.Keys;
    }
  }

  lemma SameMembers(xs: seq<Member<Json>>, ys: seq<Member<Json>>)
    requires Distinct(xs) && Distinct(ys)
    ensures Meaning(Obj(xs)) == Meaning(Obj(ys)) <==> Paired(xs, ys)
  {
    MeaningIsMapOf(xs);
    MeaningIsMapOf(ys);
    hide Meaning, Names, IsMapOf, Paired;
    var p, q := Meaning(Obj(xs)).members, Meaning(Obj(ys)).members;
    if Paired(xs, ys) { PairedGivesSameMap(xs, ys, p, q); }
    if p == q { SameMapGivesPaired(xs, ys, p); }
  }

  /** Without numbers, equality is exactly equality up to the order of members. */
  lemma {:induction false} EqualsIsSameMeaning(a: Json, b: Json)
    requires WellFormed(a) && WellFormed(b) && NumberFree(a) && NumberFree(b)
    ensures Equals(a, b) <==> Meaning(a) == Meaning(b)
    decreases a
  {
    hide ItemsEqual, MembersEqual;
    match (a, b)
    case (Arr(xs), Arr(ys)) =>
      if |xs| == |ys| {
        ItemsEqualAll(a, b, 0);
        forall k | 0 <= k < |xs| ensures Equals(xs[k], ys[k]) <==> Meaning(xs[k]) == Meaning(ys[k]) {
          EqualsIsSameMeaning(xs[k], ys[k]);
        }
      }
      SameItems(xs, ys);
    case (Obj(xs), Obj(ys)) =>
      forall k | 0 <= k < |xs| && Has(ys, xs[k].name)
        ensures var y := IndexOf(ys, xs[k].name);
                Equals(xs[k].value, ys[y].value) <==> Meaning(xs[k].value) == Meaning(ys[y].value)
      {
        EqualsIsSameMeaning(xs[k].value, ys[IndexOf(ys, xs[k].name)].value);
      }
      if |xs| == |ys| { MembersEqualAll(a, b, 0); }
      SameMembers(xs, ys);
    case _ =>
  }

  // ----- transitivity -----

  /** Every number in the value is one of `r`. */
  ghost predicate NumbersIn(v: Json, r: real -> bool) {
    match v
    case Num(x) => r(x)
    case Arr(items) => forall i :: 0 <= i < |items| ==> NumbersIn(items[i], r)
    case Obj(members) => forall i :: 0 <= i < |members| ==> NumbersIn(members[i].value, r)
    case _ => true
  }

  lemma {:induction false} SameNumbersIn(v: Json, r: real -> bool, p: real -> bool, q: real -> bool)
    requires NumbersIn(v, r) && forall x :: r(x) ==> p(x) == q(x)
    ensures NumbersIn(v, p) <==> NumbersIn(v, q)
  {
    match v
    case Arr(items) =>
      forall k | 0 <= k < |items| ensures NumbersIn(items[k], p) <==> NumbersIn(items[k], q) {
        SameNumbersIn(items[k], r, p, q);
      }
    case Obj(ms) =>
      forall k | 0 <= k < |ms| ensures NumbersIn(ms[k].value, p) <==> NumbersIn(ms[k].value, q) {
        SameNumbersIn(ms[k].value, r, p, q);
      }
    case _ =>
  }

  /** The value with `f` applied to every number. */
  ghost function Mapped(v: Json, f: real -> real): Json {
    match v
    case Num(x) => Num(f(x))
    case Arr(items) => Arr(seq(|items|, i requires 0 <= i < |items| => Mapped(items[i], f)))
    case Obj(members) =>
      Obj(seq(|members|, i requires 0 <= i < |members| => Member(members[i].name, Mapped(members[i].value, f))))
    case _ => v
  }

  lemma {:induction false} MappedByNothing(v: Json, f: real -> real)
    requires forall x :: f(x) == x
    ensures Mapped(v, f) == v
  {
    match v
    case Arr(items) =>
      forall k | 0 <= k < |items| ensures Mapped(items[k], f) == items[k] { MappedByNothing(items[k], f); }
      assert Mapped(v, f).items == items;
    case Obj(members) =>
      forall k | 0 <= k < |members| ensures Mapped(members[k].value, f) == members[k].value {
        MappedByNothing(members[k].value, f);
      }
      assert Mapped(v, f).members == members;
    case _ =>
  }

  ghost predicate Keeps(r: real -> bool, f: real -> real) {
    forall x {:trigger f(x)} :: r(x) ==> r(f(x))
  }

  lemma {:induction false} MappedIsWellFormed(v: Json, f: real -> real, r: real -> bool)
    requires WellFormed(v) && NumbersIn(v, r) && Keeps(r, f)
    ensures WellFormed(Mapped(v, f)) && NumbersIn(Mapped(v, f), r)
  {
    match v
    case Arr(items) =>
      forall k | 0 <= k < |items| ensures WellFormed(Mapped(items[k], f)) && NumbersIn(Mapped(items[k], f), r) {
        MappedIsWellFormed(items[k], f, r);
      }
    case Obj(ms) =>
      forall k | 0 <= k < |ms| ensures WellFormed(Mapped(ms[k].value, f)) && NumbersIn(Mapped(ms[k].value, f), r) {
        MappedIsWellFormed(ms[k].value, f, r);
      }
    case _ =>
  }

  /** `q` holds of the numbers of `r` that `f` and `g` take near each other. */
  ghost predicate TellsNear(r: real -> bool, f: real -> real, g: real -> real, q: real -> bool) {
    forall x :: r(x) ==> q(x) == Near(f(x), g(x))
  }

  /** Two images of a value are equal exactly when the images of each number are near each other. */
  lemma {:induction false} MappedAreEqual(v: Json, r: real -> bool, f: real -> real, g: real -> real, q: real -> bool)
    requires WellFormed(v) && NumbersIn(v, r) && TellsNear(r, f, g, q)
    ensures Equals(Mapped(v, f), Mapped(v, g)) <==> NumbersIn(v, q)
    decreases v, 1
  {
    match v
    case Arr(_) => MappedItems(v, r, f, g, q);
    case Obj(_) => MappedMembers(v, r, f, g, q);
    case _ =>
  }

  lemma {:induction false} MappedItems(v: Json, r: real -> bool, f: real -> real, g: real -> real, q: real -> bool)
    requires WellFormed(v) && NumbersIn(v, r) && TellsNear(r, f, g, q) && v.Arr?
    ensures Equals(Mapped(v, f), Mapped(v, g)) <==> NumbersIn(v, q)
    decreases v, 0
  {
    hide TellsNear, ItemsEqual;
    forall k | 0 <= k < |v.items|
      ensures Equals(Mapped(v, f).items[k], Mapped(v, g).items[k]) <==> NumbersIn(v.items[k], q)
    {
      MappedAreEqual(v.items[k], r, f, g, q);
    }
    ItemsEqualAll(Mapped(v, f), Mapped(v, g), 0);
  }

  lemma {:induction false} MappedMembers(v: Json, r: real -> bool, f: real -> real, g: real -> real, q: real -> bool)
    requires WellFormed(v) && NumbersIn(v, r) && TellsNear(r, f, g, q) && v.Obj?
    ensures Equals(Mapped(v, f), Mapped(v, g)) <==> NumbersIn(v, q)
    decreases v, 0
  {
    hide TellsNear, MembersEqual, IndexOf;
    var ms := v.members;
    assert Distinct(Mapped(v, f).members) && Distinct(Mapped(v, g).members);
    forall k | 0 <= k < |ms|
      ensures IndexOf(Mapped(v, g).members, ms[k].name) == k
      ensures Equals(Mapped(v, f).members[k].value, Mapped(v, g).members[k].value) <==> NumbersIn(ms[k].value, q)
    {
      IndexOfAt(Mapped(v, g).members, k);
      MappedAreEqual(ms[k].value, r, f, g, q);
    }
    MembersEqualAll(Mapped(v, f), Mapped(v, g), 0);
  }

  ghost function SettledIn(r: real -> bool): real -> bool {
    x => Settled(x, r)
  }

  /** Two steps that lead away from a number, or none where there are none. */
  ghost function StepsAway(x: real, r: real -> bool): (steps: (real, real))
    ensures var (y, z) := steps;
            && Near(x, y) && Near(y, z) && (Near(x, z) <==> Settled(x, r)) && (r(x) ==> r(y) && r(z))
  {
    if Settled(x, r) then (x, x)
    else
      var y, z :| r(y) && r(z) && Near(x, y) && Near(y, z) && !Near(x, z);
      (y, z)
  }

  ghost function NoStep(): real -> real {
    x => x
  }

  ghost function FirstStep(r: real -> bool): real -> real {
    x => StepsAway(x, r).0
  }

  ghost function SecondStep(r: real -> bool): real -> real {
    x => StepsAway(x, r).1
  }

  lemma StepsAt(x: real, r: real -> bool)
    ensures var y, z := FirstStep(r)(x), SecondStep(r)(x);
            Near(x, y) && Near(y, z) && SettledIn(r)(x) == Near(x, z) && (r(x) ==> r(y) && r(z))
  {
    hide Near, Settled;
  }

  lemma StepsTellNear(r: real -> bool)
    ensures TellsNear(r, NoStep(), FirstStep(r), r) && TellsNear(r, FirstStep(r), SecondStep(r), r)
    ensures TellsNear(r, NoStep(), SecondStep(r), SettledIn(r))
  {
    hide Near, FirstStep, SecondStep, SettledIn;
    forall x | r(x)
      ensures Near(x, FirstStep(r)(x)) && Near(FirstStep(r)(x), SecondStep(r)(x))
      ensures SettledIn(r)(x) == Near(x, SecondStep(r)(x))
    {
      StepsAt(x, r);
    }
  }

  lemma StepsKeep(r: real -> bool)
    ensures Keeps(r, FirstStep(r)) && Keeps(r, SecondStep(r))
  {
    hide Near, FirstStep, SecondStep;
    forall x {:trigger FirstStep(r)(x)} | r(x) ensures r(FirstStep(r)(x)) { StepsAt(x, r); }
    forall x {:trigger SecondStep(r)(x)} | r(x) ensures r(SecondStep(r)(x)) { StepsAt(x, r); }
  }

  /** Where a number is not settled, two equalities lead to a value that is not equal. */
  lemma NotSettledLeadsAway(a: Json, r: real -> bool) returns (b: Json, c: Json)
    requires WellFormed(a) && NumbersIn(a, r) && !NumbersIn(a, SettledIn(r))
    ensures WellFormed(b) && NumbersIn(b, r) && WellFormed(c) && NumbersIn(c, r)
    ensures Equals(a, b) && Equals(b, c) && !Equals(a, c)
  {
    hide WellFormed, NumbersIn, Equals, Mapped, TellsNear, Keeps, FirstStep, SecondStep, SettledIn;
    b, c := Mapped(a, FirstStep(r)), Mapped(a, SecondStep(r));
    StepsTellNear(r);
    StepsKeep(r);
    MappedByNothing(a, NoStep());
    MappedIsWellFormed(a, FirstStep(r), r);
    MappedIsWellFormed(a, SecondStep(r), r);
    MappedAreEqual(a, r, NoStep(), FirstStep(r), r);
    MappedAreEqual(a, r, FirstStep(r), SecondStep(r), r);
    MappedAreEqual(a, r, NoStep(), SecondStep(r), SettledIn(r));
  }

  /** Where all numbers of `a` are settled, equality goes on from it. */
  lemma {:induction false} EqualsGoesOn(a: Json, b: Json, c: Json, r: real -> bool)
    requires WellFormed(a) && WellFormed(b) && WellFormed(c)
    requires NumbersIn(a, SettledIn(r)) && NumbersIn(b, r) && NumbersIn(c, r)
    requires Equals(a, b) && Equals(b, c)
    ensures Equals(a, c)
  {
    match (a, b, c)
    case (Num(x), Num(y), Num(z)) => assert SettledIn(r)(x);
    case (Arr(xs), Arr(ys), Arr(zs)) =>
      ItemsEqualAll(a, b, 0);
      ItemsEqualAll(b, c, 0);
      forall k | 0 <= k < |xs| ensures Equals(xs[k], zs[k]) { EqualsGoesOn(xs[k], ys[k], zs[k], r); }
      ItemsEqualAll(a, c, 0);
    case (Obj(xs), Obj(ys), Obj(zs)) =>
      MembersEqualAll(a, b, 0);
      MembersEqualAll(b, c, 0);
      forall k | 0 <= k < |xs|
        ensures var z := IndexOf(zs, xs[k].name); z < |zs| && Equals(xs[k].value, zs[z].value)
      {
        var y := IndexOf(ys, xs[k].name);
        EqualsGoesOn(xs[k].value, ys[y].value, zs[IndexOf(zs, ys[y].name)].value, r);
      }
      MembersEqualAll(a, c, 0);
    case _ =>
  }

  /** Equality goes on from `a` over any equal value to the next, among values with numbers of `r`. */
  ghost predicate TransitiveFrom(a: Json, r: real -> bool) {
    forall b, c ::
      (WellFormed(b) && WellFormed(c) && NumbersIn(b, r) && NumbersIn(c, r) && Equals(a, b) && Equals(b, c)) ==>
        Equals(a, c)
  }

  /** That is so exactly when each number of `a` is settled, whatever the numbers are. */
  lemma TransitiveIffSettled(a: Json, r: real -> bool)
    requires WellFormed(a) && NumbersIn(a, r)
    ensures TransitiveFrom(a, r) <==> NumbersIn(a, SettledIn(r))
  {
    hide WellFormed, NumbersIn, Equals, SettledIn;
    if NumbersIn(a, SettledIn(r)) {
      forall b, c | WellFormed(b) && WellFormed(c) && NumbersIn(b, r) && NumbersIn(c, r) && Equals(a, b) && Equals(b, c)
        ensures Equals(a, c)
      {
        EqualsGoesOn(a, b, c, r);
      }
    } else {
      var b, c := NotSettledLeadsAway(a, r);
    }
  }

  /** For doubles: exactly when each is beyond 2 to the 33, where neighbours are farther apart than the tolerance. */
  lemma TransitiveIffLarge(a: Json)
    requires WellFormed(a) && NumbersIn(a, IsDouble)
    ensures TransitiveFrom(a, IsDouble) <==> NumbersIn(a, IsLarge)
  {
    hide IsDouble, Settled, NumbersIn;
    TransitiveIffSettled(a, IsDouble);
    forall x | IsDouble(x) ensures SettledIn(IsDouble)(x) == IsLarge(x) { SettledIffLarge(x); }
    SameNumbersIn(a, IsDouble, SettledIn(IsDouble), IsLarge);
  }

  /** From any other number, such as one half, equality does not go on. */
  lemma SmallNumbersAreNotTransitive(x: real)
    requires IsDouble(x) && !IsLarge(x)
    ensures !TransitiveFrom(Num(x), IsDouble)
  {
    TransitiveIffLarge(Num(x));
  }
}

/** Access to nested objects by names with dots. */
module DotPaths {
  import opened Bytes
  import opened Members
  import opened JsonValues

  const DOT: byte := 0x2E

  type Object = seq<Member<Json>>

  /** `strchr(name, '.')`, or the length when there is no dot. */
  function FirstDot(name: cstr): (d: nat)
    ensures d <= |name| && (d < |name| ==> name[d] == DOT)
    ensures forall i :: 0 <= i < d ==> name[i] != DOT
  {
    if name == [] || name[0] == DOT then 0 else 1 + FirstDot(name[1..])
  }

  predicate HasDot(name: cstr) {
    FirstDot(name) < |name|
  }

  function Head(name: cstr): cstr {
    name[..FirstDot(name)]
  }

  function Rest(name: cstr): (r: cstr)
    requires HasDot(name)
    ensures |r| < |name|
  {
    name[FirstDot(name) + 1..]
  }

  /** `json_object_dotget_value` */
  function DotGet(o: Object, name: cstr): Option<Json>
    decreases |name|
  {
    if !HasDot(name) then Lookup(o, name)
    else
      var first := Lookup(o, Head(name));
      if first.Some? && first.value.Obj? then DotGet(first.value.members, Rest(name)) else None
  }

  /** What a call returns, and the object it leaves. A nested object is changed in place, in its parent. */
  datatype Change = Change(ok: bool, after: Object)

  /** `json_object_dotset_value` */
  function DotSet(o: Object, name: cstr, value: Json): Change
    decreases |name|
  {
    if !HasDot(name) then Change(true, Put(o, name, value))
    else
      var first := Lookup(o, Head(name));
      if first.Some? && !first.value.Obj? then Change(false, o)
      else if first.Some? then
        var inner := DotSet(first.value.members, Rest(name), value);
        Change(inner.ok, Put(o, Head(name), Obj(inner.after)))
      else
        var inner := DotSet([], Rest(name), value);
        if inner.ok then Change(true, o + [Member(Head(name), Obj(inner.after))]) else Change(false, o)
  }

  /** `json_object_dotremove` */
  function DotRemove(o: Object, name: cstr): Change
    decreases |name|
  {
    if !HasDot(name) then Change(Has(o, name), Remove(o, name))
    else
      var first := Lookup(o, Head(name));
      if first.Some? && first.value.Obj? then
        var inner := DotRemove(first.value.members, Rest(name));
        Change(inner.ok, Put(o, Head(name), Obj(inner.after)))
      else Change(false, o)
  }

  // ----- paths as segment lists -----

  ghost function Segments(name: cstr): (s: seq<cstr>)
    ensures |s| >= 1
    decreases |name|
  {
    if HasDot(name) then [Head(name)] + Segments(Rest(name)) else [name]
  }

  /** Neither path leads through the other. */
  ghost predicate Unrelated(p: cstr, q: cstr) {
    !(Segments(p) <= Segments(q)) && !(Segments(q) <= Segments(p))
  }

  /** Following the segments one by one. */
  ghost function GetPath(o: Object, segments: seq<cstr>): Option<Json>
    requires segments != []
  {
    var first := Lookup(o, segments[0]);
    if |segments| == 1 then first
    else if first.Some? && first.value.Obj? then GetPath(first.value.members, segments[1..])
    else None
  }

  function JoinedByDots(segments: seq<cstr>): cstr
    requires segments != []
  {
    if |segments| == 1 then segments[0] else segments[0] + [DOT] + JoinedByDots(segments[1..])
  }

  /** The segments are what stands between the dots. */
  lemma {:induction false} SegmentsAreBetweenDots(name: cstr)
    ensures JoinedByDots(Segments(name)) == name && forall i :: 0 <= i < |Segments(name)| ==> DOT !in Segments(name)[i]
    decreases |name|
  {
    if HasDot(name) {
      var s := Segments(name);
      SegmentsAreBetweenDots(Rest(name));
      assert s[1..] == Segments(Rest(name));
      assert Head(name) + [DOT] + Rest(name) == name;
      forall i | 0 <= i < |s| ensures DOT !in s[i] {
        if i > 0 { assert s[i] == Segments(Rest(name))[i - 1]; }
      }
    }
  }

  lemma {:induction false} DotGetFollowsSegments(o: Object, name: cstr)
    ensures DotGet(o, name) == GetPath(o, Segments(name))
    decreases |name|
  {
    if HasDot(name) {
      var first := Lookup(o, Head(name));
      if first.Some? && first.value.Obj? { DotGetFollowsSegments(first.value.members, Rest(name)); }
    }
  }

  ghost predicate Sound(o: Object) {
    WellFormed(Obj(o))
  }

  lemma LookupIsSound(o: Object, name: cstr)
    requires Sound(o) && Lookup(o, name).Some?
    ensures WellFormed(Lookup(o, name).value)
  {
  }

  lemma PutIsSound(o: Object, name: cstr, value: Json)
    requires Sound(o) && WellFormed(value)
    ensures Sound(Put(o, name, value))
  {
    LookupAfterPut(o, name, value, name);
  }

  /** Appending a new member is `Put`. */
  lemma AppendIsPut(o: Object, name: cstr, value: Json)
    requires Lookup(o, name) == None
    ensures o + [Member(name, value)] == Put(o, name, value)
  {
  }

  // ----- set -----

  lemma EmptyIsSound()
    ensures Sound([])
  {
  }

  lemma ObjectIsSound(v: Json)
    requires v.Obj?
    ensures Sound(v.members) <==> WellFormed(v)
  {
  }

  lemma {:induction false} DotSetIsSound(o: Object, p: cstr, value: Json)
    requires Sound(o) && WellFormed(value) && DotSet(o, p, value).ok
    ensures Sound(DotSet(o, p, value).after)
    decreases |p|
  {
    hide WellFormed, Put;
    if !HasDot(p) {
      PutIsSound(o, p, value);
    } else {
      var first := Lookup(o, Head(p));
      var inner: Object := if first.Some? then first.value.members else [];
      assert Sound([]) by { EmptyIsSound(); }
      if first.Some? { LookupIsSound(o, Head(p)); ObjectIsSound(first.value); }
      DotSetIsSound(inner, Rest(p), value);
      ObjectIsSound(Obj(DotSet(inner, Rest(p), value).after));
      PutIsSound(o, Head(p), Obj(DotSet(inner, Rest(p), value).after));
      if first.None? { AppendIsPut(o, Head(p), Obj(DotSet(inner, Rest(p), value).after)); }
    }
  }

  lemma LookupOrEmptySound(o: Object, name: cstr)
    requires Sound(o)
    ensures Lookup(o, name).Some? && Lookup(o, name).value.Obj? ==> Sound(Lookup(o, name).value.members)
  {
  }

  /** The object that the rest of a path is applied to. */
  ghost function InnerObject(o: Object, p: cstr): (inner: Object)
    requires Sound(o) && HasDot(p) && (Lookup(o, Head(p)).Some? ==> Lookup(o, Head(p)).value.Obj?)
    ensures Sound(inner)
  {
    LookupOrEmptySound(o, Head(p));
    var first := Lookup(o, Head(p));
    if first.Some? then first.value.members else []
  }

  /** One level of `DotSet`: only the member at the head of the path changes. */
  lemma SetStep(o: Object, p: cstr, value: Json, k: cstr)
    requires Sound(o) && DotSet(o, p, value).ok && HasDot(p)
    ensures Lookup(o, Head(p)).Some? ==> Lookup(o, Head(p)).value.Obj?
    ensures DotSet(InnerObject(o, p), Rest(p), value).ok
    ensures Lookup(DotSet(o, p, value).after, k) ==
            if k == Head(p) then Some(Obj(DotSet(InnerObject(o, p), Rest(p), value).after)) else Lookup(o, k)
  {
    var inner' := DotSet(InnerObject(o, p), Rest(p), value).after;
    if Lookup(o, Head(p)).None? { AppendIsPut(o, Head(p), Obj(inner')); }
    LookupAfterPut(o, Head(p), Obj(inner'), k);
  }

  /** What was set can be read back. */
  lemma {:induction false} GetAfterSet(o: Object, p: cstr, value: Json)
    requires Sound(o) && DotSet(o, p, value).ok
    ensures DotGet(DotSet(o, p, value).after, p) == Some(value)
    decreases |p|
  {
    if HasDot(p) {
      SetStep(o, p, value, Head(p));
      GetAfterSet(InnerObject(o, p), Rest(p), value);
    } else {
      LookupAfterPut(o, p, value, p);
    }
  }

  lemma UnrelatedCases(p: cstr, q: cstr)
    requires Unrelated(p, q)
    ensures !HasDot(p) || !HasDot(q) || Head(p) != Head(q) ==> Segments(p)[0] != Segments(q)[0]
    ensures HasDot(p) && HasDot(q) && Head(p) == Head(q) ==> Unrelated(Rest(p), Rest(q))
  {
    var a, b := Segments(p), Segments(q);
    if a[0] == b[0] && |a| > 1 && |b| > 1 {
      assert a[1..] <= b[1..] ==> a <= b;
      assert b[1..] <= a[1..] ==> b <= a;
    }
  }

  lemma NothingInEmpty(q: cstr)
    ensures DotGet([], q) == None
  {
  }

  /** A set leaves everything alone that is neither above nor below its path. */
  lemma {:induction false} GetUnrelatedAfterSet(o: Object, p: cstr, value: Json, q: cstr)
    requires Sound(o) && DotSet(o, p, value).ok && Unrelated(p, q)
    ensures DotGet(DotSet(o, p, value).after, q) == DotGet(o, q)
    decreases |p|
  {
    UnrelatedCases(p, q);
    var k := if HasDot(q) then Head(q) else q;
    if HasDot(p) {
      SetStep(o, p, value, k);
      if HasDot(q) && k == Head(p) {
        GetUnrelatedAfterSet(InnerObject(o, p), Rest(p), value, Rest(q));
        if Lookup(o, k).None? { NothingInEmpty(Rest(q)); }
      }
    } else {
      LookupAfterPut(o, p, value, k);
    }
  }

  /** Setting inside a new object is never refused. */
  lemma {:induction false} SetInEmptySucceeds(p: cstr, value: Json)
    ensures DotSet([], p, value).ok
    decreases |p|
  {
    if HasDot(p) { SetInEmptySucceeds(Rest(p), value); }
  }

  /** Writing back what is there changes nothing. */
  lemma PutBack(o: Object, name: cstr)
    requires Lookup(o, name).Some?
    ensures Put(o, name, Lookup(o, name).value) == o
  {
  }

  /** A refused set leaves the object, and every object in it, as it was. */
  lemma {:induction false} RefusedSetChangesNothing(o: Object, p: cstr, value: Json)
    requires !DotSet(o, p, value).ok
    ensures DotSet(o, p, value).after == o
    decreases |p|
  {
    if HasDot(p) {
      var first := Lookup(o, Head(p));
      if first.Some? && first.value.Obj? {
        RefusedSetChangesNothing(first.value.members, Rest(p), value);
        PutBack(o, Head(p));
      }
    }
  }

  ghost predicate BlockedAt(o: Object, segments: seq<cstr>, k: nat)
    requires 0 < k < |segments|
  {
    var v := GetPath(o, segments[..k]);
    v.Some? && !v.value.Obj?
  }

  /** The path runs into a value that is not an object before its last segment. */
  ghost predicate Blocked(o: Object, segments: seq<cstr>) {
    exists k :: 0 < k < |segments| && BlockedAt(o, segments, k)
  }

  /** A set is refused exactly when an intermediate value is not an object. */
  lemma {:induction false} SetRefusedIffBlocked(o: Object, p: cstr, value: Json)
    ensures !DotSet(o, p, value).ok <==> Blocked(o, Segments(p))
    decreases |p|
  {
    var segments := Segments(p);
    if HasDot(p) {
      var first := Lookup(o, Head(p));
      var rest := Segments(Rest(p));
      assert BlockedAt(o, segments, 1) <==> first.Some? && !first.value.Obj? by {
        assert segments[..1] == [Head(p)];
      }
      forall k | 1 < k < |segments|
        ensures BlockedAt(o, segments, k) <==>
                first.Some? && first.value.Obj? && BlockedAt(first.value.members, rest, k - 1)
      {
        assert segments[..k][1..] == rest[..k - 1];
      }
      if first.None? {
        SetInEmptySucceeds(Rest(p), value);
      } else if first.value.Obj? {
        SetRefusedIffBlocked(first.value.members, Rest(p), value);
        if Blocked(first.value.members, rest) {
          var j :| 0 < j < |rest| && BlockedAt(first.value.members, rest, j);
          assert BlockedAt(o, segments, j + 1);
        }
      }
    }
  }

  /** From `o` to `after` only the member `k` changes, if it is there; names and places stay. */
  ghost predicate OnlyMember(o: Object, after: Object, k: cstr) {
    |o| <= |after| && forall i :: 0 <= i < |o| ==> after[i].name == o[i].name && (o[i].name != k ==> after[i] == o[i])
  }

  /**
   `after` is `o` with the value set under the path: at each level only the member
   of that segment changes, where it stands or as a new last one.
   */
  ghost predicate SetAlong(o: Object, after: Object, path: seq<cstr>, value: Json)
    requires path != []
    decreases |path|
  {
    var k := path[0];
    && OnlyMember(o, after, k)
    && (if Has(o, k) then |after| == |o| else |after| == |o| + 1 && after[|o|].name == k)
    && Lookup(after, k).Some?
    && var v := Lookup(after, k).value;
       if |path| == 1 then v == value
       else v.Obj? && (Has(o, k) ==> Lookup(o, k).value.Obj?)
            && SetAlong(if Has(o, k) then Lookup(o, k).value.members else [], v.members, path[1..], value)
  }

  lemma PutIsOnlyMember(o: Object, k: cstr, value: Json)
    requires Sound(o)
    ensures OnlyMember(o, Put(o, k, value), k) && Lookup(Put(o, k, value), k) == Some(value)
    ensures if Has(o, k) then |Put(o, k, value)| == |o|
            else |Put(o, k, value)| == |o| + 1 && Put(o, k, value)[|o|].name == k
  {
    LookupAfterPut(o, k, value, k);
    if Has(o, k) {
      forall i | 0 <= i < |o| && i != IndexOf(o, k) ensures o[i].name != k { IndexOfAt(o, i); }
    }
  }

  lemma SegmentsUnfold(p: cstr)
    ensures Segments(p) != [] && Segments(p)[0] == (if HasDot(p) then Head(p) else p)
    ensures HasDot(p) ==> |Segments(p)| > 1 && Segments(p)[1..] == Segments(Rest(p))
    ensures !HasDot(p) ==> |Segments(p)| == 1
  {
  }

  /** A set changes the object along the path and nowhere else. */
  lemma {:induction false} SetChangesAlongPath(o: Object, p: cstr, value: Json)
    requires Sound(o) && DotSet(o, p, value).ok
    ensures SetAlong(o, DotSet(o, p, value).after, Segments(p), value)
    decreases |p|
  {
    hide Segments, Sound, OnlyMember, HasDot, Head, Rest;
    SegmentsUnfold(p);
    if HasDot(p) {
      SetStep(o, p, value, Head(p));
      var inner := InnerObject(o, p);
      SetChangesAlongPath(inner, Rest(p), value);
      var changed := Obj(DotSet(inner, Rest(p), value).after);
      PutIsOnlyMember(o, Head(p), changed);
      if Lookup(o, Head(p)).None? { AppendIsPut(o, Head(p), changed); }
    } else {
      PutIsOnlyMember(o, p, value);
    }
  }

  // ----- remove -----

  lemma RemoveStep(o: Object, p: cstr, k: cstr)
    requires Sound(o) && DotRemove(o, p).ok && HasDot(p)
    ensures Lookup(o, Head(p)).Some? && Lookup(o, Head(p)).value.Obj?
    ensures DotRemove(InnerObject(o, p), Rest(p)).ok
    ensures Lookup(DotRemove(o, p).after, k) ==
            if k == Head(p) then Some(Obj(DotRemove(InnerObject(o, p), Rest(p)).after)) else Lookup(o, k)
  {
    LookupAfterPut(o, Head(p), Obj(DotRemove(InnerObject(o, p), Rest(p)).after), k);
  }

  /** Removal succeeds exactly when there is something to remove, which is then gone. */
  lemma {:induction false} GetAfterRemove(o: Object, p: cstr)
    requires Sound(o)
    ensures DotRemove(o, p).ok <==> DotGet(o, p).Some?
    ensures DotRemove(o, p).ok ==> DotGet(DotRemove(o, p).after, p) == None
    decreases |p|
  {
    if HasDot(p) {
      var first := Lookup(o, Head(p));
      if first.Some? && first.value.Obj? {
        LookupOrEmptySound(o, Head(p));
        GetAfterRemove(first.value.members, Rest(p));
        if DotRemove(o, p).ok { RemoveStep(o, p, Head(p)); }
      }
    } else {
      LookupAfterRemove(o, p, p);
    }
  }

  lemma {:induction false} GetUnrelatedAfterRemove(o: Object, p: cstr, q: cstr)
    requires Sound(o) && DotRemove(o, p).ok && Unrelated(p, q)
    ensures DotGet(DotRemove(o, p).after, q) == DotGet(o, q)
    decreases |p|
  {
    UnrelatedCases(p, q);
    var k := if HasDot(q) then Head(q) else q;
    if HasDot(p) {
      RemoveStep(o, p, k);
      if HasDot(q) && k == Head(p) {
        GetUnrelatedAfterRemove(InnerObject(o, p), Rest(p), Rest(q));
      }
    } else {
      LookupAfterRemove(o, p, k);
    }
  }

  lemma {:induction false} DotRemoveIsSound(o: Object, p: cstr)
    requires Sound(o) && DotRemove(o, p).ok
    ensures Sound(DotRemove(o, p).after)
    decreases |p|
  {
    if HasDot(p) {
      RemoveStep(o, p, Head(p));
      DotRemoveIsSound(InnerObject(o, p), Rest(p));
      PutIsSound(o, Head(p), Obj(DotRemove(InnerObject(o, p), Rest(p)).after));
    } else {
      LookupAfterRemove(o, p, p);
    }
  }

  /** A remove that finds nothing leaves everything as it was. */
  lemma {:induction false} RefusedRemoveChangesNothing(o: Object, p: cstr)
    requires !DotRemove(o, p).ok
    ensures DotRemove(o, p).after == o
    decreases |p|
  {
    if HasDot(p) {
      var first := Lookup(o, Head(p));
      if first.Some? && first.value.Obj? {
        RefusedRemoveChangesNothing(first.value.members, Rest(p));
        PutBack(o, Head(p));
      }
    }
  }

  /** `after` is `o` without the member `k`, whose place the last member takes. */
  ghost predicate MemberRemoved(o: Object, after: Object, k: cstr) {
    exists ix :: 0 <= ix < |o| && o[ix].name == k
                 && after == if ix == |o| - 1 then o[..ix] else o[..ix] + [o[|o| - 1]] + o[ix + 1..|o| - 1]
  }

  /** At each level but the last only the member of that segment changes, where it stands; at the last one it goes. */
  ghost predicate RemovedAlong(o: Object, after: Object, path: seq<cstr>)
    requires path != []
    decreases |path|
  {
    var k := path[0];
    if |path| == 1 then MemberRemoved(o, after, k)
    else
      && OnlyMember(o, after, k) && |after| == |o|
      && Lookup(o, k).Some? && Lookup(o, k).value.Obj? && Lookup(after, k).Some? && Lookup(after, k).value.Obj?
      && RemovedAlong(Lookup(o, k).value.members, Lookup(after, k).value.members, path[1..])
  }

  lemma RemoveIsMemberRemoved(o: Object, k: cstr)
    requires Has(o, k)
    ensures MemberRemoved(o, Remove(o, k), k)
  {
    var ix := IndexOf(o, k);
    assert o[ix].name == k;
    assert Remove(o, k) == if ix == |o| - 1 then o[..ix] else o[..ix] + [o[|o| - 1]] + o[ix + 1..|o| - 1];
  }

  /** A remove changes the object along the path and nowhere else; an object that gets empty stays. */
  lemma {:induction false} RemoveChangesAlongPath(o: Object, p: cstr)
    requires Sound(o) && DotRemove(o, p).ok
    ensures RemovedAlong(o, DotRemove(o, p).after, Segments(p))
    decreases |p|
  {
    hide Segments, Sound, OnlyMember, MemberRemoved, HasDot, Head, Rest, Remove;
    SegmentsUnfold(p);
    if HasDot(p) {
      RemoveStep(o, p, Head(p));
      var inner := InnerObject(o, p);
      RemoveChangesAlongPath(inner, Rest(p));
      PutIsOnlyMember(o, Head(p), Obj(DotRemove(inner, Rest(p)).after));
    } else {
      RemoveIsMemberRemoved(o, p);
    }
  }
}

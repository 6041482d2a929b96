/** `esl_event_dup`: an event is copied by adding its headers to a new one. */
module EventDup {
  import opened Bytes
  import opened Members
  import opened EventHeaders
  import opened EventStore

  /** No two headers share a name, upper and lower case alike. */
  ghost predicate DistinctNames(hs: seq<Header>) {
    forall i, j :: 0 <= i < j < |hs| ==> !CiEqual(hs[i].name, hs[j].name)
  }

  /** A bound for the recursion of `AddPieces`. */
  function LongestItem(items: seq<cstr>): (n: nat)
    ensures forall i :: 0 <= i < |items| ==> |items[i]| <= n
  {
    if items == [] then 0 else Max(|items[0]|, LongestItem(items[1..]))
  }

  /** One round of the copy loop: arrays are pushed item by item, scalars added at the bottom. */
  function CopyHeader(copy: Event, h: Header): Result {
    if h.items != [] then AddPieces(copy, h.name, h.items, LongestItem(h.items) + 1)
    else AddHeader(copy, Bottom, h.name, h.value)
  }

  function CopyHeaders(copy: Event, hs: seq<Header>): Result
    decreases |hs|
  {
    if hs == [] then Result(true, copy)
    else
      var r := CopyHeader(copy, hs[0]);
      if r.ok then CopyHeaders(r.event, hs[1..]) else r
  }

  /** The copy starts without headers; flags and event id are copied before the headers are added. */
  function Dup(e: Event): Result {
    var r := CopyHeaders(Event([], None, e.uniqueHeaders, e.eventId), e.headers);
    if r.ok then Result(true, r.event.(body := e.body)) else r
  }

  /** The loop over the items of a header, or the one add of a scalar. */
  method CopyNode(copy: EslEvent, hp: HeaderNode) returns (ok: bool)
    requires copy.Valid() && hp !in copy.Repr()
    modifies copy.Repr()
    ensures copy.Valid() && fresh(copy.Repr() - old(copy.Repr()))
    ensures Result(ok, copy.View()) == CopyHeader(old(copy.View()), old(hp.View()))
  {
    hide EslEvent.Valid, AddHeader;
    if hp.items == [] {
      ok := copy.AddHeaderString(Bottom, hp.name, hp.value);
      return;
    }
    ghost var limit := LongestItem(hp.items) + 1;
    for i := 0 to |hp.items|
      invariant copy.Valid() && fresh(copy.Repr() - old(copy.Repr())) && hp !in copy.Repr()
      invariant AddPieces(copy.View(), hp.name, hp.items[i..], limit) ==
                AddPieces(old(copy.View()), hp.name, hp.items, limit)
    {
      assert hp.items[i..][0] == hp.items[i] && hp.items[i..][1..] == hp.items[i + 1..];
      ok := copy.AddHeaderString(Push, hp.name, hp.items[i]);
      if !ok { return; }
    }
    ok := true;
  }

  /** One turn of the loop leaves the old event as it is. */
  method CopyTurn(copy: EslEvent, todup: EslEvent, hp: HeaderNode, ghost k: nat) returns (ok: bool, next: HeaderNode?)
    requires copy.Valid() && todup.Valid() && copy.Repr() !! todup.Repr() && hp == todup.NodeAt(k)
    modifies copy.Repr()
    ensures copy.Valid() && fresh(copy.Repr() - old(copy.Repr())) && copy.Repr() !! todup.Repr()
    ensures todup.Valid() && todup.Headers() == old(todup.Headers())
    ensures k < |todup.Headers()| && Result(ok, copy.View()) == CopyHeader(old(copy.View()), todup.Headers()[k])
    ensures next == todup.NodeAt(k + 1)
  {
    hide EslEvent.Valid, CopyHeader;
    todup.NodeFacts(k);
    next := hp.next;
    ok := CopyNode(copy, hp);
  }

  lemma NothingToCopy(copy: Event, hs: seq<Header>)
    requires hs == []
    ensures CopyHeaders(copy, hs) == Result(true, copy)
  {
  }

  lemma NextCopy(copy: Event, hs: seq<Header>, k: nat)
    requires k < |hs|
    ensures CopyHeaders(copy, hs[k..]) ==
            (var r := CopyHeader(copy, hs[k]); if r.ok then CopyHeaders(r.event, hs[k + 1..]) else r)
  {
    assert hs[k..][1..] == hs[k + 1..];
  }

  /** The loop over the headers. */
  method CopyNodes(copy: EslEvent, todup: EslEvent) returns (ok: bool)
    requires copy.Valid() && todup.Valid() && copy.Repr() !! todup.Repr()
    modifies copy.Repr()
    ensures copy.Valid() && fresh(copy.Repr() - old(copy.Repr()))
    ensures Result(ok, copy.View()) == CopyHeaders(old(copy.View()), old(todup.Headers()))
  {
    hide EslEvent.Valid, EslEvent.NodeAt, EslEvent.Headers, CopyHeader, CopyHeaders;
    todup.NodeFacts(0);
    var hp := todup.headers;
    ghost var k: nat, start, hs := 0, copy.View(), todup.Headers();
    assert hs[0..] == hs;
    while hp != null
      invariant todup.Valid() && todup.Headers() == hs && k <= |hs| && hp == todup.NodeAt(k)
      invariant copy.Valid() && fresh(copy.Repr() - old(copy.Repr())) && copy.Repr() !! todup.Repr()
      invariant CopyHeaders(copy.View(), hs[k..]) == CopyHeaders(start, hs)
      decreases |hs| - k
    {
      todup.NodeFacts(k);
      NextCopy(copy.View(), hs, k);
      ok, hp := CopyTurn(copy, todup, hp, k);
      if !ok { return; }
      k := k + 1;
    }
    todup.NodeFacts(k);
    NothingToCopy(copy.View(), hs[k..]);
    ok := true;
  }

  /** `esl_event_dup`; a copy that fails half way is thrown away. */
  method DupEvent(todup: EslEvent) returns (ok: bool, copy: EslEvent)
    requires todup.Valid()
    ensures ok == Dup(todup.View()).ok
    ensures ok ==> copy.Valid() && fresh(copy.Repr()) && copy.View() == Dup(todup.View()).event
  {
    hide EslEvent.Valid, EslEvent.Headers, EslEvent.NodeAt, CopyHeaders;
    copy := new EslEvent();
    copy.CopyFields(todup.eventId, todup.uniqueHeaders);
    ok := CopyNodes(copy, todup);
    if ok { copy.CopyBody(todup.body); }
  }

  /** One round appends exactly the copied header. */
  lemma CopyHeaderAppends(copy: Event, h: Header)
    requires SoundHeader(h)
    requires h.items != [] || copy.uniqueHeaders ==> !HasHeader(copy.headers, h.name)
    ensures CopyHeader(copy, h) == Result(true, copy.(headers := copy.headers + [h]))
  {
    if h.items != [] {
      PushedItemsRebuild(copy, h.name, h.items, LongestItem(h.items) + 1);
    } else if copy.uniqueHeaders {
      DeleteAbsent(copy.headers, h.name, []);
    }
  }

  lemma AbsentSoFar(copy: Event, hs: seq<Header>)
    requires hs != [] && ArraysFirst(copy.headers + hs)
    requires copy.uniqueHeaders ==> DistinctNames(copy.headers + hs)
    ensures hs[0].items != [] || copy.uniqueHeaders ==> !HasHeader(copy.headers, hs[0].name)
  {
    var all, n := copy.headers + hs, |copy.headers|;
    assert all[n] == hs[0];
    forall i | 0 <= i < n
      ensures all[i] == copy.headers[i]
      ensures hs[0].items != [] || copy.uniqueHeaders ==> !CiEqual(copy.headers[i].name, hs[0].name)
    {
    }
  }

  lemma {:induction false} CopyHeadersAppends(copy: Event, hs: seq<Header>)
    requires forall i :: 0 <= i < |hs| ==> SoundHeader(hs[i])
    requires ArraysFirst(copy.headers + hs)
    requires copy.uniqueHeaders ==> DistinctNames(copy.headers + hs)
    ensures CopyHeaders(copy, hs) == Result(true, copy.(headers := copy.headers + hs))
    decreases |hs|
  {
    hide CopyHeader, ArraysFirst, DistinctNames, SoundHeader, FindHeader;
    if hs == [] {
      assert copy.headers + [] == copy.headers;
    } else {
      AbsentSoFar(copy, hs);
      CopyHeaderAppends(copy, hs[0]);
      var next := copy.(headers := copy.headers + [hs[0]]);
      assert next.headers + hs[1..] == copy.headers + hs;
      CopyHeadersAppends(next, hs[1..]);
    }
  }

  // ----- under the unique-headers flag the copy has distinct names -----

  lemma DeleteKeepsDistinct(hs: seq<Header>, name: hname)
    requires DistinctNames(hs)
    ensures DistinctNames(DeleteVal(hs, name, []))
    ensures forall h :: h in DeleteVal(hs, name, []) ==> h in hs && !CiEqual(h.name, name)
  {
    if hs != [] {
      var rest := hs[1..];
      assert forall i :: 0 <= i < |rest| ==> rest[i] == hs[i + 1];
      DeleteKeepsDistinct(rest, name);
      var kept := DeleteVal(rest, name, []);
      forall i | 0 <= i < |kept| ensures !CiEqual(hs[0].name, kept[i].name) {
        assert kept[i] in rest;
      }
    }
  }

  lemma UniqueCopyHeader(copy: Event, h: Header)
    requires copy.uniqueHeaders && DistinctNames(copy.headers) && SoundHeader(h)
    requires h.items != [] ==> !HasHeader(copy.headers, h.name)
    ensures var r := CopyHeader(copy, h);
            && r.ok && r.event.uniqueHeaders && DistinctNames(r.event.headers)
            && forall x :: x in r.event.headers ==> x in copy.headers || x == h
  {
    if h.items != [] {
      CopyHeaderAppends(copy, h);
    } else {
      DeleteKeepsDistinct(copy.headers, h.name);
      var kept := DeleteVal(copy.headers, h.name, []);
      forall i | 0 <= i < |kept| ensures !CiEqual(kept[i].name, h.name) {
        assert kept[i] in kept;
      }
      assert CopyHeader(copy, h).event.headers == kept + [h];
    }
  }

  lemma {:induction false} UniqueCopyIsDistinct(copy: Event, all: seq<Header>, i: nat)
    requires copy.uniqueHeaders && DistinctNames(copy.headers) && i <= |all|
    requires ArraysFirst(all) && forall k :: 0 <= k < |all| ==> SoundHeader(all[k])
    requires forall x :: x in copy.headers ==> x in all[..i]
    ensures var r := CopyHeaders(copy, all[i..]); r.ok && DistinctNames(r.event.headers)
    decreases |all| - i
  {
    hide CopyHeader, SoundHeader, DistinctNames;
    if i < |all| {
      assert all[i..][0] == all[i] && all[i..][1..] == all[i + 1..];
      forall k | 0 <= k < |copy.headers| && all[i].items != []
        ensures !CiEqual(copy.headers[k].name, all[i].name)
      {
        assert copy.headers[k] in all[..i];
      }
      UniqueCopyHeader(copy, all[i]);
      assert all[..i + 1] == all[..i] + [all[i]];
      UniqueCopyIsDistinct(CopyHeader(copy, all[i]).event, all, i + 1);
    }
  }

  /**
   The copy of a reachable event has the same headers in the same order, with
   the same arrays and rendered values, and the same body, even when names
   repeat; it differs exactly when they repeat under the unique-headers flag.
   */
  lemma DupIsFaithful(e: Event)
    requires Sound(e)
    ensures Dup(e) == Result(true, e) <==> !e.uniqueHeaders || DistinctNames(e.headers)
  {
    hide ArraysFirst;
    var start := Event([], None, e.uniqueHeaders, e.eventId);
    assert [] + e.headers == e.headers && e.headers[0..] == e.headers;
    if !e.uniqueHeaders || DistinctNames(e.headers) {
      CopyHeadersAppends(start, e.headers);
    } else {
      UniqueCopyIsDistinct(start, e.headers, 0);
    }
  }

  /** Two headers of one name and then the flag: one of them is missing in the copy. */
  lemma RepeatedNamesAreLost(name: hname, v: cstr, w: cstr)
    requires name != Text(BODY_NAME) && Plain(v) && Plain(w)
    ensures var e := Reached([ActAdd(Bottom, name, v), ActAdd(Bottom, name, w), ActSetUnique(true)]);
            Dup(e) != Result(true, e)
  {
    hide Dup, Plain, Reached;
    var two := [ActAdd(Bottom, name, v), ActAdd(Bottom, name, w)];
    TwoScalars(name, v, w);
    ReachedStep(two, ActSetUnique(true));
    var all := two + [ActSetUnique(true)];
    assert all == [ActAdd(Bottom, name, v), ActAdd(Bottom, name, w), ActSetUnique(true)];
    ReachableIsSound(all);
    var e := Reached(all);
    assert CiEqual(e.headers[0].name, e.headers[1].name);
    DupIsFaithful(e);
  }
}

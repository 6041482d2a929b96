/**
 `struct esl_event` in memory: a singly linked list of headers with a tail
 pointer. Each operation does to the list what the functions of EventHeaders do
 to the header sequence.
 */
module EventStore {
  import opened Bytes
  import opened Members
  import opened ArrayText
  import opened EventHeaders

  class HeaderNode {
    const name: hname
    var value: cstr
    var items: seq<cstr>
    var hash: nat
    var next: HeaderNode?

    constructor (name: hname)
      ensures this.name == name && value == [] && items == [] && next == null
    {
      this.name, value, items, hash, next := name, [], [], 0, null;
    }

    ghost function View(): Header
      reads this
    {
      Header(name, value, items)
    }

    method Redraw()
      requires items != []
      modifies this`value
      ensures value == Render(items)
    {
      value := if |items| > 1 then MARKER else [];
      ghost var start := value;
      for j := 0 to |items|
        invariant value == start + Join(items[..j])
      {
        var before := items[..j];
        assert items[..j + 1] == before + [items[j]];
        if j > 0 { JoinAppend(before, items[j]); }
        value := value + (if j == 0 then [] else SEPARATOR) + items[j];
      }
      assert items[..|items|] == items;
    }

    /** Turns a scalar into an array, appends an item and renders the value anew. */
    method PushItem(data: cstr, scalar: bool) returns (ok: bool)
      requires scalar ==> items == []
      modifies this`value, this`items
      ensures var all := (if scalar then [old(value)] else old(items)) + [data];
              if |all| <= INT_MAX then ok && items == all && value == Render(all)
              else !ok && (!scalar ==> items == old(items) && value == old(value))
    {
      if scalar { items := [value]; }
      if |items| >= INT_MAX { return false; }
      items := items + [data];
      Redraw();
      return true;
    }
  }

  /** The hash of a name, computed character by character. */
  method CiHashOf(name: hname) returns (hash: nat)
    ensures hash == CiHash(name)
  {
    hash := 0;
    for i := 0 to |name|
      invariant EventHeaders.HashFrom(hash, name[i..]) == CiHash(name)
    {
      assert name[i..][1..] == name[i + 1..];
      hash := (hash * 33 + Lower(name[i])) % 0x1_0000_0000;
    }
  }

  /** The node of a new header, not yet linked. */
  method MakeNode(stack: Stack, name: hname, data: cstr) returns (header: HeaderNode)
    ensures fresh(header) && header.View() == NewHeader(stack, name, data)
    ensures header.next == null && header.hash == CiHash(header.name)
  {
    hide EventHeaders.HashFrom, Render, Join;
    header := new HeaderNode(name);
    if stack == Push {
      var _ := header.PushItem(data, false);
      assert [] + [data] == [data];
    } else {
      header.value := data;
    }
    header.hash := CiHashOf(header.name);
  }

  /** The test of the deleting loop; the hash is only a filter. */
  method NodeMatches(hp: HeaderNode, hash: nat, name: hname, val: cstr) returns (matches: bool)
    requires hash == CiHash(name) && hp.hash == CiHash(hp.name)
    ensures matches == Matches(hp.View(), name, val)
  {
    if CiEqual(name, hp.name) { EqualNamesEqualHashes(0, name, hp.name); }
    return (hp.hash == 0 || hash == hp.hash) && CiEqual(name, hp.name) && (val == [] || hp.value == val);
  }

  ghost predicate NoRepeats(nodes: seq<HeaderNode>) {
    forall i, j :: 0 <= i < j < |nodes| ==> nodes[i] != nodes[j]
  }

  /** The list without its node `k`. */
  ghost function Without(nodes: seq<HeaderNode>, k: nat): (r: seq<HeaderNode>)
    requires k < |nodes|
    ensures |r| == |nodes| - 1 && forall i :: 0 <= i < |r| ==> r[i] == nodes[if i < k then i else i + 1]
  {
    nodes[..k] + nodes[k + 1..]
  }

  lemma WithoutHasNoRepeats(nodes: seq<HeaderNode>, k: nat)
    requires NoRepeats(nodes) && k < |nodes|
    ensures NoRepeats(Without(nodes, k))
  {
  }

  class EslEvent {
    var headers: HeaderNode?
    var lastHeader: HeaderNode?
    var body: Option<cstr>
    var uniqueHeaders: bool
    var eventId: nat
    ghost var spine: seq<HeaderNode>  // the nodes, from headers to lastHeader

    ghost function NodeAt(i: nat): HeaderNode?
      reads this
    {
      if i < |spine| then spine[i] else null
    }

    /** The list is the spine: acyclic, ended by the tail pointer, every hash that of its name. */
    ghost predicate Valid()
      reads this, spine
    {
      && NoRepeats(spine)
      && headers == NodeAt(0) && lastHeader == (if spine == [] then null else spine[|spine| - 1])
      && (forall i {:trigger spine[i].next} :: 0 <= i < |spine| ==> spine[i].next == NodeAt(i + 1))
      && (forall i :: 0 <= i < |spine| ==> spine[i].hash == CiHash(spine[i].name))
    }

    ghost function Nodes(): set<HeaderNode>
      reads this
    {
      set n | n in spine
    }

    ghost function Repr(): set<object>
      reads this
    {
      {this as object} + Nodes()
    }

    ghost function Headers(): (hs: seq<Header>)
      reads this, spine
      ensures |hs| == |spine| && forall i :: 0 <= i < |hs| ==> hs[i] == spine[i].View()
    {
      seq(|spine|, i requires 0 <= i < |spine| reads this, spine => spine[i].View())
    }

    ghost function View(): Event
      reads this, spine
    {
      Event(Headers(), body, uniqueHeaders, eventId)
    }

    constructor ()
      ensures Valid() && View() == Event([], None, false, 0) && spine == []
    {
      headers, lastHeader, body, uniqueHeaders, eventId, spine := null, null, None, false, 0, [];
    }

    /** `esl_event_get_header_ptr`: the hash is only a filter. */
    method GetHeaderPtr(name: hname) returns (hp: HeaderNode?, ghost ix: nat)
      requires Valid()
      ensures ix == FindHeader(Headers(), name)
      ensures hp == NodeAt(FindHeader(Headers(), name))
    {
      var hash := CiHashOf(name);
      hp, ix := headers, 0;
      while hp != null
        invariant ix <= |spine| && hp == NodeAt(ix)
        invariant forall k :: 0 <= k < ix ==> !CiEqual(spine[k].name, name)
        decreases |spine| - ix
      {
        if CiEqual(hp.name, name) { EqualNamesEqualHashes(0, hp.name, name); }
        if (hp.hash == 0 || hash == hp.hash) && CiEqual(hp.name, name) { return; }
        hp, ix := hp.next, ix + 1;
      }
    }

    // ----- deleting -----

    static lemma OnlyOnce(nodes: seq<HeaderNode>, k: int)
      requires NoRepeats(nodes)
      ensures 0 <= k < |nodes| ==> forall i :: 0 <= i < |nodes| && i != k ==> nodes[i] != nodes[k]
    {
    }

    method Relink(ghost k: nat, lp: HeaderNode?, hp: HeaderNode)
      requires Valid() && k < |spine| && hp == spine[k] && lp == (if k == 0 then null else spine[k - 1])
      modifies this`headers, this`lastHeader, this`spine, Nodes()`next
      ensures Valid() && spine == old(Without(spine, k))
    {
      hide NoRepeats, Without;
      WithoutHasNoRepeats(spine, k);
      OnlyOnce(spine, k - 1);
      assert k > 0 ==> spine[k - 1] in Nodes();
      ghost var shorter := Without(spine, k);
      if lp != null { lp.next := hp.next; } else { headers := hp.next; }
      if hp == lastHeader || hp.next == null { lastHeader := lp; }
      spine := shorter;
    }

    /** Takes node `k` out of the list; `lp` is the node in front of it. */
    method Unlink(ghost k: nat, lp: HeaderNode?, hp: HeaderNode)
      requires Valid() && k < |spine| && hp == spine[k] && lp == (if k == 0 then null else spine[k - 1])
      modifies Repr()
      ensures Valid() && spine == old(Without(spine, k)) && Repr() <= old(Repr())
      ensures body == old(body) && uniqueHeaders == old(uniqueHeaders) && eventId == old(eventId)
      ensures Headers() == old(Headers()[..k] + Headers()[k + 1..])
    {
      hide NoRepeats;
      assert forall n :: n in Without(spine, k) ==> n in spine;
      Relink(k, lp, hp);
      assert Headers() == old(Headers()[..k] + Headers()[k + 1..]);
    }

    lemma NodeFacts(k: nat)
      requires Valid()
      ensures headers == NodeAt(0)
      ensures if k < |spine| then NodeAt(k) == spine[k] else NodeAt(k) == null
      ensures k < |spine| ==> spine[k].next == NodeAt(k + 1) && spine[k].hash == CiHash(spine[k].name)
    {
    }

    /** The list `now` is `hs` with the matching headers in front of position `k` deleted. */
    static ghost predicate DoneUpTo(hs: seq<Header>, now: seq<Header>, k: nat, name: hname, val: cstr) {
      k <= |now| && now[..k] + DeleteVal(now[k..], name, val) == DeleteVal(hs, name, val)
    }

    static lemma StartToDelete(hs: seq<Header>, name: hname, val: cstr)
      ensures DoneUpTo(hs, hs, 0, name, val)
    {
      assert hs[0..] == hs && hs[..0] == [];
    }

    /** One turn of the deleting loop, on the header sequence. */
    static lemma NextToDelete(hs: seq<Header>, now: seq<Header>, k: nat, name: hname, val: cstr)
      requires DoneUpTo(hs, now, k, name, val) && k < |now|
      ensures if Matches(now[k], name, val) then DoneUpTo(hs, now[..k] + now[k + 1..], k, name, val)
              else DoneUpTo(hs, now, k + 1, name, val)
    {
      var shorter := now[..k] + now[k + 1..];
      assert shorter[..k] == now[..k] && shorter[k..] == now[k + 1..];
      assert now[k..][0] == now[k] && now[k..][1..] == now[k + 1..];
      assert now[..k + 1] == now[..k] + [now[k]];
      if !Matches(now[k], name, val) {
        assert now[..k] + ([now[k]] + DeleteVal(now[k + 1..], name, val)) ==
               now[..k] + [now[k]] + DeleteVal(now[k + 1..], name, val);
      }
    }

    /** One turn of the deleting loop; `lp` is the last node that stays. */
    method DeleteTurn(ghost hs: seq<Header>, ghost k: nat, lp: HeaderNode?, hp: HeaderNode, hash: nat,
                      name: hname, val: cstr)
      returns (ghost k': nat, lp': HeaderNode?, tp: HeaderNode?)
      requires Valid() && hash == CiHash(name) && DoneUpTo(hs, Headers(), k, name, val)
      requires k < |spine| && hp == spine[k] && lp == (if k == 0 then null else spine[k - 1])
      modifies Repr()
      ensures Valid() && Repr() <= old(Repr())
      ensures body == old(body) && uniqueHeaders == old(uniqueHeaders) && eventId == old(eventId)
      ensures k' <= |spine| && lp' == (if k' == 0 then null else spine[k' - 1]) && tp == NodeAt(k')
      ensures |spine| - k' < old(|spine|) - k
      ensures DoneUpTo(hs, Headers(), k', name, val)
    {
      hide Valid, Matches, DoneUpTo, EventHeaders.HashFrom;
      NodeFacts(k);
      tp := hp.next;
      NextToDelete(hs, Headers(), k, name, val);
      var matches := NodeMatches(hp, hash, name, val);
      if matches {
        Unlink(k, lp, hp);
        k', lp' := k, lp;
      } else {
        k', lp' := k + 1, hp;
      }
    }

    static lemma AllDeleted(hs: seq<Header>, now: seq<Header>, name: hname, val: cstr)
      requires DoneUpTo(hs, now, |now|, name, val)
      ensures now == DeleteVal(hs, name, val)
    {
      assert now[..|now|] == now && now[|now|..] == [];
    }

    /** `esl_event_del_header_val` */
    method DelHeaderVal(name: hname, val: cstr)
      requires Valid()
      modifies Repr()
      ensures Valid() && Repr() <= old(Repr())
      ensures body == old(body) && uniqueHeaders == old(uniqueHeaders) && eventId == old(eventId)
      ensures Headers() == DeleteVal(old(Headers()), name, val)
    {
      hide Valid, Repr, Nodes, NodeAt, Headers, DeleteVal, DoneUpTo, Without, NoRepeats;
      NodeFacts(0);
      var hash := CiHashOf(name);
      var lp: HeaderNode?, tp := null, headers;
      ghost var hs := Headers();
      ghost var k: nat := 0;
      StartToDelete(hs, name, val);
      while tp != null
        invariant Valid() && k <= |spine|
        invariant tp == NodeAt(k) && lp == (if k == 0 then null else spine[k - 1])
        invariant Repr() <= old(Repr())
        invariant body == old(body) && uniqueHeaders == old(uniqueHeaders) && eventId == old(eventId)
        invariant DoneUpTo(hs, Headers(), k, name, val)
        decreases |spine| - k
      {
        NodeFacts(k);
        k, lp, tp := DeleteTurn(hs, k, lp, tp, hash, name, val);
      }
      NodeFacts(k);
      AllDeleted(hs, Headers(), name, val);
    }

    // ----- adding -----

    static lemma AppendedHasNoRepeats(nodes: seq<HeaderNode>, node: HeaderNode)
      requires NoRepeats(nodes) && node !in (set n | n in nodes)
      ensures NoRepeats(nodes + [node])
    {
    }

    /** Links a new node behind the last one. */
    method Append(node: HeaderNode)
      requires Valid() && node !in Nodes() && node.next == null && node.hash == CiHash(node.name)
      modifies this`headers, this`lastHeader, this`spine, Nodes()`next
      ensures Valid() && spine == old(spine) + [node]
      ensures Headers() == old(Headers()) + [old(node.View())]
    {
      hide NoRepeats;
      assert NoRepeats(spine + [node]) by { AppendedHasNoRepeats(spine, node); }
      OnlyOnce(spine, |spine| - 1);
      ghost var longer := spine + [node];
      if lastHeader != null {
        assert lastHeader in Nodes();
        lastHeader.next := node;
      } else {
        headers := node;
      }
      lastHeader := node;
      spine := longer;
    }

    /** Pushes to a header that is already in the list. */
    method PushTo(ghost ix: nat, header: HeaderNode, data: cstr) returns (ok: bool)
      requires Valid() && ix < |spine| && header == spine[ix]
      modifies header`value, header`items
      ensures Valid() && ok == (|ItemsOf(old(Headers()[ix]))| < INT_MAX)
      ensures Headers() == if ok then old(Headers()[ix := Pushed(Headers()[ix], data)]) else old(Headers())
    {
      OnlyOnce(spine, ix);
      ghost var hs := Headers();
      ok := header.PushItem(data, header.items == []);
      if ok {
        assert header.View() == Pushed(hs[ix], data);
        assert Headers() == hs[ix := Pushed(hs[ix], data)];
      } else {
        assert Headers() == hs;
      }
    }

    method CopyFields(eventId: nat, uniqueHeaders: bool)
      requires Valid()
      modifies this`eventId, this`uniqueHeaders
      ensures Valid() && spine == old(spine)
      ensures View() == Event(old(Headers()), old(body), uniqueHeaders, eventId)
    {
      this.eventId, this.uniqueHeaders := eventId, uniqueHeaders;
      assert Headers() == old(Headers());
    }

    method CopyBody(body: Option<cstr>)
      requires Valid()
      modifies this`body
      ensures Valid() && spine == old(spine)
      ensures View() == old(View()).(body := body)
    {
      this.body := body;
      assert Headers() == old(Headers());
    }

    /** `esl_event_set_body` */
    method SetBody(text: cstr) returns (ok: bool)
      requires Valid()
      modifies this`body
      ensures Valid() && spine == old(spine)
      ensures Result(ok, View()) == EventHeaders.SetBody(old(View()), text)
    {
      if |text| > MAX_BODY {
        ok := false;
      } else {
        body, ok := Some(text), true;
      }
      assert Headers() == old(Headers());
    }

    /** A header that is not in the list yet: the part of the add behind the lookup. */
    method AddNew(stack: Stack, name: hname, data: cstr)
      requires Valid()
      modifies Repr()
      ensures Valid() && fresh(Repr() - old(Repr()))
      ensures View() == old(View().(headers := View().headers + [NewHeader(stack, name, data)]))
    {
      hide Valid, NewHeader;
      var header := MakeNode(stack, name, data);
      Append(header);
    }

    /** `esl_event_add_header_string`, with `esl_event_base_add_header`. */
    method AddHeaderString(stack: Stack, name: hname, data: cstr) returns (ok: bool)
      requires Valid()
      modifies Repr()
      ensures Valid() && fresh(Repr() - old(Repr()))
      ensures Result(ok, View()) == AddHeader(old(View()), stack, name, data)
      decreases |data|, 2, 1
    {
      hide Valid, Contains, DeleteVal, FindHeader, AddArray, EventHeaders.HashFrom, NewHeader;
      if name == Text(BODY_NAME) {
        ok := SetBody(data);
        return;
      }
      var header: HeaderNode? := null;
      ghost var ix := 0;
      if stack == Push {
        header, ix := GetHeaderPtr(name);
      }
      if header != null {
        ok := PushTo(ix, header, data);
      } else {
        ok := AddAbsent(stack, name, data);
      }
    }

    /** The add when there is no header to push to. */
    method AddAbsent(stack: Stack, name: hname, data: cstr) returns (ok: bool)
      requires Valid() && name != Text(BODY_NAME) && (stack == Push ==> !HasHeader(Headers(), name))
      modifies Repr()
      ensures Valid() && fresh(Repr() - old(Repr()))
      ensures Result(ok, View()) == AddHeader(old(View()), stack, name, data)
      decreases |data|, 2, 0
    {
      hide Valid, Contains, DeleteVal, FindHeader, AddArray, EventHeaders.HashFrom, NewHeader, Pushed;
      if data == [] {
        DelHeaderVal(name, []);
        return true;
      }
      if uniqueHeaders {
        DelHeaderVal(name, []);
      }
      if Contains(data, MARKER) {
        ok := AddArrayString(name, data);
      } else {
        AddNew(stack, name, data);
        ok := true;
      }
    }

    /** `esl_event_add_array` */
    method AddArrayString(name: hname, val: cstr) returns (ok: bool)
      requires Valid()
      modifies Repr()
      ensures Valid() && fresh(Repr() - old(Repr()))
      ensures Result(ok, View()) == AddArray(old(View()), name, val)
      decreases |val|, 1, 0
    {
      hide Valid, Separators, Separate, EventHeaders.HashFrom, AddHeader, IsString;
      if |val| < 8 { return false; }
      var max := CountSeparators(val[7..]);
      if max >= UINT_MAX { return false; }
      var data := Duplicate(val[7..]);
      ghost var pieces := Separate(val[7..], max + 1);
      PiecesAreShorter(val);
      var starts := SeparateInPlace(data, val[7..], max + 1);
      label Cut:
      for i := 0 to |starts|
        invariant Valid() && fresh(Repr() - old(Repr())) && data !in Repr()
        invariant data[..] == old@Cut(data[..])
        invariant AddPieces(View(), name, pieces[i..], |val|) == AddPieces(old(View()), name, pieces, |val|)
      {
        var piece := ReadString(data, starts[i], pieces[i]);
        assert pieces[i..][0] == pieces[i] && pieces[i..][1..] == pieces[i + 1..];
        ok := AddHeaderString(Push, name, piece);
        if !ok { return; }
      }
      return true;
    }
  }
}

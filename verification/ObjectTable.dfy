/**
 `JSON_Object`: an open-addressed hash table over dense item arrays. Its meaning
 is the member list `Items()`, and every operation is one of the list functions
 of module Members.
 */
module ObjectTable {
  import opened Bytes
  import opened Members
  import opened Probing

  const STARTING_CAPACITY: nat := 16
  const HASH_MODULUS: nat := 0x1_0000_0000_0000_0000

  /** `hash * 33 + c` over the characters, in the width of `unsigned long`. */
  function HashFrom(hash: nat, s: seq<byte>): nat
    decreases |s|
  {
    if s == [] then hash else HashFrom((hash * 33 + s[0]) % HASH_MODULUS, s[1..])
  }

  function Hash(s: seq<byte>): nat {
    HashFrom(5381, s)
  }

  /** The number with the base-33 digits `s` behind 5381, however large. */
  ghost function Numeral(s: seq<byte>): nat {
    if s == [] then 5381 else 33 * Numeral(s[..|s| - 1]) + s[|s| - 1]
  }

  lemma {:induction false} HashOfAppended(hash: nat, s: seq<byte>, c: byte)
    ensures HashFrom(hash, s + [c]) == (HashFrom(hash, s) * 33 + c) % HASH_MODULUS
    decreases |s|
  {
    var t := s + [c];
    if s == [] {
      assert t[0] == c && t[1..] == [];
    } else {
      assert t[0] == s[0] && t[1..] == s[1..] + [c];
      HashOfAppended((hash * 33 + s[0]) % HASH_MODULUS, s[1..], c);
    }
  }

  lemma LastDigitInModulus(n: nat, c: nat)
    ensures (n % 0x1_0000_0000_0000_0000 * 33 + c) % 0x1_0000_0000_0000_0000 == (33 * n + c) % 0x1_0000_0000_0000_0000
  {
    var q, r := n / 0x1_0000_0000_0000_0000, n % 0x1_0000_0000_0000_0000;
    assert 33 * n + c == 33 * r + c + 33 * q * 0x1_0000_0000_0000_0000;
  }

  /** The hash is that number in 64 bits. */
  lemma {:induction false} HashIsNumeral(s: seq<byte>)
    ensures Hash(s) == Numeral(s) % HASH_MODULUS
  {
    if s != [] {
      var front, c := s[..|s| - 1], s[|s| - 1];
      assert s == front + [c];
      HashIsNumeral(front);
      HashOfAppended(5381, front, c);
      LastDigitInModulus(Numeral(front), c);
    }
  }

  method HashString(name: cstr) returns (hash: nat)
    ensures hash == Hash(name)
  {
    hash := 5381;
    for i := 0 to |name|
      invariant HashFrom(hash, name[i..]) == Hash(name)
    {
      assert name[i..][1..] == name[i + 1..];
      hash := (hash * 33 + name[i]) % HASH_MODULUS;
    }
  }

  ghost predicate IsDoubledStart(cap: nat) {
    cap == STARTING_CAPACITY || (cap > STARTING_CAPACITY && cap % 2 == 0 && IsDoubledStart(cap / 2))
  }

  /** Capacities the table can have: none, or a power of two from 16 up. */
  ghost predicate IsCapacity(cap: nat) {
    cap == 0 || (cap <= SIZE_MAX / 7 && IsDoubledStart(cap))
  }

  function ItemCapacity(cap: nat): (r: nat)
    ensures cap >= STARTING_CAPACITY ==> 0 < r < cap
  {
    cap * 7 / 10
  }

  function NextCapacity(cap: nat): nat {
    Max(cap * 2, STARTING_CAPACITY)
  }

  lemma StartIsLeast(cap: nat)
    requires IsDoubledStart(cap)
    ensures cap >= STARTING_CAPACITY
  {
  }

  lemma DoubledHasMoreRoom(cap: nat)
    requires cap >= STARTING_CAPACITY
    ensures ItemCapacity(cap) < ItemCapacity(cap * 2)
  {
  }

  lemma NextIsCapacity(cap: nat)
    requires IsCapacity(cap) && NextCapacity(cap) <= SIZE_MAX / 7
    ensures IsCapacity(NextCapacity(cap))
    ensures ItemCapacity(cap) < ItemCapacity(NextCapacity(cap))
  {
    if cap > 0 {
      StartIsLeast(cap);
      var next := cap * 2;
      assert next % 2 == 0 && next / 2 == cap;
      DoubledHasMoreRoom(cap);
    }
  }

  /** The size checks of `json_object_grow_and_rehash` and `json_object_init`. */
  predicate CanGrow(cap: nat) {
    cap <= SIZE_MAX / 2 && NextCapacity(cap) <= SIZE_MAX / 7
  }

  class JsonObject<V(0)> {
    var cells: array<nat>
    var hashes: array<nat>
    var names: array<cstr>
    var values: array<V>
    var cellIxs: array<nat>
    var count: nat
    var itemCapacity: nat
    var cellCapacity: nat

    ghost function Repr(): set<object>
      reads this
    {
      {this, cells, hashes, names, values, cellIxs}
    }

    ghost predicate Shape()
      reads this
    {
      && cells.Length == cellCapacity && IsCapacity(cellCapacity)
      && itemCapacity == ItemCapacity(cellCapacity)
      && hashes.Length == names.Length == values.Length == cellIxs.Length == itemCapacity
      && count <= itemCapacity
      && cells != hashes && cells != cellIxs && hashes != cellIxs && names as object != values
      && names as object != cells && names as object != cellIxs && names as object != hashes
      && values as object != cells && values as object != cellIxs && values as object != hashes
    }

    ghost function Items(): (ms: seq<Member<V>>)
      requires count <= names.Length && count <= values.Length
      reads this, names, values
      ensures |ms| == count
      ensures forall m :: 0 <= m < count ==> ms[m] == Member(names[m], values[m])
    {
      seq(count, m requires 0 <= m < count reads this, names, values
                   requires count <= names.Length && count <= values.Length
                 => Member(names[m], values[m]))
    }

    /** The table invariant. */
    ghost predicate Valid()
      reads Repr()
    {
      && Shape()
      && (cellCapacity > 0 ==>
            Sound(cells[..], cellIxs[..count], hashes[..count]))
      && (forall m :: 0 <= m < count ==> hashes[m] == Hash(names[m]))
      && Distinct(Items())
    }

    lemma ValidShape()
      requires Valid()
      ensures Shape() && |Items()| == count && itemCapacity < SIZE_MAX / 7
    {
    }

    /** A sound table with exactly these members, in this order. */
    ghost predicate Stores(ms: seq<Member<V>>)
      reads Repr()
    {
      Valid() && Items() == ms
    }

    static lemma NoneIsDistinct(ms: seq<Member<V>>)
      requires ms == []
      ensures Distinct(ms)
    {
    }

    constructor Init(capacity: nat)
      requires IsCapacity(capacity)
      ensures Valid() && fresh(Repr()) && Items() == []
      ensures cellCapacity == capacity
    {
      count, cellCapacity, itemCapacity := 0, capacity, ItemCapacity(capacity);
      cells := new nat[capacity];
      names := new cstr[ItemCapacity(capacity)];
      values := new V[ItemCapacity(capacity)];
      cellIxs := new nat[ItemCapacity(capacity)];
      hashes := new nat[ItemCapacity(capacity)];
      new;
      hide IsCapacity, Sound, Distinct, Hash;
      for i := 0 to capacity
        invariant Shape() && count == 0 && cellCapacity == capacity && fresh(Repr())
        invariant forall c :: 0 <= c < i ==> cells[c] == INVALID_IX
        modifies cells
      {
        cells[i] := INVALID_IX;
      }
      EmptyIsSound(cells[..]);
      assert cellIxs[..count] == [] && hashes[..count] == [];
      NoneIsDistinct(Items());
    }

    /** `cell` is the first empty cell on a probe for `hash`. */
    ghost predicate FirstEmpty(hash: nat, cell: nat)
      requires Valid()
      reads Repr()
    {
      && cell < cellCapacity && cells[cell] == INVALID_IX
      && forall x :: 0 <= x < cellCapacity && Before(Home(hash, cellCapacity), x, cell, cellCapacity) ==>
                     cells[x] != INVALID_IX
    }

    lemma CellHoldsItem(c: nat)
      requires Valid() && c < cellCapacity && cells[c] != INVALID_IX
      ensures cells[c] < count && cellIxs[cells[c]] == c
      ensures hashes[cells[c]] == Hash(names[cells[c]])
      ensures IndexOf(Items(), names[cells[c]]) == cells[c]
    {
      assert cells[..][c] == cells[c];
      IndexOfAt(Items(), cells[c]);
    }

    lemma SomeEmptyCell() returns (e: nat)
      requires Valid()
      ensures cellCapacity > 0 ==> e < cellCapacity && cells[e] == INVALID_IX
    {
      e := 0;
      if cellCapacity > 0 {
        EmptyCellExists(cells[..], cellIxs[..count]);
        e :| 0 <= e < cellCapacity && cells[..][e] == INVALID_IX;
      }
    }

    /** A probe that met only other items before an empty cell proves the key absent. */
    lemma AbsentAtEmptyCell(key: cstr, ix: nat)
      requires Valid() && ix < cellCapacity && cells[ix] == INVALID_IX
      requires forall x :: 0 <= x < cellCapacity && Before(Home(Hash(key), cellCapacity), x, ix, cellCapacity) ==>
                           cells[x] != INVALID_IX && cells[x] < count && names[cells[x]] != key
      ensures !Has(Items(), key)
    {
      forall m | 0 <= m < count
        ensures names[m] != key
      {
        var c := cellIxs[..count][m];
        assert cells[..][c] == m && cells[..][ix] == INVALID_IX;
        assert hashes[..count][m] == Hash(names[m]);
        assert !Before(Home(hashes[m], cellCapacity), ix, c, cellCapacity);
      }
    }

    /** The cell of `key`, or the first empty cell on its probe. */
    method GetCellIx(key: cstr, hash: nat) returns (found: bool, cell: nat)
      requires Valid() && hash == Hash(key)
      ensures found <==> Has(Items(), key)
      ensures found ==> cell < cells.Length && cells[cell] == IndexOf(Items(), key)
      ensures !found && cellCapacity == 0 ==> cell == INVALID_IX
      ensures !found && itemCapacity > 0 ==> FirstEmpty(hash, cell)
    {
      hide Valid, Items, Hash, IndexOf, Home;
      ValidShape();
      var start := if cellCapacity == 0 then 0 else Home(hash, cellCapacity);
      ghost var e := SomeEmptyCell();
      for i := 0 to cellCapacity
        invariant Valid()
        invariant cellCapacity > 0 ==> i <= Dist(start, e, cellCapacity)
        invariant forall x :: 0 <= x < cellCapacity && Dist(start, x, cellCapacity) < i ==>
                              cells[x] != INVALID_IX && cells[x] < count && names[cells[x]] != key
      {
        var ix := Wrap(start + i, cellCapacity);
        var item := cells[ix];
        if item == INVALID_IX {
          AbsentAtEmptyCell(key, ix);
          return false, ix;
        }
        CellHoldsItem(ix);
        if hashes[item] == hash && names[item] == key {
          return true, ix;
        }
      }
      return false, INVALID_IX;
    }

    method GetnValue(name: cstr) returns (value: Option<V>)
      requires Valid()
      ensures value == Lookup(Items(), name)
    {
      var hash := HashString(name);
      var found, cell := GetCellIx(name, hash);
      if !found { return None; }
      return Some(values[cells[cell]]);
    }

    /** Writes a new item into an empty cell found by `GetCellIx`. */
    method Store(name: cstr, value: V, hash: nat, cell: nat)
      requires Valid() && hash == Hash(name) && !Has(Items(), name)
      requires count < itemCapacity && FirstEmpty(hash, cell)
      modifies this`count, cells, names, values, cellIxs, hashes
      ensures Valid()
      ensures Items() == old(Items()) + [Member(name, value)]
    {
      hide Linked, Probes, Before, Dist, Home, Hash, IndexOf, IsCapacity, ItemCapacity;
      ValidShape();
      ghost var cells0, ixs0, hashes0 := cells[..], cellIxs[..count], hashes[..count];
      ghost var n, items0 := count, Items();
      names[count] := name;
      cells[cell] := count;
      values[count] := value;
      cellIxs[count] := cell;
      hashes[count] := hash;
      count := count + 1;
      Insert(cells0, ixs0, hashes0, hash, cell);
      assert cells[..] == cells0[cell := n];
      assert cellIxs[..count] == ixs0 + [cell];
      assert hashes[..count] == hashes0 + [hash];
      assert Items() == items0 + [Member(name, value)];
    }

    /** `*object = new_object`. */
    method Adopt(newObject: JsonObject<V>)
      requires newObject.Valid() && newObject != this
      modifies this
      ensures Valid() && Repr() == newObject.Repr() - {newObject} + {this}
      ensures Items() == newObject.Items() && count == newObject.count
      ensures cellCapacity == newObject.cellCapacity && itemCapacity == newObject.itemCapacity
    {
      cells, hashes, names := newObject.cells, newObject.hashes, newObject.names;
      values, cellIxs := newObject.values, newObject.cellIxs;
      count, itemCapacity, cellCapacity := newObject.count, newObject.itemCapacity, newObject.cellCapacity;
    }

    lemma FirstOfItsName(items: seq<Member<V>>, i: nat)
      requires Valid() && items == Items() && i < count
      ensures !Has(items[..i], items[i].name)
      ensures items[i] == Member(names[i], values[i])
    {
    }

    /** `json_object_add`: refuses a name that is already there. */
    method Add(name: cstr, value: V) returns (ok: bool)
      requires Valid()
      modifies Repr()
      ensures Valid() && fresh(Repr() - old(Repr()))
      ensures ok <==> old(!Has(Items(), name) && (count < itemCapacity || CanGrow(cellCapacity)))
      ensures Items() == if ok then old(Items()) + [Member(name, value)] else old(Items())
      ensures cellCapacity ==
              if ok && old(count >= itemCapacity) then NextCapacity(old(cellCapacity)) else old(cellCapacity)
      ensures old(count < itemCapacity) ==> Repr() == old(Repr())
      decreases if count >= itemCapacity then 3 else 0
    {
      hide Valid, Items, Has, CanGrow, NextCapacity, FirstEmpty, Hash;
      var hash := HashString(name);
      var found, cell := GetCellIx(name, hash);
      if found { return false; }
      if count >= itemCapacity {
        var res := GrowAndRehash();
        if !res { return false; }
        found, cell := GetCellIx(name, hash);
      }
      Store(name, value, hash, cell);
      return true;
    }

    /** `json_object_grow_and_rehash`: the nested `Add` calls never grow the new table. */
    method GrowAndRehash() returns (ok: bool)
      requires Valid()
      modifies Repr()
      ensures Valid() && fresh(Repr() - old(Repr()))
      ensures ok <==> CanGrow(old(cellCapacity))
      ensures Items() == old(Items())
      ensures cellCapacity == if ok then NextCapacity(old(cellCapacity)) else old(cellCapacity)
      ensures ok ==> count < itemCapacity
      decreases 2
    {
      hide Valid, Items, Has, Hash, HashFrom, IndexOf, IsDoubledStart, IsCapacity;
      ValidShape();
      if cellCapacity > SIZE_MAX / 2 { return false; }
      var newCapacity := NextCapacity(cellCapacity);
      if newCapacity > SIZE_MAX / 7 { return false; }
      NextIsCapacity(cellCapacity);
      var newObject := new JsonObject<V>.Init(newCapacity);
      newObject.ValidShape();
      Refill(newObject);
      newObject.ValidShape();
      Adopt(newObject);
      return true;
    }

    /** The loop that adds all items to the larger table. */
    method Refill(newObject: JsonObject<V>)
      requires Valid() && newObject.Valid() && newObject.Repr() !! Repr()
      requires newObject.Items() == [] && count < newObject.itemCapacity
      modifies newObject.Repr()
      ensures newObject.Valid() && newObject.Repr() == old(newObject.Repr())
      ensures newObject.Items() == Items() && newObject.cellCapacity == old(newObject.cellCapacity)
      decreases 1
    {
      hide Valid, Items, Has, Hash, IndexOf, IsCapacity;
      ValidShape();
      newObject.ValidShape();
      ghost var items := Items();
      for i := 0 to count
        invariant newObject.Valid() && newObject.Shape() && newObject.Repr() == old(newObject.Repr())
        invariant newObject.Items() == items[..i] && newObject.count == i
        invariant newObject.cellCapacity == old(newObject.cellCapacity)
        invariant newObject.itemCapacity == old(newObject.itemCapacity)
      {
        FirstOfItsName(items, i);
        var res := newObject.Add(names[i], values[i]);
        newObject.ValidShape();
        assert items[..i + 1] == items[..i] + [items[i]];
      }
      assert items[..count] == items;
    }

    method Overwrite(item: nat, name: cstr, value: V)
      requires Valid() && Has(Items(), name) && item == IndexOf(Items(), name)
      modifies values
      ensures Valid() && Items() == Put(old(Items()), name, value)
    {
      values[item] := value;
      assert Items() == Put(old(Items()), name, value);
    }

    /** `json_object_set_value`: overwrites in place, or adds at the end. */
    method SetValue(name: cstr, value: V) returns (ok: bool)
      requires Valid()
      modifies Repr()
      ensures Valid() && fresh(Repr() - old(Repr()))
      ensures ok <==> old(Has(Items(), name) || count < itemCapacity || CanGrow(cellCapacity))
      ensures Items() == if ok then Put(old(Items()), name, value) else old(Items())
      ensures cellCapacity ==
              if ok && old(!Has(Items(), name) && count >= itemCapacity) then NextCapacity(old(cellCapacity))
              else old(cellCapacity)
    {
      hide Valid, Items, CanGrow, NextCapacity, FirstEmpty, Hash, IndexOf;
      var hash := HashString(name);
      var found, cell := GetCellIx(name, hash);
      if found {
        Overwrite(cells[cell], name, value);
        return true;
      }
      ValidShape();
      if count >= itemCapacity {
        var res := GrowAndRehash();
        if !res { return false; }
        found, cell := GetCellIx(name, hash);
      }
      Store(name, value, hash, cell);
      return true;
    }

    method Clear()
      requires Valid()
      modifies this`count, cells
      ensures Valid() && Items() == []
    {
      count := 0;
      for i := 0 to cellCapacity
        invariant Shape() && count == 0
        invariant forall c :: 0 <= c < i ==> cells[c] == INVALID_IX
      {
        cells[i] := INVALID_IX;
      }
    }

    /** Iteration by index: `json_object_get_name` and `json_object_get_value_at`. */
    method GetMembers() returns (ms: seq<Member<V>>)
      requires Valid()
      ensures ms == Items()
    {
      ms := [];
      for i := 0 to count
        invariant ms == Items()[..i]
      {
        ms := ms + [Member(names[i], values[i])];
      }
    }

    // ----- removal -----

    /** The table with a hole in cell `hole`: everything holds but the content of that cell. */
    ghost predicate Torn(hole: nat)
      reads Repr()
    {
      && Shape() && hole < cellCapacity && cells[hole] != INVALID_IX
      && Holed(cells[..], cellIxs[..count], hashes[..count], hole)
      && (forall m :: 0 <= m < count ==> hashes[m] == Hash(names[m]))
      && Distinct(Items())
    }

    ghost predicate Swept(hole: nat, j: nat)
      requires Torn(hole)
      reads Repr()
    {
      j < cellCapacity && Scanned(cellIxs[..count], hashes[..count], cellCapacity, hole, j)
    }

    /** The facts that make a table with a hole. */
    lemma IsTorn(cell: nat, cells': seq<nat>, ixs: seq<nat>, hs: seq<nat>)
      requires Shape() && cells[..] == cells' && cellIxs[..count] == ixs && hashes[..count] == hs
      requires cell < cellCapacity && cells'[cell] != INVALID_IX && Holed(cells', ixs, hs, cell)
      requires InRange(ixs, cellCapacity) && Scanned(ixs, hs, cellCapacity, cell, cell)
      requires (forall m :: 0 <= m < count ==> hashes[m] == Hash(names[m])) && Distinct(Items())
      ensures Torn(cell) && Swept(cell, cell)
    {
      hide Probes, Scanned, Distinct, Hash, Home;
    }

    /** The names and values of `CopyLastItem`. */
    method CopyLastMember(item: nat, ghost name: cstr)
      requires Shape() && item < count && Has(Items(), name) && item == IndexOf(Items(), name)
      modifies this`count, names, values
      ensures Shape() && count == old(count) - 1
      ensures Items() == Remove(old(Items()), name)
      ensures forall m :: 0 <= m < count ==> names[m] == old(names[if m == item then count - 1 else m])
    {
      hide IndexOf, IsCapacity, ItemCapacity;
      var last := count - 1;
      if item < last {
        names[item] := names[last];
        values[item] := values[last];
      }
      count := count - 1;
      ghost var was := old(Items());
      assert forall m :: 0 <= m < count ==> Items()[m] == was[if m == item then last else m];
      assert Items() == Remove(was, name);
    }

    /** Its cells and hashes. */
    method CopyLastCell(item: nat)
      requires Shape() && item < count && forall m :: 0 <= m < count ==> cellIxs[m] < cells.Length
      modifies cellIxs, hashes, cells
      ensures hashes[..count - 1] == MoveLast(old(hashes[..count]), item)
      ensures cellIxs[..count - 1] == MoveLast(old(cellIxs[..count]), item)
      ensures forall m :: 0 <= m < count - 1 ==> hashes[m] == old(hashes[if m == item then count - 1 else m])
      ensures cells[..] ==
              if item < count - 1 then old(cells[..])[old(cellIxs[count - 1]) := item] else old(cells[..])
    {
      hide IsCapacity, ItemCapacity;
      var last := count - 1;
      if item < last {
        cellIxs[item] := cellIxs[last];
        hashes[item] := hashes[last];
        cells[cellIxs[item]] := item;
      }
    }

    method CopyLastItem(item: nat, ghost name: cstr)
      requires Shape() && item < count
      requires Has(Items(), name) && item == IndexOf(Items(), name)
      requires forall m :: 0 <= m < count ==> cellIxs[m] < cells.Length && hashes[m] == Hash(names[m])
      modifies this`count, names, values, cellIxs, hashes, cells
      ensures Shape() && count == old(count) - 1
      ensures Items() == Remove(old(Items()), name)
      ensures forall m :: 0 <= m < count ==> hashes[m] == Hash(names[m])
      ensures hashes[..count] == MoveLast(old(hashes[..count]), item)
      ensures cellIxs[..count] == MoveLast(old(cellIxs[..count]), item)
      ensures cells[..] ==
              if item < count then old(cells[..])[old(cellIxs[count - 1]) := item] else old(cells[..])
    {
      hide Hash, IndexOf, IsCapacity, ItemCapacity, Items, MoveLast, Has, Remove;
      CopyLastCell(item);
      CopyLastMember(item, name);
    }

    /** The arrays after the last item has been moved: a table with one hole. */
    lemma StartOfRemoval(item: nat) returns (cells': seq<nat>, ixs': seq<nat>, hs': seq<nat>)
      requires Valid() && item < count
      ensures Distinct(Items()) && cellIxs[item] < cellCapacity
      ensures forall m :: 0 <= m < count ==> cellIxs[m] < cells.Length && hashes[m] == Hash(names[m])
      ensures cells' == if item < count - 1 then cells[..][cellIxs[count - 1] := item] else cells[..]
      ensures ixs' == MoveLast(cellIxs[..count], item) && hs' == MoveLast(hashes[..count], item)
      ensures |hs'| == |ixs'| && InRange(ixs', cellCapacity)
      ensures Holed(cells', ixs', hs', cellIxs[item]) && Scanned(ixs', hs', cellCapacity, cellIxs[item], cellIxs[item])
      ensures |cells'| == cellCapacity && cells'[cellIxs[item]] != INVALID_IX && HasEmpty(cells')
    {
      hide Probes, Scanned, Before, Dist, Home, Distinct, Hash;
      EmptyCellExists(cells[..], cellIxs[..count]);
      OpenHole(cells[..], cellIxs[..count], hashes[..count], item);
      assert forall m :: 0 <= m < count ==> cellIxs[..count][m] == cellIxs[m] < cellCapacity;
      cells' := if item < count - 1 then cells[..][cellIxs[count - 1] := item] else cells[..];
      ixs', hs' := MoveLast(cellIxs[..count], item), MoveLast(hashes[..count], item);
    }

    /** The item of the removed key is overwritten by the last item; its cell is left as a hole. */
    method MoveLastInto(item: nat, name: cstr) returns (cell: nat)
      requires Valid() && Has(Items(), name) && item == IndexOf(Items(), name)
      modifies this`count, names, values, cellIxs, hashes, cells
      ensures Torn(cell) && Swept(cell, cell) && HasEmpty(cells[..])
      ensures Items() == Remove(old(Items()), name)
    {
      hide Holed, Scanned, Distinct, Hash, HasEmpty, Home, Items, Remove, MoveLast, IsCapacity, Torn, Swept, Valid;
      hide IndexOf, Lookup, InRange;
      ValidShape();
      ghost var cells', ixs', hs' := StartOfRemoval(item);
      LookupAfterRemove(Items(), name, name);
      cell := cellIxs[item];
      CopyLastItem(item, name);
      IsTorn(cell, cells', ixs', hs');
    }

    lemma TornShape(hole: nat)
      requires Torn(hole)
      ensures Shape() && hole < cellCapacity && cells[hole] != INVALID_IX
    {
    }

    lemma TornCell(hole: nat, j: nat)
      requires Torn(hole) && j < cellCapacity && j != hole && cells[j] != INVALID_IX
      ensures cells[j] < count
    {
      assert cells[..][j] == cells[j];
    }

    method MoveBack(i: nat, j: nat)
      requires Torn(i) && j < cellCapacity && i != j && cells[j] != INVALID_IX && cells[j] < count
      requires MayMove(i, j, Home(hashes[cells[j]], cellCapacity))
      modifies cells, cellIxs
      ensures Torn(j) && Swept(j, j) && Items() == old(Items())
      ensures forall c :: 0 <= c < cellCapacity && old(cells[c]) == INVALID_IX ==> cells[c] == INVALID_IX
    {
      hide Linked, Probes, Scanned, Distinct, Hash;
      ghost var cells0, ixs0 := cells[..], cellIxs[..count];
      MayMoveMeansBefore(i, j, Home(hashes[cells[j]], cellCapacity), cellCapacity);
      ShiftMove(cells0, ixs0, hashes[..count], i, j);
      cellIxs[cells[j]] := i;
      cells[i] := cells[j];
      assert cells[..] == cells0[i := cells0[j]];
      assert cellIxs[..count] == ixs0[cells0[j] := i];
      assert Items() == old(Items());
    }

    lemma StayPut(i: nat, j0: nat, j: nat)
      requires Torn(i) && Swept(i, j0) && j == Wrap(j0 + 1, cellCapacity)
      requires i != j && cells[j] != INVALID_IX && cells[j] < count
      requires !MayMove(i, j, Home(hashes[cells[j]], cellCapacity))
      ensures Swept(i, j)
    {
      MayMoveMeansBefore(i, j, Home(hashes[cells[j]], cellCapacity), cellCapacity);
      ShiftStay(cells[..], cellIxs[..count], hashes[..count], i, j0, j);
    }

    method Close(i: nat, ghost j0: nat, ghost j: nat)
      requires Torn(i) && Swept(i, j0) && j == Wrap(j0 + 1, cellCapacity)
      requires i != j && cells[j] == INVALID_IX
      modifies cells
      ensures Valid() && Items() == old(Items())
    {
      hide Linked, Probes, Scanned, Distinct, Hash;
      ghost var cells0 := cells[..];
      CloseHole(cells0, cellIxs[..count], hashes[..count], i, j0, j);
      cells[i] := INVALID_IX;
      assert cells[..] == cells0[i := INVALID_IX];
      assert Items() == old(Items());
    }

    /** Closes a hole by moving back every item that the hole would cut off. */
    method ShiftBack(cell: nat)
      requires Torn(cell) && Swept(cell, cell) && HasEmpty(cells[..])
      modifies cells, cellIxs
      ensures Valid() && Items() == old(Items())
    {
      hide Torn, Swept, Valid, Items, Home;
      var i: nat, j: nat, x := cell, cell, 0;
      TornShape(i);
      ghost var e :| 0 <= e < cellCapacity && cells[e] == INVALID_IX;
      while x < cellCapacity - 1
        invariant Shape() && Torn(i) && Swept(i, j) && i < cellCapacity
        invariant cells[e] == INVALID_IX && Items() == old(Items())
        invariant j < cellCapacity && Dist(cell, j, cellCapacity) == x < Dist(cell, e, cellCapacity)
        invariant Dist(cell, i, cellCapacity) <= x
      {
        ghost var j0 := j;
        j := Wrap(j + 1, cellCapacity);
        if cells[j] == INVALID_IX {
          Close(i, j0, j);
          return;
        }
        TornCell(i, j);
        var k := Home(hashes[cells[j]], cellCapacity);
        if MayMove(i, j, k) {
          MoveBack(i, j);
          i := j;
        } else {
          StayPut(i, j0, j);
        }
        x := x + 1;
      }
      assert false;
    }

    /** `json_object_remove_internal`. */
    method RemoveInternal(name: cstr) returns (ok: bool)
      requires Valid()
      modifies Repr()
      ensures Valid() && Repr() == old(Repr()) && cellCapacity == old(cellCapacity)
      ensures ok <==> old(Has(Items(), name))
      ensures Items() == Remove(old(Items()), name)
    {
      hide Valid, Items, Hash, IndexOf, Torn, Swept, Home;
      var hash := HashString(name);
      var found, cell := GetCellIx(name, hash);
      if !found { return false; }
      var hole := MoveLastInto(cells[cell], name);
      ShiftBack(hole);
      return true;
    }
  }

  // ----- tables far from their largest size -----

  const MAX_MEMBERS: nat := SIZE_MAX / 64

  /** A table of at most `MAX_MEMBERS` members that never held more: it never refuses to grow. */
  ghost predicate Roomy<V(0)>(table: JsonObject<V>, ms: seq<Member<V>>)
    reads table.Repr()
  {
    table.Stores(ms) && |ms| <= MAX_MEMBERS && table.cellCapacity <= 16 + 3 * MAX_MEMBERS
  }

  /** `json_object_make` */
  method NewTable<V(0)>() returns (table: JsonObject<V>)
    ensures fresh(table.Repr()) && Roomy(table, [])
  {
    table := new JsonObject<V>.Init(0);
  }

  /** `json_object_add` */
  method AddTo<V(0)>(table: JsonObject<V>, ghost ms: seq<Member<V>>, name: cstr, value: V) returns (ok: bool)
    requires Roomy(table, ms) && |ms| < MAX_MEMBERS
    modifies table.Repr()
    ensures fresh(table.Repr() - old(table.Repr()))
    ensures ok <==> !Has(ms, name)
    ensures Roomy(table, if ok then ms + [Member(name, value)] else ms)
  {
    hide Has, JsonObject<V>.Items;
    table.ValidShape();
    ok := table.Add(name, value);
  }

  /** `json_object_set_value` */
  method SetIn<V(0)>(table: JsonObject<V>, ghost ms: seq<Member<V>>, name: cstr, value: V)
    requires Roomy(table, ms) && |ms| < MAX_MEMBERS
    modifies table.Repr()
    ensures fresh(table.Repr() - old(table.Repr())) && Roomy(table, Put(ms, name, value))
  {
    hide Has, IndexOf, JsonObject<V>.Items;
    table.ValidShape();
    var ok := table.SetValue(name, value);
  }

  method RemoveFrom<V(0)>(table: JsonObject<V>, ghost ms: seq<Member<V>>, name: cstr) returns (ok: bool)
    requires Roomy(table, ms)
    modifies table.Repr()
    ensures table.Repr() == old(table.Repr()) && Roomy(table, Remove(ms, name))
    ensures ok <==> Has(ms, name)
  {
    hide Has, IndexOf, JsonObject<V>.Items, JsonObject<V>.Valid;
    assert |Remove(ms, name)| <= |ms|;
    ok := table.RemoveInternal(name);
  }

  /** Reading all members by index. */
  method MembersIn<V(0)>(table: JsonObject<V>, ghost ms: seq<Member<V>>) returns (r: seq<Member<V>>)
    requires Roomy(table, ms)
    ensures r == ms
  {
    r := table.GetMembers();
  }

  // ----- runs of calls on a table -----

  /** `json_object_clear` */
  method EmptyTable<V(0)>(table: JsonObject<V>, ghost ms: seq<Member<V>>)
    requires Roomy(table, ms)
    modifies table.Repr()
    ensures table.Repr() == old(table.Repr()) && Roomy(table, [])
  {
    table.Clear();
  }

  method Perform<V(0)>(table: JsonObject<V>, c: Call<V>, ghost ms: seq<Member<V>>)
    requires Roomy(table, ms) && |ms| < MAX_MEMBERS
    modifies table.Repr()
    ensures fresh(table.Repr() - old(table.Repr())) && Roomy(table, After(ms, c))
  {
    hide Roomy, Put, Remove, Has, JsonObject<V>.Valid;
    match c {
      case CallAdd(name, value) => var _ := AddTo(table, ms, name, value);
      case CallSet(name, value) => SetIn(table, ms, name, value);
      case CallRemove(name) => var _ := RemoveFrom(table, ms, name);
      case CallClear => EmptyTable(table, ms);
    }
  }

  /**
   After any run of calls, however long, that never holds too many members at
   once, the table holds what the same run leaves on a plain map.
   */
  method Replay<V(0)>(calls: seq<Call<V>>) returns (table: JsonObject<V>)
    requires forall i :: 0 <= i < |calls| ==> |Run(calls[..i])| < MAX_MEMBERS
    ensures table.Stores(Run(calls)) && ToMap(Run(calls)) == RunOnMap(calls)
  {
    hide JsonObject<V>.Stores, After, ToMap, RunOnMap;
    table := NewTable();
    for i := 0 to |calls|
      invariant fresh(table.Repr()) && Roomy(table, Run(calls[..i]))
    {
      assert calls[..i + 1][..i] == calls[..i] && calls[..i + 1][i] == calls[i];
      Perform(table, calls[i], Run(calls[..i]));
    }
    assert calls[..|calls|] == calls;
    RunRefinesMap(calls);
  }
}

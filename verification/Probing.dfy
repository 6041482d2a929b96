/**
 Open addressing with linear probing, on sequences. `cells[c]` holds the index
 of the item stored in cell `c` (or INVALID_IX), `ixs[m]` the cell of item `m`,
 and `hashes[m]` the hash of its name, which fixes the cell where probing starts.
 */
module Probing {
  import opened Bytes

  const INVALID_IX: nat := SIZE_MAX

  /** How many steps a probe takes from `a` to `b` in a ring of `cap` cells. */
  function Dist(a: nat, b: nat, cap: nat): nat
    requires a < cap && b < cap
  {
    if a <= b then b - a else b - a + cap
  }

  /** `(a + b) & (cap - 1)` for a power of two `cap` and `a + b < 2 * cap`. */
  function Wrap(c: nat, cap: nat): (r: nat)
    requires c < 2 * cap
    ensures r < cap
  {
    if c < cap then c else c - cap
  }

  /** `hash & (cap - 1)` for a power of two `cap`: the cell where probing starts. */
  function Home(hash: nat, cap: nat): (r: nat)
    requires cap > 0
    ensures r < cap
  {
    hash % cap
  }

  /** A probe from `home` visits cell `x` before it visits `target`. */
  predicate Before(home: nat, x: nat, target: nat, cap: nat)
    requires home < cap && x < cap && target < cap
  {
    Dist(home, x, cap) < Dist(home, target, cap)
  }

  ghost predicate InRange(s: seq<nat>, cap: nat) {
    forall m :: 0 <= m < |s| ==> s[m] < cap
  }

  /** `cells` and `ixs` are mutual inverses, except for the content of cell `hole`. */
  ghost predicate Linked(cells: seq<nat>, ixs: seq<nat>, hole: nat) {
    && InRange(ixs, |cells|)
    && (forall m :: 0 <= m < |ixs| ==> ixs[m] != hole && cells[ixs[m]] == m)
    && (forall c :: 0 <= c < |cells| && c != hole && cells[c] != INVALID_IX ==>
          cells[c] < |ixs| && ixs[cells[c]] == c)
  }

  /** No probe for a stored item crosses an empty cell (cell `hole` is not looked at). */
  ghost predicate Probes(cells: seq<nat>, ixs: seq<nat>, hashes: seq<nat>, hole: nat)
    requires |hashes| == |ixs| && InRange(ixs, |cells|)
  {
    forall m, x :: 0 <= m < |ixs| && 0 <= x < |cells| && x != hole
                   && Before(Home(hashes[m], |cells|), x, ixs[m], |cells|) ==>
                     cells[x] != INVALID_IX
  }

  /** The table with a hole in it; with `hole == |cells|` there is no hole. */
  ghost predicate Holed(cells: seq<nat>, ixs: seq<nat>, hashes: seq<nat>, hole: nat) {
    && |hashes| == |ixs| < INVALID_IX
    && Linked(cells, ixs, hole)
    && Probes(cells, ixs, hashes, hole)
  }

  ghost predicate Sound(cells: seq<nat>, ixs: seq<nat>, hashes: seq<nat>) {
    Holed(cells, ixs, hashes, |cells|)
  }

  ghost predicate HasEmpty(cells: seq<nat>) {
    exists e :: 0 <= e < |cells| && cells[e] == INVALID_IX
  }

  // ----- an empty cell always exists -----

  lemma {:induction false} Pigeonhole(s: seq<nat>, n: nat)
    requires n < |s| && InRange(s, n)
    ensures exists a, b :: 0 <= a < b < |s| && s[a] == s[b]
    decreases n
  {
    var last := |s| - 1;
    assert s[last] < n;
    if forall a :: 0 <= a < last ==> s[a] != s[last] {
      // rename value n - 1 to the last element's value
      var t := seq(last, i requires 0 <= i < last => if s[i] == n - 1 then s[last] else s[i]);
      Pigeonhole(t, n - 1);
      var a, b :| 0 <= a < b < |t| && t[a] == t[b];
      assert s[a] == s[b];
    }
  }

  /** Fewer items than cells leave a cell empty. */
  lemma EmptyCellExists(cells: seq<nat>, ixs: seq<nat>)
    requires Linked(cells, ixs, |cells|) && |ixs| < |cells|
    ensures HasEmpty(cells)
  {
    if !HasEmpty(cells) {
      Pigeonhole(cells, |ixs|);
      assert false;
    }
  }

  /** A table without items is sound. */
  lemma EmptyIsSound(cells: seq<nat>)
    requires forall c :: 0 <= c < |cells| ==> cells[c] == INVALID_IX
    ensures Sound(cells, [], [])
  {
  }

  // ----- insertion into the first empty cell of the probe -----

  lemma Insert(cells: seq<nat>, ixs: seq<nat>, hashes: seq<nat>, hash: nat, c: nat)
    requires Sound(cells, ixs, hashes) && c < |cells| && |ixs| + 1 < INVALID_IX
    requires cells[c] == INVALID_IX
    requires forall x :: 0 <= x < |cells| && Before(Home(hash, |cells|), x, c, |cells|) ==> cells[x] != INVALID_IX
    ensures Sound(cells[c := |ixs|], ixs + [c], hashes + [hash])
  {
  }

  // ----- removal by backward shift -----

  /** Items in the cells from `hole` up to and including `j` do not need the hole filled. */
  ghost predicate Scanned(ixs: seq<nat>, hashes: seq<nat>, cap: nat, hole: nat, j: nat)
    requires |hashes| == |ixs| && InRange(ixs, cap) && hole < cap && j < cap
  {
    forall m :: 0 <= m < |ixs| && Dist(hole, ixs[m], cap) <= Dist(hole, j, cap) ==>
                !Before(Home(hashes[m], cap), hole, ixs[m], cap)
  }

  /** The last item takes the index of the removed one, whose cell becomes the hole. */
  function MoveLast<T>(s: seq<T>, item: nat): (r: seq<T>)
    requires item < |s|
    ensures |r| == |s| - 1
  {
    s[item := s[|s| - 1]][..|s| - 1]
  }

  lemma OpenHole(cells: seq<nat>, ixs: seq<nat>, hashes: seq<nat>, item: nat)
    requires Sound(cells, ixs, hashes) && item < |ixs|
    ensures var last := |ixs| - 1;
            var cells' := if item < last then cells[ixs[last] := item] else cells;
            && Holed(cells', MoveLast(ixs, item), MoveLast(hashes, item), ixs[item])
            && Scanned(MoveLast(ixs, item), MoveLast(hashes, item), |cells|, ixs[item], ixs[item])
            && cells'[ixs[item]] != INVALID_IX
            && forall c :: 0 <= c < |cells| ==> (cells'[c] == INVALID_IX <==> cells[c] == INVALID_IX)
  {
    var last := |ixs| - 1;
    assert forall m :: 0 <= m < |ixs| && m != item ==> cells[ixs[m]] == m;
  }

  /** The test of the shift loop: may the item in cell `j` move back into the hole? */
  predicate MayMove(i: nat, j: nat, k: nat) {
    (j > i && (k <= i || k > j)) || (j < i && (k <= i && k > j))
  }

  lemma MayMoveMeansBefore(i: nat, j: nat, k: nat, cap: nat)
    requires i < cap && j < cap && k < cap && i != j
    ensures MayMove(i, j, k) <==> Before(k, i, j, cap)
  {
  }

  lemma ShiftMove(cells: seq<nat>, ixs: seq<nat>, hashes: seq<nat>, i: nat, j: nat)
    requires Holed(cells, ixs, hashes, i) && i < |cells| && j < |cells| && i != j
    requires cells[j] != INVALID_IX && cells[j] < |ixs|
    requires Before(Home(hashes[cells[j]], |cells|), i, j, |cells|)
    ensures Holed(cells[i := cells[j]], ixs[cells[j] := i], hashes, j)
    ensures Scanned(ixs[cells[j] := i], hashes, |cells|, j, j)
  {
    var m := cells[j];
    assert ixs[m] == j;
  }

  lemma ShiftStay(cells: seq<nat>, ixs: seq<nat>, hashes: seq<nat>, i: nat, j0: nat, j: nat)
    requires Holed(cells, ixs, hashes, i) && i < |cells| && j0 < |cells| && j == Wrap(j0 + 1, |cells|)
    requires i != j && cells[j] != INVALID_IX && cells[j] < |ixs|
    requires Scanned(ixs, hashes, |cells|, i, j0)
    requires !Before(Home(hashes[cells[j]], |cells|), i, j, |cells|)
    ensures Scanned(ixs, hashes, |cells|, i, j)
  {
    forall m | 0 <= m < |ixs| && Dist(i, ixs[m], |cells|) <= Dist(i, j, |cells|)
      ensures !Before(Home(hashes[m], |cells|), i, ixs[m], |cells|)
    {
      if ixs[m] == j { assert m == cells[j]; }
    }
  }

  lemma CloseHole(cells: seq<nat>, ixs: seq<nat>, hashes: seq<nat>, i: nat, j0: nat, j: nat)
    requires Holed(cells, ixs, hashes, i) && i < |cells| && j0 < |cells| && j == Wrap(j0 + 1, |cells|)
    requires i != j && cells[j] == INVALID_IX
    requires Scanned(ixs, hashes, |cells|, i, j0)
    ensures Sound(cells[i := INVALID_IX], ixs, hashes)
  {
    var cap := |cells|;
    forall m | 0 <= m < |ixs|
      ensures !Before(Home(hashes[m], cap), i, ixs[m], cap)
    {
      assert ixs[m] != j;
      assert !Before(Home(hashes[m], cap), j, ixs[m], cap);
    }
  }
}

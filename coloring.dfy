/**
 * The colouring search of src/cell.rs (`Map::color_map`, `Cell::color_in`,
 * `Cell::get_avalible`): a recursive depth-first search that writes palette
 * colours into the live map, counts every visit, and on failure clears
 * only the failing cell's own colour.
 *
 * The search is first stated as functions over the sequence of cells
 * (`Attempt`, `TryCandidates`, `VisitNeighbours`); the methods that update
 * the map in place are proved to produce exactly what those functions say.
 *
 * A visit runs on a snapshot of its cell: a copy taken by the caller before
 * any of its siblings ran. The "already coloured" test reads the snapshot,
 * so a cell coloured by an earlier sibling can be entered again and
 * recoloured. Termination rests on the cells whose visits are in progress
 * (`stack`): each of them is coloured in the live map, so a snapshot of one
 * of them is coloured, and only cells off the stack are ever entered anew.
 */
module Coloring {
  import opened Wrappers
  import opened Cells
  import opened Maps

  /** What a visit leaves behind: its verdict, the cells of the map and the visit counter. */
  datatype Visit = Visit(ok: bool, cells: seq<Cell>, count: nat)

  /** No colour, or a colour of the palette. */
  predicate InPalette(c: Option<nat>)
  {
    c.None? || c.value < PaletteSize
  }

  /** Every element is smaller than the next. */
  predicate StrictlyAscending(s: seq<nat>)
  {
    forall a, b :: 0 <= a < b < |s| ==> s[a] < s[b]
  }

  /** One of the first `n` neighbours in `conns` holds colour `c` in the live map. */
  predicate HeldBefore(conns: seq<nat>, n: nat, cells: seq<Cell>, c: nat)
    requires n <= |conns| && LinksWithin(conns, |cells|)
  {
    exists p :: 0 <= p < n && cells[conns[p]].color == Some(c)
  }

  /** The palette colours from `c` upwards that no neighbour holds, ascending. */
  function FreeFrom(c: nat, conns: seq<nat>, cells: seq<Cell>): (r: seq<nat>)
    requires LinksWithin(conns, |cells|)
    decreases PaletteSize - c
    ensures StrictlyAscending(r)
    ensures forall x: nat :: x in r <==> c <= x < PaletteSize && !HeldBefore(conns, |conns|, cells, x)
  {
    if c >= PaletteSize then []
    else
      var rest := FreeFrom(c + 1, conns, cells);
      assert forall b :: 0 <= b < |rest| ==> rest[b] in rest;
      if HeldBefore(conns, |conns|, cells, c) then rest else [c] + rest
  }

  /**
   * The colours a cell with neighbours `conns` may take: exactly the palette
   * colours no neighbour currently holds, in strictly ascending order.
   */
  function Available(conns: seq<nat>, cells: seq<Cell>): (r: seq<nat>)
    requires LinksWithin(conns, |cells|)
    ensures StrictlyAscending(r)
    ensures forall x: nat :: x in r <==> x < PaletteSize && !HeldBefore(conns, |conns|, cells, x)
  {
    FreeFrom(0, conns, cells)
  }

  /** Two strictly ascending sequences with the same elements are equal. */
  lemma {:induction false} AscendingUnique(a: seq<nat>, b: seq<nat>)
    requires StrictlyAscending(a) && StrictlyAscending(b)
    requires forall x :: x in a <==> x in b
    ensures a == b
  {
    if a == [] {
      forall x
        ensures multiset(b)[x] == 0
      {
        assert x !in b;
      }
      assert multiset(b) == multiset{};
      assert |b| == |multiset(b)| == 0;
    } else {
      assert a[0] in b;
      assert a[0] == b[0] by {
        assert b[0] in a;
      }
      forall x
        ensures x in a[1..] <==> x in b[1..]
      {
        assert x in a[1..] <==> x in a && x != a[0];
        assert x in b[1..] <==> x in b && x != b[0];
      }
      AscendingUnique(a[1..], b[1..]);
      assert a == [a[0]] + a[1..] && b == [b[0]] + b[1..];
    }
  }

  /** Taking one element out of a strictly ascending sequence removes exactly that value. */
  lemma RemoveAtAscending(s: seq<nat>, k: nat)
    requires StrictlyAscending(s) && k < |s|
    ensures StrictlyAscending(RemoveAt(s, k))
    ensures forall x :: x in RemoveAt(s, k) <==> x in s && x != s[k]
  {
    var t := RemoveAt(s, k);
    assert forall a :: 0 <= a < |t| ==> t[a] == (if a < k then s[a] else s[a + 1]);
    forall x
      ensures x in t <==> x in s && x != s[k]
    {
      if x in s && x != s[k] {
        var a :| 0 <= a < |s| && s[a] == x;
        assert a != k;
        assert t[if a < k then a else a - 1] == x;
      }
    }
  }

  /**
   * `Cell::get_avalible`: start from the whole palette, and for every
   * neighbour that holds a colour, take that colour out of the list (the
   * last matching position, as the source's scan records it).
   */
  method GetAvailable(self: Cell, m: Map) returns (free: seq<nat>)
    requires LinksWithin(self.connections, |m.cells|)
    ensures free == Available(self.connections, m.cells)
  {
    free := [0, 1, 2, 3];
    var conns := self.connections;
    for n := 0 to |conns|
      invariant StrictlyAscending(free)
      invariant forall x: nat :: x in free <==> x < PaletteSize && !HeldBefore(conns, n, m.cells, x)
    {
      var neighbour := m.cells[conns[n]];
      assert forall x: nat :: HeldBefore(conns, n + 1, m.cells, x) <==>
        HeldBefore(conns, n, m.cells, x) || neighbour.color == Some(x);
      if neighbour.color.Some? {
        var c := neighbour.color.value;
        var rm: Option<nat> := None;
        for j := 0 to |free|
          invariant rm.Some? ==> rm.value < j && free[rm.value] == c
          invariant rm.None? ==> c !in free[..j]
        {
          if free[j] == c {
            rm := Some(j);
          }
          assert free[..j + 1] == free[..j] + [free[j]];
        }
        if rm.Some? {
          RemoveAtAscending(free, rm.value);
          free := RemoveAt(free, rm.value);
        } else {
          assert free[..|free|] == free;
        }
      }
    }
    AscendingUnique(free, Available(conns, m.cells));
  }

  /** The positions of a map with `n` cells. */
  function Indices(n: nat): (r: set<nat>)
    ensures forall k: nat :: k in r <==> k < n
  {
    if n == 0 then {} else Indices(n - 1) + {n - 1}
  }

  /**
   * `self` is a snapshot of cell `i`: the search never changes names or
   * connections, so those are the live ones; its colour may be stale.
   */
  predicate SnapshotOf(self: Cell, i: nat, cells: seq<Cell>)
  {
    i < |cells| && self.name == cells[i].name && self.connections == cells[i].connections
  }

  /** Links are in range, and every cell on the stack is a position holding a colour. */
  predicate SearchReady(cells: seq<Cell>, stack: set<nat>)
  {
    Linked(cells) && forall k :: k in stack ==> k < |cells| && cells[k].color.Some?
  }

  /**
   * Each (snapshot, position) pair is a snapshot of that position, and an
   * uncoloured snapshot is never of a cell on the stack.
   */
  predicate SnapshotsReady(snaps: seq<(Cell, nat)>, cells: seq<Cell>, stack: set<nat>)
  {
    forall p :: 0 <= p < |snaps| ==>
      SnapshotOf(snaps[p].0, snaps[p].1, cells) && (snaps[p].0.color.None? ==> snaps[p].1 !in stack)
  }

  /**
   * The search's frame: the number of cells, every name and every
   * connection list are unchanged, and so is the colour of every cell on
   * the stack.
   */
  predicate Preserves(before: seq<Cell>, after: seq<Cell>, stack: set<nat>)
  {
    && |after| == |before|
    && (forall k :: 0 <= k < |before| ==>
          after[k].name == before[k].name && after[k].connections == before[k].connections)
    && (forall k :: k in stack && k < |before| ==> after[k].color == before[k].color)
  }

  /** Every colour that changed is now absent or a palette colour. */
  predicate PaletteWrites(before: seq<Cell>, after: seq<Cell>)
  {
    forall k :: 0 <= k < |before| && k < |after| && after[k].color != before[k].color ==>
      InPalette(after[k].color)
  }

  /** The frame composes: two steps that each keep it keep it end to end. */
  lemma FrameChain(a: seq<Cell>, b: seq<Cell>, c: seq<Cell>, stack: set<nat>, stack': set<nat>)
    requires stack <= stack'
    requires Preserves(a, b, stack) && PaletteWrites(a, b)
    requires Preserves(b, c, stack') && PaletteWrites(b, c)
    ensures Preserves(a, c, stack) && PaletteWrites(a, c)
  {
  }

  /** A step that keeps the frame of a larger stack keeps a smaller stack ready. */
  lemma FrameReady(before: seq<Cell>, after: seq<Cell>, stack: set<nat>, stack': set<nat>)
    requires stack <= stack'
    requires SearchReady(before, stack') && Preserves(before, after, stack')
    ensures SearchReady(after, stack)
  {
  }

  /**
   * The snapshots `color_in` takes of its neighbours, in connection order,
   * before visiting any of them.
   */
  function Snapshots(conns: seq<nat>, cells: seq<Cell>): seq<(Cell, nat)>
    requires LinksWithin(conns, |cells|)
  {
    seq(|conns|, p requires 0 <= p < |conns| => (cells[conns[p]], conns[p]))
  }

  /** Snapshots taken right after colouring `i` are ready for the stack with `i` pushed. */
  lemma SnapshotsAfterColoring(self: Cell, i: nat, cells: seq<Cell>, stack: set<nat>)
    requires SearchReady(cells, stack) && SnapshotOf(self, i, cells) && cells[i].color.Some?
    ensures SearchReady(cells, stack + {i})
    ensures SnapshotsReady(Snapshots(self.connections, cells), cells, stack + {i})
  {
  }

  /**
   * One visit of `Cell::color_in` at position `i` with snapshot `self`: the
   * counter goes up by one; a coloured snapshot succeeds at once and changes
   * nothing; otherwise the available colours are tried. The result keeps
   * names, connections and the stack's colours, writes only palette colours
   * or None, and for an uncoloured snapshot leaves cell `i` coloured exactly
   * when it succeeds.
   */
  function Attempt(self: Cell, i: nat, cells: seq<Cell>, count: nat, stack: set<nat>): (r: Visit)
    requires SearchReady(cells, stack) && SnapshotOf(self, i, cells)
    requires self.color.None? ==> i !in stack
    decreases Indices(|cells|) - stack, 2, 0
    ensures Preserves(cells, r.cells, stack) && PaletteWrites(cells, r.cells)
    ensures r.count > count
    ensures self.color.Some? ==> r == Visit(true, cells, count + 1)
    ensures self.color.None? ==> (r.ok <==> r.cells[i].color.Some?) && InPalette(r.cells[i].color)
    ensures self.color.None? && r.ok ==>
      r.cells[i].color.value in Available(self.connections, cells)
  {
    if self.color.Some? then Visit(true, cells, count + 1)
    else
      var avail := Available(self.connections, cells);
      assert forall p :: 0 <= p < |avail| ==> avail[p] in avail;
      TryCandidates(self, i, avail, cells, count + 1, stack)
  }

  /**
   * The candidate loop of `color_in`: take the last candidate, write it into
   * cell `i`, snapshot the neighbours and visit them in order. Success ends
   * the loop; after a failure the next candidate is tried on the map as the
   * failed round left it (nothing it coloured is undone). When no candidate
   * is left, cell `i` is cleared and the visit fails.
   */
  function TryCandidates(self: Cell, i: nat, avail: seq<nat>, cells: seq<Cell>, count: nat,
                         stack: set<nat>): (r: Visit)
    requires SearchReady(cells, stack) && SnapshotOf(self, i, cells) && i !in stack
    requires forall p :: 0 <= p < |avail| ==> avail[p] < PaletteSize
    decreases Indices(|cells|) - stack, 1, |avail|
    ensures Preserves(cells, r.cells, stack) && PaletteWrites(cells, r.cells)
    ensures r.count >= count
    ensures (r.ok <==> r.cells[i].color.Some?) && InPalette(r.cells[i].color)
    ensures r.ok ==> r.cells[i].color.value in avail
  {
    if avail == [] then
      Visit(false, cells[i := cells[i].(color := None)], count)
    else
      var colored := cells[i := cells[i].(color := Some(avail[|avail| - 1]))];
      SnapshotsAfterColoring(self, i, colored, stack);
      assert Indices(|colored|) - (stack + {i}) < Indices(|cells|) - stack by {
        assert i in Indices(|cells|) - stack;
      }
      var v := VisitNeighbours(Snapshots(self.connections, colored), colored, count, stack + {i});
      FrameChain(cells, colored, v.cells, stack, stack + {i});
      if v.ok then v
      else
        var r := TryCandidates(self, i, avail[..|avail| - 1], v.cells, v.count, stack);
        FrameChain(cells, v.cells, r.cells, stack, stack);
        r
  }

  /**
   * The neighbour loop of `color_in`: visit each snapshot in order and stop
   * at the first failure. A success has visited every snapshot at least once.
   */
  function VisitNeighbours(snaps: seq<(Cell, nat)>, cells: seq<Cell>, count: nat,
                           stack: set<nat>): (r: Visit)
    requires SearchReady(cells, stack) && SnapshotsReady(snaps, cells, stack)
    decreases Indices(|cells|) - stack, 3, |snaps|
    ensures Preserves(cells, r.cells, stack) && PaletteWrites(cells, r.cells)
    ensures r.ok ==> r.count >= count + |snaps|
    ensures !r.ok ==> r.count > count
  {
    if snaps == [] then Visit(true, cells, count)
    else
      var v := Attempt(snaps[0].0, snaps[0].1, cells, count, stack);
      if !v.ok then v
      else VisitNeighbours(snaps[1..], v.cells, v.count, stack)
  }

  /**
   * `Map::color_map`: the search started at position 0 with a counter of
   * zero. It counts at least one visit, changes only colours and only to
   * palette colours or None, and when cell 0 starts uncoloured it succeeds
   * exactly when cell 0 ends coloured.
   */
  function Search(cells: seq<Cell>): (r: Visit)
    requires |cells| > 0 && Linked(cells)
    ensures Preserves(cells, r.cells, {}) && PaletteWrites(cells, r.cells)
    ensures r.count >= 1
    ensures cells[0].color.Some? ==> r == Visit(true, cells, 1)
    ensures cells[0].color.None? ==> (r.ok <==> r.cells[0].color.Some?)
    ensures cells[0].color.None? && r.ok ==>
      r.cells[0].color.value in Available(cells[0].connections, cells)
  {
    Attempt(cells[0], 0, cells, 0, {})
  }

  /**
   * One candidate of `TryCandidates`: with the last candidate written,
   * giving `colored`, and the neighbours visited giving `v`, a success is
   * the outcome and a failure leaves the remaining candidates to try on
   * the map `v` left.
   */
  lemma TryCandidatesStep(self: Cell, i: nat, avail: seq<nat>, cells: seq<Cell>, count: nat,
                          stack: set<nat>, colored: seq<Cell>, v: Visit)
    requires SearchReady(cells, stack) && SnapshotOf(self, i, cells) && i !in stack
    requires forall p :: 0 <= p < |avail| ==> avail[p] < PaletteSize
    requires avail != []
    requires colored == cells[i := cells[i].(color := Some(avail[|avail| - 1]))]
    requires SearchReady(colored, stack + {i})
    requires SnapshotsReady(Snapshots(self.connections, colored), colored, stack + {i})
    requires v == VisitNeighbours(Snapshots(self.connections, colored), colored, count, stack + {i})
    ensures SearchReady(v.cells, stack) && SnapshotOf(self, i, v.cells) && |v.cells| == |cells|
    ensures v.ok ==> TryCandidates(self, i, avail, cells, count, stack) == v
    ensures !v.ok ==> TryCandidates(self, i, avail, cells, count, stack)
                      == TryCandidates(self, i, avail[..|avail| - 1], v.cells, v.count, stack)
  {
    FrameReady(colored, v.cells, stack, stack + {i});
  }

  /**
   * `Cell::color_in`, updating the map in place: exactly the visit that
   * `Attempt` describes, with the counter passed in and returned.
   */
  method ColorIn(self: Cell, i: nat, m: Map, count: nat, ghost stack: set<nat>)
    returns (ok: bool, count': nat)
    requires SearchReady(m.cells, stack) && SnapshotOf(self, i, m.cells)
    requires self.color.None? ==> i !in stack
    modifies m
    decreases Indices(|m.cells|) - stack, 1
    ensures Visit(ok, m.cells, count') == Attempt(self, i, old(m.cells), count, stack)
  {
    count' := count + 1;
    if self.color.Some? {
      return true, count';
    }
    var candidates: seq<nat> := GetAvailable(self, m);
    assert forall p :: 0 <= p < |candidates| ==> candidates[p] in candidates;
    while candidates != []
      invariant SearchReady(m.cells, stack) && SnapshotOf(self, i, m.cells)
      invariant |m.cells| == |old(m.cells)|
      invariant forall p :: 0 <= p < |candidates| ==> candidates[p] < PaletteSize
      invariant TryCandidates(self, i, candidates, m.cells, count', stack)
                == Attempt(self, i, old(m.cells), count, stack)
      decreases |candidates|
    {
      ghost var before := m.cells;
      ghost var count0 := count';
      var done;
      done, count' := ColorWith(self, i, candidates[|candidates| - 1], m, count', stack);
      TryCandidatesStep(self, i, candidates, before, count0, stack,
                        before[i := before[i].(color := Some(candidates[|candidates| - 1]))],
                        Visit(done, m.cells, count'));
      candidates := candidates[..|candidates| - 1];
      if done {
        return true, count';
      }
    }
    m.cells := m.cells[i := m.cells[i].(color := None)];
    return false, count';
  }

  /**
   * One pass of `color_in`'s candidate loop: write colour `c` into cell `i`
   * in place, snapshot its neighbours and visit them.
   */
  method ColorWith(self: Cell, i: nat, c: nat, m: Map, count: nat, ghost stack: set<nat>)
    returns (ok: bool, count': nat)
    requires SearchReady(m.cells, stack) && SnapshotOf(self, i, m.cells) && i !in stack && c < PaletteSize
    modifies m
    decreases Indices(|m.cells|) - stack, 0
    ensures SearchReady(old(m.cells)[i := old(m.cells)[i].(color := Some(c))], stack + {i})
    ensures SnapshotsReady(Snapshots(self.connections, old(m.cells)[i := old(m.cells)[i].(color := Some(c))]),
                           old(m.cells)[i := old(m.cells)[i].(color := Some(c))], stack + {i})
    ensures Visit(ok, m.cells, count')
            == VisitNeighbours(Snapshots(self.connections, old(m.cells)[i := old(m.cells)[i].(color := Some(c))]),
                               old(m.cells)[i := old(m.cells)[i].(color := Some(c))], count, stack + {i})
  {
    m.cells := m.cells[i := m.cells[i].(color := Some(c))];
    SnapshotsAfterColoring(self, i, m.cells, stack);
    var connected := Snapshots(self.connections, m.cells);
    assert Indices(|m.cells|) - (stack + {i}) < Indices(|old(m.cells)|) - stack by {
      assert i in Indices(|old(m.cells)|) - stack;
    }
    ok, count' := VisitAll(connected, m, count, stack + {i});
  }

  /**
   * The neighbour loop of `color_in`: visit each snapshot in order, and at
   * the first visit that fails set the `fail` flag and stop. Exactly what
   * `VisitNeighbours` describes.
   */
  method VisitAll(connected: seq<(Cell, nat)>, m: Map, count: nat, ghost stack: set<nat>)
    returns (ok: bool, count': nat)
    requires SearchReady(m.cells, stack) && SnapshotsReady(connected, m.cells, stack)
    modifies m
    decreases Indices(|m.cells|) - stack, 2
    ensures Visit(ok, m.cells, count') == VisitNeighbours(connected, old(m.cells), count, stack)
  {
    count' := count;
    var fail := false;
    var k := 0;
    while k < |connected|
      invariant 0 <= k <= |connected| && !fail
      invariant SearchReady(m.cells, stack) && |m.cells| == |old(m.cells)|
      invariant SnapshotsReady(connected[k..], m.cells, stack)
      invariant VisitNeighbours(connected[k..], m.cells, count', stack)
                == VisitNeighbours(connected, old(m.cells), count, stack)
    {
      assert connected[k..][0] == connected[k] && connected[k..][1..] == connected[k + 1..];
      var r;
      r, count' := ColorIn(connected[k].0, connected[k].1, m, count', stack);
      if !r {
        fail := true;
        break;
      }
      k := k + 1;
    }
    ok := !fail;
  }

  /** `Map::color_map`: the search from cell 0, on a snapshot of cell 0, with a fresh counter. */
  method ColorMap(m: Map) returns (ok: bool, count: nat)
    requires |m.cells| > 0 && Linked(m.cells)
    modifies m
    ensures Visit(ok, m.cells, count) == Search(old(m.cells))
  {
    var start := m.cells[0];
    ok, count := ColorIn(start, 0, m, 0, {});
  }
}

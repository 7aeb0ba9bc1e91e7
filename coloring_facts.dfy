/**
 * Facts about visits of the colouring search that follow from its
 * definition: what a visit of a cell without links does, that a visit
 * from an uncoloured snapshot of a cell without a self-link never looks at
 * the live colour of that cell, step lemmas for the candidate and
 * neighbour loops, and the runs on a one-cell map, on two unlinked cells,
 * on two linked cells and on the four-cycle.
 */
module ColoringFacts {
  import opened Wrappers
  import opened Cells
  import opened Maps
  import opened Coloring

  /** A cell without neighbours may take every colour of the palette. */
  lemma AvailableNoNeighbours(cells: seq<Cell>)
    ensures Available([], cells) == [0, 1, 2, 3]
  {
    assert FreeFrom(3, [], cells) == [3] by {
      assert !HeldBefore([], 0, cells, 3);
    }
    assert FreeFrom(2, [], cells) == [2, 3] by {
      assert !HeldBefore([], 0, cells, 2);
    }
    assert FreeFrom(1, [], cells) == [1, 2, 3] by {
      assert !HeldBefore([], 0, cells, 1);
    }
    assert !HeldBefore([], 0, cells, 0);
  }

  /** The available colours depend only on the colours of the neighbours. */
  lemma AvailableFrame(conns: seq<nat>, cells: seq<Cell>, cells': seq<Cell>)
    requires LinksWithin(conns, |cells|) && |cells'| == |cells|
    requires forall p :: 0 <= p < |conns| ==> cells'[conns[p]].color == cells[conns[p]].color
    ensures Available(conns, cells') == Available(conns, cells)
  {
    forall x: nat
      ensures HeldBefore(conns, |conns|, cells', x) <==> HeldBefore(conns, |conns|, cells, x)
    {
      if HeldBefore(conns, |conns|, cells, x) {
        var p :| 0 <= p < |conns| && cells[conns[p]].color == Some(x);
        assert cells'[conns[p]].color == Some(x);
      }
      if HeldBefore(conns, |conns|, cells', x) {
        var p :| 0 <= p < |conns| && cells'[conns[p]].color == Some(x);
        assert cells[conns[p]].color == Some(x);
      }
    }
    AscendingUnique(Available(conns, cells'), Available(conns, cells));
  }

  /**
   * The "already coloured" test of a visit reads the snapshot, not the live
   * map: for an uncoloured snapshot of a cell without a link to itself, the
   * visit is the same whatever colour the live cell holds, so a cell that an
   * earlier sibling's visit coloured is searched and recoloured again.
   */
  lemma StaleSnapshotIgnoresLiveColour(self: Cell, i: nat, cells: seq<Cell>, count: nat,
                                       stack: set<nat>)
    requires SearchReady(cells, stack) && SnapshotOf(self, i, cells) && i !in stack
    requires self.color.None? && i !in self.connections
    ensures SearchReady(cells[i := cells[i].(color := None)], stack)
    ensures Attempt(self, i, cells, count, stack)
            == Attempt(self, i, cells[i := cells[i].(color := None)], count, stack)
  {
    var cleared := cells[i := cells[i].(color := None)];
    assert forall p :: 0 <= p < |self.connections| ==> self.connections[p] in self.connections;
    AvailableFrame(self.connections, cells, cleared);
    var avail := Available(self.connections, cells);
    assert forall p :: 0 <= p < |avail| ==> avail[p] in avail;
    CandidatesIgnoreOwnColour(self, i, avail, cells, count + 1, stack);
  }

  /** The candidate loop overwrites cell `i` before anything reads it, so its colour on entry does not matter. */
  lemma CandidatesIgnoreOwnColour(self: Cell, i: nat, avail: seq<nat>, cells: seq<Cell>, count: nat,
                                  stack: set<nat>)
    requires SearchReady(cells, stack) && SnapshotOf(self, i, cells) && i !in stack
    requires forall p :: 0 <= p < |avail| ==> avail[p] < PaletteSize
    ensures SearchReady(cells[i := cells[i].(color := None)], stack)
    ensures TryCandidates(self, i, avail, cells, count, stack)
            == TryCandidates(self, i, avail, cells[i := cells[i].(color := None)], count, stack)
  {
    var cleared := cells[i := cells[i].(color := None)];
    if avail == [] {
      assert cleared[i := cleared[i].(color := None)] == cells[i := cells[i].(color := None)];
    } else {
      var c := Some(avail[|avail| - 1]);
      assert cleared[i := cleared[i].(color := c)] == cells[i := cells[i].(color := c)];
    }
  }


  /**
   * A visit of an uncoloured snapshot of a cell without links: the whole
   * palette is available, the last candidate, 3, is written, there are no
   * neighbours to visit, and the visit succeeds after counting one.
   */
  lemma AttemptIsolated(self: Cell, i: nat, cells: seq<Cell>, count: nat, stack: set<nat>)
    requires SearchReady(cells, stack) && SnapshotOf(self, i, cells) && i !in stack
    requires self.color.None? && self.connections == []
    ensures Attempt(self, i, cells, count, stack)
            == Visit(true, cells[i := cells[i].(color := Some(3))], count + 1)
  {
    var colored := cells[i := cells[i].(color := Some(3))];
    AvailableNoNeighbours(cells);
    SnapshotsAfterColoring(self, i, colored, stack);
    assert Snapshots([], colored) == [];
    assert TryCandidates(self, i, [0, 1, 2, 3], cells, count + 1, stack) == Visit(true, colored, count + 1);
  }

  /** A map of one cell without links: one visit, and the cell takes colour 3, the last candidate. */
  lemma SearchOneCell(name: string)
    ensures Search([Cell(name, [], None)]) == Visit(true, [Cell(name, [], Some(3))], 1)
  {
    var cells := [Cell(name, [], None)];
    AttemptIsolated(cells[0], 0, cells, 0, {});
    assert cells[0 := cells[0].(color := Some(3))] == [Cell(name, [], Some(3))];
  }

  /**
   * Two cells without links: the search only reaches cell 0, succeeds after
   * one visit, and leaves cell 1 uncoloured. Success does not mean that
   * every cell is coloured.
   */
  lemma SearchTwoUnlinkedCells(a: string, b: string)
    ensures Search([Cell(a, [], None), Cell(b, [], None)])
            == Visit(true, [Cell(a, [], Some(3)), Cell(b, [], None)], 1)
  {
    var cells := [Cell(a, [], None), Cell(b, [], None)];
    AttemptIsolated(cells[0], 0, cells, 0, {});
    assert cells[0 := cells[0].(color := Some(3))] == [Cell(a, [], Some(3)), Cell(b, [], None)];
  }

  /** The available colours of a cell with neighbours `u` and `v` are the ascending `s` of colours neither holds. */
  lemma AvailableOfTwo(u: nat, v: nat, cells: seq<Cell>, s: seq<nat>)
    requires u < |cells| && v < |cells| && StrictlyAscending(s)
    requires forall x: nat :: x in s <==> x < PaletteSize && cells[u].color != Some(x) && cells[v].color != Some(x)
    ensures Available([u, v], cells) == s
  {
    forall x: nat
      ensures HeldBefore([u, v], 2, cells, x) <==> cells[u].color == Some(x) || cells[v].color == Some(x)
    {
      if HeldBefore([u, v], 2, cells, x) {
        var p :| 0 <= p < 2 && cells[[u, v][p]].color == Some(x);
        assert p == 0 || p == 1;
      }
      if cells[u].color == Some(x) {
        assert [u, v][0] == u;
      }
      if cells[v].color == Some(x) {
        assert [u, v][1] == v;
      }
    }
    AscendingUnique(s, Available([u, v], cells));
  }

  /** The available colours of a cell with the one neighbour `u` are the ascending `s` of colours it does not hold. */
  lemma AvailableOfOne(u: nat, cells: seq<Cell>, s: seq<nat>)
    requires u < |cells| && StrictlyAscending(s)
    requires forall x: nat :: x in s <==> x < PaletteSize && cells[u].color != Some(x)
    ensures Available([u], cells) == s
  {
    forall x: nat
      ensures HeldBefore([u], 1, cells, x) <==> cells[u].color == Some(x)
    {
      if cells[u].color == Some(x) {
        assert [u][0] == u;
      }
    }
    AscendingUnique(s, Available([u], cells));
  }

  /**
   * A visit of an uncoloured snapshot writes its last available colour `c`
   * first, giving `colored`; when the visits of its neighbours on that map
   * then succeed with `v`, the visit ends with exactly that outcome.
   */
  lemma AttemptFirstCandidate(self: Cell, i: nat, cells: seq<Cell>, count: nat, stack: set<nat>, c: nat,
                              colored: seq<Cell>, v: Visit)
    requires SearchReady(cells, stack) && SnapshotOf(self, i, cells) && i !in stack && self.color.None?
    requires Available(self.connections, cells) != []
    requires Available(self.connections, cells)[|Available(self.connections, cells)| - 1] == c
    requires colored == cells[i := cells[i].(color := Some(c))]
    requires SearchReady(colored, stack + {i})
    requires SnapshotsReady(Snapshots(self.connections, colored), colored, stack + {i})
    requires v == VisitNeighbours(Snapshots(self.connections, colored), colored, count + 1, stack + {i})
    requires v.ok
    ensures Attempt(self, i, cells, count, stack) == v
  {
    var avail := Available(self.connections, cells);
    assert forall p :: 0 <= p < |avail| ==> avail[p] in avail;
  }

  /**
   * The neighbour loop after a successful first visit goes on with the
   * remaining snapshots, on the map and counter that visit left.
   */
  lemma VisitNeighboursStep(snaps: seq<(Cell, nat)>, cells: seq<Cell>, count: nat, stack: set<nat>)
    requires SearchReady(cells, stack) && SnapshotsReady(snaps, cells, stack) && snaps != []
    ensures var v := Attempt(snaps[0].0, snaps[0].1, cells, count, stack);
            v.ok ==> SearchReady(v.cells, stack) && SnapshotsReady(snaps[1..], v.cells, stack)
                     && VisitNeighbours(snaps, cells, count, stack)
                        == VisitNeighbours(snaps[1..], v.cells, v.count, stack)
  {
  }

  /** Visiting snapshots that are all coloured changes nothing and counts one visit each. */
  lemma {:induction false} VisitColoured(snaps: seq<(Cell, nat)>, cells: seq<Cell>, count: nat, stack: set<nat>)
    requires SearchReady(cells, stack) && SnapshotsReady(snaps, cells, stack)
    requires forall p :: 0 <= p < |snaps| ==> snaps[p].0.color.Some?
    ensures VisitNeighbours(snaps, cells, count, stack) == Visit(true, cells, count + |snaps|)
  {
    if snaps != [] {
      VisitNeighboursStep(snaps, cells, count, stack);
      VisitColoured(snaps[1..], cells, count + 1, stack);
    }
  }

  /** The names of the four cells of a four-cycle. */
  type Names4 = (string, string, string, string)

  /**
   * The four-cycle a-b-c-d-a with the names `ns` and the given colours;
   * each cell lists its neighbours in the order the link editor would have
   * added them.
   */
  function Square(ns: Names4, c0: Option<nat>, c1: Option<nat>, c2: Option<nat>, c3: Option<nat>): seq<Cell>
  {
    [Cell(ns.0, [1, 3], c0), Cell(ns.1, [0, 2], c1), Cell(ns.2, [1, 3], c2), Cell(ns.3, [2, 0], c3)]
  }

  /** Every link of the four-cycle is a position of it, whatever its colours. */
  lemma SquareLinked(ns: Names4, c0: Option<nat>, c1: Option<nat>, c2: Option<nat>, c3: Option<nat>)
    ensures Linked(Square(ns, c0, c1, c2, c3))
  {
    var m := Square(ns, c0, c1, c2, c3);
    forall a | 0 <= a < 4
      ensures LinksWithin(m[a].connections, 4)
    {
      assert a == 0 || a == 1 || a == 2 || a == 3;
    }
  }

  /** The four-cycle is ready for a search whose stack holds only coloured cells. */
  lemma SquareReady(ns: Names4, c0: Option<nat>, c1: Option<nat>, c2: Option<nat>, c3: Option<nat>, stack: set<nat>)
    requires stack <= {0, 1, 2, 3}
    requires (0 in stack ==> c0.Some?) && (1 in stack ==> c1.Some?)
    requires (2 in stack ==> c2.Some?) && (3 in stack ==> c3.Some?)
    ensures SearchReady(Square(ns, c0, c1, c2, c3), stack)
  {
    SquareLinked(ns, c0, c1, c2, c3);
    var m := Square(ns, c0, c1, c2, c3);
    forall k | k in stack
      ensures k < |m| && m[k].color.Some?
    {
      assert k == 0 || k == 1 || k == 2 || k == 3;
    }
  }

  /**
   * The four-cycle, a visit of d while a and c hold 3 and b holds 2: d takes
   * 2 and then visits its two coloured neighbours. The same for every
   * counter and every stack of cells among a, b and c.
   */
  lemma SquareVisitD(ns: Names4, count: nat, stack: set<nat>)
    requires stack <= {0, 1, 2}
    ensures SearchReady(Square(ns, Some(3), Some(2), Some(3), None), stack)
    ensures Attempt(Cell(ns.3, [2, 0], None), 3, Square(ns, Some(3), Some(2), Some(3), None), count, stack)
            == Visit(true, Square(ns, Some(3), Some(2), Some(3), Some(2)), count + 3)
  {
    var m := Square(ns, Some(3), Some(2), Some(3), None);
    var done := Square(ns, Some(3), Some(2), Some(3), Some(2));
    SquareReady(ns, Some(3), Some(2), Some(3), None, stack);
    AvailableOfTwo(2, 0, m, [0, 1, 2]);
    assert m[3 := m[3].(color := Some(2))] == done;
    SquareVisitDNeighbours(ns, count + 1, stack + {3});
    AttemptFirstCandidate(Cell(ns.3, [2, 0], None), 3, m, count, stack, 2, done,
                          Visit(true, done, count + 3));
  }

  /** The neighbour loop of that visit of d: both neighbours are coloured, so each counts once. */
  lemma SquareVisitDNeighbours(ns: Names4, count: nat, stack: set<nat>)
    requires stack <= {0, 1, 2, 3}
    ensures SearchReady(Square(ns, Some(3), Some(2), Some(3), Some(2)), stack)
    ensures SnapshotsReady(Snapshots([2, 0], Square(ns, Some(3), Some(2), Some(3), Some(2))),
                           Square(ns, Some(3), Some(2), Some(3), Some(2)), stack)
    ensures VisitNeighbours(Snapshots([2, 0], Square(ns, Some(3), Some(2), Some(3), Some(2))),
                            Square(ns, Some(3), Some(2), Some(3), Some(2)), count, stack)
            == Visit(true, Square(ns, Some(3), Some(2), Some(3), Some(2)), count + 2)
  {
    var done := Square(ns, Some(3), Some(2), Some(3), Some(2));
    SquareReady(ns, Some(3), Some(2), Some(3), Some(2), stack);
    var snaps := Snapshots([2, 0], done);
    assert snaps == [(done[2], 2), (done[0], 0)];
    VisitColoured(snaps, done, count, stack);
  }

  /**
   * The four-cycle, d entered again through a stale uncoloured snapshot
   * after the search already coloured it 2: the visit does not see that
   * colour, searches d anew, writes 2 again and revisits both neighbours.
   */
  lemma SquareRevisitD(ns: Names4, count: nat, stack: set<nat>)
    requires stack <= {0, 1, 2}
    ensures SearchReady(Square(ns, Some(3), Some(2), Some(3), Some(2)), stack)
    ensures Attempt(Cell(ns.3, [2, 0], None), 3, Square(ns, Some(3), Some(2), Some(3), Some(2)), count, stack)
            == Visit(true, Square(ns, Some(3), Some(2), Some(3), Some(2)), count + 3)
  {
    var done := Square(ns, Some(3), Some(2), Some(3), Some(2));
    SquareReady(ns, Some(3), Some(2), Some(3), Some(2), stack);
    StaleSnapshotIgnoresLiveColour(Cell(ns.3, [2, 0], None), 3, done, count, stack);
    assert done[3 := done[3].(color := None)] == Square(ns, Some(3), Some(2), Some(3), None);
    SquareVisitD(ns, count, stack);
  }

  /**
   * The four-cycle, a visit of c while a holds 3 and b holds 2: c takes 3,
   * visits the coloured b, then d, which takes 2.
   */
  lemma SquareVisitC(ns: Names4, count: nat, stack: set<nat>)
    requires stack <= {0, 1}
    ensures SearchReady(Square(ns, Some(3), Some(2), None, None), stack)
    ensures Attempt(Cell(ns.2, [1, 3], None), 2, Square(ns, Some(3), Some(2), None, None), count, stack)
            == Visit(true, Square(ns, Some(3), Some(2), Some(3), Some(2)), count + 5)
  {
    var m := Square(ns, Some(3), Some(2), None, None);
    SquareReady(ns, Some(3), Some(2), None, None, stack);
    AvailableOfTwo(1, 3, m, [0, 1, 3]);
    var colored := Square(ns, Some(3), Some(2), Some(3), None);
    assert m[2 := m[2].(color := Some(3))] == colored;
    SquareVisitCNeighbours(ns, count + 1, stack + {2});
    AttemptFirstCandidate(Cell(ns.2, [1, 3], None), 2, m, count, stack, 3, colored,
                          Visit(true, Square(ns, Some(3), Some(2), Some(3), Some(2)), count + 5));
  }

  /** The neighbour loop of that visit of c: the coloured b counts once, then d is searched. */
  lemma SquareVisitCNeighbours(ns: Names4, count: nat, stack: set<nat>)
    requires stack <= {0, 1, 2}
    ensures SearchReady(Square(ns, Some(3), Some(2), Some(3), None), stack)
    ensures SnapshotsReady(Snapshots([1, 3], Square(ns, Some(3), Some(2), Some(3), None)),
                           Square(ns, Some(3), Some(2), Some(3), None), stack)
    ensures VisitNeighbours(Snapshots([1, 3], Square(ns, Some(3), Some(2), Some(3), None)),
                            Square(ns, Some(3), Some(2), Some(3), None), count, stack)
            == Visit(true, Square(ns, Some(3), Some(2), Some(3), Some(2)), count + 4)
  {
    var colored := Square(ns, Some(3), Some(2), Some(3), None);
    SquareReady(ns, Some(3), Some(2), Some(3), None, stack);
    var snaps := Snapshots([1, 3], colored);
    assert snaps == [(colored[1], 1), (Cell(ns.3, [2, 0], None), 3)];
    VisitNeighboursStep(snaps, colored, count, stack);
    SquareVisitD(ns, count + 1, stack);
    VisitNeighboursStep(snaps[1..], colored, count + 1, stack);
  }

  /**
   * The four-cycle, the visit of b from a, which holds 3: b takes 2, visits
   * the coloured a, then c.
   */
  lemma SquareVisitB(ns: Names4, count: nat, stack: set<nat>)
    requires stack <= {0}
    ensures SearchReady(Square(ns, Some(3), None, None, None), stack)
    ensures Attempt(Cell(ns.1, [0, 2], None), 1, Square(ns, Some(3), None, None, None), count, stack)
            == Visit(true, Square(ns, Some(3), Some(2), Some(3), Some(2)), count + 7)
  {
    var m := Square(ns, Some(3), None, None, None);
    SquareReady(ns, Some(3), None, None, None, stack);
    AvailableOfTwo(0, 2, m, [0, 1, 2]);
    var colored := Square(ns, Some(3), Some(2), None, None);
    assert m[1 := m[1].(color := Some(2))] == colored;
    SquareVisitBNeighbours(ns, count + 1, stack + {1});
    AttemptFirstCandidate(Cell(ns.1, [0, 2], None), 1, m, count, stack, 2, colored,
                          Visit(true, Square(ns, Some(3), Some(2), Some(3), Some(2)), count + 7));
  }

  /** The neighbour loop of that visit of b: the coloured a counts once, then c is searched. */
  lemma SquareVisitBNeighbours(ns: Names4, count: nat, stack: set<nat>)
    requires stack <= {0, 1}
    ensures SearchReady(Square(ns, Some(3), Some(2), None, None), stack)
    ensures SnapshotsReady(Snapshots([0, 2], Square(ns, Some(3), Some(2), None, None)),
                           Square(ns, Some(3), Some(2), None, None), stack)
    ensures VisitNeighbours(Snapshots([0, 2], Square(ns, Some(3), Some(2), None, None)),
                            Square(ns, Some(3), Some(2), None, None), count, stack)
            == Visit(true, Square(ns, Some(3), Some(2), Some(3), Some(2)), count + 6)
  {
    var colored := Square(ns, Some(3), Some(2), None, None);
    SquareReady(ns, Some(3), Some(2), None, None, stack);
    var snaps := Snapshots([0, 2], colored);
    assert snaps == [(colored[0], 0), (Cell(ns.2, [1, 3], None), 2)];
    VisitNeighboursStep(snaps, colored, count, stack);
    SquareVisitC(ns, count + 1, stack);
    VisitNeighboursStep(snaps[1..], colored, count + 1, stack);
  }

  /**
   * The four-cycle, the visit of a with nothing coloured: a takes 3, the
   * visit of b colours b, c and d (2, 3, 2), and then d is entered again
   * from the snapshot a took before that visit, which still shows d
   * uncoloured. d is searched again, takes 2 again and revisits its
   * neighbours: eleven visits in all.
   */
  lemma SquareVisitA(ns: Names4, count: nat, stack: set<nat>)
    requires stack == {}
    ensures SearchReady(Square(ns, None, None, None, None), stack)
    ensures Attempt(Cell(ns.0, [1, 3], None), 0, Square(ns, None, None, None, None), count, stack)
            == Visit(true, Square(ns, Some(3), Some(2), Some(3), Some(2)), count + 11)
  {
    var cells := Square(ns, None, None, None, None);
    SquareReady(ns, None, None, None, None, stack);
    AvailableOfTwo(1, 3, cells, [0, 1, 2, 3]);
    var colored := Square(ns, Some(3), None, None, None);
    assert cells[0 := cells[0].(color := Some(3))] == colored;
    SquareVisitANeighbours(ns, count + 1, stack + {0});
    AttemptFirstCandidate(Cell(ns.0, [1, 3], None), 0, cells, count, stack, 3, colored,
                          Visit(true, Square(ns, Some(3), Some(2), Some(3), Some(2)), count + 11));
  }

  /** The neighbour loop of the visit of a: b is searched, then d again from its stale snapshot. */
  lemma SquareVisitANeighbours(ns: Names4, count: nat, stack: set<nat>)
    requires stack <= {0}
    ensures SearchReady(Square(ns, Some(3), None, None, None), stack)
    ensures SnapshotsReady(Snapshots([1, 3], Square(ns, Some(3), None, None, None)),
                           Square(ns, Some(3), None, None, None), stack)
    ensures VisitNeighbours(Snapshots([1, 3], Square(ns, Some(3), None, None, None)),
                            Square(ns, Some(3), None, None, None), count, stack)
            == Visit(true, Square(ns, Some(3), Some(2), Some(3), Some(2)), count + 10)
  {
    var colored := Square(ns, Some(3), None, None, None);
    var done := Square(ns, Some(3), Some(2), Some(3), Some(2));
    SquareReady(ns, Some(3), None, None, None, stack);
    var snaps := Snapshots([1, 3], colored);
    assert snaps == [(Cell(ns.1, [0, 2], None), 1), (Cell(ns.3, [2, 0], None), 3)];
    VisitNeighboursStep(snaps, colored, count, stack);
    SquareVisitB(ns, count, stack);
    SquareRevisitD(ns, count + 7, stack);
    VisitNeighboursStep(snaps[1..], done, count + 7, stack);
  }

  /**
   * The search over the four-cycle a-b-c-d-a, started at a: colours 3, 2,
   * 3, 2 and eleven visits, one of them d searched a second time.
   */
  lemma SearchSquare(ns: Names4)
    ensures Search(Square(ns, None, None, None, None))
            == Visit(true, Square(ns, Some(3), Some(2), Some(3), Some(2)), 11)
  {
    SquareVisitA(ns, 0, {});
  }

  /** Two linked cells as a map. */
  function Pair(a: string, b: string, c0: Option<nat>, c1: Option<nat>): seq<Cell>
  {
    [Cell(a, [1], c0), Cell(b, [0], c1)]
  }

  /** Both cells of a linked pair link in range, and the given stack is coloured. */
  lemma PairReady(a: string, b: string, c0: Option<nat>, c1: Option<nat>, stack: set<nat>)
    requires stack <= {0, 1}
    requires 0 in stack ==> c0.Some?
    requires 1 in stack ==> c1.Some?
    ensures SearchReady(Pair(a, b, c0, c1), stack)
  {
    var m := Pair(a, b, c0, c1);
    assert LinksWithin(m[0].connections, 2) && LinksWithin(m[1].connections, 2);
  }

  /**
   * Two linked cells, second visit: cell 1 is entered from cell 0, which
   * holds 3, so it takes 2 and visits cell 0 again, which counts once more.
   */
  lemma PairVisitSecond(a: string, b: string, count: nat, stack: set<nat>)
    requires stack <= {0}
    ensures SearchReady(Pair(a, b, Some(3), None), stack)
    ensures Attempt(Cell(b, [0], None), 1, Pair(a, b, Some(3), None), count, stack)
            == Visit(true, Pair(a, b, Some(3), Some(2)), count + 2)
  {
    var m := Pair(a, b, Some(3), None);
    var done := Pair(a, b, Some(3), Some(2));
    PairReady(a, b, Some(3), None, stack);
    AvailableOfOne(0, m, [0, 1, 2]);
    assert m[1 := m[1].(color := Some(2))] == done;
    PairSecondNeighbours(a, b, count + 1, stack + {1});
    AttemptFirstCandidate(Cell(b, [0], None), 1, m, count, stack, 2, done, Visit(true, done, count + 2));
  }

  /** The neighbour loop of that visit: only the coloured cell 0, which counts once. */
  lemma PairSecondNeighbours(a: string, b: string, count: nat, stack: set<nat>)
    requires stack <= {0, 1}
    ensures SearchReady(Pair(a, b, Some(3), Some(2)), stack)
    ensures SnapshotsReady(Snapshots([0], Pair(a, b, Some(3), Some(2))), Pair(a, b, Some(3), Some(2)), stack)
    ensures VisitNeighbours(Snapshots([0], Pair(a, b, Some(3), Some(2))), Pair(a, b, Some(3), Some(2)), count, stack)
            == Visit(true, Pair(a, b, Some(3), Some(2)), count + 1)
  {
    var done := Pair(a, b, Some(3), Some(2));
    PairReady(a, b, Some(3), Some(2), stack);
    var snaps := Snapshots([0], done);
    assert snaps == [(done[0], 0)];
    VisitColoured(snaps, done, count, stack);
  }

  /** Two linked cells, first visit: cell 0 takes 3, then cell 1 is searched. */
  lemma PairVisitFirst(a: string, b: string, count: nat, stack: set<nat>)
    requires stack == {}
    ensures SearchReady(Pair(a, b, None, None), stack)
    ensures Attempt(Cell(a, [1], None), 0, Pair(a, b, None, None), count, stack)
            == Visit(true, Pair(a, b, Some(3), Some(2)), count + 3)
  {
    var cells := Pair(a, b, None, None);
    var m := Pair(a, b, Some(3), None);
    PairReady(a, b, None, None, stack);
    AvailableOfOne(1, cells, [0, 1, 2, 3]);
    assert cells[0 := cells[0].(color := Some(3))] == m;
    PairFirstNeighbours(a, b, count + 1, stack + {0});
    AttemptFirstCandidate(Cell(a, [1], None), 0, cells, count, stack, 3, m,
                          Visit(true, Pair(a, b, Some(3), Some(2)), count + 3));
  }

  /** The neighbour loop of that visit: cell 1, still uncoloured, is searched. */
  lemma PairFirstNeighbours(a: string, b: string, count: nat, stack: set<nat>)
    requires stack <= {0}
    ensures SearchReady(Pair(a, b, Some(3), None), stack)
    ensures SnapshotsReady(Snapshots([1], Pair(a, b, Some(3), None)), Pair(a, b, Some(3), None), stack)
    ensures VisitNeighbours(Snapshots([1], Pair(a, b, Some(3), None)), Pair(a, b, Some(3), None), count, stack)
            == Visit(true, Pair(a, b, Some(3), Some(2)), count + 2)
  {
    var m := Pair(a, b, Some(3), None);
    PairReady(a, b, Some(3), None, stack);
    var snaps := Snapshots([1], m);
    assert snaps == [(Cell(b, [0], None), 1)];
    VisitNeighboursStep(snaps, m, count, stack);
    PairVisitSecond(a, b, count, stack);
  }

  /**
   * Two linked cells: cell 0 takes 3, its neighbour takes 2, and the search
   * counts three visits, the last one the return to the coloured cell 0.
   */
  lemma SearchTwoLinkedCells(a: string, b: string)
    ensures Search([Cell(a, [1], None), Cell(b, [0], None)])
            == Visit(true, [Cell(a, [1], Some(3)), Cell(b, [0], Some(2))], 3)
  {
    PairVisitFirst(a, b, 0, {});
  }
}

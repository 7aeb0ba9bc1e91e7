/**
 * The map (`Map` in src/cell.rs): an arena of cells in which a cell's
 * position is its identity and connections are positions in the same
 * sequence. Adjacency is meant to be symmetric; `Validate` checks that.
 */
module Maps {
  import opened Wrappers
  import opened Cells

  /** Every connection in `conns` names a position below `n`. */
  predicate LinksWithin(conns: seq<nat>, n: nat)
  {
    forall p :: 0 <= p < |conns| ==> conns[p] < n
  }

  /** Every connection of every cell is a position of the map. */
  predicate Linked(cells: seq<Cell>)
  {
    forall a :: 0 <= a < |cells| ==> LinksWithin(cells[a].connections, |cells|)
  }

  /** Adjacency is symmetric: whenever `b` is a neighbour of `a`, `a` is a neighbour of `b`. */
  predicate Symmetric(cells: seq<Cell>)
    requires Linked(cells)
  {
    forall a, b :: 0 <= a < |cells| && b in cells[a].connections ==> a in cells[b].connections
  }

  /** No cell lists the same neighbour twice. */
  predicate NoDupLinks(cells: seq<Cell>)
  {
    forall a :: 0 <= a < |cells| ==> NoDup(cells[a].connections)
  }

  /** What a map built by adding cells and toggling edges always satisfies. */
  predicate WellFormed(cells: seq<Cell>)
  {
    Linked(cells) && NoDupLinks(cells) && Symmetric(cells)
  }

  /** The connection at position `q` of cell `k` is not returned by that neighbour. */
  predicate Violation(cells: seq<Cell>, k: nat, q: nat)
    requires Linked(cells) && k < |cells| && q < |cells[k].connections|
  {
    k !in cells[cells[k].connections[q]].connections
  }

  /** `(k, q)` comes strictly before `(i, p)` in the scan order: by cell, then by position. */
  predicate Before(k: nat, q: nat, i: nat, p: nat)
  {
    k < i || (k == i && q < p)
  }

  /** No violation from position `(i, p)` (included) up to `(i', p')` (excluded) in scan order. */
  ghost predicate Clean(cells: seq<Cell>, i: nat, p: nat, i': nat, p': nat)
    requires Linked(cells)
  {
    forall k: nat, q: nat ::
      k < |cells| && q < |cells[k].connections| && !Before(k, q, i, p) && Before(k, q, i', p')
      ==> !Violation(cells, k, q)
  }

  /**
   * The nested scan of `Map::validate` from cell `i`, connection position `p`:
   * the first violation met, as (cell, position), or None.
   */
  function ScanFrom(cells: seq<Cell>, i: nat, p: nat): (r: Option<(nat, nat)>)
    requires Linked(cells) && i <= |cells| && (i < |cells| ==> p <= |cells[i].connections|)
    decreases |cells| - i, if i < |cells| then |cells[i].connections| - p else 0
    ensures r.Some? ==>
      var (k, q) := r.value;
      k < |cells| && q < |cells[k].connections| && Violation(cells, k, q)
      && !Before(k, q, i, p) && Clean(cells, i, p, k, q)
    ensures r.None? ==> Clean(cells, i, p, |cells|, 0)
  {
    if i == |cells| then None
    else if p == |cells[i].connections| then ScanFrom(cells, i + 1, 0)
    else if Violation(cells, i, p) then Some((i, p))
    else ScanFrom(cells, i, p + 1)
  }

  /**
   * The first asymmetric link in scan order (cells by index, each cell's
   * connections in stored order), or None when adjacency is symmetric.
   */
  function FirstViolation(cells: seq<Cell>): (r: Option<(nat, nat)>)
    requires Linked(cells)
    ensures r.None? <==> Symmetric(cells)
    ensures r.Some? ==>
      var (k, q) := r.value;
      k < |cells| && q < |cells[k].connections|
      && cells[k].connections[q] < |cells|
      && k !in cells[cells[k].connections[q]].connections
      && Clean(cells, 0, 0, k, q)
  {
    CleanIsSymmetric(cells);
    var r := ScanFrom(cells, 0, 0);
    if r.Some? then
      var (k, q) := r.value;
      assert LinksWithin(cells[k].connections, |cells|);
      assert cells[k].connections[q] in cells[k].connections;
      r
    else
      r
  }

  /** A scan that meets no violation anywhere is exactly symmetric adjacency. */
  lemma CleanIsSymmetric(cells: seq<Cell>)
    requires Linked(cells)
    ensures Clean(cells, 0, 0, |cells|, 0) <==> Symmetric(cells)
  {
    if Symmetric(cells) {
      forall k: nat, q: nat | k < |cells| && q < |cells[k].connections|
        ensures !Violation(cells, k, q)
      {
        assert cells[k].connections[q] in cells[k].connections;
      }
    }
    if Clean(cells, 0, 0, |cells|, 0) {
      forall a, b | 0 <= a < |cells| && b in cells[a].connections
        ensures a in cells[b].connections
      {
        var q :| 0 <= q < |cells[a].connections| && cells[a].connections[q] == b;
        assert !Violation(cells, a, q);
      }
    }
  }

  /** `Map::validate`: true exactly when adjacency is symmetric. */
  function Validate(cells: seq<Cell>): (ok: bool)
    requires Linked(cells)
    ensures ok <==> Symmetric(cells)
  {
    FirstViolation(cells).None?
  }

  /** The cells `Map::add_names` appends: one fresh cell per name, in order. */
  function NewCells(names: seq<string>): seq<Cell>
  {
    seq(|names|, k requires 0 <= k < |names| => Cell.New(names[k]))
  }

  /** Toggling the edge between `i` and `j` at both ends, as the link editor does. */
  function ToggledEdge(cells: seq<Cell>, i: nat, j: nat): seq<Cell>
    requires i < |cells| && j < |cells| && i != j
  {
    cells[i := cells[i].(connections := Toggled(cells[i].connections, j))]
         [j := cells[j].(connections := Toggled(cells[j].connections, i))]
  }

  /** Appending a fresh cell keeps a well-formed map well-formed. */
  lemma AddCellWellFormed(cells: seq<Cell>, name: string)
    requires WellFormed(cells)
    ensures WellFormed(cells + [Cell.New(name)])
  {
    var r := cells + [Cell.New(name)];
    forall a | 0 <= a < |r|
      ensures LinksWithin(r[a].connections, |r|)
    {
      if a < |cells| {
        assert r[a] == cells[a];
      }
    }
    assert forall a :: 0 <= a < |cells| ==> r[a] == cells[a];
  }

  /**
   * Toggling an edge on a well-formed map flips exactly the links `i`-`j`
   * and `j`-`i`: every other membership is as before, and the map stays
   * well-formed. Names and colours are untouched.
   */
  lemma ToggledEdgeWellFormed(cells: seq<Cell>, i: nat, j: nat)
    requires WellFormed(cells) && i < |cells| && j < |cells| && i != j
    ensures |ToggledEdge(cells, i, j)| == |cells|
    ensures WellFormed(ToggledEdge(cells, i, j))
    ensures forall a, b :: 0 <= a < |cells| ==>
      (b in ToggledEdge(cells, i, j)[a].connections <==>
       (b in cells[a].connections) != ((a == i && b == j) || (a == j && b == i)))
    ensures forall a :: 0 <= a < |cells| ==>
      ToggledEdge(cells, i, j)[a].name == cells[a].name
      && ToggledEdge(cells, i, j)[a].color == cells[a].color
  {
    var r := ToggledEdge(cells, i, j);
    ToggledMembership(cells[i].connections, j);
    ToggledMembership(cells[j].connections, i);
    assert r[i].connections == Toggled(cells[i].connections, j);
    assert r[j].connections == Toggled(cells[j].connections, i);
    forall a, b | 0 <= a < |cells|
      ensures b in r[a].connections <==>
        (b in cells[a].connections) != ((a == i && b == j) || (a == j && b == i))
    {
      if a != i && a != j {
        assert r[a] == cells[a];
      }
    }
    assert NoDupLinks(r) by {
      forall a | 0 <= a < |r|
        ensures NoDup(r[a].connections)
      {
        if a != i && a != j {
          assert r[a] == cells[a];
        }
      }
    }
    assert Linked(r);
    forall a, b | 0 <= a < |r| && b in r[a].connections
      ensures a in r[b].connections
    {
      assert b < |cells|;
      if (a == i && b == j) || (a == j && b == i) {
      } else {
        assert b in cells[a].connections;
        assert a in cells[b].connections;
      }
    }
  }

  /**
   * On a well-formed map, toggling the same edge twice restores every
   * connection list as a multiset; when the edge was absent, it restores
   * the map exactly.
   */
  lemma ToggledEdgeTwice(cells: seq<Cell>, i: nat, j: nat)
    requires WellFormed(cells) && i < |cells| && j < |cells| && i != j
    ensures forall a :: 0 <= a < |cells| ==>
      multiset(ToggledEdge(ToggledEdge(cells, i, j), i, j)[a].connections)
        == multiset(cells[a].connections)
    ensures j !in cells[i].connections ==> ToggledEdge(ToggledEdge(cells, i, j), i, j) == cells
  {
    var r := ToggledEdge(cells, i, j);
    ToggledEdgeWellFormed(cells, i, j);
    var r2 := ToggledEdge(r, i, j);
    ToggledTwice(cells[i].connections, j);
    ToggledTwice(cells[j].connections, i);
    assert r2[i].connections == Toggled(Toggled(cells[i].connections, j), j);
    assert r2[j].connections == Toggled(Toggled(cells[j].connections, i), i);
    forall a | 0 <= a < |cells|
      ensures multiset(r2[a].connections) == multiset(cells[a].connections)
    {
      if a != i && a != j {
        assert r2[a] == cells[a];
      }
    }
    if j !in cells[i].connections {
      ToggledEdgeTwiceAbsent(cells, i, j);
    }
  }

  /** Adding an absent link and removing it again leaves the map exactly as it was. */
  lemma ToggledEdgeTwiceAbsent(cells: seq<Cell>, i: nat, j: nat)
    requires WellFormed(cells) && i < |cells| && j < |cells| && i != j
    requires j !in cells[i].connections
    ensures ToggledEdge(ToggledEdge(cells, i, j), i, j) == cells
  {
    assert i !in cells[j].connections;
    ToggledTwice(cells[i].connections, j);
    ToggledTwice(cells[j].connections, i);
    var r2 := ToggledEdge(ToggledEdge(cells, i, j), i, j);
    assert r2[i] == cells[i] && r2[j] == cells[j];
    assert forall a :: 0 <= a < |cells| ==> r2[a] == cells[a];
  }

  /** The map itself: the sequence of cells that its operations update in place. */
  class Map {
    var cells: seq<Cell>

    /** `Map::default`: the empty map. */
    constructor ()
      ensures cells == []
    {
      cells := [];
    }

    /** `Map::add_cell`: a fresh cell at position `|old(cells)|`; existing cells are untouched. */
    method AddCell(name: string)
      modifies this
      ensures cells == old(cells) + [Cell.New(name)]
      ensures WellFormed(old(cells)) ==> WellFormed(cells)
    {
      if WellFormed(cells) {
        AddCellWellFormed(cells, name);
      }
      cells := cells + [Cell.New(name)];
    }

    /** `Map::add_names`: `AddCell` for each name, in order. */
    method AddNames(names: seq<string>)
      modifies this
      ensures cells == old(cells) + NewCells(names)
      ensures WellFormed(old(cells)) ==> WellFormed(cells)
    {
      for n := 0 to |names|
        invariant cells == old(cells) + NewCells(names[..n])
        invariant WellFormed(old(cells)) ==> WellFormed(cells)
      {
        AddCell(names[n]);
        assert NewCells(names[..n + 1]) == NewCells(names[..n]) + [Cell.New(names[n])];
      }
      assert names[..|names|] == names;
    }

    /**
     * The link editor's edit (src/scene/create_links.rs): `link_changed` on
     * both ends of the pair, `i` first.
     */
    method ToggleEdge(i: nat, j: nat)
      requires i < |cells| && j < |cells| && i != j
      modifies this
      ensures cells == ToggledEdge(old(cells), i, j)
      ensures WellFormed(old(cells)) ==> WellFormed(cells)
    {
      if WellFormed(cells) {
        ToggledEdgeWellFormed(cells, i, j);
      }
      var ci := cells[i].LinkChanged(j);
      cells := cells[i := ci];
      var cj := cells[j].LinkChanged(i);
      cells := cells[j := cj];
    }
  }
}

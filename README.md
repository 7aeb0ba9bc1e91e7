# Map colouring: the region graph and its colouring search

This project is a Dafny model of the core of `map-coloring`, a small Rust
program in which a user names regions, links neighbouring regions, and asks
for a colouring with a palette of four colours. The core is `src/cell.rs`.
It has three parts:

- **The region graph.** A `Map` is a sequence of `Cell`s. A cell's position is
  its identity, and its `connections` are positions in the same sequence.
  Cells are added uncoloured and unlinked. A link is toggled on one cell
  (`link_changed`); the link editor toggles both ends. `validate` checks that
  adjacency is symmetric.
- **The colouring search.** `color_map` starts a recursive depth-first search at
  cell 0. `color_in` counts every visit. A visit whose snapshot is already
  coloured succeeds at once. Otherwise it tries the colours that no neighbour
  holds (`get_avalible`), last one first. For each candidate it visits the
  neighbours, stopping at the first failure. When no candidate is left, it
  clears its own colour and fails. Colours written during a failed candidate
  are not undone.
- **The name-keyed form.** The export turns a map into a dictionary from cell
  name to neighbour names. The import rebuilds a map from such a dictionary.
  It rejects a neighbour name that is not a key, and it rejects a result that
  does not validate.

The files:

- `wrappers.dfy`: `Option` and `Result`.
- `cells.dfy` (`Cells`): the `Cell` datatype and the connection toggle
  `LinkChanged`, a loop proved equal to the function `Toggled`. Lemmas say what
  toggling does to membership, duplicates and multiplicities, and what
  toggling twice gives back.
- `maps.dfy` (`Maps`): the `Map` class. Its `cells` field is a sequence that
  `AddCell`, `AddNames` and `ToggleEdge` reassign. It also holds `Validate`
  (the nested scan, as a function) and the well-formedness lemmas.
- `coloring.dfy` (`Coloring`): the search.
  - The functions `Attempt`, `TryCandidates` and `VisitNeighbours` state the
    visit over the sequence of cells.
  - The methods `ColorIn`, `ColorWith`, `VisitAll` and `ColorMap` update the
    `Map` in place, and `GetAvailable` reads it. Each is proved to return
    exactly what its function says.
  - Every recursive visit takes the cell's snapshot as a parameter next to
    its position. The snapshot is the copy the caller took, and the
    "already coloured" test reads it.
  - Termination is measured by the set of cells whose visits are in progress.
    Every such cell is coloured in the live map, so no snapshot taken of it
    later is uncoloured.
- `coloring_facts.dfy` (`ColoringFacts`): facts about visits.
  - What a visit of an unlinked cell does.
  - That a visit of an uncoloured snapshot of a cell without a link to itself
    never reads the live colour of that cell.
  - Step lemmas for a visit whose first candidate succeeds and for the
    neighbour loop.
  - Full runs worked through: a one-cell map, two unlinked cells, two linked
    cells, and the four-cycle, where one cell is searched twice because it is
    entered again from a stale snapshot.
- `namemaps.dfy` (`NameMaps`): the export (`Export`), the import (`ImportSpec`
  as a function, `Import` as the imperative method proved equal to it), and the
  round trips between them.

The dictionary's key order is unspecified in the program. It is a parameter
`keys`: any sequence listing each key once. The import properties hold for
all such orders, except `RebuiltInOrder`, `RebuiltInOrderAll` and
`ExportThenImportInOrder`, which fix one order: the cell names in position
order.

Two preconditions come from places where the program would panic:
- `color_map` indexes cell 0, so `ColorMap` and `Search` need a non-empty map.
- Every connection is used as an index into the map, so the search, `Validate`
  and `Export` need every connection to be a position of the map (`Linked`).

## Model

| member | source | states |
|---|---|---|
| Cells.Cell.LinkChanged | src/cell.rs:88-99 | The scan removes the first occurrence of `other` and keeps the rest in order; when `other` is absent it appends it. Name and colour are unchanged. |
| Cells.FirstIndex | src/cell.rs:90-95 | The position the scan stops at holds `other`, and `other` does not occur before it. |
| Cells.ToggledCounts | src/cell.rs:88-99 | Toggling takes exactly one occurrence of `other` out of the multiset when it is present, and adds exactly one when it is absent. |
| Cells.ToggledMembership | src/cell.rs:88-99 | On a list without duplicates, toggling flips the membership of `other`, leaves every other membership as it was, and keeps the list free of duplicates. |
| Cells.ToggledNoDup | src/cell.rs:88-99 | Toggling keeps a connection list free of duplicates. |
| Cells.ToggledTwice | src/cell.rs:88-99 | Toggling twice restores an absent element exactly. On a list without duplicates, a present element comes back at the end, after the others in their order, and the multiset is restored. |
| Maps.ScanFrom | src/cell.rs:50-57 | The nested scan returns the first asymmetric link at or after the start position in scan order (cells by position, connections in stored order). It returns None when there is none from there on. |
| Maps.FirstViolation | src/cell.rs:48-59 | None exactly when adjacency is symmetric. Otherwise it returns the first link, in scan order, whose neighbour does not link back. |
| Maps.CleanIsSymmetric | src/cell.rs:48-59 | A scan that finds no violation over the whole map is the same as symmetric adjacency. |
| Maps.Validate | src/cell.rs:48-59 | True if and only if, for every cell `a` and every neighbour `b` of `a`, `a` is a neighbour of `b`. A map with no links therefore validates. |
| Maps.AddCellWellFormed | src/cell.rs:37-39 | Appending a fresh cell keeps links in range, free of duplicates and symmetric. |
| Maps.ToggledEdgeWellFormed | src/scene/create_links.rs:45-48 | Toggling both ends on a well-formed map flips exactly the links `i`→`j` and `j`→`i` and no other membership. Names, colours and length are unchanged, and the map stays well-formed. |
| Maps.ToggledEdgeTwice | src/scene/create_links.rs:45-48 | On a well-formed map, toggling the same edge twice restores every connection list as a multiset. When the edge was absent, the map is restored exactly. |
| Maps.ToggledEdgeTwiceAbsent | src/scene/create_links.rs:45-48 | Adding an absent edge and toggling it again gives back the same map. |
| Maps.Map.constructor | src/cell.rs:24-28 | The default map has no cells. |
| Maps.Map.AddCell | src/cell.rs:37-39 | The new cell is appended at position old length, with the given name, no connections and no colour. Existing cells are untouched and well-formedness is kept. |
| Maps.Map.AddNames | src/cell.rs:31-36 | One fresh cell per name is appended, in the order of the names. Well-formedness is kept. |
| Maps.Map.ToggleEdge | src/scene/create_links.rs:29-48 | `link_changed` runs on both ends, `i` first, for two distinct positions. The new cells are the two-sided toggle of the old ones, and well-formedness is kept. |
| Coloring.FreeFrom | src/cell.rs:151-168 | Strictly ascending, and holds exactly the palette colours from `c` up that no neighbour holds. |
| Coloring.Available | src/cell.rs:148-170 | Strictly ascending, and holds exactly the palette colours 0..3 that no neighbour holds in the live map. |
| Coloring.RemoveAtAscending | src/cell.rs:159-166 | Removing the recorded position from a strictly ascending list removes exactly that colour and keeps the list strictly ascending. |
| Coloring.GetAvailable | src/cell.rs:148-170 | The loop starts from 0..3 and, for each coloured neighbour, removes the last matching position. It returns exactly `Available` for the live map. |
| Coloring.SnapshotsAfterColoring | src/cell.rs:120-126 | Neighbour snapshots taken right after cell `i` is coloured are faithful copies. None of them is an uncoloured copy of a cell whose visit is in progress. |
| Coloring.Attempt | src/cell.rs:108-147 | One visit. The counter grows. A coloured snapshot succeeds with the map unchanged and exactly one count. For an uncoloured snapshot, the visit succeeds if and only if cell `i` ends coloured, and its colour is a palette colour or None. On success that colour is one of the colours available to cell `i` when the visit began. Names, connections, length and the colours of cells whose visits are in progress are unchanged. Every colour written is in the palette or None. |
| Coloring.TryCandidates | src/cell.rs:119-146 | The candidate loop succeeds if and only if cell `i` ends coloured, so a failure leaves cell `i` uncoloured. On success the colour of cell `i` is one of the candidates. The counter never decreases. It keeps the same frame and palette guarantees. |
| Coloring.VisitNeighbours | src/cell.rs:128-141 | The neighbour loop over the snapshots. A success has counted at least one visit per snapshot, and a failure at least one visit. It keeps the same frame and palette guarantees. |
| Coloring.FrameChain | src/cell.rs:119-143 | Two steps that each keep names, connections, length and the colours of cells in progress, and write only palette colours or None, keep all of that end to end. |
| Coloring.FrameReady | src/cell.rs:128-143 | After a step that keeps the frame for a stack, every cell on a smaller stack is still coloured and every link is still in range, so the search can go on from the map that step left. |
| Coloring.TryCandidatesStep | src/cell.rs:119-143 | One round of the candidate loop: after writing the last candidate and visiting the neighbours, a success is the outcome, and a failure leaves the remaining candidates to be tried on the map the failed round left. |
| Coloring.Search | src/cell.rs:40-47 | The search from cell 0 counts at least one visit and changes only colours, only to palette colours or None. If cell 0 is coloured on entry, the result is (true, 1) with the map unchanged. Otherwise it succeeds if and only if cell 0 ends coloured, and then with a colour that was available to cell 0 at the start. |
| Coloring.ColorIn | src/cell.rs:108-147 | The in-place visit: its verdict, the new map and the new counter are exactly those of `Attempt` on the old map. |
| Coloring.ColorWith | src/cell.rs:120-141 | One round of the candidate loop in place: it writes the colour into cell `i`, snapshots the neighbours and visits them. Verdict, map and counter are exactly those of `VisitNeighbours` on the map with that colour written. |
| Coloring.VisitAll | src/cell.rs:128-141 | The in-place neighbour loop with the `fail` flag: verdict, map and counter are exactly those of `VisitNeighbours`. |
| Coloring.ColorMap | src/cell.rs:40-47 | `color_map` on the live map: verdict, final map and counter are exactly those of `Search` on the old cells. |
| ColoringFacts.AvailableNoNeighbours | src/cell.rs:151 | A cell without neighbours has all of 0, 1, 2, 3 available, in that order. |
| ColoringFacts.AvailableFrame | src/cell.rs:153-168 | The available colours depend only on the colours that the neighbours currently hold. |
| ColoringFacts.StaleSnapshotIgnoresLiveColour | src/cell.rs:112-126 | The "already coloured" test reads the snapshot. An uncoloured snapshot of a cell without a self-link therefore gives the same visit whether or not the live cell was coloured meanwhile. |
| ColoringFacts.CandidatesIgnoreOwnColour | src/cell.rs:119-126 | The candidate loop overwrites cell `i` before anything reads it, so the colour cell `i` holds on entry does not change the outcome. |
| ColoringFacts.AttemptIsolated | src/cell.rs:108-141 | A visit of an uncoloured cell without links writes colour 3 (the last candidate) and succeeds with exactly one count. |
| ColoringFacts.SearchOneCell | src/cell.rs:40-47 | A one-cell map without links colours with (true, 1), and the cell gets colour 3. |
| ColoringFacts.SearchTwoUnlinkedCells | src/cell.rs:40-47 | On two unlinked cells the search only reaches cell 0, which it colours 3, and returns (true, 1) with cell 1 left uncoloured. Success does not mean every cell is coloured. |
| ColoringFacts.AvailableOfTwo | src/cell.rs:148-170 | For a cell with two neighbours, the available colours are exactly the ascending list of palette colours that neither neighbour holds. |
| ColoringFacts.AvailableOfOne | src/cell.rs:148-170 | The same for a cell with one neighbour. |
| ColoringFacts.AttemptFirstCandidate | src/cell.rs:117-141 | A visit of an uncoloured snapshot writes the last available colour first. When the visits of its neighbours on that map then succeed, the visit ends with exactly their outcome. |
| ColoringFacts.VisitNeighboursStep | src/cell.rs:131-141 | The neighbour loop visits the first snapshot. When that visit succeeds, the loop continues on the rest of the snapshots, with the map and counter that visit left. |
| ColoringFacts.VisitColoured | src/cell.rs:112-141 | When every snapshot is coloured, the neighbour loop succeeds with the map unchanged, counting exactly one visit per snapshot. |
| ColoringFacts.SquareVisitD | src/cell.rs:108-147 | On the four-cycle with a, b, c holding 3, 2, 3, the visit of d takes 2, revisits c and a, and counts three visits. |
| ColoringFacts.SquareRevisitD | src/cell.rs:112-126 | On the finished four-cycle, d entered again from an uncoloured snapshot is searched anew: it takes 2 again and counts three visits. The map does not change. |
| ColoringFacts.SquareVisitC | src/cell.rs:108-147 | On the four-cycle with a, b holding 3, 2, the visit of c takes 3 and, through d, counts five visits. |
| ColoringFacts.SquareVisitB | src/cell.rs:108-147 | On the four-cycle with a holding 3, the visit of b takes 2 and, through c and d, counts seven visits. |
| ColoringFacts.SquareVisitA | src/cell.rs:108-147 | On the uncoloured four-cycle, the visit of a takes 3, the visit of b colours the rest, and d is then searched again from a's stale snapshot: eleven visits. |
| ColoringFacts.SearchSquare | src/cell.rs:40-47 | The search over the four-cycle a-b-c-d-a gives colours 3, 2, 3, 2, succeeds, and counts eleven visits. |
| ColoringFacts.PairVisitSecond | src/cell.rs:108-147 | Of two linked cells with cell 0 holding 3, the visit of cell 1 takes 2, revisits cell 0, and counts two visits. |
| ColoringFacts.PairVisitFirst | src/cell.rs:108-147 | Of two uncoloured linked cells, the visit of cell 0 takes 3, cell 1 takes 2, and three visits are counted. |
| ColoringFacts.SearchTwoLinkedCells | src/cell.rs:40-47 | The search over two linked cells gives colours 3 and 2, succeeds, and counts three visits, the last being the return to the coloured cell 0. |
| NameMaps.ExportPrefix | src/cell.rs:176-183 | After inserting the first `n` cells, the keys are exactly their names. A name maps to the neighbour names of the last of those cells that carries it, because a later insertion overwrites. |
| NameMaps.ExportPrefixStep | src/cell.rs:182 | One insertion keeps that description of the dictionary. |
| NameMaps.Export | src/cell.rs:173-186 | The keys are exactly the cell names. With unique names, each name maps to the names of that cell's neighbours in stored order. |
| NameMaps.FindName | src/cell.rs:201-207 | The position of the first cell with that name, and None exactly when no cell carries it. |
| NameMaps.Resolved | src/cell.rs:200-213 | One in-range position per listed name, and the cell at each position carries that name. |
| NameMaps.ResolveNames | src/cell.rs:200-213 | The inner loop gives None exactly when some listed name matches no cell. Otherwise it gives the first-match position of every name, in order. |
| NameMaps.Rebuilt | src/cell.rs:191-221 | One uncoloured cell per key, in key order, named by its key. Each of its connections is the first cell carrying the corresponding listed name. |
| NameMaps.FindNameInBlank | src/cell.rs:192-207 | Among the cells created from the keys, a name is found exactly when it is a key, and it is found at that key's cell. |
| NameMaps.FindKey | src/cell.rs:192-207 | With distinct keys, the lookup of a key finds the cell created for that key. |
| NameMaps.ImportSpec | src/cell.rs:188-227 | The result is "neighbour not found" exactly when some listed name cannot be resolved. On success the map has one uncoloured cell per key, named by it. Each cell's neighbour names are the listed names in order, and adjacency is symmetric. |
| NameMaps.ImportRefusesUnknownNames | src/cell.rs:200-212 | For every key order, the import returns "neighbour not found" exactly when some key lists a name that is not itself a key. |
| NameMaps.ImportAccepts | src/cell.rs:188-227 | For every key order, the import succeeds exactly when every name listed under a key is itself a key that lists that key back. With `ImportRefusesUnknownNames`, which fixes when the error is "neighbour not found", this also fixes when it is "validation failed": some listed name is a key that does not list its key back. |
| NameMaps.RebuiltLink | src/cell.rs:194-221 | In the rebuilt map, the cell of key `a` links to the cell of key `b` exactly when `b` is listed under `a`. |
| NameMaps.RebuiltSymmetricFromLists | src/cell.rs:194-226 | When every listed name lists its key back, the rebuilt map is symmetric, so it validates. |
| NameMaps.RebuiltListsFromSymmetric | src/cell.rs:194-226 | When the rebuilt map is symmetric, every listed name is a key that lists its key back. |
| NameMaps.AssignConnections | src/cell.rs:219-221 | Every cell gets its own collected connection list. Nothing else changes. |
| NameMaps.Import | src/cell.rs:188-227 | The in-place import succeeds exactly when `ImportSpec` does, builds exactly its map, and fails with exactly its error. |
| NameMaps.ExportOfNamedCells | src/cell.rs:173-186 | A map whose cells are named by the keys, in key order, with the listed neighbour names exports to exactly that dictionary. |
| NameMaps.ImportThenExport | src/cell.rs:173-227 | For every key order, a dictionary that imports successfully exports back to itself. |
| NameMaps.RebuiltFromExportLink | src/cell.rs:173-221 | In the map rebuilt from an export with unique names, the cell for a name has one link per original link, each to the cell with the same neighbour name. |
| NameMaps.RebuiltFromExportLinkBack | src/cell.rs:173-225 | Each link of that rebuilt map, coming from a symmetric original, has its reverse link. |
| NameMaps.RebuiltFromExportSymmetric | src/cell.rs:173-225 | The map rebuilt from the export of a symmetric map with unique names is symmetric, so it validates. |
| NameMaps.ExportResolvable | src/cell.rs:173-213 | Every neighbour name in an export is a key, so the import resolves all of them. |
| NameMaps.ExportThenImport | src/cell.rs:173-227 | For every key order, importing the export of a symmetric map with unique names succeeds, and exporting the result gives the same dictionary. This is the same adjacency by name. |
| NameMaps.NamesAreKeyOrder | src/cell.rs:192 | The cell names in position order are a valid key order for the export of a map with unique names. |
| NameMaps.RebuiltInOrder | src/cell.rs:173-221 | With keys in position order, each rebuilt cell is the original cell with its colour cleared. |
| NameMaps.RebuiltInOrderAll | src/cell.rs:173-221 | With keys in position order, the rebuilt map is the original with every colour cleared. |
| NameMaps.ExportThenImportInOrder | src/cell.rs:173-227 | With keys in position order, importing the export of a symmetric map with unique names gives back exactly the original map with every colour cleared. |

## Left out

- `Map::from_file` (src/cell.rs:60-76): reading a file and parsing TOML is I/O. Its panics on failure are also left out.
- `Cell::color` and `COLORS` (src/cell.rs:6-12, 100-107): the mapping from a palette index to a display colour belongs to the GUI library. The palette index is kept.
- The diagnostic prints at src/cell.rs:53 and 210: output only.
- The whole-map clones at src/cell.rs:125 and 153: they read the same values as the live map, so the model reads the live map. The per-cell snapshots (src/cell.rs:43, 122-126) are kept.
- The visit counter is a `usize` in the program. The model uses an unbounded natural, so overflow is not modelled.
- The dictionary's key order is not modelled as a hash order. It is an arbitrary sequence of the keys, passed in.
- The import collects connection lists in a second dictionary (src/cell.rs:193, 214, 219-221). Here they are a sequence indexed by cell, assigned in ascending order. The positions are distinct, so the order of assignment does not change the result.
- The import's missing-key branch (src/cell.rs:215-216) cannot be taken, because every cell is named after a key. The model asserts that the lookup succeeds and has no error value for it.
- The error strings are not modelled. They become the two values of `ImportError`.
- Serde derives and the GUI scenes (src/scene/, src/app.rs, src/main.rs, src/utility/file.rs) are drawing, file naming and screen changes. Only the two-sided toggle of src/scene/create_links.rs:45-48 is modelled, as `Maps.Map.ToggleEdge`.
- That a successful colouring is proper is not claimed. The available colours are computed once per visit, and a failed candidate does not undo its neighbours' colours. A later candidate can therefore clash with a colour left from an earlier one.
- Coloring.Attempt: the counter is only stated to grow by at least one per visit; it is not stated to equal the number of visits. The exact count is pinned for a single visit of an unlinked cell (`ColoringFacts.AttemptIsolated`) and for the maps worked through in `ColoringFacts`, the four-cycle included (eleven visits).
- Coloring.Search: the count is only stated to be at least one. The exact count is pinned for the maps worked through in `ColoringFacts`.
- Coloring.TryCandidates: that the candidates are tried from the end, and that running out clears cell `i`, are in its definition. Its contract states the consequences: the colour of a success is a candidate, and a failure leaves cell `i` uncoloured.
- Coloring.VisitNeighbours: the count is stated as a lower bound (at least one per snapshot on success), not exactly. That the loop stops at the first failure is in its definition, not its contract.
- No concrete map is worked through in which a colour from a failed candidate survives. The no-undo behaviour is in the definition of `TryCandidates`. Re-entry of a cell coloured by a sibling is stated generally by `ColoringFacts.StaleSnapshotIgnoresLiveColour`, and worked through on the four-cycle (`ColoringFacts.SquareRevisitD`).
- ColoringFacts.StaleSnapshotIgnoresLiveColour: stated only for cells without a link to themselves. The link editor never creates such a link, but an import of a name listing itself can, and that case is not covered.
- Maps.Map.ToggleEdge: requires two distinct positions. The link editor never offers a cell a link to itself (src/scene/create_links.rs:30-32).

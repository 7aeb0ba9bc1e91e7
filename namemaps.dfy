/**
 * The name-keyed form of a map: a dictionary from each cell's name to the
 * names of its neighbours. The export turns a map into that dictionary;
 * the import rebuilds a map from one, resolving every neighbour name to a
 * position and rejecting unknown names and asymmetric adjacency.
 */
module NameMaps {
  import opened Wrappers
  import opened Cells
  import opened Maps

  /** A dictionary from a cell name to the names of its neighbours. */
  type NameMap = map<string, seq<string>>

  /** The names of the cells at positions `conns`, in stored order. */
  function NeighbourNames(cells: seq<Cell>, conns: seq<nat>): seq<string>
    requires LinksWithin(conns, |cells|)
  {
    seq(|conns|, p requires 0 <= p < |conns| => cells[conns[p]].name)
  }

  /** No two cells share a name. */
  predicate UniqueNames(cells: seq<Cell>)
  {
    forall a, b :: 0 <= a < b < |cells| ==> cells[a].name != cells[b].name
  }

  /**
   * The dictionary after the export has inserted the first `n` cells: every
   * name among them is a key, and a name maps to the neighbour names of the
   * last of those cells that carries it (a later insertion overwrites).
   */
  function ExportPrefix(cells: seq<Cell>, n: nat): (r: NameMap)
    requires Linked(cells) && n <= |cells|
    ensures forall name :: name in r <==> exists k :: 0 <= k < n && cells[k].name == name
    ensures forall k :: 0 <= k < n && (forall k' :: k < k' < n ==> cells[k'].name != cells[k].name) ==>
              r[cells[k].name] == NeighbourNames(cells, cells[k].connections)
  {
    if n == 0 then map[]
    else
      var r := ExportPrefix(cells, n - 1)[cells[n - 1].name := NeighbourNames(cells, cells[n - 1].connections)];
      ExportPrefixStep(cells, n, ExportPrefix(cells, n - 1), r);
      r
  }

  /** One insertion of the export keeps the description of `ExportPrefix`. */
  lemma ExportPrefixStep(cells: seq<Cell>, n: nat, prev: NameMap, r: NameMap)
    requires Linked(cells) && 0 < n <= |cells|
    requires forall name :: name in prev <==> exists k :: 0 <= k < n - 1 && cells[k].name == name
    requires forall k :: 0 <= k < n - 1 && (forall k' :: k < k' < n - 1 ==> cells[k'].name != cells[k].name) ==>
               prev[cells[k].name] == NeighbourNames(cells, cells[k].connections)
    requires r == prev[cells[n - 1].name := NeighbourNames(cells, cells[n - 1].connections)]
    ensures forall name :: name in r <==> exists k :: 0 <= k < n && cells[k].name == name
    ensures forall k :: 0 <= k < n && (forall k' :: k < k' < n ==> cells[k'].name != cells[k].name) ==>
              r[cells[k].name] == NeighbourNames(cells, cells[k].connections)
  {
    forall name
      ensures name in r <==> exists k :: 0 <= k < n && cells[k].name == name
    {
      if name == cells[n - 1].name {
        assert name in r;
      }
    }
    forall k | 0 <= k < n && (forall k' :: k < k' < n ==> cells[k'].name != cells[k].name)
      ensures r[cells[k].name] == NeighbourNames(cells, cells[k].connections)
    {
      if k < n - 1 {
        assert cells[n - 1].name != cells[k].name;
      }
    }
  }

  /**
   * `From<Map> for HashMap`: the keys are exactly the cell names; when the
   * names are unique, each maps to the names of that cell's neighbours in
   * stored order.
   */
  function Export(cells: seq<Cell>): (r: NameMap)
    requires Linked(cells)
    ensures forall name :: name in r <==> exists k :: 0 <= k < |cells| && cells[k].name == name
    ensures UniqueNames(cells) ==>
              forall k :: 0 <= k < |cells| ==> r[cells[k].name] == NeighbourNames(cells, cells[k].connections)
  {
    ExportPrefix(cells, |cells|)
  }

  /** Why an import is refused. */
  datatype ImportError =
    | NeighbourNotFound   // a neighbour name is not a key
    | ValidationFailed    // the rebuilt map is not symmetric

  /**
   * `keys` is the order in which the dictionary yields its keys: each key
   * exactly once. The order itself is unspecified, so every lemma below
   * holds for all of them.
   */
  ghost predicate KeyOrder(inp: NameMap, keys: seq<string>)
  {
    && (forall a, b :: 0 <= a < b < |keys| ==> keys[a] != keys[b])
    && (forall name :: name in inp <==> name in keys)
  }

  /** The position of the first cell named `name`, if there is one. */
  function FindName(cells: seq<Cell>, name: string): (r: Option<nat>)
    ensures r.Some? ==> r.value < |cells| && cells[r.value].name == name
    ensures r.Some? ==> forall j :: 0 <= j < r.value ==> cells[j].name != name
    ensures r.None? <==> forall j :: 0 <= j < |cells| ==> cells[j].name != name
  {
    if |cells| == 0 then None
    else if cells[0].name == name then Some(0)
    else
      match FindName(cells[1..], name)
      case None => None
      case Some(j) => Some(j + 1)
  }

  /** Every neighbour name listed for every key names some cell of `cells`. */
  predicate Resolvable(cells: seq<Cell>, inp: NameMap, keys: seq<string>)
    requires KeyOrder(inp, keys)
  {
    forall k, p :: 0 <= k < |keys| && 0 <= p < |inp[keys[k]]| ==>
      FindName(cells, inp[keys[k]][p]).Some?
  }

  /** The positions of the first cells carrying the names `names`. */
  function Resolved(cells: seq<Cell>, names: seq<string>): (r: seq<nat>)
    requires forall p :: 0 <= p < |names| ==> FindName(cells, names[p]).Some?
    ensures |r| == |names| && LinksWithin(r, |cells|)
    ensures forall p :: 0 <= p < |names| ==> cells[r[p]].name == names[p]
  {
    seq(|names|, p requires 0 <= p < |names| => FindName(cells, names[p]).value)
  }

  /**
   * The map the import builds before validating it: one uncoloured cell per
   * key, in key order, whose connections resolve its neighbour names.
   */
  function Rebuilt(inp: NameMap, keys: seq<string>): (r: seq<Cell>)
    requires KeyOrder(inp, keys) && Resolvable(NewCells(keys), inp, keys)
    ensures |r| == |keys| && Linked(r)
    ensures forall k :: 0 <= k < |keys| ==> r[k].name == keys[k] && r[k].color.None?
    ensures forall k :: 0 <= k < |keys| ==> |r[k].connections| == |inp[keys[k]]|
    ensures forall k, p :: 0 <= k < |keys| && 0 <= p < |r[k].connections| ==>
              FindName(NewCells(keys), inp[keys[k]][p]) == Some(r[k].connections[p])
  {
    var blank := NewCells(keys);
    seq(|keys|, k requires 0 <= k < |keys| =>
      assert forall p :: 0 <= p < |inp[keys[k]]| ==> FindName(blank, inp[keys[k]][p]).Some?;
      Cell(keys[k], Resolved(blank, inp[keys[k]]), None))
  }

  /** A name is among the cells the import starts from exactly when it is a key. */
  lemma FindNameInBlank(inp: NameMap, keys: seq<string>, name: string)
    requires KeyOrder(inp, keys)
    ensures FindName(NewCells(keys), name).Some? <==> name in inp
    ensures name in inp ==> keys[FindName(NewCells(keys), name).value] == name
  {
    var blank := NewCells(keys);
    if name in inp {
      var a :| 0 <= a < |keys| && keys[a] == name;
      assert blank[a].name == name;
    }
  }

  /**
   * `TryFrom<HashMap> for Map`, as a value: an unknown neighbour name is
   * refused; otherwise the rebuilt map is returned when it validates. On
   * success every cell is uncoloured, carries its key as name, and its
   * neighbours' names are, in order, the names listed for that key; the
   * result is symmetric.
   */
  function ImportSpec(inp: NameMap, keys: seq<string>): (r: Result<seq<Cell>, ImportError>)
    requires KeyOrder(inp, keys)
    ensures r == Failure(NeighbourNotFound) <==> !Resolvable(NewCells(keys), inp, keys)
    ensures r.Success? ==> |r.value| == |keys| && Linked(r.value) && Symmetric(r.value)
    ensures r.Success? ==> forall k :: 0 <= k < |keys| ==>
              r.value[k].name == keys[k] && r.value[k].color.None? &&
              NeighbourNames(r.value, r.value[k].connections) == inp[keys[k]]
  {
    if !Resolvable(NewCells(keys), inp, keys) then Failure(NeighbourNotFound)
    else
      var cells := Rebuilt(inp, keys);
      assert forall k :: 0 <= k < |keys| ==> NeighbourNames(cells, cells[k].connections) == inp[keys[k]];
      if Validate(cells) then Success(cells) else Failure(ValidationFailed)
  }

  /**
   * The import refuses with `NeighbourNotFound` exactly when some key lists
   * a neighbour name that is not itself a key, whatever the key order.
   */
  lemma ImportRefusesUnknownNames(inp: NameMap, keys: seq<string>)
    requires KeyOrder(inp, keys)
    ensures ImportSpec(inp, keys) == Failure(NeighbourNotFound) <==>
              exists key, name :: key in inp && name in inp[key] && name !in inp
  {
    if !Resolvable(NewCells(keys), inp, keys) {
      var k, p :| 0 <= k < |keys| && 0 <= p < |inp[keys[k]]| &&
                  FindName(NewCells(keys), inp[keys[k]][p]).None?;
      FindNameInBlank(inp, keys, inp[keys[k]][p]);
      assert keys[k] in inp && inp[keys[k]][p] in inp[keys[k]];
    }
    if exists key, name :: key in inp && name in inp[key] && name !in inp {
      var key, name :| key in inp && name in inp[key] && name !in inp;
      var k :| 0 <= k < |keys| && keys[k] == key;
      var p :| 0 <= p < |inp[key]| && inp[key][p] == name;
      FindNameInBlank(inp, keys, name);
    }
  }

  /** Every listed neighbour name is a key, and every neighbour lists the key back. */
  predicate MutuallyListed(inp: NameMap)
  {
    forall key, name :: key in inp && name in inp[key] ==> name in inp && key in inp[name]
  }

  /**
   * In the map the import rebuilds, cell `b` is a neighbour of cell `a`
   * exactly when the key of `b` is among the names listed for the key of `a`.
   */
  lemma RebuiltLink(inp: NameMap, keys: seq<string>, rb: seq<Cell>, a: nat, b: nat)
    requires KeyOrder(inp, keys) && Resolvable(NewCells(keys), inp, keys)
    requires rb == Rebuilt(inp, keys) && a < |keys| && b < |keys|
    ensures b in rb[a].connections <==> keys[b] in inp[keys[a]]
  {
    var blank := NewCells(keys);
    if b in rb[a].connections {
      var p :| 0 <= p < |rb[a].connections| && rb[a].connections[p] == b;
      assert blank[b].name == keys[b];
      assert inp[keys[a]][p] == keys[b];
    }
    if keys[b] in inp[keys[a]] {
      var p :| 0 <= p < |inp[keys[a]]| && inp[keys[a]][p] == keys[b];
      FindKey(keys, b);
      assert rb[a].connections[p] == b;
    }
  }

  /**
   * The import succeeds exactly when every listed neighbour name is a key
   * and every neighbour lists the key back, whatever the key order.
   */
  lemma ImportAccepts(inp: NameMap, keys: seq<string>)
    requires KeyOrder(inp, keys)
    ensures ImportSpec(inp, keys).Success? <==> MutuallyListed(inp)
  {
    if !Resolvable(NewCells(keys), inp, keys) {
      ImportRefusesUnknownNames(inp, keys);
      var key, name :| key in inp && name in inp[key] && name !in inp;
    } else {
      var rb := Rebuilt(inp, keys);
      RebuiltSymmetricFromLists(inp, keys, rb);
      RebuiltListsFromSymmetric(inp, keys, rb);
    }
  }

  /** Mutually listed names give a symmetric rebuilt map. */
  lemma RebuiltSymmetricFromLists(inp: NameMap, keys: seq<string>, rb: seq<Cell>)
    requires KeyOrder(inp, keys) && Resolvable(NewCells(keys), inp, keys)
    requires rb == Rebuilt(inp, keys)
    ensures MutuallyListed(inp) ==> Symmetric(rb)
  {
    if MutuallyListed(inp) {
      forall a, b | 0 <= a < |rb| && b in rb[a].connections
        ensures a in rb[b].connections
      {
        assert b < |rb|;
        RebuiltLink(inp, keys, rb, a, b);
        assert keys[a] in inp && keys[b] in inp[keys[a]];
        RebuiltLink(inp, keys, rb, b, a);
      }
    }
  }

  /** A symmetric rebuilt map comes from mutually listed names. */
  lemma RebuiltListsFromSymmetric(inp: NameMap, keys: seq<string>, rb: seq<Cell>)
    requires KeyOrder(inp, keys) && Resolvable(NewCells(keys), inp, keys)
    requires rb == Rebuilt(inp, keys)
    ensures Symmetric(rb) ==> MutuallyListed(inp)
  {
    if Symmetric(rb) {
      forall key, name | key in inp && name in inp[key]
        ensures name in inp && key in inp[name]
      {
        var a :| 0 <= a < |keys| && keys[a] == key;
        var p :| 0 <= p < |inp[key]| && inp[key][p] == name;
        assert FindName(NewCells(keys), inp[keys[a]][p]).Some?;
        FindNameInBlank(inp, keys, name);
        var b :| 0 <= b < |keys| && keys[b] == name;
        RebuiltLink(inp, keys, rb, a, b);
        RebuiltLink(inp, keys, rb, b, a);
      }
    }
  }

  /**
   * The inner loop of the import: resolve each neighbour name in order to
   * the first cell carrying it, giving up at the first name that no cell
   * carries.
   */
  method ResolveNames(cells: seq<Cell>, names: seq<string>) returns (v: Option<seq<nat>>)
    ensures v.None? <==> exists q :: 0 <= q < |names| && FindName(cells, names[q]).None?
    ensures v.Some? ==> v.value == Resolved(cells, names)
  {
    var found: seq<nat> := [];
    for p := 0 to |names|
      invariant |found| == p
      invariant forall q :: 0 <= q < p ==> FindName(cells, names[q]) == Some(found[q])
    {
      var ind := FindName(cells, names[p]);
      if ind.None? {
        return None;
      }
      found := found + [ind.value];
    }
    return Some(found);
  }

  /** The last loop of the import: cell `i` gets the connection list `cons[i]`, for every `i`. */
  method AssignConnections(m: Map, cons: seq<seq<nat>>)
    requires |cons| == |m.cells|
    modifies m
    ensures |m.cells| == |cons|
    ensures forall j :: 0 <= j < |cons| ==> m.cells[j] == old(m.cells[j]).(connections := cons[j])
  {
    for i := 0 to |cons|
      invariant |m.cells| == |cons|
      invariant forall j :: 0 <= j < |cons| ==>
                  m.cells[j] == if j < i then old(m.cells[j]).(connections := cons[j]) else old(m.cells[j])
    {
      m.cells := m.cells[i := m.cells[i].(connections := cons[i])];
    }
  }

  /**
   * `TryFrom<HashMap> for Map`: add one cell per key in the dictionary's key
   * order, collect every cell's resolved connections (stopping at the first
   * unknown name), assign them, and validate. It returns exactly what
   * `ImportSpec` describes. The lookup of a cell's own name always finds it,
   * since the cells were named after the keys.
   */
  method Import(inp: NameMap, keys: seq<string>) returns (r: Result<Map, ImportError>)
    requires KeyOrder(inp, keys)
    ensures r.Success? <==> ImportSpec(inp, keys).Success?
    ensures r.Success? ==> r.value.cells == ImportSpec(inp, keys).value
    ensures r.Failure? ==> r.error == ImportSpec(inp, keys).error
  {
    var m := new Map();
    m.AddNames(keys);
    assert m.cells == NewCells(keys);
    ghost var blank := m.cells;
    var cons: seq<seq<nat>> := [];
    for k := 0 to |m.cells|
      invariant m.cells == blank && |cons| == k
      invariant forall j, p :: 0 <= j < k && 0 <= p < |inp[keys[j]]| ==>
                  FindName(blank, inp[keys[j]][p]).Some?
      invariant forall j :: 0 <= j < k ==> cons[j] == Resolved(blank, inp[keys[j]])
    {
      var name := m.cells[k].name;
      assert name == keys[k] && name in inp;
      var v := ResolveNames(m.cells, inp[name]);
      if v.None? {
        assert !Resolvable(blank, inp, keys);
        r := Failure(NeighbourNotFound);
        assert ImportSpec(inp, keys) == Failure(NeighbourNotFound);
        return;
      }
      cons := cons + [v.value];
    }
    assert Resolvable(blank, inp, keys);
    AssignConnections(m, cons);
    assert m.cells == Rebuilt(inp, keys);
    if !Validate(m.cells) {
      r := Failure(ValidationFailed);
      assert ImportSpec(inp, keys) == Failure(ValidationFailed);
      return;
    }
    r := Success(m);
    assert ImportSpec(inp, keys) == Success(r.value.cells);
  }

  /** Among cells named after distinct keys, a key's first cell is its own position. */
  lemma FindKey(keys: seq<string>, a: nat)
    requires forall x, y :: 0 <= x < y < |keys| ==> keys[x] != keys[y]
    requires a < |keys|
    ensures FindName(NewCells(keys), keys[a]) == Some(a)
  {
    var blank := NewCells(keys);
    assert blank[a].name == keys[a];
  }

  /**
   * A map whose cells carry the keys as names, in key order, and whose
   * neighbour names are those the dictionary lists exports to that
   * dictionary.
   */
  lemma ExportOfNamedCells(inp: NameMap, keys: seq<string>, cells: seq<Cell>)
    requires KeyOrder(inp, keys) && Linked(cells) && |cells| == |keys|
    requires forall k :: 0 <= k < |keys| ==>
               cells[k].name == keys[k] && NeighbourNames(cells, cells[k].connections) == inp[keys[k]]
    ensures Export(cells) == inp
  {
    var e := Export(cells);
    assert UniqueNames(cells);
    forall name
      ensures name in e <==> name in inp
    {
      if name in inp {
        var k :| 0 <= k < |keys| && keys[k] == name;
        assert cells[k].name == name;
      }
    }
    forall name | name in inp
      ensures e[name] == inp[name]
    {
      var k :| 0 <= k < |keys| && keys[k] == name;
      assert cells[k].name == name;
      assert e[name] == NeighbourNames(cells, cells[k].connections);
    }
  }

  /**
   * Exporting what an import produced gives back the dictionary it was
   * imported from, whatever the key order.
   */
  lemma ImportThenExport(inp: NameMap, keys: seq<string>)
    requires KeyOrder(inp, keys) && ImportSpec(inp, keys).Success?
    ensures Export(ImportSpec(inp, keys).value) == inp
  {
    ExportOfNamedCells(inp, keys, ImportSpec(inp, keys).value);
  }

  /**
   * In the map an import rebuilds from an export with unique names, the
   * cell for the name of cell `c` has one link per link of `c`, each to the
   * cell for the same neighbour name.
   */
  lemma RebuiltFromExportLink(cells: seq<Cell>, keys: seq<string>, a: nat, c: nat)
    requires Linked(cells) && UniqueNames(cells)
    requires KeyOrder(Export(cells), keys) && Resolvable(NewCells(keys), Export(cells), keys)
    requires a < |keys| && c < |cells| && cells[c].name == keys[a]
    ensures |Rebuilt(Export(cells), keys)[a].connections| == |cells[c].connections|
    ensures forall p :: 0 <= p < |cells[c].connections| ==>
              keys[Rebuilt(Export(cells), keys)[a].connections[p]] == cells[cells[c].connections[p]].name
  {
    var inp := Export(cells);
    var rb := Rebuilt(inp, keys);
    assert inp[keys[a]] == NeighbourNames(cells, cells[c].connections);
    forall p | 0 <= p < |cells[c].connections|
      ensures keys[rb[a].connections[p]] == cells[cells[c].connections[p]].name
    {
      assert NewCells(keys)[rb[a].connections[p]].name == keys[rb[a].connections[p]];
    }
  }

  /**
   * One link of the map `rb` an import rebuilds from the export of a
   * symmetric map with unique names has its reverse link.
   */
  lemma RebuiltFromExportLinkBack(cells: seq<Cell>, keys: seq<string>, rb: seq<Cell>, a: nat, p: nat)
    requires Linked(cells) && Symmetric(cells) && UniqueNames(cells)
    requires KeyOrder(Export(cells), keys) && Resolvable(NewCells(keys), Export(cells), keys)
    requires rb == Rebuilt(Export(cells), keys)
    requires a < |rb| && p < |rb[a].connections|
    ensures rb[a].connections[p] < |rb| && a in rb[rb[a].connections[p]].connections
  {
    var b := rb[a].connections[p];
    assert keys[a] in keys && keys[b] in keys;
    var ca :| 0 <= ca < |cells| && cells[ca].name == keys[a];
    RebuiltFromExportLink(cells, keys, a, ca);
    var d := cells[ca].connections[p];
    assert keys[b] == cells[d].name;
    assert ca in cells[d].connections by {
      assert d in cells[ca].connections;
    }
    var q :| 0 <= q < |cells[d].connections| && cells[d].connections[q] == ca;
    RebuiltFromExportLink(cells, keys, b, d);
    var x := rb[b].connections[q];
    assert x < |keys| by {
      assert LinksWithin(rb[b].connections, |rb|);
    }
    assert keys[x] == keys[a];
    assert x == a;
  }

  /**
   * The map an import rebuilds from the export of a symmetric map with
   * unique names is symmetric again, so it validates.
   */
  lemma RebuiltFromExportSymmetric(cells: seq<Cell>, keys: seq<string>)
    requires Linked(cells) && Symmetric(cells) && UniqueNames(cells)
    requires KeyOrder(Export(cells), keys) && Resolvable(NewCells(keys), Export(cells), keys)
    ensures Symmetric(Rebuilt(Export(cells), keys))
  {
    var rb := Rebuilt(Export(cells), keys);
    forall a, b | 0 <= a < |rb| && b in rb[a].connections
      ensures a in rb[b].connections
    {
      var p :| 0 <= p < |rb[a].connections| && rb[a].connections[p] == b;
      RebuiltFromExportLinkBack(cells, keys, rb, a, p);
    }
  }

  /**
   * Importing the export of a symmetric map with unique names succeeds for
   * every key order, and exporting the result gives the same dictionary.
   */
  lemma ExportThenImport(cells: seq<Cell>, keys: seq<string>)
    requires Linked(cells) && Symmetric(cells) && UniqueNames(cells)
    requires KeyOrder(Export(cells), keys)
    ensures ImportSpec(Export(cells), keys).Success?
    ensures Export(ImportSpec(Export(cells), keys).value) == Export(cells)
  {
    ExportResolvable(cells, keys);
    RebuiltFromExportSymmetric(cells, keys);
    ImportThenExport(Export(cells), keys);
  }

  /** Every neighbour name in an export is a key of it, so the import resolves them all. */
  lemma ExportResolvable(cells: seq<Cell>, keys: seq<string>)
    requires Linked(cells) && UniqueNames(cells)
    requires KeyOrder(Export(cells), keys)
    ensures Resolvable(NewCells(keys), Export(cells), keys)
  {
    var inp := Export(cells);
    forall k, p | 0 <= k < |keys| && 0 <= p < |inp[keys[k]]|
      ensures FindName(NewCells(keys), inp[keys[k]][p]).Some?
    {
      assert keys[k] in keys;
      var c :| 0 <= c < |cells| && cells[c].name == keys[k];
      assert inp[keys[k]] == NeighbourNames(cells, cells[c].connections);
      var d := cells[c].connections[p];
      assert inp[keys[k]][p] == cells[d].name;
      FindNameInBlank(inp, keys, cells[d].name);
    }
  }


  /** The cell names in position order: the key order that follows the map. */
  function Names(cells: seq<Cell>): seq<string>
  {
    seq(|cells|, k requires 0 <= k < |cells| => cells[k].name)
  }

  /** The map with every colour cleared. */
  function Uncoloured(cells: seq<Cell>): seq<Cell>
  {
    seq(|cells|, k requires 0 <= k < |cells| => cells[k].(color := None))
  }

  /** The names in position order list every key of the export once. */
  lemma NamesAreKeyOrder(cells: seq<Cell>)
    requires Linked(cells) && UniqueNames(cells)
    ensures KeyOrder(Export(cells), Names(cells))
  {
    var keys := Names(cells);
    var inp := Export(cells);
    forall name
      ensures name in inp <==> name in keys
    {
      if name in inp {
        var k :| 0 <= k < |cells| && cells[k].name == name;
        assert keys[k] == name;
      }
    }
  }

  /** With keys in position order, the import rebuilds each cell of an exported map as it was, uncoloured. */
  lemma RebuiltInOrder(cells: seq<Cell>, k: nat)
    requires Linked(cells) && UniqueNames(cells) && k < |cells|
    requires KeyOrder(Export(cells), Names(cells))
    requires Resolvable(NewCells(Names(cells)), Export(cells), Names(cells))
    ensures Rebuilt(Export(cells), Names(cells))[k] == cells[k].(color := None)
  {
    var keys := Names(cells);
    var inp := Export(cells);
    var r := Rebuilt(inp, keys);
    assert inp[keys[k]] == NeighbourNames(cells, cells[k].connections);
    forall p | 0 <= p < |cells[k].connections|
      ensures r[k].connections[p] == cells[k].connections[p]
    {
      FindKey(keys, cells[k].connections[p]);
    }
    assert r[k].connections == cells[k].connections;
  }

  /**
   * When the keys come in position order, importing the export of a
   * symmetric map with unique names gives back the map itself with every
   * colour cleared: the dictionary form does not carry colours.
   */
  lemma ExportThenImportInOrder(cells: seq<Cell>)
    requires Linked(cells) && Symmetric(cells) && UniqueNames(cells)
    ensures KeyOrder(Export(cells), Names(cells))
    ensures ImportSpec(Export(cells), Names(cells)) == Success(Uncoloured(cells))
  {
    NamesAreKeyOrder(cells);
    ExportResolvable(cells, Names(cells));
    RebuiltFromExportSymmetric(cells, Names(cells));
    RebuiltInOrderAll(cells);
  }

  /** With keys in position order, the import rebuilds an exported map as it was, uncoloured. */
  lemma RebuiltInOrderAll(cells: seq<Cell>)
    requires Linked(cells) && UniqueNames(cells)
    requires KeyOrder(Export(cells), Names(cells))
    requires Resolvable(NewCells(Names(cells)), Export(cells), Names(cells))
    ensures Rebuilt(Export(cells), Names(cells)) == Uncoloured(cells)
  {
    var r := Rebuilt(Export(cells), Names(cells));
    forall k | 0 <= k < |cells|
      ensures r[k] == Uncoloured(cells)[k]
    {
      RebuiltInOrder(cells, k);
    }
    assert |r| == |Uncoloured(cells)|;
  }

}

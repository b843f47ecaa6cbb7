/** The map: a grid of cells plus the catalog of tile definitions the cells
    refer to, and the read-only view the serialiser consumes. */
module Maps {
  import opened Basics
  import opened TileDefinitions
  import opened Tiles

  const DefaultWidth: u16 := 40
  const DefaultHeight: u16 := 40

  /** The asset path of the null tile; note the trailing space. */
  const NullPath := "data/tiles/null "

  /** The built-in id-0 definition every map's catalog starts with. */
  const Null := TileDefinition(0, None, Some(NullPath), Some(Black))

  /** A map. The catalog is kept in insertion order, which is the order the
      definitions are enumerated (and saved) in. */
  datatype Map = Map(
    width: u16,
    height: u16,
    grid: Grid,
    catalog: seq<TileDefinition>,
    name: Option<string>,
    filePath: Option<string>)

  function Ids(catalog: seq<TileDefinition>): (ids: seq<int>)
    ensures |ids| == |catalog| && forall k :: 0 <= k < |catalog| ==> ids[k] == catalog[k].id
  {
    seq(|catalog|, k requires 0 <= k < |catalog| => catalog[k].id)
  }

  predicate UniqueIds(catalog: seq<TileDefinition>) {
    forall k, l :: 0 <= k < l < |catalog| ==> catalog[k].id != catalog[l].id
  }

  /** The catalog is keyed by id, always holds Null first, and holds each id
      at most once. */
  predicate CatalogValid(catalog: seq<TileDefinition>) {
    |catalog| > 0 && catalog[0] == Null && UniqueIds(catalog)
  }

  /** Every cell refers to a definition of the catalog. */
  predicate CellsDefined(g: Grid, catalog: seq<TileDefinition>) {
    forall i, j :: 0 <= i < |g| && 0 <= j < |g[i]| ==> g[i][j] in Ids(catalog)
  }

  /** The invariant every map the editor builds keeps. */
  predicate Valid(m: Map) {
    && Rectangular(m.grid, m.width, m.height)
    && CatalogValid(m.catalog)
    && CellsDefined(m.grid, m.catalog)
  }

  /** Dictionary lookup in the catalog. */
  function Lookup(catalog: seq<TileDefinition>, id: int): (r: Option<TileDefinition>)
    ensures r.Some? <==> id in Ids(catalog)
    ensures r.Some? ==> r.value.id == id && r.value in catalog
    ensures r.Some? && UniqueIds(catalog) ==>
      forall k :: 0 <= k < |catalog| && catalog[k].id == id ==> catalog[k] == r.value
    decreases |catalog|
  {
    if |catalog| == 0 then None
    else if catalog[|catalog| - 1].id == id then Some(catalog[|catalog| - 1])
    else
      var prefix := catalog[..|catalog| - 1];
      assert Ids(catalog) == Ids(prefix) + [catalog[|catalog| - 1].id];
      Lookup(prefix, id)
  }

  /** Map(width, height): `height` rows of `width` Null cells and a catalog
      holding only Null. No positivity check is made. */
  function NewMap(w: u16, h: u16): (m: Map)
    ensures Valid(m) && m.width == w && m.height == h
    ensures forall i, j :: 0 <= i < |m.grid| && 0 <= j < |m.grid[i]| ==> m.grid[i][j] == Null.id
    ensures forall id :: Lookup(m.catalog, id) == (if id == Null.id then Some(Null) else None)
    ensures m.name.None? && m.filePath.None?
  {
    Map(w, h, Filled(w, h, Null.id), [Null], None, None)
  }

  /** The parameterless constructor: a 40 by 40 map of Null cells. */
  function DefaultMap(): (m: Map)
    ensures Valid(m) && m.width == 40 && m.height == 40
    ensures |m.grid| == 40 && forall i :: 0 <= i < 40 ==> m.grid[i] == seq(40, _ => Null.id)
  {
    NewMap(DefaultWidth, DefaultHeight)
  }

  /** GetTileDefinition: the catalog entry for `id`, or null. */
  function GetTileDefinition(m: Map, id: int): (r: Option<TileDefinition>)
    ensures r.Some? <==> exists k :: 0 <= k < |m.catalog| && m.catalog[k].id == id
    ensures r.Some? ==> r.value.id == id && r.value in m.catalog
  {
    Lookup(m.catalog, id)
  }

  /** Dictionary.Add of a definition whose id is not yet present. */
  function AddDefinition(m: Map, d: TileDefinition): (r: Map)
    requires d.id !in Ids(m.catalog)
    requires Valid(m)
    ensures Valid(r)
    ensures Lookup(r.catalog, d.id) == Some(d)
    ensures forall id :: id != d.id ==> Lookup(r.catalog, id) == Lookup(m.catalog, id)
    ensures r.grid == m.grid && r.width == m.width && r.height == m.height
  {
    var r := m.(catalog := m.catalog + [d]);
    assert Ids(r.catalog) == Ids(m.catalog) + [d.id];
    r
  }

  /** The Width setter: an auto-property, so the grid is not resized. */
  function SetWidth(m: Map, w: u16): (r: Map)
    ensures r.width == w && r.height == m.height
    ensures r.grid == m.grid && r.catalog == m.catalog
    ensures r.name == m.name && r.filePath == m.filePath
  {
    m.(width := w)
  }

  /** The Height setter: an auto-property, so the grid is not resized. */
  function SetHeight(m: Map, h: u16): (r: Map)
    ensures r.height == h && r.width == m.width
    ensures r.grid == m.grid && r.catalog == m.catalog
    ensures r.name == m.name && r.filePath == m.filePath
  {
    m.(height := h)
  }

  /** The read-only map interface the serialiser consumes: dimensions, the
      definitions in enumeration order, and the grid as rows of
      definitions. */
  datatype MapView = MapView(
    width: u16,
    height: u16,
    name: Option<string>,
    filePath: Option<string>,
    definitions: seq<TileDefinition>,
    rows: seq<seq<TileDefinition>>)

  /** The definitions a grid's cells refer to, row by row. */
  function DefinitionRows(g: Grid, catalog: seq<TileDefinition>): (rows: seq<seq<TileDefinition>>)
    requires CellsDefined(g, catalog)
    ensures |rows| == |g|
    ensures forall i :: 0 <= i < |g| ==> |rows[i]| == |g[i]|
    ensures forall i, j :: 0 <= i < |g| && 0 <= j < |g[i]| ==>
      rows[i][j].id == g[i][j] && Lookup(catalog, g[i][j]) == Some(rows[i][j])
  {
    seq(|g|, i requires 0 <= i < |g| =>
      seq(|g[i]|, j requires 0 <= j < |g[i]| => Lookup(catalog, g[i][j]).value))
  }

  /** The map seen through the read-only interface: the catalog's values
      and the grid's definitions row-major. */
  function Project(m: Map): (v: MapView)
    requires CellsDefined(m.grid, m.catalog)
    ensures v.width == m.width && v.height == m.height
    ensures v.definitions == m.catalog
    ensures |v.rows| == |m.grid|
    ensures forall i :: 0 <= i < |m.grid| ==> |v.rows[i]| == |m.grid[i]|
    ensures forall i, j :: 0 <= i < |m.grid| && 0 <= j < |m.grid[i]| ==>
      v.rows[i][j].id == m.grid[i][j] && v.rows[i][j] in m.catalog
  {
    MapView(m.width, m.height, m.name, m.filePath, m.catalog, DefinitionRows(m.grid, m.catalog))
  }
}

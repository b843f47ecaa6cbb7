/** The editor's view of a map: a copy of its dimensions, catalog and grid
    that keeps the grid rectangular when the dimensions change, and the
    window title built from the map's name. */
module MapViewModels {
  import opened Basics
  import opened TileDefinitions
  import opened Tiles
  import opened Maps
  import FileOps
  import RoundTrip

  /** The window title when no map name is shown. */
  const DefaultTitle := "CrapEditor"

  /** The view model's state. Cells are catalog ids, as in the map. */
  datatype Editor = Editor(
    width: u16,
    height: u16,
    name: Option<string>,
    filePath: Option<string>,
    definitions: seq<TileDefinition>,
    grid: Grid,
    currentTile: TileDefinition)

  /** The constructor: dimensions, name and path copied from the map, the
      catalog's values in enumeration order, the rows copied in order, and
      the first definition as the drawing tile. The map must have at least
      one definition (indexing an empty collection throws). */
  function FromMap(m: Map): (e: Editor)
    requires |m.catalog| > 0
  {
    Editor(m.width, m.height, m.name, m.filePath, m.catalog, m.grid, m.catalog[0])
  }

  // ---------------------------------------------------------------------
  // Resizing
  // ---------------------------------------------------------------------

  /** A list cut or padded to `count` elements; padding is `fill`. */
  function Resized<T>(s: seq<T>, count: nat, fill: T): (r: seq<T>)
    ensures |r| == count
    ensures forall i :: 0 <= i < count && i < |s| ==> r[i] == s[i]
    ensures forall i :: |s| <= i < count ==> r[i] == fill
  {
    if |s| >= count then s[..count] else s + seq(count - |s|, _ => fill)
  }

  /** ResizeList: drop the last element while the list is too long,
      otherwise append `fill` while it is too short. */
  method ResizeList<T>(s: seq<T>, count: nat, fill: T) returns (r: seq<T>)
    ensures r == Resized(s, count, fill)
  {
    r := s;
    if |r| > count {
      while |r| > count
        invariant count <= |r| <= |s| && r == s[..|r|]
        decreases |r|
      {
        r := r[..|r| - 1];
      }
    } else {
      while |r| < count
        invariant |s| <= |r| <= count
        invariant r[..|s|] == s
        invariant forall i :: |s| <= i < |r| ==> r[i] == fill
        decreases count - |r|
      {
        r := r + [fill];
      }
    }
  }

  /** The cell of the resized grid at (i, j): the old cell when it existed,
      otherwise Null. */
  function CellAfterResize(g: Grid, i: nat, j: nat): int {
    if i < |g| && j < |g[i]| then g[i][j] else Null.id
  }

  /** UpdateMapData: the rows are cut or padded (with empty rows) to
      `height`, then every row of the wrong length is cut or padded (with
      Null tiles) to `width`. */
  function UpdateMapData(e: Editor): (r: Editor)
    ensures r == e.(grid := r.grid)
    ensures Rectangular(r.grid, e.width, e.height)
    ensures forall i, j :: 0 <= i < |r.grid| && 0 <= j < |r.grid[i]| ==>
      r.grid[i][j] == CellAfterResize(e.grid, i, j)
  {
    var rows := if |e.grid| != e.height as int then Resized(e.grid, e.height as nat, []) else e.grid;
    var g := seq(|rows|, i requires 0 <= i < |rows| =>
      if |rows[i]| != e.width as int then Resized(rows[i], e.width as nat, Null.id) else rows[i]);
    assert forall i, j :: 0 <= i < |g| && 0 <= j < |g[i]| ==> g[i][j] == CellAfterResize(e.grid, i, j) by {
      forall i, j | 0 <= i < |g| && 0 <= j < |g[i]|
        ensures g[i][j] == CellAfterResize(e.grid, i, j)
      {
        if i >= |e.grid| {
          assert rows[i] == [];
        } else {
          assert rows[i] == e.grid[i];
        }
      }
    }
    e.(grid := g)
  }

  /** The Height setter: assigning the current height changes nothing;
      otherwise the grid is resized. */
  function SetHeight(e: Editor, h: u16): (r: Editor)
    ensures e.height == h ==> r == e
    ensures e.height != h ==>
      && r == e.(height := h, grid := r.grid)
      && Rectangular(r.grid, e.width, h)
      && forall i, j :: 0 <= i < |r.grid| && 0 <= j < |r.grid[i]| ==>
           r.grid[i][j] == CellAfterResize(e.grid, i, j)
  {
    if e.height == h then e else UpdateMapData(e.(height := h))
  }

  /** The Width setter: assigning the current width changes nothing;
      otherwise the grid is resized. */
  function SetWidth(e: Editor, w: u16): (r: Editor)
    ensures e.width == w ==> r == e
    ensures e.width != w ==>
      && r == e.(width := w, grid := r.grid)
      && Rectangular(r.grid, w, e.height)
      && forall i, j :: 0 <= i < |r.grid| && 0 <= j < |r.grid[i]| ==>
           r.grid[i][j] == CellAfterResize(e.grid, i, j)
  {
    if e.width == w then e else UpdateMapData(e.(width := w))
  }

  /** The resized grid is the old one cut to the new bounds, with Null rows
      and columns added where it grew. */
  lemma ResizedGrid(e: Editor, w: u16, h: u16)
    requires Rectangular(e.grid, e.width, e.height)
    ensures var g := UpdateMapData(e.(width := w, height := h)).grid;
      g == seq(h as nat, i requires 0 <= i < h as nat =>
        if i < e.height as nat then Resized(e.grid[i], w as nat, Null.id) else Filled(w, 1, Null.id)[0])
  {
    var g := UpdateMapData(e.(width := w, height := h)).grid;
    var expected := seq(h as nat, i requires 0 <= i < h as nat =>
      if i < e.height as nat then Resized(e.grid[i], w as nat, Null.id) else Filled(w, 1, Null.id)[0]);
    forall i | 0 <= i < h as nat
      ensures g[i] == expected[i]
    {
      var row := if i < e.height as nat then Resized(e.grid[i], w as nat, Null.id) else Filled(w, 1, Null.id)[0];
      assert expected[i] == row;
      assert |g[i]| == |row| == w as nat;
      forall j | 0 <= j < w as nat
        ensures g[i][j] == row[j]
      {
        assert g[i][j] == CellAfterResize(e.grid, i, j);
      }
    }
  }

  /** Shrinking the height drops the trailing rows for good: growing back
      brings rows of Null tiles, not the old rows. */
  lemma ShrinkThenGrow(e: Editor, h: u16)
    requires Rectangular(e.grid, e.width, e.height) && h < e.height
    ensures var back := SetHeight(SetHeight(e, h), e.height);
      && back == e.(grid := back.grid)
      && back.grid == e.grid[..h] + Filled(e.width, e.height - h, Null.id)
  {
    var small := SetHeight(e, h);
    var back := SetHeight(small, e.height);
    var expected := e.grid[..h] + Filled(e.width, e.height - h, Null.id);
    assert Rectangular(small.grid, e.width, h);
    forall i | 0 <= i < e.height as nat
      ensures back.grid[i] == expected[i]
    {
      forall j | 0 <= j < e.width as nat
        ensures back.grid[i][j] == expected[i][j]
      {
        assert back.grid[i][j] == CellAfterResize(small.grid, i, j);
        if i < h as nat {
          assert small.grid[i][j] == e.grid[i][j];
        }
      }
    }
  }

  /** Resizing keeps every cell referring to a catalog definition, given
      that Null is in the catalog. */
  lemma ResizeKeepsCellsDefined(e: Editor, w: u16, h: u16)
    requires CellsDefined(e.grid, e.definitions) && Null.id in Ids(e.definitions)
    ensures CellsDefined(SetWidth(e, w).grid, e.definitions)
    ensures CellsDefined(SetHeight(e, h).grid, e.definitions)
  {
  }

  // ---------------------------------------------------------------------
  // Title and the read-only map interface
  // ---------------------------------------------------------------------

  /** WindowTitle. The inner test repeats the outer one, so its "Unnamed
      file" branch is never taken. */
  function WindowTitle(name: Option<string>): (title: string)
    ensures title == DefaultTitle <==> name.None? || name.value == ""
    ensures name.Some? && name.value != "" ==> title == DefaultTitle + " : " + name.value
  {
    var title := DefaultTitle;
    if name.Some? && name.value != "" then
      title + " : " + (if name.None? || name.value == "" then "Unnamed file" else name.value)
    else title
  }

  /** The view model seen through the read-only map interface: its
      dimensions, catalog and each row's tiles' definitions in order. */
  function View(e: Editor): (v: MapView)
    requires CellsDefined(e.grid, e.definitions)
    ensures v.width == e.width && v.height == e.height && v.name == e.name && v.filePath == e.filePath
    ensures v.definitions == e.definitions
    ensures |v.rows| == |e.grid| && forall i :: 0 <= i < |e.grid| ==> |v.rows[i]| == |e.grid[i]|
    ensures forall i, j :: 0 <= i < |e.grid| && 0 <= j < |e.grid[i]| ==>
      v.rows[i][j].id == e.grid[i][j] && Lookup(e.definitions, e.grid[i][j]) == Some(v.rows[i][j])
  {
    MapView(e.width, e.height, e.name, e.filePath, e.definitions, DefinitionRows(e.grid, e.definitions))
  }

  /** A view model built from a map shows exactly what the map shows, and
      draws with Null first. */
  lemma FromMapView(m: Map)
    requires Valid(m)
    ensures FromMap(m).currentTile == Null
    ensures View(FromMap(m)) == Project(m)
  {
  }

  // ---------------------------------------------------------------------
  // Saving after a resize
  // ---------------------------------------------------------------------

  /** The map the view model stands for. */
  function AsMap(e: Editor): (m: Map)
    ensures m.width == e.width && m.height == e.height && m.grid == e.grid
    ensures m.catalog == e.definitions && m.name == e.name && m.filePath == e.filePath
  {
    Map(e.width, e.height, e.grid, e.definitions, e.name, e.filePath)
  }

  /** Resizing to non-zero dimensions keeps a savable map savable, and the
      read-only interface the window hands to Save is that map's. */
  lemma ResizeKeepsSavable(e: Editor, w: u16, h: u16)
    requires RoundTrip.Savable(AsMap(e)) && w > 0 && h > 0
    ensures RoundTrip.Savable(AsMap(SetWidth(e, w)))
    ensures RoundTrip.Savable(AsMap(SetHeight(e, h)))
    ensures View(SetWidth(e, w)) == Project(AsMap(SetWidth(e, w)))
    ensures View(SetHeight(e, h)) == Project(AsMap(SetHeight(e, h)))
  {
  }

  /** Saving the view model after a width change and loading the file back
      gives the resized map, colours resolved, named after the file. */
  lemma ResizedSaveLoads(e: Editor, w: u16, path: string, baseName: string -> string, hash: string -> int)
    requires RoundTrip.Savable(AsMap(e)) && w > 0 && path != ""
    ensures var r := SetWidth(e, w);
      && FileOps.Save(View(r), path, hash).Success?
      && FileOps.Load(path, baseName, FileOps.Save(View(r), path, hash).value) ==
         Success(AsMap(r).(catalog := ResolveAll(r.definitions, hash),
                           name := Some(baseName(path)), filePath := Some(path)))
  {
    var r := SetWidth(e, w);
    ResizeKeepsSavable(e, w, e.height);
    RoundTrip.LoadSaveRoundTrip(AsMap(r), path, baseName, hash);
  }
}

/** Grid cells. A cell holds the id of the catalog definition it shows, so
    many cells share one definition without copying it. */
module Tiles {

  /** Rows of cells, each cell a definition id. */
  type Grid = seq<seq<int>>

  /** `h` rows of `w` cells, every one showing definition `id`. */
  function Filled(w: nat, h: nat, id: int): (g: Grid)
    ensures |g| == h
    ensures forall i :: 0 <= i < h ==> |g[i]| == w
    ensures forall i, j :: 0 <= i < h && 0 <= j < |g[i]| ==> g[i][j] == id
  {
    seq(h, _ => seq(w, _ => id))
  }

  /** Every row has exactly `w` cells and there are exactly `h` rows. */
  predicate Rectangular(g: Grid, w: nat, h: nat) {
    |g| == h && forall i :: 0 <= i < |g| ==> |g[i]| == w
  }

  /** The Definition setter of the tile at (row, col). Assigning the
      definition it already shows is a no-op. */
  function Paint(g: Grid, row: nat, col: nat, id: int): (r: Grid)
    requires row < |g| && col < |g[row]|
    ensures |r| == |g| && forall i :: 0 <= i < |g| ==> |r[i]| == |g[i]|
    ensures r[row][col] == id
    ensures forall i, j :: 0 <= i < |g| && 0 <= j < |g[i]| && (i != row || j != col) ==> r[i][j] == g[i][j]
  {
    if g[row][col] == id then g else g[row := g[row][col := id]]
  }

  /** Painting a cell with its current definition changes nothing. */
  lemma PaintSameIsNoOp(g: Grid, row: nat, col: nat)
    requires row < |g| && col < |g[row]|
    ensures Paint(g, row, col, g[row][col]) == g
  {
  }

  /** Painting the first n cells of a row one after another, in column
      order, as the loader does. */
  function PaintRow(g: Grid, row: nat, ids: seq<int>, n: nat): (r: Grid)
    requires row < |g| && n <= |ids| && n <= |g[row]|
    ensures |r| == |g| && forall i :: 0 <= i < |g| ==> |r[i]| == |g[i]|
    ensures forall j :: 0 <= j < n ==> r[row][j] == ids[j]
    ensures forall j :: n <= j < |g[row]| ==> r[row][j] == g[row][j]
    ensures forall i :: 0 <= i < |g| && i != row ==> r[i] == g[i]
    decreases n
  {
    if n == 0 then g else Paint(PaintRow(g, row, ids, n - 1), row, n - 1, ids[n - 1])
  }

  /** Painting a whole row cell by cell is the same as replacing the row. */
  lemma PaintRowReplaces(g: Grid, row: nat, ids: seq<int>)
    requires row < |g| && |ids| == |g[row]|
    ensures PaintRow(g, row, ids, |ids|) == g[row := ids]
  {
    var r := PaintRow(g, row, ids, |ids|);
    var target := g[row := ids];
    forall i | 0 <= i < |g|
      ensures r[i] == target[i]
    {
      if i == row {
        assert |r[row]| == |ids|;
        assert forall j :: 0 <= j < |ids| ==> r[row][j] == ids[j];
      }
    }
    assert |r| == |target|;
  }
}

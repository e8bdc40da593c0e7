/** The layered map: mapLayers[layer][row][col], one symbol per cell, and
    what initializeMap, the resize handler, the clear-top-layers handler and
    placeTile do to it. Rows are separate Java arrays, so after a load a
    row may have any length; the functions below follow the code on such
    grids too. */
module Grid {
  import opened Symbols

  type Row = seq<string>
  type Layer = seq<Row>
  type Layers = seq<Layer>

  /** Number of layers: Ground, Midground, COLLISION, Top (MapEditor.java:15). */
  const LayerCount: nat := 4

  /** How a handler ended. IndexOutOfBounds, MissingLayerFile and NullTileSet
      stand for the exception or early return that cut it short. */
  datatype Outcome = Completed | IndexOutOfBounds | MissingLayerFile(name: string) | NullTileSet

  /** Arrays.fill(row, "e0") on a row of length n. */
  function FilledRow(n: nat): Row
  {
    seq(n, _ => EMPTY)
  }

  /** A freshly initialised map: LayerCount layers of rows x cols "e0" cells. */
  function BlankLayers(rows: nat, cols: nat): Layers
  {
    seq(LayerCount, _ => seq(rows, _ => FilledRow(cols)))
  }

  /** Every layer has exactly rows rows of exactly cols cells. */
  ghost predicate Rectangular(g: Layers, rows: nat, cols: nat)
  {
    |g| == LayerCount &&
    forall l :: 0 <= l < |g| ==> |g[l]| == rows && forall r :: 0 <= r < rows ==> |g[l][r]| == cols
  }

  /** What every reachable map keeps: LayerCount layers with the same,
      non-zero, number of rows. Rows may differ in length. */
  ghost predicate Shaped(g: Layers)
  {
    |g| == LayerCount && |g[0]| >= 1 && forall l :: 0 <= l < |g| ==> |g[l]| == |g[0]|
  }

  /** After initializeMap every cell of every layer is "e0". */
  lemma BlankLayersAreEmpty(rows: nat, cols: nat)
    requires rows >= 1
    ensures Shaped(BlankLayers(rows, cols)) && Rectangular(BlankLayers(rows, cols), rows, cols)
    ensures forall l, r, c :: 0 <= l < LayerCount && 0 <= r < rows && 0 <= c < cols ==> BlankLayers(rows, cols)[l][r][c] == EMPTY
  {
  }

  // ---------------------------------------------------------------- resize

  /** The copy at MapEditor.java:73-74 reads layer[r][c] after checking r
      against the row count and c against the length of row 0 only: the read
      is out of bounds when row r is shorter than row 0. */
  predicate CopyFaults(layer: Layer, r: nat, c: nat)
  {
    r < |layer| && c < |layer[0]| && c >= |layer[r]|
  }

  /** No cell of the new rows x cols map makes the copy read out of bounds. */
  predicate CanResize(g: Layers, rows: nat, cols: nat)
  {
    forall l, r, c :: 0 <= l < |g| && 0 <= r < rows && 0 <= c < cols ==> !CopyFaults(g[l], r, c)
  }

  /** New cell (r, c): the old value inside the old row count and row 0's
      length, "e0" elsewhere. */
  function ResizedCell(layer: Layer, r: nat, c: nat): string
  {
    if r < |layer| && c < |layer[0]| && c < |layer[r]| then layer[r][c] else EMPTY
  }

  /** Row r of a resized layer. */
  function ResizedRow(layer: Layer, r: nat, cols: nat): Row
  {
    seq(cols, c requires 0 <= c => ResizedCell(layer, r, c))
  }

  /** A layer of the new rows x cols map. */
  function ResizedLayer(layer: Layer, rows: nat, cols: nat): Layer
  {
    seq(rows, r requires 0 <= r => ResizedRow(layer, r, cols))
  }

  /** newMapLayers after the resize loops. */
  function Resized(g: Layers, rows: nat, cols: nat): Layers
  {
    seq(|g|, l requires 0 <= l < |g| => ResizedLayer(g[l], rows, cols))
  }

  /** On a rectangular map the resize never faults, gives exactly rows x cols
      cells per layer, keeps every cell inside both the old and the new
      bounds and fills every other cell with "e0". */
  lemma ResizeKeepsOverlap(g: Layers, oldRows: nat, oldCols: nat, rows: nat, cols: nat)
    requires Rectangular(g, oldRows, oldCols)
    ensures CanResize(g, rows, cols)
    ensures Rectangular(Resized(g, rows, cols), rows, cols)
    ensures forall l, r, c :: 0 <= l < LayerCount && 0 <= r < rows && 0 <= c < cols ==>
      Resized(g, rows, cols)[l][r][c] == if r < oldRows && c < oldCols then g[l][r][c] else EMPTY
  {
  }

  /** Resizing to any size and back restores the sub-rectangle common to both
      sizes and leaves "e0" around it; shrinking after growing restores the
      map exactly. */
  lemma ResizeRoundTrip(g: Layers, oldRows: nat, oldCols: nat, rows: nat, cols: nat)
    requires Rectangular(g, oldRows, oldCols)
    ensures var back := Resized(Resized(g, rows, cols), oldRows, oldCols);
      && Rectangular(back, oldRows, oldCols)
      && forall l, r, c :: 0 <= l < LayerCount && 0 <= r < oldRows && 0 <= c < oldCols ==>
        back[l][r][c] == if r < rows && c < cols then g[l][r][c] else EMPTY
    ensures rows >= oldRows && cols >= oldCols ==> Resized(Resized(g, rows, cols), oldRows, oldCols) == g
  {
    ResizeKeepsOverlap(g, oldRows, oldCols, rows, cols);
    var mid := Resized(g, rows, cols);
    ResizeKeepsOverlap(mid, rows, cols, oldRows, oldCols);
    var back := Resized(mid, oldRows, oldCols);
    if rows >= oldRows && cols >= oldCols {
      forall l | 0 <= l < LayerCount
        ensures back[l] == g[l]
      {
        forall r | 0 <= r < oldRows
          ensures back[l][r] == g[l][r]
        {
        }
      }
    }
  }

  /** A row shorter than row 0 makes the resize fault, and a row longer than
      row 0 loses the cells beyond row 0's length even when they fit. */
  lemma ResizeChecksRowZeroOnly()
    ensures CopyFaults([["t1", "t2"], ["t3"]], 1, 1)
    ensures !CanResize([[["t1", "t2"], ["t3"]]], 2, 2)
    ensures Resized([[["t1"], ["t2", "t3"]]], 2, 2) == [[["t1", EMPTY], ["t2", EMPTY]]]
  {
    var jagged: Layers := [[["t1", "t2"], ["t3"]]];
    assert CopyFaults(jagged[0], 1, 1);
    var g := Resized([[["t1"], ["t2", "t3"]]], 2, 2);
    assert g[0][0] == ["t1", EMPTY];
    assert g[0][1] == ["t2", EMPTY];
    assert g[0] == [["t1", EMPTY], ["t2", EMPTY]];
  }

  // ------------------------------------------------------ clear top layers

  /** Layer after Arrays.fill(layer[r], "e0") for r < rows: each filled row
      keeps its own length. */
  function ClearedLayer(layer: Layer, rows: nat): Layer
  {
    seq(|layer|, r requires 0 <= r < |layer| => if r < rows then FilledRow(|layer[r]|) else layer[r])
  }

  /** Filling row r extends a clear of rows 0 .. r - 1 to rows 0 .. r. */
  lemma ClearedLayerStep(layer: Layer, r: nat)
    requires r < |layer|
    ensures ClearedLayer(layer, r + 1) == ClearedLayer(layer, r)[r := FilledRow(|layer[r]|)]
  {
  }

  /** The clear-top-layers loops over layers 1 .. LayerCount - 1. When rows
      exceeds the row count (possible after a resize that faulted), the
      first out-of-bounds row ends the handler in layer 1, after layer 1 has
      been cleared and before layers 2 and 3 are touched. */
  function ClearTop(g: Layers, rows: nat): Layers
    requires Shaped(g)
  {
    seq(|g|, l requires 0 <= l < |g| =>
      if l == 0 || (l >= 2 && rows > |g[1]|) then g[l] else ClearedLayer(g[l], rows))
  }

  /** Clearing the top layers of a map whose row count is rows sets every
      cell of layers 1 .. LayerCount - 1 to "e0", keeps every row's length,
      and leaves layer 0 alone. */
  lemma ClearTopEffect(g: Layers, rows: nat)
    requires Shaped(g) && |g[0]| == rows
    ensures var h := ClearTop(g, rows);
      && Shaped(h)
      && h[0] == g[0]
      && (forall l, r :: 1 <= l < LayerCount && 0 <= r < rows ==> |h[l][r]| == |g[l][r]|)
      && (forall l, r, c :: 1 <= l < LayerCount && 0 <= r < rows && 0 <= c < |h[l][r]| ==> h[l][r][c] == EMPTY)
  {
  }

  // ------------------------------------------------------------- placement

  /** Java's int division by a positive divisor, which truncates toward
      zero; Dafny's / rounds down instead. */
  function JavaDiv(a: int, b: int): (q: int)
    requires b > 0
    ensures a >= 0 ==> 0 <= q * b <= a < q * b + b
    ensures a < 0 ==> q * b - b < a <= q * b <= 0
  {
    var n := if a >= 0 then a else -a;
    var d := n / b;
    assert d * b + n % b == n && 0 <= n % b < b;
    if a >= 0 then d else -d
  }

  /** A pointer less than one tile to the left of (or above) the panel is
      mapped to column (row) 0, not -1: truncation lets the drag paint the
      first column. */
  lemma NearEdgeMapsToZero(a: int, b: int)
    requires b > 0 && -b < a < b
    ensures JavaDiv(a, b) == 0
  {
  }

  /** placeTile's write: cell [layer][row][col] becomes symbol when
      0 <= row < rows and 0 <= col < cols, and nothing changes otherwise.
      A cell inside those bounds that the row does not have (a short
      loaded row) makes the Java write throw, which leaves the map as it
      was. */
  function Place(g: Layers, layer: nat, row: int, col: int, rows: nat, cols: nat, symbol: string): (h: Layers)
    requires layer < |g|
    ensures |h| == |g|
    ensures forall l :: 0 <= l < |g| ==> |h[l]| == |g[l]|
    ensures forall l, r :: 0 <= l < |g| && 0 <= r < |g[l]| ==> |h[l][r]| == |g[l][r]|
    ensures forall l, r, c :: 0 <= l < |g| && 0 <= r < |g[l]| && 0 <= c < |g[l][r]| ==>
      h[l][r][c] == if l == layer && r == row && c == col && r < rows && c < cols then symbol else g[l][r][c]
    ensures !(0 <= row < rows && 0 <= col < cols) ==> h == g
  {
    if 0 <= row < rows && 0 <= col < cols && row < |g[layer]| && col < |g[layer][row]| then
      g[layer := g[layer][row := g[layer][row][col := symbol]]]
    else
      g
  }

  /** On a rectangular map an in-bounds placement always lands. */
  lemma PlaceInBounds(g: Layers, layer: nat, row: nat, col: nat, rows: nat, cols: nat, symbol: string)
    requires Rectangular(g, rows, cols) && layer < LayerCount
    requires row < rows && col < cols
    ensures Place(g, layer, row, col, rows, cols, symbol)[layer][row][col] == symbol
  {
  }
}

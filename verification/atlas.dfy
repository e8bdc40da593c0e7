/** The tile palette: sprite sheets sliced into tiles, the symbol given to each
    tile, and the per-sheet start indexes that group the palette by sheet
    (importTilesheets, populateTileButtons). */
module Atlas {
  import opened Options
  import opened Symbols
  import opened Tiles

  /** A decoded sprite sheet: its size in pixels and, for each pixel position
      (px, py), the sub-image getSubimage(px, py, TileSize, TileSize). */
  datatype SheetImage = SheetImage(width: nat, height: nat, subimage: (nat, nat) -> Tile)

  /** A file picked for import: its name and what ImageIO.read made of it;
      None is the IOException path. */
  datatype SheetFile = SheetFile(name: string, read: Option<SheetImage>)

  function SheetCols(s: SheetImage): nat { s.width / TileSize }

  function SheetRows(s: SheetImage): nat { s.height / TileSize }

  /** The tiles of sheet row y, left to right. */
  function RowTiles(s: SheetImage, y: nat): seq<Tile>
  {
    seq(SheetCols(s), x requires 0 <= x => s.subimage(x * TileSize, y * TileSize))
  }

  /** The tiles of sheet rows [0, n), row after row. */
  function SlicedRows(s: SheetImage, n: nat): (r: seq<Tile>)
    ensures |r| == n * SheetCols(s)
  {
    if n == 0 then [] else SlicedRows(s, n - 1) + RowTiles(s, n - 1)
  }

  /** All the tiles a sheet contributes, in row-major order. */
  function Slice(s: SheetImage): seq<Tile>
  {
    SlicedRows(s, SheetRows(s))
  }

  /** Multiplying by the same count keeps the order of the factors. */
  lemma MulMonotone(a: nat, b: nat, c: nat)
    requires a <= b
    ensures a * c <= b * c
  {
    assert b * c == a * c + (b - a) * c;
  }

  /** Tile (x, y) of the sheet sits at position y * cols + x of the slice. */
  lemma {:induction false} SlicedRowsAt(s: SheetImage, n: nat, y: nat, x: nat)
    requires y < n && x < SheetCols(s)
    ensures y * SheetCols(s) + x < |SlicedRows(s, n)|
    ensures SlicedRows(s, n)[y * SheetCols(s) + x] == s.subimage(x * TileSize, y * TileSize)
  {
    var c := SheetCols(s);
    var before := SlicedRows(s, n - 1);
    assert |before| == (n - 1) * c;
    if y == n - 1 {
      assert |before| == y * c;
    } else {
      SlicedRowsAt(s, n - 1, y, x);
      MulMonotone(y + 1, n - 1, c);
      assert y * c + x < y * c + c == (y + 1) * c <= (n - 1) * c;
    }
  }

  /** Slicing crops: a sheet gives (width / TileSize) * (height / TileSize)
      tiles, tile (x, y) at row-major position y * cols + x. */
  lemma SliceRowMajor(s: SheetImage, y: nat, x: nat)
    requires y < SheetRows(s) && x < SheetCols(s)
    ensures |Slice(s)| == (s.width / TileSize) * (s.height / TileSize)
    ensures y * SheetCols(s) + x < |Slice(s)|
    ensures Slice(s)[y * SheetCols(s) + x] == s.subimage(x * TileSize, y * TileSize)
  {
    SlicedRowsAt(s, SheetRows(s), y, x);
  }

  /** The palette state of the editor: tileSet, symbolList, spritesheetNames
      and spritesheetStartIndexes. */
  datatype Palette = Palette(tiles: seq<Tile>, symbols: seq<string>, sheetNames: seq<string>, sheetStarts: seq<int>)

  /** The palette before any import. */
  const NoPalette := Palette([], [], [], [])

  /** What imports keep true of the palette: one symbol per tile, tile k
      named "t" + k, one start index per sheet, starting at 0 and
      non-decreasing, none beyond the tile count. */
  ghost predicate WellFormed(p: Palette)
  {
    && |p.symbols| == |p.tiles|
    && Numbered(p.symbols)
    && |p.sheetNames| == |p.sheetStarts|
    && (forall i, j :: 0 <= i <= j < |p.sheetStarts| ==> p.sheetStarts[i] <= p.sheetStarts[j])
    && (forall i :: 0 <= i < |p.sheetStarts| ==> 0 <= p.sheetStarts[i] <= |p.tiles|)
    && (|p.sheetStarts| == 0 ==> |p.tiles| == 0)
    && (|p.sheetStarts| > 0 ==> p.sheetStarts[0] == 0)
  }

  /** The symbols "t" + from, "t" + (from + 1), ... given to n new tiles. */
  function Codes(from: nat, n: nat): (r: seq<string>)
    ensures |r| == n
    ensures forall k :: 0 <= k < n ==> r[k] == TileSymbol(from + k)
  {
    seq(n, k requires 0 <= k => TileSymbol(from + k))
  }

  /** One pass of the import loop: the sheet's name and start index are
      recorded first, so an unreadable sheet still gets them; a readable
      sheet then appends its tiles with the next symbols in row-major order. */
  function ImportSheet(p: Palette, f: SheetFile): Palette
  {
    var named := p.(sheetNames := p.sheetNames + [f.name], sheetStarts := p.sheetStarts + [|p.tiles|]);
    match f.read
    case None => named
    case Some(img) =>
      var sliced := Slice(img);
      named.(tiles := p.tiles + sliced,
             symbols := p.symbols + Codes(|p.symbols|, |sliced|))
  }

  /** The import loop over the chosen files, in order. */
  function ImportSheets(p: Palette, files: seq<SheetFile>): Palette
  {
    if |files| == 0 then p
    else ImportSheet(ImportSheets(p, files[..|files| - 1]), files[|files| - 1])
  }

  /** Importing one sheet keeps the palette well formed and appends to it
      only: the sheet's start is the tile count before it, a readable sheet
      adds exactly cols * rows tiles numbered from that count on, and an
      unreadable one adds none. */
  lemma ImportSheetAppends(p: Palette, f: SheetFile)
    requires WellFormed(p)
    ensures var q := ImportSheet(p, f);
      && WellFormed(q)
      && q.sheetNames == p.sheetNames + [f.name]
      && q.sheetStarts == p.sheetStarts + [|p.tiles|]
      && q.tiles[..|p.tiles|] == p.tiles
      && q.symbols[..|p.symbols|] == p.symbols
      && |q.tiles| == |p.tiles| + (if f.read.None? then 0 else SheetCols(f.read.value) * SheetRows(f.read.value))
      && (forall k :: |p.tiles| <= k < |q.tiles| ==> q.symbols[k] == TileSymbol(k))
  {
    var q := ImportSheet(p, f);
    assert q.tiles[..|p.tiles|] == p.tiles;
    assert q.symbols[..|p.symbols|] == p.symbols;
    forall i, j | 0 <= i <= j < |q.sheetStarts|
      ensures q.sheetStarts[i] <= q.sheetStarts[j]
    {
      if j == |p.sheetStarts| && i < j {
        assert q.sheetStarts[i] == p.sheetStarts[i] <= |p.tiles|;
      }
    }
  }

  /** A sequence of imports keeps the palette well formed, never renumbers or
      drops an existing tile, sheet or start index, and records every chosen
      file's name in order. */
  lemma {:induction false} ImportSheetsAppends(p: Palette, files: seq<SheetFile>)
    requires WellFormed(p)
    ensures var q := ImportSheets(p, files);
      && WellFormed(q)
      && |q.tiles| >= |p.tiles|
      && |q.sheetStarts| == |p.sheetStarts| + |files|
      && q.tiles[..|p.tiles|] == p.tiles
      && q.symbols[..|p.symbols|] == p.symbols
      && q.sheetStarts[..|p.sheetStarts|] == p.sheetStarts
      && q.sheetNames == p.sheetNames + seq(|files|, i requires 0 <= i < |files| => files[i].name)
  {
    if |files| > 0 {
      var init := files[..|files| - 1];
      ImportSheetsAppends(p, init);
      var m := ImportSheets(p, init);
      ImportSheetAppends(m, files[|files| - 1]);
      var q := ImportSheet(m, files[|files| - 1]);
      assert q.tiles[..|p.tiles|] == m.tiles[..|m.tiles|][..|p.tiles|];
      assert q.symbols[..|p.symbols|] == m.symbols[..|m.symbols|][..|p.symbols|];
      assert q.sheetStarts[..|p.sheetStarts|] == m.sheetStarts[..|p.sheetStarts|];
    }
  }

  /** A 32 x 16 sheet: two tiles, coded "t" + k and
      "t" + (k + 1) after k earlier tiles, with start index k. */
  lemma TwoTileSheet(p: Palette, name: string, sub: (nat, nat) -> Tile)
    requires WellFormed(p)
    ensures var q := ImportSheet(p, SheetFile(name, Some(SheetImage(32, 16, sub))));
      && q.symbols == p.symbols + [TileSymbol(|p.tiles|), TileSymbol(|p.tiles| + 1)]
      && q.tiles == p.tiles + [sub(0, 0), sub(TileSize, 0)]
      && q.sheetStarts[|p.sheetStarts|] == |p.tiles|
  {
    var s := SheetImage(32, 16, sub);
    assert SheetCols(s) == 2 && SheetRows(s) == 1;
    assert Slice(s) == [] + RowTiles(s, 0);
  }

  /** End of sheet k's half-open range: the next sheet's start, or the tile
      count for the last sheet (MapEditor.java:246). */
  function SheetEnd(p: Palette, k: nat): int
    requires k < |p.sheetStarts|
  {
    if k + 1 < |p.sheetStarts| then p.sheetStarts[k + 1] else |p.tiles|
  }

  predicate InSheet(p: Palette, k: nat, i: int)
    requires k < |p.sheetStarts|
  {
    p.sheetStarts[k] <= i < SheetEnd(p, k)
  }

  /** The sheet ranges of a well-formed palette partition its tiles: every
      tile index lies in the range of exactly one sheet. */
  lemma SheetRangesPartition(p: Palette, i: int)
    requires WellFormed(p)
    requires 0 <= i < |p.tiles|
    ensures exists k: nat :: k < |p.sheetStarts| && InSheet(p, k, i)
    ensures forall k1: nat, k2: nat :: k1 < |p.sheetStarts| && k2 < |p.sheetStarts| && InSheet(p, k1, i) && InSheet(p, k2, i) ==> k1 == k2
  {
    var n := |p.sheetStarts|;
    // the last sheet that starts at or before i
    var k := 0;
    while k + 1 < n && p.sheetStarts[k + 1] <= i
      invariant 0 <= k < n
      invariant p.sheetStarts[k] <= i
    {
      k := k + 1;
    }
    assert InSheet(p, k, i);
  }

  /** Importing never moves an existing sheet's range, and the new sheet's
      range covers exactly the tiles it added. */
  lemma ImportKeepsSheetRanges(p: Palette, f: SheetFile)
    requires WellFormed(p)
    ensures var q := ImportSheet(p, f);
      && |q.sheetStarts| == |p.sheetStarts| + 1
      && (forall k: nat :: k < |p.sheetStarts| ==> q.sheetStarts[k] == p.sheetStarts[k] && SheetEnd(q, k) == SheetEnd(p, k))
      && q.sheetStarts[|p.sheetStarts|] == |p.tiles| && SheetEnd(q, |p.sheetStarts|) == |q.tiles|
  {
  }

  /** The codes of the non-empty tiles in [lo, hi), in order: the buttons
      populateTileButtons makes for one sheet. */
  function VisibleCodes(p: Palette, lo: int, hi: int): seq<string>
    requires 0 <= lo && hi <= |p.tiles| <= |p.symbols|
    decreases hi - lo
  {
    if lo >= hi then []
    else (if IsTransparent(p.tiles[lo]) then [] else [p.symbols[lo]]) + VisibleCodes(p, lo + 1, hi)
  }

  /** A tile has a button in the range [lo, hi) exactly when it lies in that
      range and is not empty. */
  lemma {:induction false} VisibleCodesMembers(p: Palette, lo: int, hi: int, i: nat)
    requires WellFormed(p)
    requires 0 <= lo && hi <= |p.tiles|
    requires i < |p.tiles|
    ensures TileSymbol(i) in VisibleCodes(p, lo, hi) <==> lo <= i < hi && !IsTransparent(p.tiles[i])
    decreases hi - lo
  {
    if lo < hi {
      VisibleCodesMembers(p, lo + 1, hi, i);
      if p.symbols[lo] == TileSymbol(i) {
        TileSymbolInjective(lo, i);
      }
    }
  }

  /** The inner loop of populateTileButtons: the codes of the tiles in
      [lo, hi), skipping the empty ones. */
  method RangeButtons(p: Palette, lo: int, hi: int) returns (codes: seq<string>)
    requires 0 <= lo && hi <= |p.tiles| <= |p.symbols|
    ensures codes == VisibleCodes(p, lo, hi)
  {
    codes := [];
    var i := lo;
    while i < hi
      invariant lo <= i && (lo <= hi ==> i <= hi)
      invariant codes + VisibleCodes(p, i, hi) == VisibleCodes(p, lo, hi)
    {
      var empty := IsEmptyTile(p.tiles[i]);
      if !empty {
        codes := codes + [p.symbols[i]];
      }
      i := i + 1;
    }
  }

  /** One sheet header and its tile buttons. */
  datatype ButtonGroup = ButtonGroup(header: string, codes: seq<string>)

  /** The tile buttons panel shows the palette: one group per sheet, in
      order, headed by the sheet's name and holding the codes of the sheet's
      non-empty tiles. */
  ghost predicate Presents(p: Palette, groups: seq<ButtonGroup>)
    requires WellFormed(p)
  {
    |groups| == |p.sheetNames| &&
    forall k :: 0 <= k < |groups| ==>
      groups[k] == ButtonGroup(p.sheetNames[k], VisibleCodes(p, p.sheetStarts[k], SheetEnd(p, k)))
  }

  /** Every button code is the code of a non-empty tile of its range. */
  lemma {:induction false} VisibleCodesAreTiles(p: Palette, lo: int, hi: int, j: nat)
    requires WellFormed(p)
    requires 0 <= lo && hi <= |p.tiles|
    requires j < |VisibleCodes(p, lo, hi)|
    ensures exists i :: lo <= i < hi && !IsTransparent(p.tiles[i]) && VisibleCodes(p, lo, hi)[j] == TileSymbol(i)
    decreases hi - lo
  {
    if IsTransparent(p.tiles[lo]) {
      VisibleCodesAreTiles(p, lo + 1, hi, j);
    } else if j > 0 {
      VisibleCodesAreTiles(p, lo + 1, hi, j - 1);
    } else {
      assert VisibleCodes(p, lo, hi)[0] == p.symbols[lo] == TileSymbol(lo);
    }
  }

  /** populateTileButtons: for each sheet its name, then a button per
      non-empty tile of its range, labelled with the tile's code. */
  method TileButtons(p: Palette) returns (groups: seq<ButtonGroup>)
    requires WellFormed(p)
    ensures Presents(p, groups)
  {
    var sheetCount := |p.sheetNames|;
    groups := [];
    for sheetIdx := 0 to sheetCount
      invariant |groups| == sheetIdx
      invariant forall k :: 0 <= k < sheetIdx ==>
        groups[k] == ButtonGroup(p.sheetNames[k], VisibleCodes(p, p.sheetStarts[k], SheetEnd(p, k)))
    {
      var startIdx := p.sheetStarts[sheetIdx];
      var endIdx := if sheetIdx + 1 < sheetCount then p.sheetStarts[sheetIdx + 1] else |p.tiles|;
      assert 0 <= startIdx && endIdx <= |p.tiles|;
      var codes := RangeButtons(p, startIdx, endIdx);
      groups := groups + [ButtonGroup(p.sheetNames[sheetIdx], codes)];
    }
  }
}

/** The editor session: the fields of a MapEditor window and the handlers
    of its buttons, mouse and combo box, which update them in place. */
module Editor {
  import opened Options
  import opened Text
  import opened Symbols
  import opened Tiles
  import opened Atlas
  import opened Grid
  import opened Render
  import opened Codec

  class MapEditor {
    /** Map size as last chosen; after a resize that faulted it no longer
        matches the grid. */
    var rows: nat
    var cols: nat
    /** mapLayers[layer][row][col]. */
    var grid: Layers
    /** The brush: the symbol a click paints. */
    var currentTile: string
    var currentLayer: nat
    /** tileSet, null (None) until the first import. */
    var tileSet: Option<seq<Tile>>
    var symbolList: seq<string>
    var sheetNames: seq<string>
    var sheetStarts: seq<int>
    /** What the tile buttons panel shows. */
    var buttons: seq<ButtonGroup>

    /** The palette fields taken together, with a null tileSet read as no
        tiles. */
    function CurrentPalette(): Palette
      reads this
    {
      Palette(if tileSet.Some? then tileSet.value else [], symbolList, sheetNames, sheetStarts)
    }

    /** What every handler keeps true: four layers with the same non-zero
        row count, a layer index the combo box offers, a palette as imports
        build it, a panel that shows that palette, and a brush that is the
        eraser, the collider or the code of a non-empty tile. */
    ghost predicate Valid()
      reads this
    {
      && rows >= 1 && cols >= 1
      && Shaped(grid)
      && currentLayer < LayerCount
      && WellFormed(CurrentPalette())
      && (tileSet.None? ==> sheetNames == [])
      && Presents(CurrentPalette(), buttons)
      && Selectable(currentTile, CurrentPalette())
    }

    twostate predicate PaletteKept()
      reads this
    {
      && tileSet == old(tileSet) && symbolList == old(symbolList)
      && sheetNames == old(sheetNames) && sheetStarts == old(sheetStarts) && buttons == old(buttons)
    }

    twostate predicate BrushKept()
      reads this
    {
      currentTile == old(currentTile) && currentLayer == old(currentLayer)
    }

    twostate predicate MapKept()
      reads this
    {
      rows == old(rows) && cols == old(cols) && grid == old(grid)
    }

    /** A new editor: a 20 x 20 map of "e0" on every layer, the eraser
        selected on the ground layer, no tiles and an empty button panel. */
    constructor ()
      ensures Valid()
      ensures rows == 20 && cols == 20 && grid == BlankLayers(20, 20)
      ensures currentTile == EMPTY && currentLayer == 0
      ensures tileSet == None && symbolList == [] && sheetNames == [] && sheetStarts == [] && buttons == []
    {
      rows, cols := 20, 20;
      grid := [];
      currentTile, currentLayer := EMPTY, 0;
      tileSet := None;
      symbolList, sheetNames, sheetStarts := [], [], [];
      buttons := [];
      new;
      InitializeMap();
      buttons := TileButtons(CurrentPalette());
      BlankLayersAreEmpty(20, 20);
    }

    /** initializeMap: every cell of the rows x cols layers set to "e0". */
    method InitializeMap()
      modifies this
      ensures grid == BlankLayers(rows, cols)
      ensures rows == old(rows) && cols == old(cols) && PaletteKept() && BrushKept()
    {
      var rowCount, colCount := rows, cols;
      var layers: Layers := [];
      for l := 0 to LayerCount
        invariant layers == seq(l, _ => seq(rowCount, _ => FilledRow(colCount)))
      {
        var layer: Layer := [];
        for i := 0 to rowCount
          invariant layer == seq(i, _ => FilledRow(colCount))
        {
          layer := layer + [FilledRow(colCount)];
        }
        layers := layers + [layer];
      }
      grid := layers;
    }

    /** The resize handler. The new size is recorded first; the copy then
        either completes, giving the Resized map, or reads past the end of a
        row shorter than row 0, which leaves the old map in place. */
    method Resize(newRows: nat, newCols: nat) returns (outcome: Outcome)
      requires Valid()
      requires 1 <= newRows <= 100 && 1 <= newCols <= 100
      modifies this
      ensures Valid()
      ensures rows == newRows && cols == newCols
      ensures CanResize(old(grid), newRows, newCols) ==> outcome == Completed && grid == Resized(old(grid), newRows, newCols)
      ensures !CanResize(old(grid), newRows, newCols) ==> outcome == IndexOutOfBounds && grid == old(grid)
      ensures PaletteKept() && BrushKept()
    {
      rows, cols := newRows, newCols;
      var copy := CopyLayers(grid, newRows, newCols);
      if copy.None? {
        return IndexOutOfBounds;
      }
      grid := copy.value;
      outcome := Completed;
    }

    /** The clear-top-layers handler: fills rows 0 .. rows - 1 of layers
        1 .. LayerCount - 1 with "e0"; see ClearTop for the case where rows
        exceeds the map's row count. */
    method ClearTopLayers() returns (outcome: Outcome)
      requires Valid()
      modifies this
      ensures Valid()
      ensures grid == ClearTop(old(grid), rows)
      ensures outcome == if rows > |old(grid)[1]| then IndexOutOfBounds else Completed
      ensures rows == old(rows) && cols == old(cols) && PaletteKept() && BrushKept()
    {
      grid, outcome := ClearLayers(grid, rows);
    }

    /** placeTile for a pointer at (mouseX, mouseY) in the scrolled panel
        and the current scaled tile size: the cell under the pointer, found
        by Java's truncating division, gets the brush on the current layer
        when it lies within rows x cols; a cell inside those bounds that the
        map does not have faults and changes nothing. */
    method PlaceTile(mouseX: int, mouseY: int, scaledTileSize: nat) returns (outcome: Outcome)
      requires Valid()
      requires scaledTileSize >= 1
      modifies this
      ensures Valid()
      ensures var row, col := JavaDiv(mouseY, scaledTileSize), JavaDiv(mouseX, scaledTileSize);
        && grid == Place(old(grid), currentLayer, row, col, rows, cols, currentTile)
        && outcome == if 0 <= row < rows && 0 <= col < cols && !(row < |old(grid)[currentLayer]| && col < |old(grid)[currentLayer][row]|)
                       then IndexOutOfBounds else Completed
      ensures rows == old(rows) && cols == old(cols) && PaletteKept() && BrushKept()
    {
      var col := JavaDiv(mouseX, scaledTileSize);
      var row := JavaDiv(mouseY, scaledTileSize);
      outcome := Completed;
      if row >= 0 && row < rows && col >= 0 && col < cols {
        if row >= |grid[currentLayer]| || col >= |grid[currentLayer][row]| {
          return IndexOutOfBounds;
        }
        grid := grid[currentLayer := grid[currentLayer][row := grid[currentLayer][row][col := currentTile]]];
      }
    }

    /** A tile button of the panel: the brush becomes its code, which is the
        code of a non-empty tile. */
    method PressTileButton(k: nat, j: nat)
      requires Valid()
      requires k < |buttons| && j < |buttons[k].codes|
      modifies this
      ensures Valid()
      ensures currentTile == old(buttons[k].codes[j])
      ensures exists i :: 0 <= i < |CurrentPalette().tiles| && !IsTransparent(CurrentPalette().tiles[i]) && currentTile == TileSymbol(i)
      ensures MapKept() && PaletteKept() && currentLayer == old(currentLayer)
    {
      var p := CurrentPalette();
      VisibleCodesAreTiles(p, p.sheetStarts[k], SheetEnd(p, k), j);
      currentTile := buttons[k].codes[j];
    }

    /** The eraser button: the brush becomes "e0". */
    method Eraser()
      requires Valid()
      modifies this
      ensures Valid()
      ensures currentTile == EMPTY
      ensures MapKept() && PaletteKept() && currentLayer == old(currentLayer)
    {
      currentTile := EMPTY;
    }

    /** The collider button: the brush becomes "c0". */
    method Collider()
      requires Valid()
      modifies this
      ensures Valid()
      ensures currentTile == COLLISION
      ensures MapKept() && PaletteKept() && currentLayer == old(currentLayer)
    {
      currentTile := COLLISION;
    }

    /** The layer combo box: its selected index, one of the four layers,
        becomes the edited layer. */
    method SelectLayer(index: nat)
      requires Valid()
      requires index < LayerCount
      modifies this
      ensures Valid()
      ensures currentLayer == index
      ensures MapKept() && PaletteKept() && currentTile == old(currentTile)
    {
      currentLayer := index;
    }

    /** importTilesheets over the chosen files: the palette becomes
        ImportSheets of the old one, tileSet is no longer null, and the
        panel is rebuilt to show the new palette. */
    method ImportTilesheets(files: seq<SheetFile>)
      requires Valid()
      modifies this
      ensures Valid()
      ensures CurrentPalette() == ImportSheets(old(CurrentPalette()), files)
      ensures tileSet.Some?
      ensures MapKept() && BrushKept()
    {
      ghost var p0 := CurrentPalette();
      var tileList: seq<Tile> := if tileSet.Some? then tileSet.value else [];
      var index := |symbolList|;
      for f := 0 to |files|
        invariant Palette(tileList, symbolList, sheetNames, sheetStarts) == ImportSheets(p0, files[..f])
        invariant index == |symbolList|
        invariant MapKept() && BrushKept() && tileSet == old(tileSet) && buttons == old(buttons)
      {
        ImportSheetsAppends(p0, files[..f]);
        tileList, index := ImportFile(files[f], tileList, index);
        assert files[..f + 1][..f] == files[..f];
      }
      assert files[..|files|] == files;
      tileSet := Some(tileList);
      ImportSheetsAppends(p0, files);
      SelectableGrows(currentTile, p0, CurrentPalette());
      buttons := TileButtons(CurrentPalette());
    }

    /** One pass of the import loop over a chosen file, with the tile list
        and the next symbol number that the loop carries: the sheet's name
        and start go in first, then its tiles row by row, each with the next
        symbol. */
    method ImportFile(file: SheetFile, tiles0: seq<Tile>, index0: nat) returns (tileList: seq<Tile>, index: nat)
      requires WellFormed(Palette(tiles0, symbolList, sheetNames, sheetStarts))
      requires index0 == |symbolList|
      modifies this
      ensures Palette(tileList, symbolList, sheetNames, sheetStarts) == ImportSheet(Palette(tiles0, old(symbolList), old(sheetNames), old(sheetStarts)), file)
      ensures index == |symbolList|
      ensures MapKept() && BrushKept() && tileSet == old(tileSet) && buttons == old(buttons)
    {
      ghost var base := Palette(tiles0, symbolList, sheetNames, sheetStarts);
      tileList, index := tiles0, index0;
      sheetNames := sheetNames + [file.name];
      sheetStarts := sheetStarts + [|tileList|];
      match file.read {
        case None =>
          // the IOException is reported and the next file is tried
        case Some(sheet) =>
          var sheetCols := sheet.width / TileSize;
          var sheetRows := sheet.height / TileSize;
          for y := 0 to sheetRows
            invariant tileList == base.tiles + SlicedRows(sheet, y)
            invariant symbolList == base.symbols + Codes(|base.symbols|, |tileList| - |base.tiles|)
            invariant index == |symbolList|
            invariant sheetNames == base.sheetNames + [file.name] && sheetStarts == base.sheetStarts + [|base.tiles|]
            invariant MapKept() && BrushKept() && tileSet == old(tileSet) && buttons == old(buttons)
          {
            for x := 0 to sheetCols
              invariant tileList == base.tiles + SlicedRows(sheet, y) + RowTiles(sheet, y)[..x]
              invariant symbolList == base.symbols + Codes(|base.symbols|, |tileList| - |base.tiles|)
              invariant index == |symbolList|
              invariant sheetNames == base.sheetNames + [file.name] && sheetStarts == base.sheetStarts + [|base.tiles|]
              invariant MapKept() && BrushKept() && tileSet == old(tileSet) && buttons == old(buttons)
            {
              var sub := sheet.subimage(x * TileSize, y * TileSize);
              assert RowTiles(sheet, y)[..x + 1] == RowTiles(sheet, y)[..x] + [sub];
              assert Codes(|base.symbols|, |tileList| + 1 - |base.tiles|) == Codes(|base.symbols|, |tileList| - |base.tiles|) + [TileSymbol(index)];
              tileList := tileList + [sub];
              symbolList := symbolList + [TileSymbol(index)];
              index := index + 1;
            }
            assert RowTiles(sheet, y)[..sheetCols] == RowTiles(sheet, y);
          }
      }
    }

    /** saveMapWithFileChooser into a chosen folder: the folder's text files
        become those WriteLayers gives, its images stay. */
    method Save(folder: Folder) returns (saved: Folder, outcome: Outcome)
      requires Valid()
      ensures (saved.texts, outcome) == WriteLayers(folder.texts, grid, rows, false, 0)
      ensures saved.images == folder.images
    {
      var texts, written := WriteLayerFiles(folder.texts, grid, rows, false);
      saved, outcome := Folder(texts, folder.images), written;
    }

    /** loadMapWithFileChooser from a chosen folder: the map becomes what
        LoadLayers gives, stopping at a missing file or at a file with more
        lines than the map has rows. */
    method Load(folder: Folder) returns (outcome: Outcome)
      requires Valid()
      modifies this
      ensures Valid()
      ensures (grid, outcome) == LoadLayers(old(grid), rows, folder.texts, 0)
      ensures rows == old(rows) && cols == old(cols) && PaletteKept() && BrushKept()
    {
      grid, outcome := ReadLayerFiles(grid, rows, folder.texts);
    }

    /** exportMapAndTiles into a chosen folder: the layer files under their
        export names, then, if the layer loop completed and some import has
        set tileSet, "<code>.png" for every non-empty tile. */
    method Export(folder: Folder) returns (exported: Folder, outcome: Outcome)
      requires Valid()
      ensures var (texts, written) := WriteLayers(folder.texts, grid, rows, true, 0);
        && exported.texts == texts
        && (written != Completed ==> outcome == written && exported.images == folder.images)
        && (written == Completed && tileSet.None? ==> outcome == NullTileSet && exported.images == folder.images)
        && (written == Completed && tileSet.Some? ==>
              outcome == Completed && exported.images == ExportedImages(folder.images, CurrentPalette(), |tileSet.value|))
    {
      var texts, written := WriteLayerFiles(folder.texts, grid, rows, true);
      if written != Completed {
        return Folder(texts, folder.images), written;
      }
      if tileSet.None? {
        return Folder(texts, folder.images), NullTileSet;
      }
      var tiles := tileSet.value;
      var images := folder.images;
      for i := 0 to |tiles|
        invariant images == ExportedImages(folder.images, CurrentPalette(), i)
      {
        var tileCode := symbolList[i];
        var img := tiles[i];
        var empty := IsEmptyTile(img);
        if !empty {
          images := images[tileCode + ".png" := img];
        }
      }
      exported, outcome := Folder(texts, images), Completed;
    }
  }
  /** The layer-file loop shared by save (exporting false) and export
      (exporting true) over the map g with row count rows: rows lines per
      layer, each the row's symbols joined by spaces, written to the layer's
      file. */
  method WriteLayerFiles(texts0: map<string, seq<string>>, g: Layers, rows: nat, exporting: bool) returns (texts: map<string, seq<string>>, outcome: Outcome)
    requires |g| == LayerCount
    ensures (texts, outcome) == WriteLayers(texts0, g, rows, exporting, 0)
  {
    texts := texts0;
    for l := 0 to LayerCount
      invariant WriteLayers(texts, g, rows, exporting, l) == WriteLayers(texts0, g, rows, exporting, 0)
    {
      var name := if exporting && l == 2 then CollisionFileName else LayerFileName(l);
      assert name == FileName(l, exporting);
      var lines, complete := LayerFileLines(g[l], rows);
      texts := texts[name := lines];
      if !complete {
        return texts, IndexOutOfBounds;
      }
    }
    outcome := Completed;
  }

  /** The lines println writes for one layer: rows lines, or fewer when
      the layer runs out of rows (complete is then false). */
  method LayerFileLines(layer: Layer, rows: nat) returns (lines: seq<string>, complete: bool)
    ensures lines == LayerLines(layer, rows)
    ensures complete <==> rows <= |layer|
  {
    lines := [];
    var i := 0;
    while i < rows
      invariant 0 <= i <= rows && i <= |layer|
      invariant lines == LayerLines(layer, i)
    {
      if i >= |layer| {
        return lines, false;
      }
      lines := lines + [Join(layer[i])];
      i := i + 1;
    }
    complete := true;
  }

  /** Row r of the resize copy of one layer, or None when reading it runs
      past the end of row r. */
  method CopyRow(layer: Layer, r: nat, cols: nat) returns (row: Option<Row>)
    requires |layer| >= 1
    ensures row.Some? <==> forall c :: 0 <= c < cols ==> !CopyFaults(layer, r, c)
    ensures row.Some? ==> row.value == ResizedRow(layer, r, cols)
  {
    var cells: Row := [];
    for c := 0 to cols
      invariant cells == ResizedRow(layer, r, c)
      invariant forall c' :: 0 <= c' < c ==> !CopyFaults(layer, r, c')
    {
      if r < |layer| && c < |layer[0]| {
        if c >= |layer[r]| {
          assert CopyFaults(layer, r, c);
          return None;
        }
        cells := cells + [layer[r][c]];
      } else {
        cells := cells + [EMPTY];
      }
    }
    return Some(cells);
  }

  /** The rows x cols resize copy of one layer, or None when some read
      runs past the end of a row. */
  method CopyLayer(layer: Layer, rows: nat, cols: nat) returns (copy: Option<Layer>)
    requires |layer| >= 1
    ensures copy.Some? <==> forall r, c :: 0 <= r < rows && 0 <= c < cols ==> !CopyFaults(layer, r, c)
    ensures copy.Some? ==> copy.value == ResizedLayer(layer, rows, cols)
  {
    var newRows: Layer := [];
    for r := 0 to rows
      invariant newRows == ResizedLayer(layer, r, cols)
      invariant forall r', c :: 0 <= r' < r && 0 <= c < cols ==> !CopyFaults(layer, r', c)
    {
      var row := CopyRow(layer, r, cols);
      if row.None? {
        return None;
      }
      newRows := newRows + [row.value];
    }
    return Some(newRows);
  }

  /** newMapLayers filled by the resize loops, layer by layer, or None when
      the copy faults. */
  method CopyLayers(g: Layers, rows: nat, cols: nat) returns (copy: Option<Layers>)
    requires Shaped(g)
    ensures copy.Some? <==> CanResize(g, rows, cols)
    ensures copy.Some? ==> copy.value == Resized(g, rows, cols)
  {
    var layers: Layers := [];
    for l := 0 to LayerCount
      invariant layers == seq(l, k requires 0 <= k < l => ResizedLayer(g[k], rows, cols))
      invariant forall k, r, c :: 0 <= k < l && 0 <= r < rows && 0 <= c < cols ==> !CopyFaults(g[k], r, c)
    {
      var layer := CopyLayer(g[l], rows, cols);
      if layer.None? {
        return None;
      }
      layers := layers + [layer.value];
    }
    return Some(layers);
  }

  /** Arrays.fill(layer[r], "e0") for r = 0 .. rows - 1; complete is false
      when the layer runs out of rows first. */
  method ClearLayer(layer: Layer, rows: nat) returns (cleared: Layer, complete: bool)
    ensures cleared == ClearedLayer(layer, rows)
    ensures complete <==> rows <= |layer|
  {
    cleared := layer;
    for r := 0 to rows
      invariant r <= |layer|
      invariant cleared == ClearedLayer(layer, r)
    {
      if r >= |cleared| {
        return cleared, false;
      }
      ClearedLayerStep(layer, r);
      cleared := cleared[r := FilledRow(|cleared[r]|)];
    }
    complete := true;
  }

  /** The loops of the clear-top-layers handler over layers 1 .. LayerCount - 1. */
  method ClearLayers(g: Layers, rows: nat) returns (h: Layers, outcome: Outcome)
    requires Shaped(g)
    ensures h == ClearTop(g, rows)
    ensures outcome == if rows > |g[1]| then IndexOutOfBounds else Completed
  {
    h := g;
    for l := 1 to LayerCount
      invariant |h| == LayerCount
      invariant forall k :: 0 <= k < LayerCount ==> h[k] == if 1 <= k < l then ClearedLayer(g[k], rows) else g[k]
      invariant l >= 2 ==> rows <= |g[1]|
    {
      var cleared, complete := ClearLayer(h[l], rows);
      h := h[l := cleared];
      if !complete {
        return h, IndexOutOfBounds;
      }
    }
    outcome := Completed;
  }

  /** The reads of one layer file: line i becomes row i for i below rows,
      until the lines run out; complete is false when a line is left for a
      row the layer does not have. */
  method ReadLayerFile(layer: Layer, lines: seq<string>, rows: nat) returns (loaded: Layer, complete: bool)
    ensures loaded == LoadedLayer(layer, lines, rows)
    ensures complete <==> Min(rows, |lines|) <= |layer|
  {
    LoadedLayerNone(layer, lines);
    loaded := layer;
    var i := 0;
    while i < rows
      invariant 0 <= i <= rows && i <= |lines| && i <= |layer|
      invariant loaded == LoadedLayer(layer, lines, i)
    {
      if i >= |lines| {
        break; // readLine gave null
      }
      if i >= |loaded| {
        LoadedLayerUpTo(layer, lines, i, rows);
        return loaded, false;
      }
      LoadedLayerStep(layer, lines, i);
      loaded := loaded[i := Split(lines[i])];
      i := i + 1;
    }
    LoadedLayerUpTo(layer, lines, i, rows);
    complete := true;
  }

  /** The load loop over the layer files of a folder's texts. */
  method ReadLayerFiles(g: Layers, rows: nat, texts: map<string, seq<string>>) returns (h: Layers, outcome: Outcome)
    requires |g| == LayerCount
    ensures (h, outcome) == LoadLayers(g, rows, texts, 0)
    ensures |h| == LayerCount && forall k :: 0 <= k < LayerCount ==> |h[k]| == |g[k]|
  {
    h := g;
    for l := 0 to LayerCount
      invariant LoadLayers(h, rows, texts, l) == LoadLayers(g, rows, texts, 0)
      invariant |h| == LayerCount && forall k :: 0 <= k < LayerCount ==> |h[k]| == |g[k]|
    {
      var name := LayerFileName(l);
      if name !in texts {
        return h, MissingLayerFile(name);
      }
      var loaded, complete := ReadLayerFile(h[l], texts[name], rows);
      h := h[l := loaded];
      if !complete {
        return h, IndexOutOfBounds;
      }
    }
    outcome := Completed;
  }
}

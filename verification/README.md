# Tiled map editor model

A model of the editing core of the TiledMapEditor Swing application
(`src/main/MapEditor.java`). The map is a stack of four layers (Ground,
Midground, COLLISION, Top). Each layer is a grid of symbol strings:
`"e0"` for an empty cell, `"c0"` for a collision mark, `"t<N>"` for palette
tile N. Sprite sheets are imported into a palette. Each sheet is cut into
16 x 16 tiles in row-major order, and each tile gets the next `"t<N>"`
symbol. The map is saved to text files (one line per row, symbols joined by
single spaces) and loaded back. It is also exported together with one PNG
per non-empty tile.

Modules:

- `Text`: Java's `Integer.toString`, `String.join(" ", …)` and `String.split(" ")`, with its removal of trailing empty strings.
- `Options`: the `Option` type.
- `Symbols`: the symbols `"e0"`, `"c0"` and `"t" + k`, and the linear `indexOf` lookup.
- `Tiles`: ARGB rasters of Java `int`s, the alpha byte, and the `isEmptyTile` scan.
- `Atlas`: sprite sheets, the palette (`tileSet`, `symbolList`, sheet names, sheet start indexes), import, per-sheet ranges, and the tile buttons panel.
- `Grid`: the layered map and what initialisation, resize, clear-top-layers and placement do to it.
- `Render`: what one layer cell paints.
- `Codec`: a directory as text files (lists of lines) plus image files; save, load and export.
- `Editor`: the `MapEditor` session class. Its fields are updated in place by the handlers, and each handler is proved against the specification functions above.

The handlers end in one of these `Outcome` values:

- `Completed`
- `IndexOutOfBounds`: the `ArrayIndexOutOfBoundsException` that escapes a handler.
- `MissingLayerFile(name)`
- `NullTileSet`: the `NullPointerException` of an export before any import.

Behaviour of the code worth knowing when reading the model:

- A load that meets a missing layer file returns with the lower layers already overwritten; the map is not restored.
- Placement outside `rows x cols` is ignored silently; no error is reported.
- Symbol lookup is a linear `indexOf` over `symbolList`.
- Nothing rejects a duplicate symbol. Imports cannot produce one: `Atlas.WellFormed` keeps the symbol list numbered.

## Model

| member | source | states |
|---|---|---|
| Text.NatToString | src/main/MapEditor.java:512 | the decimal text of `index` is non-empty and made of digits only |
| Text.NatToStringInjective | src/main/MapEditor.java:512 | different numbers give different decimal texts |
| Text.Pieces | src/main/MapEditor.java:405 | cutting a line at every space gives at least one piece; no piece holds a space; joining the pieces gives the line back |
| Text.DropTrailingEmpty | src/main/MapEditor.java:405 | split's result is a prefix of the pieces that ends in a non-empty piece; only empty pieces were dropped |
| Text.Join | src/main/MapEditor.java:372 | definition of `String.join(" ", row)`: the tokens separated by single spaces; `Text.SplitJoin` proves `Split` inverts it |
| Text.Split | src/main/MapEditor.java:405 | no token of the result holds a space; a line holding a space never yields a trailing empty token |
| Text.SplitJoin | src/main/MapEditor.java:372-405 | splitting a row joined by single spaces gives the row back, when the row is non-empty and its tokens are non-empty and space-free |
| Text.SplitBlankLines | src/main/MapEditor.java:405 | split of an empty line is `[""]`; a line of one space splits to no token |
| Text.SplitDropsTrailingSpace | src/main/MapEditor.java:405 | a trailing space is dropped: `"e0 c0 "` splits to `["e0", "c0"]` |
| Text.SplitKeepsInnerEmpty | src/main/MapEditor.java:405 | a double space gives an empty token: `"e0  c0"` splits to `["e0", "", "c0"]` |
| Symbols.TileSymbol | src/main/MapEditor.java:512 | `"t" + k` starts with `t`, is followed by k's digits, and is never `"e0"` or `"c0"` |
| Symbols.TileSymbolInjective | src/main/MapEditor.java:512 | different tiles get different symbols |
| Symbols.TileFileName | src/main/MapEditor.java:462 | the image file name of tile k is its symbol followed by the four characters `.png` |
| Symbols.TileFileNameInjective | src/main/MapEditor.java:462 | different tiles are written to different image files |
| Symbols.IndexOf | src/main/MapEditor.java:333 | `indexOf` is -1 exactly when the symbol is absent; otherwise it is the first position holding the symbol |
| Symbols.NumberedIndexOf | src/main/MapEditor.java:333 | in a list numbered by imports, `indexOf("t" + k)` is k |
| Symbols.NumberedHasNoMarker | src/main/MapEditor.java:326-334 | a list numbered by imports holds neither `"e0"` nor `"c0"` |
| Tiles.Alpha | src/main/MapEditor.java:271 | `(pixel >> 24) & 0xff` lies in [0, 256) and is 0 exactly when the pixel lies in [0, 2^24) |
| Tiles.IsEmptyTile | src/main/MapEditor.java:265-276 | the answer is true exactly when every pixel has alpha 0; on false, some pixel has non-zero alpha |
| Tiles.TransparentIffNoAlphaBits | src/main/MapEditor.java:265-276 | a tile is empty exactly when every ARGB value lies in [0, 2^24) |
| Atlas.SlicedRowsAt | src/main/MapEditor.java:508-513 | tile (x, y) of the first n sheet rows sits at position y * cols + x |
| Atlas.SliceRowMajor | src/main/MapEditor.java:505-513 | a sheet gives (width / 16) * (height / 16) tiles, tile (x, y) at row-major position y * cols + x |
| Atlas.Slice | src/main/MapEditor.java:505-513 | definition: the sheet's tiles, rows 0 .. height / 16 - 1 in turn, each row left to right; its size and layout are stated by `Atlas.SliceRowMajor` |
| Atlas.ImportSheet | src/main/MapEditor.java:499-519 | definition of one pass of the import loop: name and start first, then (for a readable sheet) the sliced tiles with the next symbols; its properties are stated by `Atlas.ImportSheetAppends` and `Atlas.ImportKeepsSheetRanges` |
| Atlas.ImportSheets | src/main/MapEditor.java:494-522 | definition of the import loop over the chosen files in order; its properties are stated by `Atlas.ImportSheetsAppends` |
| Atlas.ImportSheetAppends | src/main/MapEditor.java:499-519 | one sheet keeps the palette well formed; name and start (the tile count before) are appended; a readable sheet appends cols * rows tiles numbered from that count; an unreadable one appends none; earlier entries are kept |
| Atlas.ImportSheetsAppends | src/main/MapEditor.java:494-522 | a batch keeps the palette well formed, appends one name and start per file in order, and never renumbers or drops earlier tiles |
| Atlas.TwoTileSheet | src/main/MapEditor.java:501-513 | a 32 x 16 sheet after k tiles adds `"t" + k` and `"t" + (k + 1)`, left tile first, with start index k |
| Atlas.SheetEnd | src/main/MapEditor.java:246 | definition: a sheet's range ends at the next sheet's start, or at the tile count for the last sheet; `Atlas.SheetRangesPartition` proves the ranges partition the tiles |
| Atlas.SheetRangesPartition | src/main/MapEditor.java:245-246 | every tile index lies in the half-open range of exactly one sheet |
| Atlas.ImportKeepsSheetRanges | src/main/MapEditor.java:501-502 | an import never moves an existing sheet's range; the new sheet's range is exactly the tiles it added |
| Atlas.VisibleCodes | src/main/MapEditor.java:248-257 | definition: the symbols of the non-empty tiles of [lo, hi), in order; `Atlas.VisibleCodesMembers` and `Atlas.VisibleCodesAreTiles` characterise it |
| Atlas.VisibleCodesMembers | src/main/MapEditor.java:248-257 | a tile has a button in a range exactly when it lies in the range and is not empty |
| Atlas.VisibleCodesAreTiles | src/main/MapEditor.java:253-256 | every button code is the symbol of a non-empty tile of its range |
| Atlas.RangeButtons | src/main/MapEditor.java:248-258 | the inner loop yields the codes of the non-empty tiles of [start, end), in order |
| Atlas.TileButtons | src/main/MapEditor.java:232-263 | one group per sheet, in order, headed by the sheet name and holding the codes of its non-empty tiles |
| Grid.BlankLayers | src/main/MapEditor.java:180-186 | definition: four layers of rows x cols `"e0"` cells; `Grid.BlankLayersAreEmpty` states the shape and contents |
| Grid.BlankLayersAreEmpty | src/main/MapEditor.java:180-186 | after initialisation every cell of every layer, row and column is `"e0"`, and the map is rows x cols per layer |
| Grid.Resized | src/main/MapEditor.java:69-80 | definition of the copy into the new rows x cols layers, reading a cell only inside the old row count and row 0's length; `Grid.ResizeKeepsOverlap` and `Grid.ResizeRoundTrip` state its effect |
| Grid.ResizeKeepsOverlap | src/main/MapEditor.java:64-81 | on a rectangular map the copy never faults, gives rows x cols cells per layer, keeps cells inside both sizes and fills the rest with `"e0"` |
| Grid.ResizeRoundTrip | src/main/MapEditor.java:64-81 | resizing and resizing back restores the common sub-rectangle with `"e0"` around it; growing then shrinking restores the map exactly |
| Grid.ResizeChecksRowZeroOnly | src/main/MapEditor.java:73-74 | a row shorter than row 0 makes the copy fault; a row longer than row 0 loses its extra cells |
| Grid.ClearTop | src/main/MapEditor.java:139-143 | definition: layers 1 .. 3 refilled with `"e0"` row by row, stopping in layer 1 at the first missing row; `Grid.ClearTopEffect` states the effect |
| Grid.ClearTopEffect | src/main/MapEditor.java:137-145 | layers 1 .. 3 become all `"e0"` with every row keeping its length; layer 0 is unchanged |
| Grid.JavaDiv | src/main/MapEditor.java:288-289 | Java's int division by a positive tile size rounds toward zero |
| Grid.NearEdgeMapsToZero | src/main/MapEditor.java:288-291 | a pointer less than one tile left of or above the panel maps to column or row 0 |
| Grid.Place | src/main/MapEditor.java:291-292 | inside rows x cols, exactly the cell [layer][row][col] becomes the symbol and no other cell changes; outside, the map is unchanged |
| Grid.PlaceInBounds | src/main/MapEditor.java:291-292 | on a rectangular map an in-bounds placement always lands |
| Render.ResolveCell | src/main/MapEditor.java:324-342 | `"e0"` paints nothing; the overlay is painted exactly for `"c0"`; an unknown symbol draws no image; an image is drawn exactly when the symbol is not `"e0"`, `indexOf` finds it and that tile is not empty, and it is then the tile `indexOf` found |
| Render.ResolveTileSymbol | src/main/MapEditor.java:333-341 | in an imported palette, `"t" + k` draws tile k unless that tile is empty |
| Render.ResolveCollision | src/main/MapEditor.java:328-334 | `"c0"` paints only the overlay |
| Render.ResolveDanglingSymbol | src/main/MapEditor.java:333-334 | a symbol no import produced (read from a file) paints nothing |
| Render.SelectablePaints | src/main/MapEditor.java:324-341 | a brush symbol paints what was picked: nothing for the eraser, the overlay for the collider, tile i for `"t" + i` |
| Render.SelectableGrows | src/main/MapEditor.java:494-522 | the brush stays valid when an import only appends tiles |
| Codec.LayerFileName | src/main/MapEditor.java:369 | the name starts with `map_layer_`, ends with `.txt`, and carries l's digits between them |
| Codec.ExportFileName | src/main/MapEditor.java:432-440 | definition: export writes layer 2 to `COLLISION.txt` and the others as save does; `Codec.FileNamesDistinct` proves the names distinct |
| Codec.FileNamesDistinct | src/main/MapEditor.java:432-446 | different layers go to different files, in save and in export |
| Codec.WriteLayers | src/main/MapEditor.java:368-375 | definition of the layer-file loop: each layer's file gets its lines, and a layer short of rows ends the loop with `IndexOutOfBounds` after its file; `Codec.WriteLayersFrom` and `Codec.SaveWritesEveryLayer` state the effect |
| Codec.WriteLayersFrom | src/main/MapEditor.java:368-375 | when every layer has rows rows, every layer file gets exactly the layer's joined rows and no other file changes |
| Codec.SaveWritesEveryLayer | src/main/MapEditor.java:368-375 | save (and export's layer loop) writes exactly rows lines per layer file, line i being row i joined by spaces, and touches no other file |
| Codec.LoadedLayer | src/main/MapEditor.java:401-406 | definition: row i becomes the split of line i below both rows and the line count; `Codec.LoadOverwritesReadRows` states the effect |
| Codec.LoadLayers | src/main/MapEditor.java:394-408 | definition of the load loop: a missing file returns `MissingLayerFile` with earlier layers replaced, a file with more lines than the layer has rows faults; `Codec.LoadLayersFrom` and `Codec.LoadStopsAtMissingFile` state the effect |
| Codec.LoadLayersFrom | src/main/MapEditor.java:394-408 | with the files of layers l .. m - 1 present and that of layer m missing, exactly those layers are replaced and the outcome names the missing file |
| Codec.LoadStopsAtMissingFile | src/main/MapEditor.java:394-399 | a missing file for layer m stops the load with layers below m already overwritten and the others unchanged |
| Codec.LoadOverwritesReadRows | src/main/MapEditor.java:401-406 | row i becomes the split of line i for i below rows and the line count; later rows keep their content |
| Codec.LayerRoundTrip | src/main/MapEditor.java:401-405 | reading back one layer file written from rows rows gives the layer back |
| Codec.SavedLayerFiles | src/main/MapEditor.java:368-375 | after a complete save, the file of layer k holds layer k's lines |
| Codec.SaveLoadRoundTrip | src/main/MapEditor.java:368-408 | save then load into any map with the same row count reproduces every row, when tokens are non-empty and space-free |
| Codec.ExportedImages | src/main/MapEditor.java:456-464 | definition of the tile-image loop: each non-empty tile is written under its symbol plus `.png`; `Codec.ExportedImagesContents` states the effect |
| Codec.ExportedImagesContents | src/main/MapEditor.java:456-464 | tile k is written to `"t" + k + ".png"` exactly when it is not empty; every other file is untouched |
| Editor.MapEditor.constructor | src/main/MapEditor.java:13-41 | a 20 x 20 map of `"e0"` on every layer, the eraser on layer 0, no tiles and an empty panel |
| Editor.MapEditor.InitializeMap | src/main/MapEditor.java:180-186 | the map becomes the blank rows x cols layers |
| Editor.MapEditor.Resize | src/main/MapEditor.java:64-84 | rows and cols are set first; the map becomes `Resized` when no copy faults, and stays as it was (with `IndexOutOfBounds`) otherwise |
| Editor.MapEditor.ClearTopLayers | src/main/MapEditor.java:137-145 | the map becomes `ClearTop` of the old one; it faults exactly when rows exceeds the row count |
| Editor.MapEditor.PlaceTile | src/main/MapEditor.java:285-296 | the map becomes `Place` at the cell under the pointer with the brush; a fault is reported exactly for a cell inside rows x cols that the map lacks |
| Editor.MapEditor.PressTileButton | src/main/MapEditor.java:253-256 | the brush becomes the button's code, the symbol of a non-empty tile |
| Editor.MapEditor.Eraser | src/main/MapEditor.java:152-153 | the brush becomes `"e0"` and nothing else changes |
| Editor.MapEditor.Collider | src/main/MapEditor.java:155-156 | the brush becomes `"c0"` and nothing else changes |
| Editor.MapEditor.SelectLayer | src/main/MapEditor.java:123-125 | the edited layer becomes the selected index |
| Editor.MapEditor.ImportTilesheets | src/main/MapEditor.java:494-523 | the palette becomes `ImportSheets` of the old one, `tileSet` is set, the panel shows the new palette, and the map and brush are unchanged |
| Editor.MapEditor.ImportFile | src/main/MapEditor.java:499-519 | one pass of the loop extends the palette exactly as `ImportSheet`, with the running index equal to the symbol count |
| Editor.MapEditor.Save | src/main/MapEditor.java:367-375 | the folder's text files become those of `WriteLayers`; its images stay |
| Editor.MapEditor.Load | src/main/MapEditor.java:393-408 | the map and outcome are those of `LoadLayers` on the old map |
| Editor.MapEditor.Export | src/main/MapEditor.java:430-470 | layer files under their export names; then `NullTileSet` before any import, otherwise every non-empty tile's image as `ExportedImages` gives |
| Editor.WriteLayerFiles | src/main/MapEditor.java:431-446 | the files and outcome are those of `WriteLayers` |
| Editor.LayerFileLines | src/main/MapEditor.java:370-374 | the lines written for one layer are `LayerLines`; the write completes exactly when the layer has at least rows rows |
| Editor.CopyRow | src/main/MapEditor.java:72-78 | a row of the copy is `ResizedRow`, or faults exactly when a read passes the end of the row |
| Editor.CopyLayer | src/main/MapEditor.java:71-79 | a layer of the copy is `ResizedLayer`, or faults exactly when some read does |
| Editor.CopyLayers | src/main/MapEditor.java:69-80 | the copy is `Resized`, present exactly when `CanResize` holds |
| Editor.ClearLayer | src/main/MapEditor.java:140-142 | one layer becomes `ClearedLayer`; the fill completes exactly when the layer has rows rows |
| Editor.ClearLayers | src/main/MapEditor.java:139-143 | the map becomes `ClearTop`; the outcome faults exactly when rows exceeds layer 1's row count |
| Editor.ReadLayerFile | src/main/MapEditor.java:401-407 | one layer becomes `LoadedLayer`; the read completes exactly when the lines used fit the layer |
| Editor.ReadLayerFiles | src/main/MapEditor.java:394-408 | the map and outcome are those of `LoadLayers`; every layer keeps its row count |

## Left out

- Swing layout, spinners, combo-box construction, dialogs and file choosers. A cancelled chooser is a handler that is not called. The spinners' range of 1 .. 100 is a precondition of `Resize`.
- Zoom and the `double` arithmetic of `(int)(tileSize * zoom)`. `PlaceTile` takes the resulting integer tile size as a parameter. The scroll-pane lookup that can return early is not modelled.
- Image decoding and `getSubimage`. A sheet is its size plus a function from pixel position to tile. An unreadable file is the caught `IOException` path.
- Atlas.ImportSheets, Editor.MapEditor.ImportTilesheets: `ImageIO.read` returning null for a file that is not an image is not modelled. In the code, `sheet.getWidth()` then throws a `NullPointerException` that the `catch (IOException)` does not catch, so it escapes the handler. The file's name and start index are already recorded, and so are the symbols of the earlier files of the batch, but `tileSet` and the buttons panel are not updated. That breaks the palette invariant the model keeps (`Atlas.WellFormed`: one symbol per tile, starts within the tile count). After it, a later import numbers its tiles from the symbol count while appending them after the shorter `tileSet`. `populateTileButtons` and painting can then index past the end of `tileSet`. The model's `Valid()` holds only because this path is excluded.
- Real file I/O. A directory is a map from file names to lines and to images. `IOException`s while writing or reading a file are not modelled. A token holding a line break would break the line structure and is not modelled.
- Drawing calls (`fillRect`, `drawImage`, grid lines), repaint and panel sizing, and `createTransparentTile`. `Render.ResolveCell` states only which overlay and image a cell paints.
- The commented-out `initializeTiles`, the `Tile` and `WrapLayout` classes, and `main`.
- Null map cells. Every cell is initialised before it is read, so paint's null test is not modelled.
- Symbol numbering is unbounded. Java's `int` index would overflow only after 2^31 tiles.
- Editor.MapEditor.Resize: the faulting copy is modelled as three helper methods (`CopyLayers`, `CopyLayer`, `CopyRow`) that return `None`, rather than one triple loop.
- Editor.MapEditor.ClearTopLayers, Editor.MapEditor.Load: the loops run on a copy of the map held in a local variable, which is stored back when the handler ends. Java fills and replaces the rows of the live array in place. Rows are never shared between layers, so no other reader could see the difference.

/** The layer text files and the exported tile images: one file per layer,
    one line per row, the row's symbols joined by single spaces
    (saveMapWithFileChooser, loadMapWithFileChooser, exportMapAndTiles). */
module Codec {
  import opened Text
  import opened Symbols
  import opened Tiles
  import opened Atlas
  import opened Grid

  /** A directory: text files as their lines, image files as their raster. */
  datatype Folder = Folder(texts: map<string, seq<string>>, images: map<string, Image>)

  /** "map_layer_" + l + ".txt", the name save and load use. */
  function LayerFileName(l: nat): (name: string)
    ensures |name| == 14 + |NatToString(l)|
    ensures name[..10] == "map_layer_" && name[|name| - 4..] == ".txt"
    ensures name[10..|name| - 4] == NatToString(l)
  {
    "map_layer_" + NatToString(l) + ".txt"
  }

  const CollisionFileName: string := "COLLISION.txt"

  /** Export names layer 2 "COLLISION.txt" and the other layers as save does. */
  function ExportFileName(l: nat): string
  {
    if l == 2 then CollisionFileName else LayerFileName(l)
  }

  /** The file layer l is written to by save (exporting false) or export (exporting true). */
  function FileName(l: nat, exporting: bool): string
  {
    if exporting then ExportFileName(l) else LayerFileName(l)
  }

  /** Different layers are written to different files, in both modes. */
  lemma FileNamesDistinct(a: nat, b: nat, exporting: bool)
    requires FileName(a, exporting) == FileName(b, exporting)
    ensures a == b
  {
    var na, nb := LayerFileName(a), LayerFileName(b);
    if na == nb {
      assert NatToString(a) == na[10..|na| - 4] == nb[10..|nb| - 4] == NatToString(b);
      NatToStringInjective(a, b);
    }
  }

  function Min(a: nat, b: nat): nat { if a < b then a else b }

  /** The lines println writes for one layer: String.join(" ", row) for rows
      0 .. rows - 1, cut short where the layer runs out of rows (the write
      that then throws comes after those lines). */
  function LayerLines(layer: Layer, rows: nat): seq<string>
  {
    seq(Min(rows, |layer|), i requires 0 <= i < Min(rows, |layer|) => Join(layer[i]))
  }

  /** The layer-file loop of save and export, from layer l on: each layer's
      file is written in turn, and a layer with fewer than rows rows ends the
      loop with an out-of-bounds exception after its file is written. */
  function WriteLayers(texts: map<string, seq<string>>, g: Layers, rows: nat, exporting: bool, l: nat): (map<string, seq<string>>, Outcome)
    decreases |g| - l
  {
    if l >= |g| then (texts, Completed)
    else
      var written := texts[FileName(l, exporting) := LayerLines(g[l], rows)];
      if rows > |g[l]| then (written, IndexOutOfBounds) else WriteLayers(written, g, rows, exporting, l + 1)
  }

  /** From layer l on, a map whose layers have at least rows rows is written
      completely: the file of every layer l' >= l holds exactly rows lines,
      line i being row i's tokens joined by spaces, and no other file
      changes. */
  lemma {:induction false} WriteLayersFrom(texts: map<string, seq<string>>, g: Layers, rows: nat, exporting: bool, l: nat)
    requires l <= |g|
    requires forall k :: l <= k < |g| ==> rows <= |g[k]|
    ensures var (t, outcome) := WriteLayers(texts, g, rows, exporting, l);
      && outcome == Completed
      && (forall k :: l <= k < |g| ==> FileName(k, exporting) in t && t[FileName(k, exporting)] == LayerLines(g[k], rows))
      && (forall name :: (forall k :: l <= k < |g| ==> name != FileName(k, exporting)) ==>
            (name in t <==> name in texts) && (name in texts ==> t[name] == texts[name]))
    decreases |g| - l
  {
    if l < |g| {
      var written := texts[FileName(l, exporting) := LayerLines(g[l], rows)];
      WriteLayersFrom(written, g, rows, exporting, l + 1);
      var t := WriteLayers(written, g, rows, exporting, l + 1).0;
      forall k | l < k < |g|
        ensures FileName(l, exporting) != FileName(k, exporting)
      {
        if FileName(l, exporting) == FileName(k, exporting) {
          FileNamesDistinct(l, k, exporting);
        }
      }
    }
  }

  /** Save (and export) of a map whose layers have at least rows rows writes
      exactly rows lines per layer file, each line the row joined by single
      spaces, and touches no other file. */
  lemma SaveWritesEveryLayer(texts: map<string, seq<string>>, g: Layers, rows: nat, exporting: bool)
    requires Shaped(g) && rows <= |g[0]|
    ensures var (t, outcome) := WriteLayers(texts, g, rows, exporting, 0);
      && outcome == Completed
      && (forall l :: 0 <= l < LayerCount ==>
            FileName(l, exporting) in t && |t[FileName(l, exporting)]| == rows &&
            forall i :: 0 <= i < rows ==> t[FileName(l, exporting)][i] == Join(g[l][i]))
      && (forall name :: (forall l :: 0 <= l < LayerCount ==> name != FileName(l, exporting)) ==>
            (name in t <==> name in texts) && (name in texts ==> t[name] == texts[name]))
  {
    WriteLayersFrom(texts, g, rows, exporting, 0);
  }

  /** The lines of a layer file read into a layer: line i replaces row i, as
      split(" ") gives it, for i below both rows and the number of lines;
      every other row stays as it was. */
  function LoadedLayer(layer: Layer, lines: seq<string>, rows: nat): Layer
  {
    seq(|layer|, i requires 0 <= i < |layer| => if i < rows && i < |lines| then Split(lines[i]) else layer[i])
  }

  /** Two row limits that replace the same rows give the same layer. */
  lemma LoadedLayerUpTo(layer: Layer, lines: seq<string>, a: nat, b: nat)
    requires Min(Min(a, |lines|), |layer|) == Min(Min(b, |lines|), |layer|)
    ensures LoadedLayer(layer, lines, a) == LoadedLayer(layer, lines, b)
  {
  }

  /** Reading no line leaves the layer as it was. */
  lemma LoadedLayerNone(layer: Layer, lines: seq<string>)
    ensures LoadedLayer(layer, lines, 0) == layer
  {
  }

  /** Reading line i replaces row i and nothing else. */
  lemma LoadedLayerStep(layer: Layer, lines: seq<string>, i: nat)
    requires i < |layer| && i < |lines|
    ensures LoadedLayer(layer, lines, i + 1) == LoadedLayer(layer, lines, i)[i := Split(lines[i])]
  {
  }

  /** The load loop from layer l on. A missing file ends the load with the
      layers before it already replaced; a file with more lines than the
      layer has rows (only when rows exceeds them) ends it with an
      out-of-bounds exception after the rows it has were replaced. */
  function LoadLayers(g: Layers, rows: nat, texts: map<string, seq<string>>, l: nat): (Layers, Outcome)
    decreases |g| - l
  {
    if l >= |g| then (g, Completed)
    else
      var name := LayerFileName(l);
      if name !in texts then (g, MissingLayerFile(name))
      else
        var lines := texts[name];
        var h := g[l := LoadedLayer(g[l], lines, rows)];
        if Min(rows, |lines|) > |g[l]| then (h, IndexOutOfBounds) else LoadLayers(h, rows, texts, l + 1)
  }

  /** Loading from layer l on when the files of layers l .. m - 1 exist and
      that of layer m does not (or m is the layer count): layers l .. m - 1
      are replaced by their files, the rest keep their rows, and the outcome
      names the missing file. */
  lemma {:induction false} LoadLayersFrom(g: Layers, rows: nat, texts: map<string, seq<string>>, l: nat, m: nat)
    requires l <= m <= |g|
    requires forall k :: l <= k < |g| ==> rows <= |g[k]|
    requires forall k :: l <= k < m ==> LayerFileName(k) in texts
    requires m < |g| ==> LayerFileName(m) !in texts
    ensures var (h, outcome) := LoadLayers(g, rows, texts, l);
      && outcome == (if m < |g| then MissingLayerFile(LayerFileName(m)) else Completed)
      && |h| == |g|
      && (forall k :: 0 <= k < |g| ==> h[k] == if l <= k < m then LoadedLayer(g[k], texts[LayerFileName(k)], rows) else g[k])
    decreases |g| - l
  {
    if l < m {
      var h := g[l := LoadedLayer(g[l], texts[LayerFileName(l)], rows)];
      LoadLayersFrom(h, rows, texts, l + 1, m);
    }
  }

  /** Load from a directory that lacks the file of layer m but has those of
      the layers below it: layers below m are overwritten, layers from m on
      are unchanged, and the load reports the missing file. */
  lemma LoadStopsAtMissingFile(g: Layers, rows: nat, texts: map<string, seq<string>>, m: nat)
    requires Shaped(g) && rows <= |g[0]|
    requires m < LayerCount
    requires forall k :: 0 <= k < m ==> LayerFileName(k) in texts
    requires LayerFileName(m) !in texts
    ensures var (h, outcome) := LoadLayers(g, rows, texts, 0);
      && outcome == MissingLayerFile(LayerFileName(m))
      && |h| == LayerCount
      && (forall k :: 0 <= k < m ==> h[k] == LoadedLayer(g[k], texts[LayerFileName(k)], rows))
      && (forall k :: m <= k < LayerCount ==> h[k] == g[k])
  {
    LoadLayersFrom(g, rows, texts, 0, m);
  }

  /** Load from a directory with every layer file: row i of layer l becomes
      the split of line i for i below both rows and the line count, and every
      later row keeps what it held before the load. */
  lemma LoadOverwritesReadRows(g: Layers, rows: nat, texts: map<string, seq<string>>)
    requires Shaped(g) && rows <= |g[0]|
    requires forall k :: 0 <= k < LayerCount ==> LayerFileName(k) in texts
    ensures var (h, outcome) := LoadLayers(g, rows, texts, 0);
      && outcome == Completed
      && |h| == LayerCount
      && Shaped(h)
      && (forall k :: 0 <= k < LayerCount ==> |h[k]| == |g[k]|)
      && (forall k, i :: 0 <= k < LayerCount && 0 <= i < |g[k]| ==>
            h[k][i] == if i < rows && i < |texts[LayerFileName(k)]| then Split(texts[LayerFileName(k)][i]) else g[k][i])
  {
    LoadLayersFrom(g, rows, texts, 0, LayerCount);
  }

  /** Rows that survive a text round trip: at least one token per row, and no
      token empty or holding a space. */
  ghost predicate CleanTokens(g: Layers)
  {
    forall l, r :: 0 <= l < |g| && 0 <= r < |g[l]| ==>
      |g[l][r]| >= 1 && forall c :: 0 <= c < |g[l][r]| ==> g[l][r][c] != "" && ' ' !in g[l][r][c]
  }

  /** One layer file read back into a layer with as many rows as were
      written gives back the written layer. */
  lemma LayerRoundTrip(layer: Layer, dest: Layer, rows: nat)
    requires |layer| == rows && |dest| == rows
    requires forall r, c :: 0 <= r < rows && 0 <= c < |layer[r]| ==> layer[r][c] != "" && ' ' !in layer[r][c]
    requires forall r :: 0 <= r < rows ==> |layer[r]| >= 1
    ensures LoadedLayer(dest, LayerLines(layer, rows), rows) == layer
  {
    var back := LoadedLayer(dest, LayerLines(layer, rows), rows);
    forall i | 0 <= i < rows
      ensures back[i] == layer[i]
    {
      SplitJoin(layer[i]);
    }
  }

  /** After a complete save, the file of layer k holds that layer's lines. */
  lemma SavedLayerFiles(texts: map<string, seq<string>>, g: Layers, rows: nat)
    requires Shaped(g) && |g[0]| == rows
    ensures var saved := WriteLayers(texts, g, rows, false, 0).0;
      forall k :: 0 <= k < LayerCount ==> LayerFileName(k) in saved && saved[LayerFileName(k)] == LayerLines(g[k], rows)
  {
    WriteLayersFrom(texts, g, rows, false, 0);
    assert forall k :: 0 <= k < LayerCount ==> FileName(k, false) == LayerFileName(k);
  }

  /** Saving a map and loading the files into a map with the same row count
      reproduces every row exactly, whatever the destination held. */
  lemma SaveLoadRoundTrip(g: Layers, dest: Layers, rows: nat, texts: map<string, seq<string>>)
    requires Shaped(g) && |g[0]| == rows && CleanTokens(g)
    requires Shaped(dest) && |dest[0]| == rows
    ensures var saved := WriteLayers(texts, g, rows, false, 0).0;
      LoadLayers(dest, rows, saved, 0) == (g, Completed)
  {
    var saved := WriteLayers(texts, g, rows, false, 0).0;
    SavedLayerFiles(texts, g, rows);
    LoadLayersFrom(dest, rows, saved, 0, LayerCount);
    var (h, outcome) := LoadLayers(dest, rows, saved, 0);
    forall k | 0 <= k < LayerCount
      ensures h[k] == g[k]
    {
      LayerRoundTrip(g[k], dest[k], rows);
    }
    assert h == g;
  }

  /** The file name is in m exactly when it was in images, with the same
      content. */
  ghost predicate Untouched(m: map<string, Image>, images: map<string, Image>, name: string)
  {
    (name in m <==> name in images) && (name in images ==> m[name] == images[name])
  }

  /** The tile-image loop of exporting over tiles 0 .. n - 1: each tile that is
      not fully transparent is written as "<symbol>.png". */
  function ExportedImages(images: map<string, Image>, p: Palette, n: nat): map<string, Image>
    requires n <= |p.tiles| <= |p.symbols|
  {
    if n == 0 then images
    else
      var m := ExportedImages(images, p, n - 1);
      if IsTransparent(p.tiles[n - 1]) then m else m[p.symbols[n - 1] + ".png" := p.tiles[n - 1]]
  }

  /** For a palette built by imports, exporting writes tile k to "t<k>.png"
      exactly when tile k is not empty, and leaves every file that is not
      some tile's image as it was. */
  lemma {:induction false} ExportedImagesContents(images: map<string, Image>, p: Palette, n: nat)
    requires WellFormed(p)
    requires n <= |p.tiles|
    ensures var m := ExportedImages(images, p, n);
      && (forall k :: 0 <= k < n && !IsTransparent(p.tiles[k]) ==> TileFileName(k) in m && m[TileFileName(k)] == p.tiles[k])
      && (forall k :: 0 <= k < n && IsTransparent(p.tiles[k]) ==> Untouched(m, images, TileFileName(k)))
      && (forall name :: (forall k :: 0 <= k < n ==> name != TileFileName(k)) ==> Untouched(m, images, name))
  {
    if n > 0 {
      ExportedImagesContents(images, p, n - 1);
      var prev := ExportedImages(images, p, n - 1);
      var last := TileFileName(n - 1);
      assert p.symbols[n - 1] + ".png" == last;
      forall k | 0 <= k < n - 1
        ensures TileFileName(k) != last
      {
        if TileFileName(k) == last {
          TileFileNameInjective(k, n - 1);
        }
      }
      if !IsTransparent(p.tiles[n - 1]) {
        var m := prev[last := p.tiles[n - 1]];
        assert ExportedImages(images, p, n) == m;
        forall name | name != last && Untouched(prev, images, name)
          ensures Untouched(m, images, name)
        {
        }
      }
    }
  }
}

/** What paintComponent decides for one layer of one cell (MapEditor.java:325-337):
    nothing for "e0", the translucent overlay for "c0", and the tile image
    found by a linear indexOf in the symbol list unless the symbol is not
    there or its tile is fully transparent. */
module Render {
  import opened Options
  import opened Symbols
  import opened Tiles
  import opened Atlas

  /** The drawing calls for one layer cell: the collision overlay (fillRect)
      and the palette index of the image drawn (drawImage), if any. */
  datatype CellPaint = CellPaint(overlay: bool, image: Option<nat>)

  const Nothing := CellPaint(false, None)

  /** Resolution of one cell symbol against the palette. The "c0" branch does
      not skip the rest: after the overlay the symbol is still looked up. */
  function ResolveCell(symbol: string, p: Palette): (d: CellPaint)
    requires |p.symbols| == |p.tiles|
    ensures symbol == EMPTY ==> d == Nothing
    ensures d.overlay <==> symbol == COLLISION
    ensures symbol !in p.symbols ==> d.image.None?
    ensures d.image.Some? ==>
      && d.image.value < |p.tiles|
      && p.symbols[d.image.value] == symbol
      && !IsTransparent(p.tiles[d.image.value])
      && forall j :: 0 <= j < d.image.value ==> p.symbols[j] != symbol
    ensures symbol != EMPTY && IndexOf(p.symbols, symbol) >= 0 && !IsTransparent(p.tiles[IndexOf(p.symbols, symbol)]) ==>
      d.image == Some(IndexOf(p.symbols, symbol))
  {
    if symbol == EMPTY then Nothing
    else
      var overlay := symbol == COLLISION;
      var tileIndex := IndexOf(p.symbols, symbol);
      if tileIndex < 0 then CellPaint(overlay, None)
      else if IsTransparent(p.tiles[tileIndex]) then CellPaint(overlay, None)
      else CellPaint(overlay, Some(tileIndex))
  }

  /** In a palette built by imports, the symbol of tile k draws tile k, unless
      that tile is fully transparent, in which case nothing is drawn. */
  lemma ResolveTileSymbol(p: Palette, k: nat)
    requires WellFormed(p)
    requires k < |p.tiles|
    ensures ResolveCell(TileSymbol(k), p) == if IsTransparent(p.tiles[k]) then Nothing else CellPaint(false, Some(k))
  {
    NumberedIndexOf(p.symbols, k);
  }

  /** The collision marker only ever paints the overlay. */
  lemma ResolveCollision(p: Palette)
    requires WellFormed(p)
    ensures ResolveCell(COLLISION, p) == CellPaint(true, None)
  {
    NumberedHasNoMarker(p.symbols);
  }

  /** A symbol that no import produced (one read from a file, say) is skipped
      silently: no overlay and no image. */
  lemma ResolveDanglingSymbol(p: Palette, symbol: string)
    requires WellFormed(p)
    requires symbol != COLLISION
    requires forall k: nat :: k < |p.tiles| ==> symbol != TileSymbol(k)
    ensures ResolveCell(symbol, p) == Nothing
  {
  }

  /** What the brush (currentTile) can hold: the eraser's "e0", the
      collider's "c0", or the code of a non-empty tile, the only codes that
      get a button. */
  ghost predicate Selectable(symbol: string, p: Palette)
  {
    symbol == EMPTY || symbol == COLLISION ||
    exists i :: 0 <= i < |p.tiles| && !IsTransparent(p.tiles[i]) && symbol == TileSymbol(i)
  }

  /** A cell painted with the brush shows what was picked: nothing for the
      eraser, the overlay alone for the collider, and the picked tile's
      image for a tile code. */
  lemma SelectablePaints(symbol: string, p: Palette)
    requires WellFormed(p) && Selectable(symbol, p)
    ensures symbol == EMPTY ==> ResolveCell(symbol, p) == Nothing
    ensures symbol == COLLISION ==> ResolveCell(symbol, p) == CellPaint(true, None)
    ensures forall i :: 0 <= i < |p.tiles| && symbol == TileSymbol(i) ==> ResolveCell(symbol, p) == CellPaint(false, Some(i))
    ensures symbol != EMPTY ==> ResolveCell(symbol, p) != Nothing
  {
    if symbol == COLLISION {
      ResolveCollision(p);
    } else if symbol != EMPTY {
      var i :| 0 <= i < |p.tiles| && !IsTransparent(p.tiles[i]) && symbol == TileSymbol(i);
      ResolveTileSymbol(p, i);
      forall j | 0 <= j < |p.tiles| && symbol == TileSymbol(j)
        ensures ResolveCell(symbol, p) == CellPaint(false, Some(j))
      {
        TileSymbolInjective(i, j);
      }
    }
  }

  /** The brush stays selectable when the palette only grows. */
  lemma SelectableGrows(symbol: string, p: Palette, q: Palette)
    requires Selectable(symbol, p)
    requires |p.tiles| <= |q.tiles| && q.tiles[..|p.tiles|] == p.tiles
    ensures Selectable(symbol, q)
  {
    if symbol != EMPTY && symbol != COLLISION {
      var i :| 0 <= i < |p.tiles| && !IsTransparent(p.tiles[i]) && symbol == TileSymbol(i);
      assert q.tiles[i] == q.tiles[..|p.tiles|][i];
    }
  }
}

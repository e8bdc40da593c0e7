/** Tile images as the editor sees them through BufferedImage.getRGB: a
    width x height raster of 32-bit ARGB ints, row by row. */
module Tiles {

  /** Java's int. */
  newtype int32 = x: int | -0x8000_0000 <= x < 0x8000_0000

  /** Side of a tile in pixels (MapEditor.java:13). */
  const TileSize: nat := 16

  /** A raster whose pixel (x, y) is argb[y * width + x]. */
  datatype Image = Image(width: nat, height: nat, argb: seq<int32>)

  predicate FullRaster(img: Image)
  {
    |img.argb| == img.width * img.height
  }

  /** A palette tile: a TileSize x TileSize sub-image of a sprite sheet. */
  type Tile = img: Image | img.width == TileSize && img.height == TileSize && |img.argb| == TileSize * TileSize
    witness Image(TileSize, TileSize, seq(TileSize * TileSize, _ => 0))

  /** (pixel >> 24) & 0xff on a Java int: the alpha byte. The shift is
      arithmetic (floor division by 2^24, which Dafny's / is for a positive
      divisor) and the mask keeps the low byte of the two's complement value. */
  function Alpha(pixel: int32): (a: int)
    ensures 0 <= a < 0x100
    ensures a == 0 <==> 0 <= pixel < 0x100_0000
  {
    var shifted := (pixel as int) / 0x100_0000;
    assert -0x80 <= shifted < 0x80;
    shifted % 0x100
  }

  /** Every pixel of the image has alpha 0. */
  predicate IsTransparent(img: Image)
  {
    forall i :: 0 <= i < |img.argb| ==> Alpha(img.argb[i]) == 0
  }

  /** Row y of a w x h raster starts at y * w and ends within the raster. */
  lemma RowStart(y: nat, w: nat, h: nat)
    requires y < h
    ensures y * w + w == (y + 1) * w <= h * w
  {
  }

  /** isEmptyTile: scans the raster row by row and answers false at the first
      pixel whose alpha is not 0, true when there is none. */
  method IsEmptyTile(img: Image) returns (empty: bool)
    requires FullRaster(img)
    ensures empty <==> IsTransparent(img)
    ensures !empty ==> exists i :: 0 <= i < |img.argb| && Alpha(img.argb[i]) != 0
  {
    var w, h := img.width, img.height;
    var y := 0;
    while y < h
      invariant 0 <= y <= h
      invariant forall i :: 0 <= i < y * w ==> Alpha(img.argb[i]) == 0
    {
      var rowStart := y * w;
      RowStart(y, w, h);
      var x := 0;
      while x < w
        invariant 0 <= x <= w
        invariant forall i :: 0 <= i < rowStart + x ==> Alpha(img.argb[i]) == 0
      {
        var pixel := img.argb[rowStart + x];
        var alpha := Alpha(pixel);
        if alpha != 0 {
          return false;
        }
        x := x + 1;
      }
      y := y + 1;
    }
    return true;
  }

  /** A tile is empty exactly when every ARGB value lies in [0, 2^24). */
  lemma TransparentIffNoAlphaBits(img: Image)
    ensures IsTransparent(img) <==> forall i :: 0 <= i < |img.argb| ==> 0 <= img.argb[i] < 0x100_0000
  {
  }
}

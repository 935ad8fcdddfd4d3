/** The single-tile tool: a 16x16 image is quantised cell by cell, split into its four
    8x8 sprites, and each sprite is written as eight lines of hex digits. The palette
    scan, the split and the hex writer are the same code as in the all-sprites tool,
    so this module reuses `Palette.FindClosestPico8Color`,
    `ExtractAllSprites.Split16x16To8x8` and `ExtractAllSprites.SpriteToHexString` and
    states the properties this tool relies on. */
module PngToPico8 {
  import opened Images
  import opened Palette
  import opened Hex
  import opened Wrappers
  import opened ExtractAllSprites

  /** The 16x16 mapping loop of `convert_png_to_pico8` on a 16x16 image: row by row,
      each pixel replaced by its palette index. The pixels may be RGB or RGBA; the
      conversion to RGBA that precedes the loop gives every RGB pixel alpha 255 and so
      changes no palette index (`RgbaKeepsColour`). */
  method ConvertPngToPico8(img: Image) returns (pico8Data: Tile)
    requires img.Valid() && img.width == 16 && img.height == 16
    ensures IsSquare(pico8Data, 16)
    ensures forall y, x :: 0 <= y < 16 && 0 <= x < 16 ==> pico8Data[y][x] == Quantize(img.rows[y][x])
  {
    pico8Data := [];
    var y := 0;
    while y < 16
      invariant 0 <= y <= 16
      invariant |pico8Data| == y
      invariant forall i :: 0 <= i < y ==> |pico8Data[i]| == 16
      invariant forall i, j :: 0 <= i < y && 0 <= j < 16 ==> pico8Data[i][j] == Quantize(img.rows[i][j])
    {
      var row: seq<Colour> := [];
      var x := 0;
      while x < 16
        invariant 0 <= x <= 16
        invariant |row| == x
        invariant forall j :: 0 <= j < x ==> row[j] == Quantize(img.rows[y][j])
      {
        var pixel := img.rows[y][x];
        var pico8Color := FindClosestPico8Color(pixel);
        row := row + [pico8Color];
        x := x + 1;
      }
      pico8Data := pico8Data + [row];
      y := y + 1;
    }
  }

  /** `convert("RGBA")` on one pixel: an RGB pixel gains an opaque alpha of 255, an RGBA
      pixel is kept as it is. */
  function ToRgba(p: Pixel): (q: Pixel)
    ensures q.RGBA? && q.Channels() == p.Channels()
    ensures p.RGBA? ==> q == p
    ensures p.RGB? ==> q.a == 255
  {
    match p
    case RGB(r, g, b) => RGBA(r, g, b, 255)
    case RGBA(_, _, _, _) => p
  }

  /** Converting to RGBA first does not change the palette index of any pixel. */
  lemma RgbaKeepsColour(p: Pixel)
    ensures Quantize(ToRgba(p)) == Quantize(p)
  {
  }

  /** On a 16x16 image the single-tile conversion reads the same tile as the
      all-sprites tool's extraction at the origin: no cell falls outside the image. */
  lemma ConvertIsOriginTile(img: Image, pico8Data: Tile)
    requires img.Valid() && img.width == 16 && img.height == 16
    requires IsSquare(pico8Data, 16)
    requires forall y, x :: 0 <= y < 16 && 0 <= x < 16 ==> pico8Data[y][x] == Quantize(img.rows[y][x])
    ensures pico8Data == TileAt(img, 0, 0, 16)
  {
    SameTile(pico8Data, TileAt(img, 0, 0, 16), 16);
  }

  /** The input cell (row, column) that cell (xx, yy) of quadrant (dx, dy) is filled from. */
  function Origin(dx: nat, dy: nat, yy: nat, xx: nat): (nat, nat) {
    (yy + 8 * dy, xx + 8 * dx)
  }

  /** Every one of the 256 input cells lands in exactly one quadrant: cell (x, y) is
      cell (x % 8, y % 8) of the quadrant (x / 8, y / 8), and that quadrant cell is
      filled from no other input cell. */
  lemma SplitPartition(data: Tile, y: nat, x: nat)
    requires IsSquare(data, 16) && y < 16 && x < 16
    ensures x / 8 < 2 && y / 8 < 2
    ensures Split(data).Pick(x / 8, y / 8)[y % 8][x % 8] == data[y][x]
    ensures forall dx, dy, yy, xx :: 0 <= dx < 2 && 0 <= dy < 2 && 0 <= yy < 8 && 0 <= xx < 8 ==>
      (Origin(dx, dy, yy, xx) == (y, x) <==> dx == x / 8 && dy == y / 8 && yy == y % 8 && xx == x % 8)
  {
    assert y == 8 * (y / 8) + y % 8 && x == 8 * (x / 8) + x % 8;
    forall dx, dy, yy, xx | 0 <= dx < 2 && 0 <= dy < 2 && 0 <= yy < 8 && 0 <= xx < 8 && Origin(dx, dy, yy, xx) == (y, x)
      ensures dx == x / 8 && dy == y / 8 && yy == y % 8 && xx == x % 8
    {
      RowMajor(dy, yy, 8);
      RowMajor(dx, xx, 8);
    }
  }

  /** `split_into_8x8_sprites` followed by putting the four sprites back in place
      reproduces the converted 16x16 grid. */
  lemma SplitThenReassemble(data: Tile, sprites: Quadrants)
    requires IsSquare(data, 16)
    requires sprites == Split(data)
    ensures sprites.Valid()
    ensures Reassemble(sprites) == data
  {
    ReassembleSplit(data);
  }

  /** `sprite_to_hex_string` of an 8x8 sprite: 8 lines of 8 lowercase digits, each line
      reading back as its row. */
  lemma SpriteHexShape(sprite: Tile, hexLines: seq<string>)
    requires IsSquare(sprite, 8)
    requires hexLines == HexLines(sprite)
    ensures |hexLines| == 8
    ensures forall i :: 0 <= i < 8 ==> |hexLines[i]| == 8 && DecodeDigits(hexLines[i]) == Some(sprite[i])
    ensures forall i, j :: 0 <= i < 8 && 0 <= j < 8 ==> hexLines[i][j] in HexChars
  {
    forall i | 0 <= i < 8
      ensures |hexLines[i]| == 8 && DecodeDigits(hexLines[i]) == Some(sprite[i])
    {
      HexLineDecodes(sprite[i]);
    }
  }

  /** Two 8x8 sprites with the same hex lines are the same sprite: the digit encoding
      loses nothing. */
  lemma SpriteHexInjective(a: Tile, b: Tile)
    requires IsSquare(a, 8) && IsSquare(b, 8)
    requires HexLines(a) == HexLines(b)
    ensures a == b
  {
    forall i | 0 <= i < 8
      ensures a[i] == b[i]
    {
      assert HexLines(a)[i] == HexLines(b)[i];
      HexLineInjective(a[i], b[i]);
    }
  }

  /** The conversion part of `main` without its printing: convert, split, and write
      the four sprites in the order top-left, top-right, bottom-left, bottom-right. */
  method ConvertToHexBlocks(img: Image) returns (tlHex: seq<string>, trHex: seq<string>, blHex: seq<string>, brHex: seq<string>)
    requires img.Valid() && img.width == 16 && img.height == 16
    ensures var q := Split(TileAt(img, 0, 0, 16));
      && tlHex == HexLines(q.topLeft) && trHex == HexLines(q.topRight)
      && blHex == HexLines(q.bottomLeft) && brHex == HexLines(q.bottomRight)
  {
    var pico8Data := ConvertPngToPico8(img);
    ConvertIsOriginTile(img, pico8Data);
    var sprites := Split16x16To8x8(pico8Data);
    tlHex := SpriteToHexString(sprites.topLeft);
    trHex := SpriteToHexString(sprites.topRight);
    blHex := SpriteToHexString(sprites.bottomLeft);
    brHex := SpriteToHexString(sprites.bottomRight);
  }

  /** The printed blocks carry the whole image: the line for row `y % 8` of block
      (x / 8, y / 8) reads back as a row whose digit `x % 8` is the quantised pixel (x, y). */
  lemma HexBlocksRecoverPixels(img: Image, y: nat, x: nat)
    requires img.Valid() && img.width == 16 && img.height == 16 && y < 16 && x < 16
    ensures x / 8 < 2 && y / 8 < 2
    ensures var line := HexLines(Split(TileAt(img, 0, 0, 16)).Pick(x / 8, y / 8))[y % 8];
      && |line| == 8
      && DecodeDigits(line).Some? && |DecodeDigits(line).value| == 8
      && DecodeDigits(line).value[x % 8] == Quantize(img.rows[y][x])
  {
    var data := TileAt(img, 0, 0, 16);
    SplitPartition(data, y, x);
    var sprite := Split(data).Pick(x / 8, y / 8);
    SpriteHexShape(sprite, HexLines(sprite));
  }
}

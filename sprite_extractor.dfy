/** The general extractor: cuts an RGB image into square sprites of one size (8, 16 or 32),
    lays them out slot by slot on the 128x128 PICO-8 sprite sheet, and writes the sheet as
    `__gfx__` text with two pixels to each hex byte. */
module SpriteExtractor {
  import opened Images
  import opened Palette
  import opened Hex
  import opened Wrappers

  // ---------------------------------------------------------------------------
  // Tiling the image
  // ---------------------------------------------------------------------------

  /** One entry of the list `extract_sprites_from_png` returns. */
  datatype Sprite = Sprite(id: nat, x: nat, y: nat, size: nat, data: Tile)

  /** The palette index `rgb_to_pico8_color` gives to pixel (left + px, top + py). */
  function PixelAt(img: Grid<Rgb>, left: nat, top: nat, px: nat, py: nat): Colour
    requires img.Valid() && left + px < img.width && top + py < img.height
  {
    Nearest(img.rows[top + py][left + px])
  }

  /** Row `py` of the block whose top-left pixel is (left, top): `size` quantised pixels. */
  function BlockRow(img: Grid<Rgb>, left: nat, top: nat, py: nat, size: nat): (row: seq<Colour>)
    requires img.Valid() && left + size <= img.width && top + py < img.height
    ensures |row| == size
  {
    seq(size, px requires 0 <= px < size => PixelAt(img, left, top, px, py))
  }

  /** The `size` x `size` block of quantised pixels whose top-left pixel is (left, top). */
  function Block(img: Grid<Rgb>, left: nat, top: nat, size: nat): (t: Tile)
    requires img.Valid() && left + size <= img.width && top + size <= img.height
    ensures IsSquare(t, size)
  {
    seq(size, py requires 0 <= py < size => BlockRow(img, left, top, py, size))
  }

  /** The sprite for tile `k` in row-major order, `across` tiles to a row of the image. */
  function SpriteAt(img: Grid<Rgb>, size: nat, k: nat): Sprite
    requires img.Valid() && 0 < size && k < (img.height / size) * (img.width / size)
  {
    TilePlace(k, img.width, img.height, size);
    var across := img.width / size;
    var x: nat, y: nat := k % across, k / across;
    Sprite(k, x, y, size, Block(img, x * size, y * size, size))
  }

  /** The inner pixel loop over one row of the cropped region: each pixel in turn through
      `rgb_to_pico8_color`. */
  method ReadRow(img: Grid<Rgb>, left: nat, top: nat, py: nat, size: nat) returns (row: seq<Colour>)
    requires img.Valid() && left + size <= img.width && top + py < img.height
    ensures row == BlockRow(img, left, top, py, size)
  {
    row := [];
    var px := 0;
    while px < size
      invariant 0 <= px <= size
      invariant |row| == px
      invariant forall j :: 0 <= j < px ==> row[j] == PixelAt(img, left, top, j, py)
    {
      var pico8Color := NearestColor(img.rows[top + py][left + px]);
      row := row + [pico8Color];
      px := px + 1;
    }
  }

  /** The two pixel loops over the cropped region, row by row. */
  method ReadBlock(img: Grid<Rgb>, left: nat, top: nat, size: nat) returns (spriteData: Tile)
    requires img.Valid() && left + size <= img.width && top + size <= img.height
    ensures spriteData == Block(img, left, top, size)
  {
    spriteData := [];
    var py := 0;
    while py < size
      invariant 0 <= py <= size
      invariant spriteData == Block(img, left, top, size)[..py]
    {
      var row := ReadRow(img, left, top, py, size);
      spriteData := spriteData + [row];
      py := py + 1;
    }
  }

  /** `extract_sprites_from_png` once the image is loaded as RGB: every whole tile, row by
      row. A size of 0 makes the source's `width // sprite_size` fail, which its handler
      turns into an empty list. */
  method ExtractSpritesFromPng(img: Grid<Rgb>, spriteSize: nat) returns (sprites: seq<Sprite>)
    requires img.Valid()
    ensures spriteSize == 0 ==> sprites == []
    ensures spriteSize > 0 ==> |sprites| == (img.height / spriteSize) * (img.width / spriteSize)
    ensures forall k :: 0 <= k < |sprites| ==> spriteSize > 0 && sprites[k] == SpriteAt(img, spriteSize, k)
  {
    if spriteSize == 0 {
      return [];
    }
    var spritesX := img.width / spriteSize;
    var spritesY := img.height / spriteSize;
    ghost var total: nat := spritesY * spritesX;
    sprites := [];
    var y := 0;
    while y < spritesY
      invariant 0 <= y <= spritesY
      invariant |sprites| == y * spritesX
      invariant |sprites| <= total
      invariant forall k :: 0 <= k < |sprites| ==> sprites[k] == SpriteAt(img, spriteSize, k)
    {
      ghost var start := |sprites|;
      assert start + spritesX <= total by {
        MulMono(y + 1, spritesY, spritesX);
      }
      var x := 0;
      while x < spritesX
        invariant 0 <= x <= spritesX
        invariant |sprites| == start + x
        invariant forall k :: 0 <= k < |sprites| ==> sprites[k] == SpriteAt(img, spriteSize, k)
      {
        var sprite := ReadSprite(img, spriteSize, x, y);
        sprites := sprites + [sprite];
        x := x + 1;
      }
      assert (y + 1) * spritesX == start + spritesX;
      y := y + 1;
    }
  }

  /** One pass of the inner loop of `extract_sprites_from_png`: the tile `x` across and
      `y` down, cropped and quantised, recorded with its position in the list. */
  method ReadSprite(img: Grid<Rgb>, size: nat, x: nat, y: nat) returns (sprite: Sprite)
    requires img.Valid() && 0 < size && x < img.width / size && y < img.height / size
    ensures y * (img.width / size) + x < (img.height / size) * (img.width / size)
    ensures sprite == SpriteAt(img, size, y * (img.width / size) + x)
  {
    SpriteAtTile(img, size, x, y);
    var left: nat, top: nat := x * size, y * size;
    var spriteData := ReadBlock(img, left, top, size);
    sprite := Sprite(y * (img.width / size) + x, x, y, size, spriteData);
  }

  /** The tile `x` across and `y` down is the one numbered `y * across + x`, and it lies
      wholly inside the image. */
  lemma SpriteAtTile(img: Grid<Rgb>, size: nat, x: nat, y: nat)
    requires img.Valid() && 0 < size && x < img.width / size && y < img.height / size
    ensures var k := y * (img.width / size) + x;
      && k < (img.height / size) * (img.width / size)
      && x * size + size <= img.width && y * size + size <= img.height
      && SpriteAt(img, size, k) == Sprite(k, x, y, size, Block(img, x * size, y * size, size))
  {
    var across := img.width / size;
    RowMajor(y, x, across);
    assert (y + 1) * across <= (img.height / size) * across by {
      MulMono(y + 1, img.height / size, across);
    }
    TileInside(x, size, img.width);
    TileInside(y, size, img.height);
  }

  /** Sprite k sits `k % across` tiles across and `k / across` tiles down, wholly inside
      the image. */
  lemma SpriteAtInside(img: Grid<Rgb>, size: nat, k: nat)
    requires img.Valid() && 0 < size && k < (img.height / size) * (img.width / size)
    ensures var s, across := SpriteAt(img, size, k), img.width / size;
      && s.id == k && s.size == size
      && s.x < across && s.y < img.height / size && s.y * across + s.x == k
      && s.x * size + size <= img.width && s.y * size + size <= img.height
      && s.data == Block(img, s.x * size, s.y * size, size)
  {
    TilePlace(k, img.width, img.height, size);
  }

  /** Pixel (px, py) of a block is the quantised image pixel at (left + px, top + py). */
  lemma BlockPixel(img: Grid<Rgb>, left: nat, top: nat, size: nat, py: nat, px: nat)
    requires img.Valid() && left + size <= img.width && top + size <= img.height
    requires py < size && px < size
    ensures Block(img, left, top, size)[py][px] == Nearest(img.rows[top + py][left + px])
  {
    assert Block(img, left, top, size)[py] == BlockRow(img, left, top, py, size);
  }

  /** Each pixel of sprite k is the quantised image pixel at (x * size + px, y * size + py). */
  lemma SpritePixels(img: Grid<Rgb>, size: nat, k: nat, py: nat, px: nat)
    requires img.Valid() && 0 < size && k < (img.height / size) * (img.width / size)
    requires py < size && px < size
    ensures var s := SpriteAt(img, size, k);
      && s.x * size + px < img.width && s.y * size + py < img.height
      && s.data[py][px] == Nearest(img.rows[s.y * size + py][s.x * size + px])
  {
    SpriteAtInside(img, size, k);
    var s := SpriteAt(img, size, k);
    BlockPixel(img, s.x * size, s.y * size, size, py, px);
  }

  // ---------------------------------------------------------------------------
  // Laying sprites out on the sheet
  // ---------------------------------------------------------------------------

  /** The blank sheet: 128 rows of 128 pixels of colour 0. */
  function BlankRow(): (row: seq<Colour>)
    ensures |row| == 128 && forall c :: 0 <= c < 128 ==> row[c] == 0
  {
    seq(128, c => 0)
  }

  function BlankSheet(): (s: Tile)
    ensures IsSquare(s, 128) && forall r, c :: 0 <= r < 128 && 0 <= c < 128 ==> s[r][c] == 0
  {
    seq(128, r => BlankRow())
  }

  /** `data` has at least `n` rows of at least `n` pixels, so the copy loops can read it. */
  predicate AtLeast(data: Tile, n: nat) {
    |data| >= n && forall y :: 0 <= y < n ==> |data[y]| >= n
  }

  /** A sprite whose size is one the layout handles carries data of that size. */
  predicate Readable(s: Sprite) {
    (s.size == 8 || s.size == 16 || s.size == 32) ==> AtLeast(s.data, s.size)
  }

  /** The pixel row and column of the top-left corner of slot `slot` (`sheet_y`, `sheet_x`). */
  function SlotTop(slot: nat): nat { (slot / 16) * 8 }
  function SlotLeft(slot: nat): nat { (slot % 16) * 8 }

  /** Whether a sprite of this size is placed at `slot`: an 8x8 sprite always is, a 16x16
      one needs slot column and row at most 14, a 32x32 one at most 12, and a sprite of
      any other size matches no branch and is passed over. */
  predicate Fits(slot: nat, size: nat) {
    || size == 8
    || (size == 16 && !(slot % 16 > 16 - 2 || slot / 16 > 16 - 2))
    || (size == 32 && !(slot % 16 > 16 - 4 || slot / 16 > 16 - 4))
  }

  /** `n` rounds of "if the slot is at a row start, move it down one row". */
  function SkipRows(slot: nat, n: nat): nat
    decreases n
  {
    if n == 0 then slot else SkipRows(if slot % 16 == 0 then slot + 16 else slot, n - 1)
  }

  /** The slot after a sprite of this size has been placed at `slot`. */
  function NextSlot(slot: nat, size: nat): nat {
    if size == 8 then slot + 1
    else if size == 16 then (if (slot + 2) % 16 == 0 then slot + 2 + 16 else slot + 2)
    else if size == 32 then SkipRows(slot + 4, 3)
    else slot
  }

  /** A sprite that passes the fit check at a slot below 256 lies wholly on the sheet, so
      every row and column the copy loops write lies in 0..127. */
  lemma PlacementInBounds(slot: nat, size: nat)
    requires slot < 16 * 16 && Fits(slot, size)
    ensures SlotTop(slot) + size <= 128 && SlotLeft(slot) + size <= 128
  {
  }

  /** The pixel at (r, c) once the n x n block `data` is copied with its corner at (top, left). */
  function BlitCell(sheet: Tile, top: nat, left: nat, data: Tile, n: nat, r: nat, c: nat): Colour
    requires IsSquare(sheet, 128) && AtLeast(data, n) && r < 128 && c < 128
  {
    if top <= r < top + n && left <= c < left + n then data[r - top][c - left] else sheet[r][c]
  }

  function BlitRow(sheet: Tile, top: nat, left: nat, data: Tile, n: nat, r: nat): (row: seq<Colour>)
    requires IsSquare(sheet, 128) && AtLeast(data, n) && r < 128
    ensures |row| == 128
  {
    seq(128, c requires 0 <= c < 128 => BlitCell(sheet, top, left, data, n, r, c))
  }

  /** The sheet with the n x n block `data` copied to it, corner at (top, left); the block
      must lie on the sheet, as a write past row or column 127 raises an error. */
  function Blit(sheet: Tile, top: nat, left: nat, data: Tile, n: nat): (s: Tile)
    requires IsSquare(sheet, 128) && AtLeast(data, n) && top + n <= 128 && left + n <= 128
    ensures IsSquare(s, 128)
  {
    seq(128, r requires 0 <= r < 128 => BlitRow(sheet, top, left, data, n, r))
  }

  /** The sheet `sprites_to_pico8_format` ends with when it starts from `sheet` at `slot`
      with `sprites` still to place. */
  function Layout(sheet: Tile, slot: nat, sprites: seq<Sprite>): (s: Tile)
    requires IsSquare(sheet, 128)
    requires forall i :: 0 <= i < |sprites| ==> Readable(sprites[i])
    ensures IsSquare(s, 128)
    decreases |sprites|
  {
    if sprites == [] || slot >= 16 * 16 then sheet
    else if Fits(slot, sprites[0].size) then
      var sprite := sprites[0];
      assert Readable(sprite);
      PlacementInBounds(slot, sprite.size);
      Layout(Blit(sheet, SlotTop(slot), SlotLeft(slot), sprite.data, sprite.size),
             NextSlot(slot, sprite.size), sprites[1..])
    else Layout(sheet, slot, sprites[1..])
  }

  /** Cell (r, c) lies in the n x n block whose corner is at (top, left). */
  predicate InBlock(top: nat, left: nat, n: nat, r: int, c: int) {
    top <= r < top + n && left <= c < left + n
  }

  /** Cell (r, c) lies in 8x8 chunk (cy, cx) of the block whose corner is at (top, left). */
  predicate InChunk(top: nat, left: nat, cy: nat, cx: nat, r: int, c: int) {
    InBlock(top + 8 * cy, left + 8 * cx, 8, r, c)
  }

  /** Position (y, x) comes before (y0, x0) in row-major order. */
  predicate Before(y: int, x: int, y0: int, x0: int) {
    y < y0 || (y == y0 && x < x0)
  }

  /** A sheet whose every cell is the one `BlitCell` describes is the blitted sheet. */
  lemma BlitByCells(sheet: Tile, out: Tile, top: nat, left: nat, data: Tile, n: nat)
    requires IsSquare(sheet, 128) && IsSquare(out, 128)
    requires AtLeast(data, n) && top + n <= 128 && left + n <= 128
    requires forall r, c :: 0 <= r < 128 && 0 <= c < 128 ==>
      out[r][c] == if InBlock(top, left, n, r, c) then data[r - top][c - left] else sheet[r][c]
    ensures out == Blit(sheet, top, left, data, n)
  {
    var b := Blit(sheet, top, left, data, n);
    forall r, c | 0 <= r < 128 && 0 <= c < 128
      ensures out[r][c] == b[r][c]
    {
      assert b[r] == BlitRow(sheet, top, left, data, n, r);
    }
    SameTile(out, b, 128);
  }

  /** The two 8-step pixel loops: chunk (cy, cx) of `data` copied to the matching place of
      the block whose corner is at (top, left). The direct loop for an 8x8 sprite is chunk
      (0, 0); the chunks of a larger sprite read `data[chunk_y * 8 + y][chunk_x * 8 + x]`. */
  method CopyChunk(sheet: Tile, top: nat, left: nat, data: Tile, n: nat, cy: nat, cx: nat)
    returns (out: Tile)
    requires IsSquare(sheet, 128) && AtLeast(data, n) && top + n <= 128 && left + n <= 128
    requires 8 * cy + 8 <= n && 8 * cx + 8 <= n
    ensures IsSquare(out, 128)
    ensures forall r, c :: 0 <= r < 128 && 0 <= c < 128 ==>
      out[r][c] == if InChunk(top, left, cy, cx, r, c) then data[r - top][c - left] else sheet[r][c]
  {
    var chunkSheetX := left + cx * 8;
    var chunkSheetY := top + cy * 8;
    out := sheet;
    var y := 0;
    while y < 8
      invariant 0 <= y <= 8
      invariant IsSquare(out, 128)
      invariant forall r, c :: 0 <= r < 128 && 0 <= c < 128 ==>
        out[r][c] == if InChunk(top, left, cy, cx, r, c) && r - chunkSheetY < y
                     then data[r - top][c - left] else sheet[r][c]
    {
      var x := 0;
      while x < 8
        invariant 0 <= x <= 8
        invariant IsSquare(out, 128)
        invariant forall r, c :: 0 <= r < 128 && 0 <= c < 128 ==>
          out[r][c] == if InChunk(top, left, cy, cx, r, c) && Before(r - chunkSheetY, c - chunkSheetX, y, x)
                       then data[r - top][c - left] else sheet[r][c]
      {
        var srcY := cy * 8 + y;
        var srcX := cx * 8 + x;
        out := out[chunkSheetY + y := out[chunkSheetY + y][chunkSheetX + x := data[srcY][srcX]]];
        x := x + 1;
      }
      y := y + 1;
    }
  }

  /** The chunk loops for a sprite of m x m chunks (`range(2)` for 16x16, `range(4)` for
      32x32): the whole sprite copied to the block whose corner is at (top, left). */
  method CopyChunks(sheet: Tile, top: nat, left: nat, data: Tile, m: nat) returns (out: Tile)
    requires IsSquare(sheet, 128) && AtLeast(data, 8 * m) && top + 8 * m <= 128 && left + 8 * m <= 128
    ensures out == Blit(sheet, top, left, data, 8 * m)
  {
    out := sheet;
    var chunkY := 0;
    while chunkY < m
      invariant 0 <= chunkY <= m
      invariant IsSquare(out, 128)
      invariant forall r, c :: 0 <= r < 128 && 0 <= c < 128 ==>
        out[r][c] == if InBlock(top, left, 8 * m, r, c) && (r - top) / 8 < chunkY
                     then data[r - top][c - left] else sheet[r][c]
    {
      var chunkX := 0;
      while chunkX < m
        invariant 0 <= chunkX <= m
        invariant IsSquare(out, 128)
        invariant forall r, c :: 0 <= r < 128 && 0 <= c < 128 ==>
          out[r][c] == if InBlock(top, left, 8 * m, r, c) && Before((r - top) / 8, (c - left) / 8, chunkY, chunkX)
                       then data[r - top][c - left] else sheet[r][c]
      {
        out := CopyChunk(out, top, left, data, 8 * m, chunkY, chunkX);
        chunkX := chunkX + 1;
      }
      chunkY := chunkY + 1;
    }
    BlitByCells(sheet, out, top, left, data, 8 * m);
  }

  /** One round of `Layout`, for the sprite at position `i` of the list. */
  lemma LayoutUnfold(sheet: Tile, slot: nat, sprites: seq<Sprite>, i: nat)
    requires IsSquare(sheet, 128) && i < |sprites|
    requires forall k :: 0 <= k < |sprites| ==> Readable(sprites[k])
    ensures slot >= 16 * 16 ==> Layout(sheet, slot, sprites[i..]) == sheet
    ensures slot < 16 * 16 && !Fits(slot, sprites[i].size) ==>
      Layout(sheet, slot, sprites[i..]) == Layout(sheet, slot, sprites[i + 1..])
    ensures slot < 16 * 16 && Fits(slot, sprites[i].size) ==>
      SlotTop(slot) + sprites[i].size <= 128 && SlotLeft(slot) + sprites[i].size <= 128 &&
      Layout(sheet, slot, sprites[i..]) ==
      Layout(Blit(sheet, SlotTop(slot), SlotLeft(slot), sprites[i].data, sprites[i].size),
             NextSlot(slot, sprites[i].size), sprites[i + 1..])
  {
    assert sprites[i..][0] == sprites[i] && sprites[i..][1..] == sprites[i + 1..];
    assert Readable(sprites[i]);
    if slot < 16 * 16 && Fits(slot, sprites[i].size) {
      PlacementInBounds(slot, sprites[i].size);
    }
  }

  /** The body of the loop of `sprites_to_pico8_format` for one sprite at a slot below 256:
      the copy and the slot advance for each of the three sizes, or nothing at all when the
      fit check fails (the source's `continue`) or the size is none of the three. */
  method PlaceSprite(spriteSheet: Tile, spriteIndex: nat, sprite: Sprite) returns (s: Tile, next: nat)
    requires IsSquare(spriteSheet, 128) && spriteIndex < 16 * 16 && Readable(sprite)
    ensures Fits(spriteIndex, sprite.size) ==>
      && SlotTop(spriteIndex) + sprite.size <= 128 && SlotLeft(spriteIndex) + sprite.size <= 128
      && s == Blit(spriteSheet, SlotTop(spriteIndex), SlotLeft(spriteIndex), sprite.data, sprite.size)
      && next == NextSlot(spriteIndex, sprite.size)
    ensures !Fits(spriteIndex, sprite.size) ==> s == spriteSheet && next == spriteIndex
  {
    var gridSize := 16;
    s, next := spriteSheet, spriteIndex;
    var sheetX := (spriteIndex % gridSize) * 8;
    var sheetY := (spriteIndex / gridSize) * 8;
    if sprite.size == 8 {
      s := CopyChunk(spriteSheet, sheetY, sheetX, sprite.data, 8, 0, 0);
      BlitByCells(spriteSheet, s, sheetY, sheetX, sprite.data, 8);
      next := spriteIndex + 1;
    } else if sprite.size == 16 {
      if spriteIndex % gridSize > gridSize - 2 || spriteIndex / gridSize > gridSize - 2 {
        return;
      }
      s := CopyChunks(spriteSheet, sheetY, sheetX, sprite.data, 2);
      next := spriteIndex + 2;
      if next % gridSize == 0 {
        next := next + gridSize;
      }
    } else if sprite.size == 32 {
      if spriteIndex % gridSize > gridSize - 4 || spriteIndex / gridSize > gridSize - 4 {
        return;
      }
      s := CopyChunks(spriteSheet, sheetY, sheetX, sprite.data, 4);
      next := spriteIndex + 4;
      var skipped := 0;
      while skipped < 3
        invariant 0 <= skipped <= 3
        invariant SkipRows(next, 3 - skipped) == SkipRows(spriteIndex + 4, 3)
      {
        if next % gridSize == 0 {
          next := next + gridSize;
        }
        skipped := skipped + 1;
      }
    }
  }

  /** `sprites_to_pico8_format`: a blank sheet, then each sprite in turn at the current slot,
      stopping once the slot reaches 256. */
  method SpritesToPico8Format(sprites: seq<Sprite>) returns (spriteSheet: Tile)
    requires forall i :: 0 <= i < |sprites| ==> Readable(sprites[i])
    ensures spriteSheet == Layout(BlankSheet(), 0, sprites)
  {
    var gridSize := 16;
    spriteSheet := BlankSheet();
    var spriteIndex := 0;
    var i := 0;
    while i < |sprites|
      invariant 0 <= i <= |sprites|
      invariant IsSquare(spriteSheet, 128)
      invariant Layout(spriteSheet, spriteIndex, sprites[i..]) == Layout(BlankSheet(), 0, sprites)
    {
      LayoutUnfold(spriteSheet, spriteIndex, sprites, i);
      if spriteIndex >= gridSize * gridSize {
        break;
      }
      spriteSheet, spriteIndex := PlaceSprite(spriteSheet, spriteIndex, sprites[i]);
      i := i + 1;
    }
  }

  // ---------------------------------------------------------------------------
  // Properties of the layout
  // ---------------------------------------------------------------------------

  /** The three rounds of row skipping after a 32x32 sprite move the slot down three rows
      when it has reached a row start, and leave it alone otherwise. */
  lemma SkipRowsThree(slot: nat)
    ensures SkipRows(slot, 3) == if slot % 16 == 0 then slot + 48 else slot
  {
    var s1 := if slot % 16 == 0 then slot + 16 else slot;
    var s2 := if s1 % 16 == 0 then s1 + 16 else s1;
    assert SkipRows(slot, 3) == SkipRows(s1, 2) == SkipRows(s2, 1);
  }

  /** A placed sprite moves the slot on: by 1 for 8x8; by 2 for 16x16, and a further row
      when that reaches a row start; by 4 for 32x32, and a further three rows then. */
  lemma NextSlotAdvance(slot: nat, size: nat)
    requires Fits(slot, size)
    ensures size == 8 ==> NextSlot(slot, size) == slot + 1
    ensures size == 16 ==> NextSlot(slot, size) == slot + 2 + (if (slot + 2) % 16 == 0 then 16 else 0)
    ensures size == 32 ==> NextSlot(slot, size) == slot + 4 + (if (slot + 4) % 16 == 0 then 48 else 0)
  {
    SkipRowsThree(slot + 4);
  }

  /** Cell (r, c) is written by some sprite that the layout places, starting at `slot`. */
  predicate Covered(slot: nat, sprites: seq<Sprite>, r: int, c: int)
    decreases |sprites|
  {
    && sprites != [] && slot < 16 * 16
    && if Fits(slot, sprites[0].size)
       then InBlock(SlotTop(slot), SlotLeft(slot), sprites[0].size, r, c)
            || Covered(NextSlot(slot, sprites[0].size), sprites[1..], r, c)
       else Covered(slot, sprites[1..], r, c)
  }

  /** A cell no placed sprite covers keeps the value it had; on the blank sheet, 0. */
  lemma {:induction false} LayoutKeepsUncovered(sheet: Tile, slot: nat, sprites: seq<Sprite>, r: nat, c: nat)
    requires IsSquare(sheet, 128) && r < 128 && c < 128
    requires forall i :: 0 <= i < |sprites| ==> Readable(sprites[i])
    requires !Covered(slot, sprites, r, c)
    ensures Layout(sheet, slot, sprites)[r][c] == sheet[r][c]
    decreases |sprites|
  {
    if sprites != [] && slot < 16 * 16 {
      var sprite := sprites[0];
      assert Readable(sprite);
      if Fits(slot, sprite.size) {
        PlacementInBounds(slot, sprite.size);
        var b := Blit(sheet, SlotTop(slot), SlotLeft(slot), sprite.data, sprite.size);
        assert b[r][c] == sheet[r][c] by {
          assert b[r] == BlitRow(sheet, SlotTop(slot), SlotLeft(slot), sprite.data, sprite.size, r);
        }
        LayoutKeepsUncovered(b, NextSlot(slot, sprite.size), sprites[1..], r, c);
      } else {
        LayoutKeepsUncovered(sheet, slot, sprites[1..], r, c);
      }
    }
  }

  /** Once the slot stands in the last column, no 16x16 sprite fits and none moves the slot,
      so every later 16x16 sprite is passed over and the sheet stays as it is. */
  lemma {:induction false} StuckInLastColumn(sheet: Tile, slot: nat, sprites: seq<Sprite>)
    requires IsSquare(sheet, 128) && slot % 16 == 15
    requires forall i :: 0 <= i < |sprites| ==> sprites[i].size == 16 && Readable(sprites[i])
    ensures Layout(sheet, slot, sprites) == sheet
    decreases |sprites|
  {
    if sprites != [] && slot < 16 * 16 {
      assert !Fits(slot, sprites[0].size);
      StuckInLastColumn(sheet, slot, sprites[1..]);
    }
  }

  /** A list of 16x16 or of 32x32 sprites alone never brings the slot to the last column:
      the column of the k-th slot is a multiple of the sprite's slot width. */
  lemma UniformNeverInLastColumn(n: nat, k: nat)
    requires n == 16 || n == 32
    ensures SlotOf(n, k) % 16 == (k % PerRow(n)) * SlotWidth(n)
    ensures SlotOf(n, k) % 16 != 15
  {
    var a, b := k / PerRow(n), k % PerRow(n);
    SlotSplit(a, b, SlotWidth(n));
  }

  // A list of sprites all of one size n fills the sheet in a regular grid: 128 / n sprites
  // to a row of the sheet, row after row, until the sheet is full.

  predicate SupportedSize(n: nat) {
    n == 8 || n == 16 || n == 32
  }

  /** Every sprite has size n and data of that size. */
  predicate AllOfSize(sprites: seq<Sprite>, n: nat) {
    forall i :: 0 <= i < |sprites| ==> sprites[i].size == n && AtLeast(sprites[i].data, n)
  }

  /** Sprites of size n to a row of the sheet, 128 / n. */
  function PerRow(n: nat): nat
    requires SupportedSize(n)
  {
    if n == 8 then 16 else if n == 16 then 8 else 4
  }

  /** Slots a sprite of size n spans across and down, n / 8. */
  function SlotWidth(n: nat): nat
    requires SupportedSize(n)
  {
    if n == 8 then 1 else if n == 16 then 2 else 4
  }

  /** How many sprites of size n the sheet holds: 256, 64 or 16. */
  function Capacity(n: nat): nat
    requires SupportedSize(n)
  {
    PerRow(n) * PerRow(n)
  }

  /** The slot of the k-th sprite when all have size n. */
  function SlotOf(n: nat, k: nat): nat
    requires SupportedSize(n)
  {
    (k / PerRow(n)) * (16 * SlotWidth(n)) + (k % PerRow(n)) * SlotWidth(n)
  }

  /** The number of the sprite whose block holds cell (r, c) in that grid. */
  function CellSprite(n: nat, r: nat, c: nat): nat
    requires SupportedSize(n)
  {
    (r / n) * PerRow(n) + c / n
  }

  /** Cell (r, c) once the first j sprites are placed in the grid. */
  function GridCell(sprites: seq<Sprite>, n: nat, j: nat, r: nat, c: nat): Colour
    requires SupportedSize(n) && AllOfSize(sprites, n) && j <= |sprites| && r < 128 && c < 128
  {
    var k := CellSprite(n, r, c);
    if k < j then sprites[k].data[r % n][c % n] else 0
  }

  function GridRow(sprites: seq<Sprite>, n: nat, j: nat, r: nat): (row: seq<Colour>)
    requires SupportedSize(n) && AllOfSize(sprites, n) && j <= |sprites| && r < 128
    ensures |row| == 128
  {
    seq(128, c requires 0 <= c < 128 => GridCell(sprites, n, j, r, c))
  }

  /** The sheet once the first j sprites are placed in the grid. */
  function GridSheet(sprites: seq<Sprite>, n: nat, j: nat): (s: Tile)
    requires SupportedSize(n) && AllOfSize(sprites, n) && j <= |sprites|
    ensures IsSquare(s, 128)
  {
    seq(128, r requires 0 <= r < 128 => GridRow(sprites, n, j, r))
  }

  lemma GridAt(sprites: seq<Sprite>, n: nat, j: nat, r: nat, c: nat)
    requires SupportedSize(n) && AllOfSize(sprites, n) && j <= |sprites| && r < 128 && c < 128
    ensures GridSheet(sprites, n, j)[r][c] == GridCell(sprites, n, j, r, c)
  {
    assert GridSheet(sprites, n, j)[r] == GridRow(sprites, n, j, r);
  }

  /** Row-major slot arithmetic for a grid whose sprites are `w` slots wide, `16 / w` to a
      row: sprite (a, b) sits at slot row a * w and slot column b * w. */
  lemma SlotSplit(a: nat, b: nat, w: nat)
    requires (w == 1 || w == 2 || w == 4) && b * w < 16
    ensures (a * (16 * w) + b * w) / 16 == a * w && (a * (16 * w) + b * w) % 16 == b * w
  {
    assert a * (16 * w) == (a * w) * 16;
    RowMajor(a * w, b * w, 16);
  }

  /** Placing an 8x8 sprite at grid position (a, b) (one slot wide, 16 to a row) moves the
      slot to grid position (a, b + 1), or to (a + 1, 0) at the end of a grid row. */
  lemma GridStep8(a: nat, b: nat)
    requires b < 16
    ensures NextSlot(a * 16 + b * 1, 8) ==
      if b + 1 < 16 then a * 16 + (b + 1) * 1 else (a + 1) * 16
  {
  }

  /** The same for 16x16 sprites: two slots wide and tall, eight to a row. */
  lemma GridStep16(a: nat, b: nat)
    requires b < 8
    ensures NextSlot(a * 32 + b * 2, 16) ==
      if b + 1 < 8 then a * 32 + (b + 1) * 2 else (a + 1) * 32
  {
  }

  /** The same for 32x32 sprites: four slots wide and tall, four to a row. */
  lemma GridStep32(a: nat, b: nat)
    requires b < 4
    ensures NextSlot(a * 64 + b * 4, 32) ==
      if b + 1 < 4 then a * 64 + (b + 1) * 4 else (a + 1) * 64
  {
    var s := a * 64 + b * 4 + 4;
    SkipRowsThree(s);
    if b < 3 {
      assert s == (a * 4) * 16 + (b * 4 + 4);
      RowMajor(a * 4, b * 4 + 4, 16);
    } else {
      assert s == (a * 4 + 1) * 16 + 0;
      RowMajor(a * 4 + 1, 0, 16);
    }
  }

  lemma SlotOfFacts8(k: nat)
    requires k < 256
    ensures SlotOf(8, k) < 16 * 16 && Fits(SlotOf(8, k), 8)
    ensures SlotTop(SlotOf(8, k)) == (k / 16) * 8
    ensures SlotLeft(SlotOf(8, k)) == (k % 16) * 8
    ensures NextSlot(SlotOf(8, k), 8) == SlotOf(8, k + 1)
  {
    assert PerRow(8) == 16;
    var a, b := k / 16, k % 16;
    SlotSplit(a, b, 1);
    GridStep8(a, b);
    if b + 1 < 16 {
      assert (k + 1) / 16 == a && (k + 1) % 16 == b + 1;
    } else {
      assert (k + 1) / 16 == a + 1 && (k + 1) % 16 == 0;
    }
  }

  lemma SlotOfFacts16(k: nat)
    requires k < 64
    ensures SlotOf(16, k) < 16 * 16 && Fits(SlotOf(16, k), 16)
    ensures SlotTop(SlotOf(16, k)) == (k / 8) * 16
    ensures SlotLeft(SlotOf(16, k)) == (k % 8) * 16
    ensures NextSlot(SlotOf(16, k), 16) == SlotOf(16, k + 1)
  {
    assert PerRow(16) == 8;
    var a, b := k / 8, k % 8;
    SlotSplit(a, b, 2);
    GridStep16(a, b);
    if b + 1 < 8 {
      assert (k + 1) / 8 == a && (k + 1) % 8 == b + 1;
    } else {
      assert (k + 1) / 8 == a + 1 && (k + 1) % 8 == 0;
    }
  }

  lemma SlotOfFacts32(k: nat)
    requires k < 16
    ensures SlotOf(32, k) < 16 * 16 && Fits(SlotOf(32, k), 32)
    ensures SlotTop(SlotOf(32, k)) == (k / 4) * 32
    ensures SlotLeft(SlotOf(32, k)) == (k % 4) * 32
    ensures NextSlot(SlotOf(32, k), 32) == SlotOf(32, k + 1)
  {
    assert PerRow(32) == 4;
    var a, b := k / 4, k % 4;
    SlotSplit(a, b, 4);
    GridStep32(a, b);
    if b + 1 < 4 {
      assert (k + 1) / 4 == a && (k + 1) % 4 == b + 1;
    } else {
      assert (k + 1) / 4 == a + 1 && (k + 1) % 4 == 0;
    }
  }

  /** Sprite k of the grid sits at a slot below 256 that passes the fit check, its block's
      corner is at sprite row k / PerRow(n) and column k % PerRow(n), and the slot after it
      is the slot of sprite k + 1. */
  lemma SlotOfFacts(n: nat, k: nat)
    requires SupportedSize(n) && k < Capacity(n)
    ensures SlotOf(n, k) < 16 * 16 && Fits(SlotOf(n, k), n)
    ensures SlotTop(SlotOf(n, k)) == (k / PerRow(n)) * n
    ensures SlotLeft(SlotOf(n, k)) == (k % PerRow(n)) * n
    ensures NextSlot(SlotOf(n, k), n) == SlotOf(n, k + 1)
  {
    if n == 8 {
      SlotOfFacts8(k);
    } else if n == 16 {
      SlotOfFacts16(k);
    } else {
      SlotOfFacts32(k);
    }
  }

  /** Once the sheet holds Capacity(n) sprites, the next slot is 256 or beyond. */
  lemma SlotOfFull(n: nat)
    requires SupportedSize(n)
    ensures SlotOf(n, Capacity(n)) >= 16 * 16
  {
    if n == 8 {
      assert SlotOf(8, 256) == 256;
    } else if n == 16 {
      assert SlotOf(16, 64) == 256;
    } else {
      assert SlotOf(32, 16) == 256;
    }
  }

  /** Row r lies in the band of height n starting at a * n exactly when r / n == a. */
  lemma Band(r: nat, n: nat, a: nat)
    requires n > 0
    ensures a * n <= r < a * n + n <==> r / n == a
    ensures r / n == a ==> r - a * n == r % n
  {
    if a * n <= r < a * n + n {
      RowMajor(a, r - a * n, n);
    }
  }

  /** Cell (r, c) lies in the block of sprite j exactly when j is the sprite of that cell,
      and then it is pixel (r % n, c % n) of the block. */
  lemma CellInBlock(n: nat, j: nat, r: nat, c: nat)
    requires SupportedSize(n) && j < Capacity(n) && r < 128 && c < 128
    ensures CellSprite(n, r, c) < Capacity(n)
    ensures InBlock((j / PerRow(n)) * n, (j % PerRow(n)) * n, n, r, c) <==> CellSprite(n, r, c) == j
    ensures CellSprite(n, r, c) == j ==>
      r - (j / PerRow(n)) * n == r % n && c - (j % PerRow(n)) * n == c % n
  {
    var m := PerRow(n);
    assert m * n == 128;
    var y, x := r / n, c / n;
    DivBelow(r, m, n);
    DivBelow(c, m, n);
    RowMajor(y, x, m);
    assert CellSprite(n, r, c) < Capacity(n) by {
      assert (y + 1) * m <= m * m by { MulMono(y + 1, m, m); }
    }
    var ja, jb := j / m, j % m;
    assert j == ja * m + jb;
    Band(r, n, ja);
    Band(c, n, jb);
  }

  /** Sprites all of one size can be read by the layout. */
  lemma AllOfSizeReadable(sprites: seq<Sprite>, n: nat)
    requires AllOfSize(sprites, n)
    ensures forall i :: 0 <= i < |sprites| ==> Readable(sprites[i])
  {
  }

  /** Copying sprite j of the grid onto the sheet of the first j sprites, at the corner of
      its slot, gives the sheet of the first j + 1. */
  lemma GridBlit(sprites: seq<Sprite>, n: nat, j: nat)
    requires SupportedSize(n) && AllOfSize(sprites, n) && j < |sprites| && j < Capacity(n)
    ensures SlotTop(SlotOf(n, j)) + n <= 128 && SlotLeft(SlotOf(n, j)) + n <= 128
    ensures Blit(GridSheet(sprites, n, j), SlotTop(SlotOf(n, j)), SlotLeft(SlotOf(n, j)), sprites[j].data, n)
      == GridSheet(sprites, n, j + 1)
  {
    SlotOfFacts(n, j);
    PlacementInBounds(SlotOf(n, j), n);
    var top, left := SlotTop(SlotOf(n, j)), SlotLeft(SlotOf(n, j));
    var before, after := GridSheet(sprites, n, j), GridSheet(sprites, n, j + 1);
    var b := Blit(before, top, left, sprites[j].data, n);
    forall r, c | 0 <= r < 128 && 0 <= c < 128
      ensures b[r][c] == after[r][c]
    {
      GridBlitCell(sprites, n, j, r, c);
    }
    SameTile(b, after, 128);
  }

  /** One cell of `GridBlit`. */
  lemma GridBlitCell(sprites: seq<Sprite>, n: nat, j: nat, r: nat, c: nat)
    requires SupportedSize(n) && AllOfSize(sprites, n) && j < |sprites| && j < Capacity(n)
    requires r < 128 && c < 128
    requires SlotTop(SlotOf(n, j)) + n <= 128 && SlotLeft(SlotOf(n, j)) + n <= 128
    ensures Blit(GridSheet(sprites, n, j), SlotTop(SlotOf(n, j)), SlotLeft(SlotOf(n, j)), sprites[j].data, n)[r][c]
      == GridSheet(sprites, n, j + 1)[r][c]
  {
    SlotOfFacts(n, j);
    var top, left := SlotTop(SlotOf(n, j)), SlotLeft(SlotOf(n, j));
    var before, data := GridSheet(sprites, n, j), sprites[j].data;
    var cell := Blit(before, top, left, data, n)[r][c];
    assert cell == BlitCell(before, top, left, data, n, r, c) by {
      assert Blit(before, top, left, data, n)[r] == BlitRow(before, top, left, data, n, r);
    }
    GridAt(sprites, n, j, r, c);
    GridAt(sprites, n, j + 1, r, c);
    CellInBlock(n, j, r, c);
    var k := CellSprite(n, r, c);
    if InBlock(top, left, n, r, c) {
      assert k == j && r - top == r % n && c - left == c % n;
      assert cell == data[r % n][c % n];
    } else {
      assert k != j && cell == before[r][c];
    }
  }

  /** From the grid sheet of the first j sprites, at the slot of sprite j, the layout ends
      with the grid sheet of all the sprites the sheet has room for. */
  lemma {:induction false} GridFrom(sprites: seq<Sprite>, n: nat, j: nat)
    requires SupportedSize(n) && AllOfSize(sprites, n) && j <= |sprites| && j <= Capacity(n)
    ensures forall i :: 0 <= i < |sprites[j..]| ==> Readable(sprites[j..][i])
    ensures var last := if |sprites| < Capacity(n) then |sprites| else Capacity(n);
      Layout(GridSheet(sprites, n, j), SlotOf(n, j), sprites[j..]) == GridSheet(sprites, n, last)
    decreases |sprites| - j
  {
    AllOfSizeReadable(sprites[j..], n);
    if j == |sprites| {
      assert sprites[j..] == [];
    } else if j == Capacity(n) {
      SlotOfFull(n);
    } else {
      GridFromStep(sprites, n, j);
      GridFrom(sprites, n, j + 1);
    }
  }

  /** Sprite j fits its grid slot, so laying out from it on is blitting it and laying out
      from sprite j + 1 on. */
  lemma GridFromStep(sprites: seq<Sprite>, n: nat, j: nat)
    requires SupportedSize(n) && AllOfSize(sprites, n) && j < |sprites| && j < Capacity(n)
    ensures forall i :: 0 <= i < |sprites[j..]| ==> Readable(sprites[j..][i])
    ensures Layout(GridSheet(sprites, n, j), SlotOf(n, j), sprites[j..])
      == Layout(GridSheet(sprites, n, j + 1), SlotOf(n, j + 1), sprites[j + 1..])
  {
    AllOfSizeReadable(sprites[j..], n);
    AllOfSizeReadable(sprites[j + 1..], n);
    SlotOfFacts(n, j);
    GridBlit(sprites, n, j);
    AllOfSizeReadable(sprites, n);
    LayoutUnfold(GridSheet(sprites, n, j), SlotOf(n, j), sprites, j);
  }

  /** No sprite placed yet: the grid sheet is blank. */
  lemma GridEmpty(sprites: seq<Sprite>, n: nat)
    requires SupportedSize(n) && AllOfSize(sprites, n)
    ensures GridSheet(sprites, n, 0) == BlankSheet()
  {
    var g := GridSheet(sprites, n, 0);
    forall r, c | 0 <= r < 128 && 0 <= c < 128
      ensures g[r][c] == BlankSheet()[r][c]
    {
      GridAt(sprites, n, 0, r, c);
    }
    SameTile(g, BlankSheet(), 128);
  }

  /** Every cell belongs to one of the first Capacity(n) sprites, so a grid holding that
      many already holds all there are room for. */
  lemma GridFull(sprites: seq<Sprite>, n: nat, j: nat)
    requires SupportedSize(n) && AllOfSize(sprites, n) && Capacity(n) <= j <= |sprites|
    ensures GridSheet(sprites, n, j) == GridSheet(sprites, n, |sprites|)
  {
    var g, h := GridSheet(sprites, n, j), GridSheet(sprites, n, |sprites|);
    forall r, c | 0 <= r < 128 && 0 <= c < 128
      ensures g[r][c] == h[r][c]
    {
      GridAt(sprites, n, j, r, c);
      GridAt(sprites, n, |sprites|, r, c);
      CellInBlock(n, 0, r, c);
    }
    SameTile(g, h, 128);
  }

  /** Sprites all of one size n (8, 16 or 32) fill the sheet in a grid, 128 / n to a row,
      row after row; sprites beyond the 256, 64 or 16 the sheet has room for are dropped. */
  lemma UniformLayout(sprites: seq<Sprite>, n: nat)
    requires SupportedSize(n) && AllOfSize(sprites, n)
    ensures forall i :: 0 <= i < |sprites| ==> Readable(sprites[i])
    ensures Layout(BlankSheet(), 0, sprites) == GridSheet(sprites, n, |sprites|)
  {
    GridFromBlank(sprites, n);
    if |sprites| >= Capacity(n) {
      GridFull(sprites, n, Capacity(n));
    }
  }

  /** The layout from the blank sheet at slot 0 is the grid sheet of the sprites there is
      room for. */
  lemma GridFromBlank(sprites: seq<Sprite>, n: nat)
    requires SupportedSize(n) && AllOfSize(sprites, n)
    ensures forall i :: 0 <= i < |sprites| ==> Readable(sprites[i])
    ensures var last := if |sprites| < Capacity(n) then |sprites| else Capacity(n);
      Layout(BlankSheet(), 0, sprites) == GridSheet(sprites, n, last)
  {
    GridFrom(sprites, n, 0);
    assert sprites[0..] == sprites;
    SlotOfZero(n);
    GridEmpty(sprites, n);
  }

  lemma SlotOfZero(n: nat)
    requires SupportedSize(n)
    ensures SlotOf(n, 0) == 0
  {
    if n == 8 {
      assert SlotOf(8, 0) == 0;
    } else if n == 16 {
      assert SlotOf(16, 0) == 0;
    } else {
      assert SlotOf(32, 0) == 0;
    }
  }

  /** The grid numbers the sprite holding cell (r, c) as `(r / n) * (128 / n) + c / n`. */
  lemma CellSpriteIs(n: nat, r: nat, c: nat)
    requires SupportedSize(n)
    ensures CellSprite(n, r, c) == (r / n) * (128 / n) + c / n
  {
    if n == 8 {
      assert 128 / 8 == 16;
    } else if n == 16 {
      assert 128 / 16 == 8;
    } else {
      assert 128 / 32 == 4;
    }
  }

  /** The same, cell by cell: cell (r, c) holds pixel (r % n, c % n) of sprite
      (r / n) * (128 / n) + c / n when there is such a sprite, and 0 otherwise. */
  lemma UniformLayoutCell(sprites: seq<Sprite>, n: nat, r: nat, c: nat)
    requires n == 8 || n == 16 || n == 32
    requires forall i :: 0 <= i < |sprites| ==> sprites[i].size == n && AtLeast(sprites[i].data, n)
    requires r < 128 && c < 128
    ensures forall i :: 0 <= i < |sprites| ==> Readable(sprites[i])
    ensures var k := (r / n) * (128 / n) + c / n;
      Layout(BlankSheet(), 0, sprites)[r][c] == if k < |sprites| then sprites[k].data[r % n][c % n] else 0
  {
    assert SupportedSize(n) && AllOfSize(sprites, n);
    UniformLayout(sprites, n);
    GridSheetCell(sprites, n, r, c);
  }

  /** Cell (r, c) of the grid sheet of all the sprites, with the sprite number written out. */
  lemma GridSheetCell(sprites: seq<Sprite>, n: nat, r: nat, c: nat)
    requires SupportedSize(n) && AllOfSize(sprites, n) && r < 128 && c < 128
    ensures var k := (r / n) * (128 / n) + c / n;
      GridSheet(sprites, n, |sprites|)[r][c] == if k < |sprites| then sprites[k].data[r % n][c % n] else 0
  {
    GridAt(sprites, n, |sprites|, r, c);
    CellSpriteIs(n, r, c);
  }

  // ---------------------------------------------------------------------------
  // The sprite data text
  // ---------------------------------------------------------------------------

  /** The three header writes of `save_pico8_sprite_data`. */
  const Header: string := "-- PICO-8 Sprite Data\n" + "-- Generated by sprite_extractor.py\n\n" + "__gfx__\n"

  /** Each pixel row as one text line: one lowercase digit per pixel, then a newline. */
  function GfxRows(sheet: Tile): (rows: seq<string>)
    requires IsSquare(sheet, 128)
    ensures |rows| == 128
  {
    seq(128, y requires 0 <= y < 128 => HexLine(sheet[y]) + "\n")
  }

  /** The text `save_pico8_sprite_data` writes for a sheet. */
  function GfxFile(sheet: Tile): string
    requires IsSquare(sheet, 128)
  {
    Header + Concat(GfxRows(sheet))
  }

  /** One byte of a line: `(pixel1 << 4) | pixel2` written with `{:02x}`, which is the digit
      of each pixel in turn. */
  method EncodeByte(pixel1: Colour, pixel2: Colour) returns (digits: string)
    ensures digits == [HexDigit(pixel1), HexDigit(pixel2)]
  {
    var hexByte := PackByte(pixel1, pixel2);
    Hex2OfPacked(pixel1, pixel2);
    digits := Hex2(hexByte);
  }

  /** The loop over x of `save_pico8_sprite_data` for one row: pixels two at a time packed
      into a byte, the left one in the high four bits, written with `{:02x}`. */
  method EncodeRow(row: seq<Colour>) returns (line: string)
    requires |row| == 128
    ensures line == HexLine(row)
  {
    line := "";
    var x := 0;
    while x < 128
      invariant 0 <= x <= 128 && x % 2 == 0
      invariant |line| == x
      invariant forall j :: 0 <= j < x ==> line[j] == HexDigit(row[j])
    {
      var pixel1 := row[x];
      var pixel2: int := if x + 1 < 128 then row[x + 1] else 0;
      var digits := EncodeByte(pixel1, pixel2);
      line := line + digits;
      x := x + 2;
    }
    SameLine(line, row);
  }

  /** A line holding one digit per pixel of the row is the row's hex line. */
  lemma SameLine(line: string, row: seq<Colour>)
    requires |line| == |row|
    requires forall j :: 0 <= j < |row| ==> line[j] == HexDigit(row[j])
    ensures line == HexLine(row)
  {
  }

  /** The text of the first y + 1 rows is that of the first y, then row y's line. */
  lemma GfxRowsPrefix(sheet: Tile, y: nat)
    requires IsSquare(sheet, 128) && y < 128
    ensures Concat(GfxRows(sheet)[..y + 1]) == Concat(GfxRows(sheet)[..y]) + (HexLine(sheet[y]) + "\n")
  {
    var rows := GfxRows(sheet);
    assert rows[..y + 1] == rows[..y] + [rows[y]];
    ConcatSnoc(rows[..y], rows[y]);
  }

  /** Appending to a string built in two parts. */
  lemma AppendAssoc(a: string, b: string, c: string)
    ensures (a + b) + c == a + (b + c)
  {
  }

  /** `save_pico8_sprite_data` with the file writes collected into one string. */
  method SavePico8SpriteData(spriteSheet: Tile) returns (content: string)
    requires IsSquare(spriteSheet, 128)
    ensures content == GfxFile(spriteSheet)
  {
    content := "-- PICO-8 Sprite Data\n";
    content := content + "-- Generated by sprite_extractor.py\n\n";
    content := content + "__gfx__\n";
    ghost var header := content;
    assert header == Header;
    ghost var rows := GfxRows(spriteSheet);
    ghost var body := "";
    var y := 0;
    while y < 128
      invariant 0 <= y <= 128
      invariant content == header + body
      invariant body == Concat(rows[..y])
    {
      var line := EncodeRow(spriteSheet[y]);
      GfxRowsPrefix(spriteSheet, y);
      AppendAssoc(header, body, line + "\n");
      content := content + (line + "\n");
      body := body + (line + "\n");
      y := y + 1;
    }
    assert rows[..128] == rows;
  }

  /** The text is the header and 128 lines of 129 characters: line y holds digit j for
      pixel (j, y) at position j, and ends with a newline. */
  lemma GfxFileLayout(sheet: Tile, y: nat, j: nat)
    requires IsSquare(sheet, 128) && y < 128 && j <= 128
    ensures |GfxFile(sheet)| == |Header| + 129 * 128
    ensures var p := |Header| + 129 * y + j;
      GfxFile(sheet)[p] == if j < 128 then HexDigit(sheet[y][j]) else '\n'
  {
    var rows := GfxRows(sheet);
    assert forall k :: 0 <= k < 128 ==> |rows[k]| == 129;
    ConcatLength(rows, 129);
    ConcatAt(rows, 129, y, j);
  }

  /** Digits 2i and 2i + 1 of a row's line are those of pixels 2i and 2i + 1. */
  lemma LinePair(row: seq<Colour>, i: nat)
    requires |row| == 128 && i < 64
    ensures HexLine(row)[2 * i .. 2 * i + 2] == [HexDigit(row[2 * i]), HexDigit(row[2 * i + 1])]
  {
    var line, a := HexLine(row), 2 * i;
    assert line[a] == HexDigit(row[a]) && line[a + 1] == HexDigit(row[a + 1]);
    assert line[a .. a + 2] == [line[a], line[a + 1]];
  }

  /** Each pair of digits in a line is the byte `(left << 4) | right` of two neighbouring
      pixels, and reading it back gives the pair; the whole line reads back as the row. */
  lemma GfxLineDecodes(row: seq<Colour>, i: nat)
    requires |row| == 128 && i < 64
    ensures HexLine(row)[2 * i .. 2 * i + 2] == Hex2(PackByte(row[2 * i], row[2 * i + 1]))
    ensures DecodeByte(HexLine(row)[2 * i .. 2 * i + 2]) == Some((row[2 * i], row[2 * i + 1]))
    ensures DecodeDigits(HexLine(row)) == Some(row)
  {
    LinePair(row, i);
    Hex2OfPacked(row[2 * i], row[2 * i + 1]);
    PackedByteDecodes(row[2 * i], row[2 * i + 1]);
    HexLineDecodes(row);
  }
}

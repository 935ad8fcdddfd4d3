/** The tool that cuts an RGBA image into 16x16 tiles, splits each tile into four
    8x8 sprites and lays them out on the 128x128 PICO-8 sprite sheet as `__gfx__` text. */
module ExtractAllSprites {
  import opened Images
  import opened Palette
  import opened Hex

  // ---------------------------------------------------------------------------
  // Extracting a tile
  // ---------------------------------------------------------------------------

  /** The colour recorded at offset (x, y) of the tile whose corner is (xOffset, yOffset):
      black outside the image, the quantised pixel inside it. */
  function TileCell(img: Image, xOffset: nat, yOffset: nat, x: nat, y: nat): Colour
    requires img.Valid()
  {
    if xOffset + x >= img.width || yOffset + y >= img.height then 0
    else Quantize(img.rows[yOffset + y][xOffset + x])
  }

  function TileAt(img: Image, xOffset: nat, yOffset: nat, size: nat): (t: Tile)
    requires img.Valid()
    ensures IsSquare(t, size)
    ensures forall y, x :: 0 <= y < size && 0 <= x < size ==> t[y][x] == TileCell(img, xOffset, yOffset, x, y)
  {
    seq(size, y requires 0 <= y < size => seq(size, x requires 0 <= x < size => TileCell(img, xOffset, yOffset, x, y)))
  }

  /** `extract_sprite_from_position`: a `spriteSize` x `spriteSize` block of colours read
      from the image, with 0 wherever the block runs past the right or bottom edge. */
  method ExtractSpriteFromPosition(img: Image, xOffset: nat, yOffset: nat, spriteSize: nat)
    returns (spriteData: Tile)
    requires img.Valid()
    ensures spriteData == TileAt(img, xOffset, yOffset, spriteSize)
    ensures IsSquare(spriteData, spriteSize)
    ensures forall y, x :: 0 <= y < spriteSize && 0 <= x < spriteSize ==>
      (xOffset + x >= img.width || yOffset + y >= img.height ==> spriteData[y][x] == 0)
    ensures forall y, x :: 0 <= y < spriteSize && 0 <= x < spriteSize ==>
      (xOffset + x < img.width && yOffset + y < img.height ==>
        spriteData[y][x] == Quantize(img.rows[yOffset + y][xOffset + x]))
  {
    spriteData := [];
    var y := 0;
    while y < spriteSize
      invariant 0 <= y <= spriteSize
      invariant |spriteData| == y
      invariant forall i :: 0 <= i < y ==> |spriteData[i]| == spriteSize
      invariant forall i, j :: 0 <= i < y && 0 <= j < spriteSize ==>
        spriteData[i][j] == TileCell(img, xOffset, yOffset, j, i)
    {
      var row: seq<Colour> := [];
      var x := 0;
      while x < spriteSize
        invariant 0 <= x <= spriteSize
        invariant |row| == x
        invariant forall j :: 0 <= j < x ==> row[j] == TileCell(img, xOffset, yOffset, j, y)
      {
        var pixelX := xOffset + x;
        var pixelY := yOffset + y;
        if pixelX >= img.width || pixelY >= img.height {
          row := row + [0];
        } else {
          var pixel := img.rows[pixelY][pixelX];
          var pico8Color := FindClosestPico8Color(pixel);
          row := row + [pico8Color];
        }
        x := x + 1;
      }
      spriteData := spriteData + [row];
      y := y + 1;
    }
    SameTile(spriteData, TileAt(img, xOffset, yOffset, spriteSize), spriteSize);
  }

  /** `extract_16x16_sprite`: the same extraction with the size fixed at 16. */
  method Extract16x16Sprite(img: Image, xOffset: nat, yOffset: nat) returns (spriteData: Tile)
    requires img.Valid()
    ensures IsSquare(spriteData, 16)
    ensures forall y, x :: 0 <= y < 16 && 0 <= x < 16 ==>
      (xOffset + x >= img.width || yOffset + y >= img.height ==> spriteData[y][x] == 0)
    ensures forall y, x :: 0 <= y < 16 && 0 <= x < 16 ==>
      (xOffset + x < img.width && yOffset + y < img.height ==>
        spriteData[y][x] == Quantize(img.rows[yOffset + y][xOffset + x]))
    ensures spriteData == TileAt(img, xOffset, yOffset, 16)
  {
    spriteData := ExtractSpriteFromPosition(img, xOffset, yOffset, 16);
  }

  // ---------------------------------------------------------------------------
  // Splitting a 16x16 tile into four 8x8 sprites
  // ---------------------------------------------------------------------------

  /** The four 8x8 parts of a 16x16 tile, named as the source's dictionary keys. */
  datatype Quadrants = Quadrants(topLeft: Tile, topRight: Tile, bottomLeft: Tile, bottomRight: Tile)
  {
    predicate Valid() {
      IsSquare(topLeft, 8) && IsSquare(topRight, 8) && IsSquare(bottomLeft, 8) && IsSquare(bottomRight, 8)
    }

    /** The quadrant `dx` tiles across and `dy` tiles down. */
    function Pick(dx: nat, dy: nat): Tile
      requires dx < 2 && dy < 2
    {
      if dy == 0 then (if dx == 0 then topLeft else topRight)
      else (if dx == 0 then bottomLeft else bottomRight)
    }
  }

  /** The 8x8 block `dx` across and `dy` down of a 16x16 tile. */
  function Quadrant(data: Tile, dx: nat, dy: nat): (t: Tile)
    requires IsSquare(data, 16) && dx < 2 && dy < 2
    ensures IsSquare(t, 8)
  {
    seq(8, y requires 0 <= y < 8 => seq(8, x requires 0 <= x < 8 => data[y + 8 * dy][x + 8 * dx]))
  }

  function Split(data: Tile): (q: Quadrants)
    requires IsSquare(data, 16)
    ensures q.Valid()
  {
    Quadrants(Quadrant(data, 0, 0), Quadrant(data, 1, 0), Quadrant(data, 0, 1), Quadrant(data, 1, 1))
  }

  /** Puts four 8x8 sprites back together as one 16x16 tile. */
  function Reassemble(q: Quadrants): (data: Tile)
    requires q.Valid()
    ensures IsSquare(data, 16)
  {
    seq(16, y requires 0 <= y < 16 => seq(16, x requires 0 <= x < 16 =>
      if y < 8 && x < 8 then q.topLeft[y][x]
      else if y < 8 then q.topRight[y][x - 8]
      else if x < 8 then q.bottomLeft[y - 8][x]
      else q.bottomRight[y - 8][x - 8]))
  }

  /** Splitting and then reassembling gives back the 16x16 input exactly. */
  lemma ReassembleSplit(data: Tile)
    requires IsSquare(data, 16)
    ensures Reassemble(Split(data)) == data
  {
    var r := Reassemble(Split(data));
    forall y | 0 <= y < 16
      ensures r[y] == data[y]
    {
      assert forall x :: 0 <= x < 16 ==> r[y][x] == data[y][x];
    }
  }

  /** Reassembling four 8x8 sprites and splitting the result gives back the four sprites. */
  lemma SplitReassemble(q: Quadrants)
    requires q.Valid()
    ensures Split(Reassemble(q)) == q
  {
    var s := Split(Reassemble(q));
    SameTile(s.topLeft, q.topLeft, 8);
    SameTile(s.topRight, q.topRight, 8);
    SameTile(s.bottomLeft, q.bottomLeft, 8);
    SameTile(s.bottomRight, q.bottomRight, 8);
  }

  const BlankSprite: Tile := seq(8, _ => seq(8, _ => 0))

  /** Cell (sy, sx) of the 16x16 input has been visited once the row-major scan is at (y, x). */
  predicate Visited(sy: int, sx: int, y: int, x: int) {
    sy < y || (sy == y && sx < x)
  }

  /** Quadrant (dx, dy) holds the input's cells that the scan has visited and 0 elsewhere. */
  predicate Filled(t: Tile, data: Tile, dx: nat, dy: nat, y: int, x: int)
    requires IsSquare(data, 16) && dx < 2 && dy < 2
  {
    && IsSquare(t, 8)
    && forall yy, xx :: 0 <= yy < 8 && 0 <= xx < 8 ==>
      t[yy][xx] == (if Visited(yy + 8 * dy, xx + 8 * dx, y, x) then data[yy + 8 * dy][xx + 8 * dx] else 0)
  }

  lemma FilledRowDone(t: Tile, data: Tile, dx: nat, dy: nat, y: int)
    requires IsSquare(data, 16) && dx < 2 && dy < 2
    requires Filled(t, data, dx, dy, y, 16)
    ensures Filled(t, data, dx, dy, y + 1, 0)
  {
  }

  lemma FilledAll(t: Tile, data: Tile, dx: nat, dy: nat)
    requires IsSquare(data, 16) && dx < 2 && dy < 2
    requires Filled(t, data, dx, dy, 16, 0)
    ensures t == Quadrant(data, dx, dy)
  {
    var want := Quadrant(data, dx, dy);
    forall yy | 0 <= yy < 8
      ensures t[yy] == want[yy]
    {
      assert forall xx :: 0 <= xx < 8 ==> t[yy][xx] == want[yy][xx];
    }
  }

  /** `split_16x16_to_8x8`: fills four preallocated 8x8 sprites from a 16x16 tile. */
  method Split16x16To8x8(spriteData: Tile) returns (sprites: Quadrants)
    requires IsSquare(spriteData, 16)
    ensures sprites.Valid()
    ensures forall dx, dy, y, x :: 0 <= dx < 2 && 0 <= dy < 2 && 0 <= y < 8 && 0 <= x < 8 ==>
      sprites.Pick(dx, dy)[y][x] == spriteData[y + 8 * dy][x + 8 * dx]
    ensures sprites == Split(spriteData)
  {
    var topLeft, topRight, bottomLeft, bottomRight := BlankSprite, BlankSprite, BlankSprite, BlankSprite;
    var y := 0;
    while y < 16
      invariant 0 <= y <= 16
      invariant Filled(topLeft, spriteData, 0, 0, y, 0) && Filled(topRight, spriteData, 1, 0, y, 0)
      invariant Filled(bottomLeft, spriteData, 0, 1, y, 0) && Filled(bottomRight, spriteData, 1, 1, y, 0)
    {
      var x := 0;
      while x < 16
        invariant 0 <= x <= 16
        invariant Filled(topLeft, spriteData, 0, 0, y, x) && Filled(topRight, spriteData, 1, 0, y, x)
        invariant Filled(bottomLeft, spriteData, 0, 1, y, x) && Filled(bottomRight, spriteData, 1, 1, y, x)
      {
        var color := spriteData[y][x];
        if y < 8 && x < 8 {
          topLeft := topLeft[y := topLeft[y][x := color]];
        } else if y < 8 && x >= 8 {
          topRight := topRight[y := topRight[y][x - 8 := color]];
        } else if y >= 8 && x < 8 {
          bottomLeft := bottomLeft[y - 8 := bottomLeft[y - 8][x := color]];
        } else {
          bottomRight := bottomRight[y - 8 := bottomRight[y - 8][x - 8 := color]];
        }
        x := x + 1;
      }
      FilledRowDone(topLeft, spriteData, 0, 0, y);
      FilledRowDone(topRight, spriteData, 1, 0, y);
      FilledRowDone(bottomLeft, spriteData, 0, 1, y);
      FilledRowDone(bottomRight, spriteData, 1, 1, y);
      y := y + 1;
    }
    FilledAll(topLeft, spriteData, 0, 0);
    FilledAll(topRight, spriteData, 1, 0);
    FilledAll(bottomLeft, spriteData, 0, 1);
    FilledAll(bottomRight, spriteData, 1, 1);
    sprites := Quadrants(topLeft, topRight, bottomLeft, bottomRight);
  }

  // ---------------------------------------------------------------------------
  // Hex text of a sprite
  // ---------------------------------------------------------------------------

  function HexLines(spriteData: Tile): (lines: seq<string>)
    ensures |lines| == |spriteData|
  {
    seq(|spriteData|, i requires 0 <= i < |spriteData| => HexLine(spriteData[i]))
  }

  /** `sprite_to_hex_string`: one hex line per sprite row. */
  method SpriteToHexString(spriteData: Tile) returns (hexLines: seq<string>)
    ensures |hexLines| == |spriteData|
    ensures forall i :: 0 <= i < |spriteData| ==> |hexLines[i]| == |spriteData[i]|
    ensures forall i, j :: 0 <= i < |spriteData| && 0 <= j < |spriteData[i]| ==>
      hexLines[i][j] == HexDigit(spriteData[i][j])
    ensures hexLines == HexLines(spriteData)
  {
    hexLines := [];
    var i := 0;
    while i < |spriteData|
      invariant 0 <= i <= |spriteData|
      invariant hexLines == HexLines(spriteData)[..i]
    {
      var hexLine := HexLine(spriteData[i]);
      hexLines := hexLines + [hexLine];
      i := i + 1;
    }
  }

  // ---------------------------------------------------------------------------
  // All tiles of an image
  // ---------------------------------------------------------------------------

  /** One entry of the list that `extract_all_sprites` returns. */
  datatype SpriteEntry = SpriteEntry(index: nat, position: (nat, nat), quadrants: Quadrants)

  /** The entry for tile `k` in row-major order, `across` tiles to a row. */
  function EntryAt(img: Image, across: nat, k: nat): SpriteEntry
    requires img.Valid() && across > 0
  {
    var col, row := k % across, k / across;
    SpriteEntry(k, (col, row), Split(TileAt(img, col * 16, row * 16, 16)))
  }

  /** `extract_all_sprites` once the image is loaded: every whole 16x16 tile, row by row. */
  method ExtractAllSprites(img: Image) returns (allSprites: seq<SpriteEntry>)
    requires img.Valid()
    ensures |allSprites| == (img.height / 16) * (img.width / 16)
    ensures forall k :: 0 <= k < |allSprites| ==>
      && img.width / 16 > 0
      && allSprites[k].index == k
      && allSprites[k].position.0 < img.width / 16
      && allSprites[k].position.1 * (img.width / 16) + allSprites[k].position.0 == k
      && allSprites[k] == EntryAt(img, img.width / 16, k)
  {
    var spritesHorizontal := img.width / 16;
    var spritesVertical := img.height / 16;
    allSprites := [];
    var row := 0;
    while row < spritesVertical
      invariant 0 <= row <= spritesVertical
      invariant |allSprites| == row * spritesHorizontal
      invariant forall k :: 0 <= k < |allSprites| ==>
        && spritesHorizontal > 0
        && allSprites[k].position.0 < spritesHorizontal
        && allSprites[k].position.1 * spritesHorizontal + allSprites[k].position.0 == k
        && allSprites[k] == EntryAt(img, spritesHorizontal, k)
    {
      var col := 0;
      while col < spritesHorizontal
        invariant 0 <= col <= spritesHorizontal
        invariant |allSprites| == row * spritesHorizontal + col
        invariant forall k :: 0 <= k < |allSprites| ==>
          && spritesHorizontal > 0
          && allSprites[k].position.0 < spritesHorizontal
          && allSprites[k].position.1 * spritesHorizontal + allSprites[k].position.0 == k
          && allSprites[k] == EntryAt(img, spritesHorizontal, k)
      {
        var xOffset := col * 16;
        var yOffset := row * 16;
        var sprite16x16 := Extract16x16Sprite(img, xOffset, yOffset);
        var splitSprites := Split16x16To8x8(sprite16x16);
        var spriteIndex := row * spritesHorizontal + col;
        RowMajor(row, col, spritesHorizontal);
        allSprites := allSprites + [SpriteEntry(spriteIndex, (col, row), splitSprites)];
        col := col + 1;
      }
      assert (row + 1) * spritesHorizontal == row * spritesHorizontal + spritesHorizontal;
      row := row + 1;
    }
  }

  // ---------------------------------------------------------------------------
  // The __gfx__ sheet
  // ---------------------------------------------------------------------------

  /** The sheet of `generate_gfx_output`: 128 pixel rows, each cut into 16 eight-character cells. */
  type Sheet = seq<seq<string>>

  const BlankCell: string := "00000000"

  predicate IsSheet(s: Sheet) {
    |s| == 128 && forall r :: 0 <= r < 128 ==> |s[r]| == 16
  }

  function EmptySheet(): (s: Sheet)
    ensures IsSheet(s)
  {
    seq(128, _ => seq(16, _ => BlankCell))
  }

  /** Line `i` of `lines` goes to cell (row * 8 + i, col), unless that row is past the sheet. */
  function WriteLines(sheet: Sheet, row: nat, col: nat, lines: seq<string>): (s: Sheet)
    requires IsSheet(sheet) && col < 16
    ensures IsSheet(s)
  {
    seq(128, r requires 0 <= r < 128 =>
      if row * 8 <= r < row * 8 + |lines| then sheet[r][col := lines[r - row * 8]] else sheet[r])
  }

  /** Sprite `id` of the sheet sits in 8-row band `id / 16`, cell column `id % 16`. */
  function PlaceSprite(sheet: Sheet, id: nat, lines: seq<string>): (s: Sheet)
    requires IsSheet(sheet)
    ensures IsSheet(s)
  {
    WriteLines(sheet, id / 16, id % 16, lines)
  }

  /** Four blocks of lines written, in order, to sprite ids base, base+1, base+16 and base+17. */
  function PlaceFour(sheet: Sheet, base: nat, l1: seq<string>, l2: seq<string>, l3: seq<string>,
                     l4: seq<string>): (s: Sheet)
    requires IsSheet(sheet)
    ensures IsSheet(s)
  {
    PlaceSprite(PlaceSprite(PlaceSprite(PlaceSprite(sheet, base, l1), base + 1, l2), base + 16, l3), base + 17, l4)
  }

  /** Entry N's quadrants go to sheet ids 2N, 2N+1, 2N+16 and 2N+17, in that order. */
  function PlaceEntry(sheet: Sheet, e: SpriteEntry): (s: Sheet)
    requires IsSheet(sheet)
    ensures IsSheet(s)
  {
    var q := e.quadrants;
    PlaceFour(sheet, 2 * e.index, HexLines(q.topLeft), HexLines(q.topRight), HexLines(q.bottomLeft),
      HexLines(q.bottomRight))
  }

  /** The sheet after placing every entry of `sprites`, first to last. */
  function SheetAfter(sheet: Sheet, sprites: seq<SpriteEntry>): (s: Sheet)
    requires IsSheet(sheet)
    ensures IsSheet(s)
    decreases |sprites|
  {
    if sprites == [] then sheet else SheetAfter(PlaceEntry(sheet, sprites[0]), sprites[1..])
  }

  /** `'\n'.join(lines)` */
  function JoinLines(lines: seq<string>): string {
    if |lines| == 0 then ""
    else if |lines| == 1 then lines[0]
    else lines[0] + "\n" + JoinLines(lines[1..])
  }

  /** The header line followed by one text line per pixel row. */
  function GfxLines(sheet: Sheet): (lines: seq<string>)
    requires IsSheet(sheet)
    ensures |lines| == 129 && lines[0] == "__gfx__"
  {
    ["__gfx__"] + seq(128, r requires 0 <= r < 128 => Concat(sheet[r]))
  }

  /** The four `enumerate` loops of `generate_gfx_output`: copies hex lines into one
      column of cells, dropping those whose row would fall off the sheet. */
  method PlaceLines(sheet: Sheet, row: nat, col: nat, lines: seq<string>) returns (s: Sheet)
    requires IsSheet(sheet) && col < 16
    ensures s == WriteLines(sheet, row, col, lines)
  {
    s := sheet;
    var i := 0;
    while i < |lines|
      invariant 0 <= i <= |lines|
      invariant IsSheet(s)
      invariant forall r :: 0 <= r < 128 ==>
        s[r] == if row * 8 <= r < row * 8 + i then sheet[r][col := lines[r - row * 8]] else sheet[r]
    {
      if row * 8 + i < 128 {
        s := s[row * 8 + i := s[row * 8 + i][col := lines[i]]];
      }
      i := i + 1;
    }
    assert forall r :: 0 <= r < 128 ==> s[r] == WriteLines(sheet, row, col, lines)[r];
  }

  /** The body of the loop over `sprites` in `generate_gfx_output`: one entry's four quadrants. */
  method PlaceEntryLines(spriteSheet: Sheet, sprite: SpriteEntry) returns (s: Sheet)
    requires IsSheet(spriteSheet)
    ensures s == PlaceEntry(spriteSheet, sprite)
  {
    var baseSprite := sprite.index * 2;
    var tlSpriteId := baseSprite;
    var trSpriteId := baseSprite + 1;
    var blSpriteId := baseSprite + 16;
    var brSpriteId := baseSprite + 17;
    var tlHex := SpriteToHexString(sprite.quadrants.topLeft);
    var trHex := SpriteToHexString(sprite.quadrants.topRight);
    var blHex := SpriteToHexString(sprite.quadrants.bottomLeft);
    var brHex := SpriteToHexString(sprite.quadrants.bottomRight);
    s := PlaceLines(spriteSheet, tlSpriteId / 16, tlSpriteId % 16, tlHex);
    s := PlaceLines(s, trSpriteId / 16, trSpriteId % 16, trHex);
    s := PlaceLines(s, blSpriteId / 16, blSpriteId % 16, blHex);
    s := PlaceLines(s, brSpriteId / 16, brSpriteId % 16, brHex);
  }

  /** The first half of `generate_gfx_output`: every entry placed on a blank sheet, in list order. */
  method FillSheet(sprites: seq<SpriteEntry>) returns (spriteSheet: Sheet)
    ensures spriteSheet == SheetAfter(EmptySheet(), sprites)
  {
    spriteSheet := EmptySheet();
    var k := 0;
    while k < |sprites|
      invariant 0 <= k <= |sprites|
      invariant IsSheet(spriteSheet)
      invariant SheetAfter(spriteSheet, sprites[k..]) == SheetAfter(EmptySheet(), sprites)
    {
      spriteSheet := PlaceEntryLines(spriteSheet, sprites[k]);
      assert sprites[k..][1..] == sprites[k + 1..];
      k := k + 1;
    }
    assert sprites[k..] == [];
  }

  /** The second half: the header line, then each pixel row's cells joined into one line. */
  method SheetLines(spriteSheet: Sheet) returns (outputLines: seq<string>)
    requires IsSheet(spriteSheet)
    ensures outputLines == GfxLines(spriteSheet)
  {
    outputLines := ["__gfx__"];
    var r := 0;
    while r < 128
      invariant 0 <= r <= 128
      invariant |outputLines| == r + 1 && outputLines[0] == "__gfx__"
      invariant forall i :: 0 <= i < r ==> outputLines[i + 1] == Concat(spriteSheet[i])
    {
      outputLines := outputLines + [Concat(spriteSheet[r])];
      r := r + 1;
    }
  }

  /** `generate_gfx_output` without the file write: the `__gfx__` text for a list of entries. */
  method GenerateGfxOutput(sprites: seq<SpriteEntry>) returns (outputContent: string)
    ensures outputContent == JoinLines(GfxLines(SheetAfter(EmptySheet(), sprites)))
  {
    var spriteSheet := FillSheet(sprites);
    var outputLines := SheetLines(spriteSheet);
    outputContent := JoinLines(outputLines);
  }

  // ---------------------------------------------------------------------------
  // Properties of the sheet layout
  // ---------------------------------------------------------------------------

  /** Cell (r, c) lies in the 2x2 block of cells whose top-left corner is sprite id `2 * e.index`. */
  predicate Covers(e: SpriteEntry, r: nat, c: nat) {
    var band, col := (2 * e.index) / 16, (2 * e.index) % 16;
    band * 8 <= r < band * 8 + 16 && col <= c < col + 2
  }

  /** The line that entry `e` writes into a cell of its block: line `r % 8` of the quadrant
      that covers it. */
  function EntryLine(e: SpriteEntry, r: nat, c: nat): (line: string)
    requires e.quadrants.Valid() && Covers(e, r, c)
    ensures |line| == 8
  {
    var band, col := (2 * e.index) / 16, (2 * e.index) % 16;
    var dy := if r < band * 8 + 8 then 0 else 1;
    HexLine(e.quadrants.Pick(c - col, dy)[r - band * 8 - 8 * dy])
  }

  /** What cell (r, c) holds after entry `e` is placed: its line inside the entry's block,
      what was there before anywhere else. */
  function EntryCell(sheet: Sheet, e: SpriteEntry, r: nat, c: nat): string
    requires IsSheet(sheet) && e.quadrants.Valid() && r < 128 && c < 16
  {
    if Covers(e, r, c) then EntryLine(e, r, c) else sheet[r][c]
  }

  /** The four sprite ids of an entry sit in a 2x2 block: the base id's column is even, so
      `base + 1` stays in the same band, and `base + 16` is the cell just below. */
  lemma BaseIds(n: nat)
    ensures (2 * n) % 16 <= 14
    ensures (2 * n + 1) / 16 == (2 * n) / 16 && (2 * n + 1) % 16 == (2 * n) % 16 + 1
    ensures (2 * n + 16) / 16 == (2 * n) / 16 + 1 && (2 * n + 16) % 16 == (2 * n) % 16
    ensures (2 * n + 17) / 16 == (2 * n) / 16 + 1 && (2 * n + 17) % 16 == (2 * n) % 16 + 1
  {
    var b, c := (2 * n) / 16, (2 * n) % 16;
    assert 2 * n == 16 * b + c;
    assert c == 2 * (n - 8 * b);
    RowMajor(b, c + 1, 16);
    RowMajor(b + 1, c, 16);
    RowMajor(b + 1, c + 1, 16);
  }

  /** Placing an entry changes exactly the cells of its 2x2 block, each to the line of the
      quadrant that covers it. */
  lemma PlaceEntryCell(sheet: Sheet, e: SpriteEntry, r: nat, c: nat)
    requires IsSheet(sheet) && e.quadrants.Valid() && r < 128 && c < 16
    ensures PlaceEntry(sheet, e)[r][c] == EntryCell(sheet, e, r, c)
  {
    QuadrantIds(e.index, r, c);
    PlaceEntryLayers(sheet, e, r, c);
  }

  /** Which of an entry's four sprite ids holds cell (r, c), in terms of its 2x2 block. */
  lemma QuadrantIds(n: nat, r: nat, c: nat)
    ensures var band, col := (2 * n) / 16, (2 * n) % 16;
      && col + 1 < 16
      && (InSprite(2 * n + 17, 8, r, c) <==> band * 8 + 8 <= r < band * 8 + 16 && c == col + 1)
      && (InSprite(2 * n + 16, 8, r, c) <==> band * 8 + 8 <= r < band * 8 + 16 && c == col)
      && (InSprite(2 * n + 1, 8, r, c) <==> band * 8 <= r < band * 8 + 8 && c == col + 1)
      && (InSprite(2 * n, 8, r, c) <==> band * 8 <= r < band * 8 + 8 && c == col)
      && ((2 * n + 17) / 16) * 8 == band * 8 + 8 && ((2 * n + 16) / 16) * 8 == band * 8 + 8
      && ((2 * n + 1) / 16) * 8 == band * 8
  {
    BaseIds(n);
  }

  /** Cell (r, c) lies in the column of sprite `id`, within the `h` rows it writes. */
  predicate InSprite(id: nat, h: nat, r: nat, c: nat) {
    (id / 16) * 8 <= r < (id / 16) * 8 + h && c == id % 16
  }

  /** Placing an entry is four single-sprite placements; a cell shows the last one that writes it. */
  lemma PlaceEntryLayers(sheet: Sheet, e: SpriteEntry, r: nat, c: nat)
    requires IsSheet(sheet) && r < 128 && c < 16
    ensures var q, base := e.quadrants, 2 * e.index;
      var tl, tr, bl, br := HexLines(q.topLeft), HexLines(q.topRight), HexLines(q.bottomLeft),
        HexLines(q.bottomRight);
      PlaceEntry(sheet, e)[r][c] ==
        if InSprite(base + 17, |br|, r, c) then br[r - ((base + 17) / 16) * 8]
        else if InSprite(base + 16, |bl|, r, c) then bl[r - ((base + 16) / 16) * 8]
        else if InSprite(base + 1, |tr|, r, c) then tr[r - ((base + 1) / 16) * 8]
        else if InSprite(base, |tl|, r, c) then tl[r - (base / 16) * 8]
        else sheet[r][c]
  {
    var q, base := e.quadrants, 2 * e.index;
    var s0 := PlaceFour(sheet, base, HexLines(q.topLeft), HexLines(q.topRight), HexLines(q.bottomLeft),
      HexLines(q.bottomRight));
    assert PlaceEntry(sheet, e) == s0;
    WriteFour(sheet, base, HexLines(q.topLeft), HexLines(q.topRight), HexLines(q.bottomLeft),
      HexLines(q.bottomRight), r, c);
  }

  /** Lines written to one sprite id land in its column, in its band. */
  lemma WriteSpriteCell(sheet: Sheet, id: nat, lines: seq<string>, r: nat, c: nat)
    requires IsSheet(sheet) && r < 128 && c < 16
    ensures PlaceSprite(sheet, id, lines)[r][c]
      == if InSprite(id, |lines|, r, c) then lines[r - (id / 16) * 8] else sheet[r][c]
  {
  }

  lemma WriteFour(sheet: Sheet, base: nat, l1: seq<string>, l2: seq<string>, l3: seq<string>,
                  l4: seq<string>, r: nat, c: nat)
    requires IsSheet(sheet) && r < 128 && c < 16
    ensures PlaceFour(sheet, base, l1, l2, l3, l4)[r][c] ==
        if InSprite(base + 17, |l4|, r, c) then l4[r - ((base + 17) / 16) * 8]
        else if InSprite(base + 16, |l3|, r, c) then l3[r - ((base + 16) / 16) * 8]
        else if InSprite(base + 1, |l2|, r, c) then l2[r - ((base + 1) / 16) * 8]
        else if InSprite(base, |l1|, r, c) then l1[r - (base / 16) * 8]
        else sheet[r][c]
  {
    var s1 := PlaceSprite(sheet, base, l1);
    var s2 := PlaceSprite(s1, base + 1, l2);
    var s3 := PlaceSprite(s2, base + 16, l3);
    assert PlaceFour(sheet, base, l1, l2, l3, l4) == PlaceSprite(s3, base + 17, l4);
    WriteSpriteCell(sheet, base, l1, r, c);
    WriteSpriteCell(s1, base + 1, l2, r, c);
    WriteSpriteCell(s2, base + 16, l3, r, c);
    WriteSpriteCell(s3, base + 17, l4, r, c);
  }

  /** Two sheets with the same cells are the same sheet. */
  lemma SameSheet(a: Sheet, b: Sheet)
    requires IsSheet(a) && IsSheet(b)
    requires forall r, c :: 0 <= r < 128 && 0 <= c < 16 ==> a[r][c] == b[r][c]
    ensures a == b
  {
    forall r | 0 <= r < 128
      ensures a[r] == b[r]
    {
      assert forall c :: 0 <= c < 16 ==> a[r][c] == b[r][c];
    }
  }

  /** An entry whose index is 128 or more has all four sprite ids at 256 or beyond, past the
      last band of the sheet: placing it changes nothing. */
  lemma PlaceEntryBeyondSheet(sheet: Sheet, e: SpriteEntry)
    requires IsSheet(sheet) && e.index >= 128
    ensures PlaceEntry(sheet, e) == sheet
  {
    var q, base := e.quadrants, 2 * e.index;
    var l1, l2, l3, l4 := HexLines(q.topLeft), HexLines(q.topRight), HexLines(q.bottomLeft), HexLines(q.bottomRight);
    assert PlaceEntry(sheet, e) == PlaceFour(sheet, base, l1, l2, l3, l4);
    PlaceFourBeyondSheet(sheet, base, l1, l2, l3, l4);
  }

  /** Four writes to sprite ids from 256 on leave the sheet as it is. */
  lemma PlaceFourBeyondSheet(sheet: Sheet, base: nat, l1: seq<string>, l2: seq<string>, l3: seq<string>,
                             l4: seq<string>)
    requires IsSheet(sheet) && base >= 256
    ensures PlaceFour(sheet, base, l1, l2, l3, l4) == sheet
  {
    PlaceBeyondSheet(sheet, base, l1);
    PlaceBeyondSheet(sheet, base + 1, l2);
    PlaceBeyondSheet(sheet, base + 16, l3);
    PlaceBeyondSheet(sheet, base + 17, l4);
  }

  /** A sprite id of 256 or more has its band below the last pixel row: nothing is written. */
  lemma PlaceBeyondSheet(sheet: Sheet, id: nat, lines: seq<string>)
    requires IsSheet(sheet) && id >= 256
    ensures PlaceSprite(sheet, id, lines) == sheet
  {
    var s := PlaceSprite(sheet, id, lines);
    assert forall r :: 0 <= r < 128 ==> s[r] == sheet[r];
  }

  predicate AllValid(sprites: seq<SpriteEntry>) {
    forall k :: 0 <= k < |sprites| ==> sprites[k].quadrants.Valid()
  }

  /** Cell (r, c) after placing `sprites` on `sheet`, read from the last entry back: the line
      of the last entry whose block covers the cell, or the original cell if none does. */
  function CellAfter(sheet: Sheet, sprites: seq<SpriteEntry>, r: nat, c: nat): string
    requires IsSheet(sheet) && AllValid(sprites) && r < 128 && c < 16
    decreases |sprites|
  {
    if sprites == [] then sheet[r][c]
    else
      var last := sprites[|sprites| - 1];
      if Covers(last, r, c) then EntryLine(last, r, c)
      else CellAfter(sheet, sprites[..|sprites| - 1], r, c)
  }

  /** Placing a list and then one more entry is placing the longer list. */
  lemma {:induction false} SheetAfterSnoc(sheet: Sheet, sprites: seq<SpriteEntry>, e: SpriteEntry)
    requires IsSheet(sheet)
    ensures SheetAfter(sheet, sprites + [e]) == PlaceEntry(SheetAfter(sheet, sprites), e)
    decreases |sprites|
  {
    if sprites == [] {
      assert [] + [e] == [e];
      assert [e][1..] == [];
    } else {
      assert (sprites + [e])[1..] == sprites[1..] + [e];
      SheetAfterSnoc(PlaceEntry(sheet, sprites[0]), sprites[1..], e);
    }
  }

  /** Each cell of the placed sheet is the line of the last entry that covers it: later
      entries overwrite earlier ones wherever their blocks meet. */
  lemma {:induction false} SheetAfterCell(sheet: Sheet, sprites: seq<SpriteEntry>, r: nat, c: nat)
    requires IsSheet(sheet) && AllValid(sprites) && r < 128 && c < 16
    ensures SheetAfter(sheet, sprites)[r][c] == CellAfter(sheet, sprites, r, c)
    decreases |sprites|
  {
    if sprites != [] {
      var init, last := sprites[..|sprites| - 1], sprites[|sprites| - 1];
      assert init + [last] == sprites;
      SheetAfterSnoc(sheet, init, last);
      PlaceEntryCell(SheetAfter(sheet, init), last, r, c);
      SheetAfterCell(sheet, init, r, c);
    }
  }

  /** Every cell of a sheet built from a blank one holds exactly eight characters. */
  lemma {:induction false} CellAfterLength(sprites: seq<SpriteEntry>, r: nat, c: nat)
    requires AllValid(sprites) && r < 128 && c < 16
    ensures |CellAfter(EmptySheet(), sprites, r, c)| == 8
    decreases |sprites|
  {
    if sprites != [] && !Covers(sprites[|sprites| - 1], r, c) {
      CellAfterLength(sprites[..|sprites| - 1], r, c);
    }
  }

  /** A cell no entry covers keeps the blank "00000000". */
  lemma {:induction false} UncoveredCellIsBlank(sprites: seq<SpriteEntry>, r: nat, c: nat)
    requires AllValid(sprites) && r < 128 && c < 16
    requires forall k :: 0 <= k < |sprites| ==> !Covers(sprites[k], r, c)
    ensures SheetAfter(EmptySheet(), sprites)[r][c] == BlankCell
    decreases |sprites|
  {
    SheetAfterCell(EmptySheet(), sprites, r, c);
    CellAfterUncovered(sprites, r, c);
  }

  lemma {:induction false} CellAfterUncovered(sprites: seq<SpriteEntry>, r: nat, c: nat)
    requires AllValid(sprites) && r < 128 && c < 16
    requires forall k :: 0 <= k < |sprites| ==> !Covers(sprites[k], r, c)
    ensures CellAfter(EmptySheet(), sprites, r, c) == BlankCell
    decreases |sprites|
  {
    if sprites != [] {
      CellAfterUncovered(sprites[..|sprites| - 1], r, c);
    }
  }

  /** An entry's block is undisturbed by any entry placed after it unless that entry's block
      meets it; in particular entry N + 8 lands on the bottom half of entry N: sprite id
      2(N + 8) is 2N + 16, the bottom-left id of entry N. */
  lemma NextBandOverlaps(n: nat)
    ensures (2 * (n + 8)) / 16 == (2 * n) / 16 + 1 && (2 * (n + 8)) % 16 == (2 * n) % 16
  {
    BaseIds(n);
  }

  /** Placing a list numbered as `ExtractAllSprites` numbers it (entry k has index k), on
      any starting sheet and so on the blank one: the bottom half of entry N's block ends
      up showing the top half of entry N + 8, row for row, whenever there is an entry
      N + 8. No other entry covers those cells, and N + 8 is placed after N. */
  lemma LaterEntryOverwrites(sheet: Sheet, sprites: seq<SpriteEntry>, n: nat, i: nat, dx: nat)
    requires IsSheet(sheet) && AllValid(sprites)
    requires forall k :: 0 <= k < |sprites| ==> sprites[k].index == k
    requires n + 8 < |sprites| && i < 8 && dx < 2
    requires ((2 * n) / 16 + 1) * 8 + i < 128
    ensures var r, c := ((2 * n) / 16 + 1) * 8 + i, (2 * n) % 16 + dx;
      && c < 16 && Covers(sprites[n], r, c)
      && SheetAfter(sheet, sprites)[r][c] == HexLine(sprites[n + 8].quadrants.Pick(dx, 0)[i])
  {
    var r, c := ((2 * n) / 16 + 1) * 8 + i, (2 * n) % 16 + dx;
    BottomHalfCovered(sprites[n], n, i, dx);
    NextBandOverlaps(n);
    TopHalfLine(sprites[n + 8], (2 * n) / 16 + 1, (2 * n) % 16, i, dx);
    NoLaterCover(sprites, n, i, dx);
    LastCoverShows(sheet, sprites, n + 8, r, c);
  }

  /** A cell of the placed sheet shows the last entry that covers it. */
  lemma LastCoverShows(sheet: Sheet, sprites: seq<SpriteEntry>, m: nat, r: nat, c: nat)
    requires IsSheet(sheet) && AllValid(sprites) && r < 128 && c < 16
    requires m < |sprites| && Covers(sprites[m], r, c)
    requires forall k :: m < k < |sprites| ==> !Covers(sprites[k], r, c)
    ensures SheetAfter(sheet, sprites)[r][c] == EntryLine(sprites[m], r, c)
  {
    CellAfterLastCover(sheet, sprites, m, r, c);
    SheetAfterCell(sheet, sprites, r, c);
  }

  /** Row 8 + i of entry N's block is inside that block. */
  lemma BottomHalfCovered(e: SpriteEntry, n: nat, i: nat, dx: nat)
    requires e.index == n && i < 8 && dx < 2
    ensures (2 * n) % 16 + dx < 16 && Covers(e, ((2 * n) / 16 + 1) * 8 + i, (2 * n) % 16 + dx)
  {
    BaseIds(n);
    assert ((2 * n) / 16 + 1) * 8 == (2 * n) / 16 * 8 + 8;
  }

  /** In a list numbered from 0, no entry after N + 8 covers the bottom half of N's block. */
  lemma NoLaterCover(sprites: seq<SpriteEntry>, n: nat, i: nat, dx: nat)
    requires forall k :: 0 <= k < |sprites| ==> sprites[k].index == k
    requires i < 8 && dx < 2
    ensures forall k :: n + 8 < k < |sprites| ==>
      !Covers(sprites[k], ((2 * n) / 16 + 1) * 8 + i, (2 * n) % 16 + dx)
  {
    forall k | n + 8 < k < |sprites|
      ensures !Covers(sprites[k], ((2 * n) / 16 + 1) * 8 + i, (2 * n) % 16 + dx)
    {
      if Covers(sprites[k], ((2 * n) / 16 + 1) * 8 + i, (2 * n) % 16 + dx) {
        OnlyTwoCover(sprites[k], n, i, dx);
      }
    }
  }

  /** Row i of the top half of an entry's block holds line i of its top quadrants. */
  lemma TopHalfLine(e: SpriteEntry, band: nat, col: nat, i: nat, dx: nat)
    requires e.quadrants.Valid() && i < 8 && dx < 2
    requires (2 * e.index) / 16 == band && (2 * e.index) % 16 == col
    ensures Covers(e, band * 8 + i, col + dx)
    ensures EntryLine(e, band * 8 + i, col + dx) == HexLine(e.quadrants.Pick(dx, 0)[i])
  {
  }

  /** The cells of the bottom half of entry N's block are covered by entries N and N + 8
      and by no other index. */
  lemma OnlyTwoCover(e: SpriteEntry, n: nat, i: nat, dx: nat)
    requires i < 8 && dx < 2
    requires Covers(e, ((2 * n) / 16 + 1) * 8 + i, (2 * n) % 16 + dx)
    ensures e.index == n || e.index == n + 8
  {
    var m := e.index;
    var b, col := (2 * n) / 16, (2 * n) % 16;
    var bm, cm := (2 * m) / 16, (2 * m) % 16;
    assert 2 * n == 16 * b + col && 2 * m == 16 * bm + cm;
    assert col == 2 * (n - 8 * b) && cm == 2 * (m - 8 * bm);
    assert (b + 1) * 8 == 8 * b + 8;
    assert bm == b || bm == b + 1;
    assert cm == col;
  }

  /** Reading a cell from the last entry back: when entry m covers it and no later one
      does, the cell holds entry m's line. */
  lemma {:induction false} CellAfterLastCover(sheet: Sheet, sprites: seq<SpriteEntry>, m: nat, r: nat, c: nat)
    requires IsSheet(sheet) && AllValid(sprites) && r < 128 && c < 16
    requires m < |sprites| && Covers(sprites[m], r, c)
    requires forall k :: m < k < |sprites| ==> !Covers(sprites[k], r, c)
    ensures CellAfter(sheet, sprites, r, c) == EntryLine(sprites[m], r, c)
    decreases |sprites|
  {
    if m < |sprites| - 1 {
      var init := sprites[..|sprites| - 1];
      assert !Covers(sprites[|sprites| - 1], r, c);
      CellAfterLastCover(sheet, init, m, r, c);
    }
  }

  // ---------------------------------------------------------------------------
  // Properties of the text
  // ---------------------------------------------------------------------------

  /** The text of a blank-started sheet: the header, then 128 lines of 128 digits, and digit
      8c + j of line r + 1 is digit j of cell (r, c). */
  lemma GfxLinesShape(sprites: seq<SpriteEntry>, r: nat, c: nat, j: nat)
    requires AllValid(sprites) && r < 128 && c < 16 && j < 8
    ensures var sheet := SheetAfter(EmptySheet(), sprites);
      var lines := GfxLines(sheet);
      && |lines[r + 1]| == 128
      && |sheet[r][c]| == 8
      && lines[r + 1][8 * c + j] == sheet[r][c][j]
  {
    var sheet := SheetAfter(EmptySheet(), sprites);
    forall k | 0 <= k < 16
      ensures |sheet[r][k]| == 8
    {
      SheetAfterCell(EmptySheet(), sprites, r, k);
      CellAfterLength(sprites, r, k);
    }
    ConcatLength(sheet[r], 8);
    ConcatAt(sheet[r], 8, c, j);
  }

  /** Where line k starts in `'\n'.join` of lines of `n` characters each. */
  function LineStart(n: nat, k: nat): nat {
    if k == 0 then 0 else LineStart(n, k - 1) + n + 1
  }

  lemma {:induction false} LineStartIs(n: nat, k: nat)
    ensures LineStart(n, k) == (n + 1) * k
  {
    if k > 0 {
      LineStartIs(n, k - 1);
      assert (n + 1) * k == (n + 1) * (k - 1) + n + 1;
    }
  }

  /** `'\n'.join` of lines of `n` characters each: line k starts at (n + 1) * k, and a
      newline follows every line but the last. */
  lemma {:induction false} JoinLinesLength(lines: seq<string>, n: nat)
    requires |lines| >= 1 && forall i :: 0 <= i < |lines| ==> |lines[i]| == n
    ensures |JoinLines(lines)| == LineStart(n, |lines|) - 1
    decreases |lines|
  {
    if |lines| > 1 {
      JoinLinesLength(lines[1..], n);
      LineStartShift(n, |lines| - 1);
    }
  }

  lemma {:induction false} LineStartShift(n: nat, k: nat)
    ensures LineStart(n, k + 1) == (n + 1) + LineStart(n, k)
  {
  }

  lemma {:induction false} JoinLinesAt(lines: seq<string>, n: nat, k: nat, j: nat)
    requires |lines| >= 1 && forall i :: 0 <= i < |lines| ==> |lines[i]| == n
    requires k < |lines| && j <= n && (j == n ==> k + 1 < |lines|)
    ensures |JoinLines(lines)| == LineStart(n, |lines|) - 1
    ensures LineStart(n, k) + j < |JoinLines(lines)|
    ensures JoinLines(lines)[LineStart(n, k) + j] == if j < n then lines[k][j] else '\n'
    decreases |lines|
  {
    JoinLinesLength(lines, n);
    LineStartBelow(n, k, |lines|);
    if |lines| > 1 {
      var rest := lines[1..];
      assert JoinLines(lines) == lines[0] + "\n" + JoinLines(rest);
      if k > 0 {
        JoinLinesAt(rest, n, k - 1, j);
        LineStartShift(n, k - 1);
      }
    }
  }

  /** Line starts grow by n + 1 per line. */
  lemma {:induction false} LineStartBelow(n: nat, k: nat, m: nat)
    requires k < m
    ensures LineStart(n, k) + n + 1 <= LineStart(n, m)
    decreases m
  {
    if k + 1 < m {
      LineStartBelow(n, k, m - 1);
    }
  }

  /** The whole `__gfx__` text of a blank-started sheet: the header and its newline, then
      128 lines of 128 digits separated by newlines; digit j of cell (r, c) sits at
      8 + 129 * r + 8 * c + j. */
  lemma GfxTextLayout(sprites: seq<SpriteEntry>, r: nat, c: nat, j: nat)
    requires AllValid(sprites) && r < 128 && c < 16 && j < 8
    ensures var sheet := SheetAfter(EmptySheet(), sprites);
      var text := JoinLines(GfxLines(sheet));
      && |text| == 8 + 129 * 128 - 1
      && |sheet[r][c]| == 8
      && text[8 + 129 * r + 8 * c + j] == sheet[r][c][j]
      && (r < 127 ==> text[8 + 129 * r + 128] == '\n')
  {
    var sheet := SheetAfter(EmptySheet(), sprites);
    forall r', c' | 0 <= r' < 128 && 0 <= c' < 16
      ensures |sheet[r'][c']| == 8
    {
      SheetAfterCell(EmptySheet(), sprites, r', c');
      CellAfterLength(sprites, r', c');
    }
    GfxTextAt(sheet, r, c, j);
  }

  /** The same on any sheet whose cells all hold eight characters. */
  lemma GfxTextAt(sheet: Sheet, r: nat, c: nat, j: nat)
    requires IsSheet(sheet) && r < 128 && c < 16 && j < 8
    requires forall r', c' :: 0 <= r' < 128 && 0 <= c' < 16 ==> |sheet[r'][c']| == 8
    ensures var text := JoinLines(GfxLines(sheet));
      && |text| == 8 + 129 * 128 - 1
      && text[8 + 129 * r + 8 * c + j] == sheet[r][c][j]
      && (r < 127 ==> text[8 + 129 * r + 128] == '\n')
  {
    var lines := GfxLines(sheet);
    forall k | 1 <= k < 129
      ensures |lines[k]| == 128
    {
      assert lines[k] == Concat(sheet[k - 1]);
      ConcatLength(sheet[k - 1], 8);
    }
    assert lines[r + 1] == Concat(sheet[r]);
    ConcatAt(sheet[r], 8, c, j);
    GfxJoinAt(lines, r, 8 * c + j);
    if r < 127 {
      GfxJoinAt(lines, r, 128);
    }
  }

  /** The joined text of a header and 128 lines of 128 characters: character p of pixel
      row r sits at 8 + 129 * r + p, with a newline at p = 128 below the last row. */
  lemma GfxJoinAt(lines: seq<string>, r: nat, p: nat)
    requires |lines| == 129 && lines[0] == "__gfx__"
    requires forall k :: 1 <= k < 129 ==> |lines[k]| == 128
    requires r < 128 && p <= 128 && (p == 128 ==> r < 127)
    ensures |JoinLines(lines)| == 8 + 129 * 128 - 1
    ensures JoinLines(lines)[8 + 129 * r + p] == if p < 128 then lines[r + 1][p] else '\n'
  {
    var rows := lines[1..];
    assert forall k :: 0 <= k < |rows| ==> |rows[k]| == 128 by {
      forall k | 0 <= k < |rows| ensures |rows[k]| == 128 {
        assert rows[k] == lines[k + 1];
      }
    }
    JoinLinesAt(rows, 128, r, p);
    LineStartIs(128, r);
    LineStartIs(128, 128);
    assert JoinLines(lines) == "__gfx__" + "\n" + JoinLines(rows);
  }
}

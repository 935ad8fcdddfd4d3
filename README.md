# PNG to PICO-8 sprite tools, modelled in Dafny

This project models the three Python command-line tools of the repository that turn PNG
art into PICO-8 sprite-sheet text:

- `png_extract_all_sprites.py` cuts an image into 16x16 tiles. It quantises every pixel to
  the 16-colour PICO-8 palette and splits each tile into four 8x8 sprites. It then writes
  the sprites to a 128x128 sheet as `__gfx__` text, one hex digit per pixel.
- `sprite_extractor.py` cuts an RGB image into square sprites of 8, 16 or 32 pixels. It
  lays them out slot by slot on a 128x128 sheet of colour indices, with fit checks, skip
  rules and a 256-slot cap. It writes the sheet with two pixels packed into each hex byte.
- `png_to_pico8.py` converts a single 16x16 image into four 8x8 sprites of hex lines.

The image library is replaced by a pixel grid (`Images.Grid`): a width, a height and rows
of pixels. A pixel is an RGB triple or an RGBA quadruple of bytes. All three tools share one
palette and one quantiser, so one module (`Palette`) serves them all.

Modules:

- `Images`: bytes, pixels and grids.
- `Palette`: the palette, the nearest-colour scan and the alpha test.
- `Hex`: `hex(n)[2:]`, `{:02x}`, nibble packing and joining strings.
- `ExtractAllSprites`: `png_extract_all_sprites.py`.
- `SpriteExtractor`: `sprite_extractor.py`.
- `PngToPico8`: `png_to_pico8.py`.

The `find_closest_pico8_color`, `split_into_8x8_sprites` and `sprite_to_hex_string` of
`png_to_pico8.py` are the same code as `find_closest_pico8_color`, `split_16x16_to_8x8` and
`sprite_to_hex_string` of `png_extract_all_sprites.py`. Each is defined once, and
`PngToPico8` proves what the single-tile tool relies on about those shared definitions.

Each modelled loop of the source is a method with invariants. Each method is proved against a
function that specifies it: `ExtractSpriteFromPosition` against `TileAt`,
`SpritesToPico8Format` against `Layout`, `SavePico8SpriteData` against `GfxFile`, and so
on. The lemmas then state the properties the tools promise about those functions.

The repository also holds a PICO-8 game. Its Lua sources are not part of this model.

## Model

| member | source | states |
|---|---|---|
| Palette.Distance | png_extract_all_sprites.py:42 | the squared Euclidean distance, summed over the three channels; `DistanceZero` says when it is 0 |
| Palette.Nearest | png_extract_all_sprites.py:39-47 | the index the scan holds after all sixteen entries; `NearestIsNearest` says it is the nearest, lowest on ties |
| Palette.NearestAmong | sprite_extractor.py:39-43 | after scanning the first n entries, the held index is one of them |
| Palette.NearestIsNearest | sprite_extractor.py:34-45 | the chosen index is in 0..15, its squared distance is at most every entry's, and ties go to the lowest index |
| Palette.NearestColor | sprite_extractor.py:34-45 | `rgb_to_pico8_color`: the min-tracking loop starting from an infinite bound returns the nearest index, lowest on ties |
| Palette.ScanEntry | sprite_extractor.py:40-43 | one round of the scan: entry i replaces the held index exactly when strictly closer than the current minimum, so after it the held index is the scan result over entries 0..i |
| Palette.NearestAmongIsMin | sprite_extractor.py:39-43 | after the first n entries the held index is at least as close as each of them and strictly closer than every lower index |
| Palette.Quantize | png_extract_all_sprites.py:33-35 | an RGBA pixel with alpha 0 quantises to colour 0 |
| Palette.QuantizeIsNearest | png_extract_all_sprites.py:36-47 | any other pixel quantises to the nearest palette entry to its first three channels, lowest index on ties |
| Palette.FindClosestPico8Color | png_extract_all_sprites.py:31-47 | alpha 0 gives 0; otherwise the result is the nearest index with ties to the lowest; the result equals the quantiser; png_to_pico8.py:31-47 is the same code |
| Palette.NearestIsUnique | png_extract_all_sprites.py:41-45 | the nearest-with-lowest-tie condition admits exactly one index, so the scan's answer is the only one |
| Palette.DistanceZero | png_extract_all_sprites.py:42 | the squared distance is 0 exactly when the two colours are equal |
| Palette.PaletteDistinct | png_extract_all_sprites.py:12-29 | the sixteen palette entries are pairwise different |
| Palette.PaletteColourIsFixed | sprite_extractor.py:15-45 | every palette colour quantises to its own index |
| Hex.HexDigit | png_extract_all_sprites.py:165 | the digit written for a colour reads back as that colour |
| Hex.HexDigitInjective | png_extract_all_sprites.py:165 | different colours get different digits |
| Hex.HexDigits | png_extract_all_sprites.py:165 | `hex(n)[2:]` has at least one digit, and exactly one when n < 16 |
| Hex.HexDigitsRoundTrip | png_extract_all_sprites.py:165 | reading the digits of `hex(n)[2:]` back gives n |
| Hex.HexDigitsNoLeadingZero | png_extract_all_sprites.py:165 | `hex(n)[2:]` starts with '0' only for n = 0 |
| Hex.Hex2 | sprite_extractor.py:183 | `{:02x}` has at least two characters, and exactly two for a byte |
| Hex.PackByte | sprite_extractor.py:182 | shifting the left colour up four bits and or-ing in the right one gives 16 * left + right |
| Hex.BitOr | sprite_extractor.py:182 | Python's `|` on non-negative integers is at least each operand and at most their sum |
| Hex.BitOrDisjoint | sprite_extractor.py:182 | or-ing a number below 2^k into a multiple of 2^k is addition |
| Hex.UnpackByte | sprite_extractor.py:182 | a byte is 16 times its high nibble plus its low nibble |
| Hex.PackRoundTrip | sprite_extractor.py:182 | unpacking a packed byte gives back the (left, right) pair |
| Hex.Hex2OfPacked | sprite_extractor.py:182-183 | the two digits of a packed byte are the left colour's digit, then the right colour's |
| Hex.PackedByteDecodes | sprite_extractor.py:182-183 | decoding the two digits of a packed byte recovers (left, right) |
| Hex.DecodeDigitsOf | png_extract_all_sprites.py:164-167 | a string with one digit per colour of a row decodes back to that row |
| Hex.HexLine | png_extract_all_sprites.py:165-166 | a row's line has one character per colour, and character j is the digit of colour j |
| Hex.HexLineDecodes | png_extract_all_sprites.py:165-166 | a hex line decodes back to the row it was written from |
| Hex.HexLineInjective | png_extract_all_sprites.py:165-166 | different rows give different hex lines |
| Hex.ConcatLength | png_extract_all_sprites.py:234 | joining cells of n characters each gives n characters per cell |
| Hex.ConcatAt | png_extract_all_sprites.py:234 | character j of cell i sits at position n * i + j of the joined line |
| Hex.ConcatSnoc | sprite_extractor.py:176-184 | appending one more line to the joined text appends it at the end |
| Images.RowMajor | png_extract_all_sprites.py:145 | the row-major index row * n + col divides back into row and col |
| Images.TileInside | sprite_extractor.py:61-64 | a whole tile k < w / size lies inside a row of w pixels |
| Images.TilePlace | sprite_extractor.py:58-64 | tile k of the row-major order is tile k % across of tile row k / across, and the whole tile lies inside the image |
| ExtractAllSprites.TileAt | png_extract_all_sprites.py:49-68 | the reference tile is size x size, and each cell is 0 off the image and the quantised pixel on it |
| ExtractAllSprites.ExtractSpriteFromPosition | png_extract_all_sprites.py:49-68 | the nested append loops build that tile: size rows of size, 0 wherever x or y runs past the edge, the quantised pixel elsewhere |
| ExtractAllSprites.Extract16x16Sprite | png_extract_all_sprites.py:70-88 | 16 rows of 16; cells with source x >= width or y >= height are 0; every other cell is the quantised source pixel |
| ExtractAllSprites.Quadrant | png_extract_all_sprites.py:92-110 | each quadrant of a 16x16 tile is an 8x8 tile |
| ExtractAllSprites.Split | png_extract_all_sprites.py:90-112 | the four parts of a 16x16 tile are all 8x8 |
| ExtractAllSprites.Reassemble | png_extract_all_sprites.py:90-112 | putting four 8x8 sprites back together gives a 16x16 tile |
| ExtractAllSprites.ReassembleSplit | png_extract_all_sprites.py:92-112 | reassembling the quadrants reproduces the 16x16 input exactly |
| ExtractAllSprites.SplitReassemble | png_extract_all_sprites.py:92-112 | splitting a reassembled tile gives back the four sprites |
| ExtractAllSprites.Split16x16To8x8 | png_extract_all_sprites.py:90-112 | the in-place fill of four preallocated sprites gives four 8x8 quadrants with `q[y][x] = data[y + 8dy][x + 8dx]` |
| ExtractAllSprites.HexLines | png_extract_all_sprites.py:161-168 | one hex line per sprite row |
| ExtractAllSprites.SpriteToHexString | png_extract_all_sprites.py:161-168 | one line per row, each as long as its row, with character j of line i the digit of colour (i, j) |
| ExtractAllSprites.ExtractAllSprites | png_extract_all_sprites.py:125-153 | (height / 16) * (width / 16) entries in row-major order, with index = row * across + col, position (col, row), and the split tile at that position |
| ExtractAllSprites.EmptySheet | png_extract_all_sprites.py:174 | the initial sheet is 128 rows of 16 cells |
| ExtractAllSprites.WriteLines | png_extract_all_sprites.py:212-214 | writing lines to a cell column keeps the sheet 128 rows of 16 cells (lines past row 127 are dropped) |
| ExtractAllSprites.PlaceSprite | png_extract_all_sprites.py:186-189 | writing to sprite id keeps the sheet's shape |
| ExtractAllSprites.PlaceFour | png_extract_all_sprites.py:211-229 | the four column writes keep the sheet's shape |
| ExtractAllSprites.PlaceEntry | png_extract_all_sprites.py:183-229 | placing an entry keeps the sheet's shape |
| ExtractAllSprites.SheetAfter | png_extract_all_sprites.py:176-229 | placing every entry in order keeps the sheet's shape |
| ExtractAllSprites.GfxLines | png_extract_all_sprites.py:232-234 | the output lines are `__gfx__` followed by exactly 128 lines |
| ExtractAllSprites.PlaceLines | png_extract_all_sprites.py:212-214 | the `enumerate` loop writes line i to cell (row * 8 + i, col) and drops it when that row is 128 or more |
| ExtractAllSprites.PlaceEntryLines | png_extract_all_sprites.py:183-229 | the loop body places an entry's four quadrants at ids 2N, 2N+1, 2N+16, 2N+17, in that order |
| ExtractAllSprites.FillSheet | png_extract_all_sprites.py:174-229 | the sheet-building loop equals placing every entry, first to last, on the blank sheet |
| ExtractAllSprites.SheetLines | png_extract_all_sprites.py:232-234 | the output lines are the header and then each pixel row's cells joined |
| ExtractAllSprites.GenerateGfxOutput | png_extract_all_sprites.py:170-236 | the output text is the newline-joined header and rows of the filled sheet |
| ExtractAllSprites.EntryLine | png_extract_all_sprites.py:205-229 | the line an entry writes into any cell of its block has eight characters |
| ExtractAllSprites.BaseIds | png_extract_all_sprites.py:183-203 | the ids 2N, 2N+1, 2N+16, 2N+17 form a 2x2 block of cells: same band and next column, then the band below |
| ExtractAllSprites.PlaceEntryCell | png_extract_all_sprites.py:183-229 | placing entry N changes exactly the cells of its 2x2 block, each to row r % 8 of the covering quadrant |
| ExtractAllSprites.QuadrantIds | png_extract_all_sprites.py:183-229 | a cell is in the column and band of sprite id 2N, 2N+1, 2N+16 or 2N+17 exactly when it is in the matching quadrant of entry N's 2x2 block |
| ExtractAllSprites.PlaceEntryLayers | png_extract_all_sprites.py:211-229 | a cell shows the last of the four quadrant writes that reaches it |
| ExtractAllSprites.WriteSpriteCell | png_extract_all_sprites.py:212-214 | lines written to sprite id land in column id % 16 of band id / 16, and nowhere else |
| ExtractAllSprites.WriteFour | png_extract_all_sprites.py:211-229 | four successive writes: each cell holds the last write that covers it |
| ExtractAllSprites.PlaceEntryBeyondSheet | png_extract_all_sprites.py:211-229 | an entry with index 128 or more targets rows past 127 only, so nothing is written |
| ExtractAllSprites.PlaceBeyondSheet | png_extract_all_sprites.py:213-214 | a sprite id of 256 or more writes nothing, rather than out of bounds |
| ExtractAllSprites.SheetAfterSnoc | png_extract_all_sprites.py:176 | placing a list and then one more entry is placing the longer list |
| ExtractAllSprites.SheetAfterCell | png_extract_all_sprites.py:176-229 | each cell of the result is the line of the last entry covering it, or the original cell |
| ExtractAllSprites.CellAfterLength | png_extract_all_sprites.py:174 | every cell of a sheet built from the blank one has eight characters |
| ExtractAllSprites.UncoveredCellIsBlank | png_extract_all_sprites.py:174 | a cell that no entry targets keeps `'00000000'` |
| ExtractAllSprites.CellAfterUncovered | png_extract_all_sprites.py:174 | read from the last entry back, an uncovered cell is `'00000000'` |
| ExtractAllSprites.NextBandOverlaps | png_extract_all_sprites.py:179-183 | the top-left id of entry N + 8 is the bottom-left id of entry N |
| ExtractAllSprites.LaterEntryOverwrites | png_extract_all_sprites.py:176-229 | with entries numbered 0, 1, 2, ... as the tool numbers them, on any starting sheet, each cell of the bottom half of entry N's block ends up holding the matching line of the top half of entry N + 8 whenever entry N + 8 exists |
| ExtractAllSprites.OnlyTwoCover | png_extract_all_sprites.py:183-203 | the only entries whose blocks reach the bottom half of entry N's block are N and N + 8 |
| ExtractAllSprites.NoLaterCover | png_extract_all_sprites.py:176-203 | in a list numbered from 0, no entry after N + 8 reaches the bottom half of entry N's block |
| ExtractAllSprites.LastCoverShows | png_extract_all_sprites.py:176-229 | a cell of the placed sheet holds the line of the last entry covering it |
| ExtractAllSprites.JoinLines | png_extract_all_sprites.py:236 | `'\n'.join`: the lines in order with one newline between neighbours (laid out by `JoinLinesAt`) |
| ExtractAllSprites.JoinLinesAt | png_extract_all_sprites.py:236 | joining lines of n characters: character j of line k is at (n + 1) * k + j, a newline follows every line but the last, and the text is (n + 1) * count - 1 long |
| ExtractAllSprites.GfxTextLayout | png_extract_all_sprites.py:232-236 | the output text is 8 + 129 * 128 - 1 characters; digit j of cell (r, c) is at 8 + 129 * r + 8 * c + j, and a newline ends every pixel row but the last |
| ExtractAllSprites.GfxLinesShape | png_extract_all_sprites.py:232-236 | each of the 128 sheet lines is 128 characters, and character 8c + j of line r is digit j of cell (r, c) |
| SpriteExtractor.BlockRow | sprite_extractor.py:71-75 | a sprite row has size colours |
| SpriteExtractor.Block | sprite_extractor.py:67-76 | a sprite's data is size x size |
| SpriteExtractor.ReadRow | sprite_extractor.py:71-75 | the inner append loop builds the row of quantised pixels |
| SpriteExtractor.ReadBlock | sprite_extractor.py:67-76 | the row loop builds the size x size block of quantised pixels |
| SpriteExtractor.ExtractSpritesFromPng | sprite_extractor.py:53-84 | (h / s) * (w / s) sprites, entry k being the row-major tile k; no sprites when s is 0 |
| SpriteExtractor.SpriteAtTile | sprite_extractor.py:78-84 | the sprite for tile (x, y) has id y * across + x, position (x, y) and size s |
| SpriteExtractor.ReadSprite | sprite_extractor.py:61-84 | one pass of the inner loop yields exactly the sprite numbered y * across + x, and that number is below the tile count |
| SpriteExtractor.SpriteAtInside | sprite_extractor.py:58-64 | sprite k's block lies wholly inside the image |
| SpriteExtractor.BlockPixel | sprite_extractor.py:73-74 | the block's cell (px, py) is the quantised image pixel at (left + px, top + py) |
| SpriteExtractor.SpritePixels | sprite_extractor.py:53-84 | sprite k's data is s x s with `data[py][px]` the quantised pixel at (x * s + px, y * s + py) |
| SpriteExtractor.BlankRow | sprite_extractor.py:99 | a blank row is 128 zeros |
| SpriteExtractor.BlankSheet | sprite_extractor.py:95-99 | the initial sheet is 128 x 128 zeros |
| SpriteExtractor.PlacementInBounds | sprite_extractor.py:104-158 | below slot 256 and past the fit check, every row and column written lies in 0..127 |
| SpriteExtractor.BlitRow | sprite_extractor.py:115-117 | a copied row still has 128 pixels |
| SpriteExtractor.Blit | sprite_extractor.py:113-158 | copying a block keeps the sheet 128 x 128 |
| SpriteExtractor.Layout | sprite_extractor.py:103-163 | the reference layout keeps the sheet 128 x 128 |
| SpriteExtractor.CopyChunk | sprite_extractor.py:132-136 | the 8x8 copy loops write chunk (cx, cy) of the sprite at its place and change nothing else |
| SpriteExtractor.CopyChunks | sprite_extractor.py:127-136 | the chunk loops copy the whole 8m x 8m sprite to its corner and nothing else |
| SpriteExtractor.LayoutUnfold | sprite_extractor.py:103-124 | one round of the layout: stop at slot 256, pass over a sprite that does not fit, or copy it and advance |
| SpriteExtractor.PlaceSprite | sprite_extractor.py:108-163 | a sprite that fits is copied in bounds to its slot and the slot advances; otherwise sheet and slot are unchanged |
| SpriteExtractor.SpritesToPico8Format | sprite_extractor.py:92-165 | the loop over sprites with its `break` at slot 256 and `continue` on a failed fit produces the reference layout |
| SpriteExtractor.SkipRowsThree | sprite_extractor.py:160-163 | the three skip rounds add 48 when the slot is at a row start, and nothing otherwise |
| SpriteExtractor.NextSlotAdvance | sprite_extractor.py:118-163 | the slot advances by 1 for 8x8; by 2 (plus 16 on row wrap) for 16x16; by 4 (plus 48 on row wrap) for 32x32 |
| SpriteExtractor.LayoutKeepsUncovered | sprite_extractor.py:95-99 | a cell no placed sprite covers keeps its value, so 0 on the blank sheet |
| SpriteExtractor.StuckInLastColumn | sprite_extractor.py:120-124 | from a slot in the last column, as long as every following sprite is 16x16, each one is passed over and the sheet stays as it is |
| SpriteExtractor.UniformNeverInLastColumn | sprite_extractor.py:118-163 | with only 16x16 or only 32x32 sprites, the k-th slot's column is (k % (128 / n)) * (n / 8), so never the last column |
| SpriteExtractor.Fits | sprite_extractor.py:119-146 | the fit check: an 8x8 sprite always fits; 16x16 needs slot column and row at most 14; 32x32 at most 12; other sizes are never placed |
| SpriteExtractor.SkipRows | sprite_extractor.py:161-163 | the three "at a row start, move down a row" rounds after a 32x32 sprite (`SkipRowsThree` says what they add) |
| SpriteExtractor.NextSlot | sprite_extractor.py:117-163 | the slot after placing a sprite of each size (`NextSlotAdvance` says by how much it moves) |
| SpriteExtractor.GridRow | sprite_extractor.py:109-117 | a row of the uniform grid has 128 pixels |
| SpriteExtractor.GridSheet | sprite_extractor.py:103-163 | the uniform-size grid sheet is 128 x 128 |
| SpriteExtractor.GridStep8 | sprite_extractor.py:118 | an 8x8 sprite moves the slot to the next grid position |
| SpriteExtractor.GridStep16 | sprite_extractor.py:138-140 | a 16x16 sprite moves the slot two to the right, or to the start of the row pair below |
| SpriteExtractor.GridStep32 | sprite_extractor.py:160-163 | a 32x32 sprite moves the slot four to the right, or to the start of the band four rows below |
| SpriteExtractor.SlotOfFacts8 | sprite_extractor.py:109-118 | the k-th 8x8 sprite sits at row (k / 16) * 8 and column (k % 16) * 8, and the next one at slot k + 1 |
| SpriteExtractor.SlotOfFacts16 | sprite_extractor.py:109-140 | the k-th 16x16 sprite fits and sits at row (k / 8) * 16 and column (k % 8) * 16 |
| SpriteExtractor.SlotOfFacts32 | sprite_extractor.py:109-163 | the k-th 32x32 sprite fits and sits at row (k / 4) * 32 and column (k % 4) * 32 |
| SpriteExtractor.SlotOfFacts | sprite_extractor.py:109-163 | for each size n, sprite k below capacity fits at ((k / (128 / n)) * n, (k % (128 / n)) * n) |
| SpriteExtractor.SlotOfFull | sprite_extractor.py:104-106 | after a full sheet of one size the slot has reached 256 |
| SpriteExtractor.CellInBlock | sprite_extractor.py:109-117 | a cell lies in sprite j's block exactly when it is the grid cell of sprite j |
| SpriteExtractor.GridBlit | sprite_extractor.py:113-158 | copying sprite j onto the grid of the first j sprites gives the grid of the first j + 1 |
| SpriteExtractor.GridFrom | sprite_extractor.py:103-163 | from the grid of the first j sprites at slot j, the layout ends with the grid of min(count, capacity) sprites |
| SpriteExtractor.GridFromStep | sprite_extractor.py:103-163 | at slot j of the grid, sprite j fits, is copied, and the layout goes on from slot j + 1 with the grid of j + 1 sprites |
| SpriteExtractor.GridEmpty | sprite_extractor.py:99 | the grid of no sprites is the blank sheet |
| SpriteExtractor.GridFull | sprite_extractor.py:104-106 | sprites past the capacity change nothing |
| SpriteExtractor.GridFromBlank | sprite_extractor.py:92-165 | from the blank sheet and slot 0, sprites all of one supported size end as the grid of the first min(count, capacity) of them |
| SpriteExtractor.UniformLayout | sprite_extractor.py:92-165 | sprites all of size 8, 16 or 32 are laid out in the regular grid, 128 / n to a row, until the sheet is full |
| SpriteExtractor.UniformLayoutCell | sprite_extractor.py:92-165 | in that case pixel (r, c) is pixel (r % n, c % n) of sprite (r / n) * (128 / n) + c / n when that sprite exists, and 0 otherwise |
| SpriteExtractor.GfxRows | sprite_extractor.py:176-184 | the file has 128 sheet lines |
| SpriteExtractor.EncodeByte | sprite_extractor.py:180-183 | the two-digit form of the packed byte is the digit of pixel1 followed by the digit of pixel2 |
| SpriteExtractor.EncodeRow | sprite_extractor.py:177-183 | the byte loop over a 128-pixel row writes one digit per pixel, in order |
| SpriteExtractor.GfxRowsPrefix | sprite_extractor.py:184 | writing one more line extends the text by that line |
| SpriteExtractor.GfxFile | sprite_extractor.py:167-184 | the reference file text: the three header lines, then each sheet row as its digits and a newline (laid out by `GfxFileLayout`) |
| SpriteExtractor.SavePico8SpriteData | sprite_extractor.py:167-184 | the written text is the three header lines and then one line per sheet row |
| SpriteExtractor.GfxFileLayout | sprite_extractor.py:170-184 | the text is the header plus 128 lines of 128 characters and a newline; character j of line y is the digit of pixel (j, y) |
| SpriteExtractor.GfxLineDecodes | sprite_extractor.py:178-183 | byte i of a line is the packed pair of pixels 2i and 2i+1 and decodes back to them; the whole line decodes to the row |
| PngToPico8.ConvertPngToPico8 | png_to_pico8.py:64-71 | for a 16x16 input, 16 rows of 16 with `pico8_data[y][x]` the quantised pixel at (x, y) |
| PngToPico8.ToRgba | png_to_pico8.py:56 | `convert("RGBA")` of a pixel keeps its channels, keeps an RGBA pixel and gives an RGB pixel alpha 255 |
| PngToPico8.RgbaKeepsColour | png_to_pico8.py:56-71 | that conversion changes no pixel's palette index, so converting before the loop or not gives the same tile |
| PngToPico8.ConvertIsOriginTile | png_to_pico8.py:64-71 | on a 16x16 image that result is the all-sprites tool's tile at the origin |
| PngToPico8.SplitPartition | png_to_pico8.py:81-103 | input cell (x, y) is cell (x % 8, y % 8) of quadrant (x / 8, y / 8), and no other quadrant cell is filled from it |
| PngToPico8.SplitThenReassemble | png_to_pico8.py:88-103 | reassembling the four quadrants reproduces the input grid |
| PngToPico8.SpriteHexShape | png_to_pico8.py:107-114 | an 8x8 sprite gives 8 lines of 8 lowercase hex digits, each reading back as its row |
| PngToPico8.SpriteHexInjective | png_to_pico8.py:107-114 | two 8x8 sprites with the same lines are the same sprite |
| PngToPico8.ConvertToHexBlocks | png_to_pico8.py:124-151 | main's pipeline gives the hex lines of the four quadrants of the converted tile, top-left first |
| PngToPico8.HexBlocksRecoverPixels | png_to_pico8.py:124-151 | the printed blocks carry every pixel: digit x % 8 of line y % 8 of block (x / 8, y / 8) decodes to the quantised pixel (x, y) |

## Left out

- Image loading and conversion (`Image.open`, `convert`, `crop`, `getpixel`): the model takes the already decoded pixel grid. `crop` inside the image is a plain offset, which `SpriteExtractor.PixelAt` applies.
- The NEAREST resize of `convert_png_to_pico8` for images that are not 16x16: it is an image-library operation. PngToPico8.ConvertPngToPico8: requires a 16x16 grid, because the resize that enforces this is left out. It accepts RGB and RGBA pixels; `ToRgba` and `RgbaKeepsColour` show that the skipped conversion to RGBA changes no palette index.
- `create_preview_image`: it only calls the image library.
- File I/O, `print`, `argparse`, `sys.argv` and `sys.exit`: the writers are modelled by the text they produce, and `main` without printing by `PngToPico8.ConvertToHexBlocks`. The mains of the other two tools only parse arguments, print and chain the modelled operations.
- The exception handlers that return `None` or `[]`. They only guard I/O failures, except for one case: a sprite size of 0 makes `extract_sprites_from_png` divide by zero, and the handler then returns `[]`. `ExtractSpritesFromPng` returns `[]` for size 0 directly.
- `float('inf')` is kept as the `Bound` datatype rather than as a float, which is safe because every distance is an integer.
- The unused `numpy` import and the unused `sprite_size` parameter of `sprites_to_pico8_format`.
- ExtractAllSprites.ExtractAllSprites: the tile size is fixed at 16, the default and the only value the tool passes.
- SpriteExtractor.SpritesToPico8Format: requires every sprite whose size is 8, 16 or 32 to carry at least that much data, including sprites that end up skipped. The source only indexes the ones it places, so this asks slightly more than the source demands.
- SpriteExtractor.Layout: same precondition as `SpritesToPico8Format`, for the same reason.
- The `continue` of a failed fit check is the early `return` of `SpriteExtractor.PlaceSprite`, which leaves sheet and slot unchanged.
- Sprites are lists of lists that the source updates in place. The model keeps them as values (`seq`) that each step replaces, so any aliasing between lists is not modelled.
- The leak/flood PICO-8 game: its Lua sources are not part of this model.

Two properties worth knowing are proved rather than filed as defects:

- `ExtractAllSprites.LaterEntryOverwrites`: whenever an image has more than 8 tiles,
  tile N + 8 overwrites the bottom half of tile N on the sheet. The tool then reports
  `len(sprites) * 4` 8x8 sprites and tells the user to paste the whole section
  (png_extract_all_sprites.py:270-271), which suggests the authors expected every sprite
  to survive; nothing in the source says what should happen to the overlap, so the model
  keeps the code's behaviour.
- `SpriteExtractor.StuckInLastColumn`: once the slot is in the last column, each
  following 16x16 sprite is passed over for as long as only 16x16 sprites follow. An
  8x8 sprite in between moves the slot on. A list of only 16x16 or only 32x32 sprites
  never reaches that column (`SpriteExtractor.UniformNeverInLastColumn`). The 16x16 and
  32x32 advances move the column by an even amount (`SpriteExtractor.NextSlotAdvance`),
  so the odd last column is reached only after an odd number of 8x8 sprites.

The palette table (`Palette.Pico8Palette`, png_extract_all_sprites.py:12-29, and the same
table in the other two tools) and the three header lines of `save_pico8_sprite_data`
(`SpriteExtractor.Header`, sprite_extractor.py:170-173) are constants; `PaletteDistinct`,
`GfxFile` and `GfxFileLayout` state what the model relies on about them.

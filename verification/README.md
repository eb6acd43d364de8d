# Lawnscaper level codec, in Dafny

Lawnscaper is a level editor for the NES game *Lawn Mower*. The cartridge
image (24592 bytes) holds ten stages at offset `0x5010`. Each stage is a
95-byte record:

- 88 bytes of packed tiles. There are four 2-bit tiles per byte, and the
  first tile sits in the two most significant bits. That makes 352 tiles,
  an 11 x 32 grid whose column 0 is a hidden border.
- Seven metadata bytes:
  - the playable width;
  - spawn x, stored with +1 for the border column;
  - spawn y, stored with +3 for the border rows;
  - the grass goal: how many counted tall-grass tiles there are, clamped to
    255;
  - a byte the editor never writes;
  - the percent pair (lo, hi): the completion credit of one mowed tile.

The editor decodes a stage into a grid, lets the user paint tiles, move the
spawn and change the width, and writes the stage back after every edit.

This project models that core:

| module | file | what it holds |
|---|---|---|
| `Layout` | `layout.dfy` | Byte, tile and stage-index types, the layout constants, and where each stage's record starts. |
| `TileCodec` | `tile_codec.dfy` | The 2-bit packing as the loops do it (shift and or), and the unpacking. The round trip is proved in both directions. |
| `GrassMetrics` | `grass_metrics.dfy` | Which tiles count. The goal and its clamp. The percent loop as written, with a closed form for it. Both percent bytes stay in range. |
| `StageCodec` | `stage_codec.dfy` | `load_lawn`'s decode, and `update_current_lawn_rom` both as the loop the code runs and as a pure function. Frame, round-trip and idempotence lemmas. |
| `Editor` | `editor.dfy` | The editor's state: the image, the current stage and its lawn. The edits (`load_lawn`, next and previous, `set_tile`, `set_spawn_point`, `change_lawn_width`) each re-encode the lawn and leave the image in sync with it. `get_tile` only reads. |

The image is `seq<byte>`, with `byte` the subset 0..255 of `int`. The brush
is a parameter of `SetTile`. It is a value 0..3, because the source only
ever sets brushes 0 to 3 from the number keys.

Behaviours of the code worth knowing, all of which the model keeps:

- **The byte at base + 92.** `update_current_lawn_rom` never writes it
  (lawnscaper.py:171-202), so re-writing a stage keeps whatever the image
  held there: see `StageCodec.EncodeStage` and `StageCodec.EncodedMetadata`.
- **A zero stage.** A stage record of zero bytes has width 0. Counting only
  covers columns 1..width, so painting tall grass at (0, 0) stores goal 0
  and the pair (0, 0): `Editor.BlankStagePaintScenario`. The goal only
  becomes 1 once the width is raised to its minimum of 14
  (`Editor.BlankStageWidenScenario`).
- **A count of 1.** `int(100 / 1 * 255)` is 25500, and the loop splits
  that into lo 156, hi 99: `GrassMetrics.SingleTileCredit`.
- **The percent source.** The percent pair is computed from the goal after
  it is clamped to 255, not from the raw count.
- **The width on load.** The width read from the image is not clamped to
  14..30. Only `change_lawn_width` clamps it.
- **Short images.** Each stage only needs its own 95-byte record to be
  inside the image (`Layout.HoldsStage`). An image that ends after stage 0
  can still have stage 0 loaded and edited.

## Model

| member | source | states |
|---|---|---|
| Layout.StageBase | lawnscaper.py:144 | Stage `s`'s record starts exactly `s` whole 95-byte records past `0x5010`, and ends within the ten-record table. |
| Layout.HoldsEarlierStage | lawnscaper.py:144 | An image long enough for stage `s`'s record is long enough for every earlier stage's. |
| Layout.StagesDisjoint | lawnscaper.py:144 | The records of two different stages never share a byte. |
| TileCodec.TileOf | lawnscaper.py:256 | Tile `t` of a byte is the byte shifted right by `6 - 2t` bits, masked to two bits. |
| TileCodec.ShiftDivisorIsPow2 | lawnscaper.py:256 | The divisor used for tile `t` is 2 to the power `6 - 2t`, the decoder's shift width. |
| TileCodec.PackQuad | lawnscaper.py:151-155 | The byte four tiles pack into unpacks to exactly those four tiles. |
| TileCodec.PackBitsQuad | lawnscaper.py:151-155 | The loop accumulator after four tiles, each shifted in by two bits and or-ed in, is the packed byte. |
| TileCodec.PackUnpackByte | lawnscaper.py:253-256 | Packing the four tiles a byte decodes to gives that byte back. |
| TileCodec.UnpackTiles | lawnscaper.py:250-258 | Unpacking n bytes yields 4n tiles. |
| TileCodec.UnpackTilesAt | lawnscaper.py:252-256 | Tile `4i + t` of the unpacked run is `(byte_i >> (6 - 2t)) & 3`. |
| TileCodec.PackTiles | lawnscaper.py:149-169 | Packing 4n tiles yields n bytes. |
| TileCodec.PackTilesAt | lawnscaper.py:149-168 | Packed byte `i` is the packing of tiles `4i` to `4i + 3`. |
| TileCodec.UnpackPackTiles | lawnscaper.py:149-169 | Round trip from tiles: unpacking packed tiles returns the same tiles. |
| TileCodec.PackUnpackTiles | lawnscaper.py:250-258 | Round trip from bytes: packing unpacked bytes returns the same bytes. |
| GrassMetrics.Counted | lawnscaper.py:159-161 | The border column 0 never counts, nothing counts at width 0 or below, and at full width every other column counts. |
| GrassMetrics.GrassCount | lawnscaper.py:147-164 | The count is at most one per tile, and 0 on a grid without tall grass. |
| GrassMetrics.TallGrassBelowBound | lawnscaper.py:147-164 | Scanning `n` tiles finds at most `n` counted tall-grass tiles, and none when they hold no tall grass. |
| GrassMetrics.TallGrassStep | lawnscaper.py:159-164 | Each loop step adds one to the count exactly when the tile is tall grass in a column 1..width. |
| GrassMetrics.GrassGoal | lawnscaper.py:184-187 | The stored goal never exceeds the count, and equals it whenever it is below 255. |
| GrassMetrics.GoalSaturates | lawnscaper.py:184-185 | More than 255 counted tall-grass tiles store a goal of exactly 255. |
| GrassMetrics.UncountedTileIgnored | lawnscaper.py:157-161 | Writing any value to a tile in column 0 or past the width leaves the count unchanged. |
| GrassMetrics.PlantingCountedGrass | lawnscaper.py:159-164 | Planting tall grass on a counted tile that had none raises the count by exactly one. |
| GrassMetrics.PercentBase | lawnscaper.py:192-195 | The loop's start value is the quotient of 25500 by the goal, bracketed by `goal*v <= 25500 < goal*(v+1)`. It is 0 when there is no grass. |
| GrassMetrics.SplitPercent | lawnscaper.py:196-199 | The pair the loop leaves recombines to its start value as `hi*256 + lo`. `lo` is in 1..256 for a positive start, and a start of at most 256 is left as is. |
| GrassMetrics.PercentLoop | lawnscaper.py:196-199 | The `while lo > 256` loop stops, keeps `hi*256 + lo` equal to its start, leaves `lo <= 256`, and agrees with the closed form. |
| GrassMetrics.PercentFitsInBytes | lawnscaper.py:184-199 | With the goal clamped to 1..255, the loop never ends at `lo == 256`. So lo <= 255 and hi <= 99, and both fit the bytes they are stored in. |
| GrassMetrics.PercentFor | lawnscaper.py:191-202 | The stored pair: both halves are bytes, `hi*256 + lo` is the start value, and no grass gives (0, 0). |
| GrassMetrics.SingleTileCredit | lawnscaper.py:192-199 | A goal of 1 stores lo 156, hi 99, because 25500 = 99 * 256 + 156. |
| StageCodec.DecodeStage | lawnscaper.py:235-258 | A decoded stage has 352 tiles. Tile `4i + t` is bits `6-2t` and `7-2t` of tile byte `i`. Width and spawn are bytes 88, 89 and 90 of the record. |
| StageCodec.DecodedTile | lawnscaper.py:252-256 | Grid index `k` decodes from bits `6 - 2(k%4)` of record byte `k/4`. |
| StageCodec.MetadataBytes | lawnscaper.py:171-202 | Seven metadata bytes: the goal is the clamped count, and the percent pair recombines to the loop's start value for that goal. |
| StageCodec.EncodeStage | lawnscaper.py:138-202 | Writing a stage keeps the image's length and changes no byte outside the stage's record, nor the byte at base + 92. |
| StageCodec.EncodeParts | lawnscaper.py:144-202 | An encoded image is: the bytes before the stage, the packed tiles, the metadata bytes, the bytes after the stage. |
| StageCodec.EncodedTileBytes | lawnscaper.py:149-169 | Each written tile byte unpacks to the four grid tiles it came from. |
| StageCodec.EncodedMetadata | lawnscaper.py:173-202 | The written width and spawn are the lawn's, the goal is the clamped count, the byte at base + 92 is kept, and `hi*256 + lo` is the start value for the goal. |
| StageCodec.PackStep | lawnscaper.py:151-165 | One outer step packs its four tiles into exactly their packed byte, and adds exactly the counted tall grass among them to the count. |
| StageCodec.WriteTileBytes | lawnscaper.py:144-169 | The nested packing loop writes exactly the packed tiles at the stage's first 88 bytes, touches nothing else, and counts exactly the counted tall grass. |
| StageCodec.WriteMetadata | lawnscaper.py:171-202 | The metadata writes, clamp and percent loop produce exactly the seven metadata bytes, and touch nothing outside them. |
| StageCodec.UpdateLawnRom | lawnscaper.py:138-202 | The whole encoder as written computes the pure encoding. |
| StageCodec.DecodeEncode | lawnscaper.py:235-258 | Decoding a freshly written stage gives back the lawn that was written. |
| StageCodec.EncodeDecode | lawnscaper.py:149-177 | Re-writing a freshly decoded stage reproduces every byte of the image except the goal and the two percent bytes. |
| StageCodec.ReencodedMetadata | lawnscaper.py:173-177 | Re-writing a decoded stage keeps its width, spawn and base + 92 bytes. |
| StageCodec.EncodeIdempotent | lawnscaper.py:138-202 | Writing the same lawn twice leaves the same image as writing it once. |
| StageCodec.EncodeOtherStage | lawnscaper.py:144 | Writing stage `s` leaves every byte of any other stage `t`, and so `t`'s decoding, unchanged. |
| Editor.Commit | lawnscaper.py:273-274 | Ending an edit with `update_current_lawn_rom` re-writes only the edited stage into the same image (the image is the stage encoding of the old one), and leaves it in sync with the edited lawn on the same stage. |
| Editor.SyncedDecodes | lawnscaper.py:264-274 | After any edit the image decodes back to the lawn being edited. |
| Editor.LoadStage | lawnscaper.py:231-274 | Loading stage `n` decodes it and writes it back into the same image, so only stage `n`'s record can change, and leaves the editor in sync. |
| Editor.LoadLawn | lawnscaper.py:225-240 | An index outside 0..9 changes nothing. Any other index makes it the current stage, holding its decoding, and the new image is the old one with that stage re-written. |
| Editor.LoadLawnFrame | lawnscaper.py:225-274 | Loading a stage changes no byte of the image except that stage's goal and percent bytes. |
| Editor.NextLawn | lawnscaper.py:59-60 | Page down loads the next stage: it becomes current, holding that stage's decoding, and the image is the old one with that stage re-written. On stage 10 it does nothing. |
| Editor.PrevLawn | lawnscaper.py:62-63 | Page up loads the previous stage: it becomes current, holding that stage's decoding, and the image is the old one with that stage re-written. On stage 1 it does nothing. |
| Editor.TileDataOffset | lawnscaper.py:302-304 | Playable cell (x, y) with x below 31 is row y, column x + 1 of the grid. |
| Editor.SetTile | lawnscaper.py:292-300 | An offset past the grid changes nothing. Otherwise exactly that tile becomes the brush, width and spawn are unchanged, and the image holds the new lawn. |
| Editor.GetTile | lawnscaper.py:286-290 | In a synced editor a cell reads the same as its two bits in the stage's tile bytes of the image. |
| Editor.SetThenGet | lawnscaper.py:286-300 | Reading back a cell just painted gives the brush. |
| Editor.ClickCountedIff | lawnscaper.py:157-161 | Cell (x, y) with x below 31 counts toward the goal if and only if x is below the width. |
| Editor.SetUncountedTileKeepsGoal | lawnscaper.py:292-299 | Painting a cell in column 0 or past the width leaves the goal unchanged. |
| Editor.SetSpawnPoint | lawnscaper.py:101-113 | A cell inside the width and the 11 rows becomes the spawn, stored as (x + 1, y + 3), and the image is re-written. Any other cell changes nothing. |
| Editor.ChangeLawnWidth | lawnscaper.py:213-223 | The new width is the old one plus the delta, clamped to 14..30 in each direction. Tiles and spawn are kept and the image is re-written. |
| Editor.ApplyWidthChanges | lawnscaper.py:213-223 | After one or more width changes, whatever the deltas and the width first read, the width is in 14..30 and the image is in sync. |
| Editor.BlankStageDecodes | lawnscaper.py:235-256 | A record of zero bytes decodes to an all-mowed grid of width 0. |
| Editor.BlankStagePaintScenario | lawnscaper.py:157-202 | On a zero record, painting tall grass at (0, 0) stores goal 0 and pair (0, 0), because width 0 excludes column 1. |
| Editor.LoneTallGrass | lawnscaper.py:159-164 | A grid whose only tall grass is one counted tile has a count of 1. |
| Editor.LoneTallGrassStored | lawnscaper.py:184-202 | A lawn with a count of 1 is stored with goal 1, lo 156, hi 99. |
| Editor.BlankStageWidenScenario | lawnscaper.py:213-223 | After that paint, raising the width to 14 stores goal 1, lo 156, hi 99. |

## Left out

- The Tk interface is not modelled. That covers window setup, key and mouse bindings, click-to-cell conversion, drag painting, `render_all_tiles`, `init_frame`, window geometry and `update_title`. The brush, chosen by `set_tile_brush`, is a parameter.
- File input and output are not modelled: `load_rom`, `save_as` and `main`. The 24592-byte size check in `load_rom` only prints a message, so the model does not require it.
- `print_current_lawn` and the diagnostic prints in `load_lawn` are not modelled, because they only write to the console.
- The editor's `grass_count` field is not modelled; it only feeds the window title.
- GrassMetrics.PercentBase: models `int(100 / goal * 255)`, a floating-point expression, as the integer quotient 25500 / goal. Floating point is not modelled, so this is an approximation of the source's value.
- Layout.HoldsStage: reading or writing a stage whose record runs past the end of the image makes the source fail with an index error. The model requires the record to fit instead of modelling that failure, so `LoadLawn`, `NextLawn` and `LoadStage` require the stage they load to fit.
- Editor.LoadStage (and Editor.LoadLawn, Editor.NextLawn and Editor.PrevLawn, which load through it): re-writes the stage for any width byte. In the source, a width byte above 30 makes rendering fail, before the stage is re-written. Rendering is not modelled.
- Editor.SetSpawnPoint: renders before re-writing in the source, so the same rendering failure applies there. Rendering is not modelled.
- Editor.SetTile: takes the cell as natural numbers, so it covers only cells on or below and right of the grid's origin. Drag painting (`mouse_motion`, lawnscaper.py:118-122) calls `set_tile` on every motion while the button is held, and the mouse can then leave the canvas. A drag at least one tile above or left of it gives a negative cell. When the offset `(x + 1) + 32y` is then negative, it passes the one-sided guard at lawnscaper.py:296, and Python's from-the-end indexing paints a cell counted from the end of the grid, which is written back to the image. For example, `y = -1` paints row 10, column `x + 1`. Negative cells and that from-the-end painting are not modelled.
- Editor.GetTile: requires the offset to be on the grid. The source raises an index error past it.
- The tile-pattern graphics decoding is not part of this model, because the editor's code does not do it.

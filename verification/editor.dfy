/** The editor's state and the edits that feed the encoder. Every edit that
    takes effect ends by re-encoding the current lawn into the image, so the
    image always holds what is being edited. */
module Editor {
  import opened Layout
  import opened TileCodec
  import opened GrassMetrics
  import opened StageCodec

  /** The editor once a stage is loaded: the image, the index of the current
      stage, and that stage's lawn (grid, width, spawn). */
  datatype Editor = Editor(rom: seq<byte>, stage: StageIndex, lawn: Lawn)

  predicate Valid(e: Editor)
  {
    HoldsStage(e.rom, e.stage) && WellFormed(e.lawn)
  }

  /** The image already holds the current lawn as the current stage. */
  predicate Synced(e: Editor)
    requires Valid(e)
  {
    EncodeStage(e.rom, e.stage, e.lawn) == e.rom
  }

  /** Make `lawn` the current lawn of stage `stage` and write it into the image. */
  function Commit(rom: seq<byte>, stage: StageIndex, lawn: Lawn): (e: Editor)
    requires HoldsStage(rom, stage) && WellFormed(lawn)
    ensures Valid(e) && Synced(e)
    ensures e.stage == stage && e.lawn == lawn
    ensures e.rom == EncodeStage(rom, stage, lawn)
  {
    EncodeIdempotent(rom, stage, lawn);
    Editor(EncodeStage(rom, stage, lawn), stage, lawn)
  }

  /** A synced editor reads its own lawn back from the image. */
  lemma SyncedDecodes(e: Editor)
    requires Valid(e) && Synced(e)
    ensures DecodeStage(e.rom, e.stage) == e.lawn
  {
    DecodeEncode(e.rom, e.stage, e.lawn);
  }

  /** Loading stage `n` (the body of `load_lawn` past its guard): decode the
      stage, then re-encode it as every load does. */
  function LoadStage(rom: seq<byte>, n: StageIndex): (e: Editor)
    requires HoldsStage(rom, n)
    ensures Valid(e) && Synced(e)
    ensures e.stage == n
    ensures e.lawn == DecodeStage(rom, n)
    ensures e.rom == EncodeStage(rom, n, e.lawn)
  {
    Commit(rom, n, DecodeStage(rom, n))
  }

  /** `load_lawn(n)`: an index outside 0..9 changes nothing; any other index
      must name a stage the image holds, since reading it would otherwise
      fail. */
  function LoadLawn(e: Editor, n: int): (r: Editor)
    requires Valid(e)
    requires 0 <= n <= 9 ==> HoldsStage(e.rom, n)
    ensures Valid(r)
    ensures n < 0 || n > 9 ==> r == e
    ensures 0 <= n <= 9 ==> r.stage == n && r.lawn == DecodeStage(e.rom, n) && Synced(r)
    ensures 0 <= n <= 9 ==> r.rom == EncodeStage(e.rom, n, r.lawn)
  {
    if n < 0 || n > 9 then e else LoadStage(e.rom, n)
  }

  /** Loading a stage leaves every other stage's record as it was, and in its
      own record changes at most the derived goal and percent bytes. */
  lemma LoadLawnFrame(e: Editor, n: StageIndex)
    requires Valid(e) && HoldsStage(e.rom, n)
    ensures forall k :: 0 <= k < |e.rom| && !Derived(n, k) ==> LoadLawn(e, n).rom[k] == e.rom[k]
  {
    EncodeDecode(e.rom, n);
  }

  /** `load_next_lawn`: load the stage after the current one, if any (on
      stage 9, `load_lawn(10)` is the guard's no-op). */
  function NextLawn(e: Editor): (r: Editor)
    requires Valid(e)
    requires e.stage < 9 ==> HoldsStage(e.rom, e.stage + 1)
    ensures Valid(r)
    ensures e.stage < 9 ==> r.stage == e.stage + 1 && r.lawn == DecodeStage(e.rom, e.stage + 1) && Synced(r)
    ensures e.stage < 9 ==> r.rom == EncodeStage(e.rom, e.stage + 1, r.lawn)
    ensures e.stage == 9 ==> r == e
  {
    if e.stage < 9 then LoadStage(e.rom, e.stage + 1) else e
  }

  /** `load_prev_lawn`: load the stage before the current one, if any (on
      stage 0, `load_lawn(-1)` is the guard's no-op). Every earlier stage lies
      inside an image that holds the current one. */
  function PrevLawn(e: Editor): (r: Editor)
    requires Valid(e)
    ensures Valid(r)
    ensures |r.rom| == |e.rom|
    ensures e.stage > 0 ==> r.stage == e.stage - 1 && r.lawn == DecodeStage(e.rom, r.stage) && Synced(r)
    ensures e.stage > 0 ==> r.rom == EncodeStage(e.rom, r.stage, r.lawn)
    ensures e.stage == 0 ==> r == e
  {
    if e.stage > 0 then
      HoldsEarlierStage(e.rom, e.stage, e.stage - 1);
      LoadStage(e.rom, e.stage - 1)
    else
      e
  }

  /** `get_tile_data_offset`: playable cell (x, y) is grid index
      `(x + 1) + 32 * y`, one column right of the hidden border. Within a row
      it is column x + 1 of row y; past column 30 it runs into the next row. */
  function TileDataOffset(x: nat, y: nat): (k: nat)
    ensures x + 1 < RowLength ==> k / RowLength == y && k % RowLength == x + 1
  {
    (x + 1) + RowLength * y
  }

  /** `get_tile`: the tile at playable cell (x, y); the source indexes the grid
      directly, so the cell must be on it. In a synced editor it is the two
      bits `6 - 2 * (k % 4)` of byte `base + k / 4` of the image, for grid
      index `k`. Both branches read the same grid cell; the synced branch only
      brings in the lemmas that relate that cell to the image. */
  function GetTile(e: Editor, x: nat, y: nat): (b: Tile)
    requires Valid(e) && TileDataOffset(x, y) < GridSize
    ensures var k := TileDataOffset(x, y);
            Synced(e) ==> b == TileOf(e.rom[StageBase(e.stage) + k / 4], k % 4)
  {
    var k := TileDataOffset(x, y);
    if Synced(e) then
      SyncedDecodes(e);
      DecodedTile(e.rom, e.stage, k);
      e.lawn.tiles[k]
    else
      e.lawn.tiles[k]
  }

  /** `set_tile`: an offset on the grid gets the brush and the lawn is written
      back; an offset past the grid (a click outside the lawn) changes nothing. */
  function SetTile(e: Editor, x: nat, y: nat, brush: Tile): (r: Editor)
    requires Valid(e)
    ensures Valid(r)
    ensures Synced(e) ==> Synced(r)
    ensures TileDataOffset(x, y) >= GridSize ==> r == e
    ensures TileDataOffset(x, y) < GridSize ==>
              && Synced(r)
              && r.stage == e.stage
              && r.lawn.width == e.lawn.width
              && r.lawn.spawnX == e.lawn.spawnX && r.lawn.spawnY == e.lawn.spawnY
              && r.lawn.tiles[TileDataOffset(x, y)] == brush
              && (forall j :: 0 <= j < GridSize && j != TileDataOffset(x, y) ==> r.lawn.tiles[j] == e.lawn.tiles[j])
              && r.rom == EncodeStage(e.rom, e.stage, r.lawn)
  {
    var offset := TileDataOffset(x, y);
    if offset < |e.lawn.tiles| then
      Commit(e.rom, e.stage, e.lawn.(tiles := e.lawn.tiles[offset := brush]))
    else
      e
  }

  /** Reading back a cell just painted gives the brush. */
  lemma SetThenGet(e: Editor, x: nat, y: nat, brush: Tile)
    requires Valid(e) && TileDataOffset(x, y) < GridSize
    ensures GetTile(SetTile(e, x, y, brush), x, y) == brush
  {
  }

  /** A playable cell (x, y) with x below 31 lies in a counted column exactly
      when x is below the width. */
  lemma ClickCountedIff(x: nat, y: nat, width: int)
    requires x + 1 < RowLength
    ensures Counted(TileDataOffset(x, y), width) <==> x < width
  {
  }

  /** Painting a cell outside the counted columns never changes the stored grass goal. */
  lemma SetUncountedTileKeepsGoal(e: Editor, x: nat, y: nat, brush: Tile)
    requires Valid(e) && TileDataOffset(x, y) < GridSize
    requires !Counted(TileDataOffset(x, y), e.lawn.width)
    ensures GrassGoal(SetTile(e, x, y, brush).lawn.tiles, e.lawn.width) == GrassGoal(e.lawn.tiles, e.lawn.width)
  {
    var offset := TileDataOffset(x, y);
    assert SetTile(e, x, y, brush).lawn.tiles == e.lawn.tiles[offset := brush];
    UncountedTileIgnored(e.lawn.tiles, e.lawn.width, offset, brush);
  }

  /** `set_spawn_point`: a cell inside the width and the map height becomes the
      spawn, stored with the border offsets (+1 column, +3 rows), and the lawn is
      written back; any other cell changes nothing. */
  function SetSpawnPoint(e: Editor, x: nat, y: nat): (r: Editor)
    requires Valid(e)
    ensures Valid(r)
    ensures Synced(e) ==> Synced(r)
    ensures x < e.lawn.width && y < MapHeight ==>
              && Synced(r)
              && r.stage == e.stage
              && r.lawn.tiles == e.lawn.tiles && r.lawn.width == e.lawn.width
              && r.lawn.spawnX == x + SpawnXOffset && r.lawn.spawnY == y + SpawnYOffset
              && r.rom == EncodeStage(e.rom, e.stage, r.lawn)
    ensures !(x < e.lawn.width && y < MapHeight) ==> r == e
  {
    if x < e.lawn.width && y < MapHeight then
      Commit(e.rom, e.stage, e.lawn.(spawnX := x + SpawnXOffset, spawnY := y + SpawnYOffset))
    else
      e
  }

  /** `change_lawn_width`: add `delta`, pull the result back into 14..30, and
      write the lawn back (the resize re-encodes). */
  function ChangeLawnWidth(e: Editor, delta: int): (r: Editor)
    requires Valid(e)
    ensures Valid(r) && Synced(r)
    ensures MinWidth <= r.lawn.width <= MaxWidth
    ensures MinWidth <= e.lawn.width + delta <= MaxWidth ==> r.lawn.width == e.lawn.width + delta
    ensures e.lawn.width + delta < MinWidth ==> r.lawn.width == MinWidth
    ensures e.lawn.width + delta > MaxWidth ==> r.lawn.width == MaxWidth
    ensures r.stage == e.stage
    ensures r.lawn.tiles == e.lawn.tiles && r.lawn.spawnX == e.lawn.spawnX && r.lawn.spawnY == e.lawn.spawnY
    ensures r.rom == EncodeStage(e.rom, e.stage, r.lawn)
  {
    var wanted := e.lawn.width + delta;
    var width := if wanted < MinWidth then MinWidth else if wanted > MaxWidth then MaxWidth else wanted;
    Commit(e.rom, e.stage, e.lawn.(width := width))
  }

  /** The editor after the width keys deliver `deltas` in order: after at least
      one change, whatever the deltas and the width first read from the image,
      the width is in 14..30 and the image is synced. */
  function ApplyWidthChanges(e: Editor, deltas: seq<int>): (r: Editor)
    requires Valid(e)
    ensures Valid(r)
    ensures |deltas| > 0 ==> MinWidth <= r.lawn.width <= MaxWidth && Synced(r)
    ensures r.stage == e.stage && r.lawn.tiles == e.lawn.tiles
    decreases |deltas|
  {
    if |deltas| == 0 then e else ApplyWidthChanges(ChangeLawnWidth(e, deltas[0]), deltas[1..])
  }

  /** Stage `s`'s whole record holds zero bytes (as in a blank image). */
  predicate BlankStage(rom: seq<byte>, s: StageIndex)
  {
    HoldsStage(rom, s) && forall k :: StageBase(s) <= k < StageBase(s) + StageDataSize ==> rom[k] == 0
  }

  /** Every tile of a blank stage decodes as mowed grass, and its width is 0. */
  lemma BlankStageDecodes(rom: seq<byte>, s: StageIndex)
    requires BlankStage(rom, s)
    ensures DecodeStage(rom, s).width == 0
    ensures forall k :: 0 <= k < GridSize ==> DecodeStage(rom, s).tiles[k] == 0
  {
    assert InStage(s, MetadataBase(s) + WidthField);
    forall k | 0 <= k < GridSize
      ensures DecodeStage(rom, s).tiles[k] == 0
    {
      DecodedTile(rom, s, k);
      assert InStage(s, StageBase(s) + k / 4);
    }
  }

  /** On a blank stage, painting tall grass at (0, 0) stores a goal of 0 and a
      percent pair (0, 0): the width read from the image is 0, so column 1
      lies past the width and is not counted. */
  lemma BlankStagePaintScenario(rom: seq<byte>, s: StageIndex)
    requires BlankStage(rom, s)
    ensures var e := SetTile(LoadStage(rom, s), 0, 0, 1);
            var meta := MetadataBase(s);
            && e.lawn.width == 0
            && e.lawn.tiles[1] == 1
            && e.rom[meta + GoalField] == 0
            && e.rom[meta + PercentLoField] == 0 && e.rom[meta + PercentHiField] == 0
  {
    var loaded := LoadStage(rom, s);
    var e := SetTile(loaded, 0, 0, 1);
    BlankStageDecodes(rom, s);
    assert TallGrass(e.lawn.tiles, 0) == {};
    EncodedMetadata(loaded.rom, s, e.lawn);
  }

  /** A grid whose only tall grass sits on one counted tile has a count of one. */
  lemma LoneTallGrass(tiles: seq<Tile>, width: int, i: nat)
    requires i < |tiles| && tiles[i] == 1 && Counted(i, width)
    requires forall j :: 0 <= j < |tiles| && j != i ==> tiles[j] != 1
    ensures GrassCount(tiles, width) == 1
  {
    assert TallGrass(tiles, width) == {i};
  }

  /** A lawn with one counted tall-grass tile stores goal 1 and the percent
      pair of a 25500 credit: lo 156, hi 99. */
  lemma LoneTallGrassStored(rom: seq<byte>, s: StageIndex, lawn: Lawn)
    requires HoldsStage(rom, s) && WellFormed(lawn)
    requires GrassCount(lawn.tiles, lawn.width) == 1
    ensures var r := EncodeStage(rom, s, lawn);
            var meta := MetadataBase(s);
            r[meta + GoalField] == 1 && r[meta + PercentLoField] == 156 && r[meta + PercentHiField] == 99
  {
    EncodedMetadata(rom, s, lawn);
    assert PercentBase(1) == 25500;
  }

  /** Widening that lawn by one (to the minimum 14) makes column 1 counted:
      goal 1, and the credit 25500 = 99 * 256 + 156 gives lo 156, hi 99. */
  lemma BlankStageWidenScenario(rom: seq<byte>, s: StageIndex)
    requires BlankStage(rom, s)
    ensures var e := ChangeLawnWidth(SetTile(LoadStage(rom, s), 0, 0, 1), 1);
            var meta := MetadataBase(s);
            && e.lawn.width == MinWidth
            && e.rom[meta + GoalField] == 1
            && e.rom[meta + PercentLoField] == 156 && e.rom[meta + PercentHiField] == 99
  {
    var loaded := LoadStage(rom, s);
    var painted := SetTile(loaded, 0, 0, 1);
    var e := ChangeLawnWidth(painted, 1);
    BlankStageDecodes(rom, s);
    assert forall j :: 0 <= j < GridSize && j != 1 ==> e.lawn.tiles[j] == 0;
    LoneTallGrass(e.lawn.tiles, MinWidth, 1);
    LoneTallGrassStored(painted.rom, s, e.lawn);
  }
}

/** Fixed layout of the lawn-mower cartridge image: where the ten stages live,
    how big each one is, and the value ranges of the fields stored in it. */
module Layout {

  /** One byte of the image (Python `bytearray` elements are 0..255). */
  type byte = x: int | 0 <= x < 256

  /** One grid cell: 0 mowed, 1 tall grass, 2 flower, 3 rock. */
  type Tile = x: int | 0 <= x < 4

  /** Index of one of the ten stages. */
  type StageIndex = x: int | 0 <= x < StageCount

  /** First byte of stage 0. */
  const StageRomOffset: nat := 0x5010

  /** Packed tile bytes per stage. */
  const TileDataSize: nat := 0x58

  /** Tile bytes plus seven metadata bytes. */
  const StageDataSize: nat := TileDataSize + 7

  const StageCount: nat := 10

  /** Cells per row of the grid, border column included. */
  const RowLength: nat := 32

  /** Rows of the grid; also the editor's map height. */
  const MapHeight: nat := 11

  /** Cells per stage grid: four tiles per tile byte, which is also 32 * 11. */
  const GridSize: nat := 4 * TileDataSize

  /** The game counts the border as tiles: spawn coordinates are stored with these offsets. */
  const SpawnXOffset: nat := 1
  const SpawnYOffset: nat := 3

  /** Bounds the width editor keeps the playable width in. */
  const MinWidth: nat := 14
  const MaxWidth: nat := 30

  /** Offsets of the metadata bytes, relative to the first metadata byte. */
  const WidthField: nat := 0
  const SpawnXField: nat := 1
  const SpawnYField: nat := 2
  const GoalField: nat := 3
  const ReservedField: nat := 4
  const PercentLoField: nat := 5
  const PercentHiField: nat := 6

  /** First byte of stage `s`. */
  function StageBase(s: StageIndex): (base: nat)
    ensures StageRomOffset <= base
    ensures (base - StageRomOffset) % StageDataSize == 0
    ensures (base - StageRomOffset) / StageDataSize == s
    ensures base + StageDataSize <= StageRomOffset + StageCount * StageDataSize
  {
    StageRomOffset + StageDataSize * s
  }

  /** First metadata byte of stage `s` (just past its tile bytes). */
  function MetadataBase(s: StageIndex): nat
  {
    StageBase(s) + TileDataSize
  }

  /** An image long enough to hold stage `s`'s whole record: every byte the
      editor reads or writes for that stage exists. */
  predicate HoldsStage(rom: seq<byte>, s: StageIndex)
  {
    |rom| >= StageBase(s) + StageDataSize
  }

  /** An image that holds a stage holds every earlier one too. */
  lemma HoldsEarlierStage(rom: seq<byte>, s: StageIndex, t: StageIndex)
    requires HoldsStage(rom, s) && t <= s
    ensures HoldsStage(rom, t)
  {
    assert StageBase(t) <= StageBase(s);
  }

  /** Absolute offset `k` lies inside stage `s`'s 95-byte record. */
  predicate InStage(s: StageIndex, k: int)
  {
    StageBase(s) <= k < StageBase(s) + StageDataSize
  }

  /** The records of two different stages never overlap. */
  lemma StagesDisjoint(s: StageIndex, t: StageIndex, k: int)
    requires s != t
    requires InStage(s, k)
    ensures !InStage(t, k)
  {
    if s < t {
      assert StageBase(s) + StageDataSize <= StageBase(t);
    } else {
      assert StageBase(t) + StageDataSize <= StageBase(s);
    }
  }
}

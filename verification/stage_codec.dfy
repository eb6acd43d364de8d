/** One stage's 95-byte record in the image: 88 bytes of packed tiles, then
    width, spawn x, spawn y, grass goal, a byte the editor never writes, and
    the percent pair (lo, hi). */
module StageCodec {
  import opened Layout
  import opened TileCodec
  import opened GrassMetrics

  /** The editable state of one stage: its grid, playable width and spawn cell
      (spawn stored with the border offsets already added). */
  datatype Lawn = Lawn(tiles: seq<Tile>, width: byte, spawnX: byte, spawnY: byte)

  /** A full 11 x 32 grid. */
  predicate WellFormed(lawn: Lawn)
  {
    |lawn.tiles| == GridSize
  }

  /** Offset `k` is one of the bytes encoding stage `s` writes: its whole
      record except the reserved byte at base + 92. */
  predicate Written(s: StageIndex, k: int)
  {
    InStage(s, k) && k != MetadataBase(s) + ReservedField
  }

  /** Offset `k` holds one of the derived fields of stage `s` (goal, percent lo, percent hi). */
  predicate Derived(s: StageIndex, k: int)
  {
    var meta := MetadataBase(s);
    k == meta + GoalField || k == meta + PercentLoField || k == meta + PercentHiField
  }

  /** Reading stage `s` out of the image (`load_lawn`): 352 tiles, tile
      `4 * i + t` being tile `t` of byte `base + i` (bits `6 - 2 * t` and
      `7 - 2 * t`), then the width and spawn bytes. The goal and percent bytes
      are not read. */
  function DecodeStage(rom: seq<byte>, s: StageIndex): (lawn: Lawn)
    requires HoldsStage(rom, s)
    ensures WellFormed(lawn)
    ensures var bytes := rom[StageBase(s) .. MetadataBase(s)];
            forall i, t :: 0 <= i < TileDataSize && 0 <= t < 4 ==> lawn.tiles[4 * i + t] == TileOf(bytes[i], t)
    ensures lawn.width == rom[MetadataBase(s) + WidthField]
    ensures lawn.spawnX == rom[MetadataBase(s) + SpawnXField]
    ensures lawn.spawnY == rom[MetadataBase(s) + SpawnYField]
  {
    var base := StageBase(s);
    var meta := MetadataBase(s);
    UnpackTilesAll(rom[base .. meta]);
    Lawn(UnpackTiles(rom[base .. meta]), rom[meta + WidthField], rom[meta + SpawnXField], rom[meta + SpawnYField])
  }

  /** Tile `k` of a decoded stage is `(rom[base + k / 4] >> (6 - 2 * (k % 4))) & 3`. */
  lemma DecodedTile(rom: seq<byte>, s: StageIndex, k: nat)
    requires HoldsStage(rom, s) && k < GridSize
    ensures DecodeStage(rom, s).tiles[k] == TileOf(rom[StageBase(s) + k / 4], k % 4)
  {
    var bytes := rom[StageBase(s) .. MetadataBase(s)];
    var i, t := k / 4, k % 4;
    assert k == 4 * i + t;
    assert bytes[i] == rom[StageBase(s) + i];
  }

  /** The seven metadata bytes written after the tiles; `reserved` is the
      value already in the image at base + 92, which is kept. */
  function MetadataBytes(lawn: Lawn, reserved: byte): (meta: seq<byte>)
    requires WellFormed(lawn)
    ensures |meta| == StageDataSize - TileDataSize
    ensures meta[GoalField] == GrassGoal(lawn.tiles, lawn.width)
    ensures (meta[PercentHiField] as int) * 256 + meta[PercentLoField] as int == PercentBase(meta[GoalField])
  {
    var goal := GrassGoal(lawn.tiles, lawn.width);
    var percent := PercentFor(goal);
    [lawn.width, lawn.spawnX, lawn.spawnY, goal, reserved, percent.lo, percent.hi]
  }

  /** Writing `lawn` back as stage `s` (`update_current_lawn_rom`). Only the
      stage's record changes, and within it the reserved byte is kept; every
      tile byte unpacks to its four tiles; the goal is the clamped count of
      counted tall grass and the percent pair recombines to its start value. */
  function EncodeStage(rom: seq<byte>, s: StageIndex, lawn: Lawn): (r: seq<byte>)
    requires HoldsStage(rom, s) && WellFormed(lawn)
    ensures |r| == |rom|
    ensures forall k :: 0 <= k < |rom| && !Written(s, k) ==> r[k] == rom[k]
  {
    var base := StageBase(s);
    var meta := MetadataBase(s);
    rom[..base] + PackTiles(lawn.tiles) + MetadataBytes(lawn, rom[meta + ReservedField]) + rom[base + StageDataSize..]
  }

  /** The four pieces of a concatenation, sliced back out. */
  lemma SliceConcat4<T>(a: seq<T>, b: seq<T>, c: seq<T>, d: seq<T>)
    ensures var r := a + b + c + d;
            && r[..|a|] == a
            && r[|a| .. |a| + |b|] == b
            && r[|a| + |b| .. |a| + |b| + |c|] == c
            && r[|a| + |b| + |c| ..] == d
  {
    var r := a + b + c + d;
    assert r == a + (b + (c + d));
    assert r[|a|..] == b + (c + d);
    assert r[|a| + |b| ..] == c + d;
  }

  /** The four pieces of an encoded image: the bytes before the stage, its
      packed tiles, its metadata bytes and the bytes after it. */
  lemma EncodeParts(rom: seq<byte>, s: StageIndex, lawn: Lawn)
    requires HoldsStage(rom, s) && WellFormed(lawn)
    ensures var r := EncodeStage(rom, s, lawn);
            var base := StageBase(s);
            && r[..base] == rom[..base]
            && r[base .. base + TileDataSize] == PackTiles(lawn.tiles)
            && r[base + TileDataSize .. base + StageDataSize] == MetadataBytes(lawn, rom[base + TileDataSize + ReservedField])
            && r[base + StageDataSize ..] == rom[base + StageDataSize ..]
  {
    var base := StageBase(s);
    var meta := MetadataBase(s);
    var head := rom[..base];
    var packed := PackTiles(lawn.tiles);
    var metaBytes := MetadataBytes(lawn, rom[meta + ReservedField]);
    var tail := rom[base + StageDataSize..];
    assert |head| == base && |packed| == TileDataSize && |metaBytes| == 7;
    SliceConcat4(head, packed, metaBytes, tail);
  }

  /** Tile byte `j` of an encoded record unpacks to tiles `4 * j` to `4 * j + 3`. */
  lemma EncodedTileBytes(rom: seq<byte>, s: StageIndex, lawn: Lawn)
    requires HoldsStage(rom, s) && WellFormed(lawn)
    ensures var r := EncodeStage(rom, s, lawn);
            var base := StageBase(s);
            forall j :: 0 <= j < TileDataSize ==> UnpackByte(r[base + j]) == lawn.tiles[4 * j .. 4 * j + 4]
  {
    var r := EncodeStage(rom, s, lawn);
    var base := StageBase(s);
    EncodeParts(rom, s, lawn);
    forall j | 0 <= j < TileDataSize
      ensures UnpackByte(r[base + j]) == lawn.tiles[4 * j .. 4 * j + 4]
    {
      PackTilesAt(lawn.tiles, j);
      assert r[base + j] == r[base .. base + TileDataSize][j];
    }
  }

  /** The metadata of an encoded record: width, spawn x, spawn y, the clamped
      goal, the untouched reserved byte, and a percent pair whose value
      `hi * 256 + lo` is the loop's start value for that goal. */
  lemma EncodedMetadata(rom: seq<byte>, s: StageIndex, lawn: Lawn)
    requires HoldsStage(rom, s) && WellFormed(lawn)
    ensures var r := EncodeStage(rom, s, lawn);
            var meta := MetadataBase(s);
            && r[meta + WidthField] == lawn.width
            && r[meta + SpawnXField] == lawn.spawnX
            && r[meta + SpawnYField] == lawn.spawnY
            && r[meta + GoalField] == GrassGoal(lawn.tiles, lawn.width)
            && r[meta + ReservedField] == rom[meta + ReservedField]
            && (r[meta + PercentHiField] as int) * 256 + r[meta + PercentLoField] as int == PercentBase(GrassGoal(lawn.tiles, lawn.width))
  {
    var r := EncodeStage(rom, s, lawn);
    var base := StageBase(s);
    var meta := MetadataBase(s);
    EncodeParts(rom, s, lawn);
    var metaBytes := r[meta .. base + StageDataSize];
    assert r[meta + GoalField] == metaBytes[GoalField];
    assert r[meta + PercentLoField] == metaBytes[PercentLoField];
    assert r[meta + PercentHiField] == metaBytes[PercentHiField];
    assert r[meta + WidthField] == metaBytes[WidthField];
    assert r[meta + SpawnXField] == metaBytes[SpawnXField];
    assert r[meta + SpawnYField] == metaBytes[SpawnYField];
    assert r[meta + ReservedField] == metaBytes[ReservedField];
  }

  /** One outer step of the encoder's packing loop: shift tiles `4 * i` to
      `4 * i + 3` into a byte (`acc = (acc << 2) | tile`) while counting those
      of them that are tall grass outside column 0 and not past the width. */
  method PackStep(tiles: seq<Tile>, width: int, i: nat, grassIn: nat) returns (dataByte: nat, grass: nat)
    requires 4 * i + 4 <= |tiles|
    requires grassIn == |TallGrassBelow(tiles, width, 4 * i)|
    ensures dataByte == PackQuad(tiles[4 * i .. 4 * i + 4])
    ensures grass == |TallGrassBelow(tiles, width, 4 * i + 4)|
  {
    dataByte := 0;
    grass := grassIn;
    var t := 0;
    while t < 4
      invariant 0 <= t <= 4
      invariant dataByte == PackBits(tiles[4 * i .. 4 * i + t])
      invariant grass == |TallGrassBelow(tiles, width, 4 * i + t)|
    {
      assert tiles[4 * i .. 4 * i + t + 1][..t] == tiles[4 * i .. 4 * i + t];
      dataByte := dataByte * 4 + tiles[4 * i + t];
      TallGrassStep(tiles, width, 4 * i + t);
      var xOffset := (4 * i + t) % RowLength;
      if !(xOffset == 0 || xOffset > width) && tiles[4 * i + t] == 1 {
        grass := grass + 1;
      }
      t := t + 1;
    }
    PackBitsQuad(tiles[4 * i .. 4 * i + 4]);
  }

  /** The first half of the encoder as written: 88 outer steps, each packing
      four tiles into a byte and storing it at the next tile offset, while
      counting the counted tall grass. */
  method WriteTileBytes(rom: seq<byte>, s: StageIndex, lawn: Lawn) returns (out: seq<byte>, grass: nat)
    requires HoldsStage(rom, s) && WellFormed(lawn)
    ensures |out| == |rom|
    ensures forall k :: 0 <= k < |rom| && !(StageBase(s) <= k < StageBase(s) + TileDataSize) ==> out[k] == rom[k]
    ensures out[StageBase(s) .. StageBase(s) + TileDataSize] == PackTiles(lawn.tiles)
    ensures grass == GrassCount(lawn.tiles, lawn.width)
  {
    var tiles := lawn.tiles;
    var base := StageBase(s);
    var tileOffset := base;
    grass := 0;
    out := rom;
    var i := 0;
    while i < TileDataSize
      invariant 0 <= i <= TileDataSize
      invariant tileOffset == base + i
      invariant |out| == |rom|
      invariant forall j :: 0 <= j < i ==> out[base + j] == PackTiles(tiles)[j]
      invariant forall k :: 0 <= k < |rom| && !(base <= k < base + i) ==> out[k] == rom[k]
      invariant grass == |TallGrassBelow(tiles, lawn.width, 4 * i)|
    {
      var dataByte;
      dataByte, grass := PackStep(tiles, lawn.width, i, grass);
      PackTilesAt(tiles, i);
      out := out[tileOffset := dataByte];
      tileOffset := tileOffset + 1;
      i := i + 1;
    }
    assert out[base .. base + TileDataSize] == PackTiles(tiles);
  }

  /** The second half of the encoder as written: width and spawn bytes, the
      count clamped to 255 as the goal, and the percent pair from
      `int(100 / goal * 255)` and the `lo > 256` subtraction loop. Nothing
      outside the first three and last three metadata bytes of the stage and the
      goal byte is written. */
  method WriteMetadata(rom: seq<byte>, s: StageIndex, lawn: Lawn, count: nat) returns (out: seq<byte>)
    requires HoldsStage(rom, s) && WellFormed(lawn)
    requires count == GrassCount(lawn.tiles, lawn.width)
    ensures |out| == |rom|
    ensures forall k :: 0 <= k < |rom| && !(MetadataBase(s) <= k < StageBase(s) + StageDataSize) ==> out[k] == rom[k]
    ensures out[MetadataBase(s) .. StageBase(s) + StageDataSize] == MetadataBytes(lawn, rom[MetadataBase(s) + ReservedField])
  {
    var meta := StageBase(s) + TileDataSize;
    out := rom;
    out := out[meta + WidthField := lawn.width];
    out := out[meta + SpawnXField := lawn.spawnX];
    out := out[meta + SpawnYField := lawn.spawnY];

    var grass := count;
    if grass > 255 {
      grass := 255;
    }
    out := out[meta + GoalField := grass];

    var start := if grass > 0 then 25500 / grass else 0;
    var lo, hi := PercentLoop(start);
    if grass > 0 {
      PercentFitsInBytes(grass);
    }
    assert grass == GrassGoal(lawn.tiles, lawn.width);
    assert Percent(lo, hi) == PercentFor(grass);
    out := out[meta + PercentLoField := lo];
    out := out[meta + PercentHiField := hi];
    assert out[meta .. meta + 7] == [lawn.width, lawn.spawnX, lawn.spawnY, grass, rom[meta + ReservedField], lo, hi];
  }

  /** The encoder as written (`update_current_lawn_rom`): it computes exactly
      `EncodeStage`. */
  method UpdateLawnRom(rom: seq<byte>, s: StageIndex, lawn: Lawn) returns (out: seq<byte>)
    requires HoldsStage(rom, s) && WellFormed(lawn)
    ensures out == EncodeStage(rom, s, lawn)
  {
    var packed, grass := WriteTileBytes(rom, s, lawn);
    out := WriteMetadata(packed, s, lawn, grass);
    var base := StageBase(s);
    var meta := MetadataBase(s);
    var end := base + StageDataSize;
    assert out[base .. meta] == packed[base .. meta];
    assert out[..base] == rom[..base];
    assert out[end..] == rom[end..];
    assert out == out[..base] + out[base .. meta] + out[meta .. end] + out[end..];
  }

  /** Decoding a freshly encoded stage gives the lawn back. */
  lemma DecodeEncode(rom: seq<byte>, s: StageIndex, lawn: Lawn)
    requires HoldsStage(rom, s) && WellFormed(lawn)
    ensures DecodeStage(EncodeStage(rom, s, lawn), s) == lawn
  {
    var r := EncodeStage(rom, s, lawn);
    var base := StageBase(s);
    var tileBytes := r[base .. base + TileDataSize];
    assert tileBytes == PackTiles(lawn.tiles);
    UnpackPackTiles(lawn.tiles);
  }

  /** Re-encoding a freshly decoded stage reproduces every byte of the image
      except the three derived ones (goal, percent lo, percent hi). */
  lemma EncodeDecode(rom: seq<byte>, s: StageIndex)
    requires HoldsStage(rom, s)
    ensures forall k :: 0 <= k < |rom| && !Derived(s, k) ==> EncodeStage(rom, s, DecodeStage(rom, s))[k] == rom[k]
  {
    ReencodedTileBytes(rom, s);
    ReencodedMetadata(rom, s);
  }

  /** Re-encoding a decoded stage writes back the very tile bytes it was read from. */
  lemma ReencodedTileBytes(rom: seq<byte>, s: StageIndex)
    requires HoldsStage(rom, s)
    ensures var base := StageBase(s);
            forall k :: base <= k < base + TileDataSize ==> EncodeStage(rom, s, DecodeStage(rom, s))[k] == rom[k]
  {
    var base := StageBase(s);
    var lawn := DecodeStage(rom, s);
    EncodeParts(rom, s, lawn);
    var tileBytes := rom[base .. base + TileDataSize];
    assert lawn.tiles == UnpackTiles(tileBytes);
    PackUnpackTiles(tileBytes);
    var r := EncodeStage(rom, s, lawn);
    forall k | base <= k < base + TileDataSize
      ensures r[k] == rom[k]
    {
      assert r[k] == r[base .. base + TileDataSize][k - base];
      assert rom[k] == tileBytes[k - base];
    }
  }

  /** Re-encoding a decoded stage keeps its width, spawn and reserved bytes. */
  lemma ReencodedMetadata(rom: seq<byte>, s: StageIndex)
    requires HoldsStage(rom, s)
    ensures var meta := MetadataBase(s);
            var r := EncodeStage(rom, s, DecodeStage(rom, s));
            && r[meta + WidthField] == rom[meta + WidthField]
            && r[meta + SpawnXField] == rom[meta + SpawnXField]
            && r[meta + SpawnYField] == rom[meta + SpawnYField]
            && r[meta + ReservedField] == rom[meta + ReservedField]
  {
    var lawn := DecodeStage(rom, s);
    EncodeParts(rom, s, lawn);
  }

  /** Encoding the same lawn twice leaves the same image as encoding it once. */
  lemma EncodeIdempotent(rom: seq<byte>, s: StageIndex, lawn: Lawn)
    requires HoldsStage(rom, s) && WellFormed(lawn)
    ensures EncodeStage(EncodeStage(rom, s, lawn), s, lawn) == EncodeStage(rom, s, lawn)
  {
    var once := EncodeStage(rom, s, lawn);
    var twice := EncodeStage(once, s, lawn);
    var base := StageBase(s);
    assert once[base .. base + StageDataSize] == twice[base .. base + StageDataSize];
    assert forall k :: 0 <= k < |once| ==> twice[k] == once[k];
  }

  /** Encoding one stage leaves every other stage's record, and so its decoding, as it was. */
  lemma EncodeOtherStage(rom: seq<byte>, s: StageIndex, t: StageIndex, lawn: Lawn)
    requires HoldsStage(rom, s) && HoldsStage(rom, t) && WellFormed(lawn)
    requires s != t
    ensures forall k :: InStage(t, k) ==> EncodeStage(rom, s, lawn)[k] == rom[k]
    ensures DecodeStage(EncodeStage(rom, s, lawn), t) == DecodeStage(rom, t)
  {
    var r := EncodeStage(rom, s, lawn);
    forall k | InStage(t, k)
      ensures r[k] == rom[k]
    {
      StagesDisjoint(t, s, k);
    }
    var base := StageBase(t);
    assert r[base .. base + TileDataSize] == rom[base .. base + TileDataSize];
  }
}

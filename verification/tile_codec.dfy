/** Sub-byte packing of the tile grid: four 2-bit tiles per byte, the first
    tile in the two most significant bits. */
module TileCodec {
  import opened Layout

  function Pow2(n: nat): (p: nat)
    ensures p >= 1
  {
    if n == 0 then 1 else 2 * Pow2(n - 1)
  }

  /** The divisor that shifting tile `t`'s two bits down to the bottom amounts
      to: `x >> (6 - 2 * t)` is `x / ShiftDivisor(t)` on naturals. */
  function ShiftDivisor(t: nat): nat
    requires t < 4
  {
    if t == 0 then 64 else if t == 1 then 16 else if t == 2 then 4 else 1
  }

  /** Each divisor is the power of two the decoder's shift by `6 - 2 * t` stands for. */
  lemma ShiftDivisorIsPow2(t: nat)
    requires t < 4
    ensures ShiftDivisor(t) == Pow2(6 - 2 * t)
  {
    assert Pow2(2) == 4;
    assert Pow2(4) == 16 by { assert Pow2(3) == 8; }
    assert Pow2(6) == 64 by { assert Pow2(5) == 32; }
  }

  /** Tile `t` (0..3) of byte `b`: `(b >> (6 - 2*t)) & 3`; `& 3` is `% 4` on naturals. */
  function TileOf(b: byte, t: nat): (r: Tile)
    requires t < 4
    ensures r == b / Pow2(6 - 2 * t) % 4
  {
    ShiftDivisorIsPow2(t);
    b / ShiftDivisor(t) % 4
  }

  /** The four tiles one byte holds, in grid order. */
  function UnpackByte(b: byte): seq<Tile>
  {
    [TileOf(b, 0), TileOf(b, 1), TileOf(b, 2), TileOf(b, 3)]
  }

  /** The accumulator of the packing loop after it has taken in `q`:
      each step is `acc = (acc << 2) | tile`, and as the low two bits of
      `acc << 2` are zero, or-ing in a tile below 4 adds it. */
  function PackBits(q: seq<Tile>): nat
  {
    if |q| == 0 then 0 else PackBits(q[..|q| - 1]) * 4 + q[|q| - 1]
  }

  /** The byte four consecutive tiles pack into; unpacking it gives them back. */
  function PackQuad(q: seq<Tile>): (b: byte)
    requires |q| == 4
    ensures UnpackByte(b) == q
  {
    var b := 64 * (q[0] as int) + 16 * (q[1] as int) + 4 * (q[2] as int) + q[3] as int;
    Base4Digits(q[0], q[1], q[2], q[3]);
    ShiftsOfByte(b);
    b
  }

  /** The four shifts the decoder applies, as divisions. */
  lemma ShiftsOfByte(b: byte)
    ensures TileOf(b, 0) == b / 64 % 4 && TileOf(b, 1) == b / 16 % 4
    ensures TileOf(b, 2) == b / 4 % 4 && TileOf(b, 3) == b % 4
  {
  }

  /** Four base-4 digits read back from the number they spell. */
  lemma Base4Digits(a: int, b: int, c: int, d: int)
    requires 0 <= a < 4 && 0 <= b < 4 && 0 <= c < 4 && 0 <= d < 4
    ensures 0 <= 64 * a + 16 * b + 4 * c + d < 256
    ensures (64 * a + 16 * b + 4 * c + d) / 64 % 4 == a
    ensures (64 * a + 16 * b + 4 * c + d) / 16 % 4 == b
    ensures (64 * a + 16 * b + 4 * c + d) / 4 % 4 == c
    ensures (64 * a + 16 * b + 4 * c + d) % 4 == d
  {
  }

  /** A byte is the number its four base-4 digits spell. */
  lemma Base4Split(x: int)
    requires 0 <= x < 256
    ensures x == 64 * (x / 64 % 4) + 16 * (x / 16 % 4) + 4 * (x / 4 % 4) + x % 4
  {
  }

  /** The packing loop's accumulator after four tiles is the packed byte. */
  lemma PackBitsQuad(q: seq<Tile>)
    requires |q| == 4
    ensures PackBits(q) == PackQuad(q)
  {
    assert q[..3][..2][..1][..0] == [];
    assert q[..3][..2][..1] == q[..1] && q[..3][..2] == q[..2];
    assert PackBits(q[..1]) == q[0];
    assert PackBits(q[..2]) == 4 * (q[0] as int) + q[1] as int;
    assert PackBits(q[..3]) == 16 * (q[0] as int) + 4 * (q[1] as int) + q[2] as int;
  }

  /** Packing the four tiles of a byte gives the byte back. */
  lemma PackUnpackByte(b: byte)
    ensures PackQuad(UnpackByte(b)) == b
  {
    ShiftsOfByte(b);
    Base4Split(b);
  }

  /** All tiles of a run of bytes, four per byte, in byte order (the decode loop). */
  function UnpackTiles(bytes: seq<byte>): (tiles: seq<Tile>)
    ensures |tiles| == 4 * |bytes|
  {
    if |bytes| == 0 then [] else UnpackByte(bytes[0]) + UnpackTiles(bytes[1..])
  }

  /** Tile `t` of byte `i` lands at position `4 * i + t` of the unpacked tiles. */
  lemma {:induction false} UnpackTilesAt(bytes: seq<byte>, i: nat, t: nat)
    requires i < |bytes| && t < 4
    ensures UnpackTiles(bytes)[4 * i + t] == TileOf(bytes[i], t)
    decreases i
  {
    if i > 0 {
      UnpackTilesAt(bytes[1..], i - 1, t);
    }
  }

  /** Every unpacked tile, stated at once. */
  lemma UnpackTilesAll(bytes: seq<byte>)
    ensures forall i, t :: 0 <= i < |bytes| && 0 <= t < 4 ==> UnpackTiles(bytes)[4 * i + t] == TileOf(bytes[i], t)
  {
    forall i, t | 0 <= i < |bytes| && 0 <= t < 4
      ensures UnpackTiles(bytes)[4 * i + t] == TileOf(bytes[i], t)
    {
      UnpackTilesAt(bytes, i, t);
    }
  }

  /** The bytes a tile sequence packs into, four tiles per byte (the encode loop). */
  function PackTiles(tiles: seq<Tile>): (bytes: seq<byte>)
    requires |tiles| % 4 == 0
    ensures |bytes| == |tiles| / 4
  {
    if |tiles| == 0 then [] else [PackQuad(tiles[..4])] + PackTiles(tiles[4..])
  }

  /** Byte `i` of packed tiles is the packing of tiles `4 * i` to `4 * i + 3`. */
  lemma {:induction false} PackTilesAt(tiles: seq<Tile>, i: nat)
    requires |tiles| % 4 == 0 && i < |tiles| / 4
    ensures PackTiles(tiles)[i] == PackQuad(tiles[4 * i .. 4 * i + 4])
    decreases i
  {
    if i > 0 {
      PackTilesAt(tiles[4..], i - 1);
      assert tiles[4..][4 * (i - 1) .. 4 * (i - 1) + 4] == tiles[4 * i .. 4 * i + 4];
    }
  }

  /** Pack/unpack round trip on tiles: unpacking packed tiles returns them. */
  lemma {:induction false} UnpackPackTiles(tiles: seq<Tile>)
    requires |tiles| % 4 == 0
    ensures UnpackTiles(PackTiles(tiles)) == tiles
  {
    if |tiles| > 0 {
      var bytes := PackTiles(tiles);
      assert bytes[0] == PackQuad(tiles[..4]) && bytes[1..] == PackTiles(tiles[4..]);
      UnpackPackTiles(tiles[4..]);
      assert tiles == tiles[..4] + tiles[4..];
    }
  }

  /** Pack/unpack round trip on bytes: packing unpacked bytes returns them. */
  lemma {:induction false} PackUnpackTiles(bytes: seq<byte>)
    ensures PackTiles(UnpackTiles(bytes)) == bytes
  {
    if |bytes| > 0 {
      var tiles := UnpackTiles(bytes);
      assert tiles[..4] == UnpackByte(bytes[0]) && tiles[4..] == UnpackTiles(bytes[1..]);
      PackUnpackByte(bytes[0]);
      PackUnpackTiles(bytes[1..]);
      assert bytes == [bytes[0]] + bytes[1..];
    }
  }
}

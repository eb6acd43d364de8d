/** The summary fields the encoder derives from a grid: the grass goal (how
    many tall-grass tiles must be mowed) and the (lo, hi) percent pair (the
    completion credit of one mowed tile). */
module GrassMetrics {
  import opened Layout

  /** Tall grass at grid index `i` counts toward the goal: it is neither in
      the border column 0 nor in a column past the playable width. */
  function Counted(i: nat, width: int): (c: bool)
    ensures i % RowLength == 0 ==> !c
    ensures width <= 0 ==> !c
    ensures width >= RowLength - 1 ==> (c <==> i % RowLength != 0)
  {
    1 <= i % RowLength <= width
  }

  /** Indices below `n` that hold counted tall grass. */
  function TallGrassBelow(tiles: seq<Tile>, width: int, n: nat): set<nat>
    requires n <= |tiles|
  {
    set i: nat | i < n && tiles[i] == 1 && Counted(i, width)
  }

  /** Every index of the grid that holds counted tall grass. */
  function TallGrass(tiles: seq<Tile>, width: int): set<nat>
  {
    TallGrassBelow(tiles, width, |tiles|)
  }

  /** The unclamped grass count the encoder's loop accumulates: at most one
      per tile, and 0 on a grid without tall grass. */
  function GrassCount(tiles: seq<Tile>, width: int): (n: nat)
    ensures n <= |tiles|
    ensures (forall i :: 0 <= i < |tiles| ==> tiles[i] != 1) ==> n == 0
  {
    TallGrassBelowBound(tiles, width, |tiles|);
    |TallGrass(tiles, width)|
  }

  /** Extending the scanned prefix by one index adds one exactly when that
      index holds counted tall grass. */
  lemma TallGrassStep(tiles: seq<Tile>, width: int, n: nat)
    requires n < |tiles|
    ensures |TallGrassBelow(tiles, width, n + 1)| ==
            |TallGrassBelow(tiles, width, n)| + (if tiles[n] == 1 && Counted(n, width) then 1 else 0)
  {
    var below := TallGrassBelow(tiles, width, n);
    if tiles[n] == 1 && Counted(n, width) {
      assert TallGrassBelow(tiles, width, n + 1) == below + {n};
      assert n !in below;
    } else {
      assert TallGrassBelow(tiles, width, n + 1) == below;
    }
  }

  /** Scanning a prefix of `n` tiles finds at most `n` counted tall-grass
      tiles, and none when the prefix holds no tall grass. */
  lemma {:induction false} TallGrassBelowBound(tiles: seq<Tile>, width: int, n: nat)
    requires n <= |tiles|
    ensures |TallGrassBelow(tiles, width, n)| <= n
    ensures (forall i :: 0 <= i < n ==> tiles[i] != 1) ==> |TallGrassBelow(tiles, width, n)| == 0
  {
    if n > 0 {
      TallGrassBelowBound(tiles, width, n - 1);
      TallGrassStep(tiles, width, n - 1);
    } else {
      assert TallGrassBelow(tiles, width, 0) == {};
    }
  }

  /** The stored goal: the count, saturated at one byte. */
  function GrassGoal(tiles: seq<Tile>, width: int): (goal: byte)
    ensures goal <= GrassCount(tiles, width)
    ensures goal < 255 ==> goal == GrassCount(tiles, width)
  {
    var count := GrassCount(tiles, width);
    if count > 255 then 255 else count
  }

  /** More than 255 counted tall-grass tiles store a goal of exactly 255. */
  lemma GoalSaturates(tiles: seq<Tile>, width: int)
    requires GrassCount(tiles, width) > 255
    ensures GrassGoal(tiles, width) == 255
  {
  }

  /** A tile outside the counted columns never moves the count, whatever is written there. */
  lemma UncountedTileIgnored(tiles: seq<Tile>, width: int, i: nat, v: Tile)
    requires i < |tiles|
    requires !Counted(i, width)
    ensures GrassCount(tiles[i := v], width) == GrassCount(tiles, width)
  {
    assert TallGrass(tiles[i := v], width) == TallGrass(tiles, width);
  }

  /** Planting tall grass on a counted tile that had none adds exactly one to the count. */
  lemma PlantingCountedGrass(tiles: seq<Tile>, width: int, i: nat)
    requires i < |tiles|
    requires Counted(i, width) && tiles[i] != 1
    ensures GrassCount(tiles[i := 1], width) == GrassCount(tiles, width) + 1
  {
    assert TallGrass(tiles[i := 1], width) == TallGrass(tiles, width) + {i};
    assert i !in TallGrass(tiles, width);
  }

  /** The completion percent pair stored after the goal. */
  datatype Percent = Percent(lo: nat, hi: nat)

  /** Start value of the percent loop: `int(100 / goal * 255)` for a positive
      goal, computed here as the integer quotient 25500 / goal; 0 for no grass. */
  function PercentBase(goal: nat): (v: nat)
    ensures goal == 0 ==> v == 0
    ensures goal > 0 ==> goal * v <= 25500 < goal * v + goal
  {
    if goal > 0 then
      var v := 25500 / goal;
      assert 25500 == goal * v + 25500 % goal;
      assert goal * v >= v;
      v
    else 0
  }

  /** The pair the `while lo > 256: hi += 1; lo -= 256` loop leaves for start
      value `v`: `lo` is the remainder moved into 1..256 (not 0..255), so a
      positive multiple of 256 leaves `lo == 256`. */
  function SplitPercent(v: nat): (p: Percent)
    ensures p.hi * 256 + p.lo == v
    ensures p.lo <= 256
    ensures v > 0 ==> 1 <= p.lo
    ensures v <= 256 ==> p == Percent(v, 0)
  {
    if v == 0 then Percent(0, 0) else Percent((v - 1) % 256 + 1, (v - 1) / 256)
  }

  /** The subtraction loop itself: it stops, keeps `hi * 256 + lo` equal to its
      start value, and leaves `lo` at most 256. */
  method PercentLoop(v: nat) returns (lo: nat, hi: nat)
    ensures hi * 256 + lo == v
    ensures lo <= 256
    ensures Percent(lo, hi) == SplitPercent(v)
  {
    lo := v;
    hi := 0;
    while lo > 256
      invariant hi * 256 + lo == v
      invariant v > 0 ==> lo >= 1
      invariant v == 0 ==> lo == 0
      decreases lo
    {
      hi := hi + 1;
      lo := lo - 256;
    }
  }

  /** Bounds of the quotient 25500 / goal for a goal that fits in a byte. */
  lemma QuotientBounds(goal: nat)
    requires 1 <= goal <= 255
    ensures 1 <= PercentBase(goal) <= 25500
  {
    var v := PercentBase(goal);
    assert goal * v >= v;
  }

  /** A goal of 100 or more starts the loop below 256. */
  lemma LargeGoalNoCarry(goal: nat, v: nat)
    requires 100 <= goal && goal * v <= 25500
    ensures v <= 255
  {
    assert goal * v >= 100 * v;
  }

  /** A goal below 100 never makes 25500 / goal a multiple of 256: with
      v = 256 * k + t, the bound 256 * (goal * k) <= 25500 forces goal * k <= 99,
      and then 25500 < goal * v + goal forces goal * (t + 1) > 156, so t > 0. */
  lemma SmallGoalNoMultiple(goal: nat, v: nat)
    requires 1 <= goal <= 99
    requires goal * v <= 25500 < goal * v + goal
    ensures v % 256 != 0
  {
    var k := v / 256;
    var t := v % 256;
    assert goal * v == 256 * (goal * k) + goal * t by {
      assert v == 256 * k + t;
    }
    assert goal * k <= 99;
    assert goal * (t + 1) > 156;
    assert 99 * (t + 1) >= goal * (t + 1);
  }

  /** For a goal that fits in a byte the loop leaves both halves in a byte:
      because the goal is clamped to 255 first, the `> 256` bound never leaves
      `lo == 256`. */
  lemma PercentFitsInBytes(goal: nat)
    requires 1 <= goal <= 255
    ensures SplitPercent(PercentBase(goal)).lo <= 255
    ensures SplitPercent(PercentBase(goal)).hi <= 99
  {
    var v := PercentBase(goal);
    QuotientBounds(goal);
    if goal >= 100 {
      LargeGoalNoCarry(goal, v);
    } else {
      SmallGoalNoMultiple(goal, v);
      SplitOffMultiple(v);
    }
    SplitHighBound(v);
  }

  /** Away from multiples of 256 the loop leaves `lo` below 256. */
  lemma SplitOffMultiple(v: nat)
    requires v % 256 != 0
    ensures SplitPercent(v).lo <= 255
  {
  }

  /** Start values up to 25500 leave `hi` at most 99. */
  lemma SplitHighBound(v: nat)
    requires v <= 25500
    ensures SplitPercent(v).hi <= 99
  {
  }

  /** The percent pair written for a stored goal. */
  function PercentFor(goal: nat): (p: Percent)
    requires goal <= 255
    ensures p.lo <= 255 && p.hi <= 99
    ensures p.hi * 256 + p.lo == PercentBase(goal)
    ensures goal == 0 ==> p == Percent(0, 0)
  {
    if goal > 0 then
      PercentFitsInBytes(goal);
      SplitPercent(PercentBase(goal))
    else Percent(0, 0)
  }

  /** One counted tall-grass tile credits 25500 = 99 * 256 + 156 per mowed
      tile: lo 156, hi 99. */
  lemma SingleTileCredit()
    ensures PercentFor(1) == Percent(156, 99)
  {
  }
}

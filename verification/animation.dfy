/** The pure logic of one tick of the Ludzik animation: frame counter ->
    hero column, hero state, running sprite and the list of draw calls. */
module Animation {
  import opened Lcd

  /** The counter runs over 0..TotalFrames and then wraps. */
  const TotalFrames: int := 320
  /** The jump occupies frames 31..54: eight phases of three frames. */
  const JumpStartFrame: int := 31
  const JumpEndFrame: int := 54
  const FramesPerPhase: int := 3
  /** The running sprite changes every 20 frames. */
  const RunSpritePeriod: int := 20
  /** The obstacle stands in the middle column of the lower row. */
  const ObstacleCol: int := 8
  const ObstacleRow: int := 1

  predicate ValidFrame(f: int)
  {
    0 <= f <= TotalFrames
  }

  // ---------------------------------------------------------------------------
  // Frame counter

  /** `frameCount = (frameCount + 1) % (totalFrames + 1)`. */
  function Next(f: int): (g: int)
    requires ValidFrame(f)
    ensures ValidFrame(g)
    ensures f < TotalFrames ==> g == f + 1
    ensures f == TotalFrames ==> g == 0
  {
    (f + 1) % (TotalFrames + 1)
  }

  /** The counter after n ticks. */
  function Iterate(n: nat, f: int): (g: int)
    requires ValidFrame(f)
    ensures ValidFrame(g)
  {
    if n == 0 then f else Next(Iterate(n - 1, f))
  }

  /** n ticks advance the counter by n modulo TotalFrames + 1. */
  lemma {:induction false} IterateAdvances(n: nat, f: int)
    requires ValidFrame(f)
    ensures Iterate(n, f) == (f + n) % (TotalFrames + 1)
  {
    if n > 0 {
      IterateAdvances(n - 1, f);
      assert Iterate(n, f) == Next(Iterate(n - 1, f));
      ModSucc(f + n - 1);
    }
  }

  /** Taking the successor commutes with reducing modulo TotalFrames + 1. */
  lemma ModSucc(x: nat)
    ensures Next(x % (TotalFrames + 1)) == (x + 1) % (TotalFrames + 1)
  {
    assert TotalFrames + 1 == 321;
    var q := x / 321;
    var m := x % 321;
    if m < 320 {
      assert x + 1 == 321 * q + (m + 1);
      assert (x + 1) % 321 == m + 1;
    } else {
      assert x + 1 == 321 * (q + 1);
      assert (x + 1) % 321 == 0;
    }
  }

  /** Cycle closure: after TotalFrames + 1 ticks the counter is back where it
      started, and no shorter positive number of ticks brings it back. */
  lemma CycleClosure(f: int, k: nat)
    requires ValidFrame(f)
    ensures Iterate(TotalFrames + 1, f) == f
    ensures 0 < k < TotalFrames + 1 ==> Iterate(k, f) != f
  {
    IterateAdvances(TotalFrames + 1, f);
    WrapOnce(f + TotalFrames + 1);
    if 0 < k < TotalFrames + 1 {
      IterateAdvances(k, f);
      WrapOnce(f + k);
    }
  }

  /** A counter value below two cycles wraps at most once. */
  lemma WrapOnce(x: int)
    requires 0 <= x < 2 * (TotalFrames + 1)
    ensures x % (TotalFrames + 1) == if x <= TotalFrames then x else x - (TotalFrames + 1)
  {
  }

  /** Starting at 0, the frame shown at tick n is n modulo TotalFrames + 1. */
  lemma FrameAtTick(n: nat)
    ensures Iterate(n, 0) == n % (TotalFrames + 1)
  {
    IterateAdvances(n, 0);
  }

  // ---------------------------------------------------------------------------
  // Hero column

  /** JavaScript's Math.round of the exact rational n / d: the integer r with
      r - 1/2 <= n/d < r + 1/2, so halves round up. */
  function RoundHalfUp(n: int, d: int): (r: int)
    requires d > 0
    ensures 2 * d * r - d <= 2 * n < 2 * d * r + d
  {
    var q := (2 * n + d) / (2 * d);
    DivisionBounds(2 * n + d, 2 * d);
    q
  }

  lemma DivisionBounds(a: int, b: int)
    requires b > 0
    ensures b * (a / b) <= a < b * (a / b) + b
  {
  }

  /** heroCol = Math.round(-1 + (frameCount / totalFrames) * (cols + 1)),
      with the float replaced by the exact fraction (17f - 320) / 320. In
      closed form the column is floor((17f - 160) / 320). */
  function HeroCol(f: int): (c: int)
    ensures c == (17 * f - 160) / 320
  {
    var r := RoundHalfUp(f * (Cols + 1) - TotalFrames, TotalFrames);
    assert 640 * r - 320 <= 2 * (17 * f - 320) < 640 * r + 320;
    assert 320 * r <= 17 * f - 160 < 320 * r + 320;
    r
  }

  /** The only frame whose exact hero position lies halfway between two
      columns is 160 (7.5); every other frame is at least 1/320 of a column
      away from a rounding boundary, so the float formula rounds the same
      way as the exact fraction. */
  lemma OnlyFrame160IsATie(f: int)
    requires ValidFrame(f)
    ensures (17 * f - 160) % 320 == 0 <==> f == 160
  {
  }

  /** The column never decreases and moves by at most one per tick. */
  lemma HeroColStep(f: int)
    ensures HeroCol(f) <= HeroCol(f + 1) <= HeroCol(f) + 1
  {
  }

  /** Monotonicity over any span of frames. */
  lemma {:induction false} HeroColMonotone(f: int, g: int)
    requires f <= g
    ensures HeroCol(f) <= HeroCol(g)
    decreases g - f
  {
    if f < g {
      HeroColMonotone(f, g - 1);
      HeroColStep(g - 1);
    }
  }

  /** The sweep starts one column left of the grid, passes 8 halfway and
      ends one column right of it. */
  lemma HeroColSpotValues()
    ensures HeroCol(0) == -1 && HeroCol(160) == 8 && HeroCol(320) == Cols
  {
  }

  /** Over a cycle the column stays in -1..Cols, and it is on the grid
      exactly for frames 10..310. */
  lemma HeroColRange(f: int)
    requires ValidFrame(f)
    ensures -1 <= HeroCol(f) <= Cols
    ensures 0 <= HeroCol(f) < Cols <==> 10 <= f <= 310
  {
  }

  // ---------------------------------------------------------------------------
  // Hero state

  datatype HeroState = Run | Jump1 | Jump2 | Jump3 | Jump4 | Jump5 | Jump6 | Jump7 | Jump8

  /** The switch over the jump phase, including its `default` branch:
      phases 0..7 select jump1..jump8, anything else selects run. */
  function PhaseState(phase: int): (s: HeroState)
    ensures 0 <= phase <= 7 ==> JumpNumber(s) == phase + 1
    ensures s == Run <==> !(0 <= phase <= 7)
  {
    match phase
    case 0 => Jump1
    case 1 => Jump2
    case 2 => Jump3
    case 3 => Jump4
    case 4 => Jump5
    case 5 => Jump6
    case 6 => Jump7
    case 7 => Jump8
    case _ => Run
  }

  /** The state chosen for a frame: the hero runs exactly outside frames
      31..54; inside them, frame f is in jump state number (f - 31) / 3 + 1,
      so the `default` branch of the switch is never taken. */
  function StateAt(f: int): (s: HeroState)
    ensures s == Run <==> f < JumpStartFrame || f > JumpEndFrame
    ensures JumpStartFrame <= f <= JumpEndFrame ==>
      JumpNumber(s) == (f - JumpStartFrame) / FramesPerPhase + 1
  {
    if JumpStartFrame <= f <= JumpEndFrame then PhaseState((f - JumpStartFrame) / FramesPerPhase)
    else Run
  }

  /** The number of a state: 0 for Run, k for Jump k. */
  function JumpNumber(s: HeroState): (k: int)
    ensures 0 <= k <= 8
    ensures k == 0 <==> s == Run
  {
    match s
    case Run => 0
    case Jump1 => 1
    case Jump2 => 2
    case Jump3 => 3
    case Jump4 => 4
    case Jump5 => 5
    case Jump6 => 6
    case Jump7 => 7
    case Jump8 => 8
  }

  /** Inside the jump window the phase is always 0..7, so the `default`
      branch of the switch is never taken. */
  lemma PhaseInRange(f: int)
    requires JumpStartFrame <= f <= JumpEndFrame
    ensures 0 <= (f - JumpStartFrame) / FramesPerPhase <= 7
    ensures PhaseState((f - JumpStartFrame) / FramesPerPhase) != Run
  {
  }

  /** The window boundaries. */
  lemma StateSpotValues()
    ensures StateAt(30) == Run && StateAt(31) == Jump1
    ensures StateAt(54) == Jump8 && StateAt(55) == Run
  {
  }

  // ---------------------------------------------------------------------------
  // Running sprite

  /** `Math.floor(frameCount / 20) % 2 === 0 ? spriteRun1 : spriteRun2`:
      run1 on the first 20 frames of every 40-frame period, run2 on the
      other 20. */
  function RunningSprite(f: int): (s: SpriteName)
    ensures s == Run1 <==> f % (2 * RunSpritePeriod) < RunSpritePeriod
    ensures s == Run2 <==> f % (2 * RunSpritePeriod) >= RunSpritePeriod
  {
    if (f / RunSpritePeriod) % 2 == 0 then Run1 else Run2
  }

  function OtherRunSprite(s: SpriteName): SpriteName
  {
    if s == Run1 then Run2 else Run1
  }

  /** The running sprite is constant on each block of 20 frames and swaps
      from one block to the next. */
  lemma RunningSpriteAlternates(f: int)
    ensures RunningSprite(f) == RunningSprite(RunSpritePeriod * (f / RunSpritePeriod))
    ensures RunningSprite(f + RunSpritePeriod) == OtherRunSprite(RunningSprite(f))
    ensures RunningSprite(f) == Run1 || RunningSprite(f) == Run2
  {
    var q := f / RunSpritePeriod;
    assert (RunSpritePeriod * q) / RunSpritePeriod == q;
    assert (f + RunSpritePeriod) / RunSpritePeriod == q + 1;
    assert RunningSprite(f) == if q % 2 == 0 then Run1 else Run2;
    assert RunningSprite(RunSpritePeriod * q) == if q % 2 == 0 then Run1 else Run2;
    assert RunningSprite(f + RunSpritePeriod) == if q % 2 == 0 then Run2 else Run1;
  }

  lemma RunningSpriteSpotValues()
    ensures RunningSprite(0) == Run1 && RunningSprite(19) == Run1
    ensures RunningSprite(20) == Run2 && RunningSprite(39) == Run2
    ensures RunningSprite(40) == Run1
  {
  }

  // ---------------------------------------------------------------------------
  // Draw calls

  /** A call of drawSprite(ctx, sprite, col, row) or drawDot(ctx, col, row). */
  datatype DrawCall = SpriteAt(sprite: SpriteName, col: int, row: int) | DotAt(col: int, row: int)
  {
    function Col(): int
    {
      match this
      case SpriteAt(_, c, _) => c
      case DotAt(c, _) => c
    }

    function Row(): int
    {
      match this
      case SpriteAt(_, _, r) => r
      case DotAt(_, r) => r
    }
  }

  /** The hero's draw calls for a state, a running sprite and a column: the
      if-chain on heroState, each branch guarded by the column check. Off
      the grid nothing is drawn; on it, every call uses the hero column, the
      upper row is used exactly in jump2..jump7, the lower row exactly
      outside jump3..jump6, and only jump2 and jump7 draw twice. */
  function HeroCalls(state: HeroState, runSprite: SpriteName, heroCol: int): (calls: seq<DrawCall>)
    ensures !(0 <= heroCol < Cols) ==> calls == []
    ensures 0 <= heroCol < Cols ==> 1 <= |calls| <= 2
    ensures forall i :: 0 <= i < |calls| ==> calls[i].Col() == heroCol
    ensures |calls| == 2 <==> 0 <= heroCol < Cols && state in {Jump2, Jump7}
    ensures (exists i :: 0 <= i < |calls| && calls[i].Row() == 0) <==>
      0 <= heroCol < Cols && 2 <= JumpNumber(state) <= 7
    ensures (exists i :: 0 <= i < |calls| && calls[i].Row() == 1) <==>
      0 <= heroCol < Cols && state !in {Jump3, Jump4, Jump5, Jump6}
  {
    var calls :=
      if state == Run then
        if 0 <= heroCol < Cols then [SpriteAt(runSprite, heroCol, 1)] else []
      else if state == Jump1 || state == Jump8 then
        if 0 <= heroCol < Cols then [SpriteAt(Jump, heroCol, 1)] else []
      else if state == Jump2 || state == Jump7 then
        if 0 <= heroCol < Cols then [DotAt(heroCol, 0), SpriteAt(JumpLower, heroCol, 1)] else []
      else
        if 0 <= heroCol < Cols then [SpriteAt(Jump, heroCol, 0)] else [];
    assert |calls| > 0 ==> calls[0].Row() == (if 2 <= JumpNumber(state) <= 7 then 0 else 1);
    assert |calls| > 0 ==> calls[|calls| - 1].Row() == (if state in {Jump3, Jump4, Jump5, Jump6} then 0 else 1);
    calls
  }

  /** Everything one tick draws after clearing the canvas: the obstacle
      first, then the hero. */
  function Scene(f: int): (calls: seq<DrawCall>)
    ensures 1 <= |calls| <= 3
    ensures calls[0] == SpriteAt(Ground, ObstacleCol, ObstacleRow)
  {
    [SpriteAt(Ground, ObstacleCol, ObstacleRow)] + HeroCalls(StateAt(f), RunningSprite(f), HeroCol(f))
  }

  /** The hero is drawn exactly when its column is on the grid, i.e. for
      frames 10..310 of the cycle, and every hero call is in that column. */
  lemma HeroDrawnOnlyOnGrid(f: int)
    requires ValidFrame(f)
    ensures |Scene(f)| > 1 <==> 0 <= HeroCol(f) < Cols
    ensures |Scene(f)| > 1 <==> 10 <= f <= 310
    ensures forall i :: 1 <= i < |Scene(f)| ==> Scene(f)[i].Col() == HeroCol(f)
  {
    HeroColRange(f);
  }

  /** Every call of every frame of the cycle addresses a cell of the grid. */
  lemma SceneOnGrid(f: int)
    requires ValidFrame(f)
    ensures forall c :: c in Scene(f) ==> 0 <= c.Col() < Cols && 0 <= c.Row() < Rows
  {
  }

  /** Placements by state, for a hero on the grid: run, jump1 and jump8 draw
      one sprite in the lower row; jump3..jump6 draw `jump` in the upper
      row; jump2 and jump7 draw a dot above and `jumpLower` below. */
  lemma HeroPlacement(f: int)
    requires 0 <= HeroCol(f) < Cols
    ensures StateAt(f) == Run ==> Scene(f)[1..] == [SpriteAt(RunningSprite(f), HeroCol(f), 1)]
    ensures StateAt(f) in {Jump1, Jump8} ==> Scene(f)[1..] == [SpriteAt(Jump, HeroCol(f), 1)]
    ensures StateAt(f) in {Jump2, Jump7} ==>
      Scene(f)[1..] == [DotAt(HeroCol(f), 0), SpriteAt(JumpLower, HeroCol(f), 1)]
    ensures StateAt(f) in {Jump3, Jump4, Jump5, Jump6} ==> Scene(f)[1..] == [SpriteAt(Jump, HeroCol(f), 0)]
  {
  }

  /** Over the cycle, the hero occupies both rows (dot above, body below)
      exactly on frames 34..36 and 49..51, and the upper row alone exactly on
      frames 37..48. */
  lemma RowsByFrame(f: int)
    requires ValidFrame(f)
    ensures |Scene(f)| == 3 <==> (34 <= f <= 36 || 49 <= f <= 51)
    ensures (|Scene(f)| == 2 && Scene(f)[1].Row() == 0) <==> 37 <= f <= 48
  {
    HeroColRange(f);
  }
}

/** One whole tick of `animate`: clear the canvas, rasterise the scene's
    draw calls, advance the counter. The canvas after the tick is the set of
    pixels the fills cover; everything else is background. */
module Frame {
  import opened Lcd
  import opened Raster
  import opened Animation

  /** The fills one draw call issues. */
  function Render(c: DrawCall): (rects: seq<Rect>)
    ensures forall px, py :: Painted(rects, px, py) ==> InCell(c.Col(), c.Row(), px, py)
    ensures OnGrid(c.Col(), c.Row()) ==> forall r :: r in rects ==> InsideCanvas(r)
  {
    match c
    case SpriteAt(name, col, row) =>
      var rects := DrawSprite(Bitmap(name), col, row);
      assert forall px, py :: Painted(rects, px, py) ==> InCell(col, row, px, py) by {
        forall px, py | Painted(rects, px, py)
          ensures InCell(col, row, px, py)
        {
          SpritePixelExact(Bitmap(name), col, row, px, py);
        }
      }
      rects
    case DotAt(col, row) =>
      [DrawDot(col, row)]
  }

  /** The fills of a list of draw calls, in order. */
  function RenderAll(calls: seq<DrawCall>): (rects: seq<Rect>)
    ensures (forall c :: c in calls ==> OnGrid(c.Col(), c.Row())) ==>
      forall r :: r in rects ==> InsideCanvas(r)
  {
    if |calls| == 0 then [] else Render(calls[0]) + RenderAll(calls[1..])
  }

  /** The fills of frame f. */
  function RenderFrame(f: int): seq<Rect>
  {
    RenderAll(Scene(f))
  }

  /** The outcome of one tick: what it painted and the next counter value. */
  datatype Tick = Tick(fills: seq<Rect>, next: int)

  function Step(f: int): (t: Tick)
    requires ValidFrame(f)
    ensures ValidFrame(t.next)
    ensures forall r :: r in t.fills ==> InsideCanvas(r)
  {
    FrameInsideCanvas(f);
    Tick(RenderFrame(f), Next(f))
  }

  lemma PaintedConcat(a: seq<Rect>, b: seq<Rect>, px: int, py: int)
    ensures Painted(a + b, px, py) <==> Painted(a, px, py) || Painted(b, px, py)
  {
    if Painted(a, px, py) {
      var i :| 0 <= i < |a| && Covers(a[i], px, py);
      assert (a + b)[i] == a[i];
    }
    if Painted(b, px, py) {
      var i :| 0 <= i < |b| && Covers(b[i], px, py);
      assert (a + b)[|a| + i] == b[i];
    }
  }

  /** A pixel is painted by a list of calls iff one of the calls paints it. */
  lemma {:induction false} PaintedRenderAll(calls: seq<DrawCall>, px: int, py: int)
    ensures Painted(RenderAll(calls), px, py) <==>
      exists i :: 0 <= i < |calls| && Painted(Render(calls[i]), px, py)
  {
    if |calls| > 0 {
      var rest := calls[1..];
      assert RenderAll(calls) == Render(calls[0]) + RenderAll(rest);
      PaintedRenderAll(rest, px, py);
      PaintedConcat(Render(calls[0]), RenderAll(rest), px, py);
      if exists i :: 0 <= i < |calls| && Painted(Render(calls[i]), px, py) {
        var i :| 0 <= i < |calls| && Painted(Render(calls[i]), px, py);
        if i > 0 {
          assert rest[i - 1] == calls[i];
        }
      }
      if Painted(RenderAll(rest), px, py) {
        var j :| 0 <= j < |rest| && Painted(Render(rest[j]), px, py);
        assert rest[j] == calls[j + 1];
      }
    }
  }

  /** Every fill of every frame of the cycle lies inside the 320 x 64 canvas. */
  lemma FrameInsideCanvas(f: int)
    requires ValidFrame(f)
    ensures forall r :: r in RenderFrame(f) ==> InsideCanvas(r)
  {
    SceneOnGrid(f);
  }

  /** The ground sprite lights every pixel of its cell. */
  lemma GroundFillsCell(cellCol: int, cellRow: int, px: int, py: int)
    requires InCell(cellCol, cellRow, px, py)
    ensures Painted(DrawSprite(Bitmap(Ground), cellCol, cellRow), px, py)
  {
    var row := (py - CellOriginY(cellRow)) / Scale;
    var col := (px - CellOriginX(cellCol)) / Scale;
    BitmapMatchesPicture(Ground, row, col);
    assert Lit(Bitmap(Ground), row, col);
    SpritePixelExact(Bitmap(Ground), cellCol, cellRow, px, py);
  }

  /** Obstacle persistence: whatever the frame, the whole obstacle cell is
      painted. */
  lemma ObstacleAlwaysPainted(f: int, px: int, py: int)
    requires InCell(ObstacleCol, ObstacleRow, px, py)
    ensures Painted(RenderFrame(f), px, py)
  {
    var calls := Scene(f);
    GroundFillsCell(ObstacleCol, ObstacleRow, px, py);
    PaintedRenderAll(calls, px, py);
  }

  /** Out-of-bounds skip: a frame whose hero column is off the grid paints
      exactly the obstacle cell and nothing else. */
  lemma OffGridFrameIsObstacleOnly(f: int, px: int, py: int)
    requires !(0 <= HeroCol(f) < Cols)
    ensures Painted(RenderFrame(f), px, py) <==> InCell(ObstacleCol, ObstacleRow, px, py)
  {
    var calls := Scene(f);
    assert calls == [SpriteAt(Ground, ObstacleCol, ObstacleRow)];
    PaintedRenderAll(calls, px, py);
    if InCell(ObstacleCol, ObstacleRow, px, py) {
      GroundFillsCell(ObstacleCol, ObstacleRow, px, py);
    }
  }
}

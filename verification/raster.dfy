/** The rasteriser: drawSprite and drawDot of the Ludzik component, with the
    canvas abstracted to the list of fillRect calls they issue. */
module Raster {
  import opened Lcd

  /** One `fillRect(x, y, w, h)` call in the foreground colour. */
  datatype Rect = Rect(x: int, y: int, w: int, h: int)

  /** The bit pattern JavaScript's bitwise operators see for an integral
      number: ToInt32 keeps the value modulo 2^32. */
  function Int32Bits(x: int): bv32
  {
    (x % 0x1_0000_0000) as bv32
  }

  /** `bits & (1 << (cellWidth - 1 - col))` is non-zero. */
  predicate MaskHit(bits: int, col: int)
    requires 0 <= col < CellWidth
  {
    Int32Bits(bits) & ((1 as bv32) << (CellWidth - 1 - col)) != 0
  }

  /** `sprite[row]`; a row past the end of the array reads as `undefined`,
      which the bitwise `&` treats as 0. */
  function RowBits(glyph: seq<int>, row: int): int
  {
    if 0 <= row < |glyph| then glyph[row] else 0
  }

  function CellOriginX(cellCol: int): int
  {
    cellCol * (CellWidth * Scale)
  }

  function CellOriginY(cellRow: int): int
  {
    cellRow * (CellHeight * Scale)
  }

  /** The Scale x Scale block that shows pixel (col, row) of the glyph in
      cell (cellCol, cellRow). */
  function BlockAt(cellCol: int, cellRow: int, row: int, col: int): Rect
  {
    Rect(CellOriginX(cellCol) + col * Scale, CellOriginY(cellRow) + row * Scale, Scale, Scale)
  }

  predicate Covers(r: Rect, px: int, py: int)
  {
    r.x <= px < r.x + r.w && r.y <= py < r.y + r.h
  }

  /** Canvas pixel (px, py) is foreground after the given fills. */
  predicate Painted(rects: seq<Rect>, px: int, py: int)
  {
    exists i :: 0 <= i < |rects| && Covers(rects[i], px, py)
  }

  predicate InCell(cellCol: int, cellRow: int, px: int, py: int)
  {
    && CellOriginX(cellCol) <= px < CellOriginX(cellCol) + CellWidth * Scale
    && CellOriginY(cellRow) <= py < CellOriginY(cellRow) + CellHeight * Scale
  }

  predicate OnGrid(cellCol: int, cellRow: int)
  {
    0 <= cellCol < Cols && 0 <= cellRow < Rows
  }

  predicate InsideCanvas(r: Rect)
  {
    0 <= r.x && r.x + r.w <= CanvasWidth && 0 <= r.y && r.y + r.h <= CanvasHeight
  }

  /** Pixel (col, row) of the glyph is lit. */
  predicate Lit(glyph: seq<int>, row: int, col: int)
  {
    0 <= row < CellHeight && 0 <= col < CellWidth && MaskHit(RowBits(glyph, row), col)
  }

  /** The inner loop of drawSprite for one glyph row, from column `col` on. */
  function RowRects(glyph: seq<int>, cellCol: int, cellRow: int, row: int, col: int): (rects: seq<Rect>)
    requires 0 <= row < CellHeight && 0 <= col <= CellWidth
    ensures forall r :: r in rects <==>
      exists c :: col <= c < CellWidth && Lit(glyph, row, c) && r == BlockAt(cellCol, cellRow, row, c)
    decreases CellWidth - col
  {
    if col == CellWidth then []
    else
      var rest := RowRects(glyph, cellCol, cellRow, row, col + 1);
      if MaskHit(RowBits(glyph, row), col) then [BlockAt(cellCol, cellRow, row, col)] + rest else rest
  }

  /** The outer loop of drawSprite, from glyph row `row` on. */
  function GlyphRects(glyph: seq<int>, cellCol: int, cellRow: int, row: int): (rects: seq<Rect>)
    requires 0 <= row <= CellHeight
    ensures forall r :: r in rects <==>
      exists rw, c :: row <= rw && Lit(glyph, rw, c) && r == BlockAt(cellCol, cellRow, rw, c)
    decreases CellHeight - row
  {
    if row == CellHeight then []
    else RowRects(glyph, cellCol, cellRow, row, 0) + GlyphRects(glyph, cellCol, cellRow, row + 1)
  }

  /** drawSprite(ctx, glyph, cellCol, cellRow): one Scale x Scale fill for
      every lit glyph pixel and nothing else; on a grid cell every fill lies
      inside the canvas. */
  function DrawSprite(glyph: seq<int>, cellCol: int, cellRow: int): (rects: seq<Rect>)
    ensures forall r :: r in rects <==>
      exists row, col :: Lit(glyph, row, col) && r == BlockAt(cellCol, cellRow, row, col)
    ensures forall r :: r in rects ==> r.w == Scale && r.h == Scale
    ensures OnGrid(cellCol, cellRow) ==> forall r :: r in rects ==> InsideCanvas(r)
  {
    GlyphRects(glyph, cellCol, cellRow, 0)
  }

  /** drawDot(ctx, cellCol, cellRow): the head marker, a single block that
      sits exactly where glyph pixel (2, 3) of the cell would be drawn. */
  function DrawDot(cellCol: int, cellRow: int): (r: Rect)
    ensures r == BlockAt(cellCol, cellRow, 3, 2)
    ensures forall px, py :: Covers(r, px, py) ==> InCell(cellCol, cellRow, px, py)
    ensures OnGrid(cellCol, cellRow) ==> InsideCanvas(r)
  {
    Rect(CellOriginX(cellCol) + 2 * Scale, CellOriginY(cellRow) + 3 * Scale, Scale, Scale)
  }

  /** For the five-bit rows of the catalog, the mask test is the binary
      digit of weight 2^(CellWidth - 1 - col). */
  lemma MaskHitIsBinaryDigit(bits: int, col: int)
    requires 0 <= bits < Pow2(CellWidth) && 0 <= col < CellWidth
    ensures MaskHit(bits, col) <==> (bits / Pow2(CellWidth - 1 - col)) % 2 == 1
  {
    FiveBitWeights();
    assert Int32Bits(bits) == bits as bv32;
    if col == 0 {
      assert MaskHit(bits, col) <==> bits as bv32 & 16 != 0;
    } else if col == 1 {
      assert MaskHit(bits, col) <==> bits as bv32 & 8 != 0;
    } else if col == 2 {
      assert MaskHit(bits, col) <==> bits as bv32 & 4 != 0;
    } else if col == 3 {
      assert MaskHit(bits, col) <==> bits as bv32 & 2 != 0;
    } else {
      assert MaskHit(bits, col) <==> bits as bv32 & 1 != 0;
    }
  }

  /** The row value 0b01100 (12) lights glyph columns 1 and 2 only. */
  lemma RowTwelveLightsTwoColumns(col: int)
    requires 0 <= col < CellWidth
    ensures MaskHit(12, col) <==> col == 1 || col == 2
  {
    assert Int32Bits(12) == 12;
    if col == 0 {
      assert !MaskHit(12, 0);
    } else if col == 1 {
      assert MaskHit(12, 1);
    } else if col == 2 {
      assert MaskHit(12, 2);
    } else if col == 3 {
      assert !MaskHit(12, 3);
    } else {
      assert !MaskHit(12, 4);
    }
  }

  /** The five binary digits of a row value, most significant first, drawn
      as '#' for 1 and '.' for 0. */
  function BinaryLine(bits: int): (line: string)
    ensures |line| == CellWidth
  {
    [Digit(bits / 16), Digit(bits / 8), Digit(bits / 4), Digit(bits / 2), Digit(bits)]
  }

  function Digit(v: int): char
  {
    if v % 2 == 1 then '#' else '.'
  }

  /** The mask test on a five-bit row agrees with its binary line. */
  lemma MaskHitMatchesBinaryLine(bits: int, col: int)
    requires 0 <= bits < Pow2(CellWidth) && 0 <= col < CellWidth
    ensures MaskHit(bits, col) <==> BinaryLine(bits)[col] == '#'
  {
    MaskHitIsBinaryDigit(bits, col);
    FiveBitWeights();
    var line := BinaryLine(bits);
    assert line[col] == Digit(bits / Pow2(CellWidth - 1 - col)) by {
      if col == 0 {
        assert line[0] == Digit(bits / 16);
      } else if col == 1 {
        assert line[1] == Digit(bits / 8);
      } else if col == 2 {
        assert line[2] == Digit(bits / 4);
      } else if col == 3 {
        assert line[3] == Digit(bits / 2);
      } else {
        assert line[4] == Digit(bits / 1);
      }
    }
  }

  /** Every row of every picture is the binary line of the bitmap's row. */
  lemma PicturesAreBinaryLines(name: SpriteName, row: int)
    requires 0 <= row < CellHeight
    ensures Picture(name)[row] == BinaryLine(Bitmap(name)[row])
  {
  }

  /** Every catalog bitmap lights exactly the '#' pixels of its picture. */
  lemma BitmapMatchesPicture(name: SpriteName, row: int, col: int)
    requires 0 <= row < CellHeight && 0 <= col < CellWidth
    ensures Lit(Bitmap(name), row, col) <==> Picture(name)[row][col] == '#'
  {
    PicturesAreBinaryLines(name, row);
    MaskHitMatchesBinaryLine(Bitmap(name)[row], col);
  }

  /** A block covers exactly the canvas pixels of its glyph pixel. */
  lemma BlockCovers(cellCol: int, cellRow: int, row: int, col: int, px: int, py: int)
    requires 0 <= row < CellHeight && 0 <= col < CellWidth
    ensures Covers(BlockAt(cellCol, cellRow, row, col), px, py) <==>
      && InCell(cellCol, cellRow, px, py)
      && (py - CellOriginY(cellRow)) / Scale == row
      && (px - CellOriginX(cellCol)) / Scale == col
  {
  }

  /** Pixel-exactness of drawSprite: a canvas pixel is painted iff it lies in
      the target cell and the glyph pixel it belongs to is lit. */
  lemma SpritePixelExact(glyph: seq<int>, cellCol: int, cellRow: int, px: int, py: int)
    ensures Painted(DrawSprite(glyph, cellCol, cellRow), px, py) <==>
      && InCell(cellCol, cellRow, px, py)
      && Lit(glyph, (py - CellOriginY(cellRow)) / Scale, (px - CellOriginX(cellCol)) / Scale)
  {
    var rects := DrawSprite(glyph, cellCol, cellRow);
    var row := (py - CellOriginY(cellRow)) / Scale;
    var col := (px - CellOriginX(cellCol)) / Scale;
    if Painted(rects, px, py) {
      var i :| 0 <= i < |rects| && Covers(rects[i], px, py);
      assert rects[i] in rects;
      var rw, c :| Lit(glyph, rw, c) && rects[i] == BlockAt(cellCol, cellRow, rw, c);
      BlockCovers(cellCol, cellRow, rw, c, px, py);
    }
    if InCell(cellCol, cellRow, px, py) && Lit(glyph, row, col) {
      var b := BlockAt(cellCol, cellRow, row, col);
      assert b in rects;
      var i :| 0 <= i < |rects| && rects[i] == b;
      BlockCovers(cellCol, cellRow, row, col, px, py);
    }
  }
}

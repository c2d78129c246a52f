/** Geometry of the emulated 16x2 character LCD and its closed catalog of
    5x8 glyphs, as declared at the top of the Ludzik component. */
module Lcd {

  /** A character cell is 5 pixels wide and 8 pixels tall; every LCD pixel
      is drawn as a Scale x Scale block of canvas pixels. */
  const CellWidth: int := 5
  const CellHeight: int := 8
  const Scale: int := 4
  const Cols: int := 16
  const Rows: int := 2

  /** 16 * 5 * 4 = 320 and 2 * 8 * 4 = 64 canvas pixels. */
  const CanvasWidth: int := Cols * CellWidth * Scale
  const CanvasHeight: int := Rows * CellHeight * Scale

  function Pow2(k: nat): (r: nat)
    ensures r >= 1
  {
    if k == 0 then 1 else 2 * Pow2(k - 1)
  }

  /** The bit weights of a five-bit glyph row, and the bound on its value. */
  lemma FiveBitWeights()
    ensures Pow2(0) == 1 && Pow2(1) == 2 && Pow2(2) == 4 && Pow2(3) == 8 && Pow2(4) == 16
    ensures Pow2(CellWidth) == 32
  {
    assert Pow2(2) == 4;
    assert Pow2(4) == 16;
  }

  /** The seven sprites of the catalog; the name is the sprite's identity. */
  datatype SpriteName = Run1 | Run2 | Jump | JumpLower | Ground | GroundRight | GroundLeft

  /** The eight row values of a sprite, top row first. Bit (CellWidth - 1 - c)
      of a row lights pixel column c, so the most significant of the five
      bits is the leftmost pixel. The source writes the rows as binary
      literals; they appear here in decimal. */
  function Bitmap(name: SpriteName): (rows: seq<int>)
    ensures |rows| == CellHeight
    ensures forall r :: 0 <= r < |rows| ==> 0 <= rows[r] < Pow2(CellWidth)
  {
    match name
    case Run1 => [12, 12, 0, 14, 28, 12, 26, 19]
    case Run2 => [12, 12, 0, 12, 12, 12, 12, 14]
    case Jump => [12, 12, 0, 30, 13, 31, 16, 0]
    case JumpLower => [30, 13, 31, 16, 0, 0, 0, 0]
    case Ground => [31, 31, 31, 31, 31, 31, 31, 31]
    case GroundRight => [3, 3, 3, 3, 3, 3, 3, 3]
    case GroundLeft => [24, 24, 24, 24, 24, 24, 24, 24]
  }

  /** An independent drawing of every sprite: '#' is a lit pixel, '.' a dark
      one, column 0 leftmost. Raster.BitmapMatchesPicture ties it to Bitmap. */
  function Picture(name: SpriteName): (p: seq<string>)
    ensures |p| == CellHeight
    ensures forall r :: 0 <= r < |p| ==> |p[r]| == CellWidth
  {
    match name
    case Run1 =>
      [".##..",
       ".##..",
       ".....",
       ".###.",
       "###..",
       ".##..",
       "##.#.",
       "#..##"]
    case Run2 =>
      [".##..",
       ".##..",
       ".....",
       ".##..",
       ".##..",
       ".##..",
       ".##..",
       ".###."]
    case Jump =>
      [".##..",
       ".##..",
       ".....",
       "####.",
       ".##.#",
       "#####",
       "#....",
       "....."]
    case JumpLower =>
      ["####.",
       ".##.#",
       "#####",
       "#....",
       ".....",
       ".....",
       ".....",
       "....."]
    case Ground =>
      ["#####", "#####", "#####", "#####", "#####", "#####", "#####", "#####"]
    case GroundRight =>
      ["...##", "...##", "...##", "...##", "...##", "...##", "...##", "...##"]
    case GroundLeft =>
      ["##...", "##...", "##...", "##...", "##...", "##...", "##...", "##..."]
  }
}

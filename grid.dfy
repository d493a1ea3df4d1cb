/** The editor's character grid: one byte per cell, laid out row by row. */
module TextGrid {

  /** A grid cell: a C `char` taken as its 8-bit pattern. */
  newtype byte = x: int | 0 <= x < 256

  const NUL: byte := 0
  const NEWLINE: byte := 10
  const SPACE: byte := 32
  /** `(char) EOF`, the byte that the load loop stores for the end-of-file marker. */
  const EOF_BYTE: byte := 255

  /** A cell the row scan treats as empty: a space or a NUL. */
  predicate IsBlank(c: byte) {
    c == SPACE || c == NUL
  }

  function Min(a: int, b: int): int {
    if a < b then a else b
  }

  /** Row-major position of column `x` of row `y` in a grid `w` cells wide. */
  function Index(x: int, y: int, w: nat): int {
    y * w + x
  }

  lemma RowFits(y: int, w: nat, h: nat)
    requires 0 <= y < h
    ensures 0 <= y * w && y * w + w <= w * h
  {
    calc {
      y * w + w;
      == (y + 1) * w;
      <= { assert y + 1 <= h; MulMono(y + 1, h, w); }
      h * w;
    }
  }

  lemma MulMono(a: nat, b: nat, c: nat)
    requires a <= b
    ensures a * c <= b * c
  {
  }

  /** Every cell `(x, y)` of a `w` by `h` grid lies inside its `w * h` cells. */
  lemma IndexInGrid(x: int, y: int, w: nat, h: nat)
    requires 0 <= x < w && 0 <= y < h
    ensures 0 <= Index(x, y, w) < w * h
  {
    RowFits(y, w, h);
  }

  /** Row `y` of a `w` by `h` grid. */
  function Row(g: seq<byte>, w: nat, h: nat, y: int): (r: seq<byte>)
    requires |g| == w * h && 0 <= y < h
    ensures |r| == w
  {
    RowFits(y, w, h);
    g[y * w .. y * w + w]
  }

  /** Column `x` of row `y` is the grid cell at `Index(x, y, w)`. */
  lemma RowCell(g: seq<byte>, w: nat, h: nat, y: int, x: int)
    requires |g| == w * h && 0 <= y < h && 0 <= x < w
    ensures 0 <= Index(x, y, w) < |g| && Row(g, w, h, y)[x] == g[Index(x, y, w)]
  {
    RowFits(y, w, h);
  }

  /**
   * The column just past the last non-blank cell of a row (0 for an all-blank
   * row): everything from there on is blank, and the cell before it is not.
   */
  function RowEnd(row: seq<byte>): (k: nat)
    ensures k <= |row|
    ensures forall j :: k <= j < |row| ==> IsBlank(row[j])
    ensures k > 0 ==> !IsBlank(row[k - 1])
  {
    if row == [] then 0
    else if IsBlank(row[|row| - 1]) then RowEnd(row[..|row| - 1])
    else |row|
  }

  /** The three properties of `RowEnd` pick out a single column. */
  lemma RowEndUnique(row: seq<byte>, k: nat)
    requires k <= |row|
    requires forall j :: k <= j < |row| ==> IsBlank(row[j])
    requires k > 0 ==> !IsBlank(row[k - 1])
    ensures k == RowEnd(row)
  {
  }
}

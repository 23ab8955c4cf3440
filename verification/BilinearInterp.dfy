/** Two-dimensional table interpolation on 12.20 coordinates: `arm_bilinear_interp_q15` and `_q7`. */
module BilinearInterp {
  import opened FixedPoint
  import opened IntegerFacts
  import opened LinearInterp

  /** Element (x, y) is `data[x + y * numCols]`. */
  datatype Table<+T> = Table(numRows: nat, numCols: nat, data: seq<T>)

  /** The guard of the code, which compares the index along X, `rI`, with the number of rows. */
  predicate Accepted<T>(s: Table<T>, X: Q31, Y: Q31) {
    !(IndexOf(X) < 0 || IndexOf(X) > s.numRows - 1 || IndexOf(Y) < 0 || IndexOf(Y) > s.numCols - 1)
  }

  function CellIndex<T>(s: Table<T>, X: Q31, Y: Q31): int { IndexOf(X) + s.numCols * IndexOf(Y) }

  /** What a caller owes for an accepted point: the four cells the code reads exist. */
  predicate Readable<T>(s: Table<T>, X: Q31, Y: Q31) {
    Accepted(s, X, Y) ==> 0 <= CellIndex(s, X, Y) && CellIndex(s, X, Y) + s.numCols + 1 < |s.data|
  }

  /** The 1.15 sum: each first product is shifted by four before the second. */
  function Sum15(x1: int, x2: int, y1: int, y2: int, f: int, g: int): int {
    S32(x1 * (FULL - f) / 16) * (FULL - g) + S32(x2 * (FULL - g) / 16) * f
    + S32(y1 * (FULL - f) / 16) * g + S32(y2 * f / 16) * g
  }

  function Sum7(x1: int, x2: int, y1: int, y2: int, f: int, g: int): int {
    S32(x1 * (FULL - f)) * (FULL - g) + S32(x2 * (FULL - g)) * f
    + S32(y1 * (FULL - f)) * g + S32(y2 * g) * f
  }

  function BilinearQ15(s: Table<Q15>, X: Q31, Y: Q31): Q15
    requires Readable(s, X, Y)
  {
    if !Accepted(s, X, Y) then 0
    else
      var i, n := CellIndex(s, X, Y), s.numCols;
      S16(S64(Sum15(s.data[i], s.data[i + 1], s.data[i + n], s.data[i + n + 1], FractOf(X), FractOf(Y)))
          / 0x10_0000_0000)
  }

  function BilinearQ7(s: Table<Q7>, X: Q31, Y: Q31): Q7
    requires Readable(s, X, Y)
  {
    if !Accepted(s, X, Y) then 0
    else
      var i, n := CellIndex(s, X, Y), s.numCols;
      S8(S64(Sum7(s.data[i], s.data[i + 1], s.data[i + n], s.data[i + n + 1], FractOf(X), FractOf(Y)))
         / 0x100_0000_0000)
  }

  /** A full table, and a point with a table cell on each side in both directions. */
  predicate Interior<T>(s: Table<T>, X: Q31, Y: Q31) {
    && |s.data| == s.numRows * s.numCols
    && 0 <= X && 0 <= Y && X / STEP + 1 < s.numCols && Y / STEP + 1 < s.numRows
  }

  // The guard

  /** An interior point is interpolated exactly when its X index is also a row and its Y index also a column. */
  lemma InteriorAccepted<T>(s: Table<T>, X: Q31, Y: Q31)
    requires Interior(s, X, Y)
    ensures Accepted(s, X, Y) <==> X / STEP < s.numRows && Y / STEP < s.numCols
    ensures Readable(s, X, Y)
  {
    hide IndexOf;
    IndexIsFloor(X);
    IndexIsFloor(Y);
    CellsExist(s.numRows, s.numCols, X / STEP, Y / STEP);
  }

  lemma CellsExist(rows: int, cols: int, i: int, j: int)
    requires 0 <= i < cols - 1 && 0 <= j < rows - 1
    ensures 0 <= i + cols * j && i + cols * j + cols + 1 < rows * cols
  {
    MulLe(0, j, cols);
    MulLe(j + 2, rows, cols);
  }

  /** The guard lets all interior points through exactly when neither the largest X index, which 12.20 caps at
      2047, reaches the number of rows nor the largest Y index the number of columns: for tables of up to 2048
      points a side, when they are at most one longer in one direction than in the other. Otherwise there are
      interior points for which the result is zero whatever the table holds. */
  lemma GuardFitsInterior<T>(rows: nat, cols: nat, data: seq<T>)
    requires |data| == rows * cols
    ensures var s := Table(rows, cols, data);
            (forall X: Q31, Y: Q31 :: Interior(s, X, Y) ==> Accepted(s, X, Y))
            <==> rows < 2 || cols < 2 || (Min(cols - 2, 0x7FF) < rows && Min(rows - 2, 0x7FF) < cols)
  {
    var s := Table(rows, cols, data);
    forall X: Q31, Y: Q31 | Interior(s, X, Y)
      ensures Accepted(s, X, Y) <==> X / STEP < rows && Y / STEP < cols
    {
      InteriorAccepted(s, X, Y);
    }
    hide Accepted;
    if rows < 2 || cols < 2 {
    } else if Min(cols - 2, 0x7FF) >= rows {
      var X: Q31 := rows * STEP;
      assert X / STEP == rows && Interior(s, X, 0);
    } else if Min(rows - 2, 0x7FF) >= cols {
      var Y: Q31 := cols * STEP;
      assert Y / STEP == cols && Interior(s, 0, Y);
    }
  }

  lemma AcceptedIndex<T>(s: Table<T>, X: Q31, Y: Q31)
    ensures Accepted(s, X, Y) <==> 0 <= X / STEP < s.numRows && 0 <= Y / STEP < s.numCols
    ensures CellIndex(s, X, Y) == X / STEP + s.numCols * (Y / STEP)
  {
    hide IndexOf;
    IndexIsFloor(X);
    IndexIsFloor(Y);
  }

  /** The cell of the last accepted point is the last of the cells of accepted points. */
  lemma LastCell<T>(s: Table<T>, X: Q31, Y: Q31)
    requires Accepted(s, X, Y)
    ensures 0 <= CellIndex(s, X, Y)
    ensures CellIndex(s, X, Y) + s.numCols + 1 <= Min(s.numRows, 0x800) + s.numCols * Min(s.numCols, 0x800)
  {
    AcceptedIndex(s, X, Y);
    CellBound(s.numRows, s.numCols, X / STEP, Y / STEP);
    hide CellIndex, Accepted;
  }

  lemma CellBound(rows: int, cols: int, i: int, j: int)
    requires 0 <= i < rows && i < 0x800 && 0 <= j < cols && j < 0x800
    ensures 0 <= i + cols * j && i + cols * j + cols + 1 <= Min(rows, 0x800) + cols * Min(cols, 0x800)
  {
    MulLe(0, j, cols);
    MulLe(j + 1, Min(cols, 0x800), cols);
  }

  lemma LastAccepted<T>(s: Table<T>) returns (X: Q31, Y: Q31)
    requires 0 < s.numRows && 0 < s.numCols
    ensures Accepted(s, X, Y)
    ensures CellIndex(s, X, Y) + s.numCols + 1 == Min(s.numRows, 0x800) + s.numCols * Min(s.numCols, 0x800)
  {
    hide IndexOf, Accepted, CellIndex;
    var i, j := Min(s.numRows, 0x800) - 1, Min(s.numCols, 0x800) - 1;
    X, Y := i * STEP, j * STEP;
    AcceptedIndex(s, X, Y);
    assert X / STEP == i && Y / STEP == j;
    hide *;
    assert s.numCols * (j + 1) == s.numCols * j + s.numCols;
  }

  /** The guard keeps every read of the code inside a full table exactly when the cell of the last accepted point
      lies in it; in no square table of up to 2048 points a side does it. */
  lemma GuardKeepsInTable<T>(rows: nat, cols: nat, data: seq<T>)
    requires |data| == rows * cols
    ensures var s := Table(rows, cols, data);
            (forall X: Q31, Y: Q31 :: Readable(s, X, Y))
            <==> rows == 0 || cols == 0 || Min(rows, 0x800) + cols * Min(cols, 0x800) < rows * cols
  {
    var s := Table(rows, cols, data);
    forall X: Q31, Y: Q31
      ensures Accepted(s, X, Y) ==> 0 < rows && 0 < cols && 0 <= CellIndex(s, X, Y)
      ensures Accepted(s, X, Y) ==> CellIndex(s, X, Y) + cols + 1 <= Min(rows, 0x800) + cols * Min(cols, 0x800)
    {
      if Accepted(s, X, Y) {
        AcceptedIndex(s, X, Y);
        LastCell(s, X, Y);
      }
    }
    if 0 < rows && 0 < cols {
      var X, Y := LastAccepted(s);
      assert Readable(s, X, Y) <==> Min(rows, 0x800) + cols * Min(cols, 0x800) < rows * cols;
    }
    hide Accepted, CellIndex, Min;
  }

  // The weighted sums

  /** The exact weighted sum of four cells: blending twice. */
  function Blend2(x1: int, x2: int, y1: int, y2: int, f: int, g: int): int {
    Blend(Blend(x1, x2, f), Blend(y1, y2, f), g)
  }

  predicate Fraction(f: int) { 0 <= f <= FULL }

  lemma ProductFits(v: int, w: int, bound: int)
    requires -bound <= v < bound && Fraction(w) && 0 < bound
    ensures -bound * FULL <= v * w <= bound * FULL
  {
    MulLe(-bound, v, w);
    MulLe(v, bound, w);
    MulLe(w, FULL, bound);
    assert -bound * w == -(bound * w) && -bound * FULL == -(bound * FULL);
  }

  lemma Expand(x1: int, x2: int, y1: int, y2: int, f: int, g: int)
    ensures Blend2(x1, x2, y1, y2, f, g)
            == x1 * (FULL - f) * (FULL - g) + x2 * (FULL - g) * f + y1 * (FULL - f) * g + y2 * f * g
  {
    var a, b := FULL - f, FULL - g;
    assert (x1 * a + x2 * f) * b == x1 * a * b + x2 * b * f;
    assert (y1 * a + y2 * f) * g == y1 * a * g + y2 * f * g;
  }

  /** The 1.7 sum is exact. */
  lemma Sum7Exact(x1: Q7, x2: Q7, y1: Q7, y2: Q7, f: int, g: int)
    requires Fraction(f) && Fraction(g)
    ensures Sum7(x1, x2, y1, y2, f, g) == Blend2(x1, x2, y1, y2, f, g)
  {
    hide S32, Blend2;
    Expand(x1, x2, y1, y2, f, g);
    ProductFits(x1, FULL - f, 0x80);
    ProductFits(x2, FULL - g, 0x80);
    ProductFits(y1, FULL - f, 0x80);
    ProductFits(y2, g, 0x80);
    S32Congruent(x1 * (FULL - f), 0);
    S32Congruent(x2 * (FULL - g), 0);
    S32Congruent(y1 * (FULL - f), 0);
    S32Congruent(y2 * g, 0);
    assert y2 * g * f == y2 * f * g;
  }

  /** A first product shifted by four, then weighted: 16 times it falls short of the exact term by the lost
      remainder times the weight. */
  lemma ShiftedTerm(v: Q15, w: int, u: int)
    requires Fraction(w) && Fraction(u)
    ensures S32(v * w / 16) == v * w / 16
    ensures v * w * u - 16 * (S32(v * w / 16) * u) == v * w % 16 * u
    ensures 0 <= v * w % 16 * u <= 15 * u
  {
    ProductFits(v, w, 0x8000);
    var p := v * w;
    var q: int, r: int := p / 16, p % 16;
    S32Congruent(q, 0);
    hide S32;
    MulLe(0, r, u);
    MulLe(r, 15, u);
    assert p * u == 16 * (q * u) + r * u;
  }

  /** What the four shifts of the 1.15 sum lose: each remainder times its second weight. */
  function Lost(x1: int, x2: int, y1: int, y2: int, f: int, g: int): int {
    x1 * (FULL - f) % 16 * (FULL - g) + x2 * (FULL - g) % 16 * f
    + y1 * (FULL - f) % 16 * g + y2 * f % 16 * g
  }

  /** The 1.15 sum, scaled back, is the exact sum less what was lost. */
  lemma Sum15Exact(x1: Q15, x2: Q15, y1: Q15, y2: Q15, f: int, g: int)
    requires Fraction(f) && Fraction(g)
    ensures 16 * Sum15(x1, x2, y1, y2, f, g) == Blend2(x1, x2, y1, y2, f, g) - Lost(x1, x2, y1, y2, f, g)
    ensures 0 <= Lost(x1, x2, y1, y2, f, g) <= 45 * FULL
  {
    hide S32, Blend2;
    Expand(x1, x2, y1, y2, f, g);
    ShiftedTerm(x1, FULL - f, FULL - g);
    ShiftedTerm(x2, FULL - g, f);
    ShiftedTerm(y1, FULL - f, g);
    ShiftedTerm(y2, f, g);
  }

  function Min4(a: int, b: int, c: int, d: int): int { Min(Min(a, b), Min(c, d)) }

  function Max4(a: int, b: int, c: int, d: int): int { Max(Max(a, b), Max(c, d)) }

  lemma Blend2Between(x1: int, x2: int, y1: int, y2: int, f: int, g: int)
    requires Fraction(f) && Fraction(g)
    ensures Min4(x1, x2, y1, y2) * FULL * FULL <= Blend2(x1, x2, y1, y2, f, g) <= Max4(x1, x2, y1, y2) * FULL * FULL
  {
    var a, b := Blend(x1, x2, f), Blend(y1, y2, f);
    var lo, hi := Min4(x1, x2, y1, y2), Max4(x1, x2, y1, y2);
    BlendBetween(x1, x2, f);
    BlendBetween(y1, y2, f);
    assert lo * FULL <= a <= hi * FULL && lo * FULL <= b <= hi * FULL;
    BlendBetween(a, b, g);
    hide Blend;
  }

  /** Blending rounded values instead of exact ones loses less than one unit. */
  lemma TwoStepBlend(a: int, b: int, g: int)
    requires Fraction(g)
    ensures 0 <= Blend(a, b, g) / 0x100_0000_0000 - Blend(a / STEP, b / STEP, g) / STEP <= 1
  {
    var r, s := a % STEP, b % STEP;
    BlendSplit(a / STEP, b / STEP, r, s, g);
    BlendBetween(r, s, g);
    hide Blend;
    assert a == STEP * (a / STEP) + r && b == STEP * (b / STEP) + s;
  }

  lemma BlendSplit(p: int, q: int, r: int, s: int, g: int)
    ensures Blend(STEP * p + r, STEP * q + s, g) == STEP * Blend(p, q, g) + Blend(r, s, g)
  {
    assert (STEP * p + r) * (FULL - g) == STEP * (p * (FULL - g)) + r * (FULL - g);
    assert (STEP * q + s) * g == STEP * (q * g) + s * g;
  }

  // One-dimensional interpolation along X, then along Y

  predicate Full<T>(s: Table<T>) {
    1 <= s.numRows <= ONE31 && 1 <= s.numCols <= ONE31 && |s.data| == s.numRows * s.numCols
  }

  function Row<T>(s: Table<T>, j: nat): (row: seq<T>)
    requires Full(s) && j < s.numRows
    ensures |row| == s.numCols
  {
    RowFits(s.numRows, s.numCols, j);
    s.data[j * s.numCols..j * s.numCols + s.numCols]
  }

  lemma RowFits(rows: int, cols: int, j: int)
    requires 0 <= j < rows && 0 <= cols
    ensures 0 <= j * cols && j * cols + cols <= rows * cols
  {
    MulLe(0, j, cols);
    MulLe(j + 1, rows, cols);
  }

  function ColumnQ7(s: Table<Q7>, X: Q31): (column: seq<Q7>)
    requires Full(s)
    ensures |column| == s.numRows
  {
    seq(s.numRows, j requires 0 <= j < s.numRows => InterpQ7(Row(s, j), X))
  }

  function ColumnQ15(s: Table<Q15>, X: Q31): (column: seq<Q15>)
    requires Full(s)
    ensures |column| == s.numRows
  {
    seq(s.numRows, j requires 0 <= j < s.numRows => InterpQ15(Row(s, j), X))
  }

  /** The four cells from (X, Y) on, one column and one row further, exist. For a point in the last column the
      companions along X are the first cells of the next row. */
  predicate HasCells<T>(s: Table<T>, X: Q31, Y: Q31) {
    0 <= X && 0 <= Y && X / STEP + s.numCols * (Y / STEP) + s.numCols + 1 < |s.data|
  }

  function Cell<T>(s: Table<T>, X: Q31, Y: Q31, dx: nat, dy: nat): T
    requires HasCells(s, X, Y) && dx <= 1 && dy <= 1
  {
    CellInside(s.numCols, X / STEP, Y / STEP, dy);
    s.data[X / STEP + s.numCols * (Y / STEP) + s.numCols * dy + dx]
  }

  lemma CellInside(cols: nat, i: nat, j: nat, dy: nat)
    requires dy <= 1
    ensures 0 <= cols * j && 0 <= cols * dy <= cols
  {
    MulLe(0, j, cols);
  }

  lemma RowCell<T>(s: Table<T>, X: Q31, Y: Q31, dy: nat)
    requires Interior(s, X, Y) && HasCells(s, X, Y) && Full(s) && dy <= 1
    ensures Row(s, Y / STEP + dy)[X / STEP] == Cell(s, X, Y, 0, dy)
    ensures Row(s, Y / STEP + dy)[X / STEP + 1] == Cell(s, X, Y, 1, dy)
  {
    var i, j := X / STEP, Y / STEP;
    RowOffset(s.numCols, j, dy);
    RowFits(s.numRows, s.numCols, j + dy);
    var start := (j + dy) * s.numCols;
    assert Row(s, j + dy) == s.data[start..start + s.numCols];
  }

  lemma RowOffset(cols: int, j: int, dy: int)
    ensures (j + dy) * cols == cols * j + cols * dy
  {
  }

  /** The doubly blended value of the four cells around a point. */
  function Around(s: Table<int>, X: Q31, Y: Q31): int
    requires HasCells(s, X, Y)
  {
    Blend2(Cell(s, X, Y, 0, 0), Cell(s, X, Y, 1, 0), Cell(s, X, Y, 0, 1), Cell(s, X, Y, 1, 1), X % STEP, Y % STEP)
  }

  /** What the 1.15 version loses around a point. */
  function LostAround(s: Table<int>, X: Q31, Y: Q31): int
    requires HasCells(s, X, Y)
  {
    Lost(Cell(s, X, Y, 0, 0), Cell(s, X, Y, 1, 0), Cell(s, X, Y, 0, 1), Cell(s, X, Y, 1, 1), X % STEP, Y % STEP)
  }

  function Lowest(s: Table<int>, X: Q31, Y: Q31): int
    requires HasCells(s, X, Y)
  {
    Min4(Cell(s, X, Y, 0, 0), Cell(s, X, Y, 1, 0), Cell(s, X, Y, 0, 1), Cell(s, X, Y, 1, 1))
  }

  function Highest(s: Table<int>, X: Q31, Y: Q31): int
    requires HasCells(s, X, Y)
  {
    Max4(Cell(s, X, Y, 0, 0), Cell(s, X, Y, 1, 0), Cell(s, X, Y, 0, 1), Cell(s, X, Y, 1, 1))
  }

  /** Interpolating two row results along Y is blending two rounded values, at both widths. */
  lemma TwoStep(s: Table<int>, column: seq<int>, X: Q31, Y: Q31)
    requires Interior(s, X, Y) && HasCells(s, X, Y) && Full(s) && |column| == s.numRows
    requires column[Y / STEP] == Plain(Row(s, Y / STEP), X) && column[Y / STEP + 1] == Plain(Row(s, Y / STEP + 1), X)
    ensures 0 <= Around(s, X, Y) / 0x100_0000_0000 - Plain(column, Y) <= 1
  {
    hide Row, Cell, Blend;
    RowCell(s, X, Y, 0);
    RowCell(s, X, Y, 1);
    var f := X % STEP;
    TwoStepBlend(Blend(Cell(s, X, Y, 0, 0), Cell(s, X, Y, 1, 0), f), Blend(Cell(s, X, Y, 0, 1), Cell(s, X, Y, 1, 1), f),
                 Y % STEP);
  }

  // Main results

  /** The point the guard tests for, in plain terms. */
  predicate OnGrid<T>(s: Table<T>, X: Q31, Y: Q31) {
    0 <= X / STEP < s.numRows && 0 <= Y / STEP < s.numCols
  }

  lemma GridCells<T>(s: Table<T>, X: Q31, Y: Q31)
    requires Readable(s, X, Y)
    ensures Accepted(s, X, Y) <==> OnGrid(s, X, Y)
    ensures OnGrid(s, X, Y) ==> HasCells(s, X, Y) && CellIndex(s, X, Y) == X / STEP + s.numCols * (Y / STEP)
  {
    AcceptedIndex(s, X, Y);
    hide Accepted, CellIndex;
  }

  /** The 1.7 value of any point whose cells exist: zero off the grid, and on it the exact doubly blended value
      rounded down, which lies in [min - 1, max] of the four cells, so narrowing keeps it. */
  lemma Q7Value(s: Table<Q7>, X: Q31, Y: Q31)
    requires Readable(s, X, Y)
    ensures !OnGrid(s, X, Y) ==> BilinearQ7(s, X, Y) == 0
    ensures OnGrid(s, X, Y) ==> HasCells(s, X, Y)
    ensures OnGrid(s, X, Y) ==> BilinearQ7(s, X, Y) == Around(s, X, Y) / 0x100_0000_0000
    ensures OnGrid(s, X, Y) ==> Lowest(s, X, Y) - 1 <= BilinearQ7(s, X, Y) <= Highest(s, X, Y)
  {
    hide IndexOf, FractOf, S8, S64, Blend2, Sum7, Accepted, CellIndex, Min4, Max4;
    GridCells(s, X, Y);
    if OnGrid(s, X, Y) {
      IndexIsFloor(X);
      IndexIsFloor(Y);
      CellInside(s.numCols, X / STEP, Y / STEP, 1);
      var i, n := CellIndex(s, X, Y), s.numCols;
      var x1, x2, y1, y2 := s.data[i], s.data[i + 1], s.data[i + n], s.data[i + n + 1];
      var f, g := X % STEP, Y % STEP;
      Sum7Exact(x1, x2, y1, y2, f, g);
      Blend2Between(x1, x2, y1, y2, f, g);
      MinMax4(x1, x2, y1, y2, 0x80);
      Narrow7(Blend2(x1, x2, y1, y2, f, g), Min4(x1, x2, y1, y2), Max4(x1, x2, y1, y2));
    }
  }

  lemma MinMax4(a: int, b: int, c: int, d: int, bound: int)
    requires -bound <= a < bound && -bound <= b < bound && -bound <= c < bound && -bound <= d < bound
    ensures -bound <= Min4(a, b, c, d) <= Max4(a, b, c, d) < bound
  {
  }

  lemma Narrow7(z: int, lo: int, hi: int)
    requires -0x80 <= lo <= hi < 0x80 && lo * FULL * FULL <= z <= hi * FULL * FULL
    ensures lo - 1 <= z / 0x100_0000_0000 <= hi
    ensures S8(S64(z) / 0x100_0000_0000) == z / 0x100_0000_0000
  {
    assert S64(z) == z;
  }

  /** The 1.15 value likewise, where the four separate truncations lower the exact value by what they lose: it is
      the exact value rounded down, or one less exactly when the loss exceeds the part rounded off. */
  lemma Q15Value(s: Table<Q15>, X: Q31, Y: Q31)
    requires Readable(s, X, Y)
    ensures !OnGrid(s, X, Y) ==> BilinearQ15(s, X, Y) == 0
    ensures OnGrid(s, X, Y) ==> HasCells(s, X, Y)
    ensures OnGrid(s, X, Y) ==>
      && BilinearQ15(s, X, Y) == (Around(s, X, Y) - LostAround(s, X, Y)) / 0x100_0000_0000
      && BilinearQ15(s, X, Y) == Around(s, X, Y) / 0x100_0000_0000
                                 - (if LostAround(s, X, Y) > Around(s, X, Y) % 0x100_0000_0000 then 1 else 0)
      && 0 <= LostAround(s, X, Y) <= 45 * FULL
    ensures OnGrid(s, X, Y) ==> Lowest(s, X, Y) - 1 <= BilinearQ15(s, X, Y) <= Highest(s, X, Y)
  {
    hide IndexOf, FractOf, S16, S64, Blend2, Lost, Sum15, Accepted, CellIndex, Min4, Max4;
    GridCells(s, X, Y);
    if OnGrid(s, X, Y) {
      IndexIsFloor(X);
      IndexIsFloor(Y);
      CellInside(s.numCols, X / STEP, Y / STEP, 1);
      var i, n := CellIndex(s, X, Y), s.numCols;
      var x1, x2, y1, y2 := s.data[i], s.data[i + 1], s.data[i + n], s.data[i + n + 1];
      var f, g := X % STEP, Y % STEP;
      Sum15Exact(x1, x2, y1, y2, f, g);
      Blend2Between(x1, x2, y1, y2, f, g);
      MinMax4(x1, x2, y1, y2, 0x8000);
      Narrow15(Blend2(x1, x2, y1, y2, f, g), Lost(x1, x2, y1, y2, f, g), Sum15(x1, x2, y1, y2, f, g),
               Min4(x1, x2, y1, y2), Max4(x1, x2, y1, y2));
    }
  }

  lemma Narrow15(z: int, lost: int, sum: int, lo: int, hi: int)
    requires -0x8000 <= lo <= hi < 0x8000 && lo * FULL * FULL <= z <= hi * FULL * FULL
    requires 16 * sum == z - lost && 0 <= lost <= 45 * FULL
    ensures sum / 0x10_0000_0000 == (z - lost) / 0x100_0000_0000
    ensures sum / 0x10_0000_0000 == z / 0x100_0000_0000 - (if lost > z % 0x100_0000_0000 then 1 else 0)
    ensures lo - 1 <= sum / 0x10_0000_0000 <= hi
    ensures S16(S64(sum) / 0x10_0000_0000) == sum / 0x10_0000_0000
  {
    assert S64(sum) == sum;
  }

  /** Nothing else is subtracted: a table of zeros is interpolated to zero everywhere. */
  lemma ZeroTable(s: Table<Q15>, X: Q31, Y: Q31)
    requires Readable(s, X, Y) && forall k :: 0 <= k < |s.data| ==> s.data[k] == 0
    ensures BilinearQ15(s, X, Y) == 0
  {
    hide BilinearQ15, Readable, Blend2, Lost;
    Q15Value(s, X, Y);
    if OnGrid(s, X, Y) {
      CellInside(s.numCols, X / STEP, Y / STEP, 1);
      ZeroCells(X % STEP, Y % STEP);
    }
  }

  lemma ZeroCells(f: int, g: int)
    ensures Blend2(0, 0, 0, 0, f, g) == 0 && Lost(0, 0, 0, 0, f, g) == 0
  {
  }

  /** The documentation calls bilinear interpolation equivalent to two linear steps, along X and then along Y.
      For every accepted interior point the 1.7 results differ by 0 or 1 unit, the bilinear one being higher. */
  lemma Q7IsTwoStep(s: Table<Q7>, X: Q31, Y: Q31)
    requires Interior(s, X, Y) && Accepted(s, X, Y) && Full(s)
    ensures Readable(s, X, Y)
    ensures 0 <= BilinearQ7(s, X, Y) - InterpQ7(ColumnQ7(s, X), Y) <= 1
  {
    hide BilinearQ7, InterpQ7, Cell, Around, Plain, Accepted;
    InteriorAccepted(s, X, Y);
    Q7Value(s, X, Y);
    var j := Y / STEP;
    Q7IsPlain(Row(s, j), X);
    Q7IsPlain(Row(s, j + 1), X);
    Q7IsPlain(ColumnQ7(s, X), Y);
    TwoStep(s, ColumnQ7(s, X), X, Y);
  }

  /** The 1.15 results differ by at most 1 unit either way. */
  lemma Q15IsTwoStep(s: Table<Q15>, X: Q31, Y: Q31)
    requires Interior(s, X, Y) && Accepted(s, X, Y) && Full(s)
    ensures Readable(s, X, Y)
    ensures -1 <= BilinearQ15(s, X, Y) - InterpQ15(ColumnQ15(s, X), Y) <= 1
  {
    hide BilinearQ15, InterpQ15, Cell, Around, Plain, Accepted;
    InteriorAccepted(s, X, Y);
    Q15Value(s, X, Y);
    var j := Y / STEP;
    Q15IsPlain(Row(s, j), X);
    Q15IsPlain(Row(s, j + 1), X);
    Q15IsPlain(ColumnQ15(s, X), Y);
    TwoStep(s, ColumnQ15(s, X), X, Y);
  }
}

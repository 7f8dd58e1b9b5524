/** Placement of a version-1 QR symbol: the function-pattern map, the
    two-column zig-zag order in which data modules are placed, the data bits
    exclusive-or the mask, the format bits, and the timing, finder and dark
    modules. A matrix is a 21 x 21 grid of 0/1 modules, row first. */
module QrCode {
  import opened Outcomes
  import opened Field
  import opened Bits

  /** `SIZE`: a version-1 symbol is 21 modules on a side. */
  const Size: int := 21

  /** `MASK_INDEX`: the mask pattern the symbol uses. */
  const MaskIndex: nat := 3

  type Matrix = seq<seq<int>>

  /** A module position (row, column). */
  type Cell = (int, int)

  predicate IsGrid(m: Matrix)
  {
    |m| == Size && forall r :: 0 <= r < Size ==> |m[r]| == Size
  }

  predicate InGrid(r: int, c: int)
  {
    0 <= r < Size && 0 <= c < Size
  }

  /** A freshly constructed matrix: every module 0. */
  function Blank(): (m: Matrix)
    ensures IsGrid(m)
    ensures forall r, c :: InGrid(r, c) ==> m[r][c] == 0
  {
    seq(Size, _ => seq(Size, _ => 0))
  }

  /** `matrix[r][c] = v`. */
  function Set(m: Matrix, r: int, c: int, v: int): (m': Matrix)
    requires IsGrid(m) && InGrid(r, c)
    ensures IsGrid(m')
    ensures forall i, j :: InGrid(i, j) ==> m'[i][j] == if i == r && j == c then v else m[i][j]
  {
    m[r := m[r][c := v]]
  }

  // mask_fn

  /** C++ `/` on `int`: the quotient rounded toward zero. */
  function Quot(a: int, b: int): int
    requires b > 0
  {
    if a >= 0 then a / b else -((-a) / b)
  }

  /** C++ `%` on `int`: the remainder takes the sign of the dividend. */
  function Rem(a: int, b: int): int
    requires b > 0
  {
    a - b * Quot(a, b)
  }

  /** The eight mask conditions of `mask_fn`, by index, with the truncating
      arithmetic of C++; any other index masks nothing. */
  function MaskCondition(index: int, row: int, column: int): bool
  {
    if index == 0 then Rem(row + column, 2) == 0
    else if index == 1 then Rem(row, 2) == 0
    else if index == 2 then Rem(column, 3) == 0
    else if index == 3 then Rem(row + column, 3) == 0
    else if index == 4 then Rem(Quot(row, 2) + Quot(column, 3), 2) == 0
    else if index == 5 then Rem(row * column, 2) + Rem(row * column, 3) == 0
    else if index == 6 then Rem(Rem(row * column, 2) + Rem(row * column, 3), 2) == 0
    else if index == 7 then Rem(Rem(row + column, 2) + Rem(row * column, 3), 2) == 0
    else false
  }

  /** `mask_fn`: the condition of the symbol's mask. */
  function MaskFn(row: int, column: int): bool
  {
    MaskCondition(MaskIndex, row, column)
  }

  /** The mask conditions as section 7.8.2 of ISO/IEC 18004:2015 writes them,
      with i the row and j the column. */
  function StandardMask(index: int, i: nat, j: nat): bool
  {
    if index == 0 then (i + j) % 2 == 0
    else if index == 1 then i % 2 == 0
    else if index == 2 then j % 3 == 0
    else if index == 3 then (i + j) % 3 == 0
    else if index == 4 then (i / 2 + j / 3) % 2 == 0
    else if index == 5 then (i * j) % 2 + (i * j) % 3 == 0
    else if index == 6 then ((i * j) % 2 + (i * j) % 3) % 2 == 0
    else if index == 7 then ((i + j) % 2 + (i * j) % 3) % 2 == 0
    else false
  }

  lemma QuotRemNonNegative(a: int, b: int)
    requires a >= 0 && b > 0
    ensures Quot(a, b) == a / b && Rem(a, b) == a % b
  {
  }

  /** On the grid (all coordinates non-negative) every mask condition of
      `mask_fn` is the standard's. */
  lemma MaskConditionsStandard(index: int, row: nat, column: nat)
    ensures MaskCondition(index, row, column) == StandardMask(index, row, column)
  {
    if index == 0 {
      QuotRemNonNegative(row + column, 2);
    } else if index == 1 {
      QuotRemNonNegative(row, 2);
    } else if index == 2 {
      QuotRemNonNegative(column, 3);
    } else if index == 3 {
      QuotRemNonNegative(row + column, 3);
    } else if index == 4 {
      QuotRemNonNegative(row, 2);
      QuotRemNonNegative(column, 3);
      QuotRemNonNegative(row / 2 + column / 3, 2);
    } else if index == 5 || index == 6 {
      ProductMasks(row * column);
    } else if index == 7 {
      var p := row * column;
      QuotRemNonNegative(row + column, 2);
      QuotRemNonNegative(p, 3);
      QuotRemNonNegative((row + column) % 2 + p % 3, 2);
    }
  }

  lemma ProductMasks(p: nat)
    ensures Rem(p, 2) + Rem(p, 3) == p % 2 + p % 3
    ensures Rem(Rem(p, 2) + Rem(p, 3), 2) == (p % 2 + p % 3) % 2
  {
    QuotRemNonNegative(p, 2);
    QuotRemNonNegative(p, 3);
    QuotRemNonNegative(p % 2 + p % 3, 2);
  }

  /** A truncated remainder is zero exactly when the Euclidean one is. */
  lemma RemZero(a: int, b: int)
    requires b > 0
    ensures Rem(a, b) == 0 <==> a % b == 0
  {
    if a < 0 {
      assert Rem(a, b) == -((-a) % b);
      NegateMultiple(a, b);
      NegateMultiple(-a, b);
    }
  }

  lemma NegateMultiple(a: int, b: int)
    requires b > 0
    ensures a % b == 0 ==> (-a) % b == 0
  {
    if a % b == 0 {
      assert a == b * (a / b);
      ModUnique(-a, b, -(a / b), 0);
    }
  }

  /** With mask 3 a module is masked exactly when its row plus its column is
      a multiple of 3, for every pair of coordinates. */
  lemma MaskFnDiagonal(row: int, column: int)
    ensures MaskFn(row, column) <==> (row + column) % 3 == 0
  {
    RemZero(row + column, 3);
  }

  /** Hence the mask is symmetric and repeats every three rows. */
  lemma MaskFnPeriodic(row: int, column: int)
    ensures MaskFn(row, column) == MaskFn(column, row)
    ensures MaskFn(row + 3, column) == MaskFn(row, column)
  {
    MaskFnDiagonal(row, column);
    MaskFnDiagonal(column, row);
    MaskFnDiagonal(row + 3, column);
  }

  // fill_area, fill_service_info

  /** The loop of `fill_area` from row i on: each row's columns
      column .. column + width - 1 overwritten with `fill`. */
  function FillRows(m: Matrix, column: int, width: int, fill: int, i: int, end: int): (r: Matrix)
    requires IsGrid(m) && 0 <= i && end <= Size && 0 <= column && 0 <= width && column + width <= Size
    ensures IsGrid(r)
    decreases end - i
  {
    if i >= end then m
    else FillRows(m[i := m[i][..column] + seq(width, _ => fill) + m[i][column + width..]], column, width, fill, i + 1, end)
  }

  /** `fill_area`: the rectangle of `height` rows from `row` and `width`
      columns from `column` set to `fill`. The source writes with `memcpy`
      and checks no bound, so the rectangle must lie inside the matrix; a
      non-positive height writes nothing. */
  function FillArea(m: Matrix, row: int, column: int, width: int, height: int, fill: int): (r: Matrix)
    requires IsGrid(m) && 0 <= row && 0 <= column && 0 <= width && column + width <= Size && row + height <= Size
    ensures IsGrid(r)
  {
    FillRows(m, column, width, fill, row, row + height)
  }

  lemma {:induction false} FillRowsCells(m: Matrix, column: int, width: int, fill: int, i: int, end: int)
    requires IsGrid(m) && 0 <= i && end <= Size && 0 <= column && 0 <= width && column + width <= Size
    ensures forall r, c :: InGrid(r, c) ==>
      FillRows(m, column, width, fill, i, end)[r][c]
      == if i <= r < end && column <= c < column + width then fill else m[r][c]
    decreases end - i
  {
    if i < end {
      var row := m[i][..column] + seq(width, _ => fill) + m[i][column + width..];
      SpliceCells(m[i], column, width, fill);
      FillRowsCells(m[i := row], column, width, fill, i + 1, end);
    }
  }

  lemma SpliceCells(row: seq<int>, column: int, width: int, fill: int)
    requires 0 <= column && 0 <= width && column + width <= |row|
    ensures forall c :: 0 <= c < |row| ==>
      (row[..column] + seq(width, _ => fill) + row[column + width..])[c]
      == if column <= c < column + width then fill else row[c]
  {
  }

  /** `fill_area` sets exactly the cells of its rectangle and leaves every
      other cell as it was. */
  lemma FillAreaCells(m: Matrix, row: int, column: int, width: int, height: int, fill: int)
    requires IsGrid(m) && 0 <= row && 0 <= column && 0 <= width && column + width <= Size && row + height <= Size
    ensures forall r, c :: InGrid(r, c) ==>
      FillArea(m, row, column, width, height, fill)[r][c]
      == if row <= r < row + height && column <= c < column + width then fill else m[r][c]
  {
    FillRowsCells(m, column, width, fill, row, row + height);
  }

  /** `fill_service_info`: the three finder corners with their separators
      and format areas, and the two timing strips between them, marked 1;
      the dark module (13, 8) lies inside the bottom-left corner already. */
  function FillServiceInfo(m: Matrix): (r: Matrix)
    requires IsGrid(m)
    ensures IsGrid(r)
  {
    var m1 := FillArea(m, 0, 0, 9, 9, 1);
    var m2 := FillArea(m1, 0, Size - 8, 8, 9, 1);
    var m3 := FillArea(m2, Size - 8, 0, 9, 8, 1);
    var m4 := FillArea(m3, 6, 9, 4, 1, 1);
    var m5 := FillArea(m4, 9, 6, 1, 4, 1);
    Set(m5, Size - 8, 8, 1)
  }

  /** The modules reserved for function patterns and format information. */
  predicate ServiceCell(r: int, c: int)
  {
    (0 <= r <= 8 && 0 <= c <= 8)
    || (0 <= r <= 8 && 13 <= c <= 20)
    || (13 <= r <= 20 && 0 <= c <= 8)
    || (r == 6 && 9 <= c <= 12)
    || (c == 6 && 9 <= r <= 12)
  }

  /** `fill_service_info` marks the service regions and nothing else. */
  lemma ServiceInfoCells(m: Matrix)
    requires IsGrid(m)
    ensures forall r, c :: InGrid(r, c) ==>
      FillServiceInfo(m)[r][c] == if ServiceCell(r, c) then 1 else m[r][c]
  {
    hide FillArea;
    var m1 := FillArea(m, 0, 0, 9, 9, 1);
    var m2 := FillArea(m1, 0, Size - 8, 8, 9, 1);
    var m3 := FillArea(m2, Size - 8, 0, 9, 8, 1);
    var m4 := FillArea(m3, 6, 9, 4, 1, 1);
    FillAreaCells(m, 0, 0, 9, 9, 1);
    FillAreaCells(m1, 0, Size - 8, 8, 9, 1);
    FillAreaCells(m2, Size - 8, 0, 9, 8, 1);
    FillAreaCells(m3, 6, 9, 4, 1, 1);
    FillAreaCells(m4, 9, 6, 1, 4, 1);
  }

  /** The service map `generate_module_sequence` consults. */
  function ServiceMap(): (m: Matrix)
    ensures IsGrid(m)
  {
    FillServiceInfo(Blank())
  }

  lemma ServiceMapCells()
    ensures forall r, c :: InGrid(r, c) ==> (ServiceMap()[r][c] == 0 <==> !ServiceCell(r, c))
  {
    ServiceInfoCells(Blank());
  }

  // generate_module_sequence

  /** The column arithmetic of one pass through the loop of
      `generate_module_sequence`: on an even step move left; on an odd step
      move one row along the current direction and back right, or, past the
      top or bottom edge, reverse the direction and move to the next column
      pair, stepping over the vertical timing column 6. */
  function Move(row: int, column: int, rowStep: int, index: nat): (int, int, int)
  {
    if index % 2 == 1 then
      var r := row + rowStep;
      if r == -1 || r == Size then (r - rowStep, column - (if column == 7 then 2 else 1), -rowStep)
      else (r, column + 1, rowStep)
    else (row, column - 1, rowStep)
  }

  /** What the loop needs to index the matrix. */
  predicate WalkBounds(row: int, column: int, rowStep: int, index: nat)
  {
    0 <= row < Size && (rowStep == 1 || rowStep == -1) && column < Size
    && (index % 2 == 1 ==> column < Size - 1)
  }

  /** A bound on the passes left: the right column of the current pair,
      then the rows left in the current direction, then the side. */
  function Progress(row: int, column: int, rowStep: int, index: nat): nat
    requires WalkBounds(row, column, rowStep, index)
  {
    if column < 0 then 0
    else
      var pair := if index % 2 == 0 then column else column + 1;
      var rowsLeft := if rowStep == -1 then row else Size - 1 - row;
      pair * 100 + 2 * rowsLeft + (if index % 2 == 0 then 1 else 0) + 1
  }

  lemma MoveBounds(row: int, column: int, rowStep: int, index: nat)
    requires WalkBounds(row, column, rowStep, index) && column >= 0
    ensures var (r, c, s) := Move(row, column, rowStep, index);
      WalkBounds(r, c, s, index + 1) && Progress(r, c, s, index + 1) < Progress(row, column, rowStep, index)
  {
  }

  /** The loop of `generate_module_sequence` from one state on: the cells it
      visits whose mark is 0, in visiting order. */
  function Walk(marks: Matrix, row: int, column: int, rowStep: int, index: nat): seq<Cell>
    requires IsGrid(marks) && WalkBounds(row, column, rowStep, index)
    decreases Progress(row, column, rowStep, index)
  {
    if column < 0 then []
    else
      MoveBounds(row, column, rowStep, index);
      var (r, c, s) := Move(row, column, rowStep, index);
      (if marks[row][column] == 0 then [(row, column)] else []) + Walk(marks, r, c, s, index + 1)
  }

  /** `generate_module_sequence`: from the bottom-right corner, upward, over
      the modules the service map leaves free. */
  function ModuleSequence(): (q: seq<Cell>)
    ensures DataCells(q)
  {
    CornerWalkCells();
    Walk(ServiceMap(), Size - 1, Size - 1, -1, 0)
  }

  /** A placement order: distinct cells on the grid, none in a service
      region and none in the timing column 6. */
  predicate DataCells(q: seq<Cell>)
  {
    OnGrid(q) && Distinct(q)
    && forall k :: 0 <= k < |q| ==> !ServiceCell(q[k].0, q[k].1) && q[k].1 != 6
  }

  /** Every cell the walk emits is on the grid and free in its map. */
  lemma {:induction false} WalkCellsFree(marks: Matrix, row: int, column: int, rowStep: int, index: nat)
    requires IsGrid(marks) && WalkBounds(row, column, rowStep, index)
    ensures forall k :: 0 <= k < |Walk(marks, row, column, rowStep, index)| ==>
      var cell := Walk(marks, row, column, rowStep, index)[k];
      InGrid(cell.0, cell.1) && marks[cell.0][cell.1] == 0
    decreases Progress(row, column, rowStep, index)
  {
    if column >= 0 {
      MoveBounds(row, column, rowStep, index);
      var (r, c, s) := Move(row, column, rowStep, index);
      WalkCellsFree(marks, r, c, s, index + 1);
    }
  }

  /** The right-hand columns of the ten column pairs, 6 skipped. */
  predicate RightColumn(c: int)
  {
    (8 <= c <= 20 && c % 2 == 0) || c == 1 || c == 3 || c == 5
  }

  /** The left-hand columns of the ten column pairs, 6 skipped. */
  predicate LeftColumn(c: int)
  {
    (7 <= c <= 19 && c % 2 == 1) || c == 0 || c == 2 || c == 4
  }

  /** The right-hand column of the pair that column c belongs to. */
  function PairOf(c: int): int
  {
    if RightColumn(c) then c else c + 1
  }

  /** Pairs are numbered 0 .. 9 from the right edge. */
  function PairIndex(p: int): int
  {
    if p >= 8 then (20 - p) / 2 else 7 + (5 - p) / 2
  }

  /** Even-numbered pairs are walked upward, odd-numbered ones downward. */
  function Direction(p: int): int
  {
    if PairIndex(p) % 2 == 0 then -1 else 1
  }

  /** The position of a cell in the zig-zag order, counting down: pair by
      pair from the right, row by row along the pair's direction, the right
      column of each row before the left one. */
  function Rank(cell: Cell): int
  {
    var p := PairOf(cell.1);
    var rowsLeft := if Direction(p) == -1 then cell.0 else Size - 1 - cell.0;
    (9 - PairIndex(p)) * 100 + 2 * rowsLeft + (if RightColumn(cell.1) then 1 else 0)
  }

  /** The walk's states: even steps stand in a right-hand column, odd ones
      in a left-hand column, and the direction is that of the pair. */
  predicate WalkOrder(row: int, column: int, rowStep: int, index: nat)
  {
    WalkBounds(row, column, rowStep, index)
    && (column >= 0 ==>
          (if index % 2 == 0 then RightColumn(column) else LeftColumn(column))
          && rowStep == Direction(PairOf(column)))
  }

  lemma MoveOrder(row: int, column: int, rowStep: int, index: nat)
    requires WalkOrder(row, column, rowStep, index) && column >= 0
    ensures var (r, c, s) := Move(row, column, rowStep, index);
      WalkOrder(r, c, s, index + 1) && (c >= 0 ==> Rank((r, c)) < Rank((row, column)))
  {
    if index % 2 == 0 {
      StepLeft(row, column);
    } else if row + rowStep == -1 || row + rowStep == Size {
      NextPair(row, column, rowStep);
    } else {
      StepAlong(row, column, rowStep);
    }
  }

  /** An even step: from the right column to the left one of the same row. */
  lemma StepLeft(row: int, column: int)
    requires 0 <= row < Size && RightColumn(column) && column >= 0
    ensures LeftColumn(column - 1) && PairOf(column - 1) == PairOf(column)
    ensures Rank((row, column - 1)) < Rank((row, column))
  {
  }

  /** An odd step inside the grid: one row on, back to the right column. */
  lemma StepAlong(row: int, column: int, rowStep: int)
    requires 0 <= row < Size && LeftColumn(column) && rowStep == Direction(PairOf(column))
    requires 0 <= row + rowStep < Size
    ensures RightColumn(column + 1) && PairOf(column + 1) == PairOf(column)
    ensures Rank((row + rowStep, column + 1)) < Rank((row, column))
  {
  }

  /** An odd step past the edge: the next pair, walked the other way. */
  lemma NextPair(row: int, column: int, rowStep: int)
    requires 0 <= row < Size && LeftColumn(column) && rowStep == Direction(PairOf(column))
    requires row + rowStep == -1 || row + rowStep == Size
    ensures var c := column - (if column == 7 then 2 else 1);
      c >= 0 ==> RightColumn(c) && -rowStep == Direction(PairOf(c)) && Rank((row, c)) < Rank((row, column))
  {
    var c := column - (if column == 7 then 2 else 1);
    if c >= 0 {
      assert PairIndex(PairOf(c)) == PairIndex(PairOf(column)) + 1;
    }
  }

  /** One pass of the loop, from a state with column >= 0. */
  lemma WalkUnfold(marks: Matrix, row: int, column: int, rowStep: int, index: nat)
    requires IsGrid(marks) && WalkBounds(row, column, rowStep, index) && column >= 0
    ensures var (r, c, s) := Move(row, column, rowStep, index);
      WalkBounds(r, c, s, index + 1)
      && Walk(marks, row, column, rowStep, index)
         == (if marks[row][column] == 0 then [(row, column)] else []) + Walk(marks, r, c, s, index + 1)
      && Progress(r, c, s, index + 1) < Progress(row, column, rowStep, index)
      && (c < 0 ==> Walk(marks, r, c, s, index + 1) == [])
  {
    MoveBounds(row, column, rowStep, index);
  }

  /** Cells in the pairs' columns, none ranked above `bound`. */
  predicate RanksBounded(w: seq<Cell>, bound: int)
  {
    forall k :: 0 <= k < |w| ==> (RightColumn(w[k].1) || LeftColumn(w[k].1)) && Rank(w[k]) <= bound
  }

  predicate RanksDecrease(w: seq<Cell>)
  {
    forall a, b :: 0 <= a < b < |w| ==> Rank(w[a]) > Rank(w[b])
  }

  /** The cells the walk emits stand in the pairs' columns, and none ranks
      above the state the walk starts from. */
  lemma {:induction false} WalkBounded(marks: Matrix, row: int, column: int, rowStep: int, index: nat)
    requires IsGrid(marks) && WalkOrder(row, column, rowStep, index)
    ensures RanksBounded(Walk(marks, row, column, rowStep, index), Rank((row, column)))
    decreases Progress(row, column, rowStep, index)
  {
    if column >= 0 {
      hide Walk, Move, Rank;
      WalkUnfold(marks, row, column, rowStep, index);
      MoveOrder(row, column, rowStep, index);
      var (r, c, s) := Move(row, column, rowStep, index);
      WalkBounded(marks, r, c, s, index + 1);
      var rest := Walk(marks, r, c, s, index + 1);
      var here: seq<Cell> := if marks[row][column] == 0 then [(row, column)] else [];
      var w := here + rest;
      assert RightColumn(column) || LeftColumn(column);
      assert forall k :: 0 <= k < |w| ==> w[k] == if k < |here| then (row, column) else rest[k - |here|];
    }
  }

  /** The ranks of the emitted cells strictly decrease along the sequence. */
  lemma {:induction false} WalkRanked(marks: Matrix, row: int, column: int, rowStep: int, index: nat)
    requires IsGrid(marks) && WalkOrder(row, column, rowStep, index)
    ensures RanksDecrease(Walk(marks, row, column, rowStep, index))
    decreases Progress(row, column, rowStep, index)
  {
    if column >= 0 {
      hide Walk, Move, Rank;
      WalkUnfold(marks, row, column, rowStep, index);
      MoveOrder(row, column, rowStep, index);
      var (r, c, s) := Move(row, column, rowStep, index);
      WalkRanked(marks, r, c, s, index + 1);
      WalkBounded(marks, r, c, s, index + 1);
      var rest := Walk(marks, r, c, s, index + 1);
      var here: seq<Cell> := if marks[row][column] == 0 then [(row, column)] else [];
      var w := here + rest;
      forall a, b | 0 <= a < b < |w|
        ensures Rank(w[a]) > Rank(w[b])
      {
        assert w[b] == rest[b - |here|];
        if a < |here| {
          assert w[a] == (row, column);
        } else {
          assert w[a] == rest[a - |here|];
        }
      }
    }
  }

  /** `generate_module_sequence` never emits a cell twice and never a cell
      of the timing column 6; every cell it emits is on the grid and outside
      the service regions. */
  lemma CornerWalkCells()
    ensures DataCells(Walk(ServiceMap(), Size - 1, Size - 1, -1, 0))
  {
    hide ServiceMap, ServiceCell, Walk;
    var marks := ServiceMap();
    var q := Walk(marks, Size - 1, Size - 1, -1, 0);
    assert WalkOrder(Size - 1, Size - 1, -1, 0);
    WalkCellsFree(marks, Size - 1, Size - 1, -1, 0);
    WalkBounded(marks, Size - 1, Size - 1, -1, 0);
    WalkRanked(marks, Size - 1, Size - 1, -1, 0);
    ServiceMapCells();
    assert forall k :: 0 <= k < |q| ==> InGrid(q[k].0, q[k].1) && marks[q[k].0][q[k].1] == 0;
    assert forall a, b :: 0 <= a < b < |q| ==> Rank(q[a]) > Rank(q[b]);
    assert OnGrid(q) && Distinct(q);
    assert forall k :: 0 <= k < |q| ==> !ServiceCell(q[k].0, q[k].1) && q[k].1 != 6;
  }

  // fill_matrix_by_message

  /** The bit carried by the k-th module: `std::bitset<8>` keeps the low
      eight bits of the codeword (its two's complement bits when negative),
      read most significant first. */
  function ModuleBit(message: seq<int>, k: nat): bool
    requires k / 8 < |message|
  {
    Bit(message[k / 8] % 256, 7 - k % 8)
  }

  /** The module written at the k-th position of the sequence: the bit,
      exclusive-or the mask at that cell. */
  function ModuleValue(message: seq<int>, k: nat, cell: Cell): int
    requires k / 8 < |message|
  {
    if ModuleBit(message, k) != MaskFn(cell.0, cell.1) then 1 else 0
  }

  predicate OnGrid(sequence: seq<Cell>)
  {
    forall k :: 0 <= k < |sequence| ==> InGrid(sequence[k].0, sequence[k].1)
  }

  predicate Distinct(sequence: seq<Cell>)
  {
    forall a, b :: 0 <= a < b < |sequence| ==> sequence[a] != sequence[b]
  }

  /** The loop of `fill_matrix_by_message` from position `index` on. */
  function FillFrom(qr: Matrix, message: seq<int>, sequence: seq<Cell>, index: nat): (r: Matrix)
    requires IsGrid(qr) && OnGrid(sequence) && index <= |sequence| <= 8 * |message|
    ensures IsGrid(r)
    decreases |sequence| - index
  {
    if index == |sequence| then qr
    else
      var cell := sequence[index];
      FillFrom(Set(qr, cell.0, cell.1, ModuleValue(message, index, cell)), message, sequence, index + 1)
  }

  /** `fill_matrix_by_message`: the source reads `message[index / 8]`
      unchecked, so the message must hold a bit for every cell. */
  function FillMatrixByMessage(qr: Matrix, message: seq<int>, sequence: seq<Cell>): (r: Matrix)
    requires IsGrid(qr) && OnGrid(sequence) && |sequence| <= 8 * |message|
    ensures IsGrid(r)
  {
    FillFrom(qr, message, sequence, 0)
  }

  lemma DistinctAt(sequence: seq<Cell>, a: int, b: int)
    requires Distinct(sequence) && 0 <= a < b < |sequence|
    ensures sequence[a] != sequence[b]
  {
  }

  lemma FillFromUnfold(qr: Matrix, message: seq<int>, sequence: seq<Cell>, index: nat)
    requires IsGrid(qr) && OnGrid(sequence) && index < |sequence| <= 8 * |message|
    ensures var cell := sequence[index];
      FillFrom(qr, message, sequence, index)
      == FillFrom(Set(qr, cell.0, cell.1, ModuleValue(message, index, cell)), message, sequence, index + 1)
  {
  }

  lemma FillFromEnd(qr: Matrix, message: seq<int>, sequence: seq<Cell>)
    requires IsGrid(qr) && OnGrid(sequence) && |sequence| <= 8 * |message|
    ensures FillFrom(qr, message, sequence, |sequence|) == qr
  {
  }

  /** Cells off the rest of the sequence keep their value. */
  lemma {:induction false} FillFromKeeps(qr: Matrix, message: seq<int>, sequence: seq<Cell>, index: nat)
    requires IsGrid(qr) && OnGrid(sequence) && index <= |sequence| <= 8 * |message|
    ensures forall i, j :: InGrid(i, j) && (i, j) !in sequence[index..] ==>
      FillFrom(qr, message, sequence, index)[i][j] == qr[i][j]
    decreases |sequence| - index
  {
    hide FillFrom, ModuleValue;
    if index < |sequence| {
      var cell := sequence[index];
      FillFromUnfold(qr, message, sequence, index);
      FillFromKeeps(Set(qr, cell.0, cell.1, ModuleValue(message, index, cell)), message, sequence, index + 1);
      assert sequence[index..] == [cell] + sequence[index + 1..];
    } else {
      FillFromEnd(qr, message, sequence);
    }
  }

  /** With distinct cells, each cell of the rest of the sequence holds the
      value written for its position. */
  lemma {:induction false} FillFromCells(qr: Matrix, message: seq<int>, sequence: seq<Cell>, index: nat)
    requires IsGrid(qr) && OnGrid(sequence) && index <= |sequence| <= 8 * |message| && Distinct(sequence)
    ensures forall k :: index <= k < |sequence| ==>
      FillFrom(qr, message, sequence, index)[sequence[k].0][sequence[k].1] == ModuleValue(message, k, sequence[k])
    decreases |sequence| - index
  {
    hide FillFrom, ModuleValue, Distinct;
    if index < |sequence| {
      var cell := sequence[index];
      var qr' := Set(qr, cell.0, cell.1, ModuleValue(message, index, cell));
      var r := FillFrom(qr', message, sequence, index + 1);
      FillFromUnfold(qr, message, sequence, index);
      FillFromCells(qr', message, sequence, index + 1);
      FillFromKeeps(qr', message, sequence, index + 1);
      assert cell !in sequence[index + 1..] by {
        forall k | index + 1 <= k < |sequence|
          ensures sequence[k] != cell
        {
          DistinctAt(sequence, index, k);
        }
      }
      assert r[cell.0][cell.1] == qr'[cell.0][cell.1];
      forall k | index <= k < |sequence|
        ensures r[sequence[k].0][sequence[k].1] == ModuleValue(message, k, sequence[k])
      {
      }
    }
  }

  /** With distinct cells, `fill_matrix_by_message` writes the k-th cell of
      the sequence with the k-th bit exclusive-or the mask and leaves every
      cell off the sequence alone. */
  lemma FillMatrixCells(qr: Matrix, message: seq<int>, sequence: seq<Cell>)
    requires IsGrid(qr) && OnGrid(sequence) && |sequence| <= 8 * |message| && Distinct(sequence)
    ensures var r := FillMatrixByMessage(qr, message, sequence);
      (forall k :: 0 <= k < |sequence| ==> r[sequence[k].0][sequence[k].1] == ModuleValue(message, k, sequence[k]))
      && (forall i, j :: InGrid(i, j) && (i, j) !in sequence ==> r[i][j] == qr[i][j])
  {
    FillFromCells(qr, message, sequence, 0);
    FillFromKeeps(qr, message, sequence, 0);
    assert sequence[0..] == sequence;
  }

  /** For a message of bytes the module bits are the message's bit string,
      eight bits per byte, most significant first. */
  lemma {:induction false} ModuleBitFlatten(message: seq<Byte>, k: nat)
    requires k < 8 * |message|
    ensures ModuleBit(message, k) == Flatten(message)[k]
  {
    hide Bit, BitsOf, Flatten;
    FlattenAt(message, k);
    if k >= 8 {
      ModuleBitFlatten(message[1..], k - 8);
      assert (k - 8) / 8 == k / 8 - 1 && (k - 8) % 8 == k % 8;
    } else {
      BitsOfAt(message[0], k);
    }
  }

  lemma BitsOfAt(v: nat, k: nat)
    requires k < 8
    ensures BitsOf(v, 8)[k] == Bit(v, 7 - k)
  {
  }

  lemma FlattenAt(message: seq<Byte>, k: nat)
    requires k < 8 * |message|
    ensures Flatten(message)[k] == if k < 8 then BitsOf(message[0], 8)[k] else Flatten(message[1..])[k - 8]
  {
  }

  // apply_mask

  /** `mask_lines`: for each mask, the two 8-bit lines of format
      information. */
  const MaskLines: seq<seq<seq<int>>> := [
    [[1, 1, 1, 0, 1, 1, 1, 1], [0, 0, 1, 0, 0, 0, 1, 1]],
    [[1, 1, 1, 0, 0, 1, 0, 1], [1, 1, 0, 0, 1, 1, 1, 1]],
    [[1, 1, 1, 1, 1, 0, 1, 1], [0, 1, 0, 1, 0, 1, 0, 1]],
    [[1, 1, 1, 1, 0, 0, 0, 1], [1, 0, 1, 1, 1, 0, 0, 1]],
    [[1, 1, 0, 0, 1, 1, 0, 0], [1, 1, 1, 1, 0, 1, 0, 0]],
    [[1, 1, 0, 0, 0, 1, 1, 0], [0, 0, 0, 1, 1, 0, 0, 0]],
    [[1, 1, 0, 1, 1, 0, 0, 0], [1, 0, 0, 0, 0, 0, 1, 0]],
    [[1, 1, 0, 1, 0, 0, 1, 0], [0, 1, 1, 0, 1, 1, 1, 0]]
  ]

  /** Bit i of format line `line` of the symbol's mask. */
  function FormatBit(line: nat, i: nat): int
    requires line < 2 && i < 8
  {
    MaskLines[MaskIndex][line][i]
  }

  /** Pass i of the loop of `apply_mask`: line 0 along row 8 from the left
      (skipping column 6) and up column 8 from the bottom; line 1 down
      column 8 from the top (skipping row 6) and along row 8 from the
      right. */
  function MaskStep(qr: Matrix, i: nat): (r: Matrix)
    requires IsGrid(qr) && i < 8
    ensures IsGrid(r)
  {
    var near := if i >= 6 then i + 1 else i;
    var a := Set(qr, 8, near, FormatBit(0, i));
    var b := Set(a, 20 - i, 8, FormatBit(0, i));
    var c := Set(b, near, 8, FormatBit(1, i));
    Set(c, 8, 20 - i, FormatBit(1, i))
  }

  function MaskLoop(qr: Matrix, i: nat): (r: Matrix)
    requires IsGrid(qr) && i <= 8
    ensures IsGrid(r)
    decreases 8 - i
  {
    if i == 8 then qr else MaskLoop(MaskStep(qr, i), i + 1)
  }

  /** `apply_mask`: writes the format information of the mask. */
  function ApplyMask(qr: Matrix): (r: Matrix)
    requires IsGrid(qr)
    ensures IsGrid(r)
  {
    MaskLoop(qr, 0)
  }

  /** The format modules: row 8 and column 8 within the top-left corner
      (without the timing modules (8, 6) and (6, 8)), the rest of row 8 in
      the top-right corner and the rest of column 8 in the bottom-left one. */
  predicate FormatCell(r: int, c: int)
  {
    (r == 8 && (0 <= c <= 5 || c == 7 || c == 8 || 13 <= c <= 20))
    || (c == 8 && (0 <= r <= 5 || r == 7 || 13 <= r <= 20))
  }

  /** The pass of `apply_mask` that writes a format module. */
  function FormatPass(r: int, c: int): int
  {
    if r == 8 && c == 8 then 7
    else if r == 8 then (if c <= 5 then c else if c == 7 then 6 else 20 - c)
    else if r <= 5 then r
    else if r == 7 then 6
    else 20 - r
  }

  /** The final value of a format module: line 0 read left to right along
      row 8 and bottom to top along column 8, line 1 read top to bottom
      along column 8 and right to left along row 8; (8, 8), written by both
      lines in the last pass, keeps line 1's bit. */
  function FormatValue(r: int, c: int): int
    requires FormatCell(r, c)
  {
    if r == 8 && c == 8 then FormatBit(1, 7)
    else if r == 8 && c <= 7 then FormatBit(0, if c == 7 then 6 else c)
    else if r == 8 then FormatBit(1, 20 - c)
    else if r <= 7 then FormatBit(1, if r == 7 then 6 else r)
    else FormatBit(0, 20 - r)
  }

  lemma MaskStepCells(qr: Matrix, i: nat)
    requires IsGrid(qr) && i < 8
    ensures forall r, c :: InGrid(r, c) ==>
      MaskStep(qr, i)[r][c] == if FormatCell(r, c) && FormatPass(r, c) == i then FormatValue(r, c) else qr[r][c]
  {
  }

  lemma {:induction false} MaskLoopCells(qr: Matrix, i: nat)
    requires IsGrid(qr) && i <= 8
    ensures forall r, c :: InGrid(r, c) ==>
      MaskLoop(qr, i)[r][c] == if FormatCell(r, c) && FormatPass(r, c) >= i then FormatValue(r, c) else qr[r][c]
    decreases 8 - i
  {
    if i < 8 {
      MaskStepCells(qr, i);
      MaskLoopCells(MaskStep(qr, i), i + 1);
    }
  }

  /** `apply_mask` writes the format modules and nothing else; in
      particular neither timing module (8, 6) nor (6, 8). */
  lemma ApplyMaskCells(qr: Matrix)
    requires IsGrid(qr)
    ensures forall r, c :: InGrid(r, c) ==>
      ApplyMask(qr)[r][c] == if FormatCell(r, c) then FormatValue(r, c) else qr[r][c]
  {
    MaskLoopCells(qr, 0);
  }

  // generate_spec_lines

  /** The timing loop of `generate_spec_lines` from i on, i stepping by 2
      up to 12: modules (6, i) and (i, 6). */
  function Timing(qr: Matrix, i: int): (r: Matrix)
    requires IsGrid(qr) && 0 <= i
    ensures IsGrid(r)
    decreases 13 - i
  {
    if i > 12 then qr else Timing(Set(Set(qr, 6, i, 1), i, 6, 1), i + 2)
  }

  predicate TimingFrom(i: int, r: int, c: int)
  {
    (r == 6 && i <= c <= 12 && (c - i) % 2 == 0) || (c == 6 && i <= r <= 12 && (r - i) % 2 == 0)
  }

  lemma {:induction false} TimingCells(qr: Matrix, i: int)
    requires IsGrid(qr) && 0 <= i
    ensures forall r, c :: InGrid(r, c) ==> Timing(qr, i)[r][c] == if TimingFrom(i, r, c) then 1 else qr[r][c]
    decreases 13 - i
  {
    if i <= 12 {
      hide Timing;
      var qr' := Set(Set(qr, 6, i, 1), i, 6, 1);
      TimingUnfold(qr, i);
      TimingCells(qr', i + 2);
      forall r, c | InGrid(r, c)
        ensures TimingFrom(i, r, c) == (TimingFrom(i + 2, r, c) || (r == 6 && c == i) || (r == i && c == 6))
      {
        TimingFromStep(i, r, c);
      }
    } else {
      assert Timing(qr, i) == qr;
    }
  }

  lemma TimingUnfold(qr: Matrix, i: int)
    requires IsGrid(qr) && 0 <= i <= 12
    ensures Timing(qr, i) == Timing(Set(Set(qr, 6, i, 1), i, 6, 1), i + 2)
  {
  }

  lemma TimingFromStep(i: int, r: int, c: int)
    ensures TimingFrom(i, r, c) == (TimingFrom(i + 2, r, c) || (r == 6 && c == i && i <= 12) || (r == i && c == 6 && i <= 12))
  {
  }

  /** Pass i of the finder loop of `generate_spec_lines`: the i-th module of
      each side of the three finder outlines. */
  function FinderStep(qr: Matrix, i: int): (r: Matrix)
    requires IsGrid(qr) && 0 <= i < 7
    ensures IsGrid(r)
  {
    var l := |qr|;
    var m1 := Set(Set(Set(Set(qr, 0, i, 1), 6, i, 1), i, 0, 1), i, 6, 1);
    var m2 := Set(Set(Set(Set(m1, l - 1, i, 1), l - 7, i, 1), i, l - 1, 1), i, l - 7, 1);
    Set(Set(Set(Set(m2, l - i - 1, 0, 1), l - i - 1, 6, 1), 0, l - i - 1, 1), 6, l - i - 1, 1)
  }

  /** The modules pass i of the finder loop writes. */
  predicate FinderWrites(i: int, r: int, c: int)
  {
    ((r == 0 || r == 6 || r == 20 || r == 14) && c == i)
    || ((c == 0 || c == 6 || c == 20 || c == 14) && r == i)
    || ((c == 0 || c == 6) && r == 20 - i)
    || ((r == 0 || r == 6) && c == 20 - i)
  }

  lemma FinderStepCells(qr: Matrix, i: int)
    requires IsGrid(qr) && 0 <= i < 7
    ensures forall r, c :: InGrid(r, c) ==> FinderStep(qr, i)[r][c] == if FinderWrites(i, r, c) then 1 else qr[r][c]
  {
  }

  function Finders(qr: Matrix, i: int): (r: Matrix)
    requires IsGrid(qr) && 0 <= i
    ensures IsGrid(r)
    decreases 7 - i
  {
    if i >= 7 then qr else Finders(FinderStep(qr, i), i + 1)
  }

  /** The modules passes i .. 6 of the finder loop write. */
  predicate FindersFrom(i: int, r: int, c: int)
  {
    ((r == 0 || r == 6 || r == 20 || r == 14) && i <= c < 7)
    || ((c == 0 || c == 6 || c == 20 || c == 14) && i <= r < 7)
    || ((c == 0 || c == 6) && i <= 20 - r < 7)
    || ((r == 0 || r == 6) && i <= 20 - c < 7)
  }

  lemma {:induction false} FindersCells(qr: Matrix, i: int)
    requires IsGrid(qr) && 0 <= i
    ensures forall r, c :: InGrid(r, c) ==> Finders(qr, i)[r][c] == if FindersFrom(i, r, c) then 1 else qr[r][c]
    decreases 7 - i
  {
    if i < 7 {
      FinderStepCells(qr, i);
      FindersCells(FinderStep(qr, i), i + 1);
    }
  }

  /** The inner loop of the centre-square fill, for row i from column j on:
      modules (i, j), (l - i - 1, j) and (i, l - j - 1). */
  function CentreRow(qr: Matrix, i: int, j: int): (r: Matrix)
    requires IsGrid(qr) && 0 <= i <= 20 && 0 <= j
    ensures IsGrid(r)
    decreases 5 - j
  {
    var l := |qr|;
    if j >= 5 then qr else CentreRow(Set(Set(Set(qr, i, j, 1), l - i - 1, j, 1), i, l - j - 1, 1), i, j + 1)
  }

  predicate CentreRowFrom(i: int, j: int, r: int, c: int)
  {
    ((r == i || r == 20 - i) && j <= c < 5) || (r == i && j <= 20 - c < 5)
  }

  lemma {:induction false} CentreRowCells(qr: Matrix, i: int, j: int)
    requires IsGrid(qr) && 0 <= i <= 20 && 0 <= j
    ensures forall r, c :: InGrid(r, c) ==> CentreRow(qr, i, j)[r][c] == if CentreRowFrom(i, j, r, c) then 1 else qr[r][c]
    decreases 5 - j
  {
    if j < 5 {
      CentreRowCells(Set(Set(Set(qr, i, j, 1), 20 - i, j, 1), i, 20 - j, 1), i, j + 1);
    }
  }

  /** The outer loop of the centre-square fill, from row i on. */
  function Centres(qr: Matrix, i: int): (r: Matrix)
    requires IsGrid(qr) && 0 <= i
    ensures IsGrid(r)
    decreases 5 - i
  {
    if i >= 5 then qr else Centres(CentreRow(qr, i, 2), i + 1)
  }

  predicate CentresFrom(i: int, r: int, c: int)
  {
    ((i <= r < 5 || i <= 20 - r < 5) && 2 <= c < 5) || (i <= r < 5 && 2 <= 20 - c < 5)
  }

  lemma {:induction false} CentresCells(qr: Matrix, i: int)
    requires IsGrid(qr) && 0 <= i
    ensures forall r, c :: InGrid(r, c) ==> Centres(qr, i)[r][c] == if CentresFrom(i, r, c) then 1 else qr[r][c]
    decreases 5 - i
  {
    if i < 5 {
      CentreRowCells(qr, i, 2);
      CentresCells(CentreRow(qr, i, 2), i + 1);
    }
  }

  /** `generate_spec_lines`: timing modules, finder outlines, finder
      centres and the dark module, all set to 1. */
  function SpecLines(qr: Matrix): (r: Matrix)
    requires IsGrid(qr)
    ensures IsGrid(r)
  {
    Set(Centres(Finders(Timing(qr, 8), 0), 2), 13, 8, 1)
  }

  /** The outline of the 7 x 7 finder square with top-left module (r0, c0). */
  predicate Outline(r0: int, c0: int, r: int, c: int)
  {
    r0 <= r <= r0 + 6 && c0 <= c <= c0 + 6 && (r == r0 || r == r0 + 6 || c == c0 || c == c0 + 6)
  }

  /** The 3 x 3 centre with top-left module (r0, c0). */
  predicate Core(r0: int, c0: int, r: int, c: int)
  {
    r0 <= r <= r0 + 2 && c0 <= c <= c0 + 2
  }

  /** The dark modules of the symbol's fixed patterns: the three finder
      outlines and centres, the dark timing modules between the finders
      and the dark module beside the bottom-left finder. */
  predicate Marker(r: int, c: int)
  {
    Outline(0, 0, r, c) || Outline(0, 14, r, c) || Outline(14, 0, r, c)
    || Core(2, 2, r, c) || Core(2, 16, r, c) || Core(16, 2, r, c)
    || (r == 6 && (c == 8 || c == 10 || c == 12))
    || (c == 6 && (r == 8 || r == 10 || r == 12))
    || (r == 13 && c == 8)
  }

  /** `generate_spec_lines` sets exactly the marker modules to 1 and leaves
      every other module alone. */
  lemma SpecLinesCells(qr: Matrix)
    requires IsGrid(qr)
    ensures forall r, c :: InGrid(r, c) ==> SpecLines(qr)[r][c] == if Marker(r, c) then 1 else qr[r][c]
  {
    hide Timing, Finders, Centres;
    var t := Timing(qr, 8);
    var f := Finders(t, 0);
    TimingCells(qr, 8);
    FindersCells(t, 0);
    CentresCells(f, 2);
  }

  /** The marker modules all lie in the service regions. */
  lemma MarkersAreService(r: int, c: int)
    ensures Marker(r, c) ==> ServiceCell(r, c)
  {
  }

  /** So do the format modules. */
  lemma FormatIsService(r: int, c: int)
    ensures FormatCell(r, c) ==> ServiceCell(r, c)
  {
  }

  // generate

  /** `generate` on a freshly constructed object: place the message along
      the module sequence, then the format information, then the fixed
      patterns. A message with fewer bits than the sequence has cells is
      read past its end by the source; that is `OutOfBounds` here. */
  function Generate(message: seq<int>): (r: Result<Matrix>)
    ensures r.Success? ==> IsGrid(r.value) && |ModuleSequence()| <= 8 * |message|
    ensures r.Failure? ==> r.error == OutOfBounds && 8 * |message| < |ModuleSequence()|
  {
    var sequence := ModuleSequence();
    if |sequence| > 8 * |message| then Failure(OutOfBounds)
    else
      Success(SpecLines(ApplyMask(FillMatrixByMessage(Blank(), message, sequence))))
  }

  /** The symbol `generate` returns, cell by cell: the k-th module of the
      sequence carries the k-th message bit exclusive-or the mask, every
      marker module is 1, every format module outside the markers carries
      its format bit, and every other module is 0. */
  ghost predicate SymbolCells(message: seq<int>, sequence: seq<Cell>, q: Matrix)
    requires IsGrid(q) && OnGrid(sequence) && |sequence| <= 8 * |message|
  {
    && (forall k :: 0 <= k < |sequence| ==> q[sequence[k].0][sequence[k].1] == ModuleValue(message, k, sequence[k]))
    && (forall r, c :: InGrid(r, c) && Marker(r, c) ==> q[r][c] == 1)
    && (forall r, c :: InGrid(r, c) && FormatCell(r, c) && !Marker(r, c) ==> q[r][c] == FormatValue(r, c))
    && (forall r, c :: InGrid(r, c) && !Marker(r, c) && !FormatCell(r, c) && (r, c) !in sequence ==> q[r][c] == 0)
  }

  /** A message with a codeword bit for every module of the sequence is
      placed: `generate` succeeds and returns the symbol `SymbolCells`
      describes. */
  lemma GenerateCells(message: seq<int>, sequence: seq<Cell>)
    requires sequence == ModuleSequence() && |sequence| <= 8 * |message|
    ensures Generate(message).Success?
    ensures IsGrid(Generate(message).value) && SymbolCells(message, sequence, Generate(message).value)
  {
    hide ModuleSequence, SpecLines, ApplyMask, FillMatrixByMessage, ServiceCell, Marker, FormatCell;
    var q := Generate(message).value;
    var filled := FillMatrixByMessage(Blank(), message, sequence);
    var masked := ApplyMask(filled);
    assert q == SpecLines(masked);
    FillMatrixCells(Blank(), message, sequence);
    ApplyMaskCells(filled);
    SpecLinesCells(masked);
    forall k | 0 <= k < |sequence|
      ensures q[sequence[k].0][sequence[k].1] == ModuleValue(message, k, sequence[k])
    {
      var (r, c) := sequence[k];
      MarkersAreService(r, c);
      FormatIsService(r, c);
    }
  }
}

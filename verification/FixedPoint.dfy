/** Integer arithmetic behind the drift score: a square root by bisection and Gauss-Jordan
    elimination with divisions that truncate toward zero. */
module FixedPoint {
  import opened Wrappers
  import opened Bps

  function Abs(x: int): nat {
    if x < 0 then -x else x
  }

  /** Division as BigInt has it: the quotient is rounded toward zero. */
  function TruncDiv(x: int, y: int): int
    requires y != 0
  {
    if (x < 0) == (y < 0) then Abs(x) / Abs(y) else -(Abs(x) / Abs(y))
  }

  /** Exact divisions are exact. */
  lemma TruncDivExact(k: int, p: int)
    requires p != 0
    ensures TruncDiv(k * p, p) == k
  {
    MulDiv(Abs(k), Abs(p));
    assert Abs(k * p) == Abs(k) * Abs(p) by {
      if k >= 0 && p < 0 { assert k * p == -(k * (-p)); assert k * (-p) >= 0; }
      if k < 0 && p >= 0 { assert k * p == -((-k) * p); assert (-k) * p >= 0; }
      if k < 0 && p < 0 { assert k * p == (-k) * (-p); assert (-k) * (-p) >= 0; }
      if k >= 0 && p >= 0 { assert k * p >= 0; }
    }
    SignOfProduct(k, p);
  }

  lemma SignOfProduct(k: int, p: int)
    requires p != 0
    ensures k != 0 ==> ((k * p < 0) == (p < 0) <==> k > 0)
    ensures k == 0 ==> k * p == 0
  {
    if k > 0 && p > 0 { assert k * p > 0; }
    if k > 0 && p < 0 { assert k * (-p) > 0; }
    if k < 0 && p > 0 { assert (-k) * p > 0; }
    if k < 0 && p < 0 { assert (-k) * (-p) > 0; }
  }

  // ---------- Square root ----------

  function Squared(x: int): int {
    x * x
  }

  lemma SquaredGrows(x: int, value: int)
    requires x >= 0
    ensures Squared(x) < Squared(x + 1)
    ensures value <= x ==> value < Squared(x + 1)
  {
    assert (x + 1) * (x + 1) == x * x + 2 * x + 1;
  }

  method FixedPointSqrt(value: int) returns (r: int)
    ensures value <= 0 ==> r == 0
    ensures value >= 0 ==> 0 <= r && Squared(r) <= value < Squared(r + 1)
  {
    if value <= 0 { return 0; }
    hide Squared;
    var low := 0;
    var high := if value > 1 then value else 1;
    SquaredGrows(high, value);
    while low <= high
      invariant 0 <= low <= high + 1
      invariant low > 0 ==> Squared(low - 1) <= value
      invariant value < Squared(high + 1)
      decreases high - low
    {
      var mid := (low + high) / 2;
      var square := Squared(mid);
      if square == value {
        SquaredGrows(mid, value);
        return mid;
      }
      if square < value {
        low := mid + 1;
      } else {
        high := mid - 1;
      }
    }
    SquaredZero();
    return high;
  }

  lemma SquaredZero()
    ensures Squared(0) == 0
  {
  }

  // ---------- Matrices ----------

  const SCALE := 1_000_000

  type Matrix = seq<seq<int>>

  /** `size` rows of twice that length: the matrix and, to its right, what becomes its inverse. */
  ghost predicate Augmented(m: Matrix, size: nat) {
    |m| == size && forall i | 0 <= i < size :: |m[i]| == 2 * size
  }

  /** The first of the largest entries of a column on or below the diagonal, among the rows before `end`. */
  ghost function PivotRow(m: Matrix, size: nat, column: nat, end: nat): (p: nat)
    requires Augmented(m, size) && column < end <= size
    ensures column <= p < end
    ensures forall i | column <= i < end :: Abs(m[i][column]) <= Abs(m[p][column])
    ensures forall i | column <= i < p :: Abs(m[i][column]) < Abs(m[p][column])
    decreases end
  {
    if end == column + 1 then column else
      var p := PivotRow(m, size, column, end - 1);
      if Abs(m[end - 1][column]) > Abs(m[p][column]) then end - 1 else p
  }

  ghost function SwapRows(m: Matrix, p: nat, q: nat): Matrix
    requires p < |m| && q < |m|
  {
    m[p := m[q]][q := m[p]]
  }

  ghost function ScaledRow(row: seq<int>, pivot: int): (r: seq<int>)
    requires pivot != 0
    ensures |r| == |row|
  {
    seq(|row|, j requires 0 <= j < |row| => TruncDiv(row[j] * SCALE, pivot))
  }

  ghost function ReducedRow(row: seq<int>, factor: int, pivotRow: seq<int>): (r: seq<int>)
    requires |row| == |pivotRow|
    ensures |r| == |row|
  {
    seq(|row|, j requires 0 <= j < |row| => row[j] - TruncDiv(factor * pivotRow[j], SCALE))
  }

  /** All rows but the pivot row cleared in the column. */
  ghost function Reduced(m: Matrix, size: nat, column: nat): Matrix
    requires Augmented(m, size) && column < size
  {
    seq(size, i requires 0 <= i < size => if i == column then m[i] else ReducedRow(m[i], m[i][column], m[column]))
  }

  /** One column of the elimination; nothing if the column has no usable pivot. */
  ghost function ColumnStep(m: Matrix, size: nat, column: nat): (r: Option<Matrix>)
    requires Augmented(m, size) && column < size
    ensures r.Some? ==> Augmented(r.value, size)
  {
    var p := PivotRow(m, size, column, size);
    if m[p][column] == 0 then None else
      var swapped := SwapRows(m, p, column);
      var scaled := swapped[column := ScaledRow(swapped[column], swapped[column][column])];
      assert Augmented(scaled, size);
      Some(Reduced(scaled, size, column))
  }

  /** The matrix after the columns before `column`; nothing if one of them had no pivot. */
  ghost function Eliminated(m: Matrix, size: nat, column: nat): (r: Option<Matrix>)
    requires Augmented(m, size) && column <= size
    ensures r.Some? ==> Augmented(r.value, size)
  {
    if column == 0 then Some(m) else
      var before := Eliminated(m, size, column - 1);
      if before.None? then None else ColumnStep(before.value, size, column - 1)
  }

  // ---------- The left block ----------

  /** The first `columns` columns are SCALE times those of the identity. */
  ghost predicate Diagonal(m: Matrix, size: nat, columns: nat)
    requires Augmented(m, size) && columns <= size
  {
    forall i, j | 0 <= i < size && 0 <= j < columns :: m[i][j] == if i == j then SCALE else 0
  }

  lemma StepExtendsDiagonal(m: Matrix, size: nat, column: nat)
    requires Augmented(m, size) && column < size && Diagonal(m, size, column)
    requires ColumnStep(m, size, column).Some?
    ensures Diagonal(ColumnStep(m, size, column).value, size, column + 1)
  {
    hide TruncDiv;
    var p := PivotRow(m, size, column, size);
    var swapped := SwapRows(m, p, column);
    var pivot := swapped[column][column];
    var scaled := swapped[column := ScaledRow(swapped[column], pivot)];
    var r := Reduced(scaled, size, column);
    TruncDivExact(SCALE, pivot);
    TruncDivExact(0, pivot);
    assert pivot * SCALE == SCALE * pivot;
    forall i, j | 0 <= i < size && 0 <= j < column + 1
      ensures r[i][j] == if i == j then SCALE else 0
    {
      var factor := scaled[i][column];
      TruncDivExact(factor, SCALE);
      TruncDivExact(0, SCALE);
      assert j < column ==> scaled[column][j] == 0 && factor * 0 == 0;
      assert scaled[column][column] == SCALE;
    }
  }

  /** Whenever the elimination goes through, the left block is exactly SCALE times the identity, despite
      truncating divisions and row swaps. */
  lemma {:induction false} LeftBlockIsIdentity(m: Matrix, size: nat, column: nat)
    requires Augmented(m, size) && column <= size && Eliminated(m, size, column).Some?
    ensures Diagonal(Eliminated(m, size, column).value, size, column)
  {
    hide ColumnStep, Augmented;
    if column > 0 {
      LeftBlockIsIdentity(m, size, column - 1);
      StepExtendsDiagonal(Eliminated(m, size, column - 1).value, size, column - 1);
    }
  }

  /** A column without a candidate: nothing but zeros on and below the diagonal. */
  ghost predicate NoCandidate(m: Matrix, size: nat, column: nat)
    requires Augmented(m, size) && column < size
  {
    forall i | column <= i < size :: m[i][column] == 0
  }

  lemma NoStepMeansNoCandidate(m: Matrix, size: nat, column: nat)
    requires Augmented(m, size) && column < size
    ensures ColumnStep(m, size, column).None? <==> NoCandidate(m, size, column)
  {
    var p := PivotRow(m, size, column, size);
  }

  // ---------- In place ----------

  ghost function RowAt(a: array2<int>, i: int): (row: seq<int>)
    requires 0 <= i < a.Length0
    reads a
    ensures |row| == a.Length1
  {
    seq(a.Length1, j requires 0 <= j < a.Length1 reads a => a[i, j])
  }

  ghost function Rows(a: array2<int>): (m: Matrix)
    reads a
    ensures |m| == a.Length0
    ensures forall i | 0 <= i < a.Length0 :: m[i] == RowAt(a, i)
  {
    seq(a.Length0, i requires 0 <= i < a.Length0 reads a => RowAt(a, i))
  }

  method FindPivot(a: array2<int>, size: nat, column: nat) returns (pivot: nat)
    requires a.Length0 == size && a.Length1 == 2 * size && column < size
    ensures pivot == PivotRow(Rows(a), size, column, size)
  {
    hide RowAt;
    assert Augmented(Rows(a), size);
    pivot := column;
    for row := column + 1 to size
      invariant column <= pivot < row
      invariant pivot == PivotRow(Rows(a), size, column, row)
    {
      EntryOfRow(a, row, column);
      EntryOfRow(a, pivot, column);
      if Abs(a[row, column]) > Abs(a[pivot, column]) { pivot := row; }
    }
  }

  method SwapInPlace(a: array2<int>, p: nat, q: nat)
    requires p < a.Length0 && q < a.Length0
    modifies a
    ensures Rows(a) == SwapRows(old(Rows(a)), p, q)
  {
    for j := 0 to a.Length1
      invariant forall i, k | 0 <= i < a.Length0 && 0 <= k < a.Length1 ::
        a[i, k] == old(a[if k < j && i == p then q else if k < j && i == q then p else i, k])
    {
      a[p, j], a[q, j] := a[q, j], a[p, j];
    }
    var m, w := SwapRows(old(Rows(a)), p, q), old(Rows(a));
    forall i | 0 <= i < a.Length0 ensures Rows(a)[i] == m[i] {
      assert RowAt(a, i) == w[if i == p then q else if i == q then p else i];
    }
  }

  method ScaleInPlace(a: array2<int>, column: nat, pivot: int)
    requires column < a.Length0 && pivot != 0
    modifies a
    ensures Rows(a) == old(Rows(a))[column := ScaledRow(old(Rows(a))[column], pivot)]
  {
    hide TruncDiv;
    for j := 0 to a.Length1
      invariant forall i, k | 0 <= i < a.Length0 && 0 <= k < a.Length1 ::
        a[i, k] == if i == column && k < j then TruncDiv(old(a[i, k]) * SCALE, pivot) else old(a[i, k])
    {
      a[column, j] := TruncDiv(a[column, j] * SCALE, pivot);
    }
    ghost var w := old(Rows(a));
    forall i | 0 <= i < a.Length0 ensures Rows(a)[i] == w[column := ScaledRow(w[column], pivot)][i] {
      assert RowAt(a, i) == if i == column then ScaledRow(w[column], pivot) else w[i];
    }
  }

  method ReduceRowInPlace(a: array2<int>, row: nat, column: nat)
    requires row < a.Length0 && column < a.Length0 && column < a.Length1 && row != column
    modifies a
    ensures Rows(a) == old(Rows(a))[row := ReducedRow(old(Rows(a))[row], old(a[row, column]), old(Rows(a))[column])]
  {
    hide TruncDiv;
    var factor := a[row, column];
    for j := 0 to a.Length1
      invariant forall i, k | 0 <= i < a.Length0 && 0 <= k < a.Length1 ::
        a[i, k] == if i == row && k < j then old(a[i, k]) - TruncDiv(factor * old(a[column, k]), SCALE)
            else old(a[i, k])
    {
      a[row, j] := a[row, j] - TruncDiv(factor * a[column, j], SCALE);
    }
    ghost var w := old(Rows(a));
    ghost var reduced := ReducedRow(w[row], factor, w[column]);
    forall i | 0 <= i < a.Length0 ensures Rows(a)[i] == w[row := reduced][i] {
      assert RowAt(a, i) == if i == row then reduced else w[i];
    }
  }

  method ReduceInPlace(a: array2<int>, size: nat, column: nat)
    requires a.Length0 == size && a.Length1 == 2 * size && column < size
    modifies a
    ensures Rows(a) == Reduced(old(Rows(a)), size, column)
  {
    hide ReducedRow, RowAt;
    ghost var m := Rows(a);
    for row := 0 to size
      invariant |Rows(a)| == size
      invariant forall i | 0 <= i < size :: Rows(a)[i] == if i < row then Reduced(m, size, column)[i] else m[i]
    {
      if row != column {
        EntryOfRow(a, row, column);
        ReduceRowInPlace(a, row, column);
      }
    }
  }

  lemma EntryOfRow(a: array2<int>, i: nat, j: nat)
    requires i < a.Length0 && j < a.Length1
    ensures Rows(a)[i][j] == a[i, j]
  {
  }

  /** One column of the elimination, in place; false, with nothing changed, if there is no pivot. */
  method ColumnInPlace(a: array2<int>, size: nat, column: nat) returns (ok: bool)
    requires a.Length0 == size && a.Length1 == 2 * size && column < size
    modifies a
    ensures Augmented(old(Rows(a)), size)
    ensures ok <==> ColumnStep(old(Rows(a)), size, column).Some?
    ensures ok ==> Rows(a) == ColumnStep(old(Rows(a)), size, column).value
    ensures !ok ==> Rows(a) == old(Rows(a))
  {
    hide RowAt, PivotRow, ScaledRow, ReducedRow;
    ghost var m := Rows(a);
    var pivot := FindPivot(a, size, column);
    EntryOfRow(a, pivot, column);
    if a[pivot, column] == 0 { return false; }
    if pivot != column { SwapInPlace(a, pivot, column); }
    assert Rows(a) == SwapRows(m, pivot, column);
    EntryOfRow(a, column, column);
    var pivotValue := a[column, column];
    ScaleInPlace(a, column, pivotValue);
    ReduceInPlace(a, size, column);
    return true;
  }

  /** The matrix with the regularization on its diagonal, and the identity to its right. */
  ghost function Start(matrix: Matrix, regularization: int, size: nat): (m: Matrix)
    requires |matrix| == size && forall i | 0 <= i < size :: |matrix[i]| == size
    ensures Augmented(m, size)
  {
    seq(size, i requires 0 <= i < size => StartRow(matrix[i], regularization, size, i))
  }

  function StartEntry(row: seq<int>, regularization: int, size: nat, i: nat, j: nat): int
    requires |row| == size && j < 2 * size
  {
    if j < size then row[j] + (if i == j then regularization else 0) else if j - size == i then 1 else 0
  }

  ghost function StartRow(row: seq<int>, regularization: int, size: nat, i: nat): (r: seq<int>)
    requires |row| == size
    ensures |r| == 2 * size
  {
    seq(2 * size, j requires 0 <= j < 2 * size => StartEntry(row, regularization, size, i, j))
  }

  ghost predicate Square(matrix: Matrix) {
    matrix != [] && forall i | 0 <= i < |matrix| :: |matrix[i]| == |matrix|
  }

  ghost function RightBlock(m: Matrix, size: nat): Matrix
    requires Augmented(m, size)
  {
    seq(size, i requires 0 <= i < size => m[i][size..])
  }

  /** The result is the right block of the elimination of the regularized matrix. Nothing is returned for
      an empty or ragged matrix, and otherwise exactly when some column, in the matrix as it stands when
      its turn comes, has only zeros on and below the diagonal. */
  method InvertRegularizedMatrixFixed(matrix: Matrix, regularization: int) returns (r: Option<Matrix>)
    ensures r.Some? ==> Square(matrix)
    ensures Square(matrix) ==>
      var size, m := |matrix|, Start(matrix, regularization, |matrix|);
      && (r.Some? ==>
            var done := Eliminated(m, size, size);
            && done.Some? && Diagonal(done.value, size, size)
            && r.value == RightBlock(done.value, size))
      && (r.None? ==>
            exists c: nat | c < size ::
              Eliminated(m, size, c).Some? && NoCandidate(Eliminated(m, size, c).value, size, c))
  {
    hide ColumnStep, StartRow, RowAt;
    var size := |matrix|;
    if size == 0 || exists i | 0 <= i < size :: |matrix[i]| != size { return None; }
    var augmented := new int[size, 2 * size]((i, j) requires 0 <= i < size && 0 <= j < 2 * size =>
      StartEntry(matrix[i], regularization, size, i, j));
    ghost var m := Start(matrix, regularization, size);
    StartedRows(augmented, matrix, regularization, size);
    for column := 0 to size
      invariant Augmented(Rows(augmented), size)
      invariant Eliminated(m, size, column) == Some(Rows(augmented))
    {
      NoStepMeansNoCandidate(Rows(augmented), size, column);
      var ok := ColumnInPlace(augmented, size, column);
      if !ok { return None; }
      assert Eliminated(m, size, column + 1) == Some(Rows(augmented));
    }
    LeftBlockIsIdentity(m, size, size);
    ghost var done := Rows(augmented);
    var inverse := [];
    for i := 0 to size
      invariant Rows(augmented) == done
      invariant inverse == RightBlock(done, size)[..i]
    {
      var row := RightRow(augmented, size, i);
      inverse := inverse + [row];
    }
    assert inverse == RightBlock(done, size);
    return Some(inverse);
  }

  method RightRow(a: array2<int>, size: nat, i: nat) returns (row: seq<int>)
    requires a.Length0 == size && a.Length1 == 2 * size && i < size
    ensures row == Rows(a)[i][size..]
  {
    row := [];
    for j := size to 2 * size
      invariant row == Rows(a)[i][size..j]
    {
      row := row + [a[i, j]];
    }
  }

  lemma StartedRows(a: array2<int>, matrix: Matrix, regularization: int, size: nat)
    requires a.Length0 == size && a.Length1 == 2 * size
    requires |matrix| == size && forall i | 0 <= i < size :: |matrix[i]| == size
    requires forall i, j | 0 <= i < size && 0 <= j < 2 * size ::
        a[i, j] == StartEntry(matrix[i], regularization, size, i, j)
    ensures Rows(a) == Start(matrix, regularization, size)
  {
    forall i | 0 <= i < size ensures RowAt(a, i) == StartRow(matrix[i], regularization, size, i) {
    }
  }

  // ---------- What the right block means ----------

  /** The right half of a row times column j of the square matrix `a`, over the first k terms. */
  ghost function Product(row: seq<int>, a: Matrix, size: nat, j: nat, k: nat): int
    requires |row| == 2 * size && Square(a) && |a| == size && j < size && k <= size
  {
    if k == 0 then 0 else Product(row, a, size, j, k - 1) + row[size + k - 1] * a[k - 1][j]
  }

  /** Every row of the left block is the right block's row times `a`. */
  ghost predicate Relates(m: Matrix, a: Matrix, size: nat)
    requires Augmented(m, size) && Square(a) && |a| == size
  {
    forall i, j | 0 <= i < size && 0 <= j < size :: Product(m[i], a, size, j, size) == m[i][j]
  }

  /** x times one row is y times another plus z times a third, in every place. */
  ghost predicate Combines(x: int, u: seq<int>, y: int, v: seq<int>, z: int, w: seq<int>) {
    |u| == |v| == |w| && forall k | 0 <= k < |u| :: x * u[k] == y * v[k] + z * w[k]
  }

  lemma {:induction false} ProductIsLinear(x: int, u: seq<int>, y: int, v: seq<int>, z: int, w: seq<int>, a: Matrix,
      size: nat, j: nat, k: nat)
    requires Combines(x, u, y, v, z, w) && |u| == 2 * size
    requires Square(a) && |a| == size && j < size && k <= size
    ensures x * Product(u, a, size, j, k) == y * Product(v, a, size, j, k) + z * Product(w, a, size, j, k)
  {
    if k > 0 {
      ProductIsLinear(x, u, y, v, z, w, a, size, j, k - 1);
      var p, q, r, e := u[size + k - 1], v[size + k - 1], w[size + k - 1], a[k - 1][j];
      assert x * (p * e) == y * (q * e) + z * (r * e) by { Distribute(x, p, y, q, z, r, e); }
      TimesSum(x, Product(u, a, size, j, k - 1), p * e);
      TimesSum(y, Product(v, a, size, j, k - 1), q * e);
      TimesSum(z, Product(w, a, size, j, k - 1), r * e);
    }
  }

  lemma Distribute(x: int, p: int, y: int, q: int, z: int, r: int, e: int)
    requires x * p == y * q + z * r
    ensures x * (p * e) == y * (q * e) + z * (r * e)
  {
    assert x * (p * e) == (x * p) * e;
    assert y * (q * e) == (y * q) * e;
    assert z * (r * e) == (z * r) * e;
  }

  lemma TimesSum(x: int, a: int, b: int)
    ensures x * (a + b) == x * a + x * b
  {
  }

  lemma Cancel(x: int, a: int, b: int)
    requires x != 0 && x * a == x * b
    ensures a == b
  {
    assert x * (a - b) == 0;
  }

  /** A combination of related rows is related. */
  lemma CombinationRelates(x: int, u: seq<int>, y: int, v: seq<int>, z: int, w: seq<int>, a: Matrix, size: nat, j: nat)
    requires x != 0 && Combines(x, u, y, v, z, w) && |u| == 2 * size && Square(a) && |a| == size && j < size
    requires Product(v, a, size, j, size) == v[j] && Product(w, a, size, j, size) == w[j]
    ensures Product(u, a, size, j, size) == u[j]
  {
    ProductIsLinear(x, u, y, v, z, w, a, size, j, size);
    Cancel(x, Product(u, a, size, j, size), u[j]);
  }

  /** No division of this column's step leaves a remainder. */
  ghost predicate ExactStep(m: Matrix, size: nat, column: nat)
    requires Augmented(m, size) && column < size
  {
    var p := PivotRow(m, size, column, size);
    m[p][column] == 0 ||
    var swapped := SwapRows(m, p, column);
    var pivot := swapped[column][column];
    var scaledRow := ScaledRow(swapped[column], pivot);
    var scaled := swapped[column := scaledRow];
    assert Augmented(scaled, size);
    && Combines(pivot, scaledRow, SCALE, swapped[column], 0, swapped[column])
    && forall i | 0 <= i < size && i != column ::
         Combines(SCALE, Reduced(scaled, size, column)[i], SCALE, scaled[i], -scaled[i][column], scaledRow)
  }

  ghost predicate ExactRun(m: Matrix, size: nat, column: nat)
    requires Augmented(m, size) && column <= size
  {
    column == 0 ||
    (ExactRun(m, size, column - 1) &&
     (Eliminated(m, size, column - 1).Some? ==> ExactStep(Eliminated(m, size, column - 1).value, size, column - 1)))
  }

  lemma StepKeepsRelation(m: Matrix, a: Matrix, size: nat, column: nat)
    requires Augmented(m, size) && column < size && Square(a) && |a| == size
    requires Relates(m, a, size) && ExactStep(m, size, column) && ColumnStep(m, size, column).Some?
    ensures Relates(ColumnStep(m, size, column).value, a, size)
  {
    hide Product, Combines, ScaledRow, ReducedRow, PivotRow;
    var p := PivotRow(m, size, column, size);
    var swapped := SwapRows(m, p, column);
    var pivot := swapped[column][column];
    var scaledRow := ScaledRow(swapped[column], pivot);
    var scaled := swapped[column := scaledRow];
    assert Augmented(scaled, size);
    forall i, j | 0 <= i < size && 0 <= j < size
      ensures Product(Reduced(scaled, size, column)[i], a, size, j, size) == Reduced(scaled, size, column)[i][j]
    {
      assert Product(swapped[i], a, size, j, size) == swapped[i][j];
      CombinationRelates(pivot, scaledRow, SCALE, swapped[column], 0, swapped[column], a, size, j);
      if i != column {
        var reduced := Reduced(scaled, size, column)[i];
        CombinationRelates(SCALE, reduced, SCALE, scaled[i], -scaled[i][column], scaledRow, a, size, j);
      }
    }
  }

  /** The matrix with the regularization added on its diagonal. */
  ghost function Regularized(matrix: Matrix, regularization: int): (a: Matrix)
    requires Square(matrix)
    ensures Square(a) && |a| == |matrix|
    ensures forall i, j | 0 <= i < |matrix| && 0 <= j < |matrix| ::
      a[i][j] == if i == j then matrix[i][i] + regularization else matrix[i][j]
  {
    var size := |matrix|;
    seq(size, i requires 0 <= i < size =>
      seq(size, j requires 0 <= j < size => if i == j then matrix[i][i] + regularization else matrix[i][j]))
  }

  /** The elimination starts from the regularized matrix on the left and the identity on the right. */
  lemma StartIsRegularized(matrix: Matrix, regularization: int, i: nat, j: nat)
    requires Square(matrix) && i < |matrix| && j < |matrix|
    ensures var size, m := |matrix|, Start(matrix, regularization, |matrix|);
      && m[i][j] == Regularized(matrix, regularization)[i][j]
      && m[i][size + j] == if i == j then 1 else 0
  {
  }

  lemma {:induction false} UnitProduct(matrix: Matrix, regularization: int, i: nat, j: nat, k: nat)
    requires Square(matrix) && i < |matrix| && j < |matrix| && k <= |matrix|
    ensures var size, a := |matrix|, Regularized(matrix, regularization);
      Product(StartRow(matrix[i], regularization, size, i), a, size, j, k) == if k > i then a[i][j] else 0
  {
    if k > 0 {
      UnitProduct(matrix, regularization, i, j, k - 1);
      assert StartRow(matrix[i], regularization, |matrix|, i)[|matrix| + k - 1] == if k - 1 == i then 1 else 0;
    }
  }

  lemma {:induction false} RunKeepsRelation(matrix: Matrix, regularization: int, column: nat)
    requires Square(matrix) && column <= |matrix|
    requires var m := Start(matrix, regularization, |matrix|);
      ExactRun(m, |matrix|, column) && Eliminated(m, |matrix|, column).Some?
    ensures Relates(Eliminated(Start(matrix, regularization, |matrix|), |matrix|, column).value,
        Regularized(matrix, regularization), |matrix|)
  {
    hide ColumnStep, ExactStep, Product, StartRow;
    var size, m, a := |matrix|, Start(matrix, regularization, |matrix|), Regularized(matrix, regularization);
    if column == 0 {
      forall i, j | 0 <= i < size && 0 <= j < size ensures Product(m[i], a, size, j, size) == m[i][j] {
        UnitProduct(matrix, regularization, i, j, size);
        StartIsRegularized(matrix, regularization, i, j);
      }
    } else {
      RunKeepsRelation(matrix, regularization, column - 1);
      StepKeepsRelation(Eliminated(m, size, column - 1).value, a, size, column - 1);
    }
  }

  /** When no division left a remainder, the result times the regularized matrix is SCALE times the
      identity: it is the inverse, in units of 1/SCALE. */
  lemma ExactRunInverts(matrix: Matrix, regularization: int, i: nat, j: nat)
    requires Square(matrix) && i < |matrix| && j < |matrix|
    requires var m := Start(matrix, regularization, |matrix|);
      ExactRun(m, |matrix|, |matrix|) && Eliminated(m, |matrix|, |matrix|).Some?
    ensures var done := Eliminated(Start(matrix, regularization, |matrix|), |matrix|, |matrix|).value;
      Product(done[i], Regularized(matrix, regularization), |matrix|, j, |matrix|) == if i == j then SCALE else 0
  {
    hide ColumnStep, ExactStep, Product, StartRow;
    RunKeepsRelation(matrix, regularization, |matrix|);
    LeftBlockIsIdentity(Start(matrix, regularization, |matrix|), |matrix|, |matrix|);
  }

  // ---------- How far truncation takes the right block from the inverse ----------

  lemma TruncDivRemainder(x: int, y: int)
    requires y != 0
    ensures Abs(x - y * TruncDiv(x, y)) < Abs(y)
  {
    var q, r := Abs(x) / Abs(y), Abs(x) % Abs(y);
    assert Abs(x) == Abs(y) * q + r;
    if (x < 0) == (y < 0) {
      assert y * q == if y < 0 then -(Abs(y) * q) else Abs(y) * q;
    } else {
      assert y * -q == if y < 0 then Abs(y) * q else -(Abs(y) * q);
    }
  }

  /** The sum of the absolute values in a column, over the first k rows. */
  ghost function ColumnSum(a: Matrix, size: nat, j: nat, k: nat): nat
    requires Square(a) && |a| == size && j < size && k <= size
  {
    if k == 0 then 0 else ColumnSum(a, size, j, k - 1) + Abs(a[k - 1][j])
  }

  /** By how much the right half of a row times column j of `a` misses the row's entry j. */
  ghost function Miss(row: seq<int>, a: Matrix, size: nat, j: nat): int
    requires |row| == 2 * size && Square(a) && |a| == size && j < size
  {
    Product(row, a, size, j, size) - row[j]
  }

  ghost predicate Small(row: seq<int>, bound: int) {
    forall k | 0 <= k < |row| :: Abs(row[k]) <= bound
  }

  lemma AbsProduct(x: int, y: int, b: nat)
    requires Abs(x) <= b
    ensures Abs(x * y) <= b * Abs(y)
  {
    if y >= 0 {
      assert x * y <= b * y && -(b * y) <= x * y;
    } else {
      assert x * -y <= b * -y && -(b * -y) <= x * -y;
      assert x * y == -(x * -y);
    }
  }

  lemma {:induction false} SmallProduct(row: seq<int>, bound: nat, a: Matrix, size: nat, j: nat, k: nat)
    requires |row| == 2 * size && Small(row, bound) && Square(a) && |a| == size && j < size && k <= size
    ensures Abs(Product(row, a, size, j, k)) <= bound * ColumnSum(a, size, j, k)
  {
    if k > 0 {
      SmallProduct(row, bound, a, size, j, k - 1);
      AbsProduct(row[size + k - 1], a[k - 1][j], bound);
      TimesSum(bound, ColumnSum(a, size, j, k - 1), Abs(a[k - 1][j]));
    }
  }

  /** What one truncated division in every place of a row adds to a miss, in units of the divisor. */
  ghost function Slack(a: Matrix, size: nat, j: nat): nat
    requires Square(a) && |a| == size && j < size
  {
    ColumnSum(a, size, j, size) + 1
  }

  lemma SmallMiss(row: seq<int>, bound: nat, a: Matrix, size: nat, j: nat)
    requires |row| == 2 * size && Small(row, bound) && Square(a) && |a| == size && j < size
    ensures Abs(Miss(row, a, size, j)) <= bound * Slack(a, size, j)
  {
    hide Product, ColumnSum;
    SmallProduct(row, bound, a, size, j, size);
    TimesSum(bound, ColumnSum(a, size, j, size), 1);
  }

  lemma MissIsLinear(x: int, u: seq<int>, y: int, v: seq<int>, z: int, w: seq<int>, a: Matrix, size: nat, j: nat)
    requires Combines(x, u, y, v, z, w) && |u| == 2 * size && Square(a) && |a| == size && j < size
    ensures x * Miss(u, a, size, j) == y * Miss(v, a, size, j) + z * Miss(w, a, size, j)
  {
    hide Product;
    ProductIsLinear(x, u, y, v, z, w, a, size, j, size);
    TimesSum(x, Product(u, a, size, j, size), -u[j]);
    TimesSum(y, Product(v, a, size, j, size), -v[j]);
    TimesSum(z, Product(w, a, size, j, size), -w[j]);
  }

  lemma WithinFloor(x: int, s: nat, p: int)
    requires p > 0 && p * x <= s
    ensures x <= s / p
  {
    MulDiv(x, p);
    assert x * p == p * x;
    FloorMonotone(x * p, s, p);
  }

  /** The bound for the pivot row after it is scaled. */
  ghost function ScaledBound(bound: nat, pivot: int, slack: nat): nat {
    if pivot == 0 then 0 else SCALE * bound / Abs(pivot) + slack
  }

  lemma ScaledMiss(row: seq<int>, pivot: int, bound: nat, a: Matrix, size: nat, j: nat)
    requires pivot != 0 && |row| == 2 * size && Square(a) && |a| == size && j < size
    requires Abs(Miss(row, a, size, j)) <= bound
    ensures Abs(Miss(ScaledRow(row, pivot), a, size, j)) <= ScaledBound(bound, pivot, Slack(a, size, j))
  {
    hide Miss, Slack, TruncDiv;
    var scaled := ScaledRow(row, pivot);
    var rest := seq(2 * size, k requires 0 <= k < 2 * size => row[k] * SCALE - pivot * scaled[k]);
    forall k | 0 <= k < 2 * size
      ensures Abs(rest[k]) <= Abs(pivot)
      ensures pivot * scaled[k] == SCALE * row[k] + -1 * rest[k]
    {
      TruncDivRemainder(row[k] * SCALE, pivot);
    }
    SmallMiss(rest, Abs(pivot), a, size, j);
    MissIsLinear(pivot, scaled, SCALE, row, -1, rest, a, size, j);
    QuotientBound(pivot, Miss(scaled, a, size, j), SCALE * Miss(row, a, size, j), Miss(rest, a, size, j),
        SCALE * bound, Slack(a, size, j));
  }

  lemma AbsOfProduct(p: int, x: int)
    ensures Abs(p) * Abs(x) == Abs(p * x)
  {
    if p >= 0 && x < 0 { assert p * x == -(p * -x); assert p * -x >= 0; }
    if p < 0 && x >= 0 { assert p * x == -(-p * x); assert -p * x >= 0; }
    if p < 0 && x < 0 { assert p * x == -p * -x; assert -p * -x >= 0; }
    if p >= 0 && x >= 0 { assert p * x >= 0; }
  }

  /** The quotient has the sign of the exact one and is the largest in size that does not exceed it. */
  lemma TruncDivTowardZero(x: int, y: int)
    requires y != 0
    ensures var q := TruncDiv(x, y);
      && Abs(y * q) <= Abs(x) < Abs(y * q) + Abs(y)
      && (q != 0 ==> (q > 0 <==> (x < 0) == (y < 0)))
  {
    var q := TruncDiv(x, y);
    AbsOfProduct(y, q);
    var n, d := Abs(x), Abs(y);
    assert Abs(q) == n / d;
    assert n == d * (n / d) + n % d;
  }

  lemma QuotientBound(p: int, x: int, y: int, z: int, s: nat, n: nat)
    requires p != 0 && p * x == y - z && Abs(y) <= s && Abs(z) <= Abs(p) * n
    ensures Abs(x) <= s / Abs(p) + n
  {
    AbsOfProduct(p, x);
    var q: int, e: int := Abs(p), Abs(x);
    assert q * e <= s + q * n;
    TimesSum(q, e - n, n);
    assert q * (e - n) == q * e - q * n;
    WithinFloor(e - n, s, q);
  }

  /** The bound for another row after the scaled pivot row is taken off. */
  ghost function ReducedBound(bound: nat, factor: int, pivotBound: nat, slack: nat): nat {
    bound + Abs(factor) * pivotBound / SCALE + slack
  }

  lemma ReducedMiss(row: seq<int>, factor: int, pivotRow: seq<int>, bound: nat, pivotBound: nat, a: Matrix, size: nat,
      j: nat)
    requires |row| == |pivotRow| == 2 * size && Square(a) && |a| == size && j < size
    requires Abs(Miss(row, a, size, j)) <= bound && Abs(Miss(pivotRow, a, size, j)) <= pivotBound
    ensures Abs(Miss(ReducedRow(row, factor, pivotRow), a, size, j)) <=
        ReducedBound(bound, factor, pivotBound, Slack(a, size, j))
  {
    hide Miss, Slack, TruncDiv;
    var reduced := ReducedRow(row, factor, pivotRow);
    var rest := seq(2 * size, k requires 0 <= k < 2 * size =>
      factor * pivotRow[k] - SCALE * TruncDiv(factor * pivotRow[k], SCALE));
    var sum := seq(2 * size, k requires 0 <= k < 2 * size => SCALE * reduced[k] - rest[k]);
    forall k | 0 <= k < 2 * size
      ensures Abs(rest[k]) <= SCALE
      ensures 1 * sum[k] == SCALE * reduced[k] + -1 * rest[k] && 1 * sum[k] == SCALE * row[k] + -factor * pivotRow[k]
    {
      TruncDivRemainder(factor * pivotRow[k], SCALE);
    }
    SmallMiss(rest, SCALE, a, size, j);
    MissIsLinear(1, sum, SCALE, reduced, -1, rest, a, size, j);
    MissIsLinear(1, sum, SCALE, row, -factor, pivotRow, a, size, j);
    ReducedDistance(
      Miss(reduced, a, size, j), Miss(row, a, size, j), Miss(pivotRow, a, size, j), Miss(rest, a, size, j),
      factor, pivotBound, Slack(a, size, j));
  }

  lemma ReducedDistance(x: int, y: int, z: int, r: int, factor: int, pivotBound: nat, slack: nat)
    requires SCALE * x - r == SCALE * y + -factor * z && Abs(z) <= pivotBound && Abs(r) <= SCALE * slack
    ensures Abs(x - y) <= Abs(factor) * pivotBound / SCALE + slack
  {
    var f := -factor;
    AbsProduct(z, f, pivotBound);
    assert z * f == f * z && pivotBound * Abs(f) == Abs(f) * pivotBound && Abs(f) == Abs(factor);
    QuotientBound(SCALE, x - y, f * z, -r, Abs(factor) * pivotBound, slack);
  }

  /** How far, after some columns, each row can be from the right half times `a`, at column j: computed from the
      pivots and factors of the run. */
  ghost function Bounds(m: Matrix, a: Matrix, size: nat, column: nat, j: nat): (r: seq<nat>)
    requires Augmented(m, size) && column <= size
    requires Square(a) && |a| == size && j < size
    ensures |r| == size
  {
    if column == 0 then seq(size, _ => 0) else
      var before, bounds := Eliminated(m, size, column - 1), Bounds(m, a, size, column - 1, j);
      if before.None? then bounds else StepBounds(before.value, a, size, column - 1, j, bounds)
  }

  ghost function StepBounds(m: Matrix, a: Matrix, size: nat, column: nat, j: nat, bounds: seq<nat>): (r: seq<nat>)
    requires Augmented(m, size) && column < size && |bounds| == size
    requires Square(a) && |a| == size && j < size
    ensures |r| == size
  {
    var p := PivotRow(m, size, column, size);
    var swapped, moved := SwapRows(m, p, column), bounds[p := bounds[column]][column := bounds[p]];
    var slack := Slack(a, size, j);
    var pivotBound := ScaledBound(moved[column], swapped[column][column], slack);
    seq(size, i requires 0 <= i < size =>
      if i == column then pivotBound else ReducedBound(moved[i], swapped[i][column], pivotBound, slack))
  }

  ghost predicate Within(m: Matrix, a: Matrix, size: nat, j: nat, bounds: seq<nat>)
    requires Augmented(m, size) && Square(a) && |a| == size && j < size && |bounds| == size
  {
    forall i | 0 <= i < size :: Abs(Miss(m[i], a, size, j)) <= bounds[i]
  }

  lemma StepKeepsWithin(m: Matrix, a: Matrix, size: nat, column: nat, j: nat, bounds: seq<nat>)
    requires Augmented(m, size) && column < size && ColumnStep(m, size, column).Some? && |bounds| == size
    requires Square(a) && |a| == size && j < size && Within(m, a, size, j, bounds)
    ensures Within(ColumnStep(m, size, column).value, a, size, j, StepBounds(m, a, size, column, j, bounds))
  {
    hide Miss, ScaledRow, ReducedRow, PivotRow, Slack, ScaledBound, ReducedBound;
    var p := PivotRow(m, size, column, size);
    var swapped, moved := SwapRows(m, p, column), bounds[p := bounds[column]][column := bounds[p]];
    var pivot, slack := swapped[column][column], Slack(a, size, j);
    var scaledRow, pivotBound := ScaledRow(swapped[column], pivot), ScaledBound(moved[column], pivot, slack);
    ScaledMiss(swapped[column], pivot, moved[column], a, size, j);
    forall i | 0 <= i < size
      ensures Abs(Miss(ColumnStep(m, size, column).value[i], a, size, j)) <=
          StepBounds(m, a, size, column, j, bounds)[i]
    {
      if i != column {
        ReducedMiss(swapped[i], swapped[i][column], scaledRow, moved[i], pivotBound, a, size, j);
      }
    }
  }

  lemma {:induction false} RunStaysWithin(matrix: Matrix, regularization: int, column: nat, j: nat)
    requires Square(matrix) && column <= |matrix| && j < |matrix|
    requires Eliminated(Start(matrix, regularization, |matrix|), |matrix|, column).Some?
    ensures var m, a := Start(matrix, regularization, |matrix|), Regularized(matrix, regularization);
      Within(Eliminated(m, |matrix|, column).value, a, |matrix|, j, Bounds(m, a, |matrix|, column, j))
  {
    hide ColumnStep, StepBounds, Product, StartRow;
    var size, m, a := |matrix|, Start(matrix, regularization, |matrix|), Regularized(matrix, regularization);
    if column == 0 {
      forall i | 0 <= i < size ensures Abs(Miss(m[i], a, size, j)) <= 0 {
        UnitProduct(matrix, regularization, i, j, size);
        StartIsRegularized(matrix, regularization, i, j);
      }
    } else {
      RunStaysWithin(matrix, regularization, column - 1, j);
      StepKeepsWithin(Eliminated(m, size, column - 1).value, a, size, column - 1, j, Bounds(m, a, size, column - 1, j));
    }
  }

  /** For every run that goes through, truncating or not: the result times the regularized matrix is within the
      run's own bounds of SCALE times the identity. */
  lemma InverseWithinBounds(matrix: Matrix, regularization: int, i: nat, j: nat)
    requires Square(matrix) && i < |matrix| && j < |matrix|
    requires Eliminated(Start(matrix, regularization, |matrix|), |matrix|, |matrix|).Some?
    ensures var size, m, a := |matrix|, Start(matrix, regularization, |matrix|), Regularized(matrix, regularization);
      var product := Product(Eliminated(m, size, size).value[i], a, size, j, size);
      Abs(product - if i == j then SCALE else 0) <= Bounds(m, a, size, size, j)[i]
  {
    hide ColumnStep, StepBounds, Product, StartRow, Bounds, Eliminated;
    RunStaysWithin(matrix, regularization, |matrix|, j);
    LeftBlockIsIdentity(Start(matrix, regularization, |matrix|), |matrix|, |matrix|);
  }
}

/**
 * Smith-Waterman local alignment: the score matrix, the running maximum
 * that is the unnormalised similarity, and its normalisation into [0, 1].
 */
module SmithWaterman {
  import opened Maxima

  /**
   * A Java string as the metric sees it: its UTF-16 code units. `length()`
   * counts them and the cost function is given positions among them, so a
   * character outside the Basic Multilingual Plane takes two positions.
   */
  type JavaString = seq<bv16>

  /**
   * A substitution cost function: `cost(s, i, t, j)` scores aligning
   * `s[i]` with `t[j]`, and `maxCost` is the bound it claims for every cost.
   */
  datatype CostFunction = CostFunction(cost: (JavaString, nat, JavaString, nat) -> real, maxCost: real)

  /** A configured metric: a gap cost and a substitution cost function, fixed at construction. */
  datatype Metric = Metric(gapCost: real, costFunc: CostFunction)

  /** The gap cost the constructors use when none is given. */
  const DefaultGapCost: real := 0.5

  /** The timing constant of the cost estimate. */
  const EstimatedTimingConst: real := 0.000161

  /** The metric built from a cost function alone: it charges the default gap cost. */
  function WithCostFunction(costFunc: CostFunction): (sw: Metric)
    ensures sw.gapCost == 0.5
    ensures sw.costFunc == costFunc
  {
    Metric(DefaultGapCost, costFunc)
  }

  /** Every cost the function gives for positions of `s` and `t` is at most its claimed `maxCost`. */
  ghost predicate CostsBounded(cf: CostFunction, s: JavaString, t: JavaString)
  {
    forall i: nat, j: nat :: i < |s| && j < |t| ==> CostWithin(cf, s, i, t, j)
  }

  /** Scoring `s[i]` against `t[j]` costs at most `maxCost`. */
  ghost predicate CostWithin(cf: CostFunction, s: JavaString, i: nat, t: JavaString, j: nat)
  {
    cf.cost(s, i, t, j) <= cf.maxCost
  }

  /** The cost function scores `s[i]` against `t[j]` as it scores `t[j]` against `s[i]`. */
  ghost predicate CostsSymmetric(cf: CostFunction, s: JavaString, t: JavaString)
  {
    forall i: nat, j: nat :: i < |s| && j < |t| ==> CostSymmetricAt(cf, s, i, t, j)
  }

  /** Scoring `s[i]` against `t[j]` costs what scoring `t[j]` against `s[i]` does. */
  ghost predicate CostSymmetricAt(cf: CostFunction, s: JavaString, i: nat, t: JavaString, j: nat)
  {
    cf.cost(s, i, t, j) == cf.cost(t, j, s, i)
  }

  /**
   * The value the matrix holds at `d[i][j]`: the first column and the first
   * row look back only along themselves, the interior takes the best of a gap
   * from above, a gap from the left and a substitution on the diagonal, and
   * every cell is clamped at zero.
   */
  function Cell(sw: Metric, s: JavaString, t: JavaString, i: nat, j: nat): (r: real)
    requires i < |s| && j < |t|
    ensures r >= 0.0
    decreases i + j
  {
    var cost := sw.costFunc.cost(s, i, t, j);
    if i == 0 && j == 0 then
      Max3(0.0, -sw.gapCost, cost)
    else if j == 0 then
      Max3(0.0, Cell(sw, s, t, i - 1, 0) - sw.gapCost, cost)
    else if i == 0 then
      Max3(0.0, Cell(sw, s, t, 0, j - 1) - sw.gapCost, cost)
    else
      Max4(0.0, Cell(sw, s, t, i - 1, j) - sw.gapCost, Cell(sw, s, t, i, j - 1) - sw.gapCost,
           Cell(sw, s, t, i - 1, j - 1) + cost)
  }

  /**
   * `x` is the maximum of zero and every cell of the matrix: it bounds them
   * all and is zero or one of them.
   */
  ghost predicate IsMatrixMax(sw: Metric, s: JavaString, t: JavaString, x: real)
  {
    && x >= 0.0
    && (forall i: nat, j: nat :: i < |s| && j < |t| ==> Cell(sw, s, t, i, j) <= x)
    && (x == 0.0 || exists i: nat, j: nat :: i < |s| && j < |t| && x == Cell(sw, s, t, i, j))
  }

  /** `x` is the maximum of zero and the cells `lo <= j < hi` of row `i`. */
  ghost predicate IsMaxOverRow(sw: Metric, s: JavaString, t: JavaString, i: nat, lo: nat, hi: nat, x: real)
    requires i < |s| && hi <= |t|
  {
    && x >= 0.0
    && (forall j: nat :: lo <= j < hi ==> Cell(sw, s, t, i, j) <= x)
    && (x == 0.0 || exists j: nat :: lo <= j < hi && x == Cell(sw, s, t, i, j))
  }

  /** `x` is the maximum of zero and the first `k` cells of column 0. */
  ghost predicate IsMaxOverColumn(sw: Metric, s: JavaString, t: JavaString, k: nat, x: real)
    requires k <= |s| && 0 < |t|
  {
    && x >= 0.0
    && (forall i: nat :: i < k ==> Cell(sw, s, t, i, 0) <= x)
    && (x == 0.0 || exists i: nat :: i < k && x == Cell(sw, s, t, i, 0))
  }

  /**
   * `x` is the maximum of zero and the cells filled once the interior rows
   * before row `rows` are done: the first column, and the whole of every row
   * above `rows`.
   */
  ghost predicate IsMaxOverFilled(sw: Metric, s: JavaString, t: JavaString, rows: nat, x: real)
    requires rows <= |s|
  {
    && x >= 0.0
    && (forall i: nat, j: nat :: i < |s| && j < |t| && (i < rows || j == 0) ==> Cell(sw, s, t, i, j) <= x)
    && (x == 0.0 || exists i: nat, j: nat :: i < |s| && j < |t| && (i < rows || j == 0) && x == Cell(sw, s, t, i, j))
  }

  /** The maximum of zero and the cells `lo <= j < hi` of row `i`, taken left to right. */
  function RowMax(sw: Metric, s: JavaString, t: JavaString, i: nat, lo: nat, hi: nat): real
    requires i < |s| && hi <= |t|
    decreases hi
  {
    if hi <= lo then 0.0 else Max(RowMax(sw, s, t, i, lo, hi - 1), Cell(sw, s, t, i, hi - 1))
  }

  lemma {:induction false} RowMaxIsMax(sw: Metric, s: JavaString, t: JavaString, i: nat, lo: nat, hi: nat)
    requires i < |s| && hi <= |t|
    ensures IsMaxOverRow(sw, s, t, i, lo, hi, RowMax(sw, s, t, i, lo, hi))
    decreases hi
  {
    if lo < hi {
      RowMaxIsMax(sw, s, t, i, lo, hi - 1);
    }
  }

  /** The maximum of zero and the first `k` cells of column 0, taken top to bottom. */
  function ColumnMax(sw: Metric, s: JavaString, t: JavaString, k: nat): real
    requires k <= |s| && 0 < |t|
  {
    if k == 0 then 0.0 else Max(ColumnMax(sw, s, t, k - 1), Cell(sw, s, t, k - 1, 0))
  }

  lemma {:induction false} ColumnMaxIsMax(sw: Metric, s: JavaString, t: JavaString, k: nat)
    requires k <= |s| && 0 < |t|
    ensures IsMaxOverColumn(sw, s, t, k, ColumnMax(sw, s, t, k))
  {
    if k > 0 {
      ColumnMaxIsMax(sw, s, t, k - 1);
    }
  }

  /**
   * The running maximum in the order the matrix is filled: the first
   * column, then row 0, then the interior of each row up to `rows`.
   */
  function FillMax(sw: Metric, s: JavaString, t: JavaString, rows: nat): real
    requires 0 < rows <= |s| && 0 < |t|
  {
    if rows == 1 then Max(ColumnMax(sw, s, t, |s|), RowMax(sw, s, t, 0, 0, |t|))
    else Max(FillMax(sw, s, t, rows - 1), RowMax(sw, s, t, rows - 1, 1, |t|))
  }

  lemma {:induction false} FillMaxIsMax(sw: Metric, s: JavaString, t: JavaString, rows: nat)
    requires 0 < rows <= |s| && 0 < |t|
    ensures IsMaxOverFilled(sw, s, t, rows, FillMax(sw, s, t, rows))
  {
    if rows == 1 {
      ColumnMaxIsMax(sw, s, t, |s|);
      RowMaxIsMax(sw, s, t, 0, 0, |t|);
    } else {
      FillMaxIsMax(sw, s, t, rows - 1);
      RowMaxIsMax(sw, s, t, rows - 1, 1, |t|);
      FillMaxStep(sw, s, t, rows);
    }
  }

  /** Adding the interior of row `rows - 1` to the running maximum of the rows above it. */
  lemma FillMaxStep(sw: Metric, s: JavaString, t: JavaString, rows: nat)
    requires 1 < rows <= |s| && 0 < |t|
    requires IsMaxOverFilled(sw, s, t, rows - 1, FillMax(sw, s, t, rows - 1))
    requires IsMaxOverRow(sw, s, t, rows - 1, 1, |t|, RowMax(sw, s, t, rows - 1, 1, |t|))
    ensures IsMaxOverFilled(sw, s, t, rows, FillMax(sw, s, t, rows))
  {
    var above, row := FillMax(sw, s, t, rows - 1), RowMax(sw, s, t, rows - 1, 1, |t|);
    var x := FillMax(sw, s, t, rows);
    assert x == Max(above, row);
    forall i: nat, j: nat | i < |s| && j < |t| && (i < rows || j == 0)
      ensures Cell(sw, s, t, i, j) <= x
    {
      if i == rows - 1 && j != 0 {
        assert Cell(sw, s, t, rows - 1, j) <= row;
      } else {
        assert Cell(sw, s, t, i, j) <= above;
      }
    }
    if x != 0.0 && x == above {
      var i: nat, j: nat :| i < |s| && j < |t| && (i < rows - 1 || j == 0) && above == Cell(sw, s, t, i, j);
      assert i < rows || j == 0;
    } else if x != 0.0 {
      var j: nat :| 1 <= j < |t| && row == Cell(sw, s, t, rows - 1, j);
      assert rows - 1 < rows;
    }
  }

  /** Once every row is filled the running maximum is the maximum of the whole matrix. */
  lemma FillMaxIsMatrixMax(sw: Metric, s: JavaString, t: JavaString)
    requires 0 < |s| && 0 < |t|
    ensures IsMatrixMax(sw, s, t, FillMax(sw, s, t, |s|))
  {
    FillMaxIsMax(sw, s, t, |s|);
  }

  /**
   * The unnormalised similarity: the other string's length when one string
   * is empty, otherwise the largest cell of the matrix.
   */
  function RawScore(sw: Metric, s: JavaString, t: JavaString): real
  {
    if |s| == 0 then |t| as real
    else if |t| == 0 then |s| as real
    else FillMax(sw, s, t, |s|)
  }

  /**
   * The unnormalised similarity. Fills the `|s| x |t|` matrix column 0
   * first, then row 0, then the interior row by row, keeping the largest
   * cell seen so far.
   */
  method GetUnNormalisedSimilarity(sw: Metric, s: JavaString, t: JavaString) returns (r: real)
    ensures |s| == 0 ==> r == |t| as real
    ensures |s| > 0 && |t| == 0 ==> r == |s| as real
    ensures |s| > 0 && |t| > 0 ==> IsMatrixMax(sw, s, t, r)
    ensures r == RawScore(sw, s, t)
  {
    var n := |s|;
    var m := |t|;
    if n == 0 {
      return m as real;
    }
    if m == 0 {
      return n as real;
    }

    var d := new real[n, m];
    var maxSoFar := 0.0;
    maxSoFar := FillFirstColumn(sw, s, t, d, maxSoFar);
    maxSoFar := FillFirstRow(sw, s, t, d, maxSoFar);
    maxSoFar := FillInterior(sw, s, t, d, maxSoFar);
    FillMaxIsMatrixMax(sw, s, t);
    return maxSoFar;
  }

  /** The first column, top to bottom: each cell extends the one above it by a gap, or starts afresh. */
  method FillFirstColumn(sw: Metric, s: JavaString, t: JavaString, d: array2<real>, maxIn: real) returns (maxSoFar: real)
    requires d.Length0 == |s| && d.Length1 == |t| && 0 < |t|
    requires 0.0 <= maxIn
    modifies d
    ensures forall i: nat {:trigger d[i, 0]} :: i < |s| ==> d[i, 0] == Cell(sw, s, t, i, 0)
    ensures forall a: nat, b: nat {:trigger d[a, b]} :: a < |s| && 0 < b < |t| ==> d[a, b] == old(d[a, b])
    ensures maxSoFar == Max(maxIn, ColumnMax(sw, s, t, |s|))
  {
    var n := |s|;
    maxSoFar := maxIn;
    var i := 0;
    while i < n
      invariant i <= n
      invariant forall a: nat {:trigger d[a, 0]} :: a < i ==> d[a, 0] == Cell(sw, s, t, a, 0)
      invariant forall a: nat, b: nat {:trigger d[a, b]} :: a < |s| && 0 < b < |t| ==> d[a, b] == old(d[a, b])
      invariant maxSoFar == Max(maxIn, ColumnMax(sw, s, t, i))
    {
      var cost := sw.costFunc.cost(s, i, t, 0);
      if i == 0 {
        d[0, 0] := Max3(0.0, -sw.gapCost, cost);
      } else {
        FirstColumnCell(sw, s, t, i);
        d[i, 0] := Max3(0.0, d[i - 1, 0] - sw.gapCost, cost);
      }
      if d[i, 0] > maxSoFar {
        maxSoFar := d[i, 0];
      }
      i := i + 1;
    }
  }

  /**
   * The first row, left to right: each cell extends the one to its left by
   * a gap, or starts afresh; `d[0][0]` is written again with the value it has.
   */
  method FillFirstRow(sw: Metric, s: JavaString, t: JavaString, d: array2<real>, maxIn: real) returns (maxSoFar: real)
    requires d.Length0 == |s| && d.Length1 == |t| && 0 < |s| && 0 < |t|
    requires forall i: nat {:trigger d[i, 0]} :: i < |s| ==> d[i, 0] == Cell(sw, s, t, i, 0)
    requires 0.0 <= maxIn
    modifies d
    ensures forall i: nat {:trigger d[i, 0]} :: i < |s| ==> d[i, 0] == Cell(sw, s, t, i, 0)
    ensures forall j: nat {:trigger d[0, j]} :: j < |t| ==> d[0, j] == Cell(sw, s, t, 0, j)
    ensures forall a: nat, b: nat {:trigger d[a, b]} :: 0 < a < |s| && 0 < b < |t| ==> d[a, b] == old(d[a, b])
    ensures maxSoFar == Max(maxIn, RowMax(sw, s, t, 0, 0, |t|))
  {
    var m := |t|;
    maxSoFar := maxIn;
    var j := 0;
    while j < m
      invariant j <= m
      invariant forall a: nat {:trigger d[a, 0]} :: a < |s| ==> d[a, 0] == Cell(sw, s, t, a, 0)
      invariant forall b: nat {:trigger d[0, b]} :: b < j ==> d[0, b] == Cell(sw, s, t, 0, b)
      invariant forall a: nat, b: nat {:trigger d[a, b]} :: 0 < a < |s| && 0 < b < |t| ==> d[a, b] == old(d[a, b])
      invariant maxSoFar == Max(maxIn, RowMax(sw, s, t, 0, 0, j))
    {
      var cost := sw.costFunc.cost(s, 0, t, j);
      if j == 0 {
        d[0, 0] := Max3(0.0, -sw.gapCost, cost);
      } else {
        FirstRowCell(sw, s, t, j);
        d[0, j] := Max3(0.0, d[0, j - 1] - sw.gapCost, cost);
      }
      if d[0, j] > maxSoFar {
        maxSoFar := d[0, j];
      }
      j := j + 1;
    }
  }

  /** The interior, row by row from the second row on. */
  method FillInterior(sw: Metric, s: JavaString, t: JavaString, d: array2<real>, maxIn: real) returns (maxSoFar: real)
    requires d.Length0 == |s| && d.Length1 == |t| && 0 < |s| && 0 < |t|
    requires forall i: nat {:trigger d[i, 0]} :: i < |s| ==> d[i, 0] == Cell(sw, s, t, i, 0)
    requires forall j: nat {:trigger d[0, j]} :: j < |t| ==> d[0, j] == Cell(sw, s, t, 0, j)
    requires maxIn == FillMax(sw, s, t, 1)
    modifies d
    ensures forall a: nat, b: nat {:trigger d[a, b]} :: a < |s| && b < |t| ==> d[a, b] == Cell(sw, s, t, a, b)
    ensures maxSoFar == FillMax(sw, s, t, |s|)
  {
    var n := |s|;
    maxSoFar := maxIn;
    var i := 1;
    while i < n
      invariant 1 <= i <= n
      invariant forall a: nat, b: nat {:trigger d[a, b]} :: a < i && b < |t| ==> d[a, b] == Cell(sw, s, t, a, b)
      invariant forall a: nat {:trigger d[a, 0]} :: i <= a < n ==> d[a, 0] == Cell(sw, s, t, a, 0)
      invariant maxSoFar == FillMax(sw, s, t, i)
    {
      maxSoFar := FillRow(sw, s, t, d, i, maxSoFar);
      i := i + 1;
    }
  }

  /**
   * Row `i` of the interior, left to right: each cell is the best of a gap
   * from above, a gap from the left and a substitution on the diagonal, or zero.
   */
  method FillRow(sw: Metric, s: JavaString, t: JavaString, d: array2<real>, i: nat, maxIn: real) returns (maxSoFar: real)
    requires d.Length0 == |s| && d.Length1 == |t| && 0 < i < |s| && 0 < |t|
    requires forall b: nat {:trigger d[i - 1, b]} :: b < |t| ==> d[i - 1, b] == Cell(sw, s, t, i - 1, b)
    requires forall a: nat {:trigger d[a, 0]} :: i <= a < |s| ==> d[a, 0] == Cell(sw, s, t, a, 0)
    requires 0.0 <= maxIn
    modifies d
    ensures forall b: nat {:trigger d[i, b]} :: b < |t| ==> d[i, b] == Cell(sw, s, t, i, b)
    ensures forall a: nat, b: nat {:trigger d[a, b]} :: a < |s| && b < |t| && a != i ==> d[a, b] == old(d[a, b])
    ensures maxSoFar == Max(maxIn, RowMax(sw, s, t, i, 1, |t|))
  {
    var m := |t|;
    maxSoFar := maxIn;
    var j := 1;
    while j < m
      invariant 1 <= j <= m
      invariant forall a: nat, b: nat {:trigger d[a, b]} :: a < |s| && b < |t| && a != i ==> d[a, b] == old(d[a, b])
      invariant forall b: nat {:trigger d[i - 1, b]} :: b < m ==> d[i - 1, b] == Cell(sw, s, t, i - 1, b)
      invariant forall a: nat {:trigger d[a, 0]} :: i < a < |s| ==> d[a, 0] == Cell(sw, s, t, a, 0)
      invariant forall b: nat {:trigger d[i, b]} :: b < j ==> d[i, b] == Cell(sw, s, t, i, b)
      invariant maxSoFar == Max(maxIn, RowMax(sw, s, t, i, 1, j))
    {
      var cost := sw.costFunc.cost(s, i, t, j);
      InteriorCell(sw, s, t, i, j);
      d[i, j] := Max4(0.0, d[i - 1, j] - sw.gapCost, d[i, j - 1] - sw.gapCost, d[i - 1, j - 1] + cost);
      if d[i, j] > maxSoFar {
        maxSoFar := d[i, j];
      }
      j := j + 1;
    }
  }

  /** A first-column cell below the corner extends the one above it by a gap, or starts afresh. */
  lemma FirstColumnCell(sw: Metric, s: JavaString, t: JavaString, i: nat)
    requires 0 < i < |s| && 0 < |t|
    ensures Cell(sw, s, t, i, 0) == Max3(0.0, Cell(sw, s, t, i - 1, 0) - sw.gapCost, sw.costFunc.cost(s, i, t, 0))
  {
  }

  /** A first-row cell right of the corner extends the one to its left by a gap, or starts afresh. */
  lemma FirstRowCell(sw: Metric, s: JavaString, t: JavaString, j: nat)
    requires 0 < |s| && 0 < j < |t|
    ensures Cell(sw, s, t, 0, j) == Max3(0.0, Cell(sw, s, t, 0, j - 1) - sw.gapCost, sw.costFunc.cost(s, 0, t, j))
  {
  }

  /** An interior cell is the best of a gap from above, a gap from the left, a substitution, or zero. */
  lemma InteriorCell(sw: Metric, s: JavaString, t: JavaString, i: nat, j: nat)
    requires 0 < i < |s| && 0 < j < |t|
    ensures Cell(sw, s, t, i, j)
         == Max4(0.0, Cell(sw, s, t, i - 1, j) - sw.gapCost, Cell(sw, s, t, i, j - 1) - sw.gapCost,
                 Cell(sw, s, t, i - 1, j - 1) + sw.costFunc.cost(s, i, t, j))
  {
  }

  /**
   * The divisor of the normalisation: the shorter length times the claimed
   * maximum cost, or times the negated gap cost when that is larger.
   */
  function NormalisingMax(sw: Metric, s: JavaString, t: JavaString): real
  {
    var shorter := Min(|s|, |t|) as real;
    if sw.costFunc.maxCost > -sw.gapCost then shorter * sw.costFunc.maxCost
    else shorter * -sw.gapCost
  }

  /** The normalised similarity: 1 when the divisor is zero, otherwise the raw score over it. */
  function Similarity(sw: Metric, s: JavaString, t: JavaString): real
  {
    var maxValue := NormalisingMax(sw, s, t);
    if maxValue == 0.0 then 1.0 else RawScore(sw, s, t) / maxValue
  }

  /** Normalises the unnormalised similarity by the best score the shorter string allows. */
  method GetSimilarity(sw: Metric, s: JavaString, t: JavaString) returns (r: real)
    ensures r == Similarity(sw, s, t)
    ensures Min(|s|, |t|) == 0 ==> r == 1.0
  {
    // The source computes the raw score before the divisor; neither has a
    // side effect, and the divisor is worked out first here.
    var maxValue := Min(|s|, |t|) as real;
    if sw.costFunc.maxCost > -sw.gapCost {
      maxValue := maxValue * sw.costFunc.maxCost;
    } else {
      maxValue := maxValue * -sw.gapCost;
    }
    assert maxValue == NormalisingMax(sw, s, t);
    var smithWaterman := GetUnNormalisedSimilarity(sw, s, t);
    if maxValue == 0.0 {
      r := 1.0;
    } else {
      r := smithWaterman / maxValue;
    }
  }

  /** The advisory cost estimate, from the two lengths. */
  function SimilarityTimingEstimated(s: JavaString, t: JavaString): (r: real)
    ensures r >= 0.0
  {
    var n := |s| as real;
    var m := |t| as real;
    (n * m + n + m) * EstimatedTimingConst
  }
}

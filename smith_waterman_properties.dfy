/**
 * What the Smith-Waterman matrix and its normalisation guarantee: the
 * matrix is the textbook local-alignment matrix, every cell is bounded by
 * the best score its shorter prefix allows, the normalised similarity lies
 * in [0, 1], it is symmetric for a symmetric cost function, and a string
 * is fully similar to itself.
 */
module SmithWatermanProperties {
  import opened Maxima
  import opened SmithWaterman

  /**
   * The textbook local-alignment matrix, indexed like the metric's matrix but
   * with a border row and column of zeros at index -1: `H(i, j)` is the best
   * score of a local alignment ending at `s[i]` and `t[j]`.
   */
  function Textbook(sw: Metric, s: JavaString, t: JavaString, i: int, j: int): real
    requires -1 <= i < |s| && -1 <= j < |t|
    decreases i + j + 2
  {
    if i < 0 || j < 0 then 0.0
    else Max4(0.0, Textbook(sw, s, t, i - 1, j) - sw.gapCost, Textbook(sw, s, t, i, j - 1) - sw.gapCost,
              Textbook(sw, s, t, i - 1, j - 1) + sw.costFunc.cost(s, i, t, j))
  }

  /**
   * With a non-negative gap cost the matrix the metric fills is the textbook
   * matrix without its zero border: the first row and column, which look back
   * only along themselves, lose nothing by ignoring the border.
   */
  lemma CellMatchesTextbook(sw: Metric, s: JavaString, t: JavaString, i: nat, j: nat)
    requires sw.gapCost >= 0.0
    requires i < |s| && j < |t|
    ensures Cell(sw, s, t, i, j) == Textbook(sw, s, t, i, j)
  {
    TextbookAgreement(sw, s, t, i, j);
  }

  /** Cell `(i, j)` of the metric's matrix holds the textbook value. */
  ghost predicate AgreesWithTextbook(sw: Metric, s: JavaString, t: JavaString, i: nat, j: nat)
    requires i < |s| && j < |t|
  {
    Cell(sw, s, t, i, j) == Textbook(sw, s, t, i, j)
  }

  /** The induction behind `CellMatchesTextbook`, over `i + j`. */
  lemma {:induction false} TextbookAgreement(sw: Metric, s: JavaString, t: JavaString, i: nat, j: nat)
    requires sw.gapCost >= 0.0
    requires i < |s| && j < |t|
    ensures AgreesWithTextbook(sw, s, t, i, j)
    decreases i + j, 1
  {
    if i == 0 && j == 0 {
    } else if j == 0 {
      ColumnAgreement(sw, s, t, i);
    } else if i == 0 {
      RowAgreement(sw, s, t, j);
    } else {
      InteriorInduction(sw, s, t, i, j);
    }
  }

  /** The interior case of `TextbookAgreement`: the three neighbours first. */
  lemma {:induction false} InteriorInduction(sw: Metric, s: JavaString, t: JavaString, i: nat, j: nat)
    requires sw.gapCost >= 0.0
    requires 0 < i < |s| && 0 < j < |t|
    ensures AgreesWithTextbook(sw, s, t, i, j)
    decreases i + j, 0
  {
    TextbookAgreement(sw, s, t, i - 1, j);
    TextbookAgreement(sw, s, t, i, j - 1);
    TextbookAgreement(sw, s, t, i - 1, j - 1);
    InteriorAgreement(sw, s, t, i, j);
  }

  /** The first-column step of `TextbookAgreement`. */
  lemma {:induction false} ColumnAgreement(sw: Metric, s: JavaString, t: JavaString, i: nat)
    requires sw.gapCost >= 0.0
    requires 0 < i < |s| && 0 < |t|
    ensures AgreesWithTextbook(sw, s, t, i, 0)
    decreases i, 0
  {
    TextbookAgreement(sw, s, t, i - 1, 0);
    FirstColumnCell(sw, s, t, i);
  }

  /** The first-row step of `TextbookAgreement`. */
  lemma {:induction false} RowAgreement(sw: Metric, s: JavaString, t: JavaString, j: nat)
    requires sw.gapCost >= 0.0
    requires 0 < |s| && 0 < j < |t|
    ensures AgreesWithTextbook(sw, s, t, 0, j)
    decreases j, 0
  {
    TextbookAgreement(sw, s, t, 0, j - 1);
    FirstRowCell(sw, s, t, j);
  }

  /** The interior step of `TextbookAgreement`, once the three neighbours agree. */
  lemma InteriorAgreement(sw: Metric, s: JavaString, t: JavaString, i: nat, j: nat)
    requires 0 < i < |s| && 0 < j < |t|
    requires AgreesWithTextbook(sw, s, t, i - 1, j)
    requires AgreesWithTextbook(sw, s, t, i, j - 1)
    requires AgreesWithTextbook(sw, s, t, i - 1, j - 1)
    ensures AgreesWithTextbook(sw, s, t, i, j)
  {
    InteriorCell(sw, s, t, i, j);
  }

  /**
   * `k` copies of `x` added up. The bounds on cells are stated with it rather
   * than with a product, so that reasoning about cells stays linear.
   */
  function Times(k: nat, x: real): real
  {
    if k == 0 then 0.0 else Times(k - 1, x) + x
  }

  /** `Times` is multiplication by the count. */
  lemma {:induction false} TimesIsProduct(k: nat, x: real)
    ensures Times(k, x) == k as real * x
  {
    if k > 0 {
      TimesIsProduct(k - 1, x);
    }
  }

  /** More copies of a non-negative score add up to more. */
  lemma {:induction false} TimesMonotone(a: nat, b: nat, x: real)
    requires a <= b && 0.0 <= x
    ensures 0.0 <= Times(a, x) <= Times(b, x)
    decreases b
  {
    if a < b {
      TimesMonotone(a, b - 1, x);
    } else if a > 0 {
      TimesMonotone(a - 1, a - 1, x);
    }
  }

  /**
   * The most an alignment ending at cell `(i, j)` can score when every cost
   * is at most `maxCost`: `min(i + 1, j + 1)` substitutions at `maxCost`
   * each, or nothing when `maxCost` is negative.
   */
  function CellLimit(sw: Metric, i: nat, j: nat): real
  {
    Times(Min(i + 1, j + 1), Max(sw.costFunc.maxCost, 0.0))
  }

  /**
   * With a non-negative gap cost and costs bounded by `maxCost`, no cell
   * exceeds `CellLimit`.
   */
  lemma CellBound(sw: Metric, s: JavaString, t: JavaString, i: nat, j: nat)
    requires sw.gapCost >= 0.0
    requires CostsBounded(sw.costFunc, s, t)
    requires i < |s| && j < |t|
    ensures Cell(sw, s, t, i, j) <= CellLimit(sw, i, j)
  {
    LimitInduction(sw, s, t, i, j);
  }

  /**
   * `CellBound` in the metric's own terms: with a non-negative `maxCost`,
   * cell `(i, j)` is at most `min(i + 1, j + 1) * maxCost`.
   */
  lemma CellBoundProduct(sw: Metric, s: JavaString, t: JavaString, i: nat, j: nat)
    requires sw.gapCost >= 0.0 && sw.costFunc.maxCost >= 0.0
    requires CostsBounded(sw.costFunc, s, t)
    requires i < |s| && j < |t|
    ensures Cell(sw, s, t, i, j) <= Min(i + 1, j + 1) as real * sw.costFunc.maxCost
  {
    CellBound(sw, s, t, i, j);
    LimitIsProduct(sw, i, j);
  }

  /** With a non-negative `maxCost`, `CellLimit` is the product it stands for. */
  lemma LimitIsProduct(sw: Metric, i: nat, j: nat)
    requires sw.costFunc.maxCost >= 0.0
    ensures CellLimit(sw, i, j) == Min(i + 1, j + 1) as real * sw.costFunc.maxCost
  {
    assert Max(sw.costFunc.maxCost, 0.0) == sw.costFunc.maxCost;
    TimesIsProduct(Min(i + 1, j + 1), sw.costFunc.maxCost);
  }

  /** Cell `(i, j)` does not exceed its limit. */
  ghost predicate WithinLimit(sw: Metric, s: JavaString, t: JavaString, i: nat, j: nat)
    requires i < |s| && j < |t|
  {
    Cell(sw, s, t, i, j) <= CellLimit(sw, i, j)
  }

  /** The induction behind `CellBound`, over `i + j`. */
  lemma {:induction false} LimitInduction(sw: Metric, s: JavaString, t: JavaString, i: nat, j: nat)
    requires sw.gapCost >= 0.0
    requires CostsBounded(sw.costFunc, s, t)
    requires i < |s| && j < |t|
    ensures WithinLimit(sw, s, t, i, j)
    decreases i + j, 1
  {
    if i == 0 && j == 0 {
      assert CostWithin(sw.costFunc, s, 0, t, 0);
      EdgeLimit(sw, 0, 0);
      EdgeLimitStep(sw, 0.0, sw.costFunc.cost(s, 0, t, 0));
    } else if j == 0 {
      ColumnLimit(sw, s, t, i);
    } else if i == 0 {
      RowLimit(sw, s, t, j);
    } else {
      InteriorLimitInduction(sw, s, t, i, j);
    }
  }

  /** The first-column step of `LimitInduction`: the limit there is one `maxCost`. */
  lemma {:induction false} ColumnLimit(sw: Metric, s: JavaString, t: JavaString, i: nat)
    requires sw.gapCost >= 0.0
    requires CostsBounded(sw.costFunc, s, t)
    requires 0 < i < |s| && 0 < |t|
    ensures WithinLimit(sw, s, t, i, 0)
    decreases i, 0
  {
    assert CostWithin(sw.costFunc, s, i, t, 0);
    LimitInduction(sw, s, t, i - 1, 0);
    FirstColumnCell(sw, s, t, i);
    EdgeLimit(sw, i - 1, 0);
    EdgeLimit(sw, i, 0);
    EdgeLimitStep(sw, Cell(sw, s, t, i - 1, 0), sw.costFunc.cost(s, i, t, 0));
  }

  /** The first-row step of `LimitInduction`: the limit there is one `maxCost`. */
  lemma {:induction false} RowLimit(sw: Metric, s: JavaString, t: JavaString, j: nat)
    requires sw.gapCost >= 0.0
    requires CostsBounded(sw.costFunc, s, t)
    requires 0 < |s| && 0 < j < |t|
    ensures WithinLimit(sw, s, t, 0, j)
    decreases j, 0
  {
    assert CostWithin(sw.costFunc, s, 0, t, j);
    LimitInduction(sw, s, t, 0, j - 1);
    FirstRowCell(sw, s, t, j);
    EdgeLimit(sw, 0, j - 1);
    EdgeLimit(sw, 0, j);
    EdgeLimitStep(sw, Cell(sw, s, t, 0, j - 1), sw.costFunc.cost(s, 0, t, j));
  }

  /** The interior case of `LimitInduction`: the three neighbours first. */
  lemma {:induction false} InteriorLimitInduction(sw: Metric, s: JavaString, t: JavaString, i: nat, j: nat)
    requires sw.gapCost >= 0.0
    requires CostsBounded(sw.costFunc, s, t)
    requires 0 < i < |s| && 0 < j < |t|
    ensures WithinLimit(sw, s, t, i, j)
    decreases i + j, 0
  {
    LimitInduction(sw, s, t, i - 1, j);
    LimitInduction(sw, s, t, i, j - 1);
    LimitInduction(sw, s, t, i - 1, j - 1);
    InteriorWithinLimit(sw, s, t, i, j);
  }

  /** An interior cell is within its limit once its three neighbours are. */
  lemma InteriorWithinLimit(sw: Metric, s: JavaString, t: JavaString, i: nat, j: nat)
    requires sw.gapCost >= 0.0
    requires CostsBounded(sw.costFunc, s, t)
    requires 0 < i < |s| && 0 < j < |t|
    requires WithinLimit(sw, s, t, i - 1, j)
    requires WithinLimit(sw, s, t, i, j - 1)
    requires WithinLimit(sw, s, t, i - 1, j - 1)
    ensures WithinLimit(sw, s, t, i, j)
  {
    assert CostWithin(sw.costFunc, s, i, t, j);
    InteriorCell(sw, s, t, i, j);
    InteriorLimitStep(sw, i, j, Cell(sw, s, t, i - 1, j), Cell(sw, s, t, i, j - 1),
                      Cell(sw, s, t, i - 1, j - 1), sw.costFunc.cost(s, i, t, j));
  }

  /** On the first row and the first column the limit is a single `maxCost`. */
  lemma EdgeLimit(sw: Metric, i: nat, j: nat)
    requires i == 0 || j == 0
    ensures CellLimit(sw, i, j) == Max(sw.costFunc.maxCost, 0.0)
  {
    assert Min(i + 1, j + 1) == 1;
    assert Times(1, Max(sw.costFunc.maxCost, 0.0)) == Times(0, Max(sw.costFunc.maxCost, 0.0)) + Max(sw.costFunc.maxCost, 0.0);
  }

  /** The arithmetic of an edge step: a gap or a fresh start stays within one `maxCost`. */
  lemma EdgeLimitStep(sw: Metric, prev: real, cost: real)
    requires 0.0 <= sw.gapCost && cost <= sw.costFunc.maxCost
    requires prev <= Max(sw.costFunc.maxCost, 0.0)
    ensures Max3(0.0, prev - sw.gapCost, cost) <= Max(sw.costFunc.maxCost, 0.0)
  {
  }

  /**
   * The arithmetic of the interior step: gaps never raise the limit, and a
   * substitution adds at most one `maxCost` to the limit of the diagonal cell.
   */
  lemma InteriorLimitStep(sw: Metric, i: nat, j: nat, up: real, left: real, diag: real, cost: real)
    requires 0 < i && 0 < j
    requires 0.0 <= sw.gapCost && cost <= sw.costFunc.maxCost
    requires up <= CellLimit(sw, i - 1, j)
    requires left <= CellLimit(sw, i, j - 1)
    requires diag <= CellLimit(sw, i - 1, j - 1)
    ensures Max4(0.0, up - sw.gapCost, left - sw.gapCost, diag + cost) <= CellLimit(sw, i, j)
  {
    var m := Max(sw.costFunc.maxCost, 0.0);
    var k := Min(i + 1, j + 1);
    TimesMonotone(0, k, m);
    TimesMonotone(Min(i, j + 1), k, m);
    TimesMonotone(Min(i + 1, j), k, m);
    assert Times(k, m) == Times(Min(i, j), m) + m;
  }

  /** No cell exceeds `bound` when the matrix maximum is at most `bound`, and conversely. */
  lemma MatrixMaxBelow(sw: Metric, s: JavaString, t: JavaString, x: real, bound: real)
    requires IsMatrixMax(sw, s, t, x)
    requires 0.0 <= bound
    requires forall i: nat, j: nat :: i < |s| && j < |t| ==> Cell(sw, s, t, i, j) <= bound
    ensures x <= bound
  {
    if x != 0.0 {
      var i: nat, j: nat :| i < |s| && j < |t| && x == Cell(sw, s, t, i, j);
    }
  }

  /** Under the conditions of `CellBound`, no cell of the matrix exceeds `min(|s|, |t|)` substitutions. */
  lemma CellWithin(sw: Metric, s: JavaString, t: JavaString, i: nat, j: nat)
    requires sw.gapCost >= 0.0
    requires CostsBounded(sw.costFunc, s, t)
    requires i < |s| && j < |t|
    ensures Cell(sw, s, t, i, j) <= Times(Min(|s|, |t|), Max(sw.costFunc.maxCost, 0.0))
  {
    CellBound(sw, s, t, i, j);
    TimesMonotone(Min(i + 1, j + 1), Min(|s|, |t|), Max(sw.costFunc.maxCost, 0.0));
  }

  /**
   * For two non-empty strings, under the same conditions, the raw score is
   * at most the length of the shorter string times `maxCost`.
   */
  lemma RawScoreBound(sw: Metric, s: JavaString, t: JavaString)
    requires sw.gapCost >= 0.0
    requires CostsBounded(sw.costFunc, s, t)
    requires 0 < |s| && 0 < |t|
    ensures 0.0 <= RawScore(sw, s, t) <= Times(Min(|s|, |t|), Max(sw.costFunc.maxCost, 0.0))
  {
    var bound := Times(Min(|s|, |t|), Max(sw.costFunc.maxCost, 0.0));
    TimesMonotone(0, Min(|s|, |t|), Max(sw.costFunc.maxCost, 0.0));
    forall i: nat, j: nat | i < |s| && j < |t|
      ensures Cell(sw, s, t, i, j) <= bound
    {
      CellWithin(sw, s, t, i, j);
    }
    FillMaxIsMatrixMax(sw, s, t);
    MatrixMaxBelow(sw, s, t, RawScore(sw, s, t), bound);
  }

  /**
   * `RawScoreBound` in the metric's own terms: with a non-negative `maxCost`,
   * the raw score is at most `min(|s|, |t|) * maxCost`.
   */
  lemma RawScoreBoundProduct(sw: Metric, s: JavaString, t: JavaString)
    requires sw.gapCost >= 0.0 && sw.costFunc.maxCost >= 0.0
    requires CostsBounded(sw.costFunc, s, t)
    requires 0 < |s| && 0 < |t|
    ensures 0.0 <= RawScore(sw, s, t) <= Min(|s|, |t|) as real * sw.costFunc.maxCost
  {
    RawScoreBound(sw, s, t);
    ShorterLimitIsProduct(sw, s, t);
  }

  /** With a non-negative `maxCost`, the bound of `RawScoreBound` is the product it stands for. */
  lemma ShorterLimitIsProduct(sw: Metric, s: JavaString, t: JavaString)
    requires sw.costFunc.maxCost >= 0.0
    ensures Times(Min(|s|, |t|), Max(sw.costFunc.maxCost, 0.0)) == Min(|s|, |t|) as real * sw.costFunc.maxCost
  {
    assert Max(sw.costFunc.maxCost, 0.0) == sw.costFunc.maxCost;
    TimesIsProduct(Min(|s|, |t|), sw.costFunc.maxCost);
  }

  /**
   * The arithmetic of the normalisation: a raw score between zero and the
   * shorter length times `max(maxCost, 0)`, divided by a non-zero divisor,
   * lies in [0, 1].
   */
  lemma RatioInUnitRange(sw: Metric, s: JavaString, t: JavaString, raw: real)
    requires 0.0 <= sw.gapCost
    requires 0.0 <= raw <= Min(|s|, |t|) as real * Max(sw.costFunc.maxCost, 0.0)
    requires NormalisingMax(sw, s, t) != 0.0
    ensures 0.0 <= raw / NormalisingMax(sw, s, t) <= 1.0
  {
    if sw.costFunc.maxCost <= 0.0 {
      assert raw == 0.0;
    }
  }

  /**
   * With a non-negative gap cost and costs bounded by `maxCost`, the
   * normalised similarity lies in [0, 1]: either the divisor is zero, or it
   * is the bound on the raw score, or every cell is zero.
   */
  lemma SimilarityInUnitRange(sw: Metric, s: JavaString, t: JavaString)
    requires sw.gapCost >= 0.0
    requires CostsBounded(sw.costFunc, s, t)
    ensures 0.0 <= Similarity(sw, s, t) <= 1.0
  {
    if NormalisingMax(sw, s, t) != 0.0 {
      RawScoreBound(sw, s, t);
      TimesIsProduct(Min(|s|, |t|), Max(sw.costFunc.maxCost, 0.0));
      RatioInUnitRange(sw, s, t, RawScore(sw, s, t));
    }
  }

  /** The two maxima of one matrix are the same score. */
  lemma MatrixMaxUnique(sw: Metric, s: JavaString, t: JavaString, x: real, y: real)
    requires IsMatrixMax(sw, s, t, x) && IsMatrixMax(sw, s, t, y)
    ensures x == y
  {
    if x != 0.0 {
      var i: nat, j: nat :| i < |s| && j < |t| && x == Cell(sw, s, t, i, j);
      assert x <= y;
    }
    if y != 0.0 {
      var i: nat, j: nat :| i < |s| && j < |t| && y == Cell(sw, s, t, i, j);
      assert y <= x;
    }
  }

  /**
   * For a symmetric cost function, the matrix of `t` against `s` is the
   * transpose of the matrix of `s` against `t`.
   */
  lemma CellTranspose(sw: Metric, s: JavaString, t: JavaString, i: nat, j: nat)
    requires CostsSymmetric(sw.costFunc, s, t)
    requires i < |s| && j < |t|
    ensures Cell(sw, s, t, i, j) == Cell(sw, t, s, j, i)
  {
    TransposeInduction(sw, s, t, i, j);
  }

  /** Cell `(i, j)` of `s` against `t` is cell `(j, i)` of `t` against `s`. */
  ghost predicate AgreesWithTranspose(sw: Metric, s: JavaString, t: JavaString, i: nat, j: nat)
    requires i < |s| && j < |t|
  {
    Cell(sw, s, t, i, j) == Cell(sw, t, s, j, i)
  }

  /** The induction behind `CellTranspose`, over `i + j`. */
  lemma {:induction false} TransposeInduction(sw: Metric, s: JavaString, t: JavaString, i: nat, j: nat)
    requires CostsSymmetric(sw.costFunc, s, t)
    requires i < |s| && j < |t|
    ensures AgreesWithTranspose(sw, s, t, i, j)
    decreases i + j, 1
  {
    if i == 0 && j == 0 {
      assert CostSymmetricAt(sw.costFunc, s, 0, t, 0);
    } else if j == 0 {
      ColumnTranspose(sw, s, t, i);
    } else if i == 0 {
      RowTranspose(sw, s, t, j);
    } else {
      InteriorTransposeInduction(sw, s, t, i, j);
    }
  }

  /** The first-column step of `TransposeInduction`: it becomes the first row. */
  lemma {:induction false} ColumnTranspose(sw: Metric, s: JavaString, t: JavaString, i: nat)
    requires CostsSymmetric(sw.costFunc, s, t)
    requires 0 < i < |s| && 0 < |t|
    ensures AgreesWithTranspose(sw, s, t, i, 0)
    decreases i, 0
  {
    assert CostSymmetricAt(sw.costFunc, s, i, t, 0);
    TransposeInduction(sw, s, t, i - 1, 0);
    FirstColumnCell(sw, s, t, i);
    FirstRowCell(sw, t, s, i);
  }

  /** The first-row step of `TransposeInduction`: it becomes the first column. */
  lemma {:induction false} RowTranspose(sw: Metric, s: JavaString, t: JavaString, j: nat)
    requires CostsSymmetric(sw.costFunc, s, t)
    requires 0 < |s| && 0 < j < |t|
    ensures AgreesWithTranspose(sw, s, t, 0, j)
    decreases j, 0
  {
    assert CostSymmetricAt(sw.costFunc, s, 0, t, j);
    TransposeInduction(sw, s, t, 0, j - 1);
    FirstRowCell(sw, s, t, j);
    FirstColumnCell(sw, t, s, j);
  }

  /** The interior case of `TransposeInduction`: the three neighbours first. */
  lemma {:induction false} InteriorTransposeInduction(sw: Metric, s: JavaString, t: JavaString, i: nat, j: nat)
    requires CostsSymmetric(sw.costFunc, s, t)
    requires 0 < i < |s| && 0 < j < |t|
    ensures AgreesWithTranspose(sw, s, t, i, j)
    decreases i + j, 0
  {
    TransposeInduction(sw, s, t, i - 1, j);
    TransposeInduction(sw, s, t, i, j - 1);
    TransposeInduction(sw, s, t, i - 1, j - 1);
    InteriorTranspose(sw, s, t, i, j);
  }

  /**
   * An interior cell agrees with its transpose once its three neighbours do:
   * the gap from above and the gap from the left trade places.
   */
  lemma InteriorTranspose(sw: Metric, s: JavaString, t: JavaString, i: nat, j: nat)
    requires CostsSymmetric(sw.costFunc, s, t)
    requires 0 < i < |s| && 0 < j < |t|
    requires AgreesWithTranspose(sw, s, t, i - 1, j)
    requires AgreesWithTranspose(sw, s, t, i, j - 1)
    requires AgreesWithTranspose(sw, s, t, i - 1, j - 1)
    ensures AgreesWithTranspose(sw, s, t, i, j)
  {
    assert CostSymmetricAt(sw.costFunc, s, i, t, j);
    InteriorCell(sw, s, t, i, j);
    InteriorCell(sw, t, s, j, i);
  }

  /** A maximum of the matrix of `s` against `t` is one of the transposed matrix. */
  lemma MatrixMaxTranspose(sw: Metric, s: JavaString, t: JavaString, x: real)
    requires CostsSymmetric(sw.costFunc, s, t)
    requires IsMatrixMax(sw, s, t, x)
    ensures IsMatrixMax(sw, t, s, x)
  {
    forall j: nat, i: nat | j < |t| && i < |s|
      ensures Cell(sw, t, s, j, i) <= x
    {
      CellTranspose(sw, s, t, i, j);
    }
    if x != 0.0 {
      var i: nat, j: nat :| i < |s| && j < |t| && x == Cell(sw, s, t, i, j);
      CellTranspose(sw, s, t, i, j);
      assert x == Cell(sw, t, s, j, i);
    }
  }

  /** For a symmetric cost function, the raw score does not depend on the order of the strings. */
  lemma RawScoreSymmetric(sw: Metric, s: JavaString, t: JavaString)
    requires CostsSymmetric(sw.costFunc, s, t)
    ensures RawScore(sw, s, t) == RawScore(sw, t, s)
  {
    if 0 < |s| && 0 < |t| {
      FillMaxIsMatrixMax(sw, s, t);
      FillMaxIsMatrixMax(sw, t, s);
      MatrixMaxTranspose(sw, s, t, FillMax(sw, s, t, |s|));
      MatrixMaxUnique(sw, t, s, FillMax(sw, s, t, |s|), FillMax(sw, t, s, |t|));
    }
  }

  /** For a symmetric cost function, the similarity does not depend on the order of the strings. */
  lemma SimilaritySymmetric(sw: Metric, s: JavaString, t: JavaString)
    requires CostsSymmetric(sw.costFunc, s, t)
    ensures Similarity(sw, s, t) == Similarity(sw, t, s)
  {
    RawScoreSymmetric(sw, s, t);
    NormalisingMaxSymmetric(sw, s, t);
  }

  /** The divisor depends only on the shorter length, whichever string that is. */
  lemma NormalisingMaxSymmetric(sw: Metric, s: JavaString, t: JavaString)
    ensures NormalisingMax(sw, s, t) == NormalisingMax(sw, t, s)
  {
    assert Min(|s|, |t|) == Min(|t|, |s|);
  }

  /**
   * When `s` costs exactly `maxCost` against itself at every position, the
   * diagonal cell `(i, i)` reaches `CellLimit`: `i + 1` matches in a row.
   */
  lemma {:induction false} DiagonalReachesLimit(sw: Metric, s: JavaString, i: nat)
    requires i < |s| && 0.0 <= sw.costFunc.maxCost
    requires forall k: nat :: k < |s| ==> sw.costFunc.cost(s, k, s, k) == sw.costFunc.maxCost
    ensures Cell(sw, s, s, i, i) >= CellLimit(sw, i, i)
  {
    assert sw.costFunc.cost(s, i, s, i) == sw.costFunc.maxCost;
    if i == 0 {
      assert CellLimit(sw, 0, 0) == Times(1, sw.costFunc.maxCost);
    } else {
      DiagonalReachesLimit(sw, s, i - 1);
      DiagonalStep(sw, s, i);
    }
  }

  /** One diagonal step of `DiagonalReachesLimit`: a match adds `maxCost` to the cell above-left. */
  lemma DiagonalStep(sw: Metric, s: JavaString, i: nat)
    requires 0 < i < |s| && 0.0 <= sw.costFunc.maxCost
    requires sw.costFunc.cost(s, i, s, i) == sw.costFunc.maxCost
    requires Cell(sw, s, s, i - 1, i - 1) >= CellLimit(sw, i - 1, i - 1)
    ensures Cell(sw, s, s, i, i) >= CellLimit(sw, i, i)
  {
    assert CellLimit(sw, i, i) == Times(i + 1, sw.costFunc.maxCost);
    assert CellLimit(sw, i - 1, i - 1) == Times(i, sw.costFunc.maxCost);
  }

  /**
   * A non-empty string is fully similar to itself, when the gap cost is
   * non-negative and every position matches itself at the positive `maxCost`
   * that bounds all costs.
   */
  lemma SelfSimilarityIsOne(sw: Metric, s: JavaString)
    requires 0 < |s|
    requires sw.gapCost >= 0.0 && sw.costFunc.maxCost > 0.0
    requires CostsBounded(sw.costFunc, s, s)
    requires forall k: nat :: k < |s| ==> sw.costFunc.cost(s, k, s, k) == sw.costFunc.maxCost
    ensures RawScore(sw, s, s) == |s| as real * sw.costFunc.maxCost
    ensures Similarity(sw, s, s) == 1.0
  {
    var n := |s|;
    FillMaxIsMatrixMax(sw, s, s);
    RawScoreBound(sw, s, s);
    DiagonalReachesLimit(sw, s, n - 1);
    assert Cell(sw, s, s, n - 1, n - 1) <= RawScore(sw, s, s);
    assert CellLimit(sw, n - 1, n - 1) == Times(Min(n, n), Max(sw.costFunc.maxCost, 0.0));
    SelfRatio(sw, s, RawScore(sw, s, s));
  }

  /** The arithmetic of `SelfSimilarityIsOne`: a raw score of `|s|` matches is the whole divisor. */
  lemma SelfRatio(sw: Metric, s: JavaString, raw: real)
    requires 0 < |s| && sw.costFunc.maxCost > 0.0 && sw.gapCost >= 0.0
    requires raw == Times(Min(|s|, |s|), Max(sw.costFunc.maxCost, 0.0))
    ensures raw == |s| as real * sw.costFunc.maxCost
    ensures NormalisingMax(sw, s, s) == raw && raw / NormalisingMax(sw, s, s) == 1.0
  {
    assert raw == Times(|s|, sw.costFunc.maxCost);
    TimesIsProduct(|s|, sw.costFunc.maxCost);
    MulPositive(|s| as real, sw.costFunc.maxCost);
  }

  /** The product of two positive scores is positive. */
  lemma MulPositive(a: real, b: real)
    requires a > 0.0 && b > 0.0
    ensures a * b > 0.0
  {
  }

  /** The timing estimate is symmetric in the two lengths and grows with each of them. */
  lemma TimingEstimateSymmetricMonotone(s: JavaString, t: JavaString, s': JavaString, t': JavaString)
    requires |s| <= |s'| && |t| <= |t'|
    ensures SimilarityTimingEstimated(s, t) == SimilarityTimingEstimated(t, s)
    ensures SimilarityTimingEstimated(s, t) <= SimilarityTimingEstimated(s', t')
  {
    var n, m, n', m' := |s| as real, |t| as real, |s'| as real, |t'| as real;
    ProductMonotone(n, m, n', m');
    ProductMonotone(n * m + n + m, EstimatedTimingConst, n' * m' + n' + m', EstimatedTimingConst);
    assert n * m == m * n;
  }
}

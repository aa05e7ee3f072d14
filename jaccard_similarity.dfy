/**
 * The Jaccard similarity of two token lists: the number of distinct tokens
 * they share over the number of distinct tokens either of them holds,
 * `|X & Y| / |X or Y|`. The metric counts the shared tokens without forming
 * the intersection: it takes the union in place and subtracts its size from
 * the two set sizes.
 */
module JaccardSimilarity {
  import opened Maxima

  /**
   * A `float` result. Dividing zero shared tokens by an empty union is
   * `0f / 0f`, which is not a number.
   */
  datatype Score = Finite(value: real) | NaN

  /** The cost per pair of tokens in the timing estimate (`1.4e-4f`). */
  const EstimatedTimingConst: real := 0.00014

  /** The distinct tokens of a list, as a set: the reference for what the hash sets hold. */
  ghost function Distinct(tokens: seq<string>): set<string>
  {
    set x | x in tokens
  }

  /**
   * `target.addAll(tokens)`: the tokens of the list are added to the set
   * one at a time, left to right; a token already present changes nothing.
   */
  function AddAll(target: set<string>, tokens: seq<string>): (r: set<string>)
    ensures r == target + Distinct(tokens)
    ensures |r| <= |target| + |tokens|
    decreases |tokens|
  {
    if |tokens| == 0 then target
    else
      var rest := AddAll(target + {tokens[0]}, tokens[1..]);
      assert Distinct(tokens) == {tokens[0]} + Distinct(tokens[1..]) by {
        assert tokens == [tokens[0]] + tokens[1..];
      }
      rest
  }

  /** A list has at most as many distinct tokens as it has tokens. */
  lemma DistinctAtMostLength(tokens: seq<string>)
    ensures |Distinct(tokens)| <= |tokens|
  {
    var r := AddAll({}, tokens);
    assert r == Distinct(tokens);
  }

  /** The specification: shared distinct tokens over all distinct tokens, or `NaN` when there are none. */
  function Jaccard(a: set<string>, b: set<string>): (r: Score)
  {
    if |a + b| == 0 then NaN else Finite(|a * b| as real / |a + b| as real)
  }

  /**
   * `commonTerms`: the two set sizes added up, less the size of their union.
   * Inclusion-exclusion makes it the size of the intersection.
   */
  function CommonTerms(a: set<string>, b: set<string>): (r: int)
    ensures r == |a * b|
    ensures 0 <= r <= |a| && r <= |b| && r <= |a + b|
  {
    InclusionExclusion(a, b);
    IntersectionAtMost(a, b);
    IntersectionAtMost(b, a);
    assert b * a == a * b;
    (|a| + |b|) - |a + b|
  }

  /**
   * `|A| + |B| = |A or B| + |A & B|`. Dafny's theory of finite sets already
   * holds this identity; the induction on `A` spells out why it is true.
   */
  lemma {:induction false} InclusionExclusion(a: set<string>, b: set<string>)
    ensures |a| + |b| == |a + b| + |a * b|
    decreases |a|
  {
    if a != {} {
      var x :| x in a;
      var a' := a - {x};
      InclusionExclusion(a', b);
      assert a == a' + {x};
      if x in b {
        assert a + b == a' + b;
        assert a * b == a' * b + {x};
      } else {
        assert a + b == (a' + b) + {x};
        assert a * b == a' * b;
      }
    }
  }

  /** No set shares more elements with another than it has, by induction on `A`. */
  lemma {:induction false} IntersectionAtMost(a: set<string>, b: set<string>)
    ensures |a * b| <= |a|
    decreases |a|
  {
    if a != {} {
      var x :| x in a;
      var a' := a - {x};
      IntersectionAtMost(a', b);
      assert a == a' + {x};
      if x in b {
        assert a * b == a' * b + {x};
      } else {
        assert a * b == a' * b;
      }
    }
  }

  /**
   * The metric's `getSimilarity` on the two token lists. `allTokens` holds
   * the first list's tokens until it is widened in place into the union;
   * its size is read before that.
   */
  method GetSimilarity(str1Tokens: seq<string>, str2Tokens: seq<string>) returns (r: Score)
    ensures r == Jaccard(Distinct(str1Tokens), Distinct(str2Tokens))
    ensures r == NaN <==> |str1Tokens| == 0 && |str2Tokens| == 0
  {
    var allTokens: set<string> := {};
    allTokens := AddAll(allTokens, str1Tokens);
    var termsInString1 := |allTokens|;
    var secondStringTokens: set<string> := {};
    secondStringTokens := AddAll(secondStringTokens, str2Tokens);
    var termsInString2 := |secondStringTokens|;

    ghost var firstTokens := allTokens;
    allTokens := allTokens + secondStringTokens;
    var commonTerms := (termsInString1 + termsInString2) - |allTokens|;
    assert commonTerms == CommonTerms(firstTokens, secondStringTokens);

    if |allTokens| == 0 {
      r := NaN;
    } else {
      r := Finite(commonTerms as real / |allTokens| as real);
    }
    NoTokensNoUnion(str1Tokens, str2Tokens);
  }

  /** The union of the distinct tokens is empty exactly when both lists are. */
  lemma NoTokensNoUnion(str1Tokens: seq<string>, str2Tokens: seq<string>)
    ensures Distinct(str1Tokens) + Distinct(str2Tokens) == {} <==> |str1Tokens| == 0 && |str2Tokens| == 0
  {
    if |str1Tokens| > 0 {
      assert str1Tokens[0] in Distinct(str1Tokens);
    } else if |str2Tokens| > 0 {
      assert str2Tokens[0] in Distinct(str2Tokens);
    }
  }

  /** Whenever some token is present, the similarity lies between 0 and 1. */
  lemma JaccardInUnitRange(a: set<string>, b: set<string>)
    requires a + b != {}
    ensures Jaccard(a, b).Finite?
    ensures 0.0 <= Jaccard(a, b).value <= 1.0
  {
    assert CommonTerms(a, b) == |a * b|;
    RatioAtMostOne(|a * b|, |a + b|);
  }

  /** A count divided by a count no smaller than it is at most one. */
  lemma RatioAtMostOne(part: nat, whole: nat)
    requires part <= whole && 0 < whole
    ensures 0.0 <= part as real / whole as real <= 1.0
  {
  }

  /** Swapping the two token lists does not change the similarity. */
  lemma JaccardSymmetric(str1Tokens: seq<string>, str2Tokens: seq<string>)
    ensures Jaccard(Distinct(str1Tokens), Distinct(str2Tokens))
         == Jaccard(Distinct(str2Tokens), Distinct(str1Tokens))
  {
    var a, b := Distinct(str1Tokens), Distinct(str2Tokens);
    assert a + b == b + a;
    assert a * b == b * a;
  }

  /** A non-empty token set is fully similar to itself. */
  lemma JaccardOfIdentical(a: set<string>)
    requires a != {}
    ensures Jaccard(a, a) == Finite(1.0)
  {
    assert a + a == a;
    assert a * a == a;
  }

  /** Token sets with no token in common have similarity 0. */
  lemma JaccardOfDisjoint(a: set<string>, b: set<string>)
    requires a * b == {} && a + b != {}
    ensures Jaccard(a, b) == Finite(0.0)
  {
  }

  /** Repeating a token list adds no distinct token, so the similarity does not change. */
  lemma DuplicatesCollapse(str1Tokens: seq<string>, str2Tokens: seq<string>)
    ensures Distinct(str1Tokens + str1Tokens) == Distinct(str1Tokens)
    ensures Jaccard(Distinct(str1Tokens + str1Tokens), Distinct(str2Tokens))
         == Jaccard(Distinct(str1Tokens), Distinct(str2Tokens))
  {
    assert Distinct(str1Tokens + str1Tokens) == Distinct(str1Tokens) by {
      forall x | x in Distinct(str1Tokens + str1Tokens)
        ensures x in Distinct(str1Tokens)
      {
        assert x in str1Tokens + str1Tokens;
      }
    }
  }

  /** `getSimilarityTimingEstimated`: the product of the two token counts, duplicates included. */
  function SimilarityTimingEstimated(str1Tokens: seq<string>, str2Tokens: seq<string>): (r: real)
    ensures r >= 0.0
  {
    (|str1Tokens| as real * |str2Tokens| as real) * EstimatedTimingConst
  }

  /**
   * The estimate counts tokens, not distinct tokens: repeating the first list
   * doubles it, although the similarity stays the same.
   */
  lemma TimingCountsDuplicates(str1Tokens: seq<string>, str2Tokens: seq<string>)
    ensures SimilarityTimingEstimated(str1Tokens + str1Tokens, str2Tokens)
         == 2.0 * SimilarityTimingEstimated(str1Tokens, str2Tokens)
  {
    var n, m := |str1Tokens| as real, |str2Tokens| as real;
    assert |str1Tokens + str1Tokens| as real == 2.0 * n;
    assert (2.0 * n) * m == 2.0 * (n * m);
  }

  /** The estimate is symmetric in the two lists and grows with each of them. */
  lemma TimingEstimateSymmetricMonotone(s: seq<string>, t: seq<string>, s': seq<string>, t': seq<string>)
    requires |s| <= |s'| && |t| <= |t'|
    ensures SimilarityTimingEstimated(s, t) == SimilarityTimingEstimated(t, s)
    ensures SimilarityTimingEstimated(s, t) <= SimilarityTimingEstimated(s', t')
  {
    var n, m, n', m' := |s| as real, |t| as real, |s'| as real, |t'| as real;
    ProductMonotone(n, m, n', m');
    assert n * m == m * n;
  }
}

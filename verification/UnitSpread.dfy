/** The variance of units as the squared gaps between them. */
module UnitSpread {
  import opened Multiples
  import opened MatchedUnits
  import opened ScientificStatistics

  /** The squared gaps between the values and `x`. */
  function GapSquares(values: seq<real>, x: real): real {
    if values == [] then 0.0
    else GapSquares(values[..|values| - 1], x) + Square(values[|values| - 1] - x)
  }

  /** The squared gaps between every two values. */
  function PairSquares(values: seq<real>): real {
    if values == [] then 0.0
    else PairSquares(values[..|values| - 1]) + GapSquares(values[..|values| - 1], values[|values| - 1])
  }

  /** How far the sum of the values is from that of as many times `c`. */
  function Excess(values: seq<real>, c: real): real {
    SumOf(values) - Times(|values|, c)
  }

  /** The squared gaps to a point `y` away, from those to the centre. */
  predicate Shifts(gaps: real, squares: real, excess: real, n: nat, y: real) {
    gaps == squares + 2.0 * (y * excess) + Times(n, y * y)
  }

  lemma ShiftStep(gaps: real, squares: real, excess: real, n: nat, y: real, a: real)
    requires Shifts(gaps, squares, excess, n, y)
    ensures Shifts(gaps + Square(a + y), squares + Square(a), excess + a, n + 1, y)
  {
    assert (a + y) * (a + y) == a * a + 2.0 * (y * a) + y * y;
    assert y * (excess + a) == y * excess + y * a;
  }

  /** Moving the centre of the squares. */
  lemma {:induction false} GapShift(values: seq<real>, c: real, x: real)
    ensures Shifts(GapSquares(values, x), Squares(values, c), Excess(values, c), |values|, c - x)
  {
    if values == [] {
      EmptyShift(c - x);
    } else {
      var front, v := values[..|values| - 1], values[|values| - 1];
      GapShift(front, c, x);
      ShiftStep(GapSquares(front, x), Squares(front, c), Excess(front, c), |front|, c - x, v - c);
      assert (v - c) + (c - x) == v - x;
    }
  }

  lemma EmptyShift(y: real)
    ensures Shifts(0.0, 0.0, 0.0, 0, y)
  {
  }

  /** The squares from a centre, the squared gaps between the values, and the excess. */
  predicate Splits(n: nat, squares: real, pairs: real, excess: real) {
    Times(n, squares) == pairs + excess * excess
  }

  lemma SplitStep(n: nat, squares: real, pairs: real, excess: real, gaps: real, y: real)
    requires Splits(n, squares, pairs, excess) && Shifts(gaps, squares, excess, n, y)
    ensures Splits(n + 1, squares + Square(-y), pairs + gaps, excess - y)
  {
    TimesSum(n, squares, y * y);
    assert (excess - y) * (excess - y) == excess * excess - 2.0 * (y * excess) + y * y;
    assert (-y) * (-y) == y * y;
  }

  lemma {:induction false} TimesSum(n: nat, x: real, y: real)
    ensures Times(n, x + y) == Times(n, x) + Times(n, y)
  {
    if n > 0 { TimesSum(n - 1, x, y); }
  }

  lemma {:induction false} SquaresArePairs(values: seq<real>, c: real)
    ensures Splits(|values|, Squares(values, c), PairSquares(values), Excess(values, c))
  {
    if values != [] {
      var front, v := values[..|values| - 1], values[|values| - 1];
      SquaresArePairs(front, c);
      GapShift(front, c, v);
      SplitStep(|front|, Squares(front, c), PairSquares(front), Excess(front, c), GapSquares(front, v), c - v);
      assert -(c - v) == v - c;
    }
  }

  lemma MeanBalances(values: seq<real>)
    requires values != []
    ensures Excess(values, Mean(values)) == 0.0
  {
    IsProduct(|values|, Mean(values));
    QuotientTimes(SumOf(values), |values|);
  }

  lemma QuotientTimes(x: real, n: nat)
    requires n > 0
    ensures n as real * (x / n as real) == x
  {
  }

  lemma BalancedSquares(values: seq<real>)
    requires values != []
    ensures Times(|values|, Squares(values, Mean(values))) == PairSquares(values)
  {
    SquaresArePairs(values, Mean(values));
    MeanBalances(values);
  }

  lemma VarianceIsSquares(values: seq<real>)
    requires values != []
    ensures (|values| - 1) as real * Variance(values) == Squares(values, Mean(values))
  {
    if |values| > 1 {
      QuotientTimes(Squares(values, Mean(values)), |values| - 1);
    } else {
      OneSquare(values);
    }
  }

  lemma OneSquare(values: seq<real>)
    requires |values| == 1
    ensures Squares(values, Mean(values)) == 0.0
  {
    assert values[..0] == [];
    assert SumOf(values) == values[0];
  }

  lemma VarianceTimes(values: seq<real>)
    requires values != []
    ensures Times(|values| - 1, Variance(values)) == Squares(values, Mean(values))
  {
    VarianceIsSquares(values);
    AsTimes(|values| - 1, Variance(values), Squares(values, Mean(values)));
  }

  lemma AsTimes(n: nat, x: real, product: real)
    requires n as real * x == product
    ensures Times(n, x) == product
  {
    IsProduct(n, x);
  }

  /** The variance times the number of units and of units less one is the sum of the
      squared gaps between every two units. */
  lemma VarianceIsPairs(values: seq<real>)
    requires values != []
    ensures Times(|values|, Times(|values| - 1, Variance(values))) == PairSquares(values)
  {
    BalancedSquares(values);
    VarianceTimes(values);
  }
}

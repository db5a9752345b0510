/** Column-wise operations the pipeline applies to one column of the table.
    A column is a sequence of cells, and a missing cell is `None`.
    Every reduction here skips missing cells, the way the dataframe library
    does by default. */
module Series {
  import opened Wrappers

  /** `isnull().any()`: does some cell of the column hold no value? */
  function AnyNull<T>(column: seq<Option<T>>): (found: bool)
    ensures found <==> exists i :: 0 <= i < |column| && column[i].None?
  {
    |column| > 0 && (column[0].None? || AnyNull(column[1..]))
  }

  /** `between(lo, hi).all()`: is every cell present and within `[lo, hi]`,
      both ends included? A missing cell is not between anything. */
  function AllBetween(column: seq<Option<int>>, lo: int, hi: int): (all: bool)
    ensures all <==> forall i :: 0 <= i < |column| ==>
                        column[i].Some? && lo <= column[i].value <= hi
  {
    |column| == 0 ||
    (column[0].Some? && lo <= column[0].value <= hi && AllBetween(column[1..], lo, hi))
  }

  /** Total of the present cells; missing cells add nothing. */
  function Sum(column: seq<Option<int>>): int
  {
    if |column| == 0 then 0
    else (if column[0].Some? then column[0].value else 0) + Sum(column[1..])
  }

  /** Number of present cells. */
  function Count(column: seq<Option<int>>): (n: nat)
    ensures n <= |column|
    ensures n == 0 <==> forall i :: 0 <= i < |column| ==> column[i].None?
  {
    if |column| == 0 then 0
    else (if column[0].Some? then 1 else 0) + Count(column[1..])
  }

  /** `Count` is the number of present cells: the column's length less the
      number of its missing cells. */
  lemma {:induction false} CountIsPresentCells(column: seq<Option<int>>)
    ensures Count(column) == |column| - multiset(column)[None]
  {
    if |column| > 0 {
      CountIsPresentCells(column[1..]);
      assert column == [column[0]] + column[1..];
      assert multiset(column) == multiset{column[0]} + multiset(column[1..]);
    }
  }

  /** Total and number of present cells are additive over concatenation;
      with their values on one cell this fixes both reductions. */
  lemma {:induction false} SumCountSplit(a: seq<Option<int>>, b: seq<Option<int>>)
    ensures Sum(a + b) == Sum(a) + Sum(b)
    ensures Count(a + b) == Count(a) + Count(b)
  {
    if |a| > 0 {
      SumCountSplit(a[1..], b);
      assert (a + b)[1..] == a[1..] + b;
    } else {
      assert a + b == b;
    }
  }

  /** `mean()` with missing cells skipped. A column without any present cell
      has no mean (the library yields NaN); that is `None` here. */
  function Mean(column: seq<Option<int>>): (m: Option<real>)
    ensures m.None? <==> forall i :: 0 <= i < |column| ==> column[i].None?
    ensures m.Some? ==> m.value * Count(column) as real == Sum(column) as real
  {
    var n := Count(column);
    if n == 0 then None else Some(Sum(column) as real / n as real)
  }

  /** When every present cell lies in `[lo, hi]`, their total lies between
      `lo` and `hi` times their number. */
  lemma {:induction false} SumWithin(column: seq<Option<int>>, lo: int, hi: int)
    requires forall i :: 0 <= i < |column| && column[i].Some? ==>
               lo <= column[i].value <= hi
    ensures lo * Count(column) <= Sum(column) <= hi * Count(column)
  {
    if |column| > 0 {
      var rest := column[1..];
      SumWithin(rest, lo, hi);
      if column[0].Some? {
        assert Count(column) == 1 + Count(rest);
        assert lo * (1 + Count(rest)) == lo + lo * Count(rest);
        assert hi * (1 + Count(rest)) == hi + hi * Count(rest);
      }
    }
  }

  /** Integer bounds `lo * n <= total <= hi * n` with `n` positive bound the
      exact quotient `total / n` by `lo` and `hi`. */
  lemma QuotientWithin(total: int, n: int, lo: int, hi: int)
    requires n > 0
    requires lo * n <= total <= hi * n
    ensures lo as real <= total as real / n as real <= hi as real
  {
    var q := total as real / n as real;
    assert q * n as real == total as real;
    assert (q - lo as real) * n as real == (total - lo * n) as real;
    assert (hi as real - q) * n as real == (hi * n - total) as real;
  }

  /** The mean of a column whose present cells lie in `[lo, hi]` lies there too. */
  lemma MeanWithin(column: seq<Option<int>>, lo: int, hi: int)
    requires forall i :: 0 <= i < |column| && column[i].Some? ==>
               lo <= column[i].value <= hi
    ensures Mean(column).Some? ==>
              lo as real <= Mean(column).value <= hi as real
  {
    if Count(column) > 0 {
      SumWithin(column, lo, hi);
      QuotientWithin(Sum(column), Count(column), lo, hi);
    }
  }

  /** The mean read off from the total and the number of present cells. */
  lemma MeanOfTotals(column: seq<Option<int>>, total: int, n: nat)
    requires Sum(column) == total && Count(column) == n
    ensures Mean(column) == if n == 0 then None else Some(total as real / n as real)
  {
  }
}

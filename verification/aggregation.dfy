/**
 * The column mean taken on an upload (`df['sicaklik'].mean()`): missing
 * cells are skipped, and a column with no present cell has mean NaN,
 * modelled as None.
 */
module Aggregation {
  import opened Wrappers

  /** The present cells of a column, in order. */
  function Present(column: seq<Option<real>>): seq<real>
  {
    if |column| == 0 then []
    else
      var rest := Present(column[1..]);
      if column[0].Some? then [column[0].value] + rest else rest
  }

  /** A column has no present value exactly when every cell is missing. */
  lemma {:induction false} PresentEmpty(column: seq<Option<real>>)
    ensures |Present(column)| == 0 <==> forall i :: 0 <= i < |column| ==> column[i].None?
  {
    if |column| > 0 {
      PresentEmpty(column[1..]);
      assert forall i :: 1 <= i < |column| ==> column[i] == column[1..][i - 1];
    }
  }

  /** Every present value comes from a cell of the column. */
  lemma {:induction false} PresentFromColumn(column: seq<Option<real>>, x: real)
    requires x in Present(column)
    ensures Some(x) in column
  {
    if column[0] != Some(x) {
      PresentFromColumn(column[1..], x);
    }
  }

  function Sum(xs: seq<real>): real
  {
    if |xs| == 0 then 0.0 else xs[0] + Sum(xs[1..])
  }

  /** Arithmetic mean of the present cells; None when there are none. */
  function Mean(column: seq<Option<real>>): (m: Option<real>)
    ensures m.None? <==> forall i :: 0 <= i < |column| ==> column[i].None?
  {
    PresentEmpty(column);
    var xs := Present(column);
    if |xs| == 0 then None else Some(Sum(xs) / (|xs| as real))
  }

  /** A missing cell anywhere in the column does not move the mean. */
  lemma MeanSkipsMissing(column: seq<Option<real>>, k: nat)
    requires k <= |column|
    ensures Mean(column[..k] + [None] + column[k..]) == Mean(column)
  {
    PresentSkipsMissing(column[..k], column[k..]);
    assert column[..k] + column[k..] == column;
  }

  lemma {:induction false} PresentSkipsMissing(before: seq<Option<real>>, after: seq<Option<real>>)
    ensures Present(before + [None] + after) == Present(before + after)
  {
    var whole := before + [None] + after;
    if |before| == 0 {
      assert whole[0] == None && whole[1..] == after;
      assert before + after == after;
    } else {
      assert whole[0] == before[0] && whole[1..] == before[1..] + [None] + after;
      assert (before + after)[0] == before[0] && (before + after)[1..] == before[1..] + after;
      PresentSkipsMissing(before[1..], after);
    }
  }

  lemma {:induction false} SumBounds(xs: seq<real>, lo: real, hi: real)
    requires forall x :: x in xs ==> lo <= x <= hi
    ensures (|xs| as real) * lo <= Sum(xs) <= (|xs| as real) * hi
  {
    if |xs| > 0 {
      assert xs[0] in xs;
      assert forall x :: x in xs[1..] ==> x in xs;
      SumBounds(xs[1..], lo, hi);
      var n := (|xs| - 1) as real;
      assert (|xs| as real) * lo == n * lo + lo;
      assert (|xs| as real) * hi == n * hi + hi;
    }
  }

  /** The mean lies between any bounds that hold of every present cell. */
  lemma MeanWithinBounds(column: seq<Option<real>>, lo: real, hi: real)
    requires forall i :: 0 <= i < |column| && column[i].Some? ==> lo <= column[i].value <= hi
    requires Mean(column).Some?
    ensures lo <= Mean(column).value <= hi
  {
    var xs := Present(column);
    forall x | x in xs ensures lo <= x <= hi {
      PresentFromColumn(column, x);
      var i :| 0 <= i < |column| && column[i] == Some(x);
    }
    SumBounds(xs, lo, hi);
    QuotientBounds(Sum(xs), |xs| as real, lo, hi);
  }

  lemma QuotientBounds(s: real, n: real, lo: real, hi: real)
    requires n > 0.0 && n * lo <= s <= n * hi
    ensures lo <= s / n <= hi
  {
    var q := s / n;
    assert q * n == s;
    assert (q - lo) * n == s - n * lo;
    assert (hi - q) * n == n * hi - s;
  }

  /** Uploading the same reading in every row records exactly that reading. */
  lemma MeanOfConstant(column: seq<Option<real>>, v: real)
    requires forall i :: 0 <= i < |column| && column[i].Some? ==> column[i].value == v
    requires exists i :: 0 <= i < |column| && column[i].Some?
    ensures Mean(column) == Some(v)
  {
    MeanWithinBounds(column, v, v);
  }
}

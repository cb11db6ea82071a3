/**
 * `delete_columns_with_zero_data`: drop every numeric column whose zeros plus
 * NaNs exceed a threshold, after validating the arguments in a fixed order.
 */
module DeleteColumns {
  import opened Frames

  /** The threshold as a Python caller passes it: an `int` (a `bool` is one,
      being a subclass of `int`) or a value of some other type. */
  datatype ThresholdArg = IntArg(n: int) | NonIntArg

  /** A column survives when it is not numeric or its zeros plus NaNs do not exceed the threshold. */
  predicate Retained(c: Column, threshold: int)
  {
    !IsNumeric(c.dtype) || MissingLikeCount(c) <= threshold
  }

  function DeleteColumnsWithZeroData(t: Table, threshold: ThresholdArg): (r: Result<Table>)
    requires NoDups(Names(t.cols))
    // validation order: type of the threshold, then emptiness, then sign
    ensures threshold.NonIntArg? ==> r == Failure(NonIntegerThreshold)
    ensures threshold.IntArg? && IsEmpty(t) ==> r == Failure(EmptyTable)
    ensures threshold.IntArg? && !IsEmpty(t) && threshold.n < 0 ==> r == Failure(NegativeThreshold)
    ensures r.Success? <==> threshold.IntArg? && !IsEmpty(t) && threshold.n >= 0
    // the row count (the index) survives even when every column is dropped
    ensures r.Success? ==> r.value.rows == t.rows
    // survivors keep their relative order and their cells
    ensures r.Success? ==> IsSubseq(r.value.cols, t.cols)
    // a column is dropped exactly when it is numeric and its zeros plus NaNs exceed the threshold
    ensures r.Success? ==>
      forall c :: c in t.cols ==>
        (c !in r.value.cols <==> IsNumeric(c.dtype) && MissingLikeCount(c) > threshold.n)
    ensures r.Success? ==> forall c :: c in r.value.cols ==> c in t.cols
    ensures r.Success? && WellFormed(t) ==> WellFormed(r.value)
  {
    if threshold.NonIntArg? then Failure(NonIntegerThreshold)
    else if IsEmpty(t) then Failure(EmptyTable)
    else if threshold.n < 0 then Failure(NegativeThreshold)
    else
      var kept := Filter(t.cols, c => Retained(c, threshold.n));
      SubseqWellFormed(t.rows, kept, t.cols);
      Success(Table(t.rows, kept))
  }

  /** With threshold 0 and no zero or NaN in any numeric column, nothing is dropped. */
  lemma CleanTableUnchanged(t: Table)
    requires !IsEmpty(t) && NoDups(Names(t.cols))
    requires forall c :: c in t.cols && IsNumeric(c.dtype) ==> MissingLikeCount(c) == 0
    ensures DeleteColumnsWithZeroData(t, IntArg(0)) == Success(t)
  {
    FilterKeepsAll(t.cols, c => Retained(c, 0));
  }

  /** A bool column counts as numeric and False counts as zero: an all-False
      column with more rows than the threshold is dropped. */
  lemma AllFalseBoolColumnDropped(t: Table, c: Column, threshold: nat)
    requires !IsEmpty(t) && NoDups(Names(t.cols)) && c in t.cols
    requires c.dtype == Bool && |c.cells| > threshold
    requires forall x :: x in c.cells ==> x == Num(0.0)
    ensures DeleteColumnsWithZeroData(t, IntArg(threshold)).Success?
    ensures c !in DeleteColumnsWithZeroData(t, IntArg(threshold)).value.cols
  {
    CountIfAll(c.cells, IsZero);
  }

  /** Raising the threshold never drops more: the survivors at a lower
      threshold are a subsequence of the survivors at a higher one. */
  lemma DeleteMonotone(t: Table, low: int, high: int)
    requires !IsEmpty(t) && NoDups(Names(t.cols)) && 0 <= low <= high
    ensures IsSubseq(DeleteColumnsWithZeroData(t, IntArg(low)).value.cols,
                     DeleteColumnsWithZeroData(t, IntArg(high)).value.cols)
  {
    FilterWeaker(t.cols, c => Retained(c, low), c => Retained(c, high));
  }

  /** When every column is numeric with too many zeros and NaNs, the result
      has no columns but keeps the row count. */
  lemma AllColumnsDropped(t: Table, threshold: nat)
    requires !IsEmpty(t) && NoDups(Names(t.cols))
    requires forall c :: c in t.cols ==> IsNumeric(c.dtype) && MissingLikeCount(c) > threshold
    ensures DeleteColumnsWithZeroData(t, IntArg(threshold)) == Success(Table(t.rows, []))
  {
    CountIfNone(t.cols, c => Retained(c, threshold));
  }
}

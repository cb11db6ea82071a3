/**
 * `drop_columns_with_zero_threshold`: among the int, float and bool columns,
 * drop those whose count of exact zeros exceeds a threshold. NaN is not a zero here.
 */
module DropColumns {
  import opened Frames

  /** `select_dtypes(include=[int, float, bool])`: complex is not selected. */
  predicate Selected(d: DType)
  {
    d.Int? || d.Float? || d.Bool?
  }

  predicate Kept(c: Column, threshold: int)
  {
    !Selected(c.dtype) || ZeroCount(c) <= threshold
  }

  function DropColumnsWithZeroThreshold(t: Table, threshold: int): (r: Result<Table>)
    requires NoDups(Names(t.cols))
    // emptiness is checked before the sign of the threshold
    ensures IsEmpty(t) ==> r == Failure(EmptyTable)
    ensures !IsEmpty(t) && threshold < 0 ==> r == Failure(NegativeThreshold)
    ensures r.Success? <==> !IsEmpty(t) && threshold >= 0
    ensures r.Success? ==> r.value.rows == t.rows && IsSubseq(r.value.cols, t.cols)
    // dropped exactly when selected and its zeros exceed the threshold
    ensures r.Success? ==>
      forall c :: c in t.cols ==>
        (c !in r.value.cols <==> Selected(c.dtype) && ZeroCount(c) > threshold)
    ensures r.Success? ==> forall c :: c in r.value.cols ==> c in t.cols
    // a table without int, float or bool columns comes back unchanged
    ensures r.Success? && (forall c :: c in t.cols ==> !Selected(c.dtype)) ==> r.value == t
    ensures r.Success? && WellFormed(t) ==> WellFormed(r.value)
  {
    if IsEmpty(t) then Failure(EmptyTable)
    else if threshold < 0 then Failure(NegativeThreshold)
    else if forall c :: c in t.cols ==> !Selected(c.dtype) then
      SubseqRefl(t.cols);
      Success(t)
    else
      var kept := Filter(t.cols, c => Kept(c, threshold));
      SubseqWellFormed(t.rows, kept, t.cols);
      Success(Table(t.rows, kept))
  }

  /** Raising the threshold never drops more columns. */
  lemma DropMonotone(t: Table, low: int, high: int)
    requires !IsEmpty(t) && NoDups(Names(t.cols)) && 0 <= low <= high
    ensures IsSubseq(DropColumnsWithZeroThreshold(t, low).value.cols,
                     DropColumnsWithZeroThreshold(t, high).value.cols)
  {
    if forall c :: c in t.cols ==> !Selected(c.dtype) {
      SubseqRefl(t.cols);
    } else {
      FilterWeaker(t.cols, c => Kept(c, low), c => Kept(c, high));
    }
  }

  /** An all-False bool column counts as all zeros and is dropped once it
      has more rows than the threshold. */
  lemma AllFalseBoolColumnDropped(t: Table, c: Column, threshold: nat)
    requires !IsEmpty(t) && NoDups(Names(t.cols)) && c in t.cols
    requires c.dtype == Bool && |c.cells| > threshold
    requires forall x :: x in c.cells ==> x == Num(0.0)
    ensures DropColumnsWithZeroThreshold(t, threshold).Success?
    ensures c !in DropColumnsWithZeroThreshold(t, threshold).value.cols
  {
    CountIfAll(c.cells, IsZero);
  }

  /** NaN is not counted: a float column holding only NaNs is always kept. */
  lemma AllNaNColumnKept(t: Table, c: Column, threshold: nat)
    requires !IsEmpty(t) && NoDups(Names(t.cols)) && c in t.cols
    requires forall x :: x in c.cells ==> x == Missing
    ensures c in DropColumnsWithZeroThreshold(t, threshold).value.cols
  {
    CountIfNone(c.cells, IsZero);
  }

  /** When every column is an int, float or bool column with too many zeros,
      the result has no columns but keeps the row count. */
  lemma AllColumnsDropped(t: Table, threshold: nat)
    requires !IsEmpty(t) && NoDups(Names(t.cols))
    requires forall c :: c in t.cols ==> Selected(c.dtype) && ZeroCount(c) > threshold
    ensures DropColumnsWithZeroThreshold(t, threshold) == Success(Table(t.rows, []))
  {
    CountIfNone(t.cols, c => Kept(c, threshold));
  }
}

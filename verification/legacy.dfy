/**
 * The earlier drafts of the census, the pruner and the partitioner kept in
 * `modules/modules.py`, with lemmas that compare them to the current
 * versions: where they agree and where their answers differ.
 */
module Legacy {
  import opened Frames
  import NullCensus
  import DeleteColumns
  import DropColumns
  import Separate

  // ---------------------------------------------------------------------
  // The census
  // ---------------------------------------------------------------------

  /** One printed line of the draft census. */
  datatype LegacyLine =
      /** "Column 'c': count values 0" */
    | CountLine(column: string, count: nat)
      /** "There are no 0 value anymore!" */
    | AllClear

  /** The zeros of any column, plus its NaNs when it is numeric. */
  function LegacyCount(c: Column): nat
  {
    if IsNumeric(c.dtype) then ZeroCount(c) + NaNCount(c) else ZeroCount(c)
  }

  /** A column the draft reports. */
  predicate Reported(c: Column)
  {
    LegacyCount(c) != 0
  }

  predicate IsCountLine(l: LegacyLine)
  {
    l.CountLine?
  }

  /** The lines printed while visiting `s` in order: one per column with a nonzero count. */
  function LegacyLines(s: seq<Column>): (out: seq<LegacyLine>)
    ensures forall l :: l in out <==> exists c :: c in s && LegacyCount(c) != 0 && l == CountLine(c.name, LegacyCount(c))
    ensures out == [] <==> forall c :: c in s ==> LegacyCount(c) == 0
    // one line per reported column, and every line is a count line
    ensures |out| == CountIf(s, Reported)
    ensures CountIf(out, IsCountLine) == |out|
  {
    if |s| == 0 then []
    else
      assert s == [s[0]] + s[1..];
      var head := if LegacyCount(s[0]) != 0 then [CountLine(s[0].name, LegacyCount(s[0]))] else [];
      var rest := LegacyLines(s[1..]);
      CountIfAppend(head, rest, IsCountLine);
      head + rest
  }

  /** The draft `count_null_data`: columns visited by decreasing zero count. */
  function LegacyCountNullData(t: Table): (out: seq<LegacyLine>)
    requires NoDups(Names(t.cols))
    // any column with a nonzero count is reported, whatever its dtype
    ensures forall c :: c in t.cols && LegacyCount(c) != 0 ==> CountLine(c.name, LegacyCount(c)) in out
    ensures forall l :: l in out && l.CountLine? ==>
      exists c :: c in t.cols && LegacyCount(c) != 0 && l == CountLine(c.name, LegacyCount(c))
    // the summary is printed exactly when nothing was reported, and last
    ensures AllClear in out <==> forall c :: c in t.cols ==> LegacyCount(c) == 0
    ensures AllClear in out ==> out == [AllClear]
  {
    var visited := NullCensus.SortByZeros(t.cols);
    var lines := LegacyLines(visited);
    if exists c :: c in visited && LegacyCount(c) != 0 then
      assert AllClear !in lines;
      lines
    else
      [AllClear]
  }

  /** Exactly one line per reported column. */
  lemma LegacyReportedOncePerColumn(t: Table)
    requires NoDups(Names(t.cols))
    ensures CountIf(LegacyCountNullData(t), IsCountLine) == CountIf(t.cols, Reported)
  {
    var visited := NullCensus.SortByZeros(t.cols);
    CountIfPermutation(visited, t.cols, Reported);
    if !exists c :: c in visited && LegacyCount(c) != 0 {
      CountIfNone(t.cols, Reported);
    }
  }

  /** For a numeric column the draft's count is the current census total. */
  lemma NumericCountsAgree(c: Column)
    requires IsNumeric(c.dtype)
    ensures LegacyCount(c) == MissingLikeCount(c)
  {
  }

  /** A text column holding zeros: the draft reports its zeros, the current
      census skips it. */
  lemma LegacyReportsNonNumericZeros(t: Table, c: Column)
    requires NoDups(Names(t.cols)) && c in t.cols && !IsNumeric(c.dtype) && ZeroCount(c) > 0
    ensures CountLine(c.name, ZeroCount(c)) in LegacyCountNullData(t)
    ensures NullCensus.Skipped(c.name) in NullCensus.CountNullData(t)
    ensures forall l :: l in NullCensus.CountNullData(t) && l.Tally? ==> l.column != c.name
  {
    assert LegacyCount(c) == ZeroCount(c);
    NullCensus.SkippedExactlyNonNumeric(t);
    NoTallyForNonNumeric(t, c);
  }

  lemma NoTallyForNonNumeric(t: Table, c: Column)
    requires NoDups(Names(t.cols)) && c in t.cols && !IsNumeric(c.dtype)
    ensures forall l :: l in NullCensus.CountNullData(t) && l.Tally? ==> l.column != c.name
  {
    forall l | l in NullCensus.CountNullData(t) && l.Tally? ensures l.column != c.name {
      var d :| d in t.cols && NullCensus.HasMissing(d)
               && l == NullCensus.Tally(d.name, ZeroCount(d) + NaNCount(d), ZeroCount(d), NaNCount(d));
      if d.name == c.name {
        UniqueNameLookup(t, c);
        UniqueNameLookup(t, d);
      }
    }
  }

  // ---------------------------------------------------------------------
  // The pruner
  // ---------------------------------------------------------------------

  predicate FewZeros(c: Column, threshold: int)
  {
    ZeroCount(c) <= threshold
  }

  /** The draft `delete_columns_with_zero_data`: no validation, every dtype,
      exact zeros only. Column names are taken unique, as the loop drops by name. */
  function LegacyDelete(t: Table, threshold: int): (r: Table)
    requires NoDups(Names(t.cols))
    ensures r.rows == t.rows
    // survivors keep their order and their contents
    ensures IsSubseq(r.cols, t.cols)
    // a column of any dtype is dropped exactly when its zeros exceed the threshold
    ensures forall c :: c in t.cols ==> (c !in r.cols <==> ZeroCount(c) > threshold)
    ensures WellFormed(t) ==> WellFormed(r)
  {
    var kept := Filter(t.cols, c => FewZeros(c, threshold));
    SubseqWellFormed(t.rows, kept, t.cols);
    Table(t.rows, kept)
  }

  /** On a nonempty table of numeric columns without NaN, the current pruner
      and the draft drop the same columns. */
  lemma DeleteAgreesWithLegacy(t: Table, threshold: nat)
    requires NoDups(Names(t.cols)) && !IsEmpty(t)
    requires forall c :: c in t.cols ==> IsNumeric(c.dtype) && NaNCount(c) == 0
    ensures DeleteColumns.DeleteColumnsWithZeroData(t, DeleteColumns.IntArg(threshold)) == Success(LegacyDelete(t, threshold))
  {
    FilterCongruent(t.cols, c => DeleteColumns.Retained(c, threshold), c => FewZeros(c, threshold));
  }

  /** On a nonempty table of int, float and bool columns, the zero-threshold
      pruner and the draft drop the same columns. */
  lemma DropAgreesWithLegacy(t: Table, threshold: nat)
    requires NoDups(Names(t.cols)) && !IsEmpty(t)
    requires forall c :: c in t.cols ==> DropColumns.Selected(c.dtype)
    ensures DropColumns.DropColumnsWithZeroThreshold(t, threshold) == Success(LegacyDelete(t, threshold))
  {
    assert t.cols[0] in t.cols;
    FilterCongruent(t.cols, c => DropColumns.Kept(c, threshold), c => FewZeros(c, threshold));
  }

  /** NaN is where they part: a numeric column whose NaNs alone exceed the
      threshold is dropped by the current pruner and kept by the draft. */
  lemma NaNColumnKeptByLegacyOnly(t: Table, c: Column, threshold: nat)
    requires NoDups(Names(t.cols)) && !IsEmpty(t) && c in t.cols
    requires IsNumeric(c.dtype) && ZeroCount(c) == 0 && NaNCount(c) > threshold
    ensures c !in DeleteColumns.DeleteColumnsWithZeroData(t, DeleteColumns.IntArg(threshold)).value.cols
    ensures c in LegacyDelete(t, threshold).cols
  {
  }

  /** Without validation a negative threshold drops every column. */
  lemma NegativeThresholdDropsAll(t: Table, threshold: int)
    requires NoDups(Names(t.cols)) && threshold < 0
    ensures LegacyDelete(t, threshold).cols == []
  {
    CountIfNone(t.cols, c => FewZeros(c, threshold));
  }

  // ---------------------------------------------------------------------
  // The partitioner
  // ---------------------------------------------------------------------

  /** The draft's test: object and category columns are categorical. */
  predicate LegacyCategorical(d: DType)
  {
    d.Object? || d.Category?
  }

  /** The names of the columns whose categorical verdict is `categorical`, in column order. */
  function NamesWhere(cols: seq<Column>, categorical: bool): (ns: seq<string>)
    ensures forall n :: n in ns <==> exists c :: c in cols && c.name == n && LegacyCategorical(c.dtype) == categorical
    ensures IsSubseq(ns, Names(cols))
  {
    if |cols| == 0 then []
    else
      assert cols == [cols[0]] + cols[1..];
      assert Names(cols)[1..] == Names(cols[1..]);
      var rest := NamesWhere(cols[1..], categorical);
      if LegacyCategorical(cols[0].dtype) == categorical then [cols[0].name] + rest
      else
        SubseqSkip(rest, Names(cols));
        rest
  }

  datatype LegacySplit = LegacySplit(categorical: seq<string>, numerical: seq<string>)

  /** The draft `separate_categorical_numerical`. */
  function LegacySeparate(t: Table): (r: LegacySplit)
    requires NoDups(Names(t.cols))
    ensures forall n :: n in r.categorical <==>
      exists c :: c in t.cols && c.name == n && (c.dtype.Object? || c.dtype.Category?)
    // everything else is numerical: int, float, bool, complex and datetime alike
    ensures forall n :: n in r.numerical <==>
      exists c :: c in t.cols && c.name == n && !c.dtype.Object? && !c.dtype.Category?
    ensures IsSubseq(r.categorical, Names(t.cols)) && IsSubseq(r.numerical, Names(t.cols))
  {
    LegacySplit(NamesWhere(t.cols, true), NamesWhere(t.cols, false))
  }

  lemma {:induction false} NamesWhereCover(cols: seq<Column>)
    ensures |NamesWhere(cols, true)| + |NamesWhere(cols, false)| == |cols|
  {
    if |cols| > 0 {
      NamesWhereCover(cols[1..]);
    }
  }

  /** The two lists partition the columns: their lengths add up and, names
      being unique, no name is in both. */
  lemma LegacySeparationPartitions(t: Table)
    requires NoDups(Names(t.cols))
    ensures var s := LegacySeparate(t);
      && |s.categorical| + |s.numerical| == |t.cols|
      && forall n :: n in s.categorical ==> n !in s.numerical
  {
    NamesWhereCover(t.cols);
    forall c1, c2 | c1 in t.cols && c2 in t.cols && c1.name == c2.name ensures c1 == c2 {
      UniqueNameLookup(t, c1);
      UniqueNameLookup(t, c2);
    }
  }

  /** On int, float, object and category columns both versions agree. */
  lemma SeparateAgreesOnCommonDTypes(t: Table, c: Column)
    requires !IsEmpty(t) && NoDups(Names(t.cols)) && c in t.cols
    requires c.dtype in {Int, Float, Object, Category}
    ensures var now, draft := Separate.SeparateCategoricalNumerical(t).value, LegacySeparate(t);
      && (c.name in now.categorical <==> c.name in draft.categorical)
      && (c.name in now.numerical <==> c.name in draft.numerical)
  {
    forall d | d in t.cols && d.name == c.name ensures d == c {
      UniqueNameLookup(t, c);
      UniqueNameLookup(t, d);
    }
  }

  /** Bool and datetime columns are where they part: categorical now, numerical in the draft. */
  lemma BoolAndDatetimeDisagree(t: Table, c: Column)
    requires !IsEmpty(t) && NoDups(Names(t.cols)) && c in t.cols
    requires c.dtype == Bool || c.dtype == Datetime
    ensures c.name in Separate.SeparateCategoricalNumerical(t).value.categorical
    ensures c.name !in Separate.SeparateCategoricalNumerical(t).value.numerical
    ensures c.name in LegacySeparate(t).numerical
    ensures c.name !in LegacySeparate(t).categorical
  {
    forall d | d in t.cols && d.name == c.name ensures d == c {
      UniqueNameLookup(t, c);
      UniqueNameLookup(t, d);
    }
  }
}

/**
 * `separate_categorical_numerical`: sort the columns of a table into a
 * categorical list and a numerical list, ignoring (with a message) the
 * dtypes that are neither.
 */
module Separate {
  import opened Frames

  datatype Kind = CategoricalKind | NumericalKind | Unrecognized

  /** The dtype tests in their source order: category, object, bool and
      datetime are categorical; a numeric dtype that is not complex is
      numerical; anything else (complex) is unrecognized. */
  function KindOf(d: DType): Kind
  {
    if d.Category? || d.Object? || d.Bool? || d.Datetime? then CategoricalKind
    else if IsNumeric(d) && !d.Complex? then NumericalKind
    else Unrecognized
  }

  /** The two returned lists, plus the columns reported as unrecognized. */
  datatype Split = Split(categorical: seq<string>, numerical: seq<string>, unrecognized: seq<string>)

  /** The names of the columns of one kind, in column order. */
  function NamesOfKind(cols: seq<Column>, k: Kind): (ns: seq<string>)
    ensures forall n :: n in ns <==> exists c :: c in cols && c.name == n && KindOf(c.dtype) == k
    ensures IsSubseq(ns, Names(cols))
  {
    if |cols| == 0 then []
    else
      assert cols == [cols[0]] + cols[1..];
      assert Names(cols)[1..] == Names(cols[1..]);
      var rest := NamesOfKind(cols[1..], k);
      if KindOf(cols[0].dtype) == k then [cols[0].name] + rest
      else
        SubseqSkip(rest, Names(cols));
        rest
  }

  function SeparateCategoricalNumerical(t: Table): (r: Result<Split>)
    requires NoDups(Names(t.cols))
    ensures r.Failure? <==> IsEmpty(t)
    ensures r.Failure? ==> r.error == EmptyTable
    // category (whatever its values), object, bool and datetime columns are categorical
    ensures r.Success? ==> forall n :: n in r.value.categorical <==>
      exists c :: c in t.cols && c.name == n && (c.dtype.Category? || c.dtype.Object? || c.dtype.Bool? || c.dtype.Datetime?)
    // int and float columns are numerical
    ensures r.Success? ==> forall n :: n in r.value.numerical <==>
      exists c :: c in t.cols && c.name == n && (c.dtype.Int? || c.dtype.Float?)
    // complex columns are in neither list; they are reported instead
    ensures r.Success? ==> forall n :: n in r.value.unrecognized <==>
      exists c :: c in t.cols && c.name == n && c.dtype.Complex?
    // each list follows the column order
    ensures r.Success? ==>
      && IsSubseq(r.value.categorical, Names(t.cols))
      && IsSubseq(r.value.numerical, Names(t.cols))
      && IsSubseq(r.value.unrecognized, Names(t.cols))
  {
    if IsEmpty(t) then Failure(EmptyTable)
    else
      Success(Split(NamesOfKind(t.cols, CategoricalKind),
                    NamesOfKind(t.cols, NumericalKind),
                    NamesOfKind(t.cols, Unrecognized)))
  }

  lemma {:induction false} KindsCoverColumns(cols: seq<Column>)
    ensures |NamesOfKind(cols, CategoricalKind)| + |NamesOfKind(cols, NumericalKind)|
            + |NamesOfKind(cols, Unrecognized)| == |cols|
  {
    if |cols| > 0 {
      KindsCoverColumns(cols[1..]);
    }
  }

  /** Every column lands in exactly one of the three lists: their lengths add
      up to the number of columns and, names being unique, no name is in two. */
  lemma SeparationPartitions(t: Table)
    requires !IsEmpty(t) && NoDups(Names(t.cols))
    ensures var s := SeparateCategoricalNumerical(t).value;
      && |s.categorical| + |s.numerical| + |s.unrecognized| == |t.cols|
      && (forall n :: n in s.categorical ==> n !in s.numerical && n !in s.unrecognized)
      && (forall n :: n in s.numerical ==> n !in s.unrecognized)
  {
    KindsCoverColumns(t.cols);
    forall c1, c2 | c1 in t.cols && c2 in t.cols && c1.name == c2.name ensures c1 == c2 {
      UniqueNameLookup(t, c1);
      UniqueNameLookup(t, c2);
    }
  }

  /** A category column is categorical even when its values are numbers. */
  lemma NumericCategoryIsCategorical(t: Table, c: Column)
    requires !IsEmpty(t) && NoDups(Names(t.cols)) && c in t.cols && c.dtype == Category
    requires forall x :: x in c.cells ==> x.Num?
    ensures c.name in SeparateCategoricalNumerical(t).value.categorical
    ensures c.name !in SeparateCategoricalNumerical(t).value.numerical
  {
    SeparationPartitions(t);
  }
}

/**
 * `apply_1_plus_log_transformation`: replace each named column by log(1 + x)
 * of its values, checking the names one by one. The floating-point function
 * itself is a parameter `log1p`, about which nothing is assumed.
 */
module LogTransform {
  import opened Frames

  /** `log1p` applied `k` times. */
  function Iterate(log1p: real -> real, k: nat, x: real): real
  {
    if k == 0 then x else Iterate(log1p, k - 1, log1p(x))
  }

  lemma {:induction false} IterateAdd(log1p: real -> real, a: nat, b: nat, x: real)
    ensures Iterate(log1p, b, Iterate(log1p, a, x)) == Iterate(log1p, a + b, x)
  {
    if a > 0 {
      IterateAdd(log1p, a - 1, b, log1p(x));
    }
  }

  /** NaN stays NaN; a number x becomes log1p applied k times to x. */
  function LogCell(log1p: real -> real, k: nat, c: Cell): Cell
  {
    match c
    case Num(x) => Num(Iterate(log1p, k, x))
    case _ => c
  }

  /** `np.log1p` yields float64 for int, float and bool input; complex stays complex. */
  function LogDType(d: DType): DType
  {
    if d.Complex? then Complex else Float
  }

  /** A column after the transformation has been applied to it `k` times. */
  function Transformed(c: Column, k: nat, log1p: real -> real): Column
  {
    if k == 0 then c
    else Column(c.name, LogDType(c.dtype),
                seq(|c.cells|, j requires 0 <= j < |c.cells| => LogCell(log1p, k, c.cells[j])))
  }

  lemma TransformedAdd(c: Column, a: nat, b: nat, log1p: real -> real)
    ensures Transformed(Transformed(c, a, log1p), b, log1p) == Transformed(c, a + b, log1p)
  {
    if a > 0 && b > 0 {
      var once := Transformed(c, a, log1p);
      forall j | 0 <= j < |c.cells|
        ensures LogCell(log1p, b, once.cells[j]) == LogCell(log1p, a + b, c.cells[j])
      {
        if c.cells[j].Num? {
          IterateAdd(log1p, a, b, c.cells[j].x);
        }
      }
    }
  }

  /** How many times `n` is listed. */
  function Occurrences(names: seq<string>, n: string): (k: nat)
    ensures k == 0 <==> n !in names
  {
    if |names| == 0 then 0
    else (if names[0] == n then 1 else 0) + Occurrences(names[1..], n)
  }

  /** `transformed_data[n] = np.log1p(transformed_data[n])`. */
  function ApplyOnce(t: Table, n: string, log1p: real -> real): (r: Table)
    ensures r.rows == t.rows && Names(r.cols) == Names(t.cols)
  {
    Table(t.rows, seq(|t.cols|, i requires 0 <= i < |t.cols| =>
      if t.cols[i].name == n then Transformed(t.cols[i], 1, log1p) else t.cols[i]))
  }

  /** A listed name that stops the loop: it is absent, or its column is not numeric. */
  predicate Offends(t: Table, n: string)
  {
    !HasColumn(t, n) || !IsNumeric(Lookup(t, n).dtype)
  }

  function OffenseError(t: Table, n: string): Error
  {
    if !HasColumn(t, n) then ColumnNotFound(n) else NonNumericColumn(n)
  }

  lemma IndexOfSameNames(a: seq<Column>, b: seq<Column>, n: string)
    requires Names(a) == Names(b) && n in Names(a)
    ensures IndexOf(a, n) == IndexOf(b, n)
  {
    var i, j := IndexOf(a, n), IndexOf(b, n);
    assert Names(a)[i] == n && Names(b)[j] == n;
  }

  /** Transforming a numeric column leaves every name's verdict as it was. */
  lemma ApplyOncePreservesOffends(t: Table, n: string, log1p: real -> real, m: string)
    requires !Offends(t, n)
    ensures Offends(ApplyOnce(t, n, log1p), m) == Offends(t, m)
  {
    var t' := ApplyOnce(t, n, log1p);
    if HasColumn(t, m) {
      IndexOfSameNames(t'.cols, t.cols, m);
      if m == n {
        IndexOfSameNames(t'.cols, t.cols, n);
      }
    }
  }

  /** After a successful first step, the remaining names see the same verdicts. */
  lemma OffendersAfterStep(t: Table, names: seq<string>, log1p: real -> real)
    requires |names| > 0 && !Offends(t, names[0])
    ensures var t' := ApplyOnce(t, names[0], log1p);
      && ((exists k :: 0 <= k < |names| && Offends(t, names[k]))
          <==> (exists k :: 0 <= k < |names[1..]| && Offends(t', names[1..][k])))
      && (forall k :: 0 <= k < |names[1..]| ==> Offends(t', names[1..][k]) == Offends(t, names[k + 1]))
      && (forall k :: 0 <= k < |names[1..]| ==> OffenseError(t', names[1..][k]) == OffenseError(t, names[k + 1]))
  {
    var t' := ApplyOnce(t, names[0], log1p);
    forall k | 0 <= k < |names[1..]|
      ensures Offends(t', names[1..][k]) == Offends(t, names[k + 1])
    {
      ApplyOncePreservesOffends(t, names[0], log1p, names[k + 1]);
    }
    if exists k :: 0 <= k < |names| && Offends(t, names[k]) {
      var k :| 0 <= k < |names| && Offends(t, names[k]);
      assert Offends(t', names[1..][k - 1]);
    }
  }

  /** The first offender of the remaining names is the first offender of all of them. */
  lemma FirstOffenderAfterStep(t: Table, names: seq<string>, log1p: real -> real, e: Error)
    requires |names| > 0 && !Offends(t, names[0])
    requires var t' := ApplyOnce(t, names[0], log1p);
      exists k :: 0 <= k < |names[1..]| && Offends(t', names[1..][k])
                  && (forall j :: 0 <= j < k ==> !Offends(t', names[1..][j]))
                  && e == OffenseError(t', names[1..][k])
    ensures exists k :: 0 <= k < |names| && Offends(t, names[k])
                        && (forall j :: 0 <= j < k ==> !Offends(t, names[j]))
                        && e == OffenseError(t, names[k])
  {
    var t' := ApplyOnce(t, names[0], log1p);
    OffendersAfterStep(t, names, log1p);
    var k :| 0 <= k < |names[1..]| && Offends(t', names[1..][k])
             && (forall j :: 0 <= j < k ==> !Offends(t', names[1..][j]))
             && e == OffenseError(t', names[1..][k]);
    forall j | 0 <= j < k + 1 ensures !Offends(t, names[j]) {
      if j > 0 {
        assert !Offends(t', names[1..][j - 1]);
      }
    }
  }

  /** One column: the first listed name, then the rest of them. */
  lemma ColumnAfterStep(c: Column, c': Column, names: seq<string>, log1p: real -> real)
    requires |names| > 0
    requires c' == if names[0] == c.name then Transformed(c, 1, log1p) else c
    ensures c'.name == c.name
    ensures Transformed(c', Occurrences(names[1..], c.name), log1p)
            == Transformed(c, Occurrences(names, c.name), log1p)
  {
    var b := Occurrences(names[1..], c.name);
    if names[0] == c.name {
      assert Occurrences(names, c.name) == 1 + b;
      TransformedAdd(c, 1, b, log1p);
    } else {
      assert Occurrences(names, c.name) == b;
    }
  }

  /** A successful rest of the loop composes with the first step. */
  lemma CellsAfterStep(t: Table, names: seq<string>, log1p: real -> real, t': Table, r: Table)
    requires |names| > 0 && t' == ApplyOnce(t, names[0], log1p)
    requires |r.cols| == |t'.cols|
    requires forall i :: 0 <= i < |t'.cols| ==>
      r.cols[i] == Transformed(t'.cols[i], Occurrences(names[1..], t'.cols[i].name), log1p)
    ensures |r.cols| == |t.cols|
    ensures forall i :: 0 <= i < |t.cols| ==>
      r.cols[i] == Transformed(t.cols[i], Occurrences(names, t.cols[i].name), log1p)
  {
    forall i | 0 <= i < |t.cols|
      ensures r.cols[i] == Transformed(t.cols[i], Occurrences(names, t.cols[i].name), log1p)
    {
      ColumnAfterStep(t.cols[i], t'.cols[i], names, log1p);
    }
  }

  /** The loop over the listed names. */
  function TransformEach(t: Table, names: seq<string>, log1p: real -> real): (r: Result<Table>)
    ensures r.Failure? <==> exists k :: 0 <= k < |names| && Offends(t, names[k])
    ensures r.Failure? ==>
      exists k :: 0 <= k < |names| && Offends(t, names[k])
                  && (forall j :: 0 <= j < k ==> !Offends(t, names[j]))
                  && r.error == OffenseError(t, names[k])
    ensures r.Success? ==>
      && r.value.rows == t.rows
      && |r.value.cols| == |t.cols|
      && forall i :: 0 <= i < |t.cols| ==>
           r.value.cols[i] == Transformed(t.cols[i], Occurrences(names, t.cols[i].name), log1p)
    decreases |names|
  {
    if |names| == 0 then Success(t)
    else if !HasColumn(t, names[0]) then Failure(ColumnNotFound(names[0]))
    else if !IsNumeric(Lookup(t, names[0]).dtype) then Failure(NonNumericColumn(names[0]))
    else
      var t' := ApplyOnce(t, names[0], log1p);
      var r := TransformEach(t', names[1..], log1p);
      OffendersAfterStep(t, names, log1p);
      if r.Success? then
        CellsAfterStep(t, names, log1p, t', r.value);
        r
      else
        FirstOffenderAfterStep(t, names, log1p, r.error);
        r
  }

  function Apply1PlusLogTransformation(t: Table, names: seq<string>, log1p: real -> real): (r: Result<Table>)
    requires NoDups(Names(t.cols))
    // an empty table comes back as it is, whatever names are listed
    ensures IsEmpty(t) ==> r == Success(t)
    // otherwise it fails exactly when some listed name is absent or not numeric
    ensures !IsEmpty(t) ==> (r.Failure? <==> exists k :: 0 <= k < |names| && Offends(t, names[k]))
    // and then the first such name, in list order, decides the error
    ensures r.Failure? ==>
      exists k :: 0 <= k < |names| && Offends(t, names[k])
                  && (forall j :: 0 <= j < k ==> !Offends(t, names[j]))
                  && r.error == OffenseError(t, names[k])
    // on success the shape and the names stay, and unlisted columns are untouched
    ensures r.Success? ==> r.value.rows == t.rows && Names(r.value.cols) == Names(t.cols)
    ensures r.Success? ==> forall i :: 0 <= i < |t.cols| && t.cols[i].name !in names ==> r.value.cols[i] == t.cols[i]
    // a column listed k times has log1p applied k times to each number
    ensures r.Success? && !IsEmpty(t) ==>
      forall i :: 0 <= i < |t.cols| ==>
        r.value.cols[i] == Transformed(t.cols[i], Occurrences(names, t.cols[i].name), log1p)
  {
    if IsEmpty(t) then Success(t)
    else
      var r := TransformEach(t, names, log1p);
      if r.Success? then
        assert forall i :: 0 <= i < |t.cols| ==> r.value.cols[i].name == t.cols[i].name;
        assert Names(r.value.cols) == Names(t.cols);
        r
      else r
  }

  /** A name listed twice is transformed twice: x becomes log1p(log1p(x)). */
  lemma ListedTwice(t: Table, n: string, log1p: real -> real, i: nat, j: nat)
    requires NoDups(Names(t.cols)) && !IsEmpty(t) && !Offends(t, n)
    requires i < |t.cols| && t.cols[i].name == n && j < |t.cols[i].cells| && t.cols[i].cells[j].Num?
    ensures var r := Apply1PlusLogTransformation(t, [n, n], log1p);
      r.Success? && r.value.cols[i].cells[j] == Num(log1p(log1p(t.cols[i].cells[j].x)))
  {
    assert Occurrences([n, n], n) == 2;
    var x := t.cols[i].cells[j].x;
    assert Iterate(log1p, 2, x) == Iterate(log1p, 1, log1p(x)) == Iterate(log1p, 0, log1p(log1p(x)));
  }

  /** A listed column that is missing is an error, even when another listed column is fine. */
  lemma MissingColumnRejected(t: Table, good: string, missing: string, log1p: real -> real)
    requires NoDups(Names(t.cols)) && !IsEmpty(t) && !Offends(t, good) && !HasColumn(t, missing)
    ensures Apply1PlusLogTransformation(t, [good, missing], log1p) == Failure(ColumnNotFound(missing))
  {
    var r := Apply1PlusLogTransformation(t, [good, missing], log1p);
    var k :| 0 <= k < 2 && Offends(t, [good, missing][k])
             && (forall j :: 0 <= j < k ==> !Offends(t, [good, missing][j]))
             && r.error == OffenseError(t, [good, missing][k]);
  }
}

/**
 * The in-memory table the pipeline works on: a pandas DataFrame reduced to
 * named, typed columns of cells, plus the sequence helpers (counting,
 * filtering, subsequences) that the column transformations are built from.
 */
module Frames {

  /** The dtypes the transformations tell apart. */
  datatype DType = Int | Float | Bool | Complex | Object | Category | Datetime

  /** One cell. A Bool cell is stored as Num(0.0) (False) or Num(1.0) (True),
      which is how pandas compares it with 0; Missing stands for NaN, None and NaT. */
  datatype Cell = Num(x: real) | Missing | Text(s: string)

  datatype Column = Column(name: string, dtype: DType, cells: seq<Cell>)

  /** The row count is kept apart from the columns, so that a table whose
      columns were all dropped still has its index (its number of rows). */
  datatype Table = Table(rows: nat, cols: seq<Column>)

  /** The exceptions the modelled functions raise. */
  datatype Error =
    | NonIntegerThreshold
    | EmptyTable
    | NegativeThreshold
    | ColumnNotFound(name: string)
    | NonNumericColumn(name: string)
    // the models list or the parameter-grid list is empty
    | EmptyTuningInput
    | LengthMismatch
    | UncaughtException(model: string)
    | UnsupportedOperands

  datatype Result<+T> = Success(value: T) | Failure(error: Error)

  /** pandas `is_numeric_dtype`: integers, floats, booleans and complex numbers. */
  predicate IsNumeric(d: DType)
  {
    d.Int? || d.Float? || d.Bool? || d.Complex?
  }

  /** pandas `DataFrame.empty`: no rows or no columns. */
  predicate IsEmpty(t: Table)
  {
    t.rows == 0 || |t.cols| == 0
  }

  /** `series == 0`: true of a numeric zero and of False, never of NaN or text. */
  predicate IsZero(c: Cell)
  {
    c == Num(0.0)
  }

  /** `series.isna()`. */
  predicate IsNaN(c: Cell)
  {
    c.Missing?
  }

  /** The number of elements of `s` that satisfy `p` (pandas `.sum()` of a boolean mask). */
  function CountIf<T(!new)>(s: seq<T>, p: T -> bool): (n: nat)
    ensures n <= |s|
  {
    if |s| == 0 then 0
    else (if p(s[0]) then 1 else 0) + CountIf(s[1..], p)
  }

  lemma {:induction false} CountIfNone<T(!new)>(s: seq<T>, p: T -> bool)
    ensures CountIf(s, p) == 0 <==> forall x :: x in s ==> !p(x)
  {
    if |s| > 0 {
      CountIfNone(s[1..], p);
      assert s == [s[0]] + s[1..];
    }
  }

  lemma {:induction false} CountIfAll<T(!new)>(s: seq<T>, p: T -> bool)
    ensures CountIf(s, p) == |s| <==> forall x :: x in s ==> p(x)
  {
    if |s| > 0 {
      CountIfAll(s[1..], p);
      assert s == [s[0]] + s[1..];
    }
  }

  lemma {:induction false} CountIfAppend<T(!new)>(a: seq<T>, b: seq<T>, p: T -> bool)
    ensures CountIf(a + b, p) == CountIf(a, p) + CountIf(b, p)
  {
    if |a| == 0 {
      assert a + b == b;
    } else {
      assert (a + b)[1..] == a[1..] + b;
      CountIfAppend(a[1..], b, p);
    }
  }

  /** Counting does not depend on the order of the elements. */
  lemma {:induction false} CountIfPermutation<T(!new)>(a: seq<T>, b: seq<T>, p: T -> bool)
    requires multiset(a) == multiset(b)
    ensures CountIf(a, p) == CountIf(b, p)
    decreases |a|
  {
    if |a| > 0 {
      var x := a[0];
      assert x in multiset(b);
      var k :| 0 <= k < |b| && b[k] == x;
      var rest := b[..k] + b[k + 1..];
      assert b == b[..k] + [x] + b[k + 1..];
      assert multiset(b) == multiset(b[..k]) + multiset{x} + multiset(b[k + 1..]);
      assert a == [x] + a[1..];
      assert multiset(a) == multiset{x} + multiset(a[1..]);
      assert multiset(rest) == multiset(b[..k]) + multiset(b[k + 1..]);
      assert multiset(a[1..]) == multiset(a) - multiset{x};
      assert multiset(rest) == multiset(b) - multiset{x};
      CountIfPermutation(a[1..], rest, p);
      CountIfAppend(b[..k] + [x], b[k + 1..], p);
      CountIfAppend(b[..k], [x], p);
      CountIfAppend(b[..k], b[k + 1..], p);
    }
  }

  function ZeroCount(c: Column): nat
  {
    CountIf(c.cells, IsZero)
  }

  function NaNCount(c: Column): nat
  {
    CountIf(c.cells, IsNaN)
  }

  /** Zeros plus NaNs: the pipeline's "missing-like" count of a column. */
  function MissingLikeCount(c: Column): nat
  {
    ZeroCount(c) + NaNCount(c)
  }

  /** `a` is obtained from `b` by deleting elements (order and contents kept). */
  predicate IsSubseq<T(==)>(a: seq<T>, b: seq<T>)
    decreases |b|
  {
    |a| == 0 || (|b| > 0 && (if a[0] == b[0] then IsSubseq(a[1..], b[1..]) else IsSubseq(a, b[1..])))
  }

  lemma {:induction false} SubseqMembers<T>(a: seq<T>, b: seq<T>)
    requires IsSubseq(a, b)
    ensures forall x :: x in a ==> x in b
    decreases |b|
  {
    if |a| > 0 {
      if a[0] == b[0] {
        SubseqMembers(a[1..], b[1..]);
        assert a == [a[0]] + a[1..];
      } else {
        SubseqMembers(a, b[1..]);
      }
    }
  }

  lemma {:induction false} SubseqLength<T>(a: seq<T>, b: seq<T>)
    requires IsSubseq(a, b)
    ensures |a| <= |b|
    decreases |b|
  {
    if |a| > 0 {
      if a[0] == b[0] {
        SubseqLength(a[1..], b[1..]);
      } else {
        SubseqLength(a, b[1..]);
      }
    }
  }

  lemma {:induction false} SubseqRefl<T>(s: seq<T>)
    ensures IsSubseq(s, s)
  {
    if |s| > 0 {
      SubseqRefl(s[1..]);
    }
  }

  /** The elements of `s` satisfying `p`, in their original order. */
  function Filter<T(!new)>(s: seq<T>, p: T -> bool): (r: seq<T>)
    ensures |r| == CountIf(s, p)
    ensures forall x :: x in r <==> x in s && p(x)
    ensures IsSubseq(r, s)
  {
    if |s| == 0 then []
    else if p(s[0]) then [s[0]] + Filter(s[1..], p)
    else Filter(s[1..], p)
  }

  lemma {:induction false} FilterKeepsAll<T(!new)>(s: seq<T>, p: T -> bool)
    requires forall x :: x in s ==> p(x)
    ensures Filter(s, p) == s
  {
    if |s| > 0 {
      FilterKeepsAll(s[1..], p);
    }
  }

  /** Filtering depends only on what the predicate says about the elements present. */
  lemma {:induction false} FilterCongruent<T(!new)>(s: seq<T>, p: T -> bool, q: T -> bool)
    requires forall x :: x in s ==> p(x) == q(x)
    ensures Filter(s, p) == Filter(s, q)
  {
    if |s| > 0 {
      FilterCongruent(s[1..], p, q);
    }
  }

  /** Filtering with a weaker predicate keeps a superset, in the same order. */
  lemma {:induction false} FilterWeaker<T(!new)>(s: seq<T>, p: T -> bool, q: T -> bool)
    requires forall x :: x in s && p(x) ==> q(x)
    ensures IsSubseq(Filter(s, p), Filter(s, q))
  {
    if |s| > 0 {
      FilterWeaker(s[1..], p, q);
      if p(s[0]) {
        assert Filter(s, p)[1..] == Filter(s[1..], p);
      } else if q(s[0]) {
        var r := Filter(s[1..], p);
        if |r| > 0 {
          assert r[0] != s[0];
        }
      }
    }
  }

  lemma {:induction false} FilterAppend<T(!new)>(a: seq<T>, b: seq<T>, p: T -> bool)
    ensures Filter(a + b, p) == Filter(a, p) + Filter(b, p)
  {
    if |a| == 0 {
      assert a + b == b;
    } else {
      assert (a + b)[0] == a[0] && (a + b)[1..] == a[1..] + b;
      FilterAppend(a[1..], b, p);
    }
  }

  /** A kept last element stays last. */
  lemma FilterLast<T(!new)>(s: seq<T>, p: T -> bool)
    requires |s| > 0 && p(s[|s| - 1])
    ensures Filter(s, p) == Filter(s[..|s| - 1], p) + [s[|s| - 1]]
  {
    assert s == s[..|s| - 1] + [s[|s| - 1]];
    FilterAppend(s[..|s| - 1], [s[|s| - 1]], p);
  }

  /** Filtering by one test and then another is filtering once by both. */
  lemma {:induction false} FilterTwice<T(!new)>(s: seq<T>, p: T -> bool, q: T -> bool, both: T -> bool)
    requires forall x :: x in s ==> both(x) == (p(x) && q(x))
    ensures Filter(Filter(s, p), q) == Filter(s, both)
  {
    if |s| > 0 {
      FilterTwice(s[1..], p, q, both);
      if p(s[0]) {
        var f := Filter(s, p);
        assert f[0] == s[0] && f[1..] == Filter(s[1..], p);
      }
    }
  }

  function Names(cols: seq<Column>): (ns: seq<string>)
    ensures |ns| == |cols|
    ensures forall i :: 0 <= i < |cols| ==> ns[i] == cols[i].name
  {
    seq(|cols|, i requires 0 <= i < |cols| => cols[i].name)
  }

  lemma NameMembers(cols: seq<Column>, n: string)
    ensures n in Names(cols) <==> exists c :: c in cols && c.name == n
  {
    if n in Names(cols) {
      var i :| 0 <= i < |cols| && Names(cols)[i] == n;
      assert cols[i] in cols;
    }
  }

  /** A test on columns that only looks at their names keeps the names the same test on names keeps. */
  lemma {:induction false} NamesFilter(cols: seq<Column>, p: Column -> bool, q: string -> bool)
    requires forall c :: c in cols ==> p(c) == q(c.name)
    ensures Names(Filter(cols, p)) == Filter(Names(cols), q)
  {
    if |cols| > 0 {
      NamesFilter(cols[1..], p, q);
      var ns := Names(cols);
      assert ns[0] == cols[0].name && ns[1..] == Names(cols[1..]);
      var rest := Filter(cols[1..], p);
      if p(cols[0]) {
        NamesCons(cols[0], rest);
      }
    }
  }

  lemma NamesCons(c: Column, rest: seq<Column>)
    ensures Names([c] + rest) == [c.name] + Names(rest)
  {
    var cols := [c] + rest;
    var a := Names(cols);
    var b := [c.name] + Names(rest);
    assert |a| == |b|;
    forall i | 0 <= i < |a| ensures a[i] == b[i] {
      if i > 0 {
        assert cols[i] == rest[i - 1];
      }
    }
  }

  predicate NoDups<T(==)>(s: seq<T>)
  {
    forall i, j :: 0 <= i < j < |s| ==> s[i] != s[j]
  }

  lemma {:induction false} SubseqNames(a: seq<Column>, b: seq<Column>)
    requires IsSubseq(a, b)
    ensures IsSubseq(Names(a), Names(b))
    decreases |b|
  {
    if |a| > 0 {
      assert Names(a)[1..] == Names(a[1..]);
      assert Names(b)[1..] == Names(b[1..]);
      if a[0] == b[0] {
        SubseqNames(a[1..], b[1..]);
      } else {
        SubseqNames(a, b[1..]);
        SubseqSkip(Names(a), Names(b));
      }
    }
  }

  /** Dropping the head of the longer sequence keeps a subsequence a subsequence of the whole. */
  lemma {:induction false} SubseqSkip<T>(a: seq<T>, b: seq<T>)
    requires |b| > 0 && IsSubseq(a, b[1..])
    ensures IsSubseq(a, b)
    decreases |b|, 0
  {
    if |a| > 0 && a[0] == b[0] {
      SubseqTail(a, b[1..]);
    }
  }

  lemma {:induction false} SubseqTail<T>(a: seq<T>, b: seq<T>)
    requires |a| > 0 && IsSubseq(a, b)
    ensures IsSubseq(a[1..], b)
    decreases |b|, 1
  {
    if a[0] == b[0] {
      SubseqSkip(a[1..], b);
    } else {
      SubseqTail(a, b[1..]);
      SubseqSkip(a[1..], b);
    }
  }

  lemma {:induction false} SubseqTrans<T>(a: seq<T>, b: seq<T>, c: seq<T>)
    requires IsSubseq(a, b) && IsSubseq(b, c)
    ensures IsSubseq(a, c)
    decreases |c|
  {
    if |a| > 0 {
      if b[0] == c[0] {
        if a[0] == b[0] {
          SubseqTrans(a[1..], b[1..], c[1..]);
        } else {
          SubseqTrans(a, b[1..], c[1..]);
        }
      } else {
        SubseqTrans(a, b, c[1..]);
        if a[0] == c[0] {
          SubseqTail(a, c[1..]);
        }
      }
    }
  }

  lemma {:induction false} SubseqNoDups<T>(a: seq<T>, b: seq<T>)
    requires IsSubseq(a, b) && NoDups(b)
    ensures NoDups(a)
    decreases |b|
  {
    if |a| > 0 {
      assert NoDups(b[1..]);
      if a[0] == b[0] {
        SubseqNoDups(a[1..], b[1..]);
        SubseqMembers(a[1..], b[1..]);
        assert a[0] !in b[1..];
        forall i, j | 0 <= i < j < |a| ensures a[i] != a[j] {
          if i > 0 {
            assert a[i] == a[1..][i - 1] && a[j] == a[1..][j - 1];
          } else {
            assert a[j] == a[1..][j - 1];
          }
        }
      } else {
        SubseqNoDups(a, b[1..]);
      }
    }
  }

  /** What a dtype admits: numeric columns hold no text, bool columns hold only
      0 and 1, datetime columns hold no numbers. Object and category hold anything. */
  predicate CellsFit(c: Column)
  {
    forall x :: x in c.cells ==>
      && (IsNumeric(c.dtype) ==> !x.Text?)
      && (c.dtype.Bool? ==> x == Num(0.0) || x == Num(1.0))
      && (c.dtype.Datetime? ==> !x.Num?)
  }

  /** The DataFrame invariant: every column has one cell per row, cells fit
      their dtype, and the column names are unique. */
  predicate WellFormed(t: Table)
  {
    && (forall c :: c in t.cols ==> |c.cells| == t.rows && CellsFit(c))
    && NoDups(Names(t.cols))
  }

  /** Keeping a subsequence of the columns keeps a table well formed. */
  lemma SubseqWellFormed(rows: nat, a: seq<Column>, b: seq<Column>)
    requires IsSubseq(a, b)
    ensures WellFormed(Table(rows, b)) ==> WellFormed(Table(rows, a))
  {
    if WellFormed(Table(rows, b)) {
      SubseqMembers(a, b);
      SubseqNames(a, b);
      SubseqNoDups(Names(a), Names(b));
    }
  }

  predicate HasColumn(t: Table, n: string)
  {
    n in Names(t.cols)
  }

  /** The position of the first column called `n`. */
  function IndexOf(cols: seq<Column>, n: string): (i: nat)
    requires n in Names(cols)
    ensures i < |cols| && cols[i].name == n
    ensures forall j :: 0 <= j < i ==> cols[j].name != n
  {
    if cols[0].name == n then 0
    else
      var rest := cols[1..];
      assert n in Names(rest) by {
        var k :| 0 <= k < |cols| && Names(cols)[k] == n;
        assert Names(rest)[k - 1] == n;
      }
      var k := IndexOf(rest, n);
      assert forall j :: 1 <= j <= k + 1 ==> cols[j] == rest[j - 1];
      1 + k
  }

  /** `data[n]` for a table with unique names. */
  function Lookup(t: Table, n: string): (c: Column)
    requires HasColumn(t, n)
    ensures c in t.cols && c.name == n
  {
    t.cols[IndexOf(t.cols, n)]
  }

  /** With unique names, a column is determined by its name. */
  lemma UniqueNameLookup(t: Table, c: Column)
    requires NoDups(Names(t.cols)) && c in t.cols
    ensures HasColumn(t, c.name) && Lookup(t, c.name) == c
  {
    var i :| 0 <= i < |t.cols| && t.cols[i] == c;
    assert Names(t.cols)[i] == c.name;
    var k := IndexOf(t.cols, c.name);
    assert Names(t.cols)[k] == c.name;
  }
}

/**
 * The table steps of `preprocess_data`, in their order: drop the `Id`
 * column, turn the ten quality columns into ordinal scores, derive `Age`
 * from the sale and construction years (moving it before the last column
 * and dropping the two year columns), and fill every missing cell with 0.
 */
module Preprocess {
  import opened Frames

  // ---------------------------------------------------------------------
  // Dropping the identifier
  // ---------------------------------------------------------------------

  predicate NotId(c: Column)
  {
    c.name != "Id"
  }

  /** `data.drop('Id', axis=1)`. */
  function DropId(t: Table): (r: Result<Table>)
    ensures r.Failure? <==> !HasColumn(t, "Id")
    ensures r.Failure? ==> r.error == ColumnNotFound("Id")
    ensures r.Success? ==> r.value.rows == t.rows && !HasColumn(r.value, "Id")
    // exactly the columns not called Id survive, in their order
    ensures r.Success? ==> forall c :: c in t.cols ==> (c in r.value.cols <==> c.name != "Id")
    ensures r.Success? ==> forall c :: c in r.value.cols ==> c in t.cols
    ensures r.Success? ==> IsSubseq(r.value.cols, t.cols)
    ensures r.Success? && WellFormed(t) ==> WellFormed(r.value)
  {
    if !HasColumn(t, "Id") then Failure(ColumnNotFound("Id"))
    else
      var kept := Filter(t.cols, NotId);
      SubseqWellFormed(t.rows, kept, t.cols);
      NameMembers(kept, "Id");
      Success(Table(t.rows, kept))
  }

  // ---------------------------------------------------------------------
  // Ordinal mapping of the quality codes
  // ---------------------------------------------------------------------

  /** The ten columns holding quality codes, in the order they are mapped. */
  const QualityColumns: seq<string> :=
    ["GarageQual", "GarageCond", "PoolQC", "FireplaceQu", "KitchenQual",
     "HeatingQC", "BsmtCond", "BsmtQual", "ExterCond", "ExterQual"]

  /** The ordinal scale: excellent, good, typical, fair, poor. */
  const QualityScale: map<string, int> := map["Ex" := 5, "Gd" := 4, "TA" := 3, "Fa" := 2, "Po" := 1]

  /** `Series.map(mapping)` on one value: a code becomes its score, anything
      else (another string, a number, NaN) becomes NaN. */
  function QualityCell(x: Cell): Cell
  {
    if x.Text? && x.s in QualityScale then Num(QualityScale[x.s] as real) else Missing
  }

  /** A mapped column: int64 when every value was a code, float64 otherwise. */
  function MapColumn(c: Column): Column
  {
    Column(c.name,
           if forall j :: 0 <= j < |c.cells| ==> c.cells[j].Text? && c.cells[j].s in QualityScale then Int else Float,
           seq(|c.cells|, j requires 0 <= j < |c.cells| => QualityCell(c.cells[j])))
  }

  /** The five codes and their scores; every other value is lost. */
  lemma QualityCodes(c: Column, j: nat)
    requires j < |c.cells|
    ensures var x, y := c.cells[j], MapColumn(c).cells[j];
      && (x == Text("Ex") ==> y == Num(5.0))
      && (x == Text("Gd") ==> y == Num(4.0))
      && (x == Text("TA") ==> y == Num(3.0))
      && (x == Text("Fa") ==> y == Num(2.0))
      && (x == Text("Po") ==> y == Num(1.0))
      && (x != Text("Ex") && x != Text("Gd") && x != Text("TA") && x != Text("Fa") && x != Text("Po") ==> y == Missing)
  {
  }

  /** The mapped column is an integer column exactly when every value was one of the five codes. */
  lemma MappedDType(c: Column)
    ensures MapColumn(c).dtype == Int <==>
      forall x :: x in c.cells ==> x in [Text("Ex"), Text("Gd"), Text("TA"), Text("Fa"), Text("Po")]
    ensures MapColumn(c).dtype == Int || MapColumn(c).dtype == Float
  {
    var codes := [Text("Ex"), Text("Gd"), Text("TA"), Text("Fa"), Text("Po")];
    forall x: Cell ensures (x.Text? && x.s in QualityScale) <==> x in codes {
      if x.Text? && x.s in QualityScale {
        assert x.s == "Ex" || x.s == "Gd" || x.s == "TA" || x.s == "Fa" || x.s == "Po";
      }
    }
  }

  /** `data[n] = data[n].map(mapping)` for a column that exists. */
  function MapOnce(t: Table, n: string): (r: Table)
    ensures r.rows == t.rows && Names(r.cols) == Names(t.cols)
    ensures WellFormed(t) ==> WellFormed(r)
  {
    var r := Table(t.rows, seq(|t.cols|, i requires 0 <= i < |t.cols| =>
      if t.cols[i].name == n then MapColumn(t.cols[i]) else t.cols[i]));
    assert Names(r.cols) == Names(t.cols);
    r
  }

  /** The `for` loop over the listed columns. */
  function MapEach(t: Table, names: seq<string>): (r: Result<Table>)
    ensures r.Failure? <==> exists k :: 0 <= k < |names| && !HasColumn(t, names[k])
    // the first absent column, in list order, raises the KeyError
    ensures r.Failure? ==>
      exists k :: 0 <= k < |names| && !HasColumn(t, names[k])
                  && (forall j :: 0 <= j < k ==> HasColumn(t, names[j]))
                  && r.error == ColumnNotFound(names[k])
    ensures r.Success? ==> r.value.rows == t.rows && Names(r.value.cols) == Names(t.cols)
    ensures r.Success? && WellFormed(t) ==> WellFormed(r.value)
    // columns that are not listed are untouched
    ensures r.Success? ==>
      forall i :: 0 <= i < |t.cols| && t.cols[i].name !in names ==> r.value.cols[i] == t.cols[i]
    // a listed column (listed once) is mapped once
    ensures r.Success? && NoDups(names) ==>
      forall i :: 0 <= i < |t.cols| && t.cols[i].name in names ==> r.value.cols[i] == MapColumn(t.cols[i])
    decreases |names|
  {
    if |names| == 0 then Success(t)
    else if !HasColumn(t, names[0]) then Failure(ColumnNotFound(names[0]))
    else
      var t' := MapOnce(t, names[0]);
      var r := MapEach(t', names[1..]);
      AbsentAfterStep(t, t', names, r);
      if r.Success? then
        MapEachStep(t, names, r.value);
        r
      else r
  }

  /** Mapping a present first column changes no name's presence, so the
      rest of the list fails exactly when, and where, the whole list does. */
  lemma AbsentAfterStep(t: Table, t': Table, names: seq<string>, r: Result<Table>)
    requires |names| > 0 && HasColumn(t, names[0]) && Names(t'.cols) == Names(t.cols)
    requires r.Failure? <==> exists k :: 0 <= k < |names[1..]| && !HasColumn(t', names[1..][k])
    requires r.Failure? ==>
      exists k :: 0 <= k < |names[1..]| && !HasColumn(t', names[1..][k])
                  && (forall j :: 0 <= j < k ==> HasColumn(t', names[1..][j]))
                  && r.error == ColumnNotFound(names[1..][k])
    ensures r.Failure? <==> exists k :: 0 <= k < |names| && !HasColumn(t, names[k])
    ensures r.Failure? ==>
      exists k :: 0 <= k < |names| && !HasColumn(t, names[k])
                  && (forall j :: 0 <= j < k ==> HasColumn(t, names[j]))
                  && r.error == ColumnNotFound(names[k])
  {
    assert forall k :: 0 <= k < |names| - 1 ==> names[1..][k] == names[k + 1];
    if exists k :: 0 <= k < |names| && !HasColumn(t, names[k]) {
      var k :| 0 <= k < |names| && !HasColumn(t, names[k]);
      assert !HasColumn(t', names[1..][k - 1]);
    }
    if r.Failure? {
      var k :| 0 <= k < |names[1..]| && !HasColumn(t', names[1..][k])
               && (forall j :: 0 <= j < k ==> HasColumn(t', names[1..][j]))
               && r.error == ColumnNotFound(names[1..][k]);
      assert !HasColumn(t, names[k + 1]);
      forall j | 0 <= j < k + 1 ensures HasColumn(t, names[j]) {
        if j > 0 {
          assert HasColumn(t', names[1..][j - 1]);
        }
      }
    }
  }

  /** The first listed column followed by the rest of the list. */
  lemma MapEachStep(t: Table, names: seq<string>, r: Table)
    requires |names| > 0
    requires var t' := MapOnce(t, names[0]);
      && |r.cols| == |t'.cols|
      && (forall i :: 0 <= i < |t'.cols| && t'.cols[i].name !in names[1..] ==> r.cols[i] == t'.cols[i])
      && (NoDups(names[1..]) ==>
            forall i :: 0 <= i < |t'.cols| && t'.cols[i].name in names[1..] ==> r.cols[i] == MapColumn(t'.cols[i]))
    ensures forall i :: 0 <= i < |t.cols| && t.cols[i].name !in names ==> r.cols[i] == t.cols[i]
    ensures NoDups(names) ==>
      forall i :: 0 <= i < |t.cols| && t.cols[i].name in names ==> r.cols[i] == MapColumn(t.cols[i])
  {
    var t' := MapOnce(t, names[0]);
    assert forall i :: 0 <= i < |t.cols| ==> t'.cols[i].name == t.cols[i].name;
    if NoDups(names) {
      assert NoDups(names[1..]) by {
        forall i, j | 0 <= i < j < |names[1..]| ensures names[1..][i] != names[1..][j] {
          assert names[1..][i] == names[i + 1] && names[1..][j] == names[j + 1];
        }
      }
      assert names[0] !in names[1..] by {
        forall k | 0 <= k < |names[1..]| ensures names[1..][k] != names[0] {
          assert names[1..][k] == names[k + 1];
        }
      }
    }
  }

  lemma QualityColumnsDistinct()
    ensures NoDups(QualityColumns)
  {
  }

  /** Lines 95-96 over the ten quality columns. */
  function MapQuality(t: Table): (r: Result<Table>)
    ensures r.Success? ==> r.value.rows == t.rows && Names(r.value.cols) == Names(t.cols)
    ensures r.Success? && WellFormed(t) ==> WellFormed(r.value)
  {
    var r := MapEach(t, QualityColumns);
    r
  }

  /** A quality column that is absent raises the KeyError, the first one in list order. */
  lemma MapQualityErrors(t: Table)
    ensures MapQuality(t).Failure? <==> exists k :: 0 <= k < |QualityColumns| && !HasColumn(t, QualityColumns[k])
    ensures MapQuality(t).Failure? ==>
      exists k :: 0 <= k < |QualityColumns| && !HasColumn(t, QualityColumns[k])
                  && (forall j :: 0 <= j < k ==> HasColumn(t, QualityColumns[j]))
                  && MapQuality(t).error == ColumnNotFound(QualityColumns[k])
  {
    var r := MapEach(t, QualityColumns);
    assert MapQuality(t) == r;
  }

  /** The ten quality columns are mapped once each, and every other column is left as it was. */
  lemma MapQualityColumns(t: Table)
    requires forall n :: n in QualityColumns ==> HasColumn(t, n)
    ensures MapQuality(t).Success?
    ensures forall i :: 0 <= i < |t.cols| && t.cols[i].name !in QualityColumns ==>
      MapQuality(t).value.cols[i] == t.cols[i]
    ensures forall i :: 0 <= i < |t.cols| && t.cols[i].name in QualityColumns ==>
      MapQuality(t).value.cols[i] == MapColumn(t.cols[i])
  {
    MapQualityErrors(t);
    QualityColumnsDistinct();
  }

  // ---------------------------------------------------------------------
  // Deriving Age and reordering the columns
  // ---------------------------------------------------------------------

  /** pandas subtracts two numeric columns, except two bool columns. */
  predicate Subtractable(a: DType, b: DType)
  {
    IsNumeric(a) && IsNumeric(b) && !(a.Bool? && b.Bool?)
  }

  /** The dtype of a difference: complex wins over float, float over int (and bool). */
  function DiffDType(a: DType, b: DType): DType
  {
    if a.Complex? || b.Complex? then Complex else if a.Float? || b.Float? then Float else Int
  }

  /** One row of `data['YrSold'] - data['YearBuilt']`: NaN when either side is NaN. */
  function CellDiff(a: Cell, b: Cell): Cell
  {
    if a.Num? && b.Num? then Num(a.x - b.x) else Missing
  }

  function AgeColumn(sold: Column, built: Column): (c: Column)
    requires |sold.cells| == |built.cells|
    ensures c.name == "Age" && |c.cells| == |sold.cells|
    ensures forall j :: 0 <= j < |c.cells| ==> c.cells[j] == CellDiff(sold.cells[j], built.cells[j])
    ensures Subtractable(sold.dtype, built.dtype) ==> CellsFit(c)
  {
    var c := Column("Age", DiffDType(sold.dtype, built.dtype),
                    seq(|sold.cells|, j requires 0 <= j < |sold.cells| => CellDiff(sold.cells[j], built.cells[j])));
    assert forall x :: x in c.cells ==> x.Num? || x.Missing?;
    c
  }

  lemma {:induction false} NoDupsCount(s: seq<string>, x: string)
    requires NoDups(s)
    ensures multiset(s)[x] <= 1
  {
    if |s| > 0 {
      assert s == [s[0]] + s[1..];
      assert NoDups(s[1..]) by {
        forall i, j | 0 <= i < j < |s[1..]| ensures s[1..][i] != s[1..][j] {
          assert s[1..][i] == s[i + 1] && s[1..][j] == s[j + 1];
        }
      }
      NoDupsCount(s[1..], x);
      if s[0] == x {
        assert x !in s[1..] by {
          forall k | 0 <= k < |s[1..]| ensures s[1..][k] != x {
            assert s[1..][k] == s[k + 1];
          }
        }
      }
    }
  }

  /** `list.insert(-1, x)`: before the last element, or as the only one. */
  function InsertBeforeLast(s: seq<string>, x: string): (r: seq<string>)
    ensures |r| == |s| + 1 && multiset(r) == multiset(s) + multiset{x}
    ensures |s| > 0 ==> r[|s|] == s[|s| - 1] && r[|s| - 1] == x && r[..|s| - 1] == s[..|s| - 1]
    ensures NoDups(s) && x !in s ==> NoDups(r)
  {
    if |s| == 0 then [x]
    else
      var r := s[..|s| - 1] + [x, s[|s| - 1]];
      assert s == s[..|s| - 1] + [s[|s| - 1]];
      assert multiset(r) == multiset(s) + multiset{x};
      r
  }

  /** `list.remove(x)`: drop the first occurrence. */
  function RemoveFirst(s: seq<string>, x: string): (r: seq<string>)
    requires x in s
    ensures |r| == |s| - 1 && multiset(r) == multiset(s) - multiset{x}
    ensures IsSubseq(r, s)
    ensures forall y :: y != x ==> (y in r <==> y in s)
  {
    if s[0] == x then
      assert s == [s[0]] + s[1..];
      SubseqRefl(s[1..]);
      SubseqSkip(s[1..], s);
      s[1..]
    else
      assert s == [s[0]] + s[1..];
      var rest := RemoveFirst(s[1..], x);
      assert ([s[0]] + rest)[1..] == rest;
      [s[0]] + rest
  }

  /** It is the first occurrence that `list.remove` deletes: the result is
      `s` with position `k` cut out, where `k` is the first `x`. */
  lemma {:induction false} RemoveFirstTakesFirst(s: seq<string>, x: string)
    requires x in s
    ensures exists k :: 0 <= k < |s| && s[k] == x && x !in s[..k] && RemoveFirst(s, x) == s[..k] + s[k + 1..]
  {
    if s[0] == x {
      assert s[..0] + s[1..] == s[1..];
    } else {
      assert s == [s[0]] + s[1..];
      RemoveFirstTakesFirst(s[1..], x);
      var rest := RemoveFirst(s[1..], x);
      var k :| 0 <= k < |s[1..]| && s[1..][k] == x && x !in s[1..][..k] && rest == s[1..][..k] + s[1..][k + 1..];
      CutAfterHead(s, k, rest);
      var j := k + 1;
      assert 0 <= j < |s| && s[j] == x && x !in s[..j] && RemoveFirst(s, x) == s[..j] + s[j + 1..];
    }
  }

  /** Cutting position `k` of the tail is cutting position `k + 1` of the whole. */
  lemma CutAfterHead(s: seq<string>, k: nat, rest: seq<string>)
    requires k < |s| - 1 && rest == s[1..][..k] + s[1..][k + 1..]
    ensures [s[0]] + rest == s[..k + 1] + s[k + 2..]
    ensures s[..k + 1] == [s[0]] + s[1..][..k]
  {
    assert s[..k + 1] == [s[0]] + s[1..][..k];
    assert s[k + 2..] == s[1..][k + 1..];
  }

  /** From unique names, `list.remove` takes the only occurrence. */
  lemma {:induction false} RemoveFirstNoDups(s: seq<string>, x: string)
    requires x in s && NoDups(s)
    ensures x !in RemoveFirst(s, x) && NoDups(RemoveFirst(s, x))
  {
    SubseqNoDups(RemoveFirst(s, x), s);
    NoDupsCount(s, x);
    MultisetMember(RemoveFirst(s, x), x);
  }

  /** `x` is in a sequence exactly when it occurs at least once. */
  lemma MultisetMember(s: seq<string>, x: string)
    ensures x in s <==> multiset(s)[x] > 0
  {
  }

  /** The column order built at lines 100-104: `Age` inserted before the
      last name, then the first `YearBuilt` and the first `YrSold` removed. */
  function AgeOrder(names: seq<string>): (r: seq<string>)
    requires "YearBuilt" in names && "YrSold" in names
    ensures multiset(r) == multiset(names) + multiset{"Age"} - multiset{"YearBuilt"} - multiset{"YrSold"}
    ensures IsSubseq(r, InsertBeforeLast(names, "Age"))
  {
    var withAge := InsertBeforeLast(names, "Age");
    MultisetMember(withAge, "YearBuilt");
    var once := RemoveFirst(withAge, "YearBuilt");
    MultisetMember(once, "YrSold");
    var r := RemoveFirst(once, "YrSold");
    SubseqTrans(r, once, withAge);
    r
  }

  /** With unique names and no Age among them, the new order has unique names too. */
  lemma AgeOrderNoDups(names: seq<string>)
    requires "YearBuilt" in names && "YrSold" in names && NoDups(names)
    ensures "Age" !in names ==> NoDups(AgeOrder(names))
  {
    if "Age" !in names {
      SubseqNoDups(AgeOrder(names), InsertBeforeLast(names, "Age"));
    }
  }

  /** `data[columns]` after `data['Age']` was set: each listed name picks
      its column, `Age` picking the new one. */
  function SelectWithAge(t: Table, age: Column, order: seq<string>): (r: Table)
    requires age.name == "Age"
    requires forall n :: n in order ==> n == "Age" || HasColumn(t, n)
    ensures r.rows == t.rows && Names(r.cols) == order
    ensures forall c :: c in r.cols ==> c == age || (c in t.cols && c.name != "Age")
  {
    var r := Table(t.rows, seq(|order|, i requires 0 <= i < |order| =>
      if order[i] == "Age" then age else Lookup(t, order[i])));
    assert forall i :: 0 <= i < |order| ==> r.cols[i].name == order[i];
    r
  }

  /** Every column of the table whose name is listed (other than Age) is selected. */
  lemma SelectKeeps(t: Table, age: Column, order: seq<string>)
    requires NoDups(Names(t.cols)) && age.name == "Age"
    requires forall n :: n in order ==> n == "Age" || HasColumn(t, n)
    ensures forall c :: c in t.cols && c.name in order && c.name != "Age" ==> c in SelectWithAge(t, age, order).cols
  {
    var r := SelectWithAge(t, age, order);
    forall c | c in t.cols && c.name in order && c.name != "Age" ensures c in r.cols {
      var i :| 0 <= i < |order| && order[i] == c.name;
      UniqueNameLookup(t, c);
      assert r.cols[i] == Lookup(t, c.name);
    }
  }

  /** Selecting distinct names from a well-formed table, with a fitting Age column, is well formed. */
  lemma SelectWellFormed(t: Table, age: Column, order: seq<string>)
    requires WellFormed(t) && age.name == "Age" && |age.cells| == t.rows && CellsFit(age)
    requires forall n :: n in order ==> n == "Age" || HasColumn(t, n)
    ensures NoDups(order) ==> WellFormed(SelectWithAge(t, age, order))
  {
  }

  /** Lines 100-105 once both year columns were found and can be subtracted. */
  function AgeTable(t: Table): (r: Table)
    requires WellFormed(t) && HasColumn(t, "YrSold") && HasColumn(t, "YearBuilt")
    requires Subtractable(Lookup(t, "YrSold").dtype, Lookup(t, "YearBuilt").dtype)
    ensures r.rows == t.rows && Names(r.cols) == AgeOrder(Names(t.cols))
  {
    AgeOrderMembers(Names(t.cols));
    SelectWithAge(t, AgeColumn(Lookup(t, "YrSold"), Lookup(t, "YearBuilt")), AgeOrder(Names(t.cols)))
  }

  lemma AgeTableNames(t: Table)
    requires WellFormed(t) && HasColumn(t, "YrSold") && HasColumn(t, "YearBuilt")
    requires Subtractable(Lookup(t, "YrSold").dtype, Lookup(t, "YearBuilt").dtype)
    ensures var r := AgeTable(t);
      HasColumn(r, "Age") && !HasColumn(r, "YearBuilt") && !HasColumn(r, "YrSold")
  {
    AgeOrderMembers(Names(t.cols));
  }

  lemma AgeTableColumns(t: Table)
    requires WellFormed(t) && HasColumn(t, "YrSold") && HasColumn(t, "YearBuilt")
    requires Subtractable(Lookup(t, "YrSold").dtype, Lookup(t, "YearBuilt").dtype)
    ensures var r := AgeTable(t);
      && (forall c :: c in t.cols && c.name != "Age" && c.name != "YearBuilt" && c.name != "YrSold" ==> c in r.cols)
      && (forall c :: c in r.cols ==> c.name == "Age" || c in t.cols)
  {
    var names := Names(t.cols);
    AgeOrderMembers(names);
    SelectKeeps(t, AgeColumn(Lookup(t, "YrSold"), Lookup(t, "YearBuilt")), AgeOrder(names));
  }

  lemma AgeTableWellFormed(t: Table)
    requires WellFormed(t) && HasColumn(t, "YrSold") && HasColumn(t, "YearBuilt")
    requires Subtractable(Lookup(t, "YrSold").dtype, Lookup(t, "YearBuilt").dtype)
    ensures !HasColumn(t, "Age") ==> WellFormed(AgeTable(t))
  {
    var names := Names(t.cols);
    AgeOrderMembers(names);
    AgeOrderNoDups(names);
    SelectWellFormed(t, AgeColumn(Lookup(t, "YrSold"), Lookup(t, "YearBuilt")), AgeOrder(names));
  }

  /** Lines 100-105. */
  function DeriveAge(t: Table): (r: Result<Table>)
    requires WellFormed(t)
    // `data['YrSold']` is looked up before `data['YearBuilt']`
    ensures !HasColumn(t, "YrSold") ==> r == Failure(ColumnNotFound("YrSold"))
    ensures HasColumn(t, "YrSold") && !HasColumn(t, "YearBuilt") ==> r == Failure(ColumnNotFound("YearBuilt"))
    ensures r.Success? <==>
      HasColumn(t, "YrSold") && HasColumn(t, "YearBuilt")
      && Subtractable(Lookup(t, "YrSold").dtype, Lookup(t, "YearBuilt").dtype)
    ensures r.Failure? && HasColumn(t, "YrSold") && HasColumn(t, "YearBuilt") ==> r.error == UnsupportedOperands
    ensures r.Success? ==> r.value.rows == t.rows
    // Age is present and the two year columns are gone
    ensures r.Success? ==>
      HasColumn(r.value, "Age") && !HasColumn(r.value, "YearBuilt") && !HasColumn(r.value, "YrSold")
    // every other column is kept as it was, and nothing else appears
    ensures r.Success? ==>
      forall c :: c in t.cols && c.name != "Age" && c.name != "YearBuilt" && c.name != "YrSold" ==> c in r.value.cols
    ensures r.Success? ==> forall c :: c in r.value.cols ==> c.name == "Age" || c in t.cols
    ensures r.Success? && !HasColumn(t, "Age") ==> WellFormed(r.value)
  {
    if !HasColumn(t, "YrSold") then Failure(ColumnNotFound("YrSold"))
    else if !HasColumn(t, "YearBuilt") then Failure(ColumnNotFound("YearBuilt"))
    else if !Subtractable(Lookup(t, "YrSold").dtype, Lookup(t, "YearBuilt").dtype) then Failure(UnsupportedOperands)
    else
      AgeTableNames(t);
      AgeTableColumns(t);
      AgeTableWellFormed(t);
      Success(AgeTable(t))
  }

  /** On success the result is the reordered table with its Age column. */
  lemma DeriveAgeIsAgeTable(t: Table)
    requires WellFormed(t) && HasColumn(t, "YrSold") && HasColumn(t, "YearBuilt")
    requires Subtractable(Lookup(t, "YrSold").dtype, Lookup(t, "YearBuilt").dtype)
    ensures DeriveAge(t) == Success(AgeTable(t))
  {
  }

  /** The only column called Age in the result is the computed one. */
  lemma AgeTableAgeColumn(t: Table)
    requires WellFormed(t) && HasColumn(t, "YrSold") && HasColumn(t, "YearBuilt")
    requires Subtractable(Lookup(t, "YrSold").dtype, Lookup(t, "YearBuilt").dtype)
    ensures forall c :: c in AgeTable(t).cols && c.name == "Age" ==>
      c == AgeColumn(Lookup(t, "YrSold"), Lookup(t, "YearBuilt"))
  {
    var age := AgeColumn(Lookup(t, "YrSold"), Lookup(t, "YearBuilt"));
    var order := AgeOrder(Names(t.cols));
    AgeOrderMembers(Names(t.cols));
    assert AgeTable(t) == SelectWithAge(t, age, order);
  }

  /** `age` is `sold - built` row by row: a difference where both sides are
      numbers, NaN where either side is NaN. */
  predicate RowDifference(age: Column, sold: Column, built: Column)
  {
    && |age.cells| == |sold.cells| == |built.cells|
    && forall j :: 0 <= j < |age.cells| ==>
         && (sold.cells[j].Num? && built.cells[j].Num? ==> age.cells[j] == Num(sold.cells[j].x - built.cells[j].x))
         && (sold.cells[j].Missing? || built.cells[j].Missing? ==> age.cells[j] == Missing)
  }

  lemma AgeColumnCells(sold: Column, built: Column)
    requires |sold.cells| == |built.cells|
    ensures RowDifference(AgeColumn(sold, built), sold, built)
  {
  }

  /** Age = YrSold - YearBuilt, row by row; NaN on either side gives NaN. */
  lemma AgeIsYearDifference(t: Table)
    requires WellFormed(t) && HasColumn(t, "YrSold") && HasColumn(t, "YearBuilt")
    requires Subtractable(Lookup(t, "YrSold").dtype, Lookup(t, "YearBuilt").dtype)
    ensures |Lookup(DeriveAge(t).value, "Age").cells| == t.rows
    ensures RowDifference(Lookup(DeriveAge(t).value, "Age"), Lookup(t, "YrSold"), Lookup(t, "YearBuilt"))
  {
    DeriveAgeIsAgeTable(t);
    var sold, built := Lookup(t, "YrSold"), Lookup(t, "YearBuilt");
    assert |sold.cells| == t.rows && |built.cells| == t.rows;
    AgeTableAgeColumn(t);
    AgeColumnCells(sold, built);
    assert Lookup(DeriveAge(t).value, "Age") == AgeColumn(sold, built);
  }

  /** The two year columns occur once among unique names and are removed. */
  lemma AgeOrderDropsYears(names: seq<string>)
    requires "YearBuilt" in names && "YrSold" in names && NoDups(names)
    ensures "YearBuilt" !in AgeOrder(names) && "YrSold" !in AgeOrder(names)
  {
    NoDupsCount(names, "YearBuilt");
    NoDupsCount(names, "YrSold");
    MultisetMember(AgeOrder(names), "YearBuilt");
    MultisetMember(AgeOrder(names), "YrSold");
  }

  /** Age and every name other than the two years is in the order. */
  lemma AgeOrderKeepsOthers(names: seq<string>)
    requires "YearBuilt" in names && "YrSold" in names
    ensures forall n :: n != "YearBuilt" && n != "YrSold" ==> (n in AgeOrder(names) <==> n == "Age" || n in names)
  {
    var order := AgeOrder(names);
    forall n | n != "YearBuilt" && n != "YrSold" ensures n in order <==> n == "Age" || n in names {
      MultisetMember(order, n);
      MultisetMember(names, n);
    }
  }

  /** Which names the order holds, for unique names. */
  lemma AgeOrderMembers(names: seq<string>)
    requires "YearBuilt" in names && "YrSold" in names && NoDups(names)
    ensures var order := AgeOrder(names);
      && "Age" in order && "YearBuilt" !in order && "YrSold" !in order
      && forall n :: n in order <==> n == "Age" || (n in names && n != "YearBuilt" && n != "YrSold")
  {
    AgeOrderDropsYears(names);
    AgeOrderKeepsOthers(names);
  }

  /** A name other than the two year columns. */
  predicate NotAYear(n: string)
  {
    n != "YearBuilt" && n != "YrSold"
  }

  /** Both removals happen before the inserted Age and the last name. */
  lemma AgeOrderRemovesBeforeLast(names: seq<string>)
    requires |names| > 0
    requires "YearBuilt" in names[..|names| - 1] && "YrSold" in names[..|names| - 1]
    ensures "YrSold" in RemoveFirst(names[..|names| - 1], "YearBuilt")
    ensures AgeOrder(names)
            == RemoveFirst(RemoveFirst(names[..|names| - 1], "YearBuilt"), "YrSold") + ["Age", names[|names| - 1]]
  {
    var n := |names|;
    var p := names[..n - 1];
    var tail := ["Age", names[n - 1]];
    assert InsertBeforeLast(names, "Age") == p + tail;
    RemoveFirstAppend(p, tail, "YearBuilt");
    var once := RemoveFirst(p, "YearBuilt");
    RemoveFirstAppend(once, tail, "YrSold");
  }

  /** From unique names, removing the two years is filtering them out. */
  lemma RemoveYearsIsFilter(p: seq<string>)
    requires NoDups(p) && "YearBuilt" in p && "YrSold" in p
    ensures "YrSold" in RemoveFirst(p, "YearBuilt")
    ensures RemoveFirst(RemoveFirst(p, "YearBuilt"), "YrSold") == Filter(p, NotAYear)
  {
    var once := RemoveFirst(p, "YearBuilt");
    RemoveFirstNoDups(p, "YearBuilt");
    var r := RemoveFirst(once, "YrSold");
    RemoveFirstNoDups(once, "YrSold");
    RemoveFirstFilter(p, "YearBuilt", NotAYear);
    RemoveFirstFilter(once, "YrSold", NotAYear);
    FilterKeepsAll(r, NotAYear);
  }

  /** The order, for unique names whose last one is neither year: the names
      but the last, minus the two years, then Age, then the last name. */
  lemma AgeOrderBeforeLast(names: seq<string>)
    requires NoDups(names) && |names| > 0
    requires "YearBuilt" in names[..|names| - 1] && "YrSold" in names[..|names| - 1]
    ensures AgeOrder(names) == Filter(names[..|names| - 1], NotAYear) + ["Age", names[|names| - 1]]
  {
    var p := names[..|names| - 1];
    assert NoDups(p) by {
      forall i, j | 0 <= i < j < |p| ensures p[i] != p[j] {
        assert p[i] == names[i] && p[j] == names[j];
      }
    }
    AgeOrderRemovesBeforeLast(names);
    RemoveYearsIsFilter(p);
  }

  lemma AgeTableBeforeLast(t: Table)
    requires WellFormed(t) && HasColumn(t, "YrSold") && HasColumn(t, "YearBuilt")
    requires Subtractable(Lookup(t, "YrSold").dtype, Lookup(t, "YearBuilt").dtype)
    requires |t.cols| > 0 && NotAYear(t.cols[|t.cols| - 1].name)
    ensures Names(AgeTable(t).cols) == Filter(Names(t.cols)[..|t.cols| - 1], NotAYear) + ["Age", t.cols[|t.cols| - 1].name]
  {
    var names := Names(t.cols);
    LastExcluded(names, "YearBuilt");
    LastExcluded(names, "YrSold");
    AgeOrderBeforeLast(names);
  }

  /** When the last column is neither year column, the result's columns are
      the others but the last, minus the two year columns, then Age, then
      the last column. */
  lemma AgeBeforeLastColumn(t: Table)
    requires WellFormed(t) && HasColumn(t, "YrSold") && HasColumn(t, "YearBuilt")
    requires Subtractable(Lookup(t, "YrSold").dtype, Lookup(t, "YearBuilt").dtype)
    requires |t.cols| > 0 && NotAYear(t.cols[|t.cols| - 1].name)
    ensures Names(DeriveAge(t).value.cols) == Filter(Names(t.cols)[..|t.cols| - 1], NotAYear) + ["Age", t.cols[|t.cols| - 1].name]
  {
    DeriveAgeIsAgeTable(t);
    AgeTableBeforeLast(t);
  }

  lemma LastExcluded(names: seq<string>, x: string)
    requires x in names && names[|names| - 1] != x
    ensures x in names[..|names| - 1]
  {
    var i :| 0 <= i < |names| && names[i] == x;
    assert names[..|names| - 1][i] == x;
  }

  lemma {:induction false} RemoveFirstAppend(a: seq<string>, b: seq<string>, x: string)
    requires x in a
    ensures RemoveFirst(a + b, x) == RemoveFirst(a, x) + b
  {
    assert (a + b)[1..] == a[1..] + b;
    if a[0] != x {
      RemoveFirstAppend(a[1..], b, x);
    }
  }

  /** Removing an element the filter drops anyway does not change the filtered sequence. */
  lemma {:induction false} RemoveFirstFilter(s: seq<string>, x: string, p: string -> bool)
    requires x in s && !p(x)
    ensures Filter(RemoveFirst(s, x), p) == Filter(s, p)
  {
    if s[0] != x {
      RemoveFirstFilter(s[1..], x, p);
      assert ([s[0]] + RemoveFirst(s[1..], x))[1..] == RemoveFirst(s[1..], x);
    }
  }

  // ---------------------------------------------------------------------
  // Filling missing cells
  // ---------------------------------------------------------------------

  function FillCell(x: Cell): Cell
  {
    if x.Missing? then Num(0.0) else x
  }

  function FillCells(s: seq<Cell>): seq<Cell>
  {
    seq(|s|, j requires 0 <= j < |s| => FillCell(s[j]))
  }

  /** `fillna(0)` on one column: a datetime column that had NaT becomes an object column. */
  function FillColumn(c: Column): Column
  {
    Column(c.name, if c.dtype.Datetime? && Missing in c.cells then Object else c.dtype, FillCells(c.cells))
  }

  /** `data.fillna(0)`. */
  function FillNa(t: Table): (r: Table)
    ensures r.rows == t.rows && Names(r.cols) == Names(t.cols)
    // no missing cell remains
    ensures forall c :: c in r.cols ==> Missing !in c.cells
    // a missing cell becomes 0, every other cell is kept
    ensures forall i, j :: 0 <= i < |t.cols| && 0 <= j < |t.cols[i].cells| ==>
      |r.cols[i].cells| == |t.cols[i].cells|
      && r.cols[i].cells[j] == (if t.cols[i].cells[j].Missing? then Num(0.0) else t.cols[i].cells[j])
    ensures WellFormed(t) ==> WellFormed(r)
  {
    var r := Table(t.rows, seq(|t.cols|, i requires 0 <= i < |t.cols| => FillColumn(t.cols[i])));
    assert Names(r.cols) == Names(t.cols);
    r
  }

  /** Filling twice is filling once. */
  lemma FillNaIdempotent(t: Table)
    ensures FillNa(FillNa(t)) == FillNa(t)
  {
    var once := FillNa(t);
    forall i | 0 <= i < |once.cols| ensures FillColumn(once.cols[i]) == once.cols[i] {
      assert Missing !in once.cols[i].cells;
    }
  }

  lemma {:induction false} FillCellsCount(s: seq<Cell>)
    ensures CountIf(FillCells(s), IsZero) == CountIf(s, IsZero) + CountIf(s, IsNaN)
  {
    if |s| > 0 {
      assert FillCells(s)[1..] == FillCells(s[1..]);
      FillCellsCount(s[1..]);
    }
  }

  /** After filling, a column's zeros are its former zeros plus its former NaNs. */
  lemma FilledZeros(t: Table, i: nat)
    requires i < |t.cols|
    ensures ZeroCount(FillNa(t).cols[i]) == MissingLikeCount(t.cols[i])
    ensures NaNCount(FillNa(t).cols[i]) == 0
  {
    FillCellsCount(t.cols[i].cells);
    CountIfNone(FillNa(t).cols[i].cells, IsNaN);
  }

  // ---------------------------------------------------------------------
  // The steps in sequence
  // ---------------------------------------------------------------------

  /** The names lines 88-107 treat specially. */
  lemma QualityNames()
    ensures "Id" !in QualityColumns && "Age" !in QualityColumns
    ensures "YrSold" !in QualityColumns && "YearBuilt" !in QualityColumns
  {
  }

  lemma QualityNameElsewhere(q: string)
    requires q in QualityColumns
    ensures q != "Id" && q != "Age" && q != "YrSold" && q != "YearBuilt"
  {
    QualityNames();
  }

  predicate NotIdName(n: string)
  {
    n != "Id"
  }

  /** A name that survives into the final order: neither `Id` nor a year column. */
  predicate Survives(n: string)
  {
    NotIdName(n) && NotAYear(n)
  }

  /** A name whose column goes through lines 88-105 untouched. */
  predicate Untouched(n: string)
  {
    Survives(n) && n != "Age" && n !in QualityColumns
  }

  /** Every one of the ten quality columns is there. */
  predicate QualityPresent(t: Table)
  {
    forall q :: q in QualityColumns ==> HasColumn(t, q)
  }

  /** What lines 88-107 need of their input: an `Id` column, the ten quality
      columns, and two year columns that can be subtracted. */
  predicate Preprocessable(t: Table)
  {
    && HasColumn(t, "Id")
    && QualityPresent(t)
    && HasColumn(t, "YrSold") && HasColumn(t, "YearBuilt")
    && Subtractable(Lookup(t, "YrSold").dtype, Lookup(t, "YearBuilt").dtype)
  }

  /** Dropping `Id` removes that one name and keeps the order of the others. */
  lemma DropIdNames(t: Table)
    requires HasColumn(t, "Id")
    ensures Names(DropId(t).value.cols) == Filter(Names(t.cols), NotIdName)
    ensures forall n :: HasColumn(DropId(t).value, n) <==> HasColumn(t, n) && n != "Id"
  {
    NamesFilter(t.cols, NotId, NotIdName);
  }

  lemma LookupAfterDropId(t: Table, n: string)
    requires WellFormed(t) && HasColumn(t, "Id") && HasColumn(t, n) && n != "Id"
    ensures HasColumn(DropId(t).value, n) && Lookup(DropId(t).value, n) == Lookup(t, n)
  {
    var c := Lookup(t, n);
    assert c in DropId(t).value.cols;
    UniqueNameLookup(DropId(t).value, c);
  }

  /** After the mapping a quality column is found mapped, any other column as it was. */
  lemma LookupAfterMapQuality(u: Table, n: string)
    requires WellFormed(u) && (forall q :: q in QualityColumns ==> HasColumn(u, q)) && HasColumn(u, n)
    ensures MapQuality(u).Success? && HasColumn(MapQuality(u).value, n)
    ensures Lookup(MapQuality(u).value, n) == if n in QualityColumns then MapColumn(Lookup(u, n)) else Lookup(u, n)
  {
    MapQualityColumns(u);
    var m := MapQuality(u).value;
    var i := IndexOf(u.cols, n);
    assert Names(m.cols)[i] == n;
    UniqueNameLookup(m, m.cols[i]);
  }

  /** Lines 88-96: drop `Id`, then map the ten quality columns. */
  function DropAndMap(t: Table): (r: Result<Table>)
    requires WellFormed(t)
    ensures !HasColumn(t, "Id") ==> r == Failure(ColumnNotFound("Id"))
    ensures r.Success? <==> HasColumn(t, "Id") && QualityPresent(t)
    // after the drop, the first absent quality column raises
    ensures HasColumn(t, "Id") && r.Failure? ==>
      exists k :: 0 <= k < |QualityColumns| && !HasColumn(t, QualityColumns[k])
                  && (forall j :: 0 <= j < k ==> HasColumn(t, QualityColumns[j]))
                  && r.error == ColumnNotFound(QualityColumns[k])
    ensures r.Success? ==>
      && WellFormed(r.value) && r.value.rows == t.rows
      && Names(r.value.cols) == Filter(Names(t.cols), NotIdName)
  {
    match DropId(t)
    case Failure(e) => Failure(e)
    case Success(noId) =>
      QualityNames();
      DropIdNames(t);
      MapQualityErrors(noId);
      MapQuality(noId)
  }

  /** After lines 88-96 a quality column is found mapped and any other
      column but `Id` as it was. */
  lemma LookupAfterDropAndMap(t: Table, n: string)
    requires WellFormed(t) && HasColumn(t, "Id") && QualityPresent(t)
    requires HasColumn(t, n) && n != "Id"
    ensures DropAndMap(t).Success? && HasColumn(DropAndMap(t).value, n)
    ensures Lookup(DropAndMap(t).value, n) == if n in QualityColumns then MapColumn(Lookup(t, n)) else Lookup(t, n)
  {
    QualityNames();
    DropIdNames(t);
    LookupAfterDropId(t, n);
    LookupAfterMapQuality(DropId(t).value, n);
  }

  /** The two year columns reach the Age step as they were. */
  lemma YearsAfterDropAndMap(t: Table)
    requires WellFormed(t) && HasColumn(t, "Id") && QualityPresent(t)
    ensures var mapped := DropAndMap(t).value;
      && (HasColumn(mapped, "YrSold") <==> HasColumn(t, "YrSold"))
      && (HasColumn(mapped, "YearBuilt") <==> HasColumn(t, "YearBuilt"))
      && (HasColumn(t, "YrSold") ==> Lookup(mapped, "YrSold") == Lookup(t, "YrSold"))
      && (HasColumn(t, "YearBuilt") ==> Lookup(mapped, "YearBuilt") == Lookup(t, "YearBuilt"))
  {
    QualityNames();
    if HasColumn(t, "YrSold") {
      LookupAfterDropAndMap(t, "YrSold");
    }
    if HasColumn(t, "YearBuilt") {
      LookupAfterDropAndMap(t, "YearBuilt");
    }
  }

  /** Lines 97-107: derive Age from the two years, then fill every gap with 0. */
  function AgeAndFill(m: Table): (r: Result<Table>)
    requires WellFormed(m)
    ensures !HasColumn(m, "YrSold") ==> r == Failure(ColumnNotFound("YrSold"))
    ensures HasColumn(m, "YrSold") && !HasColumn(m, "YearBuilt") ==> r == Failure(ColumnNotFound("YearBuilt"))
    ensures r.Success? <==>
      HasColumn(m, "YrSold") && HasColumn(m, "YearBuilt")
      && Subtractable(Lookup(m, "YrSold").dtype, Lookup(m, "YearBuilt").dtype)
    ensures r.Failure? && HasColumn(m, "YrSold") && HasColumn(m, "YearBuilt") ==> r.error == UnsupportedOperands
    ensures r.Success? ==>
      && r.value.rows == m.rows && HasColumn(r.value, "Age")
      && !HasColumn(r.value, "YearBuilt") && !HasColumn(r.value, "YrSold")
      && (!HasColumn(m, "Id") ==> !HasColumn(r.value, "Id"))
    ensures r.Success? ==> forall c :: c in r.value.cols ==> Missing !in c.cells
  {
    match DeriveAge(m)
    case Failure(e) => Failure(e)
    case Success(aged) =>
      assert !HasColumn(m, "Id") ==> !HasColumn(aged, "Id") by {
        if !HasColumn(m, "Id") {
          forall c | c in aged.cols && c.name != "Age" ensures c.name != "Id" {
            assert c in m.cols;
            NameMembers(m.cols, c.name);
          }
          NameMembers(aged.cols, "Id");
        }
      }
      Success(FillNa(aged))
  }

  /** Lines 88-107, leaving out the census printouts. */
  function PreprocessSteps(t: Table): (r: Result<Table>)
    requires WellFormed(t)
    // the steps succeed exactly when every column they touch is there
    ensures r.Success? <==> Preprocessable(t)
    ensures !HasColumn(t, "Id") ==> r == Failure(ColumnNotFound("Id"))
    ensures r.Success? ==> r.value.rows == t.rows
    ensures r.Success? ==>
      && !HasColumn(r.value, "Id") && HasColumn(r.value, "Age")
      && !HasColumn(r.value, "YearBuilt") && !HasColumn(r.value, "YrSold")
    ensures r.Success? ==> forall c :: c in r.value.cols ==> Missing !in c.cells
  {
    match DropAndMap(t)
    case Failure(e) => Failure(e)
    case Success(mapped) =>
      YearsAfterDropAndMap(t);
      NameMembers(mapped.cols, "Id");
      AgeAndFill(mapped)
  }

  /** After `Id`, the first absent quality column is the failure. */
  lemma PreprocessQualityError(t: Table)
    requires WellFormed(t) && HasColumn(t, "Id")
    requires exists k :: 0 <= k < |QualityColumns| && !HasColumn(t, QualityColumns[k])
    ensures exists k :: 0 <= k < |QualityColumns| && !HasColumn(t, QualityColumns[k])
                  && (forall j :: 0 <= j < k ==> HasColumn(t, QualityColumns[j]))
                  && PreprocessSteps(t) == Failure(ColumnNotFound(QualityColumns[k]))
  {
    var d := DropAndMap(t);
    assert PreprocessSteps(t) == d;
    var names := QualityColumns;
    var k :| 0 <= k < |names| && !HasColumn(t, names[k])
             && (forall j :: 0 <= j < k ==> HasColumn(t, names[j]))
             && d.error == ColumnNotFound(names[k]);
    assert PreprocessSteps(t) == Failure(ColumnNotFound(names[k]));
  }

  /** With every quality column present, the years fail in the order the
      lines read them, then the subtraction. */
  lemma PreprocessYearErrors(t: Table)
    requires WellFormed(t) && HasColumn(t, "Id") && QualityPresent(t)
    ensures !HasColumn(t, "YrSold") ==> PreprocessSteps(t) == Failure(ColumnNotFound("YrSold"))
    ensures HasColumn(t, "YrSold") && !HasColumn(t, "YearBuilt") ==> PreprocessSteps(t) == Failure(ColumnNotFound("YearBuilt"))
    ensures HasColumn(t, "YrSold") && HasColumn(t, "YearBuilt")
            && !Subtractable(Lookup(t, "YrSold").dtype, Lookup(t, "YearBuilt").dtype) ==>
              PreprocessSteps(t) == Failure(UnsupportedOperands)
  {
    var m := DropAndMap(t).value;
    YearsAfterDropAndMap(t);
    assert PreprocessSteps(t) == AgeAndFill(m);
  }

  /** `fillna` keeps the columns in place: each filled column comes from one before. */
  lemma FilledColumns(u: Table)
    ensures forall c :: c in u.cols ==> FillColumn(c) in FillNa(u).cols
    ensures forall c :: c in FillNa(u).cols ==> exists d :: d in u.cols && c == FillColumn(d)
  {
    var r := FillNa(u);
    forall c | c in u.cols ensures FillColumn(c) in r.cols {
      var i :| 0 <= i < |u.cols| && u.cols[i] == c;
      assert r.cols[i] == FillColumn(c);
    }
    forall c | c in r.cols ensures exists d :: d in u.cols && c == FillColumn(d) {
      var i :| 0 <= i < |r.cols| && r.cols[i] == c;
      assert u.cols[i] in u.cols;
    }
  }

  /** On success: the result is the filled Age table of the mapped table. */
  lemma PreprocessIsFilledAgeTable(t: Table)
    requires WellFormed(t) && Preprocessable(t)
    ensures DropAndMap(t).Success?
    ensures var mapped := DropAndMap(t).value;
      && WellFormed(mapped) && HasColumn(mapped, "YrSold") && HasColumn(mapped, "YearBuilt")
      && Lookup(mapped, "YrSold") == Lookup(t, "YrSold") && Lookup(mapped, "YearBuilt") == Lookup(t, "YearBuilt")
      && PreprocessSteps(t) == Success(FillNa(AgeTable(mapped)))
  {
    YearsAfterDropAndMap(t);
    DeriveAgeIsAgeTable(DropAndMap(t).value);
  }

  /** A column the lines do not touch is only filled. */
  lemma UntouchedFilled(t: Table, c: Column)
    requires WellFormed(t) && Preprocessable(t)
    requires c in t.cols && Untouched(c.name)
    ensures FillColumn(c) in PreprocessSteps(t).value.cols
  {
    PreprocessIsFilledAgeTable(t);
    var mapped := DropAndMap(t).value;
    UniqueNameLookup(t, c);
    LookupAfterDropAndMap(t, c.name);
    AgeTableColumns(mapped);
    FilledColumns(AgeTable(mapped));
  }

  /** A quality column is mapped, then filled. */
  lemma QualityFilled(t: Table, q: string)
    requires WellFormed(t) && Preprocessable(t) && q in QualityColumns
    ensures FillColumn(MapColumn(Lookup(t, q))) in PreprocessSteps(t).value.cols
  {
    QualityNames();
    PreprocessIsFilledAgeTable(t);
    var mapped := DropAndMap(t).value;
    LookupAfterDropAndMap(t, q);
    var m := Lookup(mapped, q);
    assert m == MapColumn(Lookup(t, q)) && m in mapped.cols && m.name == q;
    QualityNameElsewhere(q);
    AgeTableColumns(mapped);
    assert m in AgeTable(mapped).cols;
    FilledColumns(AgeTable(mapped));
  }

  /** The Age column is the filled difference of the two years. */
  lemma AgeFilled(t: Table)
    requires WellFormed(t) && Preprocessable(t)
    ensures forall c :: c in PreprocessSteps(t).value.cols && c.name == "Age" ==>
      c == FillColumn(AgeColumn(Lookup(t, "YrSold"), Lookup(t, "YearBuilt")))
  {
    PreprocessIsFilledAgeTable(t);
    var mapped := DropAndMap(t).value;
    var aged := AgeTable(mapped);
    AgeTableAgeColumn(mapped);
    FilledColumns(aged);
    forall c | c in FillNa(aged).cols && c.name == "Age"
      ensures c == FillColumn(AgeColumn(Lookup(t, "YrSold"), Lookup(t, "YearBuilt")))
    {
      var d :| d in aged.cols && c == FillColumn(d);
      assert d.name == "Age";
    }
  }

  /** What lines 88-107 leave in each column: every untouched column filled,
      every quality column mapped and then filled, and Age the filled
      difference of the two years. */
  lemma PreprocessValues(t: Table)
    requires WellFormed(t) && Preprocessable(t)
    ensures var r := PreprocessSteps(t).value;
      && (forall c :: c in t.cols && Untouched(c.name) ==> FillColumn(c) in r.cols)
      && (forall q :: q in QualityColumns ==> FillColumn(MapColumn(Lookup(t, q))) in r.cols)
      && (forall c :: c in r.cols && c.name == "Age" ==>
            c == FillColumn(AgeColumn(Lookup(t, "YrSold"), Lookup(t, "YearBuilt"))))
  {
    forall c | c in t.cols && Untouched(c.name) ensures FillColumn(c) in PreprocessSteps(t).value.cols {
      UntouchedFilled(t, c);
    }
    forall q | q in QualityColumns ensures FillColumn(MapColumn(Lookup(t, q))) in PreprocessSteps(t).value.cols {
      QualityFilled(t, q);
    }
    AgeFilled(t);
  }

  /** Lines 88-96 keep a last column other than `Id` last. */
  lemma DropAndMapBeforeLast(t: Table)
    requires WellFormed(t) && HasColumn(t, "Id") && QualityPresent(t)
    requires |t.cols| > 0 && NotIdName(t.cols[|t.cols| - 1].name)
    ensures var mapped := DropAndMap(t).value;
      && |mapped.cols| > 0 && mapped.cols[|mapped.cols| - 1].name == t.cols[|t.cols| - 1].name
      && Names(mapped.cols)[..|mapped.cols| - 1] == Filter(Names(t.cols)[..|t.cols| - 1], NotIdName)
  {
    var cols := DropAndMap(t).value.cols;
    var names := Names(t.cols);
    var last := names[|names| - 1];
    assert last == t.cols[|t.cols| - 1].name;
    FilterLast(names, NotIdName);
    var kept := Filter(names[..|names| - 1], NotIdName);
    var mn := Names(cols);
    assert mn == kept + [last];
    assert mn[..|mn| - 1] == kept && mn[|mn| - 1] == last;
    assert |names| == |t.cols| && |mn| == |cols|;
    assert mn[|mn| - 1] == cols[|cols| - 1].name;
  }

  /** When the last column is neither `Id` nor a year, the result's columns
      are the surviving names but the last, in order, then Age, then the last. */
  lemma PreprocessOrder(t: Table)
    requires WellFormed(t) && Preprocessable(t)
    requires |t.cols| > 0 && Survives(t.cols[|t.cols| - 1].name)
    ensures Names(PreprocessSteps(t).value.cols)
            == Filter(Names(t.cols)[..|t.cols| - 1], Survives) + ["Age", t.cols[|t.cols| - 1].name]
  {
    PreprocessIsFilledAgeTable(t);
    DropAndMapBeforeLast(t);
    var mapped := DropAndMap(t).value;
    DeriveAgeIsAgeTable(mapped);
    AgeBeforeLastColumn(mapped);
    FilterTwice(Names(t.cols)[..|t.cols| - 1], NotIdName, NotAYear, Survives);
  }
}

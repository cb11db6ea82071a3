/**
 * `count_null_data`: a census of zeros and NaNs per column. The function
 * returns nothing; what it prints is its whole behaviour, so it is modelled
 * as the sequence of lines it emits.
 */
module NullCensus {
  import opened Frames

  /** One printed line. */
  datatype Line =
      /** "Column 'c': total zero or NaN values (0 values: zeros, NaN values: nans)" */
    | Tally(column: string, total: nat, zeros: nat, nans: nat)
      /** "Column 'c' is not numeric and was skipped." */
    | Skipped(column: string)
      /** "There are no zero or NaN values in any numeric columns!" */
    | NothingMissing

  predicate SortedByZeros(s: seq<Column>)
  {
    forall i, j :: 0 <= i < j < |s| ==> ZeroCount(s[i]) >= ZeroCount(s[j])
  }

  lemma SortedCons(x: Column, s: seq<Column>)
    requires SortedByZeros(s)
    requires forall y :: y in s ==> ZeroCount(y) <= ZeroCount(x)
    ensures SortedByZeros([x] + s)
  {
    forall i, j | 0 <= i < j < |[x] + s| ensures ZeroCount(([x] + s)[i]) >= ZeroCount(([x] + s)[j]) {
      assert ([x] + s)[j] == s[j - 1];
      if i > 0 {
        assert ([x] + s)[i] == s[i - 1];
      }
    }
  }

  /** Inserts `c` in front of every column with no more zeros than it has. */
  function Insert(c: Column, s: seq<Column>): (r: seq<Column>)
    requires SortedByZeros(s)
    ensures multiset(r) == multiset(s) + multiset{c}
    ensures forall x :: x in r <==> x == c || x in s
    ensures SortedByZeros(r)
  {
    if |s| == 0 then [c]
    else if ZeroCount(c) >= ZeroCount(s[0]) then
      SortedCons(c, s);
      [c] + s
    else
      assert s == [s[0]] + s[1..];
      SortedTail(s);
      var rest := Insert(c, s[1..]);
      SortedCons(s[0], rest);
      [s[0]] + rest
  }

  /** The head of a sorted sequence has the most zeros; the tail stays sorted. */
  lemma SortedTail(s: seq<Column>)
    requires SortedByZeros(s) && |s| > 0
    ensures SortedByZeros(s[1..])
    ensures forall y :: y in s[1..] ==> ZeroCount(y) <= ZeroCount(s[0])
  {
    forall y | y in s[1..] ensures ZeroCount(y) <= ZeroCount(s[0]) {
      var k :| 0 <= k < |s[1..]| && s[1..][k] == y;
      assert s[k + 1] == y;
    }
  }

  /** `sort_values(ascending=False)` on the zero counts. Ties keep their
      column order. */
  function SortByZeros(s: seq<Column>): (r: seq<Column>)
    ensures multiset(r) == multiset(s)
    ensures forall x :: x in r <==> x in s
    ensures SortedByZeros(r)
  {
    if |s| == 0 then []
    else
      assert s == [s[0]] + s[1..];
      Insert(s[0], SortByZeros(s[1..]))
  }

  /** A numeric column with at least one zero or NaN. */
  predicate HasMissing(c: Column)
  {
    IsNumeric(c.dtype) && MissingLikeCount(c) > 0
  }

  /** A column prints a line when it is skipped or has something missing. */
  predicate Printed(c: Column)
  {
    !IsNumeric(c.dtype) || MissingLikeCount(c) > 0
  }

  /** The line a printed column produces. */
  function LineFor(c: Column): Line
  {
    if !IsNumeric(c.dtype) then Skipped(c.name)
    else Tally(c.name, MissingLikeCount(c), ZeroCount(c), NaNCount(c))
  }

  /** The lines printed while visiting `s` in order. */
  function CensusLines(s: seq<Column>): (out: seq<Line>)
    ensures forall l :: l in out ==> exists c :: c in s && Printed(c) && l == LineFor(c)
    ensures forall c :: c in s && Printed(c) ==> LineFor(c) in out
    // one line per printed column, no more
    ensures |out| == CountIf(s, Printed)
  {
    if |s| == 0 then []
    else
      assert s == [s[0]] + s[1..];
      (if Printed(s[0]) then [LineFor(s[0])] else []) + CensusLines(s[1..])
  }

  /** Some numeric column of `s` has a zero or a NaN. */
  predicate AnyMissing(s: seq<Column>)
  {
    exists c :: c in s && HasMissing(c)
  }

  /** Appending a line not yet printed makes it the last line, printed once. */
  lemma AppendedLast(lines: seq<Line>, l: Line)
    requires l !in lines
    ensures (lines + [l])[|lines|] == l && l !in (lines + [l])[..|lines|]
  {
    assert (lines + [l])[..|lines|] == lines;
  }

  /** What the visit over the sorted columns prints, stated over the table's columns. */
  lemma VisitFacts(t: Table)
    ensures AnyMissing(SortByZeros(t.cols)) <==> AnyMissing(t.cols)
    ensures var lines := CensusLines(SortByZeros(t.cols));
      && NothingMissing !in lines
      && (forall l :: l in lines && l.Tally? ==>
            exists c :: c in t.cols && HasMissing(c) && l == Tally(c.name, ZeroCount(c) + NaNCount(c), ZeroCount(c), NaNCount(c)))
  {
    var visited := SortByZeros(t.cols);
    var lines := CensusLines(visited);
    forall l | l in lines && l.Tally?
      ensures exists c :: c in t.cols && HasMissing(c) && l == Tally(c.name, ZeroCount(c) + NaNCount(c), ZeroCount(c), NaNCount(c))
    {
      var c :| c in visited && Printed(c) && l == LineFor(c);
      assert c in t.cols && HasMissing(c);
    }
  }

  function CountNullData(t: Table): (out: seq<Line>)
    requires NoDups(Names(t.cols))
    // a tally is printed only for a numeric column, with total = zeros + NaNs > 0
    ensures forall l :: l in out && l.Tally? ==>
      exists c :: c in t.cols && HasMissing(c) && l == Tally(c.name, ZeroCount(c) + NaNCount(c), ZeroCount(c), NaNCount(c))
    // the summary appears exactly when no numeric column has a zero or NaN, and last
    ensures NothingMissing in out <==> forall c :: c in t.cols ==> !HasMissing(c)
    ensures NothingMissing in out ==> out[|out| - 1] == NothingMissing && NothingMissing !in out[..|out| - 1]
  {
    var visited := SortByZeros(t.cols);
    var lines := CensusLines(visited);
    VisitFacts(t);
    if AnyMissing(visited) then lines
    else
      AppendedLast(lines, NothingMissing);
      lines + [NothingMissing]
  }

  /** Every numeric column with a zero or a NaN is tallied. */
  lemma EveryMissingColumnTallied(t: Table)
    requires NoDups(Names(t.cols))
    ensures forall c :: c in t.cols && HasMissing(c) ==>
      Tally(c.name, MissingLikeCount(c), ZeroCount(c), NaNCount(c)) in CountNullData(t)
  {
    var lines := CensusLines(SortByZeros(t.cols));
    PrintedLines(t);
    forall c | c in t.cols && HasMissing(c)
      ensures Tally(c.name, MissingLikeCount(c), ZeroCount(c), NaNCount(c)) in CountNullData(t)
    {
      assert LineFor(c) in lines;
    }
  }

  /** The census prints the visit's lines, then possibly the summary. */
  lemma PrintedLines(t: Table)
    requires NoDups(Names(t.cols))
    ensures var lines := CensusLines(SortByZeros(t.cols));
      && (forall l :: l in lines ==> l in CountNullData(t))
      && (forall l :: l in CountNullData(t) && l != NothingMissing ==> l in lines)
  {
  }

  /** Non-numeric columns are reported as skipped, and only they are. */
  lemma SkippedExactlyNonNumeric(t: Table)
    requires NoDups(Names(t.cols))
    ensures forall c :: c in t.cols && !IsNumeric(c.dtype) ==> Skipped(c.name) in CountNullData(t)
    ensures forall l :: l in CountNullData(t) && l.Skipped? ==>
      exists c :: c in t.cols && !IsNumeric(c.dtype) && c.name == l.column
  {
    var visited := SortByZeros(t.cols);
    var lines := CensusLines(visited);
    PrintedLines(t);
    forall c | c in t.cols && !IsNumeric(c.dtype) ensures Skipped(c.name) in CountNullData(t) {
      assert LineFor(c) in lines;
    }
    forall l | l in CountNullData(t) && l.Skipped?
      ensures exists c :: c in t.cols && !IsNumeric(c.dtype) && c.name == l.column
    {
      var c :| c in visited && Printed(c) && l == LineFor(c);
      assert c in t.cols;
    }
  }

  // Named so that every count below uses the same predicate value; two
  // copies of one lambda are not known to be equal.

  predicate IsSkippedLine(l: Line)
  {
    l.Skipped?
  }

  predicate IsTallyLine(l: Line)
  {
    l.Tally?
  }

  predicate NotNumeric(c: Column)
  {
    !IsNumeric(c.dtype)
  }

  lemma {:induction false} SkippedLinesCount(s: seq<Column>)
    ensures CountIf(CensusLines(s), IsSkippedLine) == CountIf(s, NotNumeric)
  {
    if |s| > 0 {
      SkippedLinesCount(s[1..]);
      CountIfAppend(if Printed(s[0]) then [LineFor(s[0])] else [], CensusLines(s[1..]), IsSkippedLine);
    }
  }

  /** Exactly one "skipped" line per non-numeric column. */
  lemma SkippedOncePerColumn(t: Table)
    requires NoDups(Names(t.cols))
    ensures CountIf(CountNullData(t), IsSkippedLine) == CountIf(t.cols, NotNumeric)
  {
    var visited := SortByZeros(t.cols);
    var lines := CensusLines(visited);
    SkippedLinesCount(visited);
    CountIfPermutation(visited, t.cols, NotNumeric);
    CountIfAppend(lines, [NothingMissing], IsSkippedLine);
  }

  lemma {:induction false} TallyLinesCount(s: seq<Column>)
    ensures CountIf(CensusLines(s), IsTallyLine) == CountIf(s, HasMissing)
  {
    if |s| > 0 {
      TallyLinesCount(s[1..]);
      CountIfAppend(if Printed(s[0]) then [LineFor(s[0])] else [], CensusLines(s[1..]), IsTallyLine);
    }
  }

  /** Exactly one tally per numeric column with a zero or a NaN. */
  lemma TalliedOncePerColumn(t: Table)
    requires NoDups(Names(t.cols))
    ensures CountIf(CountNullData(t), IsTallyLine) == CountIf(t.cols, HasMissing)
  {
    var visited := SortByZeros(t.cols);
    var lines := CensusLines(visited);
    TallyLinesCount(visited);
    CountIfPermutation(visited, t.cols, HasMissing);
    CountIfAppend(lines, [NothingMissing], IsTallyLine);
  }

  predicate TalliesOrdered(out: seq<Line>)
  {
    forall i, j :: 0 <= i < j < |out| && out[i].Tally? && out[j].Tally? ==> out[i].zeros >= out[j].zeros
  }

  /** Every tally in `out` has at most `z` zeros. */
  predicate TalliesAtMost(out: seq<Line>, z: nat)
  {
    forall l :: l in out && l.Tally? ==> l.zeros <= z
  }

  /** A tally with at least as many zeros as every later tally keeps the order. */
  lemma TalliesOrderedCons(l: Line, out: seq<Line>)
    requires TalliesOrdered(out)
    requires l.Tally? ==> TalliesAtMost(out, l.zeros)
    ensures TalliesOrdered([l] + out)
  {
    var r := [l] + out;
    forall i, j | 0 <= i < j < |r| && r[i].Tally? && r[j].Tally? ensures r[i].zeros >= r[j].zeros {
      assert r[j] == out[j - 1];
      if i > 0 {
        assert r[i] == out[i - 1];
      } else {
        assert r[j] in out;
      }
    }
  }

  /** Columns with at most `z` zeros print tallies with at most `z` zeros. */
  lemma CensusLinesAtMost(s: seq<Column>, z: nat)
    requires forall c :: c in s ==> ZeroCount(c) <= z
    ensures TalliesAtMost(CensusLines(s), z)
  {
  }

  lemma {:induction false} CensusLinesOrdered(s: seq<Column>)
    requires SortedByZeros(s)
    ensures TalliesOrdered(CensusLines(s))
  {
    if |s| > 0 {
      var rest := s[1..];
      assert SortedByZeros(rest);
      CensusLinesOrdered(rest);
      if Printed(s[0]) {
        assert forall c :: c in rest ==> ZeroCount(c) <= ZeroCount(s[0]) by {
          forall c | c in rest ensures ZeroCount(c) <= ZeroCount(s[0]) {
            var k :| 0 <= k < |rest| && rest[k] == c;
            assert s[k + 1] == c;
          }
        }
        CensusLinesAtMost(rest, ZeroCount(s[0]));
        TalliesOrderedCons(LineFor(s[0]), CensusLines(rest));
      }
    }
  }

  /** The tallies come out in non-increasing order of their zero counts alone (NaNs excluded). */
  lemma TalliesInZeroOrder(t: Table)
    requires NoDups(Names(t.cols))
    ensures TalliesOrdered(CountNullData(t))
  {
    var lines := CensusLines(SortByZeros(t.cols));
    CensusLinesOrdered(SortByZeros(t.cols));
    var out := CountNullData(t);
    forall i, j | 0 <= i < j < |out| && out[i].Tally? && out[j].Tally?
      ensures out[i].zeros >= out[j].zeros
    {
      assert j < |lines|;
      assert out[i] == lines[i] && out[j] == lines[j];
    }
  }

  /** Every line, skipped or tallied, is printed at its column's place in a
      visit of all the columns in non-increasing order of zero count; only the
      summary line may follow. */
  lemma VisitsInZeroOrder(t: Table)
    requires NoDups(Names(t.cols))
    ensures exists s :: && multiset(s) == multiset(t.cols) && SortedByZeros(s)
                        && |CensusLines(s)| <= |CountNullData(t)|
                        && CountNullData(t)[..|CensusLines(s)|] == CensusLines(s)
  {
    var s := SortByZeros(t.cols);
    var lines := CensusLines(s);
    assert CountNullData(t)[..|lines|] == lines;
  }

  /** A table without rows has nothing missing, so the summary line is printed. */
  lemma NoRowsPrintsSummary(t: Table)
    requires WellFormed(t) && t.rows == 0
    ensures |CountNullData(t)| > 0 && CountNullData(t)[|CountNullData(t)| - 1] == NothingMissing
  {
    forall c | c in t.cols ensures !HasMissing(c) {
      assert |c.cells| == 0;
    }
  }

  /** A bool column is numeric here: it is tallied when it holds a False, and never skipped. */
  lemma BoolColumnCounted(t: Table, c: Column)
    requires NoDups(Names(t.cols)) && c in t.cols && c.dtype == Bool
    requires Num(0.0) in c.cells
    ensures Tally(c.name, MissingLikeCount(c), ZeroCount(c), NaNCount(c)) in CountNullData(t)
    ensures Skipped(c.name) !in CountNullData(t)
  {
    CountIfNone(c.cells, IsZero);
    EveryMissingColumnTallied(t);
    SkippedExactlyNonNumeric(t);
    if Skipped(c.name) in CountNullData(t) {
      var d :| d in t.cols && !IsNumeric(d.dtype) && d.name == c.name;
      UniqueNameLookup(t, c);
      UniqueNameLookup(t, d);
      assert false;
    }
  }
}

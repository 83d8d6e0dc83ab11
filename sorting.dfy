/**
 * Sorting result rows by one numeric column, as array_multisort() does when it is
 * given the column (array_column()) and a direction, SORT_DESC or SORT_ASC.
 */
module Sorting {
  import opened Wrappers
  import opened Rows

  const SortDesc: int := 3
  const SortAsc: int := 4

  /** An unknown direction falls back to the first allowed one, SORT_DESC. */
  function EffectiveDirection(direction: int): (d: int)
    ensures d == SortDesc || d == SortAsc
    ensures direction == SortAsc <==> d == SortAsc
  {
    if direction == SortDesc || direction == SortAsc then direction else SortDesc
  }

  /** The value a row is sorted on. */
  function SortKey(row: Row, column: string): int {
    match Get(row, column)
    case Some(c) => CellNumber(c)
    case None => 0
  }

  /** May a row with key `a` come before one with key `b`? */
  predicate InOrder(a: int, b: int, direction: int) {
    if direction == SortAsc then a <= b else a >= b
  }

  /** Every row comes no later than the rows after it, in the given direction. */
  predicate Ordered(rows: seq<Row>, column: string, direction: int) {
    forall i, j :: 0 <= i < j < |rows| ==> InOrder(SortKey(rows[i], column), SortKey(rows[j], column), direction)
  }

  /** Does every row have the column? array_column() leaves out the rows that do not. */
  predicate HasColumn(rows: seq<Row>, column: string) {
    forall i :: 0 <= i < |rows| ==> column in Keys(rows[i])
  }

  /** Places a row into rows already in order: before the first row it may come before. */
  function Insert(row: Row, sorted: seq<Row>, column: string, direction: int): seq<Row>
  {
    if sorted == [] then [row]
    else if InOrder(SortKey(row, column), SortKey(sorted[0], column), direction)
      && SortKey(row, column) != SortKey(sorted[0], column) then [row] + sorted
    else [sorted[0]] + Insert(row, sorted[1..], column, direction)
  }

  function InsertionSort(rows: seq<Row>, column: string, direction: int): seq<Row>
  {
    if rows == [] then [] else Insert(rows[|rows| - 1], InsertionSort(rows[..|rows| - 1], column, direction), column, direction)
  }

  lemma {:induction false} InsertPermutes(row: Row, sorted: seq<Row>, column: string, direction: int)
    ensures multiset(Insert(row, sorted, column, direction)) == multiset(sorted) + multiset{row}
  {
    if sorted != [] && !(InOrder(SortKey(row, column), SortKey(sorted[0], column), direction)
      && SortKey(row, column) != SortKey(sorted[0], column)) {
      InsertPermutes(row, sorted[1..], column, direction);
      assert sorted == [sorted[0]] + sorted[1..];
    }
  }

  lemma {:induction false} InsertElements(row: Row, sorted: seq<Row>, column: string, direction: int)
    ensures forall x :: x in Insert(row, sorted, column, direction) ==> x == row || x in sorted
  {
    if sorted != [] && !(InOrder(SortKey(row, column), SortKey(sorted[0], column), direction)
      && SortKey(row, column) != SortKey(sorted[0], column)) {
      InsertElements(row, sorted[1..], column, direction);
    }
  }

  lemma {:induction false} InsertOrdered(row: Row, sorted: seq<Row>, column: string, direction: int)
    requires direction == SortDesc || direction == SortAsc
    requires Ordered(sorted, column, direction)
    ensures Ordered(Insert(row, sorted, column, direction), column, direction)
  {
    if sorted != [] {
      var k := SortKey(row, column);
      var k0 := SortKey(sorted[0], column);
      if InOrder(k, k0, direction) && k != k0 {
        var r := [row] + sorted;
        assert Insert(row, sorted, column, direction) == r;
        forall i, j | 0 <= i < j < |r|
          ensures InOrder(SortKey(r[i], column), SortKey(r[j], column), direction)
        {
          if i == 0 && j > 1 {
            assert InOrder(k0, SortKey(sorted[j - 1], column), direction);
          }
        }
      } else {
        var tail := sorted[1..];
        var inserted := Insert(row, tail, column, direction);
        InsertOrdered(row, tail, column, direction);
        InsertElements(row, tail, column, direction);
        var r := [sorted[0]] + inserted;
        assert Insert(row, sorted, column, direction) == r;
        forall j | 0 < j < |r|
          ensures InOrder(k0, SortKey(r[j], column), direction)
        {
          var x := r[j];
          assert x == inserted[j - 1];
          assert x in inserted;
          if x != row {
            var m :| 0 <= m < |tail| && tail[m] == x;
            assert sorted[m + 1] == x;
          }
        }
        assert Ordered(r, column, direction);
      }
    }
  }

  lemma {:induction false} InsertionSortCorrect(rows: seq<Row>, column: string, direction: int)
    requires direction == SortDesc || direction == SortAsc
    ensures Ordered(InsertionSort(rows, column, direction), column, direction)
    ensures multiset(InsertionSort(rows, column, direction)) == multiset(rows)
  {
    if rows != [] {
      var init := rows[..|rows| - 1];
      InsertionSortCorrect(init, column, direction);
      InsertOrdered(rows[|rows| - 1], InsertionSort(init, column, direction), column, direction);
      InsertPermutes(rows[|rows| - 1], InsertionSort(init, column, direction), column, direction);
      assert rows == init + [rows[|rows| - 1]];
    }
  }

  /**
   * sortMultidimensionalArrayByColumn: when every row has the column, the rows come back
   * rearranged and in order of that column in the effective direction; when some row
   * lacks it, the column array is shorter than the rows and nothing is rearranged.
   */
  function SortByColumn(rows: seq<Row>, column: string, direction: int): (r: seq<Row>)
    ensures HasColumn(rows, column) ==>
      multiset(r) == multiset(rows) && Ordered(r, column, EffectiveDirection(direction))
    ensures !HasColumn(rows, column) ==> r == rows
  {
    if HasColumn(rows, column) then
      InsertionSortCorrect(rows, column, EffectiveDirection(direction));
      InsertionSort(rows, column, EffectiveDirection(direction))
    else rows
  }

  /** Rearranging rows keeps the set of rows; in particular it keeps their number. */
  lemma SortKeepsLength(rows: seq<Row>, column: string, direction: int)
    ensures |SortByColumn(rows, column, direction)| == |rows|
  {
    if HasColumn(rows, column) {
      assert |multiset(SortByColumn(rows, column, direction))| == |multiset(rows)|;
    }
  }

  /** In SORT_DESC order the first row carries the largest key. */
  lemma {:induction false} FirstIsLargest(rows: seq<Row>, column: string)
    requires HasColumn(rows, column) && rows != []
    ensures var r := SortByColumn(rows, column, SortDesc);
      |r| > 0 && forall i :: 0 <= i < |rows| ==> SortKey(r[0], column) >= SortKey(rows[i], column)
  {
    var r := SortByColumn(rows, column, SortDesc);
    SortKeepsLength(rows, column, SortDesc);
    forall i | 0 <= i < |rows|
      ensures SortKey(r[0], column) >= SortKey(rows[i], column)
    {
      assert rows[i] in multiset(r);
      var m :| 0 <= m < |r| && r[m] == rows[i];
      if m > 0 {
        assert InOrder(SortKey(r[0], column), SortKey(r[m], column), SortDesc);
      }
    }
  }
}

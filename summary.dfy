/**
 * Summarisation of the saved trace: one row per function label, in order of first
 * appearance, holding the summed functionCount and timeUsage of every row with that
 * label and the distinct locations it was called from.
 */
module Summary {
  import opened Wrappers
  import opened Strings
  import opened Numbers
  import opened Rows
  import opened Sorting
  import opened Seqs

  /** $row['function'], None when the row has no such key. */
  function Term(row: Row): Option<Cell> {
    Get(row, "function")
  }

  /** array_filter() keeping the rows whose function is set and equals the term. */
  function Group(rows: seq<Row>, term: Option<Cell>): (g: seq<Row>)
    ensures forall r :: r in g <==> r in rows && term.Some? && Term(r) == term
  {
    if rows == [] then []
    else (if term.Some? && Term(rows[0]) == term then [rows[0]] else []) + Group(rows[1..], term)
  }

  /** The filter keeps the order and the repeats of the rows it keeps: it works piece by piece. */
  lemma {:induction false} GroupAppend(a: seq<Row>, b: seq<Row>, term: Option<Cell>)
    ensures Group(a + b, term) == Group(a, term) + Group(b, term)
  {
    if a == [] {
      assert a + b == b;
    } else {
      var head := if term.Some? && Term(a[0]) == term then [a[0]] else [];
      AppendDropFirst(a, b);
      GroupAppend(a[1..], b, term);
      Assoc(head, Group(a[1..], term), Group(b, term));
    }
  }

  /** A single row is kept exactly when its function is set and equals the term. */
  lemma GroupOne(row: Row, term: Option<Cell>)
    ensures Group([row], term) == if term.Some? && Term(row) == term then [row] else []
  {
    assert [row][1..] == [];
  }

  /** How a value is added up: as an integer count, or as a time in micro-units. */
  function CellValue(c: Cell, time: bool): int {
    if time then ParseMicros(CellText(c)) else CellNumber(c)
  }

  /** array_sum(array_column($rows, $column)): rows without the column add nothing. */
  function ColumnSum(rows: seq<Row>, column: string, time: bool): int
  {
    if rows == [] then 0
    else
      (match Get(rows[0], column) case Some(c) => CellValue(c, time) case None => 0)
        + ColumnSum(rows[1..], column, time)
  }

  /** array_column($rows, 'location') as strings. */
  function Locations(rows: seq<Row>): seq<string>
  {
    if rows == [] then []
    else
      match Get(rows[0], "location")
      case Some(c) => [CellText(c)] + Locations(rows[1..])
      case None => Locations(rows[1..])
  }

  /** Does the row have a location whose text is `t`? */
  predicate HasLocation(row: Row, t: string) {
    Get(row, "location").Some? && CellText(Get(row, "location").value) == t
  }

  /** The location column holds exactly the locations of the rows that have one. */
  lemma {:induction false} LocationsMembership(rows: seq<Row>, t: string)
    ensures t in Locations(rows) <==> exists r :: r in rows && HasLocation(r, t)
  {
    if rows != [] {
      LocationsMembership(rows[1..], t);
      assert forall r :: r in rows <==> r == rows[0] || r in rows[1..];
      var here := Get(rows[0], "location");
      if here.Some? {
        assert Locations(rows) == [CellText(here.value)] + Locations(rows[1..]);
        assert HasLocation(rows[0], t) <==> t == CellText(here.value);
      } else {
        assert Locations(rows) == Locations(rows[1..]);
        assert !HasLocation(rows[0], t);
      }
    }
  }

  /** array_unique(): the first occurrence of every string not seen before. */
  function Distinct(xs: seq<string>, seen: seq<string>): (r: seq<string>)
    ensures forall x :: x in r <==> x in xs && x !in seen
  {
    if xs == [] then []
    else if xs[0] in seen then Distinct(xs[1..], seen)
    else [xs[0]] + Distinct(xs[1..], seen + [xs[0]])
  }

  lemma {:induction false} DistinctHasNoRepeats(xs: seq<string>, seen: seq<string>)
    ensures forall i, j :: 0 <= i < j < |Distinct(xs, seen)| ==> Distinct(xs, seen)[i] != Distinct(xs, seen)[j]
  {
    if xs != [] {
      if xs[0] in seen {
        assert Distinct(xs, seen) == Distinct(xs[1..], seen);
        DistinctHasNoRepeats(xs[1..], seen);
      } else {
        var tail := Distinct(xs[1..], seen + [xs[0]]);
        DistinctHasNoRepeats(xs[1..], seen + [xs[0]]);
        var r := [xs[0]] + tail;
        assert forall i :: 0 < i < |r| ==> r[i] == tail[i - 1];
        assert xs[0] !in tail;
      }
    }
  }

  /** The rows of one term, the one with the highest functionCount first. */
  function SortedGroup(rows: seq<Row>, term: Option<Cell>): seq<Row> {
    SortByColumn(Group(rows, term), "functionCount", SortDesc)
  }

  /** array_values($filteredArray)[0]; for an empty group PHP starts from null, that is from an empty row. */
  function Base(sorted: seq<Row>): Row {
    if sorted == [] then [] else sorted[0]
  }

  /**
   * The base row with location set to the distinct locations joined by commas, functionCount
   * to the total count and, when the row has a timeUsage, timeUsage to the total time.
   */
  function Merged(base: Row, sorted: seq<Row>): Row
  {
    var located := Put(base, "location", Text(Join(Distinct(Locations(sorted), []), ",")));
    var counted := Put(located, "functionCount", Num(ColumnSum(sorted, "functionCount", false)));
    if Get(counted, "timeUsage").Some? then Put(counted, "timeUsage", Text(FormatMicros(ColumnSum(sorted, "timeUsage", true))))
    else counted
  }

  /** The summary row of one term: the merged base row without currentRoute. */
  function SummaryRow(rows: seq<Row>, term: Option<Cell>): Row
  {
    var sorted := SortedGroup(rows, term);
    Unset(Merged(Base(sorted), sorted), "currentRoute")
  }

  /** The summary rows for the rows from `rest` on, given the terms `added` already summarised. */
  function Summarized(rest: seq<Row>, all: seq<Row>, added: seq<Option<Cell>>): seq<Row>
  {
    if rest == [] then []
    else if Term(rest[0]) in added then Summarized(rest[1..], all, added)
    else [SummaryRow(all, Term(rest[0]))] + Summarized(rest[1..], all, added + [Term(rest[0])])
  }

  /** One iteration of the foreach for a term not summarised yet: filter, sort, merge, drop currentRoute. */
  method SummarizeTerm(rows: seq<Row>, term: Option<Cell>) returns (storeMe: Row)
    ensures storeMe == SummaryRow(rows, term)
  {
    var filtered := SortByColumn(Group(rows, term), "functionCount", SortDesc);
    storeMe := if filtered == [] then [] else filtered[0];
    storeMe := Put(storeMe, "location", Text(Join(Distinct(Locations(filtered), []), ",")));
    storeMe := Put(storeMe, "functionCount", Num(ColumnSum(filtered, "functionCount", false)));
    if Get(storeMe, "timeUsage").Some? {
      storeMe := Put(storeMe, "timeUsage", Text(FormatMicros(ColumnSum(filtered, "timeUsage", true))));
    }
    storeMe := Unset(storeMe, "currentRoute");
  }

  /** The foreach of summarizeFilteredXDebugFunctionTrace: one summary row per term not seen before. */
  method SummarizeRows(rows: seq<Row>) returns (summary: seq<Row>)
    ensures summary == Summarized(rows, rows, [])
  {
    summary := [];
    var added: seq<Option<Cell>> := [];
    for i := 0 to |rows|
      invariant summary + Summarized(rows[i..], rows, added) == Summarized(rows, rows, [])
    {
      var term := Get(rows[i], "function");
      SummarizedStep(rows[i..], rows, added);
      assert rows[i..][0] == rows[i] && rows[i..][1..] == rows[i + 1..];
      if term in added {
        continue;
      }
      var storeMe := SummarizeTerm(rows, term);
      Assoc(summary, [storeMe], Summarized(rows[i + 1..], rows, added + [term]));
      added := added + [term];
      summary := summary + [storeMe];
    }
    assert rows[|rows|..] == [];
  }

  lemma SummarizedStep(rest: seq<Row>, all: seq<Row>, added: seq<Option<Cell>>)
    requires rest != []
    ensures Summarized(rest, all, added) ==
      if Term(rest[0]) in added then Summarized(rest[1..], all, added)
      else [SummaryRow(all, Term(rest[0]))] + Summarized(rest[1..], all, added + [Term(rest[0])])
  {
  }

  /** The distinct terms of the rows from `rest` on, in order of first appearance, leaving out `seen`. */
  function DistinctTerms(rest: seq<Row>, seen: seq<Option<Cell>>): seq<Option<Cell>>
  {
    if rest == [] then []
    else if Term(rest[0]) in seen then DistinctTerms(rest[1..], seen)
    else [Term(rest[0])] + DistinctTerms(rest[1..], seen + [Term(rest[0])])
  }

  /** The summary holds exactly one row per distinct term, in order of first appearance. */
  lemma {:induction false} OneRowPerTerm(rest: seq<Row>, all: seq<Row>, added: seq<Option<Cell>>)
    ensures |Summarized(rest, all, added)| == |DistinctTerms(rest, added)|
    ensures forall i :: 0 <= i < |DistinctTerms(rest, added)| ==>
      Summarized(rest, all, added)[i] == SummaryRow(all, DistinctTerms(rest, added)[i])
  {
    if rest != [] {
      var t := Term(rest[0]);
      SummarizedStep(rest, all, added);
      if t in added {
        assert DistinctTerms(rest, added) == DistinctTerms(rest[1..], added);
        OneRowPerTerm(rest[1..], all, added);
      } else {
        var terms := DistinctTerms(rest[1..], added + [t]);
        var summary := Summarized(rest[1..], all, added + [t]);
        assert DistinctTerms(rest, added) == [t] + terms;
        OneRowPerTerm(rest[1..], all, added + [t]);
        forall i | 0 < i < |terms| + 1
          ensures ([SummaryRow(all, t)] + summary)[i] == SummaryRow(all, ([t] + terms)[i])
        {
          assert ([SummaryRow(all, t)] + summary)[i] == summary[i - 1];
          assert ([t] + terms)[i] == terms[i - 1];
        }
      }
    }
  }

  /** The distinct terms are the terms of the rows not seen before, each listed once. */
  lemma {:induction false} DistinctTermsAreDistinct(rest: seq<Row>, seen: seq<Option<Cell>>)
    ensures var terms := DistinctTerms(rest, seen);
      && (forall t :: t in terms <==> (exists r :: r in rest && Term(r) == t) && t !in seen)
      && (forall i, j :: 0 <= i < j < |terms| ==> terms[i] != terms[j])
  {
    if rest != [] {
      var t := Term(rest[0]);
      assert forall r :: r in rest <==> r == rest[0] || r in rest[1..];
      if t in seen {
        DistinctTermsAreDistinct(rest[1..], seen);
      } else {
        var tail := DistinctTerms(rest[1..], seen + [t]);
        DistinctTermsAreDistinct(rest[1..], seen + [t]);
        var terms := [t] + tail;
        assert forall i :: 0 < i < |terms| ==> terms[i] == tail[i - 1];
        assert t !in tail;
      }
    }
  }

  lemma {:induction false} ColumnSumAppend(a: seq<Row>, b: seq<Row>, column: string, time: bool)
    ensures ColumnSum(a + b, column, time) == ColumnSum(a, column, time) + ColumnSum(b, column, time)
  {
    if a == [] {
      assert a + b == b;
    } else {
      assert (a + b)[0] == a[0] && (a + b)[1..] == a[1..] + b;
      ColumnSumAppend(a[1..], b, column, time);
    }
  }

  /** array_sum() of a column does not depend on the order of the rows. */
  lemma {:induction false} ColumnSumPermutation(a: seq<Row>, b: seq<Row>, column: string, time: bool)
    requires multiset(a) == multiset(b)
    ensures ColumnSum(a, column, time) == ColumnSum(b, column, time)
  {
    if a != [] {
      assert a[0] in multiset(b);
      var j :| 0 <= j < |b| && b[j] == a[0];
      var rest := b[..j] + b[j + 1..];
      RemoveOne(a, b, j);
      ColumnSumPermutation(a[1..], rest, column, time);
      SumWithout(b, j, column, time);
    }
  }

  /** Taking the first row off one side and a row equal to it off the other keeps the multisets equal. */
  lemma RemoveOne(a: seq<Row>, b: seq<Row>, j: nat)
    requires multiset(a) == multiset(b) && a != [] && j < |b| && b[j] == a[0]
    ensures multiset(a[1..]) == multiset(b[..j] + b[j + 1..])
  {
    var x := a[0];
    assert b == b[..j] + [x] + b[j + 1..];
    assert a == [x] + a[1..];
    assert multiset(a) == multiset{x} + multiset(a[1..]);
    assert multiset(b) == multiset(b[..j]) + multiset{x} + multiset(b[j + 1..]);
    var rest := b[..j] + b[j + 1..];
    assert multiset(rest) == multiset(b[..j]) + multiset(b[j + 1..]);
    forall y ensures multiset(a[1..])[y] == multiset(rest)[y] {
      assert multiset(a)[y] == multiset{x}[y] + multiset(a[1..])[y];
      assert multiset(b)[y] == multiset(b[..j])[y] + multiset{x}[y] + multiset(b[j + 1..])[y];
    }
  }

  /** The sum over the rows is the j-th row's share plus the sum over the others. */
  lemma SumWithout(b: seq<Row>, j: nat, column: string, time: bool)
    requires j < |b|
    ensures ColumnSum(b, column, time) == ColumnSum([b[j]], column, time) + ColumnSum(b[..j] + b[j + 1..], column, time)
  {
    assert b == b[..j] + [b[j]] + b[j + 1..];
    ColumnSumAppend(b[..j] + [b[j]], b[j + 1..], column, time);
    ColumnSumAppend(b[..j], [b[j]], column, time);
    ColumnSumAppend(b[..j], b[j + 1..], column, time);
  }

  /** What merging sets: location, functionCount and (when present) timeUsage; every other key keeps its value. */
  lemma MergedFields(base: Row, sorted: seq<Row>, k: string)
    ensures Get(Merged(base, sorted), "location") == Some(Text(Join(Distinct(Locations(sorted), []), ",")))
    ensures Get(Merged(base, sorted), "functionCount") == Some(Num(ColumnSum(sorted, "functionCount", false)))
    ensures Get(base, "timeUsage").Some? ==>
      Get(Merged(base, sorted), "timeUsage") == Some(Text(FormatMicros(ColumnSum(sorted, "timeUsage", true))))
    ensures k != "location" && k != "functionCount" && k != "timeUsage" ==> Get(Merged(base, sorted), k) == Get(base, k)
  {
    var loc := Text(Join(Distinct(Locations(sorted), []), ","));
    var count := Num(ColumnSum(sorted, "functionCount", false));
    var time := Text(FormatMicros(ColumnSum(sorted, "timeUsage", true)));
    var located := Put(base, "location", loc);
    var counted := Put(located, "functionCount", count);
    GetPut(base, "location", loc, "location");
    GetPut(base, "location", loc, "timeUsage");
    GetPut(base, "location", loc, k);
    GetPut(located, "functionCount", count, "location");
    GetPut(located, "functionCount", count, "functionCount");
    GetPut(located, "functionCount", count, "timeUsage");
    GetPut(located, "functionCount", count, k);
    GetPut(counted, "timeUsage", time, "location");
    GetPut(counted, "timeUsage", time, "functionCount");
    GetPut(counted, "timeUsage", time, "timeUsage");
    GetPut(counted, "timeUsage", time, k);
  }

  /** The summed functionCount is the total over every row of the group, whatever order the sort chose. */
  lemma SummaryCount(rows: seq<Row>, term: Option<Cell>)
    ensures Get(SummaryRow(rows, term), "functionCount") == Some(Num(ColumnSum(Group(rows, term), "functionCount", false)))
  {
    var sorted := SortedGroup(rows, term);
    ColumnSumPermutation(sorted, Group(rows, term), "functionCount", false);
    MergedFields(Base(sorted), sorted, "functionCount");
  }

  /** When the base row has a timeUsage, the summary's is the group's total time formatted by %f. */
  lemma SummaryTime(rows: seq<Row>, term: Option<Cell>)
    requires Get(Base(SortedGroup(rows, term)), "timeUsage").Some?
    ensures Get(SummaryRow(rows, term), "timeUsage") == Some(Text(FormatMicros(ColumnSum(Group(rows, term), "timeUsage", true))))
  {
    var sorted := SortedGroup(rows, term);
    ColumnSumPermutation(sorted, Group(rows, term), "timeUsage", true);
    MergedFields(Base(sorted), sorted, "timeUsage");
  }

  /** Rearranging rows keeps the set of their locations. */
  lemma LocationsPermutation(a: seq<Row>, b: seq<Row>, t: string)
    requires multiset(a) == multiset(b)
    ensures t in Locations(a) <==> t in Locations(b)
  {
    LocationsMembership(a, t);
    LocationsMembership(b, t);
    forall r ensures r in a <==> r in b {
      assert r in a <==> r in multiset(a);
      assert r in b <==> r in multiset(b);
    }
  }

  /** The summary's location lists every location of the group exactly once, joined by commas. */
  lemma SummaryLocation(rows: seq<Row>, term: Option<Cell>)
    ensures var ls := Distinct(Locations(SortedGroup(rows, term)), []);
      && Get(SummaryRow(rows, term), "location") == Some(Text(Join(ls, ",")))
      && (forall t :: t in ls <==> t in Locations(Group(rows, term)))
      && (forall i, j :: 0 <= i < j < |ls| ==> ls[i] != ls[j])
  {
    var group := Group(rows, term);
    var sorted := SortedGroup(rows, term);
    SortKeepsLength(group, "functionCount", SortDesc);
    assert multiset(sorted) == multiset(group);
    forall t ensures t in Locations(sorted) <==> t in Locations(group) {
      LocationsPermutation(sorted, group, t);
    }
    DistinctHasNoRepeats(Locations(sorted), []);
    MergedFields(Base(sorted), sorted, "location");
  }

  /** A non-empty group's summary carries the term as its function and no currentRoute. */
  lemma SummaryLabel(rows: seq<Row>, term: Option<Cell>)
    requires Group(rows, term) != []
    ensures Get(SummaryRow(rows, term), "function") == term
    ensures Get(SummaryRow(rows, term), "currentRoute") == None
  {
    var group := Group(rows, term);
    var sorted := SortedGroup(rows, term);
    SortKeepsLength(group, "functionCount", SortDesc);
    assert multiset(sorted) == multiset(group);
    assert sorted[0] in multiset(group);
    assert sorted[0] in group;
    assert Base(sorted) == sorted[0];
    var merged := Merged(Base(sorted), sorted);
    MergedFields(Base(sorted), sorted, "function");
    assert Get(merged, "function") == term;
    assert SummaryRow(rows, term) == Unset(merged, "currentRoute");
  }
}

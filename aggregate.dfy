/**
 * From the call table to the result rows: counting calls per function name
 * (array_count_values), unsetting the excluded columns, dropping entries without a
 * function name, the optional one-row-per-name mode, and stamping functionCount and
 * currentRoute onto every surviving row.
 */
module Aggregate {
  import opened Wrappers
  import opened Strings
  import opened Rows
  import opened Reconstruct
  import opened Seqs

  /** The entries of the call table, in key order. */
  function Entries(t: Table): (calls: seq<Call>)
    requires forall i :: 0 <= i < |t.order| ==> t.order[i] in t.calls
    ensures |calls| == |t.order| && forall i {:trigger calls[i]} :: 0 <= i < |calls| ==> calls[i] == t.calls[t.order[i]]
  {
    seq(|t.order|, i requires 0 <= i < |t.order| => t.calls[t.order[i]])
  }

  /** The function name of an entry; None for an entry that never saw its enter line. */
  function LabelOf(c: Call): Option<string> {
    if c.enter.Some? then Some(c.enter.value.functionLabel) else None
  }

  /** How many entries carry the name `name`. */
  function CountLabel(calls: seq<Call>, name: string): nat {
    if calls == [] then 0
    else CountLabel(calls[..|calls| - 1], name) + (if LabelOf(calls[|calls| - 1]) == Some(name) then 1 else 0)
  }

  lemma {:induction false} CountLabelPositive(calls: seq<Call>, i: nat)
    requires i < |calls| && calls[i].enter.Some?
    ensures CountLabel(calls, calls[i].enter.value.functionLabel) >= 1
  {
    if i < |calls| - 1 {
      CountLabelPositive(calls[..|calls| - 1], i);
    }
  }

  /** array_count_values(array_column($calledFuncions, 'function')). */
  method CountFunctions(calls: seq<Call>) returns (counts: map<string, nat>)
    ensures forall l :: l in counts <==> CountLabel(calls, l) > 0
    ensures forall l :: l in counts ==> counts[l] == CountLabel(calls, l)
  {
    counts := map[];
    for i := 0 to |calls|
      invariant forall l :: l in counts <==> CountLabel(calls[..i], l) > 0
      invariant forall l :: l in counts ==> counts[l] == CountLabel(calls[..i], l)
    {
      assert calls[..i + 1][..i] == calls[..i];
      if calls[i].enter.Some? {
        var l := calls[i].enter.value.functionLabel;
        counts := counts[l := if l in counts then counts[l] + 1 else 1];
      }
    }
    assert calls[..|calls|] == calls;
  }

  /** The columns an enter line assigns, in the order it assigns them. */
  function EnterRow(e: EnterInfo): Row {
    [("depth", Num(e.depth)), ("timeEnter", Text(e.timeEnter)), ("memoryEnter", Text(e.memoryEnter)),
     ("internal", Flag(e.internal)), ("line", Text(e.line)), ("params", List(e.params)),
     ("function", Text(e.functionLabel)), ("location", Text(e.location))]
  }

  /** The columns an exit line assigns; for an entry still open, those the entry template leaves empty. */
  function ExitRow(c: Call): Row {
    if c.exit.Some? then
      [("timeExit", Text(c.exit.value.timeExit)), ("memoryExit", Text(c.exit.value.memoryExit)),
       ("timeUsage", Text(c.exit.value.timeUsage)), ("memoryDiff", Num(c.exit.value.memoryDiff))]
    else [("timeExit", Text("")), ("memoryExit", Text("")), ("timeUsage", Text("")), ("memoryDiff", Text(""))]
  }

  /** The return column. */
  function ReturnRow(c: Call): Row {
    [("return", Text(if c.returned.Some? then c.returned.value else ""))]
  }

  /** The row the reconstruction built for an entry, keys in the order it assigned them. */
  function EntryRow(c: Call): Row {
    match c.enter
    case Some(e) => EnterRow(e) + ExitRow(c) + ReturnRow(c)
    case None => (if c.exit.Some? then ExitRow(c) else []) + (if c.returned.Some? then ReturnRow(c) else [])
  }

  /** The columns unset before a row is kept. */
  const ExcludedKeys: seq<string> :=
    ["depth", "timeEnter", "memoryEnter", "internal", "line", "params", "timeExit", "memoryExit", "memoryDiff", "return"]

  /** unset() of every excluded key that is set. */
  function Prune(row: Row, excluded: seq<string>): Row
  {
    if row == [] then []
    else (if row[0].0 in excluded then [] else [row[0]]) + Prune(row[1..], excluded)
  }

  /** After pruning, exactly the keys that were present and are not excluded remain. */
  lemma {:induction false} PruneKeys(row: Row, excluded: seq<string>)
    ensures forall k :: k in Keys(Prune(row, excluded)) <==> k in Keys(row) && k !in excluded
  {
    if row != [] {
      PruneKeys(row[1..], excluded);
      assert Keys(row) == [row[0].0] + Keys(row[1..]);
      assert Keys(Prune(row, excluded)) ==
        (if row[0].0 in excluded then [] else [row[0].0]) + Keys(Prune(row[1..], excluded));
    }
  }

  lemma {:induction false} PruneAppend(a: Row, b: Row, excluded: seq<string>)
    ensures Prune(a + b, excluded) == Prune(a, excluded) + Prune(b, excluded)
  {
    if a == [] {
      assert a + b == b;
    } else {
      var h := if a[0].0 in excluded then [] else [a[0]];
      assert (a + b)[0] == a[0] && (a + b)[1..] == a[1..] + b;
      assert Prune(a + b, excluded) == h + Prune(a[1..] + b, excluded);
      PruneAppend(a[1..], b, excluded);
      assert Prune(a, excluded) == h + Prune(a[1..], excluded);
    }
  }

  /** The timeUsage an entry shows: the formatted elapsed time once its exit line arrived, "" before. */
  function TimeUsage(c: Call): string {
    if c.exit.Some? then c.exit.value.timeUsage else ""
  }

  /** A surviving entry's row as the aggregation foreach builds it: the excluded columns unset, then functionCount and currentRoute set. */
  function StampedRow(c: Call, count: nat, route: string): Row
    requires c.enter.Some?
  {
    Put(Put(Prune(EntryRow(c), ExcludedKeys), "functionCount", Num(count)), "currentRoute", Text(route))
  }

  /** The five columns of a result row, in order. */
  function OutputRow(c: Call, count: nat, route: string): Row
    requires c.enter.Some?
  {
    [("function", Text(c.enter.value.functionLabel)), ("location", Text(c.enter.value.location)),
     ("timeUsage", Text(TimeUsage(c))), ("functionCount", Num(count)), ("currentRoute", Text(route))]
  }

  /** The enter columns that survive are function and location. */
  lemma PruneEnterFields(e: EnterInfo)
    ensures Prune(EnterRow(e), ExcludedKeys) == [("function", Text(e.functionLabel)), ("location", Text(e.location))]
  {
    var x := ExcludedKeys;
    var head := EnterRow(e);
    assert "function" !in x && "location" !in x;
    assert Prune(head[7..], x) == [("location", Text(e.location))] by {
      assert head[7..][1..] == [];
    }
    assert Prune(head[6..], x) == [("function", Text(e.functionLabel))] + Prune(head[7..], x) by {
      assert head[6..][1..] == head[7..];
    }
    assert Prune(head[5..], x) == Prune(head[6..], x) by { assert head[5..][1..] == head[6..]; }
    assert Prune(head[4..], x) == Prune(head[5..], x) by { assert head[4..][1..] == head[5..]; }
    assert Prune(head[3..], x) == Prune(head[4..], x) by { assert head[3..][1..] == head[4..]; }
    assert Prune(head[2..], x) == Prune(head[3..], x) by { assert head[2..][1..] == head[3..]; }
    assert Prune(head[1..], x) == Prune(head[2..], x) by { assert head[1..][1..] == head[2..]; }
    assert Prune(head, x) == Prune(head[1..], x);
  }

  /** The exit column that survives is timeUsage. */
  lemma PruneExitFields(c: Call)
    ensures Prune(ExitRow(c), ExcludedKeys) == [("timeUsage", Text(TimeUsage(c)))]
  {
    var x := ExcludedKeys;
    var f := ExitRow(c);
    assert "timeUsage" !in x;
    assert Prune(f[3..], x) == [] by { assert f[3..][1..] == []; }
    assert Prune(f[2..], x) == [("timeUsage", Text(TimeUsage(c)))] + Prune(f[3..], x) by { assert f[2..][1..] == f[3..]; }
    assert Prune(f[1..], x) == Prune(f[2..], x) by { assert f[1..][1..] == f[2..]; }
    assert Prune(f, x) == Prune(f[1..], x);
  }

  /** Of an entered call's row, function, location and timeUsage survive the unsetting. */
  lemma PrunedEntryRow(c: Call)
    requires c.enter.Some?
    ensures Prune(EntryRow(c), ExcludedKeys) ==
      [("function", Text(c.enter.value.functionLabel)), ("location", Text(c.enter.value.location)), ("timeUsage", Text(TimeUsage(c)))]
  {
    var x := ExcludedKeys;
    var e := c.enter.value;
    assert EntryRow(c) == EnterRow(e) + ExitRow(c) + ReturnRow(c);
    PruneAppend(EnterRow(e) + ExitRow(c), ReturnRow(c), x);
    PruneAppend(EnterRow(e), ExitRow(c), x);
    PruneEnterFields(e);
    PruneExitFields(c);
    assert Prune(ReturnRow(c), x) == [] by {
      assert "return" in x;
      assert ReturnRow(c)[1..] == [];
    }
  }

  /** Setting functionCount and currentRoute on a row that has neither appends them in that order. */
  lemma AddCountAndRoute(p: Row, count: nat, route: string)
    requires "functionCount" !in Keys(p) && "currentRoute" !in Keys(p)
    ensures Put(Put(p, "functionCount", Num(count)), "currentRoute", Text(route)) ==
      p + [("functionCount", Num(count)), ("currentRoute", Text(route))]
  {
    var a, b := ("functionCount", Num(count)), ("currentRoute", Text(route));
    var counted := Put(p, "functionCount", Num(count));
    assert "currentRoute" !in Keys(counted);
    PutNewKey(p, "functionCount", Num(count));
    PutNewKey(counted, "currentRoute", Text(route));
    Assoc(p, [a], [b]);
    assert [a] + [b] == [a, b];
  }

  /** Exactly five columns survive, in this order: function, location, timeUsage, functionCount, currentRoute. */
  lemma OutputRowShape(c: Call, count: nat, route: string)
    requires c.enter.Some?
    ensures StampedRow(c, count, route) == OutputRow(c, count, route)
  {
    PrunedEntryRow(c);
    var pruned := Prune(EntryRow(c), ExcludedKeys);
    assert Keys(pruned) == ["function", "location", "timeUsage"];
    AddCountAndRoute(pruned, count, route);
  }

  /** The label a result row carries ("" when it has none). */
  function FunctionText(row: Row): string {
    match Get(row, "function")
    case Some(Text(s)) => s
    case _ => ""
  }

  /** The two fields the later steps read from an output row: its label and its count. */
  lemma OutputRowFields(c: Call, count: nat, route: string)
    requires c.enter.Some?
    ensures FunctionText(OutputRow(c, count, route)) == c.enter.value.functionLabel
    ensures Get(OutputRow(c, count, route), "functionCount") == Some(Num(count))
  {
    var r := OutputRow(c, count, route);
    assert Get(r[2..], "functionCount") == Get(r[2..][1..], "functionCount") by { assert r[2..][1..] == r[3..]; }
    assert Get(r[1..], "functionCount") == Get(r[1..][1..], "functionCount") by { assert r[1..][1..] == r[2..]; }
  }

  /**
   * The rows the aggregation foreach keeps for `calls`, given the labels `added` so far:
   * entries without a truthy name are dropped, and in unique mode so is every entry
   * whose name was added before.
   */
  function Aggregated(calls: seq<Call>, all: seq<Call>, unique: bool, route: string, added: seq<string>): seq<Row>
  {
    if calls == [] then []
    else
      var c := calls[0];
      if c.enter.None? || !Truthy(c.enter.value.functionLabel) then Aggregated(calls[1..], all, unique, route, added)
      else if unique && c.enter.value.functionLabel in added then Aggregated(calls[1..], all, unique, route, added)
      else [OutputRow(c, CountLabel(all, c.enter.value.functionLabel), route)]
           + Aggregated(calls[1..], all, unique, route, added + [c.enter.value.functionLabel])
  }

  /**
   * The aggregation foreach: counts the labels over all entries first, then walks the
   * entries in order, unsetting the excluded columns and keeping the rows that survive.
   */
  method AggregateCalls(calls: seq<Call>, unique: bool, route: string) returns (rows: seq<Row>)
    ensures rows == Aggregated(calls, calls, unique, route, [])
  {
    var counts := CountFunctions(calls);
    var added: seq<string> := [];
    rows := [];
    for i := 0 to |calls|
      invariant rows + Aggregated(calls[i..], calls, unique, route, added) == Aggregated(calls, calls, unique, route, [])
    {
      var c := calls[i];
      assert calls[i..][0] == c && calls[i..][1..] == calls[i + 1..];
      if c.enter.None? || !Truthy(c.enter.value.functionLabel) {
        assert Aggregated(calls[i..], calls, unique, route, added) == Aggregated(calls[i + 1..], calls, unique, route, added);
        continue;
      }
      var name := c.enter.value.functionLabel;
      if unique && name in added {
        assert Aggregated(calls[i..], calls, unique, route, added) == Aggregated(calls[i + 1..], calls, unique, route, added);
        continue;
      }
      CountLabelPositive(calls, i);
      var row := Prune(EntryRow(c), ExcludedKeys);
      row := Put(row, "functionCount", Num(counts[name]));
      row := Put(row, "currentRoute", Text(route));
      OutputRowShape(c, CountLabel(calls, name), route);
      assert Aggregated(calls[i..], calls, unique, route, added) ==
        [row] + Aggregated(calls[i + 1..], calls, unique, route, added + [name]);
      Assoc(rows, [row], Aggregated(calls[i + 1..], calls, unique, route, added + [name]));
      rows := rows + [row];
      added := added + [name];
    }
    assert calls[|calls|..] == [];
  }

  /** One row per name, the first one seen: the reference meaning of the unique mode. */
  function FirstPerFunction(rows: seq<Row>, seen: seq<string>): seq<Row>
  {
    if rows == [] then []
    else if FunctionText(rows[0]) in seen then FirstPerFunction(rows[1..], seen)
    else [rows[0]] + FirstPerFunction(rows[1..], seen + [FunctionText(rows[0])])
  }

  lemma {:induction false} NonUniqueIgnoresAdded(calls: seq<Call>, all: seq<Call>, route: string, a: seq<string>, b: seq<string>)
    ensures Aggregated(calls, all, false, route, a) == Aggregated(calls, all, false, route, b)
  {
    if calls != [] {
      var c := calls[0];
      if c.enter.Some? && Truthy(c.enter.value.functionLabel) {
        NonUniqueIgnoresAdded(calls[1..], all, route, a + [c.enter.value.functionLabel], b + [c.enter.value.functionLabel]);
      } else {
        NonUniqueIgnoresAdded(calls[1..], all, route, a, b);
      }
    }
  }

  /**
   * The unique mode keeps, of the rows the plain mode produces, the first row of each
   * name, in the same order. The rows are the same rows, so functionCount is the
   * same whether the mode is on or off.
   */
  lemma {:induction false} UniqueIsFirstPerFunction(calls: seq<Call>, all: seq<Call>, route: string, added: seq<string>)
    ensures Aggregated(calls, all, true, route, added) == FirstPerFunction(Aggregated(calls, all, false, route, added), added)
  {
    if calls != [] {
      var c := calls[0];
      if c.enter.None? || !Truthy(c.enter.value.functionLabel) {
        UniqueIsFirstPerFunction(calls[1..], all, route, added);
      } else {
        var l := c.enter.value.functionLabel;
        var row := OutputRow(c, CountLabel(all, l), route);
        OutputRowFields(c, CountLabel(all, l), route);
        var rest := Aggregated(calls[1..], all, false, route, added + [l]);
        assert Aggregated(calls, all, false, route, added) == [row] + rest;
        assert ([row] + rest)[1..] == rest;
        if l in added {
          UniqueIsFirstPerFunction(calls[1..], all, route, added);
          NonUniqueIgnoresAdded(calls[1..], all, route, added, added + [l]);
        } else {
          UniqueIsFirstPerFunction(calls[1..], all, route, added + [l]);
        }
      }
    }
  }

  /** FirstPerFunction keeps at most one row per name, and none whose name was already seen. */
  lemma {:induction false} FirstPerFunctionDistinct(rows: seq<Row>, seen: seq<string>)
    ensures forall i :: 0 <= i < |FirstPerFunction(rows, seen)| ==> FunctionText(FirstPerFunction(rows, seen)[i]) !in seen
    ensures forall i, j :: 0 <= i < j < |FirstPerFunction(rows, seen)| ==>
      FunctionText(FirstPerFunction(rows, seen)[i]) != FunctionText(FirstPerFunction(rows, seen)[j])
  {
    if rows != [] {
      var f := FunctionText(rows[0]);
      if f in seen {
        assert FirstPerFunction(rows, seen) == FirstPerFunction(rows[1..], seen);
        FirstPerFunctionDistinct(rows[1..], seen);
      } else {
        var tail := FirstPerFunction(rows[1..], seen + [f]);
        FirstPerFunctionDistinct(rows[1..], seen + [f]);
        var r := [rows[0]] + tail;
        assert FirstPerFunction(rows, seen) == r;
        assert forall i :: 0 < i < |r| ==> r[i] == tail[i - 1];
        assert forall i :: 0 <= i < |tail| ==> FunctionText(tail[i]) !in seen && FunctionText(tail[i]) != f by {
          forall i | 0 <= i < |tail|
            ensures FunctionText(tail[i]) !in seen && FunctionText(tail[i]) != f
          {
            assert FunctionText(tail[i]) !in seen + [f];
          }
        }
      }
    }
  }

  /** An entry the aggregation keeps a row for: it saw its enter line and its name is truthy. */
  predicate Kept(c: Call) {
    c.enter.Some? && Truthy(c.enter.value.functionLabel)
  }

  /** The entries that give the result rows, in order: the same walk as Aggregated, keeping entries instead of rows. */
  function Selected(calls: seq<Call>, unique: bool, added: seq<string>): (sel: seq<Call>)
    ensures forall j {:trigger sel[j]} :: 0 <= j < |sel| ==> sel[j] in calls && Kept(sel[j])
  {
    if calls == [] then []
    else
      var c := calls[0];
      assert forall x :: x in calls[1..] ==> x in calls;
      if !Kept(c) then Selected(calls[1..], unique, added)
      else if unique && c.enter.value.functionLabel in added then Selected(calls[1..], unique, added)
      else [c] + Selected(calls[1..], unique, added + [c.enter.value.functionLabel])
  }

  /** The output rows of kept entries, each with the count of its name over `all`. */
  function RowsOf(sel: seq<Call>, all: seq<Call>, route: string): (rows: seq<Row>)
    requires forall j :: 0 <= j < |sel| ==> sel[j].enter.Some?
    ensures |rows| == |sel|
    ensures forall j {:trigger rows[j]} :: 0 <= j < |sel| ==>
      rows[j] == OutputRow(sel[j], CountLabel(all, sel[j].enter.value.functionLabel), route)
  {
    if sel == [] then []
    else
      var rest := RowsOf(sel[1..], all, route);
      assert forall j :: 0 < j < |sel| ==> sel[j] == sel[1..][j - 1];
      [OutputRow(sel[0], CountLabel(all, sel[0].enter.value.functionLabel), route)] + rest
  }

  /**
   * Every result row is the output row of a kept entry of the input, in input order:
   * entries made only by exit or return lines, or without a truthy name, never reach the result.
   */
  lemma {:induction false} RowsComeFromEnteredCalls(calls: seq<Call>, all: seq<Call>, unique: bool, route: string, added: seq<string>)
    ensures Aggregated(calls, all, unique, route, added) == RowsOf(Selected(calls, unique, added), all, route)
  {
    if calls != [] {
      var c := calls[0];
      if !Kept(c) || (unique && c.enter.value.functionLabel in added) {
        RowsComeFromEnteredCalls(calls[1..], all, unique, route, added);
      } else {
        var l := c.enter.value.functionLabel;
        RowsComeFromEnteredCalls(calls[1..], all, unique, route, added + [l]);
        var sel := Selected(calls[1..], unique, added + [l]);
        assert ([c] + sel)[0] == c && ([c] + sel)[1..] == sel;
      }
    }
  }

  /** In a result row, functionCount is the number of entries of the whole table that carry the row's name. */
  lemma RowCountIsTrueCount(calls: seq<Call>, unique: bool, route: string, k: nat)
    requires k < |Aggregated(calls, calls, unique, route, [])|
    ensures var row := Aggregated(calls, calls, unique, route, [])[k];
      Truthy(FunctionText(row)) && Get(row, "functionCount") == Some(Num(CountLabel(calls, FunctionText(row))))
  {
    RowsComeFromEnteredCalls(calls, calls, unique, route, []);
    var c := Selected(calls, unique, [])[k];
    OutputRowFields(c, CountLabel(calls, c.enter.value.functionLabel), route);
  }

  /** With the unique mode on, no two result rows share a name. */
  lemma UniqueRowsHaveDistinctLabels(calls: seq<Call>, route: string)
    ensures var rows := Aggregated(calls, calls, true, route, []);
      forall i, j :: 0 <= i < j < |rows| ==> FunctionText(rows[i]) != FunctionText(rows[j])
  {
    UniqueIsFirstPerFunction(calls, calls, route, []);
    FirstPerFunctionDistinct(Aggregated(calls, calls, false, route, []), []);
  }
}

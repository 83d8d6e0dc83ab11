/**
 * The rows the trace table is made of. PHP keeps each row as an associative array,
 * whose keys stay in insertion order; here a row is a sequence of (key, value) pairs
 * with the same order, and `Put`/`Unset` behave as `$row[$k] = $v` and `unset($row[$k])`.
 */
module Rows {
  import opened Wrappers
  import opened Numbers

  /** A PHP value as a row holds it: a string, an int, a bool or a list of strings. */
  datatype Cell = Text(s: string) | Num(n: int) | Flag(b: bool) | List(items: seq<string>)

  type Row = seq<(string, Cell)>

  function Keys(row: Row): (ks: seq<string>)
    ensures |ks| == |row| && forall i {:trigger ks[i]} :: 0 <= i < |row| ==> ks[i] == row[i].0
  {
    if row == [] then [] else [row[0].0] + Keys(row[1..])
  }

  predicate DistinctKeys(row: Row) {
    forall i, j :: 0 <= i < j < |row| ==> row[i].0 != row[j].0
  }

  /** $row[$k], or None when the key is missing (isset() fails). */
  function Get(row: Row, k: string): (v: Option<Cell>)
    ensures v.Some? <==> k in Keys(row)
    ensures v.Some? ==> exists i :: 0 <= i < |row| && row[i] == (k, v.value)
  {
    if row == [] then None
    else if row[0].0 == k then Some(row[0].1)
    else
      var v := Get(row[1..], k);
      assert v.Some? ==> exists i :: 0 <= i < |row| - 1 && row[1..][i] == (k, v.value);
      v
  }

  /** In a row without repeated keys, the value stored under a key is the one Get finds. */
  lemma {:induction false} GetAt(row: Row, i: nat)
    requires DistinctKeys(row) && i < |row|
    ensures Get(row, row[i].0) == Some(row[i].1)
  {
    if i > 0 {
      GetAt(row[1..], i - 1);
    }
  }

  /** $row[$k] = $v: overwrites the value in place when the key exists, appends otherwise. */
  function Put(row: Row, k: string, v: Cell): (r: Row)
    ensures Keys(r) == if k in Keys(row) then Keys(row) else Keys(row) + [k]
  {
    if row == [] then [(k, v)]
    else if row[0].0 == k then [(k, v)] + row[1..]
    else
      var r := [row[0]] + Put(row[1..], k, v);
      assert Keys(row) == [row[0].0] + Keys(row[1..]);
      r
  }

  /** unset($row[$k]). */
  function Unset(row: Row, k: string): (r: Row)
    ensures Get(r, k) == None
    ensures forall j :: j != k ==> Get(r, j) == Get(row, j)
    ensures forall j :: j in Keys(r) <==> j in Keys(row) && j != k
  {
    if row == [] then []
    else if row[0].0 == k then Unset(row[1..], k)
    else
      var r := [row[0]] + Unset(row[1..], k);
      assert Keys(row) == [row[0].0] + Keys(row[1..]);
      assert Keys(r) == [row[0].0] + Keys(Unset(row[1..], k));
      r
  }

  /** After `$row[$k] = $v`, the key holds `v` and every other key holds what it held. */
  lemma {:induction false} GetPut(row: Row, k: string, v: Cell, j: string)
    ensures Get(Put(row, k, v), j) == if j == k then Some(v) else Get(row, j)
  {
    if row != [] && row[0].0 != k {
      GetPut(row[1..], k, v, j);
      assert Put(row, k, v)[1..] == Put(row[1..], k, v);
    }
  }

  /** Setting a key a row does not have appends it. */
  lemma {:induction false} PutNewKey(row: Row, k: string, v: Cell)
    requires k !in Keys(row)
    ensures Put(row, k, v) == row + [(k, v)]
  {
    if row != [] {
      assert Keys(row)[0] == row[0].0;
      assert forall i :: 0 <= i < |row| - 1 ==> Keys(row[1..])[i] == Keys(row)[i + 1];
      PutNewKey(row[1..], k, v);
    }
  }

  lemma PutKeepsDistinct(row: Row, k: string, v: Cell)
    requires DistinctKeys(row)
    ensures DistinctKeys(Put(row, k, v))
  {
    var r := Put(row, k, v);
    var ks := Keys(r);
    forall i, j | 0 <= i < j < |r|
      ensures r[i].0 != r[j].0
    {
      assert ks[i] == r[i].0 && ks[j] == r[j].0;
      assert i < |row| ==> Keys(row)[i] == row[i].0;
      assert j < |row| ==> Keys(row)[j] == row[j].0;
      if k in Keys(row) {
        assert ks == Keys(row);
      } else {
        assert ks == Keys(row) + [k];
      }
    }
  }

  /** The (string) cast of a value, which is also what fputcsv() writes for it. */
  function CellText(c: Cell): string
  {
    match c
    case Text(s) => s
    case Num(n) => IntToString(n)
    case Flag(b) => if b then "1" else ""
    case List(_) => "Array"
  }

  /** The numeric value PHP takes from a value in array_sum() and numeric comparison. */
  function CellNumber(c: Cell): int
  {
    match c
    case Text(s) => ParseInt(s)
    case Num(n) => n
    case Flag(b) => if b then 1 else 0
    case List(_) => 0
  }

  /** Writing an int and reading it back keeps its numeric value. */
  lemma NumberOfText(c: Cell)
    requires c.Num?
    ensures CellNumber(Text(CellText(c))) == CellNumber(c)
  {
    ParseIntToString(c.n);
  }

  /** The values of a row, in key order, as fputcsv() writes them. */
  function CsvLine(row: Row): (line: seq<string>)
    ensures |line| == |row| && forall i {:trigger line[i]} :: 0 <= i < |row| ==> line[i] == CellText(row[i].1)
  {
    if row == [] then [] else [CellText(row[0].1)] + CsvLine(row[1..])
  }

  /** The row as it reads back from a CSV file: every value replaced by its string form. */
  function AsText(row: Row): (r: Row)
    ensures |r| == |row| && forall i {:trigger r[i]} :: 0 <= i < |row| ==> r[i] == (row[i].0, Text(CellText(row[i].1)))
  {
    if row == [] then [] else [(row[0].0, Text(CellText(row[0].1)))] + AsText(row[1..])
  }
}

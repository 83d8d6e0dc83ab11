/**
 * Pagination of the result rows: page and limit are taken by absolute value and the
 * page is array_slice($rows, $page * $limit - $limit, $limit).
 */
module Paging {
  function Abs(n: int): nat {
    if n < 0 then -n else n
  }

  function Min(a: int, b: int): int {
    if a <= b then a else b
  }

  /**
   * array_slice($rows, $offset, $length) for a length that is not negative: an offset past
   * the end gives nothing, a negative offset counts from the end (clamped at the start),
   * and the slice stops at the end of the rows.
   */
  function Slice<T>(rows: seq<T>, offset: int, length: nat): (r: seq<T>)
    ensures offset > |rows| ==> r == []
    ensures 0 <= offset <= |rows| ==> r == rows[offset..Min(|rows|, offset + length)]
    ensures offset < 0 ==>
      var start := if |rows| + offset < 0 then 0 else |rows| + offset;
      r == rows[start..Min(|rows|, start + length)]
    ensures |r| <= length
  {
    var n := |rows|;
    if offset > n then []
    else
      var start := if offset >= 0 then offset else if n + offset < 0 then 0 else n + offset;
      rows[start..Min(n, start + length)]
  }

  /** The rows of page `page` when pages hold `limit` rows. */
  function Paginate<T>(rows: seq<T>, page: int, limit: int): seq<T>
  {
    var p := Abs(page);
    var l := Abs(limit);
    Slice(rows, p * l - l, l)
  }

  /** Page p (p >= 1) holds the `limit` rows from (p-1)*limit on, cut at the end of the rows. */
  lemma PageContents<T>(rows: seq<T>, page: int, limit: int)
    requires page != 0
    ensures var start := (Abs(page) - 1) * Abs(limit);
      Paginate(rows, page, limit) == rows[Min(|rows|, start)..Min(|rows|, start + Abs(limit))]
  {
    var p, l := Abs(page), Abs(limit);
    var start := (p - 1) * l;
    MulStep(p, l);
    assert Paginate(rows, page, limit) == Slice(rows, start, l);
    if start > |rows| {
      assert rows[Min(|rows|, start)..Min(|rows|, start + l)] == [];
    }
  }

  /** One more page moves the offset by one limit. */
  lemma MulStep(k: nat, l: nat)
    requires k >= 1
    ensures k * l - l == (k - 1) * l >= 0
  {
    assert k * l == (k - 1) * l + l;
  }

  /** Page 0 has the offset -limit, so it holds the last `limit` rows. */
  lemma PageZeroIsLastRows<T>(rows: seq<T>, limit: int)
    ensures var l := Abs(limit);
      Paginate(rows, 0, limit) == rows[(if |rows| < l then 0 else |rows| - l)..]
  {
  }

  /** A limit of 0 gives an empty page. */
  lemma ZeroLimitIsEmpty<T>(rows: seq<T>, page: int)
    ensures Paginate(rows, page, 0) == []
  {
  }

  /** When all rows fit in one page, the first page is all of them. */
  lemma FirstPageHoldsAll<T>(rows: seq<T>, limit: int)
    requires |rows| <= Abs(limit)
    ensures Paginate(rows, 1, limit) == rows
  {
  }

  /** Pages 1 to k, put one after another, are the first k*limit rows: no row is skipped or repeated. */
  lemma {:induction false} PagesTile<T>(rows: seq<T>, limit: nat, k: nat)
    ensures Pages(rows, limit, k) == rows[..Min(|rows|, k * limit)]
  {
    if k > 0 {
      PageAt(rows, limit, k);
      var a, b := Min(|rows|, (k - 1) * limit), Min(|rows|, k * limit);
      calc {
        Pages(rows, limit, k);
        Pages(rows, limit, k - 1) + Paginate(rows, k, limit);
        { PagesTile(rows, limit, k - 1); }
        rows[..a] + rows[a..b];
        { Joined(rows, a, b); }
        rows[..b];
      }
    }
  }

  /** Page k (k >= 1) of a non-negative limit, with the offsets written as products. */
  lemma PageAt<T>(rows: seq<T>, limit: nat, k: nat)
    requires k >= 1
    ensures 0 <= (k - 1) * limit <= k * limit
    ensures Paginate(rows, k, limit) == rows[Min(|rows|, (k - 1) * limit)..Min(|rows|, k * limit)]
  {
    MulStep(k, limit);
    PageContents(rows, k, limit);
  }

  lemma Joined<T>(rows: seq<T>, a: nat, b: nat)
    requires a <= b <= |rows|
    ensures rows[..a] + rows[a..b] == rows[..b]
  {
  }

  /** Pages 1 to k, concatenated. */
  function Pages<T>(rows: seq<T>, limit: nat, k: nat): seq<T>
  {
    if k == 0 then [] else Pages(rows, limit, k - 1) + Paginate(rows, k, limit)
  }
}

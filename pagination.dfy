/** Splitting the table into pages of `rows_page` rows (deploy_script.py,
    `main`): the page count computed by ceiling division and the slicing
    loop `for i in range(0, rows, rows_page): pages.append(df[i:i + rows_page])`. */
module Pagination {
  import opened Common

  function Min(a: int, b: int): int
  {
    if a <= b then a else b
  }

  /** The number of pages: `rows // rows_page`, plus one for a partial page. */
  function TotalPages(rows: nat, rowsPage: nat): (n: nat)
    requires rowsPage > 0
    ensures (n - 1) * rowsPage < rows <= n * rowsPage
  {
    var q, m := rows / rowsPage, rows % rowsPage;
    assert rows == q * rowsPage + m;
    if m != 0 then
      assert (q + 1) * rowsPage == q * rowsPage + rowsPage;
      q + 1
    else
      assert (q - 1) * rowsPage == q * rowsPage - rowsPage;
      q
  }

  /** `pages` cuts `table` into consecutive, non-empty slices of at most
      `rowsPage` rows, every slice but the last holding exactly `rowsPage`. */
  ghost predicate IsPagination<T(!new)>(table: seq<T>, rowsPage: nat, pages: seq<seq<T>>)
  {
    && Concat(pages) == table
    && (forall k :: 0 <= k < |pages| ==> 0 < |pages[k]| <= rowsPage)
    && (forall k :: 0 <= k < |pages| - 1 ==> |pages[k]| == rowsPage)
  }

  /** The slicing loop. A page size of zero makes Python's `range` raise. */
  method Paginate<T(!new)>(table: seq<T>, rowsPage: nat) returns (r: Result<seq<seq<T>>>)
    ensures rowsPage == 0 <==> r.Err?
    ensures r.Err? ==> r.error == InvalidPageSize
    ensures r.Ok? ==> IsPagination(table, rowsPage, r.value)
    ensures r.Ok? ==> |r.value| == TotalPages(|table|, rowsPage)
  {
    if rowsPage == 0 {
      return Err(InvalidPageSize);
    }
    var pages: seq<seq<T>> := [];
    var i := 0;
    while i < |table|
      invariant Concat(pages) == table[..Min(i, |table|)]
      invariant forall k :: 0 <= k < |pages| ==> 0 < |pages[k]| <= rowsPage
      invariant forall k :: 0 <= k < |pages| - 1 ==> |pages[k]| == rowsPage
      invariant i < |table| ==> forall k :: 0 <= k < |pages| ==> |pages[k]| == rowsPage
    {
      var page := table[i..Min(i + rowsPage, |table|)];
      ConcatAppend(pages, page);
      assert table[..Min(i + rowsPage, |table|)] == table[..i] + page;
      pages := pages + [page];
      i := i + rowsPage;
    }
    assert table[..Min(i, |table|)] == table;
    PaginationCount(table, rowsPage, pages);
    return Ok(pages);
  }

  /** A list of full pages holds `rowsPage` rows per page. */
  lemma {:induction false} FullPagesLength<T(!new)>(pages: seq<seq<T>>, rowsPage: nat)
    requires forall k :: 0 <= k < |pages| ==> |pages[k]| == rowsPage
    ensures |Concat(pages)| == |pages| * rowsPage
  {
    if pages != [] {
      var n := |pages|;
      FullPagesLength(pages[..n - 1], rowsPage);
      assert |pages| * rowsPage == (n - 1) * rowsPage + rowsPage;
    }
  }

  lemma {:induction false} MulMonotone(a: int, b: int, c: nat)
    requires a <= b
    ensures a * c <= b * c
  {
    if c > 0 {
      MulMonotone(a, b, c - 1);
      assert a * c == a * (c - 1) + a;
      assert b * c == b * (c - 1) + b;
    }
  }

  /** At most one page count `n` has `(n - 1) * rowsPage < rows <= n * rowsPage`. */
  lemma CeilingUnique(rows: nat, rowsPage: nat, m: nat, n: nat)
    requires rowsPage > 0
    requires (m - 1) * rowsPage < rows <= m * rowsPage
    requires (n - 1) * rowsPage < rows <= n * rowsPage
    ensures m == n
  {
    if m < n {
      MulMonotone(m, n - 1, rowsPage);
    } else if n < m {
      MulMonotone(n, m - 1, rowsPage);
    }
  }

  /** Every pagination of a table has the ceiling of rows / rowsPage pages. */
  lemma PaginationCount<T(!new)>(table: seq<T>, rowsPage: nat, pages: seq<seq<T>>)
    requires rowsPage > 0
    requires IsPagination(table, rowsPage, pages)
    ensures |pages| == TotalPages(|table|, rowsPage)
  {
    var n := |pages|;
    if n > 0 {
      var full := pages[..n - 1];
      FullPagesLength(full, rowsPage);
      assert |table| == (n - 1) * rowsPage + |pages[n - 1]|;
      assert n * rowsPage == (n - 1) * rowsPage + rowsPage;
    }
    CeilingUnique(|table|, rowsPage, n, TotalPages(|table|, rowsPage));
  }
}

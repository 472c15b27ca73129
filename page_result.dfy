/** The paged response every list endpoint returns: the page number and size,
    the total number of records, the number of pages and one page of records.
    The fields are Java longs; their overflow is not modelled. */
module PageResults {

  import opened Wrappers

  datatype PageResult<T> = PageResult(current: int, size: int, total: int, pages: int, records: seq<T>)

  /** The page object a MyBatis-Plus paged query yields, with the page count it
      computed itself. */
  datatype Page<T> = Page(current: int, size: int, total: int, pages: int, records: seq<T>)

  /** Java's integer division, which truncates toward zero. */
  function JavaDiv(a: int, b: int): (r: int)
    requires b != 0
    ensures a >= 0 && b > 0 ==> r == a / b
    ensures (a >= 0) == (b > 0) || a == 0 ==> r >= 0
    ensures (a >= 0) != (b > 0) ==> r <= 0
  {
    var q := (if a < 0 then -a else a) / (if b < 0 then -b else b);
    if (a >= 0) == (b > 0) then q else -q
  }

  /** The page count (total + size - 1) / size: the least number of pages of
      `size` records that hold `total` records. */
  function PageCount(total: int, size: int): int
    requires size != 0
  {
    JavaDiv(total + size - 1, size)
  }

  /** For a positive size and a non-negative total the count is the ceiling of
      total / size: enough pages for every record, and none left empty. */
  lemma PageCountIsCeiling(total: int, size: int)
    requires size > 0 && total >= 0
    ensures PageCount(total, size) >= 0
    ensures PageCount(total, size) * size >= total
    ensures total > 0 ==> (PageCount(total, size) - 1) * size < total
    ensures total == 0 ==> PageCount(total, size) == 0
  {
    var p := PageCount(total, size);
    var n := total + size - 1;
    assert p == n / size;
    assert n == p * size + n % size;
    assert (p - 1) * size == p * size - size;
  }

  /** Every record index falls on exactly one page: the page (from 1) holding
      record i is i / size + 1, which never exceeds the page count. */
  lemma RecordOnSomePage(total: int, size: int, i: int)
    requires size > 0 && 0 <= i < total
    ensures 1 <= i / size + 1 <= PageCount(total, size)
  {
    PageCountIsCeiling(total, size);
    var q, p := i / size, PageCount(total, size);
    assert q * size <= i;
    assert q * size < p * size;
    LessAfterScaling(q, p, size);
  }

  lemma LessAfterScaling(x: int, y: int, k: int)
    requires k > 0 && x * k < y * k
    ensures x < y
  {
  }

  /** The four-argument constructor: the count is derived from the total and
      the size, and a size of 0 throws ArithmeticException. */
  function NewPageResult<T>(current: int, size: int, total: int, records: seq<T>): (r: Result<PageResult<T>>)
    ensures r.Err? <==> size == 0
    ensures r.Err? ==> r.error == Uncaught("ArithmeticException")
    ensures r.Ok? ==> r.value.current == current && r.value.size == size
    ensures r.Ok? ==> r.value.total == total && r.value.records == records
    ensures r.Ok? && size > 0 && total >= 0 ==>
      r.value.pages * size >= total && (total > 0 ==> (r.value.pages - 1) * size < total)
  {
    if size == 0 then Err(Uncaught("ArithmeticException"))
    else
      PageCountIsCeiling(if total >= 0 then total else 0, if size > 0 then size else 1);
      Ok(PageResult(current, size, total, PageCount(total, size), records))
  }

  /** of(page): every field copied from the query's page, the page count
      included, which is taken as the query computed it. */
  function Of<T>(page: Page<T>): (r: PageResult<T>)
    ensures r.current == page.current && r.size == page.size && r.total == page.total
    ensures r.pages == page.pages && r.records == page.records
  {
    PageResult(page.current, page.size, page.total, page.pages, page.records)
  }

  /** of(page, records): the same paging numbers over converted records. */
  function OfRecords<T, R>(page: Page<T>, records: seq<R>): (r: PageResult<R>)
    ensures r.current == page.current && r.size == page.size && r.total == page.total
    ensures r.pages == page.pages && r.records == records
  {
    PageResult(page.current, page.size, page.total, page.pages, records)
  }

  /** Converting the records never touches the paging numbers, and keeping the
      page's own records is the plain copy. */
  lemma OfRecordsAgreesWithOf<T, R>(page: Page<T>, records: seq<R>)
    ensures OfRecords(page, page.records) == Of(page)
    ensures var a, b := OfRecords(page, records), Of(page);
      a.current == b.current && a.size == b.size && a.total == b.total && a.pages == b.pages
  {
  }

  /** A page result built by the constructor and one copied from a page with
      the same numbers and the correctly computed count agree. */
  lemma OfMatchesConstructor<T>(page: Page<T>)
    requires page.size != 0 && page.pages == PageCount(page.total, page.size)
    ensures NewPageResult(page.current, page.size, page.total, page.records) == Ok(Of(page))
  {
  }
}

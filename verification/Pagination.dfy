// Paging arithmetic of internal/dto/response.go, in 64-bit integers.

module Paging {
  import opened Options
  import opened Int64

  datatype Pagination = Pagination(
    page: int, pageSize: int, total: int, totalPages: int, hasNext: bool, hasPrev: bool)

  /** `None` is the division by zero of a page size of zero. */
  function NewPagination(page: int, pageSize: int, total: int): Option<Pagination> {
    if pageSize == 0 then None
    else
      var totalPages := Quot(Wrap(Wrap(total + pageSize) - 1), pageSize);
      Some(Pagination(page, pageSize, total, totalPages, page < totalPages, page > 1))
  }

  function Offset(page: int, pageSize: int): int { Wrap(Wrap(page - 1) * pageSize) }

  class PaginationRequest {
    var page: int
    var pageSize: int
    var order: string

    constructor (page: int, pageSize: int, order: string)
      ensures this.page == page && this.pageSize == pageSize && this.order == order
    {
      this.page, this.pageSize, this.order := page, pageSize, order;
    }

    predicate Validated()
      reads this
    {
      page >= 1 && 1 <= pageSize <= 100 && (order == "asc" || order == "desc")
    }

    /** Every request becomes valid; whatever was valid stays as it is. */
    method Validate()
      modifies this
      ensures Validated()
      ensures page == if old(page) >= 1 then old(page) else 1
      ensures pageSize == if old(pageSize) < 1 then 20 else if old(pageSize) > 100 then 100 else old(pageSize)
      ensures order == if old(order) == "asc" then "asc" else "desc"
    {
      if page < 1 {
        page := 1;
      }
      if pageSize < 1 {
        pageSize := 20;
      }
      if pageSize > 100 {
        pageSize := 100;
      }
      if order != "asc" && order != "desc" {
        order := "desc";
      }
    }

    method GetOffset() returns (offset: int)
      ensures offset == Offset(page, pageSize)
    {
      offset := Wrap(Wrap(page - 1) * pageSize);
    }

    method GetLimit() returns (limit: int)
      ensures limit == pageSize
    {
      limit := pageSize;
    }
  }

  ghost predicate InPage(x: int, page: int, size: int) {
    Offset(page, size) <= x < Offset(page, size) + size
  }

  ghost predicate IsCeiling(pages: int, size: int, total: int) {
    (pages - 1) * size < total <= pages * size
  }

  lemma QuotientBounds(a: int, b: int)
    requires a >= 0 && b > 0
    ensures Quot(a, b) * b <= a < (Quot(a, b) + 1) * b
  {
  }

  /** The page count is the quotient rounded up exactly if the 64-bit sum does not overflow. */
  lemma TotalPagesIsCeiling(page: int, size: int, total: int)
    requires 1 <= size <= MAX && 0 <= total <= MAX
    ensures IsCeiling(NewPagination(page, size, total).value.totalPages, size, total) <==> total + size - 1 <= MAX
  {
    var pages := NewPagination(page, size, total).value.totalPages;
    WrapTwice(total, size);
    if total + size - 1 <= MAX {
      QuotientBounds(total + size - 1, size);
      CeilingFromFloor(pages, size, total);
    } else {
      OverflowNotPositive(total + size - 1, size);
      assert pages * size <= 0 by {
        NonPositive(pages, size);
      }
    }
  }

  lemma WrapTwice(total: int, size: int)
    ensures Wrap(Wrap(total + size) - 1) == Wrap(total + size - 1)
  {
  }

  lemma CeilingFromFloor(pages: int, size: int, total: int)
    requires size > 0 && pages * size <= total + size - 1 < (pages + 1) * size
    ensures IsCeiling(pages, size, total)
  {
  }

  lemma OverflowNotPositive(x: int, size: int)
    requires MAX < x < 2 * MAX && size > 0
    ensures Quot(Wrap(x), size) <= 0
  {
  }

  lemma NonPositive(a: int, b: int)
    requires a <= 0 && b > 0
    ensures a * b <= 0
  {
  }

  /** Up to the last page the offset is exact, and lies inside the data. */
  lemma OffsetInside(page: int, size: int, total: int)
    requires 1 <= size <= MAX && 0 <= total && total + size - 1 <= MAX
    requires 1 <= page <= NewPagination(page, size, total).value.totalPages
    ensures 0 <= Offset(page, size) == (page - 1) * size < total
  {
    var pages := NewPagination(page, size, total).value.totalPages;
    TotalPagesIsCeiling(page, size, total);
    Monotone(page - 1, pages - 1, size);
    Monotone(0, page - 1, size);
    Monotone2(page - 1, size);
    WrapExact(page - 1);
    WrapExact((page - 1) * size);
  }

  lemma Monotone(a: int, b: int, size: int)
    requires a <= b && size > 0
    ensures a * size <= b * size
  {
  }

  lemma Monotone2(a: int, size: int)
    requires a >= 0 && size >= 1
    ensures a <= a * size
  {
  }

  lemma PageUnique(p: int, q: int, size: int, x: int)
    requires size > 0 && (p - 1) * size <= x < (p - 1) * size + size && (q - 1) * size <= x < (q - 1) * size + size
    ensures p == q
  {
    assert p * size == (p - 1) * size + size;
    assert q * size == (q - 1) * size + size;
    if p < q {
      Monotone(p, q - 1, size);
    } else if q < p {
      Monotone(q, p - 1, size);
    }
  }

  lemma PageOf(pages: int, size: int, total: int, x: int) returns (p: int)
    requires size > 0 && 0 <= x < total && IsCeiling(pages, size, total)
    ensures 1 <= p <= pages && (p - 1) * size <= x < (p - 1) * size + size
  {
    p := x / size + 1;
    assert (p - 1) * size <= x < (p - 1) * size + size;
    if pages < p { Monotone(pages, p - 1, size); }
  }

  lemma PagesNotNegative(pages: int, size: int, total: int)
    requires size > 0 && 0 <= total && IsCeiling(pages, size, total)
    ensures pages >= 0
  {
  }

  /** Each item of the data is on exactly one page, and each page up to the last has an item: its first. */
  lemma PagesPartition(size: int, total: int, x: int)
    requires 1 <= size <= MAX && 0 <= total && total + size - 1 <= MAX
    ensures var pages := NewPagination(1, size, total).value.totalPages;
            && pages >= 0
            && (0 <= x < total ==> exists p :: 1 <= p <= pages && InPage(x, p, size))
            && (forall p, q | 1 <= p <= pages && 1 <= q <= pages && InPage(x, p, size) && InPage(x, q, size) :: p == q)
            && (forall p | 1 <= p <= pages :: 0 <= Offset(p, size) < total && InPage(Offset(p, size), p, size))
  {
    var pages := NewPagination(1, size, total).value.totalPages;
    TotalPagesIsCeiling(1, size, total);
    PagesNotNegative(pages, size, total);
    forall p | 1 <= p <= pages ensures 0 <= Offset(p, size) == (p - 1) * size < total {
      PagesSame(1, p, size, total);
      OffsetInside(p, size, total);
    }
    forall p, q | 1 <= p <= pages && 1 <= q <= pages && InPage(x, p, size) && InPage(x, q, size) ensures p == q {
      PageUnique(p, q, size, x);
    }
    if 0 <= x < total {
      var p := PageOf(pages, size, total, x);
      assert InPage(x, p, size);
    }
  }

  // The page count does not depend on the page asked for.
  lemma PagesSame(p: int, q: int, size: int, total: int)
    requires size != 0
    ensures NewPagination(p, size, total).value.totalPages == NewPagination(q, size, total).value.totalPages
  {
  }

  /** There is a next page exactly if items remain after this one. */
  lemma HasNextMeaning(page: int, size: int, total: int)
    requires 1 <= size <= MAX && 0 <= total && total + size - 1 <= MAX
    ensures var p := NewPagination(page, size, total).value;
            p.page == page && p.pageSize == size && p.total == total && (p.hasNext <==> page * size < total)
  {
    var pages := NewPagination(page, size, total).value.totalPages;
    TotalPagesIsCeiling(page, size, total);
    if page < pages {
      Monotone(page, pages - 1, size);
    } else {
      Monotone(pages, page, size);
    }
  }

  /** Up to the last page, there is a previous page exactly if items come before this one. */
  lemma HasPrevMeaning(page: int, size: int, total: int)
    requires 1 <= size <= MAX && 0 <= total && total + size - 1 <= MAX
    requires 1 <= page <= NewPagination(page, size, total).value.totalPages
    ensures NewPagination(page, size, total).value.hasPrev <==> Offset(page, size) > 0
  {
    OffsetInside(page, size, total);
    if page > 1 {
      Monotone(1, page - 1, size);
    }
  }

  /** The offset of a page is exact only while it fits 64 bits: a request may be valid and still ask for a page whose offset wraps. */
  lemma OffsetExactIff(page: int, size: int)
    requires 1 <= page <= MAX && 1 <= size <= MAX
    ensures Offset(page, size) == (page - 1) * size <==> (page - 1) * size <= MAX
  {
  }
}

/**
 * Offset/limit pagination of a sorted result, with the total element count
 * and the total page count a page reports.
 */
module Paging {

  /** A page request: zero-based page index and page size. */
  datatype Pageable = PageRequest(pageNumber: nat, pageSize: nat)

  /** What `PageRequest.of` accepts: a non-negative index (by type) and a size of at least one. */
  predicate Valid(p: Pageable) {
    p.pageSize >= 1
  }

  /** Index of the first element of the requested page. */
  function Offset(p: Pageable): nat {
    p.pageNumber * p.pageSize
  }

  /** One page of a result: its content, the request it answers and the size of the whole result. */
  datatype Page<T> = Page(content: seq<T>, pageable: Pageable, totalElements: nat)

  function Min(a: int, b: int): int {
    if a <= b then a else b
  }

  /** Number of pages: the total divided by the page size, rounded up. */
  function TotalPages<T>(p: Page<T>): (n: nat)
    requires Valid(p.pageable)
    ensures n * p.pageable.pageSize >= p.totalElements
    ensures n > 0 ==> (n - 1) * p.pageable.pageSize < p.totalElements
  {
    var size := p.pageable.pageSize;
    var n := (p.totalElements + size - 1) / size;
    assert n * size + (p.totalElements + size - 1) % size == p.totalElements + size - 1;
    assert (n - 1) * size == n * size - size;
    n
  }

  /**
   * The page `pageable` asks for out of the whole sorted result `all`: the
   * elements at offsets `[page * size, page * size + size)` that exist.
   */
  function PageOf<T>(all: seq<T>, pageable: Pageable): (p: Page<T>)
    requires Valid(pageable)
    ensures p.pageable == pageable && p.totalElements == |all|
    ensures |p.content| <= pageable.pageSize
    ensures Offset(pageable) >= |all| ==> p.content == []
    ensures Offset(pageable) < |all| ==>
              |p.content| == Min(pageable.pageSize, |all| - Offset(pageable))
    ensures forall i :: 0 <= i < |p.content| ==>
              Offset(pageable) + i < |all| && p.content[i] == all[Offset(pageable) + i]
  {
    var from := Min(Offset(pageable), |all|);
    var to := Min(Offset(pageable) + pageable.pageSize, |all|);
    Page(all[from..to], pageable, |all|)
  }

  /** Element `i` of the result is element `i % size` of page `i / size`. */
  lemma PageContains<T>(all: seq<T>, size: nat, i: nat)
    requires size >= 1 && i < |all|
    ensures var p := PageOf(all, PageRequest(i / size, size));
            i % size < |p.content| && p.content[i % size] == all[i]
  {
    var req := PageRequest(i / size, size);
    assert Offset(req) + i % size == i;
  }

  /** The contents of pages `0 .. n-1` laid end to end. */
  function PagesUpTo<T>(all: seq<T>, size: nat, n: nat): seq<T>
    requires size >= 1
  {
    if n == 0 then [] else PagesUpTo(all, size, n - 1) + PageOf(all, PageRequest(n - 1, size)).content
  }

  lemma MulSucc(n: nat, size: nat)
    requires n > 0
    ensures n * size == (n - 1) * size + size
  {
  }

  /**
   * `content` is exactly what `pageable` asks for out of `all`: the elements
   * at offsets `[page * size, page * size + size)`, cut off at the end.
   */
  ghost predicate IsRequestedSlice<T>(content: seq<T>, all: seq<T>, pageable: Pageable) {
    content == all[Min(Offset(pageable), |all|)..Min(Offset(pageable) + pageable.pageSize, |all|)]
  }

  lemma PageIsSlice<T>(all: seq<T>, pageable: Pageable)
    requires Valid(pageable)
    ensures PageOf(all, pageable).content
         == all[Min(Offset(pageable), |all|)..Min(Offset(pageable) + pageable.pageSize, |all|)]
    ensures IsRequestedSlice(PageOf(all, pageable).content, all, pageable)
  {
  }

  lemma PrefixExtend<T>(all: seq<T>, from: int, to: int)
    requires 0 <= from <= to <= |all|
    ensures all[..from] + all[from..to] == all[..to]
  {
  }

  /** The first `n` pages are exactly the first `n * size` elements (or all of them). */
  lemma {:induction false} PagesUpToPrefix<T>(all: seq<T>, size: nat, n: nat)
    requires size >= 1
    ensures PagesUpTo(all, size, n) == all[..Min(n * size, |all|)]
  {
    if n > 0 {
      var lo := (n - 1) * size;
      var from, to := Min(lo, |all|), Min(lo + size, |all|);
      PagesUpToPrefix(all, size, n - 1);
      PageIsSlice(all, PageRequest(n - 1, size));
      PrefixExtend(all, from, to);
      MulSucc(n, size);
      assert PagesUpTo(all, size, n) == all[..from] + all[from..to];
    }
  }

  /**
   * Pages `0 .. TotalPages - 1` together hold the whole result, each element
   * once and in order: no row is skipped or repeated by paging through.
   */
  lemma AllPagesCoverResult<T>(all: seq<T>, size: nat)
    requires size >= 1
    ensures PagesUpTo(all, size, TotalPages(PageOf(all, PageRequest(0, size)))) == all
  {
    var n := TotalPages(PageOf(all, PageRequest(0, size)));
    PagesUpToPrefix(all, size, n);
    assert Min(n * size, |all|) == |all|;
  }
}

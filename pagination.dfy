/** Page-number pagination over an already ordered result. The pagination
    helper of the store layer is not part of this model; Paginate states the
    behaviour the row listing relies on, as an assumption: page p of size l is
    the slice [(p-1)*l, p*l) of the ordered rows, there is a previous page when
    p > 1 and a next page when p*l is below the total. */
module Pagination {

  datatype Page<T> = Page(items: seq<T>, page: nat, limit: nat, hasNextPage: bool, hasPrevPage: bool)

  function Min(a: int, b: int): int {
    if a <= b then a else b
  }

  /** The assumed page of `s`. */
  function Paginate<T>(s: seq<T>, page: nat, limit: nat): (p: Page<T>)
    requires page >= 1 && limit >= 1
    ensures p.page == page && p.limit == limit
    ensures |p.items| <= limit
    ensures forall i :: 0 <= i < |p.items| ==> (page - 1) * limit + i < |s| && p.items[i] == s[(page - 1) * limit + i]
  {
    var start := (page - 1) * limit;
    SliceFrom(s, start, limit);
    Page(s[Min(start, |s|)..Min(start + limit, |s|)], page, limit, page * limit < |s|, page > 1)
  }

  /** The at most `limit` elements of `s` from index `start` on. */
  lemma SliceFrom<T>(s: seq<T>, start: nat, limit: nat)
    ensures var w := s[Min(start, |s|)..Min(start + limit, |s|)];
      && |w| <= limit
      && forall i :: 0 <= i < |w| ==> start + i < |s| && w[i] == s[start + i]
  {
  }

  /** The items of pages 1 to n, in order: what a client that fetches page
      after page has seen. */
  function Pages<T>(s: seq<T>, n: nat, limit: nat): seq<T>
    requires limit >= 1
  {
    if n == 0 then [] else Pages(s, n - 1, limit) + Paginate(s, n, limit).items
  }

  /** The first n pages together are exactly the first n*limit rows: pages
      neither overlap nor leave gaps. */
  lemma {:induction false} PagesPrefix<T>(s: seq<T>, n: nat, limit: nat)
    requires limit >= 1
    ensures Pages(s, n, limit) == s[..Min(n * limit, |s|)]
  {
    if n > 0 {
      PagesPrefix(s, n - 1, limit);
      MulStep(n, limit);
      SliceJoin(s, Min((n - 1) * limit, |s|), Min(n * limit, |s|));
    }
  }

  lemma SliceJoin<T>(s: seq<T>, lo: nat, hi: nat)
    requires lo <= hi <= |s|
    ensures s[..lo] + s[lo..hi] == s[..hi]
  {
  }

  lemma MulStep(n: nat, limit: nat)
    requires n >= 1
    ensures n * limit == (n - 1) * limit + limit
  {
  }

  /** A page that reports no next page ends the walk, and by then every row
      has been seen exactly once, in order. */
  lemma LastPageEndsWalk<T>(s: seq<T>, n: nat, limit: nat)
    requires n >= 1 && limit >= 1
    requires !Paginate(s, n, limit).hasNextPage
    ensures Pages(s, n, limit) == s
  {
    PagesPrefix(s, n, limit);
    assert s[..|s|] == s;
  }

  /** A page that reports a next page is followed by a non-empty page. */
  lemma NextPageNonEmpty<T>(s: seq<T>, n: nat, limit: nat)
    requires n >= 1 && limit >= 1
    requires Paginate(s, n, limit).hasNextPage
    ensures |Paginate(s, n + 1, limit).items| > 0
  {
  }

  /** Stepping back from a non-empty page that reports a previous page lands
      on a full page. */
  lemma PrevPageFull<T>(s: seq<T>, n: nat, limit: nat)
    requires n >= 1 && limit >= 1
    requires Paginate(s, n, limit).hasPrevPage && |Paginate(s, n, limit).items| > 0
    ensures n - 1 >= 1 && |Paginate(s, n - 1, limit).items| == limit
  {
  }
}

/** The page arithmetic of `search` and `discover`: a limit and an offset turned into a page number
    and a page size.
 */
module Paging {
  import opened Positional

  function PageSize(limit: int): (k: int)
    ensures k >= 1
  {
    if limit < 1 then 1 else limit
  }

  function Page(limit: int, offset: int): int {
    var p := offset / PageSize(limit) + 1;
    if p < 1 then 1 else p
  }

  /** The TypeScript client clamps the offset instead of the page. */
  function TypeScriptPage(limit: int, offset: int): int {
    (if offset < 0 then 0 else offset) / PageSize(limit) + 1
  }

  /** Page `p` of size `k` shows the items from `(p - 1) * k` on. */
  predicate InPage(p: int, k: int, index: int) {
    (p - 1) * k <= index < p * k
  }

  lemma NextProduct(q: int, k: int)
    ensures (q + 1) * k == q * k + k
  {
  }

  /** A quotient has the sign of its dividend, and its page holds the dividend. */
  lemma QuotientBounds(x: int, k: int)
    requires k >= 1
    ensures InPage(x / k + 1, k, x)
    ensures x >= 0 <==> x / k >= 0
  {
    DivMod(x, k);
    NextProduct(x / k, k);
    if x >= 0 && x / k < 0 {
      MulMonotone(x / k + 1, 0, k);
    } else if x < 0 && x / k >= 0 {
      MulMonotone(0, x / k, k);
    }
  }

  lemma SamePage(p: int, q: int, k: int, x: int)
    requires k >= 1 && InPage(p, k, x) && InPage(q, k, x)
    ensures p == q
  {
    NextProduct(p - 1, k);
    NextProduct(q - 1, k);
    QuotientRemainderUnique(p - 1, x - (p - 1) * k, q - 1, x - (q - 1) * k, k);
  }

  /** The page asked for is the only one that shows the offset; a negative offset asks for the
      first. Both clients ask for the same page. */
  lemma PageShowsOffset(limit: int, offset: int, p: int)
    ensures offset >= 0 ==> (InPage(p, PageSize(limit), offset) <==> p == Page(limit, offset))
    ensures offset >= 0 && limit >= 1 ==> (InPage(p, limit, offset) <==> p == Page(limit, offset))
    ensures offset >= 0 && limit < 1 ==> Page(limit, offset) == offset + 1
    ensures offset < 0 ==> Page(limit, offset) == 1
    ensures TypeScriptPage(limit, offset) == Page(limit, offset)
  {
    var k := PageSize(limit);
    QuotientBounds(offset, k);
    QuotientBounds(0, k);
    assert InPage(1, k, 0);
    SamePage(1, 0 / k + 1, k, 0);
    if offset >= 0 && InPage(p, k, offset) {
      SamePage(p, offset / k + 1, k, offset);
    }
  }

  /** The items a page shows; pages behind the end are empty. */
  function Window<T>(catalogue: seq<T>, p: int, k: int): seq<T>
    requires p >= 1 && k >= 1
  {
    MulMonotone(1, p, k);
    var from, to := (p - 1) * k, p * k;
    assert 0 <= from <= to by { MulMonotone(0, p - 1, k); MulMonotone(p - 1, p, k); }
    if to <= |catalogue| then catalogue[from..to]
    else if from <= |catalogue| then catalogue[from..]
    else []
  }

  /** The results of `n` searches that start at offset 0 and step it by the page size. */
  function Walk<T>(catalogue: seq<T>, limit: int, n: nat): seq<T> {
    if n == 0 then []
    else
      Walk(catalogue, limit, n - 1) + Window(catalogue, Page(limit, (n - 1) * PageSize(limit)), PageSize(limit))
  }

  /** Stepping the offset by the page size visits the pages 1, 2, 3, ... */
  lemma StepVisitsNextPage(limit: int, n: nat)
    ensures Page(limit, n * PageSize(limit)) == n + 1
  {
    var k := PageSize(limit);
    MulMonotone(0, n, k);
    assert (n + 1 - 1) * k == n * k;
    assert (n + 1) * k == n * k + k;
    assert InPage(n + 1, k, n * k);
    PageShowsOffset(limit, n * k, n + 1);
  }

  /** The first `n` items, or all there are. */
  function Upto<T>(catalogue: seq<T>, n: int): seq<T> {
    if n < 0 then [] else if n <= |catalogue| then catalogue[..n] else catalogue
  }

  lemma NextWindow<T>(catalogue: seq<T>, n: nat, k: int)
    requires n >= 1 && k >= 1
    ensures Upto(catalogue, (n - 1) * k) + Window(catalogue, n, k) == Upto(catalogue, n * k)
  {
    var from, to := (n - 1) * k, n * k;
    assert to == from + k;
    MulMonotone(0, n - 1, k);
    if to <= |catalogue| {
      assert catalogue[..from] + catalogue[from..to] == catalogue[..to];
    } else if from <= |catalogue| {
      assert catalogue[..from] + catalogue[from..] == catalogue;
    }
  }

  /** So the walk shows the catalogue in order with no gap and no item twice, and enough steps show
      all of it. */
  lemma {:induction false} WalkIsCatalogue<T>(catalogue: seq<T>, limit: int, n: nat)
    ensures Walk(catalogue, limit, n) == Upto(catalogue, n * PageSize(limit))
  {
    if n == 0 {
    } else {
      WalkIsCatalogue(catalogue, limit, n - 1);
      StepVisitsNextPage(limit, n - 1);
      NextWindow(catalogue, n, PageSize(limit));
    }
  }

  /** A positive limit is the page size; any other shows one item a page. */
  lemma WalkByLimit<T>(catalogue: seq<T>, limit: int, n: nat)
    ensures limit >= 1 ==> Walk(catalogue, limit, n) == Upto(catalogue, n * limit)
    ensures limit < 1 ==> Walk(catalogue, limit, n) == Upto(catalogue, n)
  {
    WalkIsCatalogue(catalogue, limit, n);
  }

  /** After enough steps the walk has shown the whole catalogue. */
  lemma WalkShowsAll<T>(catalogue: seq<T>, limit: int, n: nat)
    requires n >= |catalogue|
    ensures Walk(catalogue, limit, n) == catalogue
  {
    WalkIsCatalogue(catalogue, limit, n);
    MulMonotone(1, PageSize(limit), n);
    assert n * PageSize(limit) >= |catalogue|;
  }
}

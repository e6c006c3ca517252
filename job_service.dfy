/** The job service: client-side pagination of the full result list that the
    remote-jobs API returns (`fetchJobs`), and the category list for the filter
    control (`fetchJobFilters`). The HTTP GET itself is not modelled: its outcome is
    the `HttpResponse` argument. The search term and category of `fetchJobs` only
    parametrise that request, so they do not appear here. */
module JobService {
  import opened Listing
  import opened StringOrder

  /** The page size the board asks for, and the default of `fetchJobs`. */
  const PageSize: nat := 12

  function Min(a: int, b: int): int
  {
    if a <= b then a else b
  }

  function Max(a: int, b: int): int
  {
    if a <= b then b else a
  }

  // ---------------------------------------------------------------------------
  // Pagination

  /** Where `Array.prototype.slice` puts a start or end argument: a negative
      argument counts back from the end, and the result is clamped to the array. */
  function SliceIndex(i: int, len: nat): (r: nat)
    ensures r <= len
  {
    if i < 0 then Max(len + i, 0) else Min(i, len)
  }

  /** A non-negative argument is cut off at the length; a negative one is that many
      positions back from the end, or the start when it reaches past it. */
  lemma SliceIndexClamps(i: int, len: nat)
    ensures 0 <= i ==> SliceIndex(i, len) == Min(i, len)
    ensures i < 0 ==> SliceIndex(i, len) + Min(-i, len) == len
  {
  }

  /** Two arguments of the same sign keep their order as positions, and end up no
      further apart than they were. (Across signs the order can flip: -1 is the last
      position, 0 the first.) */
  lemma SliceIndexMonotone(i: int, j: int, len: nat)
    requires 0 <= i <= j || i <= j < 0
    ensures SliceIndex(i, len) <= SliceIndex(j, len) <= SliceIndex(i, len) + (j - i)
  {
  }

  /** `s.slice(start, end)`. */
  function JsSlice<T>(s: seq<T>, start: int, end: int): (r: seq<T>)
    ensures |r| <= |s|
    ensures start <= end ==> |r| <= end - start
  {
    var from, to := SliceIndex(start, |s|), SliceIndex(end, |s|);
    if from < to then s[from..to] else []
  }

  /** With both arguments non-negative, `slice` takes the elements from `start` up to
      `end`, each cut off at the length. */
  lemma JsSliceFromStart<T>(s: seq<T>, start: int, end: int)
    requires 0 <= start <= end
    ensures JsSlice(s, start, end) == s[Min(start, |s|)..Min(end, |s|)]
  {
  }

  /** With both arguments negative, `slice` counts them back from the end. */
  lemma JsSliceFromEnd<T>(s: seq<T>, start: int, end: int)
    requires start <= end < 0
    ensures JsSlice(s, start, end) == s[Max(|s| + start, 0)..Max(|s| + end, 0)]
  {
  }

  /** `Math.ceil(n / d)`: the fewest blocks of `d` that hold `n` items. */
  function CeilDiv(n: nat, d: nat): (r: nat)
    requires d > 0
    ensures (r - 1) * d < n <= r * d
  {
    var q := n / d;
    assert n == q * d + n % d;
    if n % d == 0 then q else q + 1
  }

  /** The object `fetchJobs` resolves to. */
  datatype PageResult = PageResult(jobs: seq<Job>, totalJobs: nat, totalPages: nat, currentPage: int)

  /** `response.data?.jobs || []`: a missing body or a missing `jobs` field is the empty list. */
  function AllJobs(data: Option<ResponseData>): (r: seq<Job>)
    ensures data.Some? && data.value.jobs.Some? ==> r == data.value.jobs.value
    ensures data.None? || data.value.jobs.None? ==> r == []
  {
    if data.Some? && data.value.jobs.Some? then data.value.jobs.value else []
  }

  /** The pagination step of `fetchJobs`: page `page` (1-based) of size `limit`,
      the number of jobs and the number of pages. */
  function Paginate(all: seq<Job>, page: int, limit: nat): (r: PageResult)
    requires limit > 0
    ensures |r.jobs| <= limit
    ensures r.totalJobs == |all| && r.currentPage == page
    ensures (r.totalPages - 1) * limit < |all| <= r.totalPages * limit
  {
    var startIndex := (page - 1) * limit;
    var endIndex := startIndex + limit;
    PageResult(JsSlice(all, startIndex, endIndex), |all|, CeilDiv(|all|, limit), page)
  }

  /** `fetchJobs`: a failed request is rethrown; otherwise the fetched list is paginated. */
  function FetchJobs(response: HttpResponse, page: int, limit: nat): (r: Result<PageResult>)
    requires limit > 0
    ensures r.Failure? <==> response.Failed?
    ensures r.Success? ==> r.value == Paginate(AllJobs(response.data), page, limit)
  {
    match response
    case Failed => Failure
    case Received(data) => Success(Paginate(AllJobs(data), page, limit))
  }

  lemma MulMonotone(a: int, b: int, d: nat)
    requires a <= b
    ensures a * d <= b * d
  {
    assert b * d - a * d == (b - a) * d;
  }

  /** For a page from 1 up, the page is the contiguous run of the fetched list from
      `(page - 1) * limit`, cut off at the end of the list, in the upstream order. */
  lemma PageIsClampedSlice(all: seq<Job>, page: int, limit: nat)
    requires limit > 0 && page >= 1
    ensures var s := (page - 1) * limit;
            s >= 0 && Paginate(all, page, limit).jobs == all[Min(s, |all|)..Min(s + limit, |all|)]
  {
    MulMonotone(0, page - 1, limit);
  }

  /** Element `i` of page `page` is element `(page - 1) * limit + i` of the fetched list. */
  lemma PageElement(all: seq<Job>, page: int, limit: nat, i: nat)
    requires limit > 0 && page >= 1
    requires i < |Paginate(all, page, limit).jobs|
    ensures (page - 1) * limit + i < |all|
    ensures Paginate(all, page, limit).jobs[i] == all[(page - 1) * limit + i]
  {
    PageIsClampedSlice(all, page, limit);
  }

  /** There are no pages exactly when nothing was fetched. */
  lemma NoPagesIffNoJobs(all: seq<Job>, page: int, limit: nat)
    requires limit > 0
    ensures Paginate(all, page, limit).totalPages == 0 <==> all == []
  {
    var t := Paginate(all, page, limit).totalPages;
    if all == [] {
      assert (t - 1) * limit < 0;
      if t >= 1 {
        MulMonotone(0, t - 1, limit);
      }
    }
  }

  /** A page after the last one (`totalPages` is `CeilDiv(|all|, limit)`) is empty, and asking for it is not an error. */
  lemma PageBeyondLastIsEmpty(all: seq<Job>, page: int, limit: nat)
    requires limit > 0
    requires page > CeilDiv(|all|, limit)
    ensures Paginate(all, page, limit).jobs == []
  {
    var t := CeilDiv(|all|, limit);
    MulMonotone(t, page - 1, limit);
    PageIsClampedSlice(all, page, limit);
  }

  /** Pages 1 to `k`, one after the other. */
  function PagesThrough(all: seq<Job>, k: nat, limit: nat): (r: seq<Job>)
    requires limit > 0
    ensures |r| <= k * limit
  {
    if k == 0 then []
    else
      var r := PagesThrough(all, k - 1, limit) + Paginate(all, k, limit).jobs;
      assert (k - 1) * limit + limit == k * limit;
      r
  }

  lemma MulStep(k: int, d: int)
    ensures k * d == (k - 1) * d + d
  {
  }

  lemma {:induction false} PagesThroughIsPrefix(all: seq<Job>, k: nat, limit: nat)
    requires limit > 0
    ensures k * limit >= 0
    ensures PagesThrough(all, k, limit) == all[..Min(k * limit, |all|)]
  {
    MulMonotone(0, k, limit);
    if k > 0 {
      var prev, next := (k - 1) * limit, k * limit;
      MulStep(k, limit);
      PagesThroughIsPrefix(all, k - 1, limit);
      PageIsClampedSlice(all, k, limit);
      var a, b := Min(prev, |all|), Min(next, |all|);
      assert Paginate(all, k, limit).jobs == all[a..b];
      assert PagesThrough(all, k, limit) == all[..a] + all[a..b];
      assert all[..a] + all[a..b] == all[..b];
    }
  }

  /** Reading pages 1 to `totalPages` (which is `CeilDiv(|all|, limit)`) in turn gives back the fetched list: no job is
      dropped or repeated. */
  lemma PagesReassembleList(all: seq<Job>, limit: nat)
    requires limit > 0
    ensures PagesThrough(all, CeilDiv(|all|, limit), limit) == all
  {
    PagesThroughIsPrefix(all, CeilDiv(|all|, limit), limit);
    assert all[..|all|] == all;
  }

  /** Thirteen jobs twelve to a page make two pages, of twelve and of one. */
  lemma ThirteenJobsMakeTwoPages(all: seq<Job>)
    requires |all| == 13
    ensures Paginate(all, 1, PageSize).totalPages == 2
    ensures Paginate(all, 1, PageSize).jobs == all[..12]
    ensures Paginate(all, 2, PageSize).jobs == all[12..]
    ensures |Paginate(all, 2, PageSize).jobs| == 1
  {
  }

  /** Page 0 is empty, but a negative page is not: `slice` counts negative indices
      from the end, so page -1 of thirty jobs is jobs 6 to 17. */
  lemma NegativePageCountsFromEnd(all: seq<Job>)
    requires |all| == 30
    ensures Paginate(all, 0, PageSize).jobs == []
    ensures Paginate(all, -1, PageSize).jobs == all[6..18]
  {
  }

  /** For a page of 0 or less the start index is negative, so `slice` counts it
      from the end: page 0 is empty, and page `p < 0` is the run of `limit` jobs
      that ends `(-p) * limit` jobs before the end, cut off at the start. */
  lemma NonPositivePageCountsFromEnd(all: seq<Job>, page: int, limit: nat)
    requires limit > 0 && page <= 0
    ensures var s := (page - 1) * limit;
            Paginate(all, page, limit).jobs ==
              if s + limit == 0 then [] else all[Max(|all| + s, 0)..Max(|all| + s + limit, 0)]
  {
    MulMonotone(page - 1, -1, limit);
    if page < 0 {
      JsSliceFromEnd(all, (page - 1) * limit, (page - 1) * limit + limit);
    }
  }

  /** A body without a `jobs` field is read as an empty list. */
  lemma MissingJobsReadAsEmpty(data: Option<ResponseData>, page: int, limit: nat)
    requires limit > 0
    requires data.None? || data.value.jobs.None?
    ensures FetchJobs(Received(data), page, limit) == Success(PageResult([], 0, 0, page))
  {
    NoPagesIffNoJobs([], page, limit);
  }

  // ---------------------------------------------------------------------------
  // Categories

  /** Every truthy `category` among the jobs. */
  ghost function CategorySet(jobs: seq<Job>): set<string>
  {
    set j | j in jobs && Truthy(j.category) :: j.category.value
  }

  /** What the filter control is given: each category of `jobs` once, ascending in
      code-unit order. */
  ghost predicate IsCategoryList(jobs: seq<Job>, categories: seq<string>)
  {
    && StrictlyAscending(categories)
    && NoDuplicates(categories)
    && (forall c :: c in categories <==> c in CategorySet(jobs))
  }

  lemma CategorySetAppend(jobs: seq<Job>, j: Job)
    ensures CategorySet(jobs + [j]) == CategorySet(jobs) + (if Truthy(j.category) then {j.category.value} else {})
  {
    forall c | c in CategorySet(jobs + [j])
      ensures c in CategorySet(jobs) + (if Truthy(j.category) then {j.category.value} else {})
    {
      var k :| k in jobs + [j] && Truthy(k.category) && k.category.value == c;
      if k != j {
        assert k in jobs;
      }
    }
  }

  /** `fetchJobFilters`: collects the truthy categories of the fetched jobs into a
      `Set` (kept here as a duplicate-free sequence in insertion order) and sorts
      them. It reads `response.data.jobs` without a fallback, so a missing body or
      `jobs` field throws, like a failed request. */
  method FetchJobFilters(response: HttpResponse) returns (r: Result<seq<string>>)
    ensures r.Failure? <==> (response.Failed? || response.data.None? || response.data.value.jobs.None?)
    ensures r.Success? ==> IsCategoryList(response.data.value.jobs.value, r.value)
  {
    if response.Failed? || response.data.None? || response.data.value.jobs.None? {
      return Failure;
    }
    var jobs := response.data.value.jobs.value;
    var categories: seq<string> := [];
    for i := 0 to |jobs|
      invariant NoDuplicates(categories)
      invariant forall c :: c in categories <==> c in CategorySet(jobs[..i])
    {
      var job := jobs[i];
      CategorySetAppend(jobs[..i], job);
      assert jobs[..i + 1] == jobs[..i] + [job];
      if Truthy(job.category) && job.category.value !in categories {
        categories := categories + [job.category.value];
      }
    }
    assert jobs[..|jobs|] == jobs;
    var sorted := SortStrings(categories);
    PermutationKeepsNoDuplicates(categories, sorted);
    SortedDistinctIsAscending(sorted);
    forall c
      ensures c in sorted <==> c in categories
    {
      assert c in sorted <==> c in multiset(sorted);
      assert c in categories <==> c in multiset(categories);
    }
    return Success(sorted);
  }

  /** The category list does not depend on the order in which the API lists the jobs. */
  lemma CategoryListIgnoresOrder(xs: seq<Job>, ys: seq<Job>, a: seq<string>, b: seq<string>)
    requires multiset(xs) == multiset(ys)
    requires IsCategoryList(xs, a) && IsCategoryList(ys, b)
    ensures a == b
  {
    forall j
      ensures j in xs <==> j in ys
    {
      assert j in xs <==> j in multiset(xs);
      assert j in ys <==> j in multiset(ys);
    }
    assert CategorySet(xs) == CategorySet(ys);
    AscendingUnique(a, b);
  }
}

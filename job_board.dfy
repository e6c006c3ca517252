/** The job board's view state: the fields the component keeps (current page, page
    count, search term, category, the jobs on show, the category list, the loading
    flag), the handlers that update them, the sliding window of page numbers in the
    pagination control, and the two display rules for a job (apply link, salary). */
module JobBoard {
  import opened Listing
  import opened JobService

  /** How many page numbers the control shows on each side of the current page. */
  const Delta: int := 2

  /** The page numbers `getPaginationItems` lists: every page within `Delta` of the
      current one that exists, ascending. */
  function PageWindow(page: int, totalPages: int): (r: seq<int>)
    ensures forall k :: k in r <==> 1 <= k <= totalPages && page - Delta <= k <= page + Delta
    ensures forall i :: 0 < i < |r| ==> r[i] == r[i - 1] + 1
  {
    var lo, hi := Max(1, page - Delta), Min(totalPages, page + Delta);
    if lo <= hi then
      var r := seq(hi - lo + 1, i => lo + i);
      ConsecutiveRun(lo, r);
      r
    else []
  }

  lemma ConsecutiveRun(lo: int, r: seq<int>)
    requires forall i :: 0 <= i < |r| ==> r[i] == lo + i
    ensures forall k :: k in r <==> lo <= k < lo + |r|
  {
    forall k | lo <= k < lo + |r|
      ensures k in r
    {
      assert r[k - lo] == k;
    }
  }

  /** The window holds at most five pages, all of them existing pages. */
  lemma WindowBounds(page: int, totalPages: int)
    ensures |PageWindow(page, totalPages)| <= 2 * Delta + 1
    ensures forall k :: k in PageWindow(page, totalPages) ==> 1 <= k <= totalPages
  {
    var r := PageWindow(page, totalPages);
    if r != [] {
      WindowRun(r, |r| - 1);
      assert r[0] in r && r[|r| - 1] in r;
    }
  }

  lemma {:induction false} WindowRun(r: seq<int>, i: nat)
    requires forall j :: 0 < j < |r| ==> r[j] == r[j - 1] + 1
    requires i < |r|
    ensures r[i] == r[0] + i
  {
    if i > 0 {
      WindowRun(r, i - 1);
    }
  }

  /** With no pages the control lists no page numbers. */
  lemma WindowEmptyWithoutPages(page: int)
    ensures PageWindow(page, 0) == []
  {
  }

  /** An existing current page is always in the window, and the window starts at
      `max(1, page - 2)`. */
  lemma WindowHoldsCurrentPage(page: int, totalPages: int)
    requires 1 <= page <= totalPages
    ensures page in PageWindow(page, totalPages)
    ensures PageWindow(page, totalPages)[0] == Max(1, page - Delta)
  {
  }

  /** The referral parameter appended to every apply link. */
  const Referral: string := "?via=tung"

  /** The apply link of a job: its URL followed by the referral parameter. */
  function ApplyUrl(url: string): (r: string)
    ensures |r| == |url| + |Referral|
    ensures r[..|url|] == url && r[|url|..] == Referral
  {
    url + Referral
  }

  /** Different jobs' URLs give different apply links. */
  lemma ApplyUrlInjective(a: string, b: string)
    requires ApplyUrl(a) == ApplyUrl(b)
    ensures a == b
  {
    assert |a| == |b|;
    assert a == ApplyUrl(a)[..|a|];
  }

  /** What the salary line shows: the salary when it is a non-empty string,
      otherwise "Not Provided". */
  function SalaryText(salary: Option<string>): (r: string)
    ensures Truthy(salary) ==> r == salary.value
    ensures !Truthy(salary) ==> r == "Not Provided"
  {
    if Truthy(salary) then salary.value else "Not Provided"
  }

  /** The salary line is never the empty string. */
  lemma SalaryTextNeverEmpty(salary: Option<string>)
    ensures SalaryText(salary) != ""
  {
  }

  /** Since the board's page is never below 1 (`JobBoardState.Valid`), the jobs
      `LoadJobs` shows are jobs `(page - 1) * 12` up to `page * 12` of the fetched
      list, cut off at its end. */
  lemma ShownPageIsClampedSlice(all: seq<Job>, page: int)
    requires page >= 1
    ensures 0 <= (page - 1) * 12
    ensures Paginate(all, page, 12).jobs == all[Min((page - 1) * 12, |all|)..Min(page * 12, |all|)]
  {
    PageIsClampedSlice(all, page, 12);
  }

  class JobBoardState {
    var jobs: seq<Job>
    var searchTerm: string
    var category: string
    var categories: seq<string>
    var page: int
    var totalPages: nat
    var loading: bool

    /** The current page is never below 1: it starts at 1 and is only ever set to 1
        or to a page the guard in `HandlePagination` accepts. Nothing keeps it at or
        below `totalPages` after a fetch shrinks the page count. */
    ghost predicate Valid()
      reads this
    {
      page >= 1
    }

    /** The state on first render. */
    constructor ()
      ensures Valid()
      ensures jobs == [] && searchTerm == "" && category == "" && categories == []
      ensures page == 1 && totalPages == 1 && !loading
    {
      jobs := [];
      searchTerm := "";
      category := "";
      categories := [];
      page := 1;
      totalPages := 1;
      loading := false;
    }

    /** `getPaginationItems`: pushes the page numbers from `max(1, page - 2)` up to
        `min(totalPages, page + 2)`. */
    method GetPaginationItems() returns (pageNumbers: seq<int>)
      ensures forall k :: k in pageNumbers <==> 1 <= k <= totalPages && page - Delta <= k <= page + Delta
      ensures forall i :: 0 < i < |pageNumbers| ==> pageNumbers[i] == pageNumbers[i - 1] + 1
      ensures pageNumbers == PageWindow(page, totalPages)
    {
      pageNumbers := [];
      var startPage := Max(1, page - Delta);
      var endPage := Min(totalPages, page + Delta);
      var i := startPage;
      while i <= endPage
        invariant startPage <= i <= Max(startPage, endPage + 1)
        invariant |pageNumbers| == i - startPage
        invariant forall j :: 0 <= j < |pageNumbers| ==> pageNumbers[j] == startPage + j
      {
        pageNumbers := pageNumbers + [i];
        i := i + 1;
      }
      assert pageNumbers == PageWindow(page, totalPages);
    }

    /** `handlePagination`: moves to `selectedPage` only when it is an existing page;
        otherwise nothing changes. */
    method HandlePagination(selectedPage: int)
      requires Valid()
      modifies this
      ensures Valid()
      ensures page == (if 1 <= selectedPage <= totalPages then selectedPage else old(page))
      ensures totalPages == old(totalPages) && jobs == old(jobs) && loading == old(loading)
      ensures searchTerm == old(searchTerm) && category == old(category) && categories == old(categories)
    {
      if selectedPage >= 1 && selectedPage <= totalPages {
        page := selectedPage;
      }
    }

    /** `handleCategoryChange`: selects a category and goes back to the first page. */
    method HandleCategoryChange(value: string)
      requires Valid()
      modifies this
      ensures Valid()
      ensures category == value && page == 1
      ensures totalPages == old(totalPages) && jobs == old(jobs) && loading == old(loading)
      ensures searchTerm == old(searchTerm) && categories == old(categories)
    {
      category := value;
      page := 1;
    }

    /** Typing in the search box: only the search term changes; the page is kept. */
    method SetSearchTerm(value: string)
      requires Valid()
      modifies this
      ensures Valid()
      ensures searchTerm == value
      ensures page == old(page) && totalPages == old(totalPages) && jobs == old(jobs)
      ensures loading == old(loading) && category == old(category) && categories == old(categories)
    {
      searchTerm := value;
    }

    /** `loadJobs`, as one step: `response` is what the request for the current search
        term and category yields. On success the jobs on show become the current page
        of the fetched list and the page count is recomputed; on failure both are kept.
        Either way loading has finished. */
    method LoadJobs(response: HttpResponse)
      requires Valid()
      modifies this
      ensures Valid()
      ensures !loading
      ensures response.Failed? ==> jobs == old(jobs) && totalPages == old(totalPages)
      ensures response.Received? ==>
        && jobs == Paginate(AllJobs(response.data), page, 12).jobs
        && totalPages == Paginate(AllJobs(response.data), page, 12).totalPages
      ensures page == old(page) && searchTerm == old(searchTerm)
      ensures category == old(category) && categories == old(categories)
    {
      loading := true;
      var data := FetchJobs(response, page, 12);
      if data.Success? {
        jobs := data.value.jobs;
        totalPages := data.value.totalPages;
      }
      loading := false;
    }

    /** `loadFilters`: on success the category list is replaced by the fetched one;
        on failure (including a body without `jobs`) it is kept. */
    method LoadFilters(response: HttpResponse)
      requires Valid()
      modifies this
      ensures Valid()
      ensures response.Failed? || response.data.None? || response.data.value.jobs.None? ==>
        categories == old(categories)
      ensures response.Received? && response.data.Some? && response.data.value.jobs.Some? ==>
        IsCategoryList(response.data.value.jobs.value, categories)
      ensures jobs == old(jobs) && page == old(page) && totalPages == old(totalPages)
      ensures searchTerm == old(searchTerm) && category == old(category) && loading == old(loading)
    {
      var r := FetchJobFilters(response);
      if r.Success? {
        categories := r.value;
      }
    }
  }
}

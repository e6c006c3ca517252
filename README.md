# Remote job board: pagination, category filter and page controls

A model of the logic in the remote-jobs board (a React front end over the Remotive
jobs API). The API returns every job that matches a search term and a category. The
client slices that list into pages of twelve, counts the pages, and derives the
sorted list of categories for the filter control. The board component keeps the
current page, the page count, the search term, the category, the jobs on show and a
loading flag, and shows a sliding window of page numbers.

The model has four modules. Each file holds one module.

- `listing.dfy`, module `Listing`: the job record, the HTTP response shape
  (`Received(data)` or `Failed`) and JavaScript truthiness of optional string fields.
- `string_order.dfy`, module `StringOrder`: the order in which `Array.prototype.sort()`
  puts strings with no comparator. JavaScript compares strings by their UTF-16 code
  units. `CodeUnitsLess` over `Utf16` states that comparison directly. `Less` states
  it character by character, through a rank that puts supplementary characters
  between U+D7FF and U+E000. `LessIsCodeUnitOrder` proves the two agree. `Less` is
  proved to be a strict total order. `SortStrings` is an insertion sort that returns
  a sorted permutation. `AscendingUnique` proves that any correct sort of distinct
  strings gives this same result.
- `job_service.dfy`, module `JobService`: `fetchJobs` and `fetchJobFilters`. The
  request's outcome is a parameter. `JsSlice` models `Array.prototype.slice`,
  including how it counts negative indices from the end. `CeilDiv` models
  `Math.ceil(n / d)`. The category collection is the `forEach` loop over the jobs. The
  loop adds each category to a `Set`, kept here as a duplicate-free sequence in
  insertion order. The result is then sorted.
- `job_board.dfy`, module `JobBoard`: the page-number window, the apply link, the
  salary text, and the class `JobBoardState`. The class holds the component's fields.
  Its methods are the handlers and the two loaders.

Behaviour worth noting:

- A page number below 1 does not always give an empty page. `slice` counts negative
  indices from the end, so page -1 of thirty jobs is jobs 6 to 17
  (`NegativePageCountsFromEnd`). The board itself never asks for such a page: the
  current page starts at 1 and stays at least 1 (`JobBoardState.Valid`).
- Typing a search term does not reset the page. Only a category change does.
- Nothing clamps the current page when a new fetch gives fewer pages. The page can
  then be above `totalPages`.
- `fetchJobFilters` also fails on a response with no body or no `jobs` field,
  because it reads `response.data.jobs` without a fallback. `fetchJobs` reads the
  same response as an empty list.

## Model

| member | source | states |
|---|---|---|
| `StringOrder.Utf16` | src/services/JobService.js:53 | A string's UTF-16 encoding has between one and two code units per character |
| `StringOrder.CodeUnitsLess` | src/services/JobService.js:53 | JavaScript's code-unit comparison never puts a string before itself, and puts a proper prefix before any longer string |
| `StringOrder.LessIsCodeUnitOrder` | src/services/JobService.js:53 | The character-wise order `Less` holds exactly when JavaScript's code-unit comparison of the two strings' UTF-16 encodings does, so `Less` is the default sort order |
| `StringOrder.LessTransitive` | src/services/JobService.js:53 | The default string order is transitive |
| `StringOrder.LessTotal` | src/services/JobService.js:53 | Any two different strings are ordered one way or the other |
| `StringOrder.LessIrreflexive` | src/services/JobService.js:53 | No string is before itself |
| `StringOrder.Insert` | src/services/JobService.js:53 | Inserting into a sorted list keeps it sorted and adds exactly that one element |
| `StringOrder.SortStrings` | src/services/JobService.js:53 | `sort()` returns a permutation of its input that is sorted in code-unit order |
| `StringOrder.AscendingUnique` | src/services/JobService.js:53 | Two strictly ascending lists with the same elements are equal, so the sorted category list depends only on the set of categories |
| `JobService.SliceIndex` | src/services/JobService.js:28 | A `slice` argument becomes a position between 0 and the array length |
| `JobService.SliceIndexClamps` | src/services/JobService.js:28 | A non-negative `slice` argument is cut off at the length; a negative one counts that many positions back from the end, stopping at the start |
| `JobService.SliceIndexMonotone` | src/services/JobService.js:28 | Two `slice` arguments of the same sign keep their order as positions and end up no further apart than they were |
| `JobService.JsSlice` | src/services/JobService.js:28 | `slice` never returns more elements than the array has, nor more than `end - start` |
| `JobService.JsSliceFromStart` | src/services/JobService.js:28 | With `0 <= start <= end`, `slice` returns the elements from `start` up to `end`, each bound cut off at the length |
| `JobService.JsSliceFromEnd` | src/services/JobService.js:28 | With `start <= end < 0`, `slice` returns the elements from `length + start` up to `length + end`, each bound raised to 0 |
| `JobService.CeilDiv` | src/services/JobService.js:33 | `Math.ceil(n / d)` is the least `r` with `n <= r * d` |
| `JobService.AllJobs` | src/services/JobService.js:21 | A missing body or `jobs` field is the empty list; otherwise the fetched array |
| `JobService.Paginate` | src/services/JobService.js:24-34 | A page holds at most `limit` jobs; `totalJobs` is the list length; `currentPage` is the requested page; `totalPages` is the ceiling of length over `limit` |
| `JobService.FetchJobs` | src/services/JobService.js:6-40 | A failed request fails; any response paginates the list read from it |
| `JobService.PageIsClampedSlice` | src/services/JobService.js:24-28 | For a page of 1 or more, the page is the list from `(page - 1) * limit` to `(page - 1) * limit + limit`, each bound cut off at the list length |
| `JobService.PageElement` | src/services/JobService.js:24-28 | Item `i` of page `p` is item `(p - 1) * limit + i` of the fetched list, so the upstream order is kept |
| `JobService.NoPagesIffNoJobs` | src/services/JobService.js:33 | `totalPages` is 0 exactly when the fetched list is empty |
| `JobService.PageBeyondLastIsEmpty` | src/services/JobService.js:24-33 | A page above `totalPages` is empty rather than an error |
| `JobService.PagesThrough` | src/services/JobService.js:24-28 | Pages 1 to `k` together hold at most `k * limit` jobs |
| `JobService.PagesThroughIsPrefix` | src/services/JobService.js:24-33 | Pages 1 to `k` concatenated are the first `min(k * limit, length)` jobs of the list |
| `JobService.PagesReassembleList` | src/services/JobService.js:24-33 | Pages 1 to `totalPages` concatenated are exactly the fetched list, with no job dropped or repeated |
| `JobService.ThirteenJobsMakeTwoPages` | src/services/JobService.js:10-33 | Thirteen jobs at twelve a page give two pages, of twelve jobs and of one |
| `JobService.NonPositivePageCountsFromEnd` | src/services/JobService.js:24-28 | For any page of 0 or below, the page is the list from `length + (page - 1) * limit` to `length + page * limit`, each bound raised to 0, and page 0 is empty |
| `JobService.NegativePageCountsFromEnd` | src/services/JobService.js:24-28 | Page 0 is empty, and page -1 of thirty jobs is jobs 6 to 17 |
| `JobService.MissingJobsReadAsEmpty` | src/services/JobService.js:21-34 | A response without `jobs` gives no jobs, zero jobs in total, zero pages, and the requested page as `currentPage` |
| `Listing.Truthy` | src/services/JobService.js:49 | An optional string field is truthy exactly when it is present and not the empty string |
| `JobService.CategorySetAppend` | src/services/JobService.js:48-50 | One more job adds its category to the set exactly when that category is truthy |
| `JobService.FetchJobFilters` | src/services/JobService.js:43-62 | Fails exactly when the request fails or the body or its `jobs` field is missing; otherwise returns every truthy category once, strictly ascending, and nothing else |
| `JobService.CategoryListIgnoresOrder` | src/services/JobService.js:46-53 | Two category lists for the same jobs in any order are equal |
| `JobBoard.PageWindow` | src/components/JobBoard.js:106-117 | The window holds exactly the pages from 1 to `totalPages` that are within 2 of the current page, as a run of consecutive numbers |
| `JobBoard.ConsecutiveRun` | src/components/JobBoard.js:112-114 | A run counting up from `lo` holds exactly the numbers from `lo` to `lo + length - 1` |
| `JobBoard.WindowRun` | src/components/JobBoard.js:112-114 | In a run that steps by one, item `i` is the first item plus `i` |
| `JobBoard.WindowBounds` | src/components/JobBoard.js:108-112 | The window holds at most five pages, all between 1 and `totalPages` |
| `JobBoard.WindowEmptyWithoutPages` | src/components/JobBoard.js:110-112 | With zero pages the window is empty |
| `JobBoard.WindowHoldsCurrentPage` | src/components/JobBoard.js:109-112 | When the current page exists, it is in the window, and the window starts at `max(1, page - 2)` |
| `JobBoard.ApplyUrl` | src/components/JobBoard.js:265 | The apply link is the job URL followed by exactly `?via=tung` |
| `JobBoard.ApplyUrlInjective` | src/components/JobBoard.js:265 | Different URLs give different apply links |
| `JobBoard.SalaryText` | src/components/JobBoard.js:194 | A non-empty salary is shown unchanged; a missing or empty one is shown as "Not Provided" |
| `JobBoard.SalaryTextNeverEmpty` | src/components/JobBoard.js:255 | The salary line is never the empty string |
| `JobBoard.ShownPageIsClampedSlice` | src/components/JobBoard.js:67 | For a board page of 1 or more, the jobs shown are jobs `(page - 1) * 12` up to `page * 12` of the fetched list, cut off at its end |
| `JobBoard.JobBoardState.constructor` | src/components/JobBoard.js:28-36 | The initial state: no jobs, empty search term and category, no categories, page 1 of 1, not loading |
| `JobBoard.JobBoardState.GetPaginationItems` | src/components/JobBoard.js:106-117 | The loop pushes exactly the consecutive pages from `max(1, page - 2)` to `min(totalPages, page + 2)` |
| `JobBoard.JobBoardState.HandlePagination` | src/components/JobBoard.js:90-94 | The page becomes the selected page when that page is between 1 and `totalPages`; otherwise it stays the same; no other field changes |
| `JobBoard.JobBoardState.HandleCategoryChange` | src/components/JobBoard.js:85-88 | The category becomes the chosen one and the page becomes 1; the search term, jobs and page count do not change |
| `JobBoard.JobBoardState.SetSearchTerm` | src/components/JobBoard.js:132 | Only the search term changes; the page is not reset |
| `JobBoard.JobBoardState.LoadJobs` | src/components/JobBoard.js:64-75 | On success the jobs and page count come from paginating the fetched list at the current page; on failure both are kept; loading is false afterwards; page, search term and category do not change |
| `JobBoard.JobBoardState.LoadFilters` | src/components/JobBoard.js:55-62 | On success the category list becomes the sorted distinct categories of the fetched jobs; on failure it is kept; no other field changes |

## Left out

- The HTTP requests, the API URL and the console logging are not modelled. Each request's outcome is an `HttpResponse` parameter.
- `JobService.FetchJobs`: the search term and category are not parameters, because they only select what the upstream API returns.
- Overlapping `loadJobs` calls are not modelled: they race on the event loop, and a stale response can overwrite a newer one. The React effect and callback wiring is left out too. Each `JobBoard.JobBoardState.LoadJobs` call is one atomic step.
- `JobBoard.JobBoardState.LoadJobs`: the moment when `loading` is true, while the request is in flight, is not observable in the model. Only the final `false` is stated.
- `formatDateTime` is not modelled, because it depends on `Date` and `Intl.DateTimeFormat`.
- The modal's open and close handlers (`openJobModal`, `closeJobModal`), the raw HTML description and all JSX layout are left out as presentation.
- src/components/JobCard.js and src/components/JobModal.js are not part of this model. Their only logic is the same apply link and salary fallback, modelled from src/components/JobBoard.js.
- `JobService.FetchJobs`: the response body is assumed to have the expected types. A truthy `jobs` value that is not an array makes `.slice` throw at src/services/JobService.js:28, and a `null` entry in the array makes `job.category` throw at src/services/JobService.js:49. The model has no such values, so its `Failure` comes only from a failed request.
- `StringOrder.LessIsCodeUnitOrder`: a Dafny string is a sequence of Unicode scalar values, so JavaScript strings that hold unpaired surrogates are outside the model. The agreement with code-unit order is proved for well-formed strings only.
- `JobService.Paginate`: page numbers are mathematical integers. The model leaves out JavaScript's double-precision numbers, non-integer pages, and products above 2^53.
- `JobService.FetchJobFilters`: a category value must be a string or absent. JSON values of other types, such as numbers, are not modelled.
- `StringOrder.SortStrings`: the engine's sorting algorithm is not visible, so an insertion sort stands for it. On distinct strings every correct sort gives the same list (`StringOrder.AscendingUnique`), and the category list is always distinct.

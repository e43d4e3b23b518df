# bizTask in Dafny

A model of the two routines of the bizTask repository, with proofs about them:

- `count_pairs` (`arr_pair_count.py`). For a list of numbers sorted in ascending order, it
  counts the ordered pairs `(x, y)` with `x * y >= x + y`. It returns `n * n` at once when
  the first element pairs with itself. Otherwise, for each element it adds `n` when that
  element pairs with the first one. It then binary-searches for the first partner whose
  predecessor is not a partner, and adds the number of positions from there to the end.
  Module `PairCount` (`pair_count.dfy`) models it:
  - `CountPairs` is the routine with its nested loops over a `seq<real>`. It is proved equal
    to `CountPairsValue`, the same computation written as functions (`Search`, `RowAdd`,
    `LoopCount`).
  - Lemmas relate that value to `PairCount`, the number of ordered pairs that satisfy the
    condition, and bound it.
  - Python's `arr[mid - 1]` at `mid == 0` reads the last element. `PyIndex` models this.
- The `Scraper` class (`scraper.py`) scrapes a paginated article listing. Module
  `Scraping` (`scraping.dfy`) models it:
  - `_get_response` retries a GET up to `max_retries` times, sleeping `retry_interval` after
    each failure. It raises the last exception, or fails on `raise None` when no attempt was
    made.
  - `scrape_page` turns each entry of a page into a record `(title, summary, url,
    image url)`.
  - `_get_image_url` takes `src`, or else the first URL of `data-srcset`.
  - `_get_last_page_number` reads the last pagination link as an integer.
  - `scrape_all_pages` scrapes pages `1..last` in order, sleeping `between_req_wait` after
    each page.

  The class keeps its four configuration values as `const` fields. Each method returns its
  outcome as a `Result` and the durations it slept as a `seq<int>`.

  The network is a parameter `net: string -> nat -> FetchOutcome`: `net(url)(k)` is the
  outcome of the k-th attempt at `url`. A successful fetch yields a `Document`, which holds
  what the HTML parser would find on the page: the texts of the pagination links, and one
  `Entry` per article with its title text, body text, link attributes and image
  attributes.

  Module `Text` (`text.dfy`) models the Python string built-ins the scraper relies on:
  - `str.strip`, with Python's whitespace set;
  - `str.split` with a one-character separator;
  - `str(int)`;
  - the decimal case of `int(str)`.

Each method is proved against a specification function of its inputs (`Retrieve`,
`PageResult`, `LastPage`, `AllPages`, `AllPagesSleeps`). Lemmas about those functions state
what the program promises:
- the first success is returned;
- the number of waits is bounded by `max_retries`;
- records come out in document order, and the first failure ends everything;
- pages are visited in ascending order;
- one pause follows each page.

`scraper.py` fetches one page at a time, waits the same `retry_interval` after every
`RequestException`, and has no cancellation; the model follows it.

## Model

| member | source | states |
|---|---|---|
| PairCount.CountPairs | arr_pair_count.py:1-28 | The nested loops compute exactly `CountPairsValue(arr)`: the early return, plus, for every i, the first-element test and the binary search's contribution |
| PairCount.SearchAdd | arr_pair_count.py:12-26 | The binary search loop for element i adds exactly `Search(Row(arr, arr[i]), 0, n - 1)`, the value of the recursive search over the row of condition results. Each probe reads the midpoint `l + (r - l) // 2` and Python's `arr[mid - 1]`, the last element when `mid` is 0; it stops and adds `n - mid` when the midpoint pairs and its predecessor does not, moves right when the midpoint fails, and moves left otherwise |
| PairCount.PyIndex | arr_pair_count.py:19 | A Python index k with `-n <= k < n` denotes position k, or n + k for a negative k, and lies inside the list |
| PairCount.Half | arr_pair_count.py:18 | The midpoint lies between l and r |
| PairCount.SearchBound | arr_pair_count.py:17-26 | A search over `l..r` adds at most `n - l` |
| PairCount.SearchStopsAtBoundary | arr_pair_count.py:19-21 | A search that adds something stopped at a probe mid in `l..r` where the condition holds and fails one position earlier. It added exactly `n - mid` |
| PairCount.SearchAllTrue | arr_pair_count.py:17-26 | When every element is a partner, the search adds nothing: no probe finds a failing predecessor, not even the wrapped-around one at position 0 |
| PairCount.SearchAllFalse | arr_pair_count.py:17-26 | When no element is a partner, the search adds nothing |
| PairCount.SearchFindsBoundary | arr_pair_count.py:15-26 | When the partners are exactly positions `k..n-1` with `0 < k`, every window containing k finds k and adds `n - k` |
| PairCount.RowOfSuffix | arr_pair_count.py:8-26 | For a row whose partners form a suffix, the first-element test plus the search add up to the number of partners in the row |
| PairCount.SortedRowIsSuffix | arr_pair_count.py:15-16 | In a sorted list with positive first element, the partners of any element form a suffix of the list |
| PairCount.RowAddExact | arr_pair_count.py:8-26 | For such a list, iteration i adds exactly the number of partners of `arr[i]` |
| PairCount.LoopCountExact | arr_pair_count.py:8-28 | For such a list, the first k iterations add exactly the number of pairs whose first element is among the first k |
| PairCount.CountPairsExactWhenPositive | arr_pair_count.py:4-28 | For a sorted list whose first element is positive, the result is the number of ordered pairs satisfying the condition |
| PairCount.CountPairsFacts | arr_pair_count.py:5-28 | The early return yields `n * n`, and it always fires for a first element that is not positive. Otherwise the result lies in `0 .. 2n²`. For a sorted list with positive first element it is the exact pair count |
| PairCount.AllPairsFromTwo | arr_pair_count.py:4-6 | When a sorted list starts at 2 or more, every pair satisfies the condition, so `n * n` is the exact count |
| PairCount.PairsUpToFull | arr_pair_count.py:5-6 | When every pair satisfies the condition, the first k elements account for `k * n` pairs |
| PairCount.EarlyReturnGuard | arr_pair_count.py:5 | `x * x >= x + x` holds exactly when `x <= 0` or `x >= 2` |
| PairCount.FromTwo | arr_pair_count.py:4 | Any two numbers of at least 2 satisfy the condition |
| PairCount.Monotone | arr_pair_count.py:9 | For x > 1, a partner's larger successors are partners too, which is the monotonicity the search relies on |
| PairCount.NotMonotoneBelowOne | arr_pair_count.py:15-16 | For x < 1 the monotonicity fails: some y is a partner of x and y + 1 is not |
| PairCount.NoPartnerUpToOne | arr_pair_count.py:10 | A number in `(0, 1]` has no positive partner |
| PairCount.EarlyReturnWrongAtZero | arr_pair_count.py:4-6 | For `[0, 0.5]` the early return fires and yields 4, while only 1 ordered pair satisfies the condition |
| PairCount.RowAddBound | arr_pair_count.py:8-26 | One iteration adds at most `2n` |
| PairCount.LoopCountBound | arr_pair_count.py:8-28 | The first k iterations add at most `2nk` |
| Text.StripStartSpec | scraper.py:34 | Left stripping removes a whitespace prefix, and what remains is empty or starts with a non-space |
| Text.StripEndSpec | scraper.py:34 | Right stripping removes a whitespace suffix, and what remains is empty or ends with a non-space |
| Text.StripSpec | scraper.py:98-99 | `s.strip()` is a slice of s preceded and followed only by whitespace |
| Text.StripEnds | scraper.py:98-99 | `s.strip()` neither starts nor ends with whitespace |
| Text.StripIdempotent | scraper.py:98-99 | Stripping twice is stripping once |
| Text.StripSurrounded | scraper.py:34 | Stripping `lead + t + trail`, with whitespace lead and trail and t trimmed, gives back t |
| Text.JoinSplit | scraper.py:54-55 | Joining the parts of `s.split(d)` with d gives back s |
| Text.SplitJoin | scraper.py:54-55 | Splitting the join of separator-free parts gives back the parts |
| Text.SplitHead | scraper.py:55 | The first part of `(p + t).split(d)`, for separator-free p, is p followed by the first part of t |
| Text.ShowNatDigits | scraper.py:125 | `str(n)` of a natural number is a non-empty digit string without a leading zero |
| Text.ParseDecimal | scraper.py:34 | The decimal parse succeeds exactly on non-empty strings of ASCII digits |
| Text.ParseShow | scraper.py:34 | Parsing `str(n)` gives back n |
| Text.ShowIntInjective | scraper.py:125 | Distinct integers have distinct decimal representations |
| Scraping.AttemptBound | scraper.py:63 | The number of attempts is `max_retries` when that is positive, and 0 otherwise |
| Scraping.FailedRun | scraper.py:63-73 | The counted attempts all failed, and the one after them, if within the bound, succeeded |
| Scraping.SumRepeat | scraper.py:70-72 | k waits of `retry_interval` take `k * retry_interval` seconds |
| Scraping.PageRange | scraper.py:41-44 | `range(start, last + 1)` holds `start, start+1, …, last`, and is empty when `last < start` |
| Scraping.PageRangeMembers | scraper.py:41-44 | p is in the range exactly when `start <= p <= last`. The range is empty exactly when `last < start`, and strictly ascending |
| Scraping.PageRangeSplit | scraper.py:41-44 | The range up to last splits at any k into the range up to k and the range from k + 1 |
| Scraping.PageUrlReadBack | scraper.py:125 | The page number can be parsed back from the page URL's query value |
| Scraping.PageUrlInjective | scraper.py:125 | Distinct pages get distinct URLs |
| Scraping.StripAll | scraper.py:54 | The comprehension strips each candidate and keeps their order and number |
| Scraping.ImageUrl | scraper.py:47-57 | `src` is returned when present. Otherwise the result fails exactly when `data-srcset` is missing, and then with `KeyError('data-srcset')`. Otherwise it is a URL token without spaces |
| Scraping.ImageUrlFromSrcset | scraper.py:52-55 | For an img without src, whose data-srcset starts with optional whitespace, a URL free of whitespace and commas, and then a space or a comma, that URL is returned |
| Scraping.ImageUrlExample | scraper.py:52-55 | `data-srcset = "b.jpg 100w, c.jpg 200w"` yields `b.jpg` |
| Scraping.RecordOf | scraper.py:97-105 | An entry yields a record exactly when its link has href and its image URL exists. The record is (stripped title, stripped summary, href, image URL). A missing href raises `KeyError('href')` |
| Scraping.ParsePageCount | scraper.py:31-39 | No pagination links give IndexError. Otherwise the result is the value of the stripped last link, or a ValueError carrying that text |
| Scraping.ParsePageCountLast | scraper.py:31-34 | The last link `lead + str(n) + trail`, with whitespace around it, yields n |
| Scraping.ThenAssoc | scraper.py:124-127 | Concatenating page results with first-error-wins is associative |
| Scraping.MapAllOk | scraper.py:97-105 | On success, scrape_page yields one record per entry, the i-th from the i-th entry |
| Scraping.MapAllFails | scraper.py:97-105 | The entry loop fails exactly when some entry fails, and then with the error of the first failing entry |
| Scraping.MapAllAppend | scraper.py:97-105 | Processing `a + b` is processing a, then b unless a failed |
| Scraping.CollectAppend | scraper.py:124-127 | Visiting pages p then q is visiting p, then q unless p failed |
| Scraping.CollectSleepsAppend | scraper.py:124-129 | The sleeps of visiting p then q are p's sleeps, then q's unless p failed |
| Scraping.CollectFailed | scraper.py:124-129 | Once a page has failed, later pages change neither the outcome nor the sleeps |
| Scraping.CollectNext | scraper.py:124-129 | Scraping the next page appends its records, its retry waits and one pause, or ends the whole visit with its error |
| Scraping.CollectOk | scraper.py:124-127 | The visit succeeds exactly when every page succeeds |
| Scraping.CollectSleepsAllOk | scraper.py:124-129 | When all pages succeed, the total sleep is the pages' retry waits plus `between_req_wait` per page |
| Scraping.Scraper.constructor | scraper.py:10-23 | The four settings are stored as given, with defaults 3, 5 and 5 |
| Scraping.Scraper.RetrieveFirstSuccess | scraper.py:63-67 | If attempt i < max_retries is the first success, its response is returned after i waits totalling `i * retry_interval` |
| Scraping.Scraper.RetrieveAllFail | scraper.py:63-74 | If all max_retries attempts fail, the last attempt's exception is raised after max_retries waits |
| Scraping.Scraper.RetrieveNoAttempt | scraper.py:61-74 | With `max_retries <= 0`, no attempt or sleep happens and `raise None` fails with TypeError |
| Scraping.Scraper.RetrieveBounded | scraper.py:63-74 | Failed attempts plus the successful one never exceed max_retries. A failure means exactly max_retries waits. Each wait is retry_interval |
| Scraping.Scraper.GetResponse | scraper.py:59-74 | The retry loop returns `Retrieve` of the attempt outcomes, and sleeps `RetrySleeps` of them |
| Scraping.Scraper.ScrapePage | scraper.py:78-107 | scrape_page yields the records of the fetched page's entries in order, or the first exception. It sleeps only the fetch's retry waits |
| Scraping.Scraper.GetLastPageNumber | scraper.py:25-39 | The result is the fetched base page's page count as given by ParsePageCount, or the fetch error |
| Scraping.Scraper.ScrapeAllPages | scraper.py:110-131 | The result is the records of pages `1..last` visited in order, IndexError for an empty range, or the first exception. The sleeps are those of every fetch plus one pause after each scraped page |
| Scraping.Scraper.ScrapePages | scraper.py:122-131 | The page loop yields `Collect` of the pages and sleeps `CollectSleeps` of them |
| Scraping.Scraper.AllPagesInOrder | scraper.py:120-131 | For a last page n and any 1 <= k < n, the result is pages `1..k` then pages `k+1..n`, first error wins |
| Scraping.Scraper.AllPagesEmptyRange | scraper.py:118-121 | A page count of 0 fails with IndexError at `page_range[-1]` before any listing page is fetched |

## Left out

- The HTTP transport (`requests.get`, `raise_for_status`) is not modelled. Each attempt's outcome is read from the `net` parameter, and every `RequestException` is one `RequestFailed` error.
- HTML parsing with BeautifulSoup is not modelled. A `Document` holds what the parser would find. A missing element, where `find` returns `None` and the next access raises AttributeError (`.text` or `.find` on `None`) or TypeError (`None[...]`, at scraper.py:100 without an `<a>` and at scraper.py:50 without an `<img>`), is not modelled.
- `time.sleep` is not executed. Its durations are returned as a sequence. Python's ValueError for a negative duration is not modelled.
- The module-level example run of count_pairs (arr_pair_count.py:29-31) is not modelled. `print` calls are dropped (scraper.py:38, 70, 89, 117, 121). The expression printed at scraper.py:121 is kept, because `page_range[-1]` can raise.
- The `__main__` block (scraper.py:133-172) is not modelled: argument parsing, directory creation, the CSV export through pandas, and the catch-all handler.
- PairCount.CountPairs: list elements are exact reals. Floating-point rounding in `x * y >= x + y` is not modelled.
- PairCount.CountPairs: requires a non-empty list. On an empty list Python raises IndexError at `arr[0]`, which is a misuse by the caller rather than a result of the routine.
- PairCount.CountPairsFacts: for a first element that is not positive the early return always fires and yields `n * n`, which in general is not the pair count (see EarlyReturnWrongAtZero); the code gives no intended value for such inputs, so no exactness is stated there. For a first element in `(0, 2)` only bounds are stated unless the list is sorted.
- Text.ParseDecimal: accepts only ASCII digits. Python's `int()` also accepts a sign, underscores between digits and non-ASCII decimal digits, so `GetLastPageNumber` rejects, with ValueError, some texts Python would read.
- Text.ParseDecimal: the stripped text is what is parsed. Python's `int()` strips the same whitespace itself, so the result is the same.
- Scraping.ImageUrl: the attributes are a `map<string, string>`. A multi-valued attribute such as a list-valued `class` is not modelled.
- Concurrency, exponential backoff on HTTP 429 and cancellation are not modelled: scraper.py has none of them.

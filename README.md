# GH_Crawler core, modelled in Dafny

GH_Crawler is a small desktop tool. It searches GitHub's repository-search
API for a keyword, pages through the results until it has the requested
number of repositories, and saves them to a timestamped CSV file. This
project models the logic that runs inside the tool's background task,
`fetch_data.task()` in `github_crawler.py`:

- input validation;
- the page count (ceiling division by the page size of 30);
- the page loop, which collects records, stops once `count` records are in,
  and aborts on any status other than 200;
- the mapping from API item to in-memory record, and from record to CSV row;
- the description clean-up.

The remote endpoint is a parameter `fetch: nat -> Response`. It gives, for
each page number, the status, the body text and the optional `items` array.
So the model can say which pages are requested and what is kept, with no
network involved.

Modules, one file each:

- `wrappers.dfy`: `Option` and `Result`.
- `text.dfy`: Python's `str()` of an integer, with its inverse `ParseInt`.
  Also the single-character `replace` calls and the description clean-up
  `Clean`, with a character-by-character reference definition `CleanEach`.
- `records.dfy`: the API item `RepoItem`, the record `RepoInfo` (it still
  holds `language`), the row dictionary, and a model of how a dictionary
  writer places a dictionary's values in column order.
- `pagination.dfy`: `PageCount`, and the imperative loop `Collect` proved
  against the declarative function `Collected`. Its inner loop over one
  page's items is the method `AppendPage`. `Collected` cuts the items
  of the requested pages off at `count`. The pages requested are 1 to
  `PagesRequested`, the first page that fails or fills the count, as
  computed by `FirstStop`.
- `crawler.dfy`: `Run`, which returns the outcome plus a trace of side
  effects in order: config save/delete, page requests and the file write.

Two details of the output follow the code closely:

- The clean-up deletes every `'\r'` and only then turns each `'\n'` into
  `' '`. So `"a\r\nb"` becomes `"a b"`, and a lone `'\r'` disappears, as
  `Clean` states.
- A record always has the key `description`, so the `.get(..., '')`
  default is never used. A `None` description is written as the text
  `"None"` (`DescriptionText`).

## Model

| member | source | states |
|---|---|---|
| `Text.NatToText` | github_crawler.py:122-123 | the decimal text of a non-negative count is non-empty, all digits, and has no leading zero (it starts with '0' only for 0, which is then the whole text) |
| `Text.IntToText` | github_crawler.py:122-123 | `str()` of an int starts with '-' exactly for negative values and is digits otherwise; a negative value's digits have no leading zero (never "-0" or "-05") |
| `Text.ParseDigitsOfNatToText` | github_crawler.py:122-123 | reading the digits of a natural number back gives that number |
| `Text.ParseIntOfIntToText` | github_crawler.py:122-123 | the star/fork text written to the file reads back (`int()`) as the original count, negative values included |
| `Text.RemoveAll` | github_crawler.py:124 | `replace(c, '')` leaves no `c` in the text |
| `Text.RemoveAllKeepsOthers` | github_crawler.py:124 | `replace(c, '')` keeps every other character as often as it occurred, and its length is the original length minus the number of `c` |
| `Text.ReplaceAll` | github_crawler.py:124 | `replace(c, d)` keeps the length, and each position holds `d` where the input held `c` and the input character elsewhere |
| `Text.Clean` | github_crawler.py:124 | the cleaned description contains neither '\r' nor '\n', and its length is the original length minus the number of '\r' |
| `Text.RemoveAllAppend` | github_crawler.py:124 | deleting a character from a concatenation deletes it from each part |
| `Text.ReplaceAllAppend` | github_crawler.py:124 | replacing a character in a concatenation replaces it in each part |
| `Text.CleanAppend` | github_crawler.py:124 | cleaning distributes over concatenation |
| `Text.CleanMatchesCleanEach` | github_crawler.py:124 | the clean-up equals the per-character reference: '\r' gives nothing, '\n' gives one space, any other character stays |
| `Text.CleanAt` | github_crawler.py:124 | every character other than '\r' survives in order, at its index minus the number of earlier '\r'; a '\n' survives as ' ' |
| `Text.RemoveAllAbsent` | github_crawler.py:124 | deleting a character the text lacks leaves the text unchanged |
| `Text.CleanIsIdentityIff` | github_crawler.py:124 | cleaning leaves a text unchanged if and only if it has no '\r' and no '\n' |
| `Text.CleanIdempotent` | github_crawler.py:124 | cleaning a second time changes nothing |
| `Records.RowFields` | github_crawler.py:95-125 | the row dictionary built from a record (the record itself is `ToInfo` of the API item, lines 95-103) has exactly the six header keys, no `language` key, and the cleaned description, with `None` written as "None" by `DescriptionText` (line 124) |
| `Records.RowWrittenInHeaderOrder` | github_crawler.py:114-126 | `WriteRow`, the dictionary writer's layout (a key outside the field names is an error, a missing key gives "", values in field order; lines 114, 126), accepts each row dictionary (no key outside the header) and writes name, full_name, url, str(stars), str(forks), cleaned description, in header order, whatever `language` holds |
| `Records.TableLines` | github_crawler.py:113-126 | the file is the header and then one line per record; each line has six columns, a description without line breaks, and star/fork columns that read back as the record's counts |
| `Pagination.PageCount` | github_crawler.py:70-71 | for count > 0 the page count is at least 1 and 30·(pages−1) < count ≤ 30·pages, i.e. the ceiling of count / 30; for count ≤ 0 no page |
| `Pagination.FirstStop` | github_crawler.py:76-107 | the last requested page lies in the remaining range; every earlier page answered 200 and left fewer than count items; a last page before the final one failed or filled the count |
| `Pagination.PagesRequested` | github_crawler.py:70-76 | for count > 0 between 1 and the page count are requested; none for count ≤ 0 |
| `Pagination.InfosAppend` | github_crawler.py:91-104 | mapping items to records distributes over concatenation, so records stay in item order |
| `Pagination.TakeAppend` | github_crawler.py:91-93 | cutting a concatenation whose first part is shorter than the limit cuts only the second part |
| `Pagination.AppendPage` | github_crawler.py:91-104 | the loop over one page's items appends the records of exactly the page's first count − len(collected) items, in order, and nothing when count is already reached |
| `Pagination.Collect` | github_crawler.py:73-107 | the page loop (records mapped by `Infos`/`ToInfo`, lines 95-103; a body without `items` giving no items via `ItemsOf`, line 88) requests exactly pages 1..PagesRequested in increasing order, and returns the remote error of a non-200 page or the records of the requested pages' items cut off at count (`Collected`) |
| `Pagination.AllItemsPrefix` | github_crawler.py:76-104 | the items gathered from fewer pages are a prefix of those gathered from more pages |
| `Pagination.AllItemsBound` | github_crawler.py:70-71 | pages of at most 30 items hold at most 30·k items together |
| `Pagination.CollectedIsCutOff` | github_crawler.py:76-107 | a successful collection is the mapped items of pages 1..pages in page and item order, cut off at count (nothing reordered or skipped), and its length is min(count, total items) |
| `Pagination.CollectedErrorAborts` | github_crawler.py:83-84 | the collection fails exactly when the last requested page's status is not 200; the error carries that status and text, every earlier page answered 200, and no later page was requested |
| `Pagination.CollectedWhenPagesSucceed` | github_crawler.py:76-107 | when every page answers 200 the collection succeeds with the mapped items of all pages cut off at count |
| `Pagination.FullRunRequestsAllPages` | github_crawler.py:76-107 | when every page answers 200 with at most 30 items, every page 1..pages is requested |
| `Pagination.SmallCountRequestsOnePage` | github_crawler.py:70-76 | a count of at most 30 requests page 1 only |
| `Pagination.FortyFiveOverTwoPages` | github_crawler.py:76-107 | count 45 over pages of 30 and 20 items requests both pages and keeps page 1's items then the first 15 of page 2 |
| `Crawler.WriteLines` | github_crawler.py:115-126 | the loop over the collected records writes the header line and then one line per record, in order |
| `Crawler.Run` | github_crawler.py:39-129 | invalid input (`IsValid`: an empty token, keyword or path, or count ≤ 0, line 49) is rejected with no effect at all; a valid run updates the config (`ConfigEffects`: save when remembering, delete an existing file otherwise, lines 54-58), requests pages 1..k, and then either fails with no file written or writes the header plus one line per record and reports that many records (at most count) |

## Left out

- Tkinter window, widgets, status label and message boxes (github_crawler.py:33-36, 50, 61, 129-201): presentation only. `Run` returns the outcome the status label would show. The error message text is not built.
- The background thread (github_crawler.py:135): it runs the task once and has no logic of its own.
- `requests.get` and `response.json()` (github_crawler.py:81, 87): network I/O and JSON parsing. Each page is a given `Response`. A body that is not JSON, and items missing a key (`KeyError`), are not modelled: every item is taken to carry all the fields read at lines 96-102.
- Loading the config at start-up and the checkbox's immediate save (github_crawler.py:20-27, 157): file I/O outside the task. Inside the task, saving or deleting the config is an `Effect`; a failing write or delete (a filesystem error) is not modelled.
- `Crawler.Run`: a request that raises (connection error, time-out; github_crawler.py:81) and an output file that cannot be opened (missing or unwritable save path; github_crawler.py:113) are not modelled: the endpoint `fetch` is total and the file write always succeeds. In the source both are caught at github_crawler.py:131-133 and fail the run with an error message and no success report.
- `int(count_entry.get())` (github_crawler.py:44): a library conversion whose failure is caught by the generic handler. `count` is an `int` input.
- The request URL and headers (github_crawler.py:64-67, 78): string interpolation. A request is the effect `FetchPage(keyword, token, page)`.
- The timestamped file name, `os.path.join`, and the CSV writer's quoting, encoding and byte-order mark (github_crawler.py:110-115, 126): clock, filesystem and library serialisation. The file is modelled as its lines of fields, and the reported result is the record count without the path.

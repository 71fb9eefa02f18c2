# resultdownloader, modelled in Dafny

`resultdownloader.py` scrapes race results from web pages. It fetches a start page. It picks the
page's results table by scoring every parsed table against typical race-result headers. It then
follows server-side "next page" links, never visiting a URL twice, and accumulates the tables.
It concatenates and deduplicates the rows on the identity columns (Pos, No, Name). Finally it
materialises and orders a fixed list of 17 output columns and cleans the Name column.

The model covers that decision logic:

- `text.dfy` holds the Python string primitives the script relies on: `str.isspace` and the
  regex class `\s`, `strip()`, `lower()`, substring containment, and the leftmost `\s{2,}` run.
- `tables.dfy` holds the data. A parsed table (`Frame`) has column labels and positional rows.
  A parsed cell is `None` where pandas reads NaN. After concatenation a row is a map from label to cell. A NaN cell, or a column the row's table lacked, has no key there.
- `selection.dfy` models `extract_results_table`: the header score and the arg-max loop.
- `pagination.dfy` models `find_next_page_url`: the `rel="next"` lookup, then the text heuristic.
- `merge.dfy` models `pd.concat` and `drop_duplicates` on the identity columns.
- `scrape.dfy` models `scrape_all_pages` as a loop over a finite map from URL to server response.
- `output.dfy` models `REQUESTED_COLUMNS`, `normalize_name_column` and `select_and_order_columns`.

Library code becomes parameters of the scrape loop (the `Parsers` datatype): `pd.read_html`
(an empty list when it finds no table), the anchors BeautifulSoup finds, and `urljoin`.
The network is a finite map `Web` from URL to response. Because that map is finite, the loop
provably terminates: every iteration adds to `visited` a URL of the map that was not yet in it.

The largest-table fallback at resultdownloader.py:104-108 can never run. The first table always
beats the initial best score of -1. `Selection.ExtractResultsTable` proves this with an
`assert false` in that branch.

## Model

| member | source | states |
|---|---|---|
| `Text.StripSegment` | resultdownloader.py:92 | `strip()` keeps a contiguous piece of its input that neither starts nor ends with whitespace, and drops only whitespace on both sides |
| `Text.Strip` | resultdownloader.py:92 | `strip()` returns a string no longer than its input that neither starts nor ends with whitespace |
| `Text.WhitespaceTable` | resultdownloader.py:92 | `IsSpace` follows Python's whitespace table: tab, newline, space, no-break space and ideographic space count; a letter, the zero-width space and the byte-order mark do not |
| `Text.Lower` | resultdownloader.py:146 | `lower()` keeps the length and leaves no ASCII capital |
| `Text.StripIdempotent` | resultdownloader.py:172-173 | stripping labels that are already stripped changes nothing |
| `Text.FirstGap` | resultdownloader.py:210 | the split point of `\s{2,}` is the leftmost index where two whitespace characters follow each other, or the end of the string when there is none |
| `Tables.StripColumnsIdempotent` | resultdownloader.py:172-173 | re-stripping the labels of a selected table (as the scrape loop does) leaves it unchanged |
| `Selection.CountMentioned` | resultdownloader.py:94-98 | the count of mentioned tokens never exceeds the number of tokens |
| `Selection.Score` | resultdownloader.py:94-98 | a table earns at most one point per typical header, so at most 9 |
| `Selection.ScoreZero` | resultdownloader.py:94-98 | a table scores 0 exactly when none of its labels contains a typical header |
| `Selection.CountIsCardinality` | resultdownloader.py:94-98 | counting over a duplicate-free token list equals the size of the set of tokens some column contains as a substring |
| `Selection.ScoreCountsDistinctHeaders` | resultdownloader.py:75-98 | a table's score is the number of distinct typical headers that some stripped label contains, so it lies between 0 and 9 |
| `Selection.BestIndex` | resultdownloader.py:87-102 | the chosen table has the maximum score, and every earlier table scores strictly less (the first table wins a tie) |
| `Selection.SelectTable` | resultdownloader.py:60-110 | the extractor returns nothing exactly when no table was parsed |
| `Selection.ExtractResultsTable` | resultdownloader.py:87-110 | the scoring loop returns the earliest highest-scoring table with stripped labels, and returns nothing only for an empty table list |
| `Pagination.FirstRelNext` | resultdownloader.py:128 | finds the first anchor with `rel="next"`; no earlier anchor has that relation |
| `Pagination.FirstNextLink` | resultdownloader.py:145-148 | finds the first anchor in document order whose stripped, lower-cased text is a next-page phrase and that has an href |
| `Pagination.NextPageUrl` | resultdownloader.py:125-151 | a next URL, when there is one, is an anchor's non-empty href resolved against the current URL |
| `Pagination.FindNextPageUrl` | resultdownloader.py:125-151 | the search loop returns what the priority rule prescribes: the first `rel="next"` anchor if it has an href, else the first text match, else nothing |
| `Pagination.RelNextTakesPriority` | resultdownloader.py:128-130 | a first `rel="next"` anchor with an href decides the result whatever the link texts are |
| `Pagination.TextMatchFallback` | resultdownloader.py:133-148 | without a usable `rel="next"` anchor, the first text-matching anchor with an href decides the result |
| `Pagination.NoNextPage` | resultdownloader.py:127-151 | there is no next page exactly when neither rule finds an anchor |
| `Merge.UnionColumns` | resultdownloader.py:183 | the merged columns are exactly the labels of all frames, each once |
| `Merge.Put` | resultdownloader.py:183 | setting a cell changes only that column's entry, and a NaN cell leaves no entry |
| `Merge.RowOf` | resultdownloader.py:183 | a converted row has keys only among the frame's labels, and no more entries than cells |
| `Merge.RowOfCells` | resultdownloader.py:183 | with distinct labels, a merged row holds exactly its frame's cells under their labels; a NaN cell has no entry |
| `Merge.ConcatRows` | resultdownloader.py:183 | a row is in the concatenation exactly when it is a row of one of the frames |
| `Merge.ConcatRowsAppend` | resultdownloader.py:183 | concatenation keeps the frames' order and the rows' order within each frame |
| `Merge.IdentityColumns` | resultdownloader.py:186 | the identity columns are exactly the labels whose lower-cased form is `pos`, `no` or `name` |
| `Merge.DropDuplicates` | resultdownloader.py:187-188 | the deduplicated rows are an order-preserving subsequence of the input rows |
| `Merge.DropDuplicatesDistinct` | resultdownloader.py:187-188 | the kept rows have pairwise distinct identity tuples |
| `Merge.DropDuplicatesKeepsFirst` | resultdownloader.py:187-188 | the kept rows are exactly the rows that are the first with their identity tuple, at their positions and in input order (a strictly increasing index map) |
| `Merge.RepeatedRowsDropped` | resultdownloader.py:185-188 | appending rows whose identity tuples all occur among the rows collected so far leaves the deduplicated rows unchanged, whichever earlier page they repeat |
| `Merge.MergeFrames` | resultdownloader.py:179-190 | no frames give the empty table; otherwise the columns are the union and the rows are a subsequence of the concatenated rows |
| `Merge.MergeFramesDedup` | resultdownloader.py:185-190 | without identity columns the concatenated rows are returned unchanged; with them the identity tuples are distinct and the rows are exactly the first occurrences of the concatenation, in its order |
| `Scrape.Fetch` | resultdownloader.py:43-57 | a fetch succeeds exactly when the server answers with a status outside 400-599, and then yields the body |
| `Scrape.Contribution` | resultdownloader.py:169-174 | a page contributes at most one table, and never an empty one |
| `Scrape.Collected` | resultdownloader.py:161-177 | the pages of a visit contribute at most one table each, and never an empty one |
| `Scrape.CollectedExtend` | resultdownloader.py:174 | the table of a newly visited page comes after the tables of all earlier pages |
| `Scrape.KeptTable` | resultdownloader.py:169-174 | the table the loop keeps for a page, its labels stripped once more, is exactly the page's contribution: the selected table when it exists and is not empty |
| `Scrape.CrawlStep` | resultdownloader.py:165-177 | one turn of the loop: a failed fetch ends the crawl with its error, otherwise the crawl continues from the page's next link with the page visited and its table kept |
| `Scrape.LoopExit` | resultdownloader.py:165-190 | when the loop condition fails, the last page's link is missing, empty or visited, no page was fetched exactly when the start URL is empty, and the outcome is the merge of the collected tables |
| `Scrape.Crawl` | resultdownloader.py:161-177 | the loop, defined on the inputs alone: a failed fetch ends it with the error of a non-empty URL not visited before |
| `Scrape.ScrapeAllPages` | resultdownloader.py:154-190 | no URL is fetched twice, the empty URL is never fetched, each URL after the start is the next link of the page before, the loop stops at the first missing, empty or visited link or at the first fetch error, and the result merges the non-empty tables of the visited pages in visit order; the result equals `Crawl`, the recursive definition of the loop on the inputs alone |
| `Output.CleanName` | resultdownloader.py:207-213 | a cleaned Name is no longer than the cell, holds no run of two or more whitespace characters and neither starts nor ends with whitespace |
| `Output.CleanNameSpec` | resultdownloader.py:207-213 | a cleaned Name has no run of two or more whitespace characters and no surrounding whitespace, and a Name without such a run is only stripped |
| `Output.CleanNameIdempotent` | resultdownloader.py:207-213 | cleaning a cleaned Name changes nothing |
| `Output.CleanNameAlice` | resultdownloader.py:196-198 | "Alice Smith  Cycling Club ABC" cleans to "Alice Smith" |
| `Output.CleanNameBob` | resultdownloader.py:210-212 | a Name with single spaces only, "Bob Jones", is unchanged |
| `Output.NormalizeNameColumn` | resultdownloader.py:193-214 | columns, row count and every cell outside Name stay as they are; the table is unchanged without a Name column; with one, every row's Name is `CleanName` of its old Name text ("nan" for NaN), so no Name has a whitespace run |
| `Output.Project` | resultdownloader.py:231 | the projection has exactly the given columns, keeps each row's cells in them and drops all others |
| `Output.NormalizedTo` | resultdownloader.py:217-232 | normalising onto a column list yields exactly those columns and one row per input row |
| `Output.Normalized` | resultdownloader.py:217-232 | the output has exactly the requested columns and one row per input row |
| `Output.NormalizedShape` | resultdownloader.py:217-232 | the output has exactly the 17 requested columns in order and as many rows as the input; an absent requested column is "" in every row; a present one other than Name keeps its cells; Name is the cleaned input Name |
| `Output.NormalizedIdempotent` | resultdownloader.py:217-232 | normalising an already normalised table changes nothing |
| `Output.MaterializeColumns` | resultdownloader.py:222-225 | the new columns are the old ones followed by `Missing(df.columns, columns)`: each listed column the frame lacked, appended once, in list order; the row count is kept; an added column is "" in every row; every other cell is unchanged |
| `Output.MissingMembers` | resultdownloader.py:222-225 | the appended labels are exactly the listed labels the frame lacked, and none is appended twice |
| `Output.MaterializedColumns` | resultdownloader.py:222-225 | after the loop, a label is a column exactly when it was one before or is listed; distinct old columns stay distinct |
| `Output.MaterializedCell` | resultdownloader.py:222-225 | after the loop, a listed column the frame lacked reads "" in every row, and every other cell reads as before |
| `Output.MaterializeKeep` | resultdownloader.py:224 | a listed column the frame already has is skipped, and the appended list stays the same |
| `Output.MaterializeAdd` | resultdownloader.py:224-225 | a listed column the frame lacks is appended to the end of the columns, empty in every row |
| `Output.ExtendedAdd` | resultdownloader.py:225 | `df[col] = ""` on a new label appends it after the existing columns, sets it to "" in every row, and changes no other cell |
| `Output.SelectAndOrderColumns` | resultdownloader.py:217-232 | the method computes the normalised table: materialise, clean Name, project onto `REQUESTED_COLUMNS` |

## Left out

- HTTP details of `fetch_html` (resultdownloader.py:43-57) are not modelled: the session, the User-Agent header, the 30-second timeout and redirects. A fetch is a lookup in the finite `Web` map. A URL outside the map is `Unreachable`.
- A server that answers infinitely many distinct URLs is not modelled. The finite `Web` map is what makes the loop terminate.
- HTML parsing by `pd.read_html` and BeautifulSoup is a parameter, not a model. So is `urljoin` (reference resolution, section 5.2 of RFC 3986). Parse errors other than "no tables found" are not modelled.
- `write_csv`, `main`, argument parsing, messages and exit codes (resultdownloader.py:235-285) are not modelled.
- Cell values are strings. The number types that `read_html` infers, and `str(c)` of non-string labels, are not modelled.
- A NaN cell is an absent key, and identity tuples compare NaN equal to NaN, as `drop_duplicates` does. A NaN Name reads "nan", as `astype(str)` makes it. Other NaN cells stay absent in the output rows, and how the CSV writer prints them is not modelled.
- Duplicate column labels within one table are not modelled. `RowOf` keeps the first cell for a repeated label (no entry when that cell is NaN), and `UnionColumns` lists each label once. pandas would keep both columns.
- `Text.LowerChar` lower-cases only ASCII and Latin-1 capitals. Python's `str.lower()` covers all of Unicode. `Text.IsSpace` follows Python's whitespace table exactly.
- `select_and_order_columns` changes its argument in place. The model works on table values, so the aliasing is not captured. The caller never reads the argument again.

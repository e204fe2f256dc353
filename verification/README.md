# Aaron's Kit back end: scraper bookkeeping and article API, in Dafny

This project models the core of the Aaron's Kit back end. The service mirrors JSTOR's journal catalogue into a PostgreSQL database, crawls journal pages for issues and their citations, and serves the article list to a browser extension. The extension uploads article PDFs and records who archived them. A donation contract on Algorand then pays those archivists.

The model covers:

- **the database schema** of `api/models.py`: journals, issues, authors, accounts, articles and the article–author links. Each unique column is a clash predicate (`Schema`), and `Valid` is the store invariant: every unique constraint holds and every foreign key points at a stored row;
- **the table operations the code relies on** (`Tables`): `get`, `filter` and `get_or_create`, and `bulk_create(..., ignore_conflicts=True)`, which inserts a row unless it collides with one already stored;
- **the catalog sync** `update_journal_data` / `save_db_journals` (`Catalog`): dashes are stripped from ISSNs, a missing print ISSN falls back to the online one, the catalog date of stored journals is updated, and new journals are inserted;
- **the scrape bookkeeping** (`Progress`, `Ingest`, `Crawl`):
  - picking journals to scrape (`get_journals_to_scrape`);
  - collecting and filtering issue URLs (`scrape_issue_urls`, `filter_issues_urls`);
  - the crawl loop of `scrape_journal` with its issue budget;
  - the atomic ingest of one issue's citations (`save_issue_articles`, `save_issue`, `save_journal`, `save_articles_and_authors`, `save_article_author_relations`);
- **the article API** (`ArticleViews`, `Paginator`): query-parameter defaults, routing, the `scraped` filter, lookups by issue, journal and author, and Django's paginator as `get_articles_from_page` uses it;
- **the upload endpoint** `store_pdf` and `update_article_account` (`Uploads`);
- **the planning half of `distribute_donations`** (`Donations`):
  - `get_accounts_scraped`;
  - the funds check;
  - cutting accounts into calls of four, grouping calls into atomic groups of sixteen, and the snapshot total;
- **`str_or_hex` and `decode_state`** (`StateDecode`), with UTF-8 decoding and hex encoding written out and proved to round-trip.

Rows are named by their position in their table, which is also the default ordering of articles. The primary keys `journalID` and `issueID` are a separate column, `ArticleViews.Keys`: the database numbers rows from 1 in insertion order, and a conflicting insert also uses up a number, so keys increase but may skip values. The views look a key up in that column. Anything outside the program is a parameter:

| outside input | parameter |
|---|---|
| downloaded citations | `fetch` |
| catalog file | the catalog rows |
| trigram similarity | `Search` |
| `float(...)` | an `isFloat` oracle |
| upload outcome | `uploaded` |
| account balances | numbers |

### Where the code and its written description differ

The model follows the code in each case below.

- **Author split.** Author lists are split on the bare substring `"and"`, not on `" and "`. A name such as "Sandra" is cut into "S" and "ra" (`Ingest.AuthorNamesCutsNames`).
- **Missing catalog cells are saved as "nan".** A missing pandas cell is NaN, and a text column saves it as the text "nan". A catalog row with neither identifier is therefore filed under the ISSN "nan" rather than refused (`Catalog.NoIdentifierFiledAsNan`). Two rows that both lack the online identifier, the URL or the title collide on "nan", and only the first becomes a journal (`Catalog.MissingCellsCollide`).
- **Catalog sync is not atomic.** The date update is committed before the insert. A date cell the date column cannot read makes a statement raise. If the update assigns such a date, nothing is written (`Catalog.UnreadableUpdateWritesNothing`). If only a row to insert has one, the insert raises after the update was committed (`Catalog.SyncCatalog`).
- **The scraped counter can go down.** `save_journal` caps `numberOfIssuesScraped` at the number of links on the page, so it falls when the page lists fewer issues than were already counted (`Progress.SaveJournalCanDecrease`).
- **A missing `articleURL` is never NULL.** When no citation of the batch has a URL, `record.get("url", "")` gives the empty string. When another citation has one, the batch's DataFrame has the column, the missing cell is NaN, and it is saved as "nan". Either way two articles of one batch without a URL collide on that unique column, and `bulk_create(ignore_conflicts=True)` silently drops the second (`Ingest.MissingCellDefault`, `Ingest.MissingUrlsCollide`). The abstract defaults the same way.
- **Volume and number are truncated.** `to_numeric` reads decimals and exponents, and the integer column's `int()` truncates toward zero: "1.5" is saved as 1 and "1e3" as 1000 (`Ingest.NumericTruncates`, `Ingest.NumericExponent`).
- **A missing issue is a 500.** `get_articles_by_issue` catches `Journal.DoesNotExist` instead of `Issue.DoesNotExist`, so an unknown issue id gives a 500, never the 400 (`ArticleViews.MissingIssueIsServerError`).
- **`store_pdf` never sets `bucketURL`.** The "already scraped" guard therefore does not stop a second upload of the same article (`Uploads.StorePdfRepeatable`).
- **The author search repeats articles.** It lists an article once per matching author (`ArticleViews.AuthorRowsRepeat`).
- **`get_all_articles` ignores paging and `onlyJstorID`** (`ArticleViews.AllArticlesUnpaged`).
- **`str_or_hex` is not injective.** The UTF-8 text "ab" and the hex of the byte 0xAB are the same string, so `decode_state` merges their entries (`StateDecode.CollidingKeysMerge`). With `raw=True` they stay apart.

## Model

| member | source | states |
|---|---|---|
| Schema.IssueByUrl | scraper/scraper.py:537-547 | finds an issue by URL exactly when one is stored under it, and the one found has that URL |
| Schema.ArticleById | api/views.py:52-58 | finds an article by JSTOR id exactly when one exists, and the one found has that id |
| Schema.AuthorByName | scraper/scraper.py:636-640 | finds an author by name exactly when one exists, and the one found has that name |
| Schema.AccountByAddress | api/views.py:719-722 | finds an account by address exactly when one exists, and the one found has that address |
| Schema.IssueUrlUnique | api/models.py:48 | in a valid store the issue stored under a URL is the only one, so the lookup returns it |
| Schema.SavedText | scraper/scraper.py:316-325 | a text cell is saved as its text, and a missing (NaN) cell as the text "nan"; its consequences are `Catalog.NoIdentifierFiledAsNan`, `Catalog.MissingCellsCollide` and `Ingest.MissingCellDefault` |
| Tables.FirstIndex | scraper/scraper.py:537 | the first row satisfying the filter: it satisfies it, none before it does, and absence means no row does |
| Tables.Positions | api/views.py:217-221 | `filter` in table order: exactly the rows satisfying the predicate, strictly increasing |
| Tables.PositionsSplit | api/views.py:216-221 | a filter and its complement together select every row exactly once |
| Tables.InsertIfAbsent | api/views.py:719-722 | `get_or_create`: the table is unchanged exactly when the row collides with a stored one; otherwise the row is appended; uniqueness is kept |
| Tables.InsertAll | scraper/scraper.py:327 | `bulk_create(ignore_conflicts=True)` only appends rows from the batch and keeps every unique constraint |
| Tables.InsertAllCovers | scraper/scraper.py:623-624 | after a bulk insert every row of the batch is stored or collides with a stored row |
| Tables.InsertAllBlocked | scraper/scraper.py:327 | a batch whose every row already collides inserts nothing |
| Tables.InsertAllIdempotent | scraper/scraper.py:623-624 | repeating a bulk insert of the same batch changes nothing |
| Text.Strip | scraper/scraper.py:606 | `str.strip()` is a slice of the input with only white space cut from either side, has no white space at either end, and leaves a string without white space unchanged |
| Text.StripExample | scraper/scraper.py:606 | `" a "` strips to `"a"` |
| Text.StripIdempotent | scraper/scraper.py:606 | stripping twice is stripping once |
| Text.Lower | api/views.py:68 | `str.lower()` keeps the length and lowers each ASCII letter in place |
| Text.Find | scraper/scraper.py:606 | the first occurrence of the separator at or after a position, or none at all |
| Text.Split | scraper/scraper.py:606 | `str.split(sep)` yields at least one piece |
| Text.JoinSplit | scraper/scraper.py:606 | joining the pieces of a split with the separator gives back the original string |
| Text.SplitPiecesFree | scraper/scraper.py:606 | no piece of a split contains the separator |
| Text.SplitWithoutSeparator | scraper/scraper.py:606 | a string without the separator splits into itself alone |
| Text.Without | scraper/scraper.py:258-264 | `str.replace("-", "")` removes every dash and keeps every other character with its count |
| Text.WithoutAppend | scraper/scraper.py:258-264 | removing dashes distributes over concatenation |
| Text.LastSegment | scraper/scraper.py:535 | `rsplit("/", 1)[-1]` is a slash-free suffix preceded by a slash whenever it is shorter than the URL |
| Text.ShowNat | api/views.py:168 | the decimal text of a number is all digits with no leading zero |
| Text.ParseShowNat | api/views.py:168 | `int()` reads back the decimal text of every natural number |
| Text.ParseInt | api/views.py:168 | `int()` in base 10: white space, an optional sign, digit groups joined by single underscores, else `None`; its properties are `Text.ParseIntShape`, `Text.ParseShowNat`, `Text.ParseDigits` and `Text.ParseGroupedThousand` |
| Text.ParseIntShape | api/views.py:168 | a text that parses ends in a digit once stripped, and a negative value only comes with a leading minus |
| Text.ParseDigits | api/views.py:168 | `int()` of a run of ASCII digits is their decimal value |
| Text.ParseGroupedThousand | api/views.py:168 | `int("1_000")` is 1000: single underscores between digits are accepted |
| Catalog.StripDashes | scraper/scraper.py:258-264 | an identifier cell keeps its presence, loses every dash and keeps every other character |
| Catalog.Normalize | scraper/scraper.py:257-281 | renamed columns; `issn` is missing only when both identifiers are, and falls back to the online identifier when the print one is missing |
| Catalog.NormalizeKeepsPlainIds | scraper/scraper.py:257-277 | identifiers without dashes pass through unchanged |
| Catalog.StripDashesIdempotent | scraper/scraper.py:258-264 | stripping dashes twice is stripping once |
| Catalog.FirstDateFor | scraper/scraper.py:295-302 | `groupby("issn")` then `iloc[0]`: the date of the first catalog row with that ISSN, present exactly when such a row exists |
| Catalog.UpdateDates | scraper/scraper.py:297-308 | each stored journal takes the readable date of its first catalog row and nothing else about it changes |
| Catalog.ReadableRowsUpdate | scraper/scraper.py:297-308 | a catalog whose dates are all readable never breaks the update |
| Catalog.UpdateKeepsUnique | scraper/scraper.py:297-308 | updating catalog dates keeps every unique constraint on journals |
| Catalog.SyncCatalog | scraper/scraper.py:253-329 | only journals change; stored journals change only in their catalog date; the sync raises exactly when some date is unreadable; an unreadable date for a stored journal writes nothing, any other leaves the update committed and inserts nothing; on success the journals are the date update followed by insert-if-absent of every catalog row in order, so each stored journal carries its first row's date; validity is kept |
| Catalog.SyncCoversCatalog | scraper/scraper.py:313-327 | after a successful sync every date was readable, and every catalog row is stored or collides with a stored journal |
| Catalog.ResyncCreatesNothing | scraper/scraper.py:286-327 | syncing the same catalog again inserts nothing and only refreshes the dates |
| Catalog.SyncIdempotent | scraper/scraper.py:253-329 | with consistent catalog dates, a second sync with the same catalog is a no-op |
| Catalog.SyncedDateSettled | scraper/scraper.py:297-302 | with consistent catalog dates, after a sync every journal already carries the date the catalog assigns to its ISSN |
| Catalog.FirstRowDateSettled | scraper/scraper.py:295-327 | a journal created from a row already carries the date of the first row filed under its saved ISSN |
| Catalog.SyncCreatesJournalExample | scraper/scraper.py:253-327 | a dashed catalog line creates one journal with the dashes removed and its counters at 0 |
| Catalog.SyncOneRowIntoEmpty | scraper/scraper.py:316-327 | syncing one row with a readable date into an empty database stores exactly that journal |
| Catalog.NoIdentifierFiledAsNan | scraper/scraper.py:277-327 | a row with neither identifier is stored, under the ISSN and alternate ISSN "nan" |
| Catalog.MissingCellsCollide | scraper/scraper.py:316-327 | two rows both lacking the online identifier, the URL or the title collide, so only the first is stored |
| Catalog.InsertFirstBlocksSecond | scraper/scraper.py:327 | of two colliding rows inserted into an empty table only the first is stored |
| Catalog.UnreadableUpdateWritesNothing | scraper/scraper.py:297-308 | an unreadable date assigned to a stored journal raises with the store untouched |
| Progress.NeedsScrape | scraper/scraper.py:334-336 | a journal needs work when fewer issues were scraped than it has, or when its catalog date differs from the scrape watermark (earlier or later) |
| Progress.NewJournalNeedsScrape | scraper/scraper.py:334-337 | a freshly created journal needs scraping exactly when its catalog date is not `datetime.min` |
| Progress.Candidates | scraper/scraper.py:334-337 | exactly the journals with missing issues or a catalog date that differs from the watermark, in table order |
| Progress.SelectJournals | scraper/scraper.py:333-345 | `None` exactly when no journal needs scraping; otherwise one candidate, or all of them when `get_all` |
| Progress.Watermark | scraper/scraper.py:569 | `year + "-01-01"` is a date only for a four-digit year, and then it is January 1 |
| Progress.WatermarkOfYear | scraper/scraper.py:569 | every four-digit year from 1000 on gives January 1 of that year |
| Progress.WatermarkAgreesWithYear | scraper/scraper.py:545-569 | the watermark's year is the year the issue is saved with |
| Progress.DigitsBound | scraper/scraper.py:569 | a string of `n` digits reads as a number below `10^n` |
| Progress.SaveJournal | scraper/scraper.py:552-571 | `numberOfIssues` becomes the page's count; the scraped counter is capped there with the catalog date as watermark, or advances by one with the year's January 1, failing when the year is not a date |
| Progress.SaveJournalCompletes | scraper/scraper.py:564-566 | after saving, the journal is done exactly when the counter reached the page's count |
| Progress.SaveJournalStep | scraper/scraper.py:553-568 | the counter becomes `min(n, scraped + 1)` and does not fall while it was within `n` |
| Progress.SaveJournalCanDecrease | scraper/scraper.py:562-565 | a page listing fewer issues than already counted lowers the counter |
| Ingest.ReadNumber | scraper/scraper.py:499-507 | a cell reads as a number only when it holds non-blank text, and reads as a negative number only with a leading minus |
| Ingest.Numeric | scraper/scraper.py:499-507 | a missing cell or a non-numeral is 0, and any other value is the number the cell reads as; `Ingest.NumericReadsNumbers`, `Ingest.NumericTruncates` and `Ingest.NumericExponent` state the values |
| Ingest.NumericReadsNumbers | scraper/scraper.py:499-507 | `to_numeric(..., errors="coerce").fillna(0)` reads a number's text as that number, and text that is not a numeral or a missing cell as 0 |
| Ingest.NumericTruncates | scraper/scraper.py:499-502 | a decimal `w.f` is saved as the integer `w` |
| Ingest.NumericTruncatesNegative | scraper/scraper.py:499-502 | `-w.f` is saved as `-w`: truncation is toward zero |
| Ingest.NumericExponent | scraper/scraper.py:504-507 | `w` followed by "e" and digits `e` is saved as `w · 10^e` |
| Ingest.DecimalExample | scraper/scraper.py:499-502 | "1.5" is saved as 1 |
| Ingest.ExponentExample | scraper/scraper.py:499-502 | "1e3" is saved as 1000 |
| Ingest.AuthorNames | scraper/scraper.py:603-607 | no names for an empty author field; otherwise one stripped name per piece of the split on "and" |
| Ingest.AuthorNamesSingle | scraper/scraper.py:606 | an author field without "and" is one stripped name |
| Ingest.AuthorNamesFreeOfSeparator | scraper/scraper.py:606 | no stored author name contains "and" |
| Ingest.AuthorNamesCutsNames | scraper/scraper.py:606 | the name "Sandra" is cut into "S" and "ra" |
| Ingest.MissingCellDefault | scraper/scraper.py:591-599 | a missing URL or abstract is saved as "" when no citation of the batch has one, and as "nan" when another has |
| Ingest.MissingUrlsCollide | scraper/scraper.py:591-599 | two citations of one batch without a URL collide on `articleURL` |
| Ingest.ArticleRows | scraper/scraper.py:586-601 | the rows of exactly the citations that are not front or back matter; count and order are `Ingest.ArticleRowsAppend` |
| Ingest.ArticleRowsAppend | scraper/scraper.py:586-601 | a citation added at the end of a batch adds its row at the end, or nothing when it is front or back matter, so the rows follow the citations one for one and in order |
| Ingest.AuthorRows | scraper/scraper.py:603-612 | exactly the authors named by a citation that is not front or back matter |
| Ingest.NamesById | scraper/scraper.py:578-607 | `article_author_names` has keys only for citations with authors, not front or back matter |
| Ingest.NamesByIdLast | scraper/scraper.py:607 | for a repeated id the last citation's names win |
| Ingest.LinksFor | scraper/scraper.py:631-659 | every link joins a stored article to a stored author |
| Ingest.AddArticles | scraper/scraper.py:574-659 | only articles, authors and links grow; new articles belong to the issue, have no PDF or account and are never matter; validity is kept |
| Ingest.NewIssue | scraper/scraper.py:534-547 | a new issue carries its URL, year and journal, and its JSTOR id is the URL's last path segment |
| Ingest.FileIssue | scraper/scraper.py:520-525 | an empty export or one without `year` fails; a known URL reuses its issue; afterwards the URL names the issue, issues only grow by at most one, and only journal `j` may change |
| Ingest.Merge | scraper/scraper.py:494-531 | the ingest fails as a whole exactly when filing the issue fails; on success accounts are untouched and articles, authors and links only grow |
| Ingest.MergeFails | scraper/scraper.py:499-545 | every error case: empty export, no year column, a year that is not an integer, an issue id already taken, and a year the journal cannot store |
| Ingest.MergeExistingIssue | scraper/scraper.py:521-525 | a known issue URL leaves journals and issues unchanged |
| Ingest.MergeNewIssue | scraper/scraper.py:521-525 | a new issue URL appends exactly the new issue and saves the journal's progress |
| Ingest.MergeNewIssueYear | scraper/scraper.py:537-545 | a successful ingest of a new issue had an integer year in its first citation |
| Ingest.FileIssueKeepsValid | scraper/scraper.py:534-571 | filing an issue keeps the store valid and returns a stored issue |
| Ingest.MergeKeepsValid | scraper/scraper.py:494-531 | an ingest keeps every unique constraint and every foreign key |
| Ingest.AddArticlesIdempotent | scraper/scraper.py:574-659 | saving the same citations twice is saving them once |
| Ingest.MergeIdempotent | scraper/scraper.py:494-531 | ingesting the same issue twice is ingesting it once |
| Ingest.MergeCoversRecords | scraper/scraper.py:586-623 | after an ingest every citation that is not matter is stored under the issue or collides with a stored article |
| Ingest.MergeStoresAuthors | scraper/scraper.py:603-624 | after an ingest every author named by a citation that is not matter is stored |
| Ingest.AddArticlesStoresAuthors | scraper/scraper.py:603-624 | saving citations stores every author they name |
| Ingest.InsertedNamesFound | scraper/scraper.py:624 | every author of a bulk insert can be found by name afterwards |
| Ingest.MergeLinksAuthors | scraper/scraper.py:631-659 | a stored article of the batch is linked to every author its last citation names |
| Ingest.FirstIssueOfJournal | scraper/scraper.py:521-569 | the first issue of 58, from 2016, sets the counter to 1 and the watermark to 2016-01-01 |
| Crawl.Absolute | scraper/scraper.py:433-434 | a link not starting with "http" is prefixed with the site, and any other link is kept |
| Crawl.AbsoluteIdempotent | scraper/scraper.py:433-434 | making a link absolute twice is doing it once |
| Crawl.ItemUrls | scraper/scraper.py:431-435 | one absolute URL per link of a year element, in order |
| Crawl.CollectIssueUrls | scraper/scraper.py:424-435 | exactly the absolute links of the year elements that carry `data-year`, one per link |
| Crawl.FilterIssueUrls | scraper/scraper.py:348-354 | the collected URLs naming no stored issue, each once, and nothing else |
| Crawl.Loop | scraper/scraper.py:122-163 | the count only grows, by at most one per URL, and an idle step is a reached budget or a failed download |
| Crawl.Visit | scraper/scraper.py:129-159 | a URL is skipped exactly when its download fails, and an ingest only extends the store |
| Crawl.VisitIsMerge | scraper/scraper.py:129-159 | a visit's outcome is the ingest of the downloaded citations |
| Crawl.IngestBodyProperties | scraper/scraper.py:124-163 | the loop body extends the store, skips exactly failed downloads, keeps validity, files the URL and advances the counter |
| Crawl.VisitIngests | scraper/scraper.py:157-159 | after an ingest the URL names a stored issue, validity is kept, and a new URL advances the counter once |
| Crawl.FiledUnderUrl | scraper/scraper.py:537-547 | after a successful ingest the URL names a stored issue |
| Crawl.MergeNewIssueProgress | scraper/scraper.py:521-568 | ingesting a new URL advances the counter to `min(n, scraped + 1)` and only adds issues under that URL |
| Crawl.MergeNewIssueCounter | scraper/scraper.py:524-568 | ingesting a new URL advances the counter to `min(n, scraped + 1)` |
| Crawl.MergeNewIssueUrl | scraper/scraper.py:537-547 | ingesting a new URL adds issues only under that URL |
| Crawl.LoopWithinBudget | scraper/scraper.py:126-127 | a non-negative budget bounds the number of ingested issues |
| Crawl.LoopExtends | scraper/scraper.py:124-163 | the crawl only extends the store |
| Crawl.LoopCount | scraper/scraper.py:124-163 | without a failure the crawl ingests every downloadable URL, up to the budget |
| Crawl.LoopKeepsValid | scraper/scraper.py:124-163 | the crawl keeps the store valid |
| Crawl.LoopStoresDownloads | scraper/scraper.py:124-159 | a crawl that neither failed nor hit the budget stores every downloadable URL as an issue |
| Crawl.LoopProgress | scraper/scraper.py:124-163 | crawling new URLs advances the counter once per ingested issue, capped at the page's count |
| Crawl.LoopProgressFromZero | scraper/scraper.py:122-163 | a crawl from zero advances the counter by the number of issues ingested, capped at the page's count |
| Crawl.LoopSound | scraper/scraper.py:122-163 | validity, extension, the budget, the ingest count and the stored downloads, all at once |
| Crawl.ScrapeJournal | scraper/scraper.py:100-175 | with nothing pending nothing is ingested; never more ingests than pending URLs |
| Crawl.ScrapeNothingPending | scraper/scraper.py:117-120 | with every link already stored, the counter jumps to the page's count, the watermark to the catalog date, and the journal is done |
| Crawl.ZeroBudgetIsNoop | scraper/scraper.py:126-127 | a budget of 0 stops before the first URL and changes nothing |
| Crawl.PendingAreNewAndAbsolute | scraper/scraper.py:433-440 | the pending URLs are distinct, absolute and not stored |
| Crawl.ScrapeJournalSound | scraper/scraper.py:100-175 | a journal crawl keeps validity, only extends the store, respects the budget, stores every downloaded issue and advances the counter once per ingest |
| Crawl.ScrapeJournalProgress | scraper/scraper.py:114-163 | the counter ends at `min(links, before + ingested)` when something was ingested |
| Paginator.CeilDiv | api/views.py:139-141 | the rounded-up quotient, for either sign of the divisor |
| Paginator.NumPages | api/views.py:139-141 | at least one page for a positive size, enough pages to hold every item and no more; no pages for a negative size |
| Paginator.Slice | api/views.py:144-146 | every page but the last is full, and a page is non-empty exactly when the list is |
| Paginator.FromPage | api/views.py:137-146 | a zero size divides by zero; past the last page nothing; a page below 1 serves the last page; a negative size raises `EmptyPage` |
| Paginator.FromPageWithin | api/views.py:137-146 | a page holds only items of the list, each at most as often |
| Paginator.PagesArePrefix | api/views.py:144-146 | the first `k` pages are the list up to item `k * size` |
| Paginator.PagesPartition | api/views.py:144-146 | the pages in order give back the whole list |
| ArticleViews.ReadParams | api/views.py:151-183 | the request fails exactly when an integer or float parameter does not parse; defaults page 1, size 50, scraped -1, exact 0.1 |
| ArticleViews.DefaultParams | api/views.py:165-183 | a request without parameters reads page 1, size 50, scraped -1, exact 0.1 |
| ArticleViews.ReadParamsOfNumbers | api/views.py:165-178 | the decimal texts of numbers are read back as those numbers |
| ArticleViews.IntParamOfNat | api/views.py:168 | an integer parameter given as a number's decimal text reads as that number |
| ArticleViews.MalformedPageFails | api/views.py:168 | a page that is not a number makes the request fail |
| ArticleViews.RouteOf | api/views.py:185-209 | the first non-empty of title, authorName, journalName or journalID, and issueID picks the handler, otherwise all articles |
| ArticleViews.AllArticlesRows | api/views.py:214-221 | archived articles for scraped 1, unarchived for 0, every article otherwise, in table order |
| ArticleViews.ScrapedSplit | api/views.py:216-221 | the archived and unarchived lists together hold every article |
| ArticleViews.IssueRows | api/views.py:322-327 | exactly the articles of the issue matching the scraped filter, in order |
| ArticleViews.JournalRows | api/views.py:297-302 | exactly the articles of issues of the selected journals matching the scraped filter, in order |
| ArticleViews.AuthorRowsFrom | api/views.py:260-265 | each matching article appears once per matching author linked to it, in order |
| ArticleViews.AuthorRows | api/views.py:260-265 | the join lists each article once per matching author linked to it |
| ArticleViews.AuthorRowsRepeat | api/views.py:260 | an article by two matching authors is listed twice |
| ArticleViews.RepeatCount | api/views.py:260 | `n` copies of a row count `n` times |
| ArticleViews.Paged | api/views.py:236-242 | a page of the rows, a 500 exactly when pagination raises, with the `onlyJstorID` switch carried along |
| ArticleViews.KeyRow | api/views.py:317 | the row whose primary key is the given number, present exactly when some row has that key |
| ArticleViews.ArticlesByIssue | api/views.py:315-337 | a malformed id, or one that is no issue's key, is a 500; otherwise the page of the rows of the issue with that key matching the filter, never the message |
| ArticleViews.MissingIssueIsServerError | api/views.py:316-319 | an issue id that is no stored issue's key gives a 500, not a 400 |
| ArticleViews.StoredIssueServed | api/views.py:315-337 | with database-assigned keys, every stored issue is served under its own key |
| ArticleViews.FirstIssueKeyedOne | api/views.py:315-337 | with one stored issue keyed 1, `issueID=1` lists its rows and `issueID=0` is a 500 |
| ArticleViews.JournalReply | api/views.py:295-312 | the message exactly when no journal matched; otherwise rows of the matched journals' issues |
| ArticleViews.AuthorReply | api/views.py:245-275 | the message exactly when no author is similar enough; otherwise rows of stored articles |
| ArticleViews.GetArticles | api/views.py:150-211 | a bad parameter is a 500; the all-articles route lists every matching article unpaged; the issue route is the issue lookup by key; the message only on searches |
| ArticleViews.ListAll | api/views.py:208-224 | a request without parameters lists every article, in full |
| ArticleViews.AllArticlesUnpaged | api/views.py:208-209 | the all-articles route ignores page, page size and `onlyJstorID` |
| ArticleViews.UnknownJournalId | api/views.py:291-312 | a journal id that is no stored journal's key gives the "no articles found" message |
| ArticleViews.StoredJournalServed | api/views.py:291-312 | with database-assigned keys, a stored journal's key selects exactly that journal |
| Uploads.GetOrCreateAccount | api/views.py:719-722 | the account with the address, created with both counters at 0 when absent, keeping uniqueness |
| Uploads.UpdateArticleAccount | api/views.py:715-726 | nothing for an empty address; a missing article raises; otherwise only that article's account changes, to the account with the address |
| Uploads.UpdateArticleAccountKeepsValid | api/views.py:715-726 | linking an account keeps the store valid |
| Uploads.UpdateArticleAccountIdempotent | api/views.py:715-726 | linking the same article and address twice is linking once |
| Uploads.StorePdf | api/views.py:45-99 | not found, already scraped, missing file, not a PDF and failed upload, each exactly when the checks before it passed and its own fails; stored exactly when all pass, with the clean bucket URL and the account recorded |
| Uploads.UnknownArticleFirst | api/views.py:52-56 | an unknown article is reported before anything about the file |
| Uploads.StorePdfKeepsValid | api/views.py:94 | a stored upload keeps the store valid |
| Uploads.StorePdfRepeatable | api/views.py:60-99 | a successful upload repeated is accepted again and changes nothing more |
| Uploads.UpperCasePdfAccepted | api/views.py:68 | the ".pdf" test ignores case and needs the suffix |
| Donations.ScrapedCount | api/views.py:730-731 | the archived articles linked to an account, at most the article count |
| Donations.ScrapedAccountIds | api/views.py:730-732 | exactly the accounts with at least one archived article, in order |
| Donations.AccountsScraped | api/views.py:729-735 | one row per account with archived articles, with its address and positive count |
| Donations.AccountsScrapedComplete | api/views.py:730-732 | every account with an archived article is listed with its count |
| Donations.NoArchiveNoRow | api/views.py:732 | an account with no archived article is not listed |
| Donations.ChunksFrom | api/views.py:540-543 | pieces of `min(4, remaining)` accounts, all full but the last |
| Donations.ChunkCount | api/views.py:530 | there are `ceil(n / 4)` pieces |
| Donations.ChunksFlatten | api/views.py:540-543 | the pieces in order give back the accounts |
| Donations.CallsMatchChunks | api/views.py:540-571 | call `c` pays piece `c` |
| Donations.FeesMatchFundsNeeded | api/views.py:528-532 | the planned fees add up to exactly what the funds check reserves beyond the minimum balance |
| Donations.AddCall | api/views.py:557-571 | a call is appended, in a new group when the last is full |
| Donations.Plan | api/views.py:535-571 | the groups hold the calls in order, sixteen per group but the last, and the total is the sum of the counts |
| Donations.SumOf | api/views.py:551-555 | the sum of a piece's counts |
| Donations.Distribute | api/views.py:495-571 | a wrong token is a 400, a low contract balance does nothing, short manager funds are a 500, otherwise the plan |
| Donations.SampledAreGroupHeads | api/views.py:636-641 | every 16th submitted transaction is the first of a group |
| Donations.GroupCount | api/views.py:557-558 | there are as many groups as `ceil(calls / 16)` |
| StateDecode.Utf8Decode | api/views.py:742 | `bytes.decode("utf-8")`: decoded text has between a quarter of the bytes and all of them as characters; `StateDecode.DecodeEncode` and `StateDecode.EncodeDecode` are its round trips |
| StateDecode.DecodeOneEncodeChar | api/views.py:742 | decoding an encoded character gives it back with its length |
| StateDecode.EncodeCharOfDecodeOne | api/views.py:742 | re-encoding a decoded character gives back its bytes |
| StateDecode.DecodeEncode | api/views.py:742 | decoding the UTF-8 of any string gives the string back |
| StateDecode.EncodeDecode | api/views.py:742 | bytes that decode are the encoding of what they decode to |
| StateDecode.Hex | api/views.py:744 | `bytes.hex()` gives two digits per byte, which `StateDecode.UnhexHex` reads back |
| StateDecode.HexValue | api/views.py:744 | a hex digit's value is the digit's position |
| StateDecode.UnhexHex | api/views.py:744 | the hex text of bytes reads back as those bytes |
| StateDecode.StrOrHex | api/views.py:739-746 | the decoded text when the bytes are UTF-8, which encodes back to them; otherwise the hex text, which reads back to them |
| StateDecode.StrOrHexCollision | api/views.py:739-746 | two different byte strings share a text only when one is UTF-8 and the other is not |
| StateDecode.TextAndHexCollide | api/views.py:739-746 | the bytes "ab" and the byte 0xAB both become "ab" |
| StateDecode.ValueOf | api/views.py:760-770 | a missing action or type, bytes or uint raises; action 1 gives bytes or their text, 2 the uint, anything else `None` |
| StateDecode.DecodeState | api/views.py:749-773 | the state decodes exactly when every value does |
| StateDecode.DecodeStateLast | api/views.py:753-772 | the last entry is written over the decoding of the ones before |
| StateDecode.DecodeStateKeys | api/views.py:753-772 | the keys of the result are exactly the keys of the entries |
| StateDecode.EntryKeyKept | api/views.py:772 | every entry's key is in the result |
| StateDecode.LastEntryWins | api/views.py:772 | a key takes the value of its last entry |
| StateDecode.DecodeTwo | api/views.py:753-772 | two entries decode to the map with both, the second written last |
| StateDecode.SameKeyMerges | api/views.py:772 | two entries with the same key decode to one entry with the second value |
| StateDecode.CollidingKeysMerge | api/views.py:739-772 | the keys "ab" and 0xAB merge into one entry when keys are decoded |
| StateDecode.RawKeysStayApart | api/views.py:757 | with `raw=True` the same two keys stay apart |

## Left out

- Browser automation and I/O are not modelled:
  - page loading, cookie acceptance and clicking through citations (`remote_driver_setup`, `load_page`, `accept_cookies`, `download_citations`);
  - downloaded-file handling (`get_downloaded_files`, `get_file_content`, `save_current_page`);
  - BibTeX parsing, sleeping and the scraper log.

  A download is the parameter `fetch`; `None` is a failed download.
- `fetch_journal_data` is left out because it downloads the catalog. Its tab-separated rows are the parameter of `Catalog.SyncCatalog`; a missing text cell is `None`, saved as "nan". Which texts Django's date column reads as dates is not modelled: a date cell is either a readable date or unreadable.
- `scrape_all_journals`, `get_masterlist_state` and `print_masterlist_state` are left out: they are scheduling and reporting around the core.
- The endpoints `update_article_bucket_url`, `get_authors`, `get_issues`, `get_journals`, `get_accounts`, `get_amount_for_distribution` and `get_amount_distributed_todate` are not part of this model.
- The demo managers of `api/models.py` and the trigram indexes are left out.
- Trigram similarity is the parameter `Search`: which names pass the threshold, and how titles rank. The title route is therefore only as good as that ranking.
- `float(exact)` is the predicate `isFloat`, because floating-point parsing is not modelled. The threshold is passed on as text.
- Serialisation to JSON (`ArticleSerializer`, `AccountSerializer`) is left out. A reply lists row positions, and `AccountSerializer` is not part of this model.
- Algorand is not modelled: the balance queries, signing, the snapshot call, the submission retries and the confirmation polling. The balances are numbers, and `Donations.Distribute` stops at the planned groups and total. The confirmation loop is covered only by `Donations.SampledAreGroupHeads`, which says which transactions it samples.
- Base64 decoding of state keys and values is left out: entries arrive already decoded.
- How the database picks each new primary key is not modelled. The keys are the parameter `ArticleViews.Keys`, and `ArticleViews.KeyColumn` states what the database guarantees: one per row, from 1, strictly increasing. Which numbers a conflicting insert skips is left open.
- The Django column sizes (`max_length`) and 32-bit integer bounds are not enforced. Python integers and the model's are unbounded.
- `ceil(len(accounts) / 4)` uses float division. It is modelled as exact integer ceiling, which it equals for any realistic number of accounts.
- Progress.SelectJournals: `result[0]` of an unordered query is "whichever row the database returns first". The model takes table order, and its contract only promises some candidate.
- Crawl.FilterIssueUrls: the order of `list(set(...) - set(...))` is unspecified. The contract promises a duplicate-free list with the right members, in any order, and the crawl is proved for every such order.
- ArticleViews.AuthorReply: states only that listed rows are stored articles and when the message is sent. The row multiset is stated by `ArticleViews.AuthorRows`, and paging by `Paginator.FromPage`.
- ArticleViews.JournalReply: states only that listed rows belong to the matched journals. Their exact set is `ArticleViews.JournalRows`, and paging is `Paginator.FromPage`.
- ArticleViews.Paged: states membership and the failure condition. The exact page is `Paginator.FromPage`.
- Crawl.ScrapeJournal: its own contract gives only the bounds. The properties of a crawl are stated by `Crawl.ScrapeJournalSound` and `Crawl.ScrapeJournalProgress`.
- Ingest.LinksFor: states only that links join stored rows. That every named author is linked is `Ingest.MergeLinksAuthors`.
- Text.Split: states only that there is a piece. What the pieces are is stated by `Text.JoinSplit` and `Text.SplitPiecesFree`.
- Text.Lower: lowers ASCII letters only. Python's `str.lower()` also lowers other Unicode letters, which cannot turn a name into one ending in ".pdf" unless it already ends in those ASCII letters or their upper-case forms.
- Ingest.Numeric: reads "inf" and "infinity" as 0, where `to_numeric` gives infinity and `int()` raises, because the model reads only finite decimal numerals. It also computes exactly, where pandas first rounds every numeral to a 64-bit float and `int()` then truncates. So a numeral with more than about 17 significant digits may round across an integer: "1.99999999999999999" is saved as 2 by the program and as 1 by the model. It reads only plain numerals, so "1_000" is not a number to it; in the program pandas' own string parser decides that, and that parser is not part of this model.
- Text.ParseInt: accepts ASCII digits only. Python's `int()` also accepts other Unicode decimal digits, such as Arabic-Indic ones; the model reads text with them as not an integer, because Unicode digit tables are not modelled.
- Ingest.Record: the `ID` and `title` cells are present in every citation. In the program a citation may lack them. If another citation of the batch has the column, the missing cell is NaN, which is saved as "nan" as for `articleURL`. If no citation of the batch has it, `record["ID"]` or `record["title"]` raises `KeyError`. Neither case is modelled.
- Donations.ScrapedAccountIds: `Account.objects.filter(...)` has no `order_by`, so the database may return the accounts in any order. The model lists them in table order.
- Donations.AccountsScraped: follows the same table order as `Donations.ScrapedAccountIds`. The planned calls and groups are stated for that order only.

# Schwab jobs crawler: a Dafny model of its core

The crawler collects engineering postings from the Schwab careers site and
stores them in a local SQLite table. It does four things, and this project
models each one:

- It tags each posting with the technology terms from a fixed vocabulary
  that occur in its text as whole words.
- It derives a posting record from the elements found on a posting page.
- It walks the paginated search results to collect posting URLs.
- It keeps the postings in a table keyed by requisition ID, with an upsert,
  a newest-first listing, two searches and a seeding loop.

Modules, one per file:

- `Wrappers` (`wrappers.dfy`): `Option`.
- `Text` (`text.dfy`): ASCII character classes.
  - `lower()` and `strip()`.
  - Case-folded literal matching.
  - Decimal rendering of the clock.
  - A leftmost-position scan (`FirstFrom`). The regular-expression searches are built on it.
- `StringOrder` (`ordering.dfy`): Python's string `<`.
  - `sorted(set(...))` as insertion into a strictly ascending list.
- `Keywords` (`keywords.dfy`): the vocabulary and `extract_tech_keywords`.
  - `\b` is defined over ASCII word characters.
  - `", ".join` comes with its inverse.
- `Listing` (`listing.dfy`): the `JobListing` record.
- `PageParser` (`parser.dfy`): `parse_job_listing_page` after the HTML lookups.
  - The requisition-ID pick.
  - Pay-label removal.
  - The qualifications section.
  - The deadline pattern.
  - Fallbacks, tagging and truncation.
- `Discovery` (`discovery.dfy`): `get_job_listing_urls` and `scrape_job`.
  - The network is a function parameter.
- `Store` (`store.dfy`): the `jobs` table.
  - The search text.
  - The `ON CONFLICT(req_id) DO UPDATE` upsert.
  - `save_job` with its two commits.
  - `get_all_jobs`.
- `Search` (`search.dfy`): the query string `search_jobs` hands to FTS5, and SQLite `LIKE` with `search_jobs_simple`.
- `Seed` (`seed.dfy`): `seed_mock_data` over any list of postings.

Inputs the program gets from outside are parameters of the model:

- **Page lookups:** what BeautifulSoup finds on a page is an `Option<string>` per element.
- **Listing pages:** the answer for a search results page is `FetchFailed` or the list of `href` values.
- **Posting pages:** the answer for a posting page is `NetworkError` or a status code with the page.
- **Clocks:** `int(time.time())` and `datetime.now().isoformat()` are a `nat` and a string.
- **Save outcomes:** two booleans say how `save_job` went. The first says whether the upsert is in effect on the connection afterwards. The second says whether the commit, the index insertion and the second commit all went through after it.
- **Table state:** the table is the one the crawler's own connection sees. A COMMIT that fails with SQLITE_BUSY leaves the transaction open, so the upsert stays in effect on that connection and a later commit persists it. A failure that rolls the transaction back is the outcome where the first boolean is false.

Every vocabulary term is searched for wrapped in `\b`. A term that ends in a non-word character (`c++`, `c#`) therefore matches only where a word character follows it, and one that begins with a non-word character (`.net`) only where a word character precedes it. So `c++` followed by a space or by the end of the text is not reported. `Keywords.TrailingSymbolNeedsWordAfter` states the trailing half of this rule.

## Model

| member | source | states |
|---|---|---|
| Keywords.VocabularyWellFormed | crawler.py:189-216 | every vocabulary term is non-empty and free of commas, so a joined list of terms can be split back |
| Keywords.FirstWholeWordMatch | crawler.py:223-227 | finds a match exactly when the term occurs in the text with a `\b` boundary on both sides; the position found is such an occurrence, and no earlier position is |
| Keywords.KeywordHits | crawler.py:218-229 | the list is strictly ascending and holds exactly the vocabulary terms that occur as whole words in the lowered text |
| Keywords.ExtractTechKeywords | crawler.py:218-229 | the stored string splits back into a strictly ascending list of exactly the vocabulary terms that occur as whole words in the lowered text |
| Keywords.ExtractIsExact | crawler.py:229 | the output is the `", "`-join of the only strictly ascending list with those members, so the same input always gives the same output |
| Keywords.JoinRoundTrip | crawler.py:229 | splitting a `", "`-joined list of non-empty comma-free terms gives the list back |
| Keywords.HitsOnce | crawler.py:229 | no term is reported twice, however often it occurs |
| Keywords.HitsIgnoreCase | crawler.py:220 | texts that agree once lowered get the same keywords |
| Keywords.ReactIsNotR | crawler.py:225-226 | the text "react" reports "react" and does not report "r" |
| Keywords.NoHitInsideWord | crawler.py:225-226 | a term ending in a word character is not matched where a word character follows it |
| Keywords.TrailingSymbolNeedsWordAfter | crawler.py:225-226 | after a term ending in a non-word character, the closing `\b` holds exactly when a word character follows |
| PageParser.FindReqId | crawler.py:244 | finds an ID exactly when `\d{4}-\d` occurs; the result has the ID's shape, starts at the leftmost occurrence, and takes the whole digit run after the dash |
| PageParser.LeftmostRequisition | crawler.py:244 | in "12345-6" the leftmost match starts at the second digit and is "2345-6" |
| PageParser.RequisitionId | crawler.py:241-247 | never empty; it is the found ID when the element exists and holds one, and otherwise "UNKNOWN-" followed by the clock |
| PageParser.RemovePayLabel | crawler.py:253 | never lengthens the text, and leaves text with no "Pay range" in it unchanged |
| PageParser.PayLabelOnlyDeletes | crawler.py:253 | the removal only deletes: no character occurs in the result more often than in the text |
| PageParser.PayLabelDropped | crawler.py:253 | scanning left to right, the first "Pay range" goes together with the whole whitespace run after it, the text before it is kept, and the removal carries on after the run |
| PageParser.PayRange | crawler.py:250-255 | "Not Specified" without a salary element; otherwise the salary text with the labels removed, then trimmed, so it neither starts nor ends with whitespace |
| PageParser.PayLabelRemoved | crawler.py:250-256 | "Pay range " in front of a trimmed, label-free figure leaves exactly that figure |
| PageParser.Capture | crawler.py:266-268 | the captured section is a piece of the description, and no "Preferred" or "What you" starts inside it |
| PageParser.Qualifications | crawler.py:266-268 | "" when there is no marker; otherwise the stripped text from the first marker up to the first following section start (or the end), a piece of the description |
| PageParser.QualificationsSection | crawler.py:266-268 | text + "Required Qualifications: " + body + "Preferred" + rest yields the stripped body. This holds when no marker matches in the leading text, no "Preferred" or "What you" (in any case) starts inside the body, and the body does not open with a colon or whitespace |
| PageParser.Deadline | crawler.py:277-278 | "" exactly when no labelled date occurs in the markup; otherwise ten characters of date shape, taken from the leftmost labelled date |
| PageParser.ParseJobListingPage | crawler.py:231-297 | each field takes its fallback literal or the found text. The keywords are the extractor's output on the untruncated title, description and qualifications, so they split into a strictly ascending list of exactly the terms found there. The description is then cut to its first min(length, 2000) characters and the qualifications to their first min(length, 1000) |
| PageParser.FallbackCompleteness | crawler.py:237-263 | a page with no element found still gives a complete record: every fallback literal, and an "UNKNOWN-" ID whose digits read back as the clock |
| Discovery.JobUrlsExact | crawler.py:322-328 | a page's URLs are exactly the resolved `href`s that mention "/job/"; each one is a posting URL |
| Discovery.Dedup | crawler.py:326-329 | the accumulated list has no repetition and holds exactly the URLs seen |
| Discovery.DedupFirstSeen | crawler.py:326-329 | URLs are kept in the order in which each was first seen |
| Discovery.FirstFailure | crawler.py:309-317 | the first page up to the limit that cannot be read, if there is one |
| Discovery.Requested | crawler.py:309-317 | the pages requested are 1, 2, … in order (page 1 at the base URL, page k at base + "/" + k). None is requested past `max_pages`, and none if it is below 1. Every page requested before the last was read, and the crawl stops early only at a page that failed |
| Discovery.PageUrlsDistinct | crawler.py:309-311 | two different page numbers from 1 up give different page URLs, so no results page is requested twice |
| Discovery.StopsAtFailure | crawler.py:314-317 | nothing from the first failing page onward is read |
| Discovery.ReadUntilFailure | crawler.py:309-317 | when page p is the first failure, pages 1 to p-1 are read and p pages are requested |
| Discovery.ReadAll | crawler.py:309-317 | when no page fails, every page up to the limit is read and requested |
| Discovery.DiscoverProperties | crawler.py:302-338 | the result has no repetition, holds only posting URLs, includes every kept link of every page read, and is in first-seen order |
| Discovery.AddPageLinks | crawler.py:324-329 | the inner loop leaves the accumulator equal to the duplicate-free list of everything seen so far |
| Discovery.GetJobListingUrls | crawler.py:302-338 | the loop returns the reference result and requests exactly the reference page list |
| Discovery.ScrapeJob | crawler.py:340-353 | a record exactly when the answer has status 200. That record is the page parsed with the fetched URL, so it carries that URL and the page's parsed ID and deadline |
| Store.SearchBlob | crawler.py:112 | the search text is the title, description, qualifications, keywords and location in that order, each after the previous one and a single space: every field is found at its offset, and the length is the five fields plus four separators |
| Store.RefreshKeepsBlob | crawler.py:119-127 | the refreshed row keeps its requisition ID, and its search text is the new posting's |
| Store.UpsertKeepsValid | crawler.py:70-72 | the upsert keeps requisition IDs unique and ids increasing. It adds a row exactly when the requisition was new, and the next id moves on exactly then |
| Store.UpsertStoresJob | crawler.py:114-130 | after `Store.Upsert`, exactly one row holds the requisition. Title, location, pay, description, qualifications, scrape time, keywords and search text are the new posting's. Category, position type, deadline and URL stay as stored. A refreshed row keeps its id, as DO UPDATE leaves the row in place, and a new row gets the next id |
| Store.UpsertKeepsOthers | crawler.py:114-130 | rows of other requisitions are neither removed, changed nor added |
| Store.UpsertIdempotent | crawler.py:114-130 | saving the same posting twice in a row changes nothing the second time |
| Store.SaveJobEffect | crawler.py:106-144 | on a table that keeps its constraints, `Store.SaveJob` keeps them. Success means exactly one row holds the requisition, with the posting's title, location, pay, description, qualifications, scrape time, keywords and search text. Failure means the table is unchanged or the posting is stored. A row is added only for a new requisition, and rows of other requisitions stay as they were |
| Store.FailureAfterCommit | crawler.py:132-144 | on any table that keeps its constraints, when the upsert stays in effect but a later step fails, save reports failure and the posting is stored all the same |
| Store.InsertNewestSorted | crawler.py:149 | insertion keeps the list newest first and adds exactly the one row |
| Store.GetAllJobs | crawler.py:146-150 | every row exactly once (a permutation), in non-increasing `scraped_at` order |
| Search.RemoveQuotes | crawler.py:157 | no quote is left, and every other character keeps its count |
| Search.FtsQuery | crawler.py:157-164 | the MATCH argument ends with `*`, has no quotes, and keeps the other characters of the query in order. Every character other than a quote keeps its count, except `*`, which gains exactly one ("a*" gives "a**") |
| Search.QuoteFreeQueryKept | crawler.py:157-164 | a query without quotes reaches the index unchanged apart from the `*` |
| Search.LikeIsSubstring | crawler.py:170-178 | for a query without `%` or `_`, `LIKE '%q%'` is a case-insensitive substring test |
| Search.Filter | crawler.py:173-179 | keeps exactly the matching rows, in their order, and so keeps a newest-first order |
| Search.SearchJobsSimple | crawler.py:168-182 | exactly the rows whose title, description, keywords or location match, newest first, in the order of this model's full listing |
| Search.SimpleSearchIsSubstring | crawler.py:168-182 | for a query without `%` or `_`, a row is found exactly when the query occurs, ignoring case, in its title, description, keywords or location. Qualifications are not searched |
| Seed.SeedMockData | crawler.py:642-653 | the loop saves every posting in order, and the count is the number of saves that reported success |
| Seed.SeedKeepsValid | crawler.py:646-649 | seeding keeps the table's constraints |
| Seed.SeedHolds | crawler.py:646-649 | seeding removes no requisition, and it holds every posting whose upsert went through |
| Seed.SeedTwiceKeepsCount | crawler.py:642-653 | when the first run's upserts all went through, a second run adds no row, however its saves go |
| Seed.SeedFreshTable | crawler.py:642-653 | into an empty table, postings with distinct IDs whose saves all succeed give one row each, and the count equals the number of postings |
| Text.DecimalRoundTrip | crawler.py:246 | the clock's decimal rendering is all digits and reads back as the clock value |

## Left out

- HTML parsing: element lookups are inputs.
  - `find_all('a', href=...)` is a list of `href` values.
  - A missing `href` is "".
- Discovery.GetJobListingUrls takes the page limit as an argument. The default of 4 is left out.
- Network, timeouts and rate limiting are not modelled.
  - `requests.get` and `time.sleep` are not modelled.
  - A failure while reading a results page is not modelled apart from `FetchFailed`. The model treats a non-200 status and an exception the same way, since both stop the loop.
- Printing is left out.
- The FTS5 engine is left out.
  - MATCH semantics, `ORDER BY rank` and the join are left out.
  - So is which rowid `last_insert_rowid()` gives the index entry.
  - The index write is only a step that may fail after the first commit.
- Both searches depend on the engine.
  - `search_jobs` is modelled only up to the query string it builds.
  - `search_jobs_simple` is modelled over the table's rows.
- Exceptions inside `parse_job_listing_page` are left out. Once the lookups are inputs, none of the modelled string steps can raise.
- Unicode: the model is ASCII-only.
  - `\w`, `\d` and `\s` are ASCII.
  - So are `lower()` and `re.IGNORECASE`.
  - Python and SQLite treat non-ASCII letters differently.
- Store.GetAllJobs: rows with the same `scraped_at` come out in rowid order.
  - SQLite leaves their order unspecified.
  - The contract states only the permutation and the non-increasing order.
  - Search.SearchJobsSimple is a subsequence of this listing only in the model. SQLite need not order ties the same way in the two queries.
- Store.UpsertKeepsValid: a refresh keeps the next id unchanged. With AUTOINCREMENT, SQLite may use up an id on the conflicting insert, so later rows can get larger ids than the model gives. The model's new rows take its own next id, so after a refresh that id can be smaller than the one SQLite would assign. A refreshed row keeps its id in both.
- Store.SaveJob: durability is not modelled. The table is the crawler connection's view. A first commit that fails with SQLITE_BUSY leaves the upsert in effect, the same outcome as a failed index insertion: the upsert stands and save reports failure. An error that rolls the whole transaction back (SQLITE_FULL, SQLITE_IOERR, SQLITE_NOMEM) is modelled as the upsert not being in effect. Whether the write survives the process depends on a later commit, which the model does not follow.
- Store.Valid: uniqueness of `req_id` is a table invariant that the lemmas carry. The model does not reject a second row with the same requisition, because it never builds one.
- Keywords.HitsIgnoreCase: the concrete sentence "Built with Java, java and JAVA plus React." is not evaluated. Instead, case-insensitivity and single reporting are proved for every text.
- Seed.SeedTwiceKeepsCount: assumes the first run's upserts all went through. If an upsert fails in the first run, the second run can add that row.
- Seed.SeedMockData takes the postings as a parameter. The contents of the fixed mock list are left out.
  - Those postings carry hand-written keyword lists.
  - So the extractor's output shape is not an invariant of stored rows.
- The Flask layer is left out: the HTTP handlers, the FTS-then-LIKE dispatch and the statistics endpoint.
- Also left out:
  - the resume-prompt generator;
  - the command-line entry point and its orchestration loop;
  - `init_db` beyond the constraints the table keeps.

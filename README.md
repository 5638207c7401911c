# Subreddit scraper: a Dafny model

The scraper is a small Streamlit page. The user types three Reddit API credentials and a subreddit name, then presses a button. The page asks Reddit for the subreddit's "top" listing, capped at 300 entries. It keeps the posts created in the last 180 days and stops after 100 of them. It shows them as a table and offers them as a CSV download named `<subreddit>_last_6_months.csv`.

This project models the logic behind that button, in one module `Scraper` (`scraper.dfy`):

- `Post`, `Author` and `PostRecord` are the listing entry, its optional author and the flat output row.
- `CredentialsComplete` is the guard that all three credential strings are non-empty.
- `Filter`, `Take`, `Candidates` and `Selection` are the specification of the walk: keep the recent posts of the first 300 candidates, in order, and take the first 100 of them as records.
- `SelectPosts` is the walk itself. It is a `while` loop with a record accumulator, a counter and an early `break`. It is proved equal to `Selection`.
- `Scrape` is the whole button press as a value. `OnScrapeClicked` is the same handler written step by step, and it is proved equal to `Scrape`. The result is one of the `Outcome` cases: `MissingCredentials`, `Failed`, `NoPosts` (the warning) or `Success(records, fileName)`.

Modelling choices:

- Creation times are whole epoch seconds (`int`). The cutoff "now minus 180 days" is an integer parameter.
- What the listing request gives back is a parameter `fetch`: either the ranked posts (`Listing`) or an exception (`Raised`).
- The 300-entry cap of `subreddit.top(limit=300)` is written out as `Candidates(posts)`, the first `min(|posts|, 300)` posts. It is not a precondition.
- `SelectPosts` also returns `examined`, the number of posts it drew from the listing. This states the early stop: the walk ends right after the 100th kept post.

## Model

| member | source | states |
|---|---|---|
| Scraper.ToRecord | reddit_scrapper_version_3.py:42-51 | the author column is "Unknown" exactly when the post has no author (or an account literally named "Unknown"), the account name otherwise; id, title, text, score, comment count and URL are copied unchanged, and the creation time is kept as raw seconds |
| Scraper.AuthorLabel | reddit_scrapper_version_3.py:45 | the author column is "Unknown" if and only if the author is absent or an account named "Unknown", and the account name whenever there is an account |
| Scraper.RecordCollision | reddit_scrapper_version_3.py:45 | two posts map to the same record if and only if they are equal, or differ only in that one has no author and the other is an account named "Unknown" |
| Scraper.Records | reddit_scrapper_version_3.py:42-51 | the records of a sequence of posts have the same length and the i-th record is the mapping of the i-th post |
| Scraper.RecordsPreserveOrder | reddit_scrapper_version_3.py:42-51 | mapping posts to records keeps an in-order sub-listing in order |
| Scraper.IsRecent | reddit_scrapper_version_3.py:41 | defines the filter test: a post is kept when its creation time is at or after the cutoff |
| Scraper.Filter | reddit_scrapper_version_3.py:40-41 | the filtered listing is no longer than the listing and every post in it was created at or after the cutoff |
| Scraper.FilterAppend | reddit_scrapper_version_3.py:40-41 | filtering a listing split in two is filtering each part and concatenating |
| Scraper.FilterMembership | reddit_scrapper_version_3.py:40-41 | a post survives the filter if and only if it is in the listing and created at or after the cutoff |
| Scraper.FilterPreservesOrder | reddit_scrapper_version_3.py:40-42 | the filtered listing is an in-order subsequence of the listing |
| Scraper.FilterMultiplicity | reddit_scrapper_version_3.py:40-42 | each post occurs in the filtered listing as often as in the listing when it is recent, and not at all otherwise, so repeated posts are all kept |
| Scraper.FilterAllRecent | reddit_scrapper_version_3.py:41 | when every post is recent, the filter keeps the whole listing |
| Scraper.Take | reddit_scrapper_version_3.py:52-54 | keeping at most n elements yields the leading min(n, length) elements |
| Scraper.Candidates | reddit_scrapper_version_3.py:40 | the loop sees at most the first 300 entries of the listing, as a leading part of it, and the whole listing when it is no longer than 300 |
| Scraper.Selection | reddit_scrapper_version_3.py:37-54 | the specification of the loop: the records of the first 100 recent posts; never more than 100 records nor more than there are posts |
| Scraper.SubsequencePrefix | reddit_scrapper_version_3.py:52-54 | cutting a subsequence short leaves a subsequence, so stopping early keeps the order |
| Scraper.SelectionIsPrefix | reddit_scrapper_version_3.py:37-54 | the kept records number min(100, k), k the number of recent posts, and are exactly the leading records of the filtered listing |
| Scraper.SelectionRecent | reddit_scrapper_version_3.py:41-42 | every kept record has a creation time at or after the cutoff |
| Scraper.SelectionPreservesOrder | reddit_scrapper_version_3.py:40-51 | the kept records appear in the same relative order as in the listing |
| Scraper.SelectionMaximal | reddit_scrapper_version_3.py:40-54 | when fewer than 100 records are kept, every recent post of the listing has its record among them |
| Scraper.AllRecentTakesLeading | reddit_scrapper_version_3.py:40-54 | a listing of recent posts only yields the records of its first min(100, n) posts |
| Scraper.NoneRecentEmpty | reddit_scrapper_version_3.py:40-54 | a listing with no recent post yields no records |
| Scraper.FilterStep | reddit_scrapper_version_3.py:41-52 | drawing one more post appends its record exactly when it is recent |
| Scraper.StoppedWalkIsSelection | reddit_scrapper_version_3.py:52-54 | once the listing is exhausted with at most 100 kept, or exactly 100 are kept, what was kept is the selection |
| Scraper.SelectPosts | reddit_scrapper_version_3.py:37-54 | the loop returns the first 100 recent posts of the listing as records, in order; it draws no post from the listing after the 100th kept one, and stops early only when 100 are kept |
| Scraper.CredentialsComplete | reddit_scrapper_version_3.py:22 | the guard holds if and only if none of the client id, client secret and user agent is the empty string |
| Scraper.FileName | reddit_scrapper_version_3.py:66 | the file name is the subreddit name followed by "_last_6_months.csv" |
| Scraper.FileNameInjective | reddit_scrapper_version_3.py:66 | different subreddits never get the same file name |
| Scraper.Scrape | reddit_scrapper_version_3.py:21-73 | missing credentials if and only if a credential string is empty; failure if and only if the credentials are complete and the request raised; the warning if and only if no post was kept; on success exactly the records the loop keeps from the first 300 candidates (`Selection`), which are 1 to 100 records, all recent and in listing order, with the file name of the subreddit |
| Scraper.MissingCredentialsIgnoresListing | reddit_scrapper_version_3.py:22-23 | with a credential missing, the outcome does not depend on the subreddit, the cutoff or the listing |
| Scraper.BeyondLimitIgnored | reddit_scrapper_version_3.py:40 | entries of the listing past the 300th never change the outcome |
| Scraper.OnScrapeClicked | reddit_scrapper_version_3.py:21-73 | the step-by-step handler, running the loop, gives the outcome `Scrape` specifies |

## Left out

- The Streamlit page itself (title, sidebar, text inputs, button, table, success, warning and error messages): presentation only. The messages are the `Outcome` cases.
- The default credential values read from the environment (lines 13-15): they read the process environment.
- The praw client (lines 26-33, 40): network I/O through a library. Its result is the `fetch` parameter.
- An exception raised part-way through the listing is modelled like one raised before it (`Raised`). Both give the `Failed` outcome, because the kept posts are thrown away.
- The kind of exception caught at line 72: all are one `Failed` outcome.
- Client construction (lines 26-30) sits outside the `try`, so an exception there would not be caught. The model has no client and does not represent this case.
- The cutoff computation (lines 34-35) uses the clock. It is a parameter here. The shift caused by calling `.timestamp()` on a naive UTC `datetime` (it is read as local time) is not modelled.
- Creation times are floats in praw. The model uses whole seconds.
- Scraper.ToRecord: the "Timestamp" column keeps the raw creation time in seconds; the conversion to a `datetime` with `utcfromtimestamp` (line 46) is not modelled.
- The DataFrame, the CSV text and its UTF-8 encoding (lines 57, 62): done by pandas, so no CSV round trip is stated.

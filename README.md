# Twitter profile scraper and analysis prompts — a Dafny model

The script `twitter-analysis-app.py` logs into Twitter with a browser. It
scrolls a profile and collects the profile's posts from the text spans of
each page snapshot. It then asks a language model about them. This project
models the part of it that holds logic:

- **Text** (`text.dfy`): the Python string operations it uses. These are
  `str.isspace`, `str.strip` and `sep.join`.
- **Cleanup** (`cleanup.dfy`): the substitution
  `re.sub(r'\b(\d+)(?:\s*[A-Za-z]*)?\s+\1\b.*', '', text)`, modelled
  concretely. It cuts an engagement counter pair such as "5 likes 5" and the
  rest of its line.
- **Scraper** (`scraper.dfy`): the collection loop of
  `TwitterScraper.get_tweets`. There are two layers:
  - the pure reference functions `Scan` (one snapshot, the inner loop) and
    `Crawl` (the scroll loop), with lemmas about them;
  - the class `TwitterScraper`, whose fields are the ones the source mutates
    (`tweet_texts`, `tweet_ids`). Its method `GetTweets` keeps the source's
    scroll loop and its `break`. The inner loop over one snapshot's segments
    is the method `ReadSnapshot`, with the buffer reset and the early exit.
    Together they are proved equal to `Crawl`.
- **Analysis** (`analysis.dfy`): the prompt and instruction templates chosen
  by `analyze_type` in `analyze_tweets_with_gpt`.
- **App** (`app.dfy`): the scroll budget `tweet_limit // 4`, the scraper run
  built from it, and the end-to-end run for the handle "alice".

The model's inputs:

- **Snapshots.** The browser is replaced by `page: nat -> seq<string>`.
  `page(k)` is the list of stripped span texts seen after `k` scroll steps.
- **Hash.** Python's built-in `hash` is a parameter `hash: string -> int`. It
  is fixed for one run, and nothing else is assumed about it. The
  deduplication promise is therefore stated in terms of hashes.
- **Scroll count.** Scrolling is kept as a counter, `scrolls`, next to the
  number of snapshots read, `pagesRead`.

The regular expression is modelled with ASCII `\d`, `[A-Za-z]` and `\w`. Its
`\s` is the set of characters `str.isspace` accepts. The model uses its
structure:

- `\d+` must take the whole digit run.
- The back-reference can only begin after "whitespace, letters, whitespace",
  and only when a whitespace character comes just before it.
- `.*` ends at the line break.

The substitution's result is not stripped again. So
`"hello world 5 likes 5"` becomes `"hello world "`, trailing space included
(`Cleanup.CleanExample`). One might expect `"hello world"`, but nothing
strips the text after the substitution, so the space stays.

## Model

| member | source | states |
|---|---|---|
| Text.TrimStartSpec | twitter-analysis-app.py:50 | the leading part `strip()` removes is all whitespace, what remains is a suffix of the input, and it does not start with whitespace |
| Text.TrimEndSpec | twitter-analysis-app.py:50 | the trailing part `strip()` removes is all whitespace, what remains is a prefix of the input, and it does not end with whitespace |
| Text.StripSpec | twitter-analysis-app.py:50 | `strip()` returns a middle part of its input, removes only whitespace on either side, and leaves no whitespace at either end |
| Text.StripIdempotent | twitter-analysis-app.py:50 | stripping an already stripped text changes nothing |
| Text.JoinContainsPart | twitter-analysis-app.py:50 | every part of `sep.join(parts)` occurs intact in the joined text |
| Text.JoinLength | twitter-analysis-app.py:50 | the joined text is as long as all parts plus one separator between each pair of neighbours |
| Cleanup.SkipSpec | twitter-analysis-app.py:51 | each character run of the pattern (`\d+`, `\s*`, `[A-Za-z]*`) is taken whole: every skipped character belongs to the class and the next one does not |
| Cleanup.LineEndSpec | twitter-analysis-app.py:51 | `.*` stops at the first line break after the match, or at the end of the text |
| Cleanup.CleanDeletes | twitter-analysis-app.py:51 | the substitution only deletes characters: its result is a subsequence of its input, hence never longer |
| Cleanup.CleanNoMatch | twitter-analysis-app.py:51 | text in which the pattern matches nowhere is returned unchanged |
| Cleanup.CleanCutsLine | twitter-analysis-app.py:51 | on a single line, the result is exactly the text before the first position where the pattern matches |
| Cleanup.CleanExample | twitter-analysis-app.py:50-51 | `"hello world 5 likes 5"` is cleaned to `"hello world "`; the space before the counter stays because nothing strips again |
| Scraper.PostTextShrinks | twitter-analysis-app.py:50-51 | a stored post is a subsequence of the stripped joined buffer, and no longer than it or the joined buffer |
| Scraper.ConsistentNoDuplicates | twitter-analysis-app.py:52-55 | when the id set is the hashes of the stored texts and the hashes are distinct, no text is stored twice and there are as many ids as texts |
| Scraper.RecordConsistent | twitter-analysis-app.py:52-55 | a flush keeps the id set equal to the hashes of the list with distinct hashes; it appends the post exactly when its hash is new, leaves the list alone otherwise, and the post's hash is seen afterwards |
| Scraper.ScanConsistent | twitter-analysis-app.py:43-60 | scanning one snapshot keeps id set and list consistent and only appends to the list |
| Scraper.ScanConsistentPrefix | twitter-analysis-app.py:54 | scanning a snapshot leaves the earlier list as a prefix of the new one, whatever the id set |
| Scraper.ScanBound | twitter-analysis-app.py:53-58 | from below the limit, a scan never passes the limit, and it stops early exactly when the list reaches the limit |
| Scraper.ScanIgnoresRest | twitter-analysis-app.py:57-58 | once the limit stops a scan, the segments after that point are never examined |
| Scraper.ScanWithoutHandle | twitter-analysis-app.py:48-60 | segments without the handle among them flush nothing and change nothing |
| Scraper.ScanDropsTrailing | twitter-analysis-app.py:42-60 | segments after a snapshot's last handle produce no post: appending them leaves the scan's outcome unchanged |
| Scraper.ScanPostsFromBlocks | twitter-analysis-app.py:42-60 | every post a scan of a snapshot adds is the text of one of its post blocks: a run of segments that starts at the snapshot's start or right after a handle, is closed by the next handle, and contributes its segments other than the middle dot, in order, joined, stripped and cleaned |
| Scraper.BlockAtUnique | twitter-analysis-app.py:48-59 | a handle closes exactly one block: two blocks ending at the same handle start at the same place, the start of the snapshot or the previous handle |
| Scraper.ScanFillsBuffer | twitter-analysis-app.py:43-60 | up to the next handle, segments only feed the buffer: those other than the middle dot are appended in order and nothing is recorded |
| Scraper.ScanFlushesBlock | twitter-analysis-app.py:48-59 | conversely, a block closed by the handle is flushed as one post made of the buffer and the block's non-dot segments; the scan then continues with an empty buffer, or stops at the limit |
| Scraper.ScanBlocks | twitter-analysis-app.py:42-60 | a snapshot made of handle-closed blocks and a handle-free tail records the blocks' posts one by one, in order, stopping at the limit; the tail produces nothing |
| Scraper.RecordAllDistinct | twitter-analysis-app.py:52-58 | posts with distinct, unseen hashes are appended in order until the limit: exactly as many as fit, stopping early exactly when not all fit |
| Scraper.SnapshotPosts | twitter-analysis-app.py:42-60 | for such a snapshot whose posts have distinct, unseen hashes, the list gains exactly min(number of posts, room left under the limit) entries, the posts in flush order |
| Scraper.CrawlInvariants | twitter-analysis-app.py:38-62 | the whole scroll loop keeps the id set consistent and the list append-only; starting below the limit, it never stores more than the limit |
| Scraper.CrawlCounts | twitter-analysis-app.py:38-63 | at most `scroll_count` snapshots are read; every snapshot read is followed by a scroll except the one after which the limit is reached; the loop ends early exactly when the limit is reached |
| Scraper.CrawlReadsOnly | twitter-analysis-app.py:38-62 | the outcome depends only on the snapshots actually read; no later snapshot is consulted |
| Scraper.TwitterScraper.constructor | twitter-analysis-app.py:14-22 | the handle is stored with its `@`, the limit and scroll count as given, the list and id set start empty |
| Scraper.TwitterScraper.ReadSnapshot | twitter-analysis-app.py:42-60 | the inner loop over one snapshot leaves exactly the list and id set of the reference scan, keeps them consistent, and leaves the counters alone |
| Scraper.TwitterScraper.GetTweets | twitter-analysis-app.py:36-66 | the nested loops leave exactly the list and id set of the reference crawl; they read and scroll as many times as it says, keep the list consistent and append-only and within the limit, and return the list |
| Analysis.RequestOnlyForKnownTypes | twitter-analysis-app.py:70-80 | a prompt is bound exactly for `main_topics` and `aggressive_language` |
| Analysis.RequestEmbedsInputs | twitter-analysis-app.py:69-80 | a built prompt contains the username passed in (the scraper's `@`-prefixed handle, line 16), the tweets joined by line breaks and hence every tweet, and ends with the response language; the instructions end with "respond in" and the language |
| Analysis.TypesGiveDifferentRequests | twitter-analysis-app.py:70-80 | the two analysis types produce different requests for the same inputs |
| App.ScrollBudget | twitter-analysis-app.py:110 | `tweet_limit // 4` is the floor of the limit divided by 4 |
| App.ScrollBudgetForForm | twitter-analysis-app.py:98-110 | the limits the form allows (10 to 200) give budgets from 2 to 50; 10 gives 2 and 200 gives 50 |
| App.FetchTweets | twitter-analysis-app.py:110-120 | a fresh scraper with the derived budget returns the reference crawl's list, at most `tweet_limit` posts and none twice |
| App.AliceScenario | twitter-analysis-app.py:36-66 | for "alice", limit 50 and three snapshots of one post block each: three posts in order, and the loop ends after all 12 budgeted snapshots, not at the limit |

## Left out

- The browser: login, page loading, `page_source`, the scroll script and `driver.quit` (lines 20, 25-37, 39, 63, 65). This is I/O. The snapshots are the input `page`, and scrolling is a counter.
- BeautifulSoup parsing and the `css-1jxf684` span selector (lines 40-41, 44). Their output is taken as the given segment lists, already stripped.
- `time.sleep` (line 64): only a wait.
- The OpenAI assistant, thread, message and run calls and the extraction of the reply (lines 23, 81-90). This is a remote API. In the source, the assistant and thread are created before the unbound `prompt` is used at line 83; the model only records that no request exists (`PromptUnbound`).
- The Streamlit form, the required-field check, the button and the secrets (lines 92-127): user interface. Only the form's limit range is used, in `App.ScrollBudgetForForm`.
- Python's salted `hash`: kept abstract as a parameter.
- Cleanup: `\d`, `\w` and `\b` are ASCII-only here; Python's Unicode digits and word characters outside ASCII are not modelled.
- The assignment `collect_tweet = True` (line 46) has no effect and is not modelled; the middle-dot branch is a plain skip.
- The constructor's `url`, `scroll_pause_time`, browser and client fields (lines 13-23) are not used by the modelled logic.
- The default arguments of `__init__` (`tweet_limit=50`, `scroll_count=15`, line 14) and of `analyze_tweets_with_gpt` (`response_language="English"`, `analyze_type="main_topics"`, line 68) are not modelled: the only call sites (lines 118, 125) pass these values explicitly, so every parameter is an explicit argument here.

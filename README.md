# Web crawler core, modelled in Dafny

This project models the crawling core of `webcrawler.py`:

- the helpers `extract_categories`, `calculate_pagerank` and `keyword_heuristic_score`;
- the best-first crawl `bfs_crawl`. It works from a `heapq` min-heap of `(score, url, depth)` tuples.
- the depth-first crawl `dfs_crawl`. It works from a list used as a LIFO stack of `(url, depth)` pairs.

Both crawls share:

- a visited set;
- a page limit and a depth limit;
- a stop flag, read at the top of every iteration;
- a progress callback, called after every page fetched;
- per-page category tagging, merged into the result dictionary.

The web is a fixed function from URL to either a parsed page or an exception message. `urljoin` is a function parameter, followed by the modelled `rstrip('/')`.

Files and modules:

- `text.dfy` (`Text`): the `str` operations the source uses. These are `strip`, `lower`, `rstrip('/')`, `sub in s` and `s.count(sub)`.
- `helpers.dfy` (`Helpers`): `extract_categories` and `keyword_heuristic_score`, plus the sequence helpers `Distinct` and `Dedup`.
- `frontier.dfy` (`Frontier`): Python's tuple order and `heapq.heappop`.
- `engine.dfy` (`Engine`): what both crawls share. It holds the configuration, the web, the observable effects (successful fetch, `log_error`, `progress_callback`) and the processing of one fetched page.
- `bestfirst.dfy` (`BestFirst`) and `depthfirst.dfy` (`DepthFirst`): the two crawls.
- `pagerank.dfy` (`PageRank`): `calculate_pagerank`.

Each crawl has two spec functions:

- `Step` is one iteration of the source's `while` loop after the stop test.
- `Run` repeats `Step` until the loop ends.

The methods `BfsCrawl` and `DfsCrawl` are the source's loops. Each is proved equal to `Run` from the initial state. The crawl properties are proved about `Run` through an invariant that every `Step` preserves.

The effects of a crawl are returned as a trace of events:

- `Visited(url)`: `visited.add` after a successful fetch;
- `ErrorLogged(url, message)`: a call of `log_error`;
- `Progress(len(visited), max_pages)`: a call of `progress_callback`.

The stop flag is a sequence of booleans. Entry `i` is what `stop_event.is_set()` returns at the top of iteration `i`.

Behaviours of the code worth knowing, all kept by the model:

- A URL whose fetch fails is never added to `visited`. If another page links to it, it is pushed again and fetched again.
- The seed URL is not passed through `rstrip('/')`. It is the only visited URL that may end with a slash.
- An iteration that pops a visited or too-deep entry does not call `progress_callback`.
- The best-first frontier pops the lowest score first. With keywords, links from pages with more keyword hits are therefore crawled later. Without keywords, shorter URLs come first. The model keeps this order.

## Model

| member | source | states |
|---|---|---|
| Text.RStripSlash | webcrawler.py:68 | `rstrip('/')` leaves no trailing slash |
| Text.RStripSlashSuffix | webcrawler.py:68 | `rstrip('/')` removes a suffix made of slashes only |
| Text.LStripSpec | webcrawler.py:19 | the leading half of `strip()` removes a prefix of the string, every removed character is whitespace, and no whitespace is left at the start |
| Text.RStripSpec | webcrawler.py:19 | the trailing half of `strip()` removes a suffix of the string, every removed character is whitespace, and no whitespace is left at the end |
| Text.StripSpec | webcrawler.py:19 | `strip()` keeps a contiguous slice of the string, everything before and after it is whitespace, and the slice neither starts nor ends with whitespace |
| Text.Lower | webcrawler.py:19 | `lower()` keeps the length of the string, turns each upper-case ASCII letter into its own lower-case letter, leaves no upper-case ASCII letter, and leaves every other character as it was |
| Text.ContainsIffOccurs | webcrawler.py:75 | `category in text` holds exactly when the category occurs at some position of the text |
| Text.CountPositiveIffContains | webcrawler.py:37 | any keyword, including the empty one, is counted at least once exactly when it occurs in the content |
| Text.CountIsNumAt | webcrawler.py:37 | `count` never reports more occurrences than there are positions where the keyword occurs, and reports exactly that number when no two occurrences overlap (so a page containing "shop" three times scores 3 for "shop") |
| Text.ShopDisjoint | webcrawler.py:37 | occurrences of "shop" never overlap, so `count` finds every one of them |
| Text.CountBound | webcrawler.py:37 | the occurrences `count` finds do not overlap: count times keyword length is at most the content length |
| Helpers.ExtractCategories | webcrawler.py:15-22 | the loop builds `CategoriesOf(texts)`: every key is the stripped, lowered text of some tag and has at least 3 characters, every such label is a key, and every list is empty |
| Helpers.CategoriesOfKeys | webcrawler.py:15-22 | the keys are exactly the labels of length at least 3, each mapped to an empty list |
| Helpers.LabelsOfSnoc | webcrawler.py:18-21 | one more tag adds its label, and nothing else, when it is long enough |
| Helpers.CategoriesOfTwice | webcrawler.py:15-22 | registering the same tags twice gives the same dictionary (re-registration is idempotent) |
| Helpers.KeywordHeuristicScore | webcrawler.py:32-38 | the loop computes `KeywordScore`, the sum over the keywords of the non-overlapping occurrences of the lowered keyword in the lowered content; no keywords give 0 |
| Helpers.KeywordScoreAppend | webcrawler.py:36-37 | each keyword contributes independently: the score of two keyword lists together is the sum of their scores |
| Helpers.KeywordScoreZero | webcrawler.py:32-38 | the score is 0 exactly when every keyword is non-empty and absent from the content |
| Helpers.DedupSpec | webcrawler.py:80 | `set(urls)` holds every URL of the list exactly once |
| Frontier.StrLessTotal | webcrawler.py:56 | Python's string comparison orders any two different strings |
| Frontier.StrLessTransitive | webcrawler.py:56 | Python's string comparison is transitive |
| Frontier.ItemLessTotal | webcrawler.py:56 | tuple comparison orders any two different `(score, url, depth)` entries |
| Frontier.ItemLessTransitive | webcrawler.py:56 | tuple comparison is transitive |
| Frontier.ItemLessIrreflexive | webcrawler.py:56 | no entry is below itself |
| Frontier.MinIndexLeast | webcrawler.py:56 | the scan finds an entry that no other entry is below |
| Frontier.PopMinSpec | webcrawler.py:56 | `heappop` returns a least entry of the heap and leaves every other entry, with multiplicity, and one fewer in total |
| Frontier.MinimalUnique | webcrawler.py:56 | the least entry is unique, so any correct heap pops the same tuple |
| Frontier.HeapPop | webcrawler.py:56 | the scan loop returns `PopMin(queue)` |
| Engine.NewLinksSpec | webcrawler.py:67-72 | the pushed links are exactly the unvisited resolved links of the page's anchors, and none ends with a slash |
| Engine.CollectSpec | webcrawler.py:74-76 | scanning keeps the page's category keys; a link is in a category's list exactly when it was there before or an anchor whose stripped, lowered text contains the category resolved to it while unvisited |
| Engine.TaggedBySnoc | webcrawler.py:74-76 | one more anchor tags a link into a category exactly when its text contains the category and its link is not visited |
| Engine.TagLink | webcrawler.py:74-76 | the category loop appends the link to every category that occurs in the anchor text and changes no other list |
| Engine.MergeCategories | webcrawler.py:78-80 | the merge loop computes `Merge`: each category that collected links gets its earlier list extended by the set of those links |
| Engine.MergeSpec | webcrawler.py:78-80 | merging keeps every earlier key and list as a prefix; it extends exactly the categories with a non-empty list, by the set of their links, each once; it never leaves an empty list |
| Engine.TraceFail | webcrawler.py:82-86 | a logged failure and its report keep the trace consistent with the visited set |
| Engine.TraceVisit | webcrawler.py:60-86 | a successful fetch of an unvisited URL and its report keep the trace consistent with the visited set |
| Engine.FailKeepsInv | webcrawler.py:82-83 | a failed fetch keeps the crawl invariant and leaves `visited` unchanged |
| Engine.FailGrows | webcrawler.py:82-83 | a failed fetch only adds to the state |
| Engine.SucceedKeepsInv | webcrawler.py:60-80 | a successful fetch keeps the crawl invariant: the page limit, only loaded pages visited, no empty list |
| Engine.SucceedGrows | webcrawler.py:60-80 | a successful fetch only adds to the state: earlier lists stay prefixes |
| BestFirst.Step | webcrawler.py:52-86 | each iteration visits one more page or leaves `visited` alone and shrinks the heap |
| BestFirst.Visit | webcrawler.py:60-86 | a page that loads adds exactly its own URL to `visited`; a failed fetch leaves `visited` and the heap as they were |
| BestFirst.PushesSpec | webcrawler.py:70-72 | one entry per new link, in anchor order, with the link's priority and depth |
| BestFirst.PushedItems | webcrawler.py:67-72 | after a visit the earlier heap entries stay; every new entry is an unvisited link without trailing slash from a loaded page, one level deeper, with the keyword score of the page or the link's length as priority |
| BestFirst.StepEffects | webcrawler.py:56-86 | a skipped pop fetches nothing and reports nothing; any other pop logs one visit or one error, then one progress report; only a loaded page enters `visited` |
| BestFirst.InitInv | webcrawler.py:48-50 | the initial state satisfies the invariant |
| BestFirst.VisitKeepsInv | webcrawler.py:60-86 | a visit keeps the invariant of the state and the heap |
| BestFirst.VisitGrows | webcrawler.py:60-86 | a visit only adds to the state |
| BestFirst.StepKeepsInv | webcrawler.py:52-86 | every iteration keeps the invariant |
| BestFirst.StepGrows | webcrawler.py:52-86 | every iteration only adds to the state |
| BestFirst.RunKeepsInv | webcrawler.py:52-88 | the invariant holds when the loop ends |
| BestFirst.RunGrows | webcrawler.py:52-88 | the final state extends the starting one |
| BestFirst.StoppedIsPrefix | webcrawler.py:53-54 | a crawl stopped early returns a part of what the unstopped crawl returns: fewer visited pages, a prefix of its effects, each list a prefix of its list |
| BestFirst.StopEnds | webcrawler.py:53-54 | a stop flag seen at the top of iteration k ends the crawl: no iteration, and so no fetch, runs at or after k |
| BestFirst.RunEnds | webcrawler.py:52-54 | the crawl ends only when the heap is empty, `max_pages` pages are visited or the stop flag is seen |
| BestFirst.ShortestFirst | webcrawler.py:56-71 | without keywords, the popped non-seed entry has a URL no longer than any other non-seed entry |
| BestFirst.CrawlSpec | webcrawler.py:46-88 | a whole crawl leaves no empty list, reports after every fetch, visits each page at most once and at most `max_pages` pages, and visits only pages that load; only the seed can end with a slash |
| BestFirst.ScanAnchors | webcrawler.py:65-76 | the anchor loop pushes the entries `Pushes` describes and builds the category lists `Collect` describes |
| BestFirst.VisitItem | webcrawler.py:60-86 | the body of the loop after the visited and depth tests computes `Visit` |
| BestFirst.BfsCrawl | webcrawler.py:46-88 | the loop computes `Run` from `(0, start_url, 0)`; its result and effects then satisfy `CrawlSpec` |
| DepthFirst.Step | webcrawler.py:96-129 | each iteration visits one more page or leaves `visited` alone and shrinks the stack |
| DepthFirst.Visit | webcrawler.py:104-129 | a page that loads adds exactly its own URL to `visited`; a failed fetch leaves `visited` and the stack as they were |
| DepthFirst.TasksSpec | webcrawler.py:114-115 | one entry per new link, in anchor order, at the given depth |
| DepthFirst.PushedTasks | webcrawler.py:111-115 | after a visit the entries below stay; on top come the page's unvisited links in anchor order, without trailing slash and one level deeper |
| DepthFirst.NextPopIsLastPushed | webcrawler.py:100-115 | last in, first out: after a page pushed links, the next pop is the link of its last unvisited anchor |
| DepthFirst.StepEffects | webcrawler.py:100-129 | a skipped pop fetches nothing and reports nothing; any other pop logs one visit or one error, then one progress report; only a loaded page enters `visited` |
| DepthFirst.InitInv | webcrawler.py:92-94 | the initial state satisfies the invariant |
| DepthFirst.VisitKeepsInv | webcrawler.py:104-129 | a visit keeps the invariant of the state and the stack |
| DepthFirst.VisitGrows | webcrawler.py:104-129 | a visit only adds to the state |
| DepthFirst.StepKeepsInv | webcrawler.py:96-129 | every iteration keeps the invariant |
| DepthFirst.StepGrows | webcrawler.py:96-129 | every iteration only adds to the state |
| DepthFirst.RunKeepsInv | webcrawler.py:96-131 | the invariant holds when the loop ends |
| DepthFirst.RunGrows | webcrawler.py:96-131 | the final state extends the starting one |
| DepthFirst.StoppedIsPrefix | webcrawler.py:97-98 | a crawl stopped early returns a part of what the unstopped crawl returns |
| DepthFirst.StopEnds | webcrawler.py:97-98 | a stop flag seen at the top of iteration k ends the crawl: no iteration, and so no fetch, runs at or after k |
| DepthFirst.RunEnds | webcrawler.py:96-98 | the crawl ends only when the stack is empty, `max_pages` pages are visited or the stop flag is seen |
| DepthFirst.CrawlSpec | webcrawler.py:90-131 | a whole crawl leaves no empty list, reports after every fetch, visits each page at most once and at most `max_pages` pages, and visits only pages that load; only the seed can end with a slash |
| DepthFirst.ScanLinks | webcrawler.py:109-119 | the anchor loop pushes the entries `Tasks` describes and builds the category lists `Collect` describes |
| DepthFirst.VisitTask | webcrawler.py:104-129 | the body of the loop after the visited and depth tests computes `Visit` |
| DepthFirst.DfsCrawl | webcrawler.py:90-131 | the loop computes `Run` from `(start_url, 0)`; its result and effects then satisfy `CrawlSpec` |
| PageRank.EntriesLength | webcrawler.py:27-28 | the tallied entries are as many as the lists' lengths add up to |
| PageRank.CountsSpec | webcrawler.py:26-29 | the `rank` dictionary holds exactly the URLs seen, each with its number of occurrences |
| PageRank.TalliedKey | webcrawler.py:29 | a URL is a key of `rank` exactly when it is in the dictionary's key order |
| PageRank.ItemsOfTally | webcrawler.py:30 | `rank.items()` pairs each URL with its number of occurrences |
| PageRank.TalliedSum | webcrawler.py:26-29 | the ranks add up to the number of entries tallied |
| PageRank.TalliedSpec | webcrawler.py:26-29 | the tally lists each URL seen once, with its number of occurrences, which is positive |
| PageRank.InsertSpec | webcrawler.py:30 | insertion keeps the entries and their sum, and keeps a sorted list sorted |
| PageRank.InsertStable | webcrawler.py:30 | insertion keeps the order of the entries of each rank and puts the new entry after those of its rank |
| PageRank.SortSpec | webcrawler.py:30 | `sorted(..., reverse=True)` orders by non-increasing rank and is a permutation |
| PageRank.SortSum | webcrawler.py:30 | sorting keeps the sum of the ranks |
| PageRank.SortStable | webcrawler.py:30 | sorting is stable: the entries of each rank keep their order |
| PageRank.SortMembers | webcrawler.py:30 | sorting neither adds nor drops an entry |
| PageRank.RankedCounts | webcrawler.py:24-30 | the result lists every URL of the lists, and only them, each with its positive number of occurrences |
| PageRank.RankedSpec | webcrawler.py:24-30 | the result: each URL once, rank = number of occurrences, ranks non-increasing, ranks summing to the number of list entries, ties in order of first occurrence |
| PageRank.TallyList | webcrawler.py:28-29 | the inner loop extends the tally by one list |
| PageRank.Tally | webcrawler.py:26-29 | the nested loops build the tally of all the list entries, with keys in order of first occurrence |
| PageRank.CalculatePagerank | webcrawler.py:24-30 | the function returns `Ranked(data)`: each URL once, with its count as rank, ranks non-increasing and summing to the number of entries |

## Left out

- Network access, HTML parsing and `urljoin` are not modelled. A page is the result of a fixed function `web` from URL to page or exception message. A page is its anchors with an `href`, the texts of its h2/h3/h4/li tags and its visible text. `urljoin` is an uninterpreted function parameter.
- The web is a fixed function, so a URL fetched twice gives the same answer twice.
- An exception raised after `visited.add` is not modelled. Only the fetch and the parse can fail.
- `log_error` writes to a file. The model records the call as an event and does not write the file.
- `progress_callback` becomes an event in the trace. The model records the event even when no callback is given. The trace is then unobserved.
- The stop flag is set from another thread. It is modelled as a sequence of values read at the top of each iteration. Concurrency itself is not modelled.
- `keywords=None` is modelled as the empty list. Both are falsy in the source and select the length priority.
- Text.Lower: `str.lower()` is modelled for ASCII letters only, and `str.strip()` for ASCII whitespace only. Unicode case mapping and Unicode whitespace are not modelled.
- The result dictionary `categorized_urls` keeps its keys in insertion order (webcrawler.py:80). The model's result is a map, which has no key order, so that order is not modelled.
- The list order of `set(urls)` follows CPython's hash order. The model fixes it to first-occurrence order. Only the set of URLs is meaningful.
- The heap is modelled as an unordered list searched for its least tuple, not as a binary-heap array. The order is total, so this pops the same tuple (`Frontier.MinimalUnique`).
- Frontier.HeapPop: its contract only ties the result to `PopMin`. That the popped tuple is least and the rest is kept is stated by `Frontier.PopMinSpec`.
- `calculate_pagerank` stores its counts as floats. Only `+ 1` increments occur, so the model uses naturals.
- The input dictionary of `calculate_pagerank` is given as its items in insertion order, and its result as its items in order.
- The Tkinter user interface (webcrawler.py:134-261) and its threading are not part of this model.

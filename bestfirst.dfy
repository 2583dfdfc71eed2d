/** `bfs_crawl`: best-first crawling from a min-heap of `(score, url, depth)`
    tuples. `Step` is one iteration of the source's loop, `Run` the loop to
    its end; the method `BfsCrawl` is the loop itself, proved to compute `Run`. */
module BestFirst {
  import opened Text
  import opened Helpers
  import opened Frontier
  import opened Engine

  /** The loop state: the heap, the shared state and the iteration count. */
  datatype Bfs = Bfs(queue: seq<Item>, core: Core, tick: nat)

  /** `queue = [(0, start_url, 0)]`, nothing visited, nothing collected. */
  function Init(seed: Url): Bfs {
    Bfs([Item(0, seed, 0)], Core({}, map[], []), 0)
  }

  /** The loop condition `queue and len(visited) < max_pages`. */
  predicate Active(cfg: Config, s: Bfs) {
    |s.queue| > 0 && |s.core.visited| < cfg.maxPages
  }

  /** The priority of a pushed link: the page's keyword score when keywords
      are given, otherwise the link's length. */
  function Priority(keywords: seq<string>, text: string, link: Url): int {
    if |keywords| > 0 then KeywordScore(text, keywords) else |link|
  }

  /** The heap entries pushed for `links`, in order. */
  function Pushes(keywords: seq<string>, text: string, links: seq<Url>, depth: int): seq<Item>
    decreases |links|
  {
    if |links| == 0 then []
    else
      var link := links[|links| - 1];
      Pushes(keywords, text, links[..|links| - 1], depth) + [Item(Priority(keywords, text, link), link, depth)]
  }

  /** One iteration of the loop after the stop test: pop the least entry;
      skip it if visited or too deep; otherwise fetch it and either log the
      failure or visit the page and push its unvisited links. */
  function Step(cfg: Config, s: Bfs): (r: Bfs)
    requires Active(cfg, s)
    ensures r.tick == s.tick + 1
    ensures |r.core.visited| == |s.core.visited| + 1 || (r.core.visited == s.core.visited && |r.queue| < |s.queue|)
  {
    var popped := PopMin(s.queue);
    var item, rest := popped.0, popped.1;
    if item.url in s.core.visited || item.depth > cfg.maxDepth then Bfs(rest, s.core, s.tick + 1)
    else
      var v := Visit(cfg, item, rest, s.core);
      Bfs(v.0, v.1, s.tick + 1)
  }

  /** Fetching a popped entry that is neither visited nor too deep: the
      heap and the shared state afterwards. A failure is logged; a page that
      loads is visited and its unvisited links are pushed one level deeper. */
  function Visit(cfg: Config, item: Item, rest: seq<Item>, c: Core): (r: (seq<Item>, Core))
    requires item.url !in c.visited
    ensures |r.1.visited| == |c.visited| + 1 || (r.1.visited == c.visited && r.0 == rest)
    ensures cfg.web(item.url).Loaded? ==> r.1.visited == c.visited + {item.url}
    ensures cfg.web(item.url).Failed? ==> r.1.visited == c.visited && r.0 == rest
  {
    match cfg.web(item.url)
    case Failed(message) => (rest, Fail(cfg, c, item.url, message))
    case Loaded(page) =>
      var links := NewLinks(cfg.join, item.url, page.anchors, c.visited + {item.url});
      (rest + Pushes(cfg.keywords, page.text, links, item.depth + 1), Succeed(cfg, c, item.url, page))
  }

  /** The loop run to its end: until the heap is empty, the page limit is
      reached or the stop flag is seen at the top of an iteration. */
  function Run(cfg: Config, stop: seq<bool>, s: Bfs): Bfs
    decreases cfg.maxPages - |s.core.visited|, |s.queue|
  {
    if Active(cfg, s) && !StopAt(stop, s.tick) then Run(cfg, stop, Step(cfg, s)) else s
  }

  /** Every entry other than the seed has a URL without trailing slash, a
      depth between 1 and `maxDepth + 1`, a non-negative score, and the length
      of its URL as score when no keywords are given. */
  ghost predicate QueueInv(cfg: Config, seed: Url, q: seq<Item>) {
    forall it :: it in q ==>
      (it == Item(0, seed, 0) ||
       (!EndsWithSlash(it.url) && 1 <= it.depth <= cfg.maxDepth + 1 && 0 <= it.score &&
        (|cfg.keywords| == 0 ==> it.score == |it.url|)))
  }

  ghost predicate Inv(cfg: Config, seed: Url, s: Bfs) {
    CoreInv(cfg, seed, s.core) && QueueInv(cfg, seed, s.queue)
  }

  lemma {:induction false} PushesSpec(keywords: seq<string>, text: string, links: seq<Url>, depth: int)
    ensures |Pushes(keywords, text, links, depth)| == |links|
    ensures forall j :: 0 <= j < |links| ==>
      Pushes(keywords, text, links, depth)[j] == Item(Priority(keywords, text, links[j]), links[j], depth)
    decreases |links|
  {
    if |links| > 0 {
      PushesSpec(keywords, text, links[..|links| - 1], depth);
    }
  }

  /** What one visit pushes: after the entries left by the pop come, in anchor
      order, the page's unvisited links without trailing slash, one level
      deeper than the popped entry, with the keyword score of the page or, when
      no keywords are given, the link's length as priority. */
  lemma PushedItems(cfg: Config, item: Item, rest: seq<Item>, c: Core)
    requires item.url !in c.visited
    ensures var r := Visit(cfg, item, rest, c);
      |rest| <= |r.0| && r.0[..|rest|] == rest &&
      forall j :: |rest| <= j < |r.0| ==>
        r.0[j].url !in r.1.visited && !EndsWithSlash(r.0[j].url) &&
        r.0[j].depth == item.depth + 1 && cfg.web(item.url).Loaded? &&
        r.0[j].score == Priority(cfg.keywords, cfg.web(item.url).page.text, r.0[j].url)
  {
    if cfg.web(item.url).Loaded? {
      var page := cfg.web(item.url).page;
      var visited := c.visited + {item.url};
      var links := NewLinks(cfg.join, item.url, page.anchors, visited);
      var pushed := Pushes(cfg.keywords, page.text, links, item.depth + 1);
      NewLinksSpec(cfg.join, item.url, page.anchors, visited);
      PushedEntries(cfg.keywords, page.text, links, item.depth + 1, rest, visited);
      var r := Visit(cfg, item, rest, c);
      assert r.0 == rest + pushed && r.1.visited == visited;
    }
  }

  /** The entries for `links` pushed onto `rest`, stated on sequences alone. */
  lemma PushedEntries(keywords: seq<string>, text: string, links: seq<Url>, depth: int, rest: seq<Item>, visited: set<Url>)
    requires forall l :: l in links ==> l !in visited && !EndsWithSlash(l)
    ensures var q := rest + Pushes(keywords, text, links, depth);
      |rest| <= |q| && q[..|rest|] == rest &&
      forall j :: |rest| <= j < |q| ==>
        q[j].url !in visited && !EndsWithSlash(q[j].url) &&
        q[j].depth == depth && q[j].score == Priority(keywords, text, q[j].url)
  {
    var pushed := Pushes(keywords, text, links, depth);
    PushesSpec(keywords, text, links, depth);
    var q := rest + pushed;
    forall j | |rest| <= j < |q|
      ensures q[j] == Item(Priority(keywords, text, links[j - |rest|]), links[j - |rest|], depth)
    {
      assert q[j] == pushed[j - |rest|];
      assert links[j - |rest|] in links;
    }
  }

  lemma InitInv(cfg: Config, seed: Url)
    ensures Inv(cfg, seed, Init(seed))
  {
  }

  lemma VisitKeepsInv(cfg: Config, seed: Url, item: Item, rest: seq<Item>, c: Core)
    requires CoreInv(cfg, seed, c) && QueueInv(cfg, seed, rest)
    requires |c.visited| < cfg.maxPages && item.url !in c.visited
    requires 0 <= item.depth <= cfg.maxDepth && (item.url == seed || !EndsWithSlash(item.url))
    ensures CoreInv(cfg, seed, Visit(cfg, item, rest, c).1)
    ensures QueueInv(cfg, seed, Visit(cfg, item, rest, c).0)
  {
    match cfg.web(item.url)
    case Failed(message) =>
      FailKeepsInv(cfg, seed, c, item.url, message);
    case Loaded(page) =>
      SucceedKeepsInv(cfg, seed, c, item.url, page);
      PushedItems(cfg, item, rest, c);
      var q := Visit(cfg, item, rest, c).0;
      forall x | x in q ensures x == Item(0, seed, 0) ||
        (!EndsWithSlash(x.url) && 1 <= x.depth <= cfg.maxDepth + 1 && 0 <= x.score &&
         (|cfg.keywords| == 0 ==> x.score == |x.url|))
      {
        var j :| 0 <= j < |q| && q[j] == x;
        if j < |rest| {
          assert q[..|rest|][j] == x;
        }
      }
  }

  lemma VisitGrows(cfg: Config, item: Item, rest: seq<Item>, c: Core)
    requires item.url !in c.visited
    ensures Grown(c, Visit(cfg, item, rest, c).1)
  {
    match cfg.web(item.url)
    case Failed(message) =>
      FailGrows(cfg, c, item.url, message);
    case Loaded(page) =>
      SucceedGrows(cfg, c, item.url, page);
  }

  lemma StepKeepsInv(cfg: Config, seed: Url, s: Bfs)
    requires Active(cfg, s) && Inv(cfg, seed, s)
    ensures Inv(cfg, seed, Step(cfg, s))
  {
    var popped := PopMin(s.queue);
    var item, rest := popped.0, popped.1;
    PopMinSpec(s.queue);
    forall x | x in rest ensures x in s.queue {
      assert multiset(rest)[x] > 0;
    }
    if !(item.url in s.core.visited || item.depth > cfg.maxDepth) {
      VisitKeepsInv(cfg, seed, item, rest, s.core);
    }
  }

  /** The invariant holds when the loop ends. */
  lemma {:induction false} RunKeepsInv(cfg: Config, stop: seq<bool>, seed: Url, s: Bfs)
    requires Inv(cfg, seed, s)
    ensures Inv(cfg, seed, Run(cfg, stop, s))
    decreases cfg.maxPages - |s.core.visited|, |s.queue|
  {
    if Active(cfg, s) && !StopAt(stop, s.tick) {
      StepKeepsInv(cfg, seed, s);
      RunKeepsInv(cfg, stop, seed, Step(cfg, s));
    }
  }

  lemma StepGrows(cfg: Config, s: Bfs)
    requires Active(cfg, s)
    ensures Grown(s.core, Step(cfg, s).core)
  {
    var popped := PopMin(s.queue);
    var item, rest := popped.0, popped.1;
    if !(item.url in s.core.visited || item.depth > cfg.maxDepth) {
      VisitGrows(cfg, item, rest, s.core);
    }
  }

  /** The run only adds to the state it starts from. */
  lemma {:induction false} RunGrows(cfg: Config, stop: seq<bool>, s: Bfs)
    ensures Grown(s.core, Run(cfg, stop, s).core)
    decreases cfg.maxPages - |s.core.visited|, |s.queue|
  {
    if Active(cfg, s) && !StopAt(stop, s.tick) {
      var t := Step(cfg, s);
      StepGrows(cfg, s);
      RunGrows(cfg, stop, t);
      GrownTransitive(s.core, t.core, Run(cfg, stop, t).core);
    }
  }

  /** A stop flag seen at the top of iteration `k` ends the crawl there: no
      iteration, and so no fetch, runs at or after `k`. */
  lemma {:induction false} StopEnds(cfg: Config, stop: seq<bool>, s: Bfs, k: nat)
    requires s.tick <= k && StopAt(stop, k)
    ensures Run(cfg, stop, s).tick <= k
    decreases cfg.maxPages - |s.core.visited|, |s.queue|
  {
    if Active(cfg, s) && !StopAt(stop, s.tick) {
      StopEnds(cfg, stop, Step(cfg, s), k);
    }
  }

  /** The crawl ends only when the loop condition fails or the stop flag is
      seen, and never runs backwards. */
  lemma {:induction false} RunEnds(cfg: Config, stop: seq<bool>, s: Bfs)
    ensures var r := Run(cfg, stop, s);
      s.tick <= r.tick && (!Active(cfg, r) || StopAt(stop, r.tick))
    decreases cfg.maxPages - |s.core.visited|, |s.queue|
  {
    if Active(cfg, s) && !StopAt(stop, s.tick) {
      RunEnds(cfg, stop, Step(cfg, s));
    }
  }

  /** A stop request ends the crawl with part of what the uncancelled crawl
      returns: its visited pages, effects and result lists are prefixes of
      the full crawl's. */
  lemma {:induction false} StoppedIsPrefix(cfg: Config, stop: seq<bool>, s: Bfs)
    ensures Grown(Run(cfg, stop, s).core, Run(cfg, [], s).core)
    decreases cfg.maxPages - |s.core.visited|, |s.queue|
  {
    if Active(cfg, s) && !StopAt(stop, s.tick) {
      StoppedIsPrefix(cfg, stop, Step(cfg, s));
    } else {
      RunGrows(cfg, [], s);
    }
  }

  /** Without keywords every entry but the seed has its URL's length as
      priority, so the popped entry has a URL no longer than any other
      non-seed entry's. */
  lemma ShortestFirst(cfg: Config, seed: Url, s: Bfs)
    requires Inv(cfg, seed, s) && |s.queue| > 0 && |cfg.keywords| == 0
    requires PopMin(s.queue).0 != Item(0, seed, 0)
    ensures forall it :: it in s.queue && it != Item(0, seed, 0) ==> |PopMin(s.queue).0.url| <= |it.url|
  {
    PopMinSpec(s.queue);
  }

  /** A skipped entry causes no fetch and no report; any other entry causes
      exactly one fetch, logged as a visit or an error, followed by one
      progress report; only a page that loads enters `visited`. */
  lemma StepEffects(cfg: Config, s: Bfs)
    requires Active(cfg, s)
    ensures var item := PopMin(s.queue).0; var r := Step(cfg, s);
      if item.url in s.core.visited || item.depth > cfg.maxDepth then r.core == s.core
      else match cfg.web(item.url)
        case Failed(message) =>
          r.core.visited == s.core.visited && r.core.result == s.core.result &&
          r.core.events == s.core.events + [ErrorLogged(item.url, message), Progress(|s.core.visited|, cfg.maxPages)]
        case Loaded(_) =>
          r.core.visited == s.core.visited + {item.url} &&
          r.core.events == s.core.events + [Visited(item.url), Progress(|r.core.visited|, cfg.maxPages)]
  {
  }

  lemma PushesSnoc(keywords: seq<string>, text: string, links: seq<Url>, link: Url, depth: int)
    ensures Pushes(keywords, text, links + [link], depth) ==
      Pushes(keywords, text, links, depth) + [Item(Priority(keywords, text, link), link, depth)]
  {
    assert (links + [link])[..|links|] == links;
  }

  /** What a whole crawl from `seed` delivers: no empty category list, a
      progress report after every fetch, each successful fetch of a distinct
      page that loads, at most `maxPages` of them, and only the seed as
      visited URL with a trailing slash. */
  lemma CrawlSpec(cfg: Config, stop: seq<bool>, seed: Url)
    ensures var c := Run(cfg, stop, Init(seed)).core;
      && NoEmptyList(c.result)
      && Reported(c.events, cfg.maxPages)
      && Distinct(Visits(c.events)) && (|Visits(c.events)| == 0 || |Visits(c.events)| <= cfg.maxPages)
      && (forall u :: u in Visits(c.events) ==> cfg.web(u).Loaded? && (u == seed || !EndsWithSlash(u)))
  {
    InitInv(cfg, seed);
    RunKeepsInv(cfg, stop, seed, Init(seed));
  }

  /** The source's scan of one visited page (`bfs_crawl` from
      `extract_categories` to the end of the anchor loop): every unvisited
      link is pushed with its priority and tagged into the page's
      categories. */
  method ScanAnchors(cfg: Config, item: Item, page: Page, visited: set<Url>, rest: seq<Item>)
    returns (queue: seq<Item>, categories: Categories)
    ensures queue == rest + Pushes(cfg.keywords, page.text, NewLinks(cfg.join, item.url, page.anchors, visited), item.depth + 1)
    ensures categories == Collect(CategoriesOf(page.sections), cfg.join, item.url, page.anchors, visited)
  {
    queue := rest;
    categories := ExtractCategories(page.sections);
    var content := page.text;
    var i := 0;
    ghost var cats0 := CategoriesOf(page.sections);
    assert NewLinks(cfg.join, item.url, page.anchors[..0], visited) == [];
    assert Pushes(cfg.keywords, content, [], item.depth + 1) == [];
    assert queue == rest + [];
    assert categories == Collect(cats0, cfg.join, item.url, page.anchors[..0], visited);
    while i < |page.anchors|
      invariant 0 <= i <= |page.anchors|
      invariant queue == rest + Pushes(cfg.keywords, content, NewLinks(cfg.join, item.url, page.anchors[..i], visited), item.depth + 1)
      invariant categories == Collect(cats0, cfg.join, item.url, page.anchors[..i], visited)
    {
      ghost var links := NewLinks(cfg.join, item.url, page.anchors[..i], visited);
      var link := RStripSlash(cfg.join(item.url, page.anchors[i].href));
      assert link == LinkOf(cfg.join, item.url, page.anchors[i]);
      CollectSnoc(cats0, cfg.join, item.url, page.anchors, i, visited);
      NewLinksSnoc(cfg.join, item.url, page.anchors, i, visited);
      if link !in visited {
        var score: int;
        if |cfg.keywords| > 0 {
          score := KeywordHeuristicScore(content, cfg.keywords);
        } else {
          score := |link|;
        }
        assert score == Priority(cfg.keywords, content, link);
        PushesSnoc(cfg.keywords, content, links, link, item.depth + 1);
        assert rest + Pushes(cfg.keywords, content, links, item.depth + 1) + [Item(score, link, item.depth + 1)] ==
          rest + Pushes(cfg.keywords, content, links + [link], item.depth + 1);
        queue := queue + [Item(score, link, item.depth + 1)];
        categories := TagLink(categories, Label(page.anchors[i].text), link);
      } else {
        assert NewLinks(cfg.join, item.url, page.anchors[..i + 1], visited) == links;
      }
      assert queue == rest + Pushes(cfg.keywords, content, NewLinks(cfg.join, item.url, page.anchors[..i + 1], visited), item.depth + 1);
      assert categories == Collect(cats0, cfg.join, item.url, page.anchors[..i + 1], visited);
      i := i + 1;
    }
    assert page.anchors[..i] == page.anchors;
  }

  /** The body of the source's loop after the visited and depth tests: fetch
      the page, log a failure, or visit it, scan it and merge its categories. */
  method VisitItem(cfg: Config, item: Item, rest: seq<Item>, visited0: set<Url>, categorized0: Categories, events0: seq<Event>)
    returns (queue: seq<Item>, visited: set<Url>, categorized: Categories, events: seq<Event>)
    requires item.url !in visited0
    ensures (queue, Core(visited, categorized, events)) == Visit(cfg, item, rest, Core(visited0, categorized0, events0))
  {
    queue, visited, categorized, events := rest, visited0, categorized0, events0;
    match cfg.web(item.url) {
      case Failed(message) =>
        events := events + [ErrorLogged(item.url, message)];
        events := events + [Progress(|visited|, cfg.maxPages)];
        assert Core(visited, categorized, events) == Fail(cfg, Core(visited0, categorized0, events0), item.url, message);
      case Loaded(page) =>
        visited := visited + {item.url};
        events := events + [Visited(item.url)];
        var categories;
        queue, categories := ScanAnchors(cfg, item, page, visited, queue);
        categorized := MergeCategories(categorized, categories);
        events := events + [Progress(|visited|, cfg.maxPages)];
        assert Core(visited, categorized, events) == Succeed(cfg, Core(visited0, categorized0, events0), item.url, page);
    }
  }

  /** `bfs_crawl(start_url, max_pages, max_depth, keywords, progress_callback,
      stop_event)`, returning the categorized result and the effects. */
  method BfsCrawl(startUrl: Url, cfg: Config, stop: seq<bool>) returns (result: Categories, events: seq<Event>)
    ensures result == Run(cfg, stop, Init(startUrl)).core.result
    ensures events == Run(cfg, stop, Init(startUrl)).core.events
    ensures NoEmptyList(result)
    ensures Reported(events, cfg.maxPages)
    ensures Distinct(Visits(events)) && (|Visits(events)| == 0 || |Visits(events)| <= cfg.maxPages)
    ensures forall u :: u in Visits(events) ==> cfg.web(u).Loaded? && (u == startUrl || !EndsWithSlash(u))
  {
    var queue := [Item(0, startUrl, 0)];
    var visited: set<Url> := {};
    var categorized: Categories := map[];
    events := [];
    var tick: nat := 0;
    ghost var final := Run(cfg, stop, Init(startUrl));

    while |queue| > 0 && |visited| < cfg.maxPages
      invariant Run(cfg, stop, Bfs(queue, Core(visited, categorized, events), tick)) == final
      decreases cfg.maxPages - |visited|, |queue|
    {
      if StopAt(stop, tick) {
        break;
      }
      ghost var s := Bfs(queue, Core(visited, categorized, events), tick);
      var item, rest := HeapPop(queue);
      queue := rest;
      tick := tick + 1;
      if item.url !in visited && item.depth <= cfg.maxDepth {
        queue, visited, categorized, events := VisitItem(cfg, item, rest, visited, categorized, events);
      }
      assert Bfs(queue, Core(visited, categorized, events), tick) == Step(cfg, s);
    }
    ghost var last := Bfs(queue, Core(visited, categorized, events), tick);
    assert Run(cfg, stop, last) == last;
    result := categorized;
    CrawlSpec(cfg, stop, startUrl);
  }
}

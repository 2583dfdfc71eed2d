/** What both crawl strategies share: the model of the web, the crawl
    configuration, the observable effects of a crawl, and the processing of
    one fetched page (link discovery, category tagging, result merging). */
module Engine {
  import opened Text
  import opened Helpers

  /** An `<a href=...>` tag: its `href` attribute and its visible text. */
  datatype Anchor = Anchor(href: string, text: string)

  /** A parsed page: its anchors with an href, the texts of its h2/h3/h4/li
      tags, and its full visible text, each in document order. */
  datatype Page = Page(anchors: seq<Anchor>, sections: seq<string>, text: string)

  /** The outcome of fetching and parsing one URL; `Failed` carries the text
      of the exception. */
  datatype Response = Loaded(page: Page) | Failed(message: string)

  /** The crawl parameters, the web (fetch and parse as one function) and
      URL resolution (`urljoin`). `keywords == []` also stands for `None`. */
  datatype Config = Config(
    maxPages: int,
    maxDepth: int,
    keywords: seq<string>,
    web: Url -> Response,
    join: (Url, string) -> Url)

  /** The effects of a crawl, in order: a successful fetch, a call of
      `log_error`, a call of `progress_callback`. */
  datatype Event = Visited(url: Url) | ErrorLogged(url: Url, message: string) | Progress(visited: nat, total: int)

  /** The state both strategies share: the visited set, the categorized
      result and the effects so far. */
  datatype Core = Core(visited: set<Url>, result: Categories, events: seq<Event>)

  /** `stop_event.is_set()` at iteration `tick`, as an oracle; iterations past
      its end see it clear (also standing for `stop_event=None`). */
  predicate StopAt(stop: seq<bool>, tick: nat) {
    tick < |stop| && stop[tick]
  }

  /** `urljoin(base, tag['href']).rstrip('/')`. */
  function LinkOf(join: (Url, string) -> Url, base: Url, a: Anchor): Url {
    RStripSlash(join(base, a.href))
  }

  /** The links pushed while scanning `anchors`, in order: those not visited. */
  function NewLinks(join: (Url, string) -> Url, base: Url, anchors: seq<Anchor>, visited: set<Url>): seq<Url>
    decreases |anchors|
  {
    if |anchors| == 0 then []
    else
      var links := NewLinks(join, base, anchors[..|anchors| - 1], visited);
      var link := LinkOf(join, base, anchors[|anchors| - 1]);
      if link in visited then links else links + [link]
  }

  /** Appending `link` to every category that occurs in the anchor text. */
  function Tag(cats: Categories, text: string, link: Url): Categories {
    map c | c in cats :: if Contains(text, c) then cats[c] + [link] else cats[c]
  }

  /** The page's category lists after scanning `anchors`. */
  function Collect(cats: Categories, join: (Url, string) -> Url, base: Url, anchors: seq<Anchor>, visited: set<Url>): Categories
    decreases |anchors|
  {
    if |anchors| == 0 then cats
    else
      var m := Collect(cats, join, base, anchors[..|anchors| - 1], visited);
      var a := anchors[|anchors| - 1];
      var link := LinkOf(join, base, a);
      if link in visited then m else Tag(m, Label(a.text), link)
  }

  /** The categories that collected at least one link. */
  function NonEmpty(cats: Categories): set<string> {
    set c | c in cats && cats[c] != []
  }

  /** `categorized_urls.setdefault(category, []).extend(set(urls))` for every
      category whose list is not empty. */
  function Merge(result: Categories, cats: Categories): Categories {
    map k | k in result.Keys + NonEmpty(cats) ::
      (if k in result then result[k] else []) + (if k in NonEmpty(cats) then Dedup(cats[k]) else [])
  }

  /** The URLs of the successful fetches, in order. */
  function Visits(events: seq<Event>): seq<Url>
    decreases |events|
  {
    if |events| == 0 then []
    else
      var e := events[|events| - 1];
      Visits(events[..|events| - 1]) + (if e.Visited? then [e.url] else [])
  }

  /** Every fetch, successful or logged as an error, is followed by exactly one
      progress report carrying the number of pages visited so far and the page
      limit; there are no other effects. */
  predicate Reported(events: seq<Event>, total: int)
    decreases |events|
  {
    if |events| == 0 then true
    else
      var n := |events|;
      n >= 2 &&
      (events[n - 2].Visited? || events[n - 2].ErrorLogged?) &&
      events[n - 1] == Progress(|Visits(events[..n - 1])|, total) &&
      Reported(events[..n - 2], total)
  }

  /** A failed fetch: logged, then reported; nothing else changes. */
  function Fail(cfg: Config, c: Core, url: Url, message: string): Core {
    Core(c.visited, c.result, c.events + [ErrorLogged(url, message), Progress(|c.visited|, cfg.maxPages)])
  }

  /** A successful fetch: the URL is visited, the page's categories collect
      the links found on it, they are merged into the result and progress is
      reported. */
  function Succeed(cfg: Config, c: Core, url: Url, page: Page): Core {
    var visited := c.visited + {url};
    var cats := Collect(CategoriesOf(page.sections), cfg.join, url, page.anchors, visited);
    Core(visited, Merge(c.result, cats), c.events + [Visited(url), Progress(|visited|, cfg.maxPages)])
  }

  /** Scanning one more anchor pushes its link unless visited. */
  lemma NewLinksSnoc(join: (Url, string) -> Url, base: Url, anchors: seq<Anchor>, i: nat, visited: set<Url>)
    requires i < |anchors|
    ensures NewLinks(join, base, anchors[..i + 1], visited) ==
      NewLinks(join, base, anchors[..i], visited) + (if LinkOf(join, base, anchors[i]) in visited then [] else [LinkOf(join, base, anchors[i])])
  {
    assert anchors[..i + 1][..i] == anchors[..i];
  }

  /** Scanning one more anchor tags its link unless visited. */
  lemma CollectSnoc(cats: Categories, join: (Url, string) -> Url, base: Url, anchors: seq<Anchor>, i: nat, visited: set<Url>)
    requires i < |anchors|
    ensures LinkOf(join, base, anchors[i]) in visited ==>
      Collect(cats, join, base, anchors[..i + 1], visited) == Collect(cats, join, base, anchors[..i], visited)
    ensures LinkOf(join, base, anchors[i]) !in visited ==>
      Collect(cats, join, base, anchors[..i + 1], visited) ==
      Tag(Collect(cats, join, base, anchors[..i], visited), Label(anchors[i].text), LinkOf(join, base, anchors[i]))
  {
    assert anchors[..i + 1][..i] == anchors[..i];
  }

  /** `link` was found on an anchor of the page, was not yet visited, and
      the anchor's stripped, lowered text contains `c`. */
  predicate TaggedBy(join: (Url, string) -> Url, base: Url, anchors: seq<Anchor>, visited: set<Url>, c: string, link: Url) {
    link !in visited &&
    exists i :: 0 <= i < |anchors| && LinkOf(join, base, anchors[i]) == link && Contains(Label(anchors[i].text), c)
  }

  /** `link` was found on an anchor of the page and was not yet visited. */
  predicate FoundOn(join: (Url, string) -> Url, base: Url, anchors: seq<Anchor>, visited: set<Url>, link: Url) {
    link !in visited &&
    exists i :: 0 <= i < |anchors| && LinkOf(join, base, anchors[i]) == link
  }

  /** The pushed links are exactly the unvisited links of the page, all
      without a trailing slash. */
  lemma {:induction false} NewLinksSpec(join: (Url, string) -> Url, base: Url, anchors: seq<Anchor>, visited: set<Url>)
    ensures forall l :: l in NewLinks(join, base, anchors, visited) ==> l !in visited && !EndsWithSlash(l)
    ensures forall l :: l in NewLinks(join, base, anchors, visited) <==> FoundOn(join, base, anchors, visited, l)
    decreases |anchors|
  {
    if |anchors| > 0 {
      var front := anchors[..|anchors| - 1];
      NewLinksSpec(join, base, front, visited);
      forall l ensures FoundOn(join, base, anchors, visited, l) <==>
        FoundOn(join, base, front, visited, l) || (l !in visited && l == LinkOf(join, base, anchors[|anchors| - 1]))
      {
        if FoundOn(join, base, anchors, visited, l) {
          var i :| 0 <= i < |anchors| && LinkOf(join, base, anchors[i]) == l;
          if i < |front| {
            assert front[i] == anchors[i];
          }
        }
        if FoundOn(join, base, front, visited, l) {
          var i :| 0 <= i < |front| && LinkOf(join, base, front[i]) == l;
          assert front[i] == anchors[i];
        }
      }
    }
  }

  /** Scanning keeps the page's categories and adds to a category's list
      exactly the unvisited links whose anchor text contains it. */
  lemma {:induction false} CollectSpec(cats: Categories, join: (Url, string) -> Url, base: Url, anchors: seq<Anchor>, visited: set<Url>)
    ensures Collect(cats, join, base, anchors, visited).Keys == cats.Keys
    ensures forall c, l :: c in cats ==>
      (l in Collect(cats, join, base, anchors, visited)[c] <==> l in cats[c] || TaggedBy(join, base, anchors, visited, c, l))
    decreases |anchors|
  {
    if |anchors| > 0 {
      var front := anchors[..|anchors| - 1];
      var a := anchors[|anchors| - 1];
      var m := Collect(cats, join, base, front, visited);
      var link := LinkOf(join, base, a);
      CollectSpec(cats, join, base, front, visited);
      assert anchors == front + [a];
      forall c, l | c in cats
        ensures l in Collect(cats, join, base, anchors, visited)[c] <==> l in cats[c] || TaggedBy(join, base, anchors, visited, c, l)
      {
        TaggedBySnoc(join, base, front, a, visited, c, l);
        if link !in visited {
          assert Collect(cats, join, base, anchors, visited)[c] ==
            if Contains(Label(a.text), c) then m[c] + [link] else m[c];
        }
      }
    }
  }

  lemma TaggedBySnoc(join: (Url, string) -> Url, base: Url, front: seq<Anchor>, a: Anchor, visited: set<Url>, c: string, l: Url)
    ensures TaggedBy(join, base, front + [a], visited, c, l) <==>
      TaggedBy(join, base, front, visited, c, l) ||
      (l !in visited && l == LinkOf(join, base, a) && Contains(Label(a.text), c))
  {
    var anchors := front + [a];
    if TaggedBy(join, base, anchors, visited, c, l) {
      var i :| 0 <= i < |anchors| && LinkOf(join, base, anchors[i]) == l && Contains(Label(anchors[i].text), c);
      if i < |front| {
        assert front[i] == anchors[i];
      }
    }
    if TaggedBy(join, base, front, visited, c, l) {
      var i :| 0 <= i < |front| && LinkOf(join, base, front[i]) == l && Contains(Label(front[i].text), c);
      assert front[i] == anchors[i];
    }
    if l !in visited && l == LinkOf(join, base, a) && Contains(Label(a.text), c) {
      assert anchors[|front|] == a;
    }
  }

  /** Merging keeps every earlier list as a prefix and appends, to each
      category that collected links on this page, the set of those links. */
  lemma MergeSpec(result: Categories, cats: Categories)
    ensures Merge(result, cats).Keys == result.Keys + NonEmpty(cats)
    ensures forall k :: k in result ==> result[k] <= Merge(result, cats)[k]
    ensures forall k :: k in result && k !in NonEmpty(cats) ==> Merge(result, cats)[k] == result[k]
    ensures forall k :: k in NonEmpty(cats) ==>
      Merge(result, cats)[k] == (if k in result then result[k] else []) + Dedup(cats[k]) &&
      (forall u :: u in Dedup(cats[k]) <==> u in cats[k]) && Distinct(Dedup(cats[k]))
    ensures NoEmptyList(result) ==> NoEmptyList(Merge(result, cats))
  {
    forall k | k in NonEmpty(cats) ensures (forall u :: u in Dedup(cats[k]) <==> u in cats[k]) && Distinct(Dedup(cats[k])) {
      DedupSpec(cats[k]);
    }
  }

  /** The source's inner loop `for category in categories: if category in
      text: categories[category].append(link)`. */
  method TagLink(categories: Categories, text: string, link: Url) returns (tagged: Categories)
    ensures tagged == Tag(categories, text, link)
  {
    tagged := categories;
    var pending := categories.Keys;
    while pending != {}
      invariant pending <= categories.Keys
      invariant tagged.Keys == categories.Keys
      invariant forall c :: c in categories ==>
        tagged[c] == if c !in pending && Contains(text, c) then categories[c] + [link] else categories[c]
      decreases pending
    {
      var c :| c in pending;
      if Contains(text, c) {
        tagged := tagged[c := tagged[c] + [link]];
      }
      pending := pending - {c};
    }
  }

  /** The source's merge loop over `categories.items()`. */
  method MergeCategories(categorized: Categories, categories: Categories) returns (merged: Categories)
    ensures merged == Merge(categorized, categories)
  {
    merged := categorized;
    var pending := categories.Keys;
    while pending != {}
      invariant pending <= categories.Keys
      invariant forall k :: k in merged <==> k in categorized || (k in categories && k !in pending && categories[k] != [])
      invariant forall k :: k in merged ==>
        merged[k] == (if k in categorized then categorized[k] else []) +
                     (if k in categories && k !in pending && categories[k] != [] then Dedup(categories[k]) else [])
      decreases pending
    {
      var c :| c in pending;
      var urls := categories[c];
      if urls != [] {
        var existing := if c in merged then merged[c] else [];
        merged := merged[c := existing + Dedup(urls)];
      }
      pending := pending - {c};
    }
    MergeEquals(merged, categorized, categories);
  }

  lemma MergeEquals(merged: Categories, categorized: Categories, categories: Categories)
    requires forall k :: k in merged <==> k in categorized || (k in categories && categories[k] != [])
    requires forall k :: k in merged ==>
      merged[k] == (if k in categorized then categorized[k] else []) +
                   (if k in categories && categories[k] != [] then Dedup(categories[k]) else [])
    ensures merged == Merge(categorized, categories)
  {
    var m := Merge(categorized, categories);
    assert forall k :: k in NonEmpty(categories) <==> k in categories && categories[k] != [];
    assert merged.Keys == m.Keys;
  }

  /** At most `maxPages` pages are visited (none when the limit is below 1),
      and every visited URL was fetched successfully and is the seed or has
      no trailing slash. */
  ghost predicate VisitedOk(cfg: Config, seed: Url, visited: set<Url>) {
    && (|visited| == 0 || |visited| <= cfg.maxPages)
    && (forall u :: u in visited ==> cfg.web(u).Loaded? && (u == seed || !EndsWithSlash(u)))
  }

  /** The successful fetches name each visited URL exactly once, and every
      fetch is followed by its progress report. */
  ghost predicate TraceOk(cfg: Config, visited: set<Url>, events: seq<Event>) {
    && Distinct(Visits(events)) && |Visits(events)| == |visited|
    && (forall u :: u in Visits(events) <==> u in visited)
    && Reported(events, cfg.maxPages)
  }

  /** The result never holds an empty list. */
  predicate NoEmptyList(result: Categories) {
    forall k :: k in result ==> result[k] != []
  }

  /** The invariant both crawls keep for their shared state. */
  ghost predicate CoreInv(cfg: Config, seed: Url, c: Core) {
    VisitedOk(cfg, seed, c.visited) && TraceOk(cfg, c.visited, c.events) && NoEmptyList(c.result)
  }

  /** The shared state only grows: visited URLs stay visited, effects are only
      appended, and every list in the result keeps its earlier entries as a
      prefix. */
  ghost predicate Grown(c: Core, d: Core) {
    && c.visited <= d.visited
    && c.events <= d.events
    && (forall k :: k in c.result ==> k in d.result && c.result[k] <= d.result[k])
  }

  lemma GrownTransitive(c: Core, d: Core, e: Core)
    requires Grown(c, d) && Grown(d, e)
    ensures Grown(c, e)
  {
    forall k | k in c.result ensures k in e.result && c.result[k] <= e.result[k] {
      assert c.result[k] <= d.result[k] <= e.result[k];
    }
  }

  lemma VisitsAppend(events: seq<Event>, e: Event, p: Event)
    requires !p.Visited?
    ensures Visits(events + [e, p]) == Visits(events) + (if e.Visited? then [e.url] else [])
  {
    assert (events + [e, p])[..|events| + 1] == events + [e];
    assert (events + [e])[..|events|] == events;
  }

  lemma ReportedAppend(events: seq<Event>, e: Event, total: int)
    requires Reported(events, total)
    requires e.Visited? || e.ErrorLogged?
    ensures Reported(events + [e, Progress(|Visits(events + [e])|, total)], total)
  {
    var all := events + [e, Progress(|Visits(events + [e])|, total)];
    assert all[..|all| - 1] == events + [e];
    assert all[..|all| - 2] == events;
  }

  /** A logged failure and its report keep the trace well formed. */
  lemma TraceFail(cfg: Config, visited: set<Url>, events: seq<Event>, url: Url, message: string)
    requires TraceOk(cfg, visited, events)
    ensures TraceOk(cfg, visited, events + [ErrorLogged(url, message), Progress(|visited|, cfg.maxPages)])
  {
    var e := ErrorLogged(url, message);
    VisitsAppend(events, e, Progress(|visited|, cfg.maxPages));
    assert (events + [e])[..|events|] == events;
    ReportedAppend(events, e, cfg.maxPages);
    assert Visits(events + [e, Progress(|visited|, cfg.maxPages)]) == Visits(events);
  }

  /** A successful fetch of an unvisited URL and its report keep the trace
      well formed. */
  lemma TraceVisit(cfg: Config, visited: set<Url>, events: seq<Event>, url: Url)
    requires TraceOk(cfg, visited, events) && url !in visited
    ensures TraceOk(cfg, visited + {url}, events + [Visited(url), Progress(|visited + {url}|, cfg.maxPages)])
  {
    var e := Visited(url);
    var all := events + [e, Progress(|visited + {url}|, cfg.maxPages)];
    VisitsAppend(events, e, Progress(|visited + {url}|, cfg.maxPages));
    assert (events + [e])[..|events|] == events;
    assert Visits(events + [e]) == Visits(events) + [url];
    ReportedAppend(events, e, cfg.maxPages);
    assert Visits(all) == Visits(events) + [url];
    assert |visited + {url}| == |visited| + 1;
  }

  lemma FailKeepsInv(cfg: Config, seed: Url, c: Core, url: Url, message: string)
    requires CoreInv(cfg, seed, c)
    ensures CoreInv(cfg, seed, Fail(cfg, c, url, message))
    ensures Fail(cfg, c, url, message).visited == c.visited
  {
    TraceFail(cfg, c.visited, c.events, url, message);
  }

  lemma FailGrows(cfg: Config, c: Core, url: Url, message: string)
    ensures Grown(c, Fail(cfg, c, url, message))
  {
  }

  lemma SucceedGrows(cfg: Config, c: Core, url: Url, page: Page)
    ensures Grown(c, Succeed(cfg, c, url, page))
  {
    var d := Succeed(cfg, c, url, page);
    MergeSpec(c.result, Collect(CategoriesOf(page.sections), cfg.join, url, page.anchors, d.visited));
  }

  lemma SucceedKeepsInv(cfg: Config, seed: Url, c: Core, url: Url, page: Page)
    requires CoreInv(cfg, seed, c)
    requires |c.visited| < cfg.maxPages && url !in c.visited
    requires cfg.web(url) == Loaded(page)
    requires url == seed || !EndsWithSlash(url)
    ensures CoreInv(cfg, seed, Succeed(cfg, c, url, page))
    ensures Grown(c, Succeed(cfg, c, url, page))
  {
    var visited := c.visited + {url};
    var cats := Collect(CategoriesOf(page.sections), cfg.join, url, page.anchors, visited);
    TraceVisit(cfg, c.visited, c.events, url);
    MergeSpec(c.result, cats);
    assert |visited| == |c.visited| + 1;
  }
}

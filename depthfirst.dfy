/** `dfs_crawl`: depth-first crawling from a stack of `(url, depth)` pairs.
    `Step` is one iteration of the source's loop, `Run` the loop to its end;
    the method `DfsCrawl` is the loop itself, proved to compute `Run`. */
module DepthFirst {
  import opened Text
  import opened Helpers
  import opened Engine

  /** A stack entry `(url, depth)`. */
  datatype Task = Task(url: Url, depth: int)

  /** The loop state: the stack, the shared state and the iteration count. */
  datatype Dfs = Dfs(stack: seq<Task>, core: Core, tick: nat)

  /** `stack = [(start_url, 0)]`, nothing visited, nothing collected. */
  function Init(seed: Url): Dfs {
    Dfs([Task(seed, 0)], Core({}, map[], []), 0)
  }

  /** The loop condition `stack and len(visited) < max_pages`. */
  predicate Active(cfg: Config, s: Dfs) {
    |s.stack| > 0 && |s.core.visited| < cfg.maxPages
  }

  /** The stack entries appended for `links`, in order. */
  function Tasks(links: seq<Url>, depth: int): seq<Task>
    decreases |links|
  {
    if |links| == 0 then []
    else Tasks(links[..|links| - 1], depth) + [Task(links[|links| - 1], depth)]
  }

  /** `stack.pop()`: the top entry and the entries below it. */
  function Pop(st: seq<Task>): (Task, seq<Task>)
    requires |st| > 0
  {
    (st[|st| - 1], st[..|st| - 1])
  }

  /** One iteration of the loop after the stop test: pop the top entry;
      skip it if visited or too deep; otherwise fetch it. */
  function Step(cfg: Config, s: Dfs): (r: Dfs)
    requires Active(cfg, s)
    ensures r.tick == s.tick + 1
    ensures |r.core.visited| == |s.core.visited| + 1 || (r.core.visited == s.core.visited && |r.stack| < |s.stack|)
  {
    var popped := Pop(s.stack);
    var task, rest := popped.0, popped.1;
    if task.url in s.core.visited || task.depth > cfg.maxDepth then Dfs(rest, s.core, s.tick + 1)
    else
      var v := Visit(cfg, task, rest, s.core);
      Dfs(v.0, v.1, s.tick + 1)
  }

  /** Fetching a popped entry that is neither visited nor too deep: the stack
      and the shared state afterwards. A failure is logged; a page that loads
      is visited and its unvisited links are appended one level deeper. */
  function Visit(cfg: Config, task: Task, rest: seq<Task>, c: Core): (r: (seq<Task>, Core))
    requires task.url !in c.visited
    ensures |r.1.visited| == |c.visited| + 1 || (r.1.visited == c.visited && r.0 == rest)
    ensures cfg.web(task.url).Loaded? ==> r.1.visited == c.visited + {task.url}
    ensures cfg.web(task.url).Failed? ==> r.1.visited == c.visited && r.0 == rest
  {
    match cfg.web(task.url)
    case Failed(message) => (rest, Fail(cfg, c, task.url, message))
    case Loaded(page) =>
      var links := NewLinks(cfg.join, task.url, page.anchors, c.visited + {task.url});
      (rest + Tasks(links, task.depth + 1), Succeed(cfg, c, task.url, page))
  }

  /** The loop run to its end: until the stack is empty, the page limit is
      reached or the stop flag is seen at the top of an iteration. */
  function Run(cfg: Config, stop: seq<bool>, s: Dfs): Dfs
    decreases cfg.maxPages - |s.core.visited|, |s.stack|
  {
    if Active(cfg, s) && !StopAt(stop, s.tick) then Run(cfg, stop, Step(cfg, s)) else s
  }

  /** Every entry other than the seed has a URL without trailing slash and a
      depth between 1 and `maxDepth + 1`. */
  ghost predicate StackInv(cfg: Config, seed: Url, st: seq<Task>) {
    forall t :: t in st ==>
      (t == Task(seed, 0) || (!EndsWithSlash(t.url) && 1 <= t.depth <= cfg.maxDepth + 1))
  }

  ghost predicate Inv(cfg: Config, seed: Url, s: Dfs) {
    CoreInv(cfg, seed, s.core) && StackInv(cfg, seed, s.stack)
  }

  lemma {:induction false} TasksSpec(links: seq<Url>, depth: int)
    ensures |Tasks(links, depth)| == |links|
    ensures forall j :: 0 <= j < |links| ==> Tasks(links, depth)[j] == Task(links[j], depth)
    decreases |links|
  {
    if |links| > 0 {
      TasksSpec(links[..|links| - 1], depth);
    }
  }

  lemma TasksSnoc(links: seq<Url>, link: Url, depth: int)
    ensures Tasks(links + [link], depth) == Tasks(links, depth) + [Task(link, depth)]
  {
    assert (links + [link])[..|links|] == links;
  }

  /** What one visit pushes: the entries below stay as they were, and on top
      of them come, in anchor order, the page's unvisited links without
      trailing slash, one level deeper than the popped entry. */
  lemma PushedTasks(cfg: Config, task: Task, rest: seq<Task>, c: Core)
    requires task.url !in c.visited
    ensures var r := Visit(cfg, task, rest, c);
      |rest| <= |r.0| && r.0[..|rest|] == rest &&
      (|r.0| > |rest| ==> cfg.web(task.url).Loaded?) &&
      forall j :: |rest| <= j < |r.0| ==>
        r.0[j].url !in r.1.visited && !EndsWithSlash(r.0[j].url) && r.0[j].depth == task.depth + 1 &&
        var links := NewLinks(cfg.join, task.url, cfg.web(task.url).page.anchors, c.visited + {task.url});
        |r.0| == |rest| + |links| && r.0[j].url == links[j - |rest|]
  {
    if cfg.web(task.url).Loaded? {
      var page := cfg.web(task.url).page;
      var visited := c.visited + {task.url};
      var links := NewLinks(cfg.join, task.url, page.anchors, visited);
      var pushed := Tasks(links, task.depth + 1);
      NewLinksSpec(cfg.join, task.url, page.anchors, visited);
      TasksSpec(links, task.depth + 1);
      var r := Visit(cfg, task, rest, c);
      assert r.0 == rest + pushed && r.1.visited == visited;
      forall j | |rest| <= j < |r.0|
        ensures r.0[j] == Task(links[j - |rest|], task.depth + 1)
      {
        assert r.0[j] == pushed[j - |rest|];
      }
    }
  }

  /** Last in, first out: after a page pushed links, the next iteration pops
      the link of its last unvisited anchor. */
  lemma NextPopIsLastPushed(cfg: Config, s: Dfs)
    requires Active(cfg, s)
    requires var task := s.stack[|s.stack| - 1];
      task.url !in s.core.visited && task.depth <= cfg.maxDepth && cfg.web(task.url).Loaded? &&
      NewLinks(cfg.join, task.url, cfg.web(task.url).page.anchors, s.core.visited + {task.url}) != []
    ensures var task := s.stack[|s.stack| - 1];
      var links := NewLinks(cfg.join, task.url, cfg.web(task.url).page.anchors, s.core.visited + {task.url});
      var r := Step(cfg, s);
      |r.stack| > 0 && r.stack[|r.stack| - 1] == Task(links[|links| - 1], task.depth + 1)
  {
    var task, rest := s.stack[|s.stack| - 1], s.stack[..|s.stack| - 1];
    PushedTasks(cfg, task, rest, s.core);
  }

  /** A skipped entry causes no fetch and no report; any other entry causes
      exactly one fetch, logged as a visit or an error, followed by one
      progress report; only a page that loads enters `visited`. */
  lemma StepEffects(cfg: Config, s: Dfs)
    requires Active(cfg, s)
    ensures var task := s.stack[|s.stack| - 1]; var r := Step(cfg, s);
      if task.url in s.core.visited || task.depth > cfg.maxDepth then r.core == s.core
      else match cfg.web(task.url)
        case Failed(message) =>
          r.core.visited == s.core.visited && r.core.result == s.core.result &&
          r.core.events == s.core.events + [ErrorLogged(task.url, message), Progress(|s.core.visited|, cfg.maxPages)]
        case Loaded(_) =>
          r.core.visited == s.core.visited + {task.url} &&
          r.core.events == s.core.events + [Visited(task.url), Progress(|r.core.visited|, cfg.maxPages)]
  {
  }

  lemma InitInv(cfg: Config, seed: Url)
    ensures Inv(cfg, seed, Init(seed))
  {
  }

  lemma VisitKeepsInv(cfg: Config, seed: Url, task: Task, rest: seq<Task>, c: Core)
    requires CoreInv(cfg, seed, c) && StackInv(cfg, seed, rest)
    requires |c.visited| < cfg.maxPages && task.url !in c.visited
    requires 0 <= task.depth <= cfg.maxDepth && (task.url == seed || !EndsWithSlash(task.url))
    ensures CoreInv(cfg, seed, Visit(cfg, task, rest, c).1)
    ensures StackInv(cfg, seed, Visit(cfg, task, rest, c).0)
  {
    match cfg.web(task.url)
    case Failed(message) =>
      FailKeepsInv(cfg, seed, c, task.url, message);
    case Loaded(page) =>
      SucceedKeepsInv(cfg, seed, c, task.url, page);
      PushedTasks(cfg, task, rest, c);
      var q := Visit(cfg, task, rest, c).0;
      forall x | x in q ensures x == Task(seed, 0) || (!EndsWithSlash(x.url) && 1 <= x.depth <= cfg.maxDepth + 1) {
        var j :| 0 <= j < |q| && q[j] == x;
        if j < |rest| {
          assert q[..|rest|][j] == x;
        }
      }
  }

  lemma VisitGrows(cfg: Config, task: Task, rest: seq<Task>, c: Core)
    requires task.url !in c.visited
    ensures Grown(c, Visit(cfg, task, rest, c).1)
  {
    match cfg.web(task.url)
    case Failed(message) =>
      FailGrows(cfg, c, task.url, message);
    case Loaded(page) =>
      SucceedGrows(cfg, c, task.url, page);
  }

  lemma StepKeepsInv(cfg: Config, seed: Url, s: Dfs)
    requires Active(cfg, s) && Inv(cfg, seed, s)
    ensures Inv(cfg, seed, Step(cfg, s))
  {
    var task, rest := s.stack[|s.stack| - 1], s.stack[..|s.stack| - 1];
    assert task in s.stack;
    forall x | x in rest ensures x in s.stack {
      var j :| 0 <= j < |rest| && rest[j] == x;
      assert s.stack[j] == x;
    }
    if !(task.url in s.core.visited || task.depth > cfg.maxDepth) {
      VisitKeepsInv(cfg, seed, task, rest, s.core);
    }
  }

  /** The invariant holds when the loop ends. */
  lemma {:induction false} RunKeepsInv(cfg: Config, stop: seq<bool>, seed: Url, s: Dfs)
    requires Inv(cfg, seed, s)
    ensures Inv(cfg, seed, Run(cfg, stop, s))
    decreases cfg.maxPages - |s.core.visited|, |s.stack|
  {
    if Active(cfg, s) && !StopAt(stop, s.tick) {
      StepKeepsInv(cfg, seed, s);
      RunKeepsInv(cfg, stop, seed, Step(cfg, s));
    }
  }

  lemma StepGrows(cfg: Config, s: Dfs)
    requires Active(cfg, s)
    ensures Grown(s.core, Step(cfg, s).core)
  {
    var task, rest := s.stack[|s.stack| - 1], s.stack[..|s.stack| - 1];
    if !(task.url in s.core.visited || task.depth > cfg.maxDepth) {
      VisitGrows(cfg, task, rest, s.core);
    }
  }

  /** The run only adds to the state it starts from. */
  lemma {:induction false} RunGrows(cfg: Config, stop: seq<bool>, s: Dfs)
    ensures Grown(s.core, Run(cfg, stop, s).core)
    decreases cfg.maxPages - |s.core.visited|, |s.stack|
  {
    if Active(cfg, s) && !StopAt(stop, s.tick) {
      var t := Step(cfg, s);
      StepGrows(cfg, s);
      RunGrows(cfg, stop, t);
      GrownTransitive(s.core, t.core, Run(cfg, stop, t).core);
    }
  }

  /** A stop flag seen at the top of iteration `k` ends the crawl there: no
      iteration, and so no fetch, runs at or after `k`. */
  lemma {:induction false} StopEnds(cfg: Config, stop: seq<bool>, s: Dfs, k: nat)
    requires s.tick <= k && StopAt(stop, k)
    ensures Run(cfg, stop, s).tick <= k
    decreases cfg.maxPages - |s.core.visited|, |s.stack|
  {
    if Active(cfg, s) && !StopAt(stop, s.tick) {
      StopEnds(cfg, stop, Step(cfg, s), k);
    }
  }

  /** The crawl ends only when the loop condition fails or the stop flag is
      seen, and never runs backwards. */
  lemma {:induction false} RunEnds(cfg: Config, stop: seq<bool>, s: Dfs)
    ensures var r := Run(cfg, stop, s);
      s.tick <= r.tick && (!Active(cfg, r) || StopAt(stop, r.tick))
    decreases cfg.maxPages - |s.core.visited|, |s.stack|
  {
    if Active(cfg, s) && !StopAt(stop, s.tick) {
      RunEnds(cfg, stop, Step(cfg, s));
    }
  }

  /** A stop request ends the crawl with part of what the uncancelled crawl
      returns. */
  lemma {:induction false} StoppedIsPrefix(cfg: Config, stop: seq<bool>, s: Dfs)
    ensures Grown(Run(cfg, stop, s).core, Run(cfg, [], s).core)
    decreases cfg.maxPages - |s.core.visited|, |s.stack|
  {
    if Active(cfg, s) && !StopAt(stop, s.tick) {
      StoppedIsPrefix(cfg, stop, Step(cfg, s));
    } else {
      RunGrows(cfg, [], s);
    }
  }

  /** What a whole crawl from `seed` delivers (as for the best-first crawl). */
  lemma CrawlSpec(cfg: Config, stop: seq<bool>, seed: Url)
    ensures var c := Run(cfg, stop, Init(seed)).core;
      && NoEmptyList(c.result)
      && Reported(c.events, cfg.maxPages)
      && Distinct(Visits(c.events)) && (|Visits(c.events)| == 0 || |Visits(c.events)| <= cfg.maxPages)
      && (forall u :: u in Visits(c.events) ==> cfg.web(u).Loaded? && (u == seed || !EndsWithSlash(u)))
  {
    InitInv(cfg, seed);
    RunKeepsInv(cfg, stop, seed, Init(seed));
  }

  /** The source's scan of one visited page (`dfs_crawl` from
      `extract_categories` to the end of the anchor loop): every unvisited
      link is pushed and tagged into the page's categories. */
  method ScanLinks(cfg: Config, task: Task, page: Page, visited: set<Url>, rest: seq<Task>)
    returns (stack: seq<Task>, categories: Categories)
    ensures stack == rest + Tasks(NewLinks(cfg.join, task.url, page.anchors, visited), task.depth + 1)
    ensures categories == Collect(CategoriesOf(page.sections), cfg.join, task.url, page.anchors, visited)
  {
    stack := rest;
    categories := ExtractCategories(page.sections);
    ghost var cats0 := CategoriesOf(page.sections);
    assert NewLinks(cfg.join, task.url, page.anchors[..0], visited) == [];
    assert stack == rest + Tasks([], task.depth + 1);
    assert categories == Collect(cats0, cfg.join, task.url, page.anchors[..0], visited);
    var i := 0;
    while i < |page.anchors|
      invariant 0 <= i <= |page.anchors|
      invariant stack == rest + Tasks(NewLinks(cfg.join, task.url, page.anchors[..i], visited), task.depth + 1)
      invariant categories == Collect(cats0, cfg.join, task.url, page.anchors[..i], visited)
    {
      ghost var links := NewLinks(cfg.join, task.url, page.anchors[..i], visited);
      var link := RStripSlash(cfg.join(task.url, page.anchors[i].href));
      assert link == LinkOf(cfg.join, task.url, page.anchors[i]);
      CollectSnoc(cats0, cfg.join, task.url, page.anchors, i, visited);
      NewLinksSnoc(cfg.join, task.url, page.anchors, i, visited);
      if link !in visited {
        TasksSnoc(links, link, task.depth + 1);
        assert rest + Tasks(links, task.depth + 1) + [Task(link, task.depth + 1)] ==
          rest + Tasks(links + [link], task.depth + 1);
        stack := stack + [Task(link, task.depth + 1)];
        categories := TagLink(categories, Label(page.anchors[i].text), link);
      } else {
        assert NewLinks(cfg.join, task.url, page.anchors[..i + 1], visited) == links;
      }
      assert stack == rest + Tasks(NewLinks(cfg.join, task.url, page.anchors[..i + 1], visited), task.depth + 1);
      assert categories == Collect(cats0, cfg.join, task.url, page.anchors[..i + 1], visited);
      i := i + 1;
    }
    assert page.anchors[..i] == page.anchors;
  }

  /** The body of the source's loop after the visited and depth tests. */
  method VisitTask(cfg: Config, task: Task, rest: seq<Task>, visited0: set<Url>, categorized0: Categories, events0: seq<Event>)
    returns (stack: seq<Task>, visited: set<Url>, categorized: Categories, events: seq<Event>)
    requires task.url !in visited0
    ensures (stack, Core(visited, categorized, events)) == Visit(cfg, task, rest, Core(visited0, categorized0, events0))
  {
    stack, visited, categorized, events := rest, visited0, categorized0, events0;
    match cfg.web(task.url) {
      case Failed(message) =>
        events := events + [ErrorLogged(task.url, message)];
        events := events + [Progress(|visited|, cfg.maxPages)];
        assert Core(visited, categorized, events) == Fail(cfg, Core(visited0, categorized0, events0), task.url, message);
      case Loaded(page) =>
        visited := visited + {task.url};
        events := events + [Visited(task.url)];
        var categories;
        stack, categories := ScanLinks(cfg, task, page, visited, stack);
        categorized := MergeCategories(categorized, categories);
        events := events + [Progress(|visited|, cfg.maxPages)];
        assert Core(visited, categorized, events) == Succeed(cfg, Core(visited0, categorized0, events0), task.url, page);
    }
  }

  /** `dfs_crawl(start_url, max_pages, max_depth, keywords, progress_callback,
      stop_event)`, returning the categorized result and the effects. */
  method DfsCrawl(startUrl: Url, cfg: Config, stop: seq<bool>) returns (result: Categories, events: seq<Event>)
    ensures result == Run(cfg, stop, Init(startUrl)).core.result
    ensures events == Run(cfg, stop, Init(startUrl)).core.events
    ensures NoEmptyList(result)
    ensures Reported(events, cfg.maxPages)
    ensures Distinct(Visits(events)) && (|Visits(events)| == 0 || |Visits(events)| <= cfg.maxPages)
    ensures forall u :: u in Visits(events) ==> cfg.web(u).Loaded? && (u == startUrl || !EndsWithSlash(u))
  {
    var stack := [Task(startUrl, 0)];
    var visited: set<Url> := {};
    var categorized: Categories := map[];
    events := [];
    var tick: nat := 0;
    ghost var final := Run(cfg, stop, Init(startUrl));

    while |stack| > 0 && |visited| < cfg.maxPages
      invariant Run(cfg, stop, Dfs(stack, Core(visited, categorized, events), tick)) == final
      decreases cfg.maxPages - |visited|, |stack|
    {
      if StopAt(stop, tick) {
        break;
      }
      ghost var s := Dfs(stack, Core(visited, categorized, events), tick);
      var task, rest := stack[|stack| - 1], stack[..|stack| - 1];
      assert (task, rest) == Pop(stack);
      stack := rest;
      tick := tick + 1;
      if task.url !in visited && task.depth <= cfg.maxDepth {
        stack, visited, categorized, events := VisitTask(cfg, task, stack, visited, categorized, events);
      }
      assert Dfs(stack, Core(visited, categorized, events), tick) == Step(cfg, s);
    }
    ghost var last := Dfs(stack, Core(visited, categorized, events), tick);
    assert Run(cfg, stop, last) == last;
    result := categorized;
    CrawlSpec(cfg, stop, startUrl);
  }
}

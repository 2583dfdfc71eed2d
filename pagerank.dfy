/** `calculate_pagerank`: each URL is ranked by the number of times it occurs
    in the category lists of a crawl, and the ranking is ordered by that
    number, highest first. The input is the dictionary's `(category, urls)`
    items in insertion order; the output is the resulting dictionary's
    `(url, rank)` items in order. */
module PageRank {
  import opened Text
  import opened Helpers

  /** A dictionary from URL to rank, as its items in order. */
  type Ranking = seq<(Url, nat)>

  /** Every list entry of `crawled_data`, category after category. */
  function Entries(data: seq<(string, seq<Url>)>): seq<Url>
    decreases |data|
  {
    if |data| == 0 then [] else Entries(data[..|data| - 1]) + data[|data| - 1].1
  }

  /** The summed lengths of the category lists. */
  function TotalLength(data: seq<(string, seq<Url>)>): nat
    decreases |data|
  {
    if |data| == 0 then 0 else TotalLength(data[..|data| - 1]) + |data[|data| - 1].1|
  }

  /** The `rank` defaultdict after `rank[url] += 1` for each of `xs`. */
  function Counts(xs: seq<Url>): map<Url, nat>
    decreases |xs|
  {
    if |xs| == 0 then map[]
    else
      var m := Counts(xs[..|xs| - 1]);
      var u := xs[|xs| - 1];
      m[u := (if u in m then m[u] else 0) + 1]
  }

  /** The items `(u, m[u])` for the URLs `us`, in order. */
  function Pairs(us: seq<Url>, m: multiset<Url>): Ranking
    decreases |us|
  {
    if |us| == 0 then [] else Pairs(us[..|us| - 1], m) + [(us[|us| - 1], m[us[|us| - 1]])]
  }

  /** `rank.items()` for the key order `order`. */
  function Items(order: seq<Url>, rank: map<Url, nat>): Ranking
    decreases |order|
  {
    if |order| == 0 then []
    else
      var u := order[|order| - 1];
      Items(order[..|order| - 1], rank) + [(u, if u in rank then rank[u] else 0)]
  }

  /** `rank.items()` after tallying `xs`: the URLs in order of first
      occurrence, each with its number of occurrences. */
  function Tallied(xs: seq<Url>): Ranking {
    Pairs(Dedup(xs), multiset(xs))
  }

  /** Where `sorted(..., key=item[1], reverse=True)` places `x` among the
      already sorted `ys`: after every entry ranked at least as high. */
  function Insert(ys: Ranking, x: (Url, nat)): Ranking
    decreases |ys|
  {
    if |ys| == 0 then [x]
    else if ys[0].1 >= x.1 then [ys[0]] + Insert(ys[1..], x)
    else [x] + ys
  }

  /** Python's stable sort by rank, highest first. */
  function Sort(t: Ranking): Ranking
    decreases |t|
  {
    if |t| == 0 then [] else Insert(Sort(t[..|t| - 1]), t[|t| - 1])
  }

  /** What `calculate_pagerank(crawled_data)` returns. */
  function Ranked(data: seq<(string, seq<Url>)>): Ranking {
    Sort(Tallied(Entries(data)))
  }

  /** Each rank is at least the next one. */
  predicate Sorted(r: Ranking)
    decreases |r|
  {
    |r| <= 1 || (r[0].1 >= r[1].1 && Sorted(r[1..]))
  }

  /** The entries of rank `v`, in order. */
  function WithRank(r: Ranking, v: nat): Ranking
    decreases |r|
  {
    if |r| == 0 then [] else (if r[0].1 == v then [r[0]] else []) + WithRank(r[1..], v)
  }

  /** The sum of the ranks. */
  function Sum(r: Ranking): nat
    decreases |r|
  {
    if |r| == 0 then 0 else r[0].1 + Sum(r[1..])
  }

  /** No URL is listed twice. */
  predicate UniqueUrls(r: Ranking) {
    forall i, j :: 0 <= i < j < |r| ==> r[i].0 != r[j].0
  }

  lemma {:induction false} EntriesLength(data: seq<(string, seq<Url>)>)
    ensures |Entries(data)| == TotalLength(data)
    decreases |data|
  {
    if |data| > 0 {
      EntriesLength(data[..|data| - 1]);
    }
  }

  /** The tally holds exactly the URLs seen, each with its number of
      occurrences. */
  lemma {:induction false} CountsSpec(xs: seq<Url>)
    ensures forall u :: u in Counts(xs) <==> u in xs
    ensures forall u :: u in Counts(xs) ==> Counts(xs)[u] == multiset(xs)[u]
    decreases |xs|
  {
    if |xs| > 0 {
      var front := xs[..|xs| - 1];
      CountsSpec(front);
      assert xs == front + [xs[|xs| - 1]];
    }
  }

  /** A URL is a key of the tally exactly when it is in the key order. */
  lemma TalliedKey(xs: seq<Url>, u: Url)
    ensures u in Counts(xs) <==> u in Dedup(xs)
  {
    CountsSpec(xs);
    DedupSpec(xs);
  }

  /** The items of the tally pair each URL with its number of occurrences. */
  lemma {:induction false} ItemsOfTally(us: seq<Url>, xs: seq<Url>)
    ensures Items(us, Counts(xs)) == Pairs(us, multiset(xs))
    decreases |us|
  {
    if |us| > 0 {
      ItemsOfTally(us[..|us| - 1], xs);
      CountsSpec(xs);
    }
  }

  lemma {:induction false} PairsSpec(us: seq<Url>, m: multiset<Url>)
    ensures |Pairs(us, m)| == |us|
    ensures forall k :: 0 <= k < |us| ==> Pairs(us, m)[k] == (us[k], m[us[k]])
    decreases |us|
  {
    if |us| > 0 {
      PairsSpec(us[..|us| - 1], m);
    }
  }

  lemma {:induction false} SumAppend(a: Ranking, b: Ranking)
    ensures Sum(a + b) == Sum(a) + Sum(b)
    decreases |a|
  {
    if |a| == 0 {
      assert a + b == b;
    } else {
      assert (a + b)[0] == a[0] && (a + b)[1..] == a[1..] + b;
      SumAppend(a[1..], b);
    }
  }

  /** One more occurrence of `u` raises the summed counts once for every
      time `u` is listed. */
  lemma {:induction false} PairsBump(us: seq<Url>, m: multiset<Url>, u: Url)
    ensures Sum(Pairs(us, m + multiset{u})) == Sum(Pairs(us, m)) + multiset(us)[u]
    decreases |us|
  {
    if |us| > 0 {
      var front, last := us[..|us| - 1], us[|us| - 1];
      PairsBump(front, m, u);
      SumAppend(Pairs(front, m + multiset{u}), [(last, (m + multiset{u})[last])]);
      SumAppend(Pairs(front, m), [(last, m[last])]);
      assert us == front + [last];
    }
  }

  /** The ranks of the tally add up to the number of entries tallied. */
  lemma {:induction false} TalliedSum(xs: seq<Url>)
    ensures Sum(Tallied(xs)) == |xs|
    decreases |xs|
  {
    if |xs| > 0 {
      var front, u := xs[..|xs| - 1], xs[|xs| - 1];
      var d, m := Dedup(front), multiset(front);
      TalliedSum(front);
      assert xs == front + [u];
      assert multiset(xs) == m + multiset{u};
      PairsBump(d, m, u);
      DedupSpec(front);
      DistinctCount(d, u);
      if u in d {
        assert Tallied(xs) == Pairs(d, m + multiset{u});
      } else {
        assert (d + [u])[..|d|] == d;
        assert Tallied(xs) == Pairs(d, m + multiset{u}) + [(u, (m + multiset{u})[u])];
        SumAppend(Pairs(d, m + multiset{u}), [(u, (m + multiset{u})[u])]);
      }
    }
  }

  /** The tally lists each URL seen once, with its number of occurrences. */
  lemma TalliedSpec(xs: seq<Url>)
    ensures UniqueUrls(Tallied(xs))
    ensures forall u :: u in xs ==> exists k :: 0 <= k < |Tallied(xs)| && Tallied(xs)[k].0 == u
    ensures forall k :: 0 <= k < |Tallied(xs)| ==> Tallied(xs)[k].0 in xs && Tallied(xs)[k].1 == multiset(xs)[Tallied(xs)[k].0] > 0
  {
    var d, t := Dedup(xs), Tallied(xs);
    DedupSpec(xs);
    DistinctPairwise(d);
    PairsSpec(d, multiset(xs));
    forall u | u in xs ensures exists k :: 0 <= k < |t| && t[k].0 == u {
      var k :| 0 <= k < |d| && d[k] == u;
      assert t[k].0 == u;
    }
    forall k | 0 <= k < |t| ensures t[k].0 in xs && t[k].1 == multiset(xs)[t[k].0] > 0 {
      assert t[k].0 == d[k] && d[k] in d;
    }
  }

  lemma {:induction false} InsertSpec(ys: Ranking, x: (Url, nat))
    ensures multiset(Insert(ys, x)) == multiset(ys) + multiset{x}
    ensures Sum(Insert(ys, x)) == Sum(ys) + x.1
    ensures Sorted(ys) ==> Sorted(Insert(ys, x))
    decreases |ys|
  {
    if |ys| > 0 && ys[0].1 >= x.1 {
      var tail := Insert(ys[1..], x);
      InsertSpec(ys[1..], x);
      assert ys == [ys[0]] + ys[1..];
      assert Insert(ys, x)[1..] == tail;
      if |ys| > 1 {
        assert tail[0] == ys[1] || tail[0] == x;
      }
    }
  }

  /** Inserting keeps, for every rank, the entries of that rank in order,
      and puts the new entry after those of its rank. */
  lemma {:induction false} InsertStable(ys: Ranking, x: (Url, nat), v: nat)
    requires Sorted(ys)
    ensures WithRank(Insert(ys, x), v) == WithRank(ys, v) + (if x.1 == v then [x] else [])
    decreases |ys|
  {
    if |ys| > 0 {
      var head := if ys[0].1 == v then [ys[0]] else [];
      if ys[0].1 >= x.1 {
        var r := Insert(ys, x);
        InsertStable(ys[1..], x, v);
        assert r[0] == ys[0] && r[1..] == Insert(ys[1..], x);
        assert WithRank(r, v) == head + WithRank(Insert(ys[1..], x), v);
        assert WithRank(ys, v) == head + WithRank(ys[1..], v);
      } else {
        assert ([x] + ys)[0] == x && ([x] + ys)[1..] == ys;
        if x.1 == v {
          NoneOfRank(ys, v);
        }
      }
    }
  }

  /** A sorted ranking whose first rank is below `v` has no entry of rank `v`. */
  lemma {:induction false} NoneOfRank(ys: Ranking, v: nat)
    requires Sorted(ys) && |ys| > 0 && ys[0].1 < v
    ensures WithRank(ys, v) == []
    decreases |ys|
  {
    if |ys| > 1 {
      NoneOfRank(ys[1..], v);
    }
  }

  lemma {:induction false} WithRankAppend(a: Ranking, b: Ranking, v: nat)
    ensures WithRank(a + b, v) == WithRank(a, v) + WithRank(b, v)
    decreases |a|
  {
    if |a| == 0 {
      assert a + b == b;
    } else {
      var head := if a[0].1 == v then [a[0]] else [];
      assert (a + b)[0] == a[0] && (a + b)[1..] == a[1..] + b;
      WithRankAppend(a[1..], b, v);
      assert WithRank(a + b, v) == head + (WithRank(a[1..], v) + WithRank(b, v));
      assert head + (WithRank(a[1..], v) + WithRank(b, v)) == (head + WithRank(a[1..], v)) + WithRank(b, v);
    }
  }

  /** Sorting orders by rank, highest first, and keeps the entries. */
  lemma {:induction false} SortSpec(t: Ranking)
    ensures Sorted(Sort(t))
    ensures multiset(Sort(t)) == multiset(t)
    decreases |t|
  {
    if |t| > 0 {
      var front, last := t[..|t| - 1], t[|t| - 1];
      SortSpec(front);
      InsertSpec(Sort(front), last);
      assert t == front + [last];
    }
  }

  lemma {:induction false} SortSum(t: Ranking)
    ensures Sum(Sort(t)) == Sum(t)
    decreases |t|
  {
    if |t| > 0 {
      var front, last := t[..|t| - 1], t[|t| - 1];
      SortSum(front);
      InsertSpec(Sort(front), last);
      SumAppend(front, [last]);
      assert t == front + [last];
    }
  }

  /** Sorting is stable: the entries of each rank keep their order. */
  lemma {:induction false} SortStable(t: Ranking, v: nat)
    ensures WithRank(Sort(t), v) == WithRank(t, v)
    decreases |t|
  {
    if |t| > 0 {
      var front, last := t[..|t| - 1], t[|t| - 1];
      SortStable(front, v);
      SortSpec(front);
      InsertStable(Sort(front), last, v);
      WithRankAppend(front, [last], v);
      assert t == front + [last];
    }
  }

  lemma {:induction false} SortedPairwise(r: Ranking)
    requires Sorted(r)
    ensures forall i, j :: 0 <= i < j < |r| ==> r[i].1 >= r[j].1
    decreases |r|
  {
    if |r| > 1 {
      SortedPairwise(r[1..]);
      forall i, j | 0 <= i < j < |r| ensures r[i].1 >= r[j].1 {
        if i > 0 {
          assert r[i] == r[1..][i - 1] && r[j] == r[1..][j - 1];
        } else if j > 1 {
          assert r[1] == r[1..][0] && r[j] == r[1..][j - 1];
        }
      }
    }
  }

  /** A permutation of a ranking without repeated URLs has none either. */
  lemma UniqueUrlsPermuted(a: Ranking, b: Ranking)
    requires UniqueUrls(a) && multiset(a) == multiset(b)
    ensures UniqueUrls(b)
  {
    forall i, j | 0 <= i < j < |b| ensures b[i].0 != b[j].0 {
      if b[i].0 == b[j].0 {
        assert b[i] in multiset(a) && b[j] in multiset(a);
        var p :| 0 <= p < |a| && a[p] == b[i];
        var q :| 0 <= q < |a| && a[q] == b[j];
        if p == q {
          assert b == b[..i] + [b[i]] + b[i + 1..j] + [b[j]] + b[j + 1..];
          OnlyAt(a, p);
        }
      }
    }
  }

  /** In a ranking without repeated URLs, each entry occurs once. */
  lemma OnlyAt(a: Ranking, p: nat)
    requires UniqueUrls(a) && p < |a|
    ensures multiset(a)[a[p]] == 1
  {
    assert a == a[..p] + [a[p]] + a[p + 1..];
    forall k | 0 <= k < |a| && k != p ensures a[k] != a[p] {
    }
    assert a[p] !in a[..p] && a[p] !in a[p + 1..];
  }

  /** Sorting neither adds nor drops an entry. */
  lemma SortMembers(t: Ranking)
    ensures forall p :: p in Sort(t) <==> p in t
  {
    SortSpec(t);
    forall p ensures p in Sort(t) <==> p in t {
      assert p in Sort(t) <==> p in multiset(Sort(t));
      assert p in t <==> p in multiset(t);
    }
  }

  /** The result lists exactly the URLs that occur in the category lists,
      each with its number of occurrences. */
  lemma RankedCounts(xs: seq<Url>)
    ensures var r := Sort(Tallied(xs));
      && (forall u :: u in xs ==> exists p :: p in r && p.0 == u)
      && (forall k :: 0 <= k < |r| ==> r[k].0 in xs && r[k].1 == multiset(xs)[r[k].0] > 0)
  {
    var t := Tallied(xs);
    var r := Sort(t);
    TalliedSpec(xs);
    SortMembers(t);
    forall u | u in xs ensures exists p :: p in r && p.0 == u {
      var k :| 0 <= k < |t| && t[k].0 == u;
      assert t[k] in r;
    }
    forall k | 0 <= k < |r| ensures r[k].0 in xs && r[k].1 == multiset(xs)[r[k].0] > 0 {
      assert r[k] in t;
      var m :| 0 <= m < |t| && t[m] == r[k];
      assert t[m].1 == multiset(xs)[t[m].0] > 0;
    }
  }

  /** What `calculate_pagerank` promises: each URL of the category lists is
      listed once, with the number of times it occurs; the ranks do not
      increase along the result and add up to the number of list entries;
      URLs of equal rank stay in the order of their first occurrence. */
  lemma RankedSpec(data: seq<(string, seq<Url>)>)
    ensures var r, xs := Ranked(data), Entries(data);
      && UniqueUrls(r)
      && (forall u :: u in xs ==> exists p :: p in r && p.0 == u)
      && (forall k :: 0 <= k < |r| ==> r[k].0 in xs && r[k].1 == multiset(xs)[r[k].0] > 0)
      && (forall i, j :: 0 <= i < j < |r| ==> r[i].1 >= r[j].1)
      && Sum(r) == TotalLength(data)
      && (forall v :: WithRank(r, v) == WithRank(Tallied(xs), v))
  {
    var xs := Entries(data);
    var t := Tallied(xs);
    var r := Sort(t);
    TalliedSpec(xs);
    SortSpec(t);
    SortSum(t);
    forall v ensures WithRank(r, v) == WithRank(t, v) {
      SortStable(t, v);
    }
    SortedPairwise(r);
    UniqueUrlsPermuted(t, r);
    TalliedSum(xs);
    EntriesLength(data);
    RankedCounts(xs);
  }

  /** The inner loop of `calculate_pagerank`: `rank[url] += 1` for each URL
      of one category list. `order` is the dictionary's key order. */
  method TallyList(rank0: map<Url, nat>, order0: seq<Url>, ghost seen: seq<Url>, urls: seq<Url>)
    returns (rank: map<Url, nat>, order: seq<Url>)
    requires rank0 == Counts(seen) && order0 == Dedup(seen)
    ensures rank == Counts(seen + urls) && order == Dedup(seen + urls)
  {
    rank, order := rank0, order0;
    assert seen + urls[..0] == seen;
    var j := 0;
    while j < |urls|
      invariant 0 <= j <= |urls|
      invariant rank == Counts(seen + urls[..j]) && order == Dedup(seen + urls[..j])
    {
      var url := urls[j];
      ghost var before := seen + urls[..j];
      assert seen + urls[..j + 1] == before + [url];
      assert (before + [url])[..|before|] == before;
      TalliedKey(before, url);
      if url !in rank {
        order := order + [url];
      }
      rank := rank[url := (if url in rank then rank[url] else 0) + 1];
      j := j + 1;
    }
    assert urls[..j] == urls;
  }

  /** The loops of `calculate_pagerank` over every category list. */
  method Tally(data: seq<(string, seq<Url>)>) returns (rank: map<Url, nat>, order: seq<Url>)
    ensures rank == Counts(Entries(data)) && order == Dedup(Entries(data))
  {
    rank, order := map[], [];
    var i := 0;
    while i < |data|
      invariant 0 <= i <= |data|
      invariant rank == Counts(Entries(data[..i])) && order == Dedup(Entries(data[..i]))
    {
      rank, order := TallyList(rank, order, Entries(data[..i]), data[i].1);
      assert data[..i + 1][..i] == data[..i];
      i := i + 1;
    }
    assert data[..i] == data;
  }

  /** `calculate_pagerank(crawled_data)`: the tally, its items, the sort. */
  method CalculatePagerank(data: seq<(string, seq<Url>)>) returns (ranking: Ranking)
    ensures ranking == Ranked(data)
    ensures UniqueUrls(ranking)
    ensures forall u :: u in Entries(data) ==> exists p :: p in ranking && p.0 == u
    ensures forall k :: 0 <= k < |ranking| ==> ranking[k].0 in Entries(data) && ranking[k].1 == multiset(Entries(data))[ranking[k].0] > 0
    ensures forall i, j :: 0 <= i < j < |ranking| ==> ranking[i].1 >= ranking[j].1
    ensures Sum(ranking) == TotalLength(data)
  {
    var rank, order := Tally(data);
    ItemsOfTally(order, Entries(data));
    ranking := Sort(Items(order, rank));
    RankedSpec(data);
  }
}

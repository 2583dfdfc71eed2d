/** The best-first frontier: a list of `(score, url, depth)` tuples from which
    `heapq.heappop` removes the least tuple under Python's lexicographic tuple
    order. The list is kept unordered here and the least tuple is found by a
    scan; because that order is total, the least tuple is unique
    (`MinimalUnique`), so it is the tuple a binary heap would return. */
module Frontier {
  import opened Text

  /** A frontier entry `(score, url, depth)`. */
  datatype Item = Item(score: int, url: Url, depth: int)

  /** Python's `<` on strings: code points compared left to right, a proper
      prefix being smaller. */
  predicate StrLess(a: string, b: string)
    decreases |a|
  {
    if |a| == 0 then |b| > 0
    else if |b| == 0 then false
    else if a[0] != b[0] then a[0] < b[0]
    else StrLess(a[1..], b[1..])
  }

  /** Python's `<` on `(score, url, depth)` tuples. */
  predicate ItemLess(x: Item, y: Item) {
    x.score < y.score ||
    (x.score == y.score && (StrLess(x.url, y.url) || (x.url == y.url && x.depth < y.depth)))
  }

  lemma {:induction false} StrLessIrreflexive(a: string)
    ensures !StrLess(a, a)
    decreases |a|
  {
    if |a| > 0 {
      StrLessIrreflexive(a[1..]);
    }
  }

  lemma {:induction false} StrLessTransitive(a: string, b: string, c: string)
    requires StrLess(a, b) && StrLess(b, c)
    ensures StrLess(a, c)
    decreases |a|
  {
    if |a| > 0 && a[0] == b[0] && b[0] == c[0] {
      StrLessTransitive(a[1..], b[1..], c[1..]);
    }
  }

  lemma {:induction false} StrLessTotal(a: string, b: string)
    requires a != b
    ensures StrLess(a, b) || StrLess(b, a)
    decreases |a|
  {
    if |a| > 0 && |b| > 0 && a[0] == b[0] {
      assert a == [a[0]] + a[1..] && b == [b[0]] + b[1..];
      StrLessTotal(a[1..], b[1..]);
    }
  }

  lemma ItemLessIrreflexive(x: Item)
    ensures !ItemLess(x, x)
  {
    StrLessIrreflexive(x.url);
  }

  lemma ItemLessTransitive(x: Item, y: Item, z: Item)
    requires ItemLess(x, y) && ItemLess(y, z)
    ensures ItemLess(x, z)
  {
    if x.score == y.score == z.score && StrLess(x.url, y.url) && StrLess(y.url, z.url) {
      StrLessTransitive(x.url, y.url, z.url);
    }
  }

  /** Distinct tuples are always ordered one way or the other. */
  lemma ItemLessTotal(x: Item, y: Item)
    requires x != y
    ensures ItemLess(x, y) || ItemLess(y, x)
  {
    if x.score == y.score && x.url != y.url {
      StrLessTotal(x.url, y.url);
    }
  }

  /** Index of the first least entry of a non-empty frontier. */
  function MinIndex(q: seq<Item>): (m: nat)
    requires |q| > 0
    ensures m < |q|
    decreases |q|
  {
    if |q| == 1 then 0
    else
      var m := MinIndex(q[..|q| - 1]);
      if ItemLess(q[|q| - 1], q[m]) then |q| - 1 else m
  }

  /** `heapq.heappop(queue)`: the least entry and the remaining entries. */
  function PopMin(q: seq<Item>): (Item, seq<Item>)
    requires |q| > 0
  {
    var m := MinIndex(q);
    (q[m], q[..m] + q[m + 1..])
  }

  /** No entry of q is below `x`. */
  predicate IsLeast(q: seq<Item>, x: Item) {
    forall y :: y in q ==> !ItemLess(y, x)
  }

  lemma {:induction false} MinIndexLeast(q: seq<Item>)
    requires |q| > 0
    ensures IsLeast(q, q[MinIndex(q)])
    decreases |q|
  {
    if |q| > 1 {
      var front := q[..|q| - 1];
      var m := MinIndex(front);
      var last := q[|q| - 1];
      MinIndexLeast(front);
      assert q == front + [last];
      if ItemLess(last, q[m]) {
        forall y | y in q ensures !ItemLess(y, last) {
          if y in front {
            if ItemLess(y, last) {
              ItemLessTransitive(y, last, q[m]);
            }
          } else {
            ItemLessIrreflexive(last);
          }
        }
      }
    } else {
      ItemLessIrreflexive(q[0]);
    }
  }

  /** Popping takes out exactly one least entry and keeps all the others. */
  lemma PopMinSpec(q: seq<Item>)
    requires |q| > 0
    ensures PopMin(q).0 in q && IsLeast(q, PopMin(q).0)
    ensures multiset(q) == multiset(PopMin(q).1) + multiset{PopMin(q).0}
    ensures |PopMin(q).1| == |q| - 1
  {
    var m := MinIndex(q);
    MinIndexLeast(q);
    assert q == q[..m] + [q[m]] + q[m + 1..];
  }

  /** The least entry of a frontier is unique, so any correct priority queue
      pops the same tuple. */
  lemma MinimalUnique(q: seq<Item>, x: Item, y: Item)
    requires x in q && y in q && IsLeast(q, x) && IsLeast(q, y)
    ensures x == y
  {
    if x != y {
      ItemLessTotal(x, y);
    }
  }

  /** `heapq.heappop(queue)` on an unordered list: one scan for the least
      entry, then its removal. */
  method HeapPop(queue: seq<Item>) returns (item: Item, rest: seq<Item>)
    requires |queue| > 0
    ensures (item, rest) == PopMin(queue)
  {
    var m := 0;
    var i := 1;
    while i < |queue|
      invariant 1 <= i <= |queue|
      invariant m == MinIndex(queue[..i])
    {
      assert queue[..i + 1][..i] == queue[..i];
      if ItemLess(queue[i], queue[m]) {
        m := i;
      }
      i := i + 1;
    }
    assert queue[..i] == queue;
    item, rest := queue[m], queue[..m] + queue[m + 1..];
  }
}

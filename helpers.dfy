/** The helper functions of the crawler: category extraction and the keyword
    relevance score (`extract_categories`, `keyword_heuristic_score`). */
module Helpers {
  import opened Text

  /** A category label mapped to the links collected for it. */
  type Categories = map<string, seq<Url>>

  /** No element of `s` occurs twice. */
  predicate Distinct<T(==)>(s: seq<T>)
    decreases |s|
  {
    |s| == 0 || (s[|s| - 1] !in s[..|s| - 1] && Distinct(s[..|s| - 1]))
  }

  /** `Distinct` means that the entries at any two positions differ. */
  lemma {:induction false} DistinctPairwise<T>(s: seq<T>)
    ensures Distinct(s) <==> forall i, j :: 0 <= i < j < |s| ==> s[i] != s[j]
    decreases |s|
  {
    if |s| > 0 {
      var front := s[..|s| - 1];
      DistinctPairwise(front);
      if Distinct(s) {
        forall i, j | 0 <= i < j < |s| ensures s[i] != s[j] {
          if j < |front| {
            assert s[i] == front[i] && s[j] == front[j];
          }
        }
      }
      if forall i, j :: 0 <= i < j < |s| ==> s[i] != s[j] {
        forall i, j | 0 <= i < j < |front| ensures front[i] != front[j] {
          assert front[i] == s[i] && front[j] == s[j];
        }
        forall i | 0 <= i < |front| ensures front[i] != s[|s| - 1] {
          assert front[i] == s[i];
        }
      }
    }
  }

  /** Each element of `s` once, in the order of first occurrence. */
  function Dedup(s: seq<Url>): seq<Url>
    decreases |s|
  {
    if |s| == 0 then []
    else
      var d := Dedup(s[..|s| - 1]);
      if s[|s| - 1] in d then d else d + [s[|s| - 1]]
  }

  /** `Dedup(s)` holds each element of `s` exactly once. */
  lemma {:induction false} DedupSpec(s: seq<Url>)
    ensures Distinct(Dedup(s))
    ensures forall u :: u in Dedup(s) <==> u in s
    decreases |s|
  {
    if |s| > 0 {
      var front := s[..|s| - 1];
      DedupSpec(front);
      assert s == front + [s[|s| - 1]];
    }
  }

  /** In a sequence without repetition every element occurs once. */
  lemma {:induction false} DistinctCount<T>(s: seq<T>, x: T)
    requires Distinct(s)
    ensures multiset(s)[x] == if x in s then 1 else 0
    decreases |s|
  {
    if |s| > 0 {
      var front := s[..|s| - 1];
      DistinctCount(front, x);
      assert s == front + [s[|s| - 1]];
    }
  }

  /** The mapping `extract_categories` builds from the texts of a page's
      h2, h3, h4 and li tags, in document order: each label of length at
      least 3 is (re-)registered with an empty list. */
  function CategoriesOf(texts: seq<string>): Categories
    decreases |texts|
  {
    if |texts| == 0 then map[]
    else
      var m := CategoriesOf(texts[..|texts| - 1]);
      var l := Label(texts[|texts| - 1]);
      if |l| >= 3 then m[l := []] else m
  }

  /** `k` is the label, of length at least 3, of one of the tag texts. */
  predicate IsLabelOf(texts: seq<string>, k: string) {
    |k| >= 3 && exists i :: 0 <= i < |texts| && Label(texts[i]) == k
  }

  /** The keys are exactly the long-enough labels of the tags, and every
      value is the empty list. */
  lemma {:induction false} CategoriesOfKeys(texts: seq<string>)
    ensures forall k :: k in CategoriesOf(texts) ==> CategoriesOf(texts)[k] == []
    ensures forall k :: k in CategoriesOf(texts) <==> IsLabelOf(texts, k)
    decreases |texts|
  {
    if |texts| > 0 {
      var front := texts[..|texts| - 1];
      var l := Label(texts[|texts| - 1]);
      CategoriesOfKeys(front);
      LabelsOfSnoc(front, texts[|texts| - 1]);
      assert front + [texts[|texts| - 1]] == texts;
    }
  }

  lemma LabelsOfSnoc(front: seq<string>, t: string)
    ensures forall k :: IsLabelOf(front + [t], k) <==> IsLabelOf(front, k) || (k == Label(t) && |k| >= 3)
  {
    var texts := front + [t];
    forall k ensures IsLabelOf(texts, k) <==> IsLabelOf(front, k) || (k == Label(t) && |k| >= 3) {
      if IsLabelOf(texts, k) {
        var i :| 0 <= i < |texts| && Label(texts[i]) == k;
        if i < |front| {
          assert front[i] == texts[i];
        }
      }
      if IsLabelOf(front, k) {
        var i :| 0 <= i < |front| && Label(front[i]) == k;
        assert front[i] == texts[i];
      }
      if k == Label(t) && |k| >= 3 {
        assert texts[|front|] == t;
      }
    }
  }

  /** Registering the same tags again changes nothing: a page scanned twice
      yields the categories of one scan. */
  lemma CategoriesOfTwice(texts: seq<string>)
    ensures CategoriesOf(texts + texts) == CategoriesOf(texts)
  {
    var a, b := CategoriesOf(texts + texts), CategoriesOf(texts);
    CategoriesOfKeys(texts + texts);
    CategoriesOfKeys(texts);
    forall k ensures IsLabelOf(texts + texts, k) <==> IsLabelOf(texts, k) {
      if IsLabelOf(texts + texts, k) {
        var i :| 0 <= i < |texts + texts| && Label((texts + texts)[i]) == k;
        var j := if i < |texts| then i else i - |texts|;
        assert (texts + texts)[i] == texts[j];
      }
      if IsLabelOf(texts, k) {
        var i :| 0 <= i < |texts| && Label(texts[i]) == k;
        assert (texts + texts)[i] == texts[i];
      }
    }
    assert a.Keys == b.Keys;
  }

  /** `extract_categories(soup)`, given the tag texts the parser found. */
  method ExtractCategories(texts: seq<string>) returns (categories: Categories)
    ensures categories == CategoriesOf(texts)
    ensures forall k :: k in categories ==> categories[k] == []
    ensures forall k :: k in categories <==> IsLabelOf(texts, k)
  {
    categories := map[];
    var i := 0;
    while i < |texts|
      invariant 0 <= i <= |texts|
      invariant categories == CategoriesOf(texts[..i])
    {
      var text := Label(texts[i]);
      if |text| >= 3 {
        categories := categories[text := []];
      }
      assert texts[..i + 1][..i] == texts[..i];
      i := i + 1;
    }
    assert texts[..i] == texts;
    CategoriesOfKeys(texts);
  }

  /** The score `keyword_heuristic_score` computes: for each keyword the
      number of its non-overlapping case-insensitive occurrences. */
  function KeywordScore(content: string, keywords: seq<string>): nat
    decreases |keywords|
  {
    if |keywords| == 0 then 0
    else KeywordScore(content, keywords[..|keywords| - 1])
         + Count(Lower(content), Lower(keywords[|keywords| - 1]))
  }

  /** Each keyword contributes independently of the others. */
  lemma {:induction false} KeywordScoreAppend(content: string, ks: seq<string>, more: seq<string>)
    ensures KeywordScore(content, ks + more) == KeywordScore(content, ks) + KeywordScore(content, more)
    decreases |more|
  {
    if |more| == 0 {
      assert ks + more == ks;
    } else {
      var front := more[..|more| - 1];
      assert (ks + more)[..|ks + more| - 1] == ks + front;
      KeywordScoreAppend(content, ks, front);
    }
  }

  /** The score is zero exactly when every keyword is non-empty and absent
      from the content (after lowering both). */
  lemma {:induction false} KeywordScoreZero(content: string, keywords: seq<string>)
    ensures KeywordScore(content, keywords) == 0 <==>
      forall i :: 0 <= i < |keywords| ==>
        |keywords[i]| > 0 && !Contains(Lower(content), Lower(keywords[i]))
    decreases |keywords|
  {
    if |keywords| > 0 {
      var front := keywords[..|keywords| - 1];
      var last := keywords[|keywords| - 1];
      KeywordScoreZero(content, front);
      if |last| > 0 {
        CountPositiveIffContains(Lower(content), Lower(last));
      }
      forall i | 0 <= i < |front| ensures front[i] == keywords[i] { }
    }
  }

  /** `keyword_heuristic_score(content, keywords)`. */
  method KeywordHeuristicScore(content: string, keywords: seq<string>) returns (score: nat)
    ensures score == KeywordScore(content, keywords)
    ensures keywords == [] ==> score == 0
  {
    score := 0;
    var lowered := Lower(content);
    var i := 0;
    while i < |keywords|
      invariant 0 <= i <= |keywords|
      invariant score == KeywordScore(content, keywords[..i])
    {
      score := score + Count(lowered, Lower(keywords[i]));
      assert keywords[..i + 1][..i] == keywords[..i];
      i := i + 1;
    }
    assert keywords[..i] == keywords;
  }
}

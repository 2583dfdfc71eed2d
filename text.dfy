/** String operations the crawler borrows from Python's `str` type, restricted
    to ASCII: `strip()`, `lower()`, `rstrip('/')`, the `in` operator on
    strings and `count`. */
module Text {

  /** URLs are plain strings, compared by exact equality. */
  type Url = string

  /** ASCII characters for which Python's `str.isspace()` holds. */
  predicate IsSpace(c: char) {
    var n := c as int;
    n == 32 || 9 <= n <= 13 || 28 <= n <= 31
  }

  function LStrip(s: string): (r: string)
    decreases |s|
  {
    if |s| > 0 && IsSpace(s[0]) then LStrip(s[1..]) else s
  }

  function RStrip(s: string): (r: string)
    decreases |s|
  {
    if |s| > 0 && IsSpace(s[|s| - 1]) then RStrip(s[..|s| - 1]) else s
  }

  /** Python's `s.strip()`. */
  function Strip(s: string): string {
    RStrip(LStrip(s))
  }

  function LowerChar(c: char): char {
    if 'A' <= c <= 'Z' then (c as int + 32) as char else c
  }

  /** Python's `s.lower()` on ASCII letters. */
  function Lower(s: string): (r: string)
    ensures |r| == |s|
    ensures forall i :: 0 <= i < |r| ==> !('A' <= r[i] <= 'Z')
    ensures forall i :: 0 <= i < |s| && 'A' <= s[i] <= 'Z' ==> r[i] as int == s[i] as int + 32
    ensures forall i :: 0 <= i < |s| && !('A' <= s[i] <= 'Z') ==> r[i] == s[i]
  {
    seq(|s|, i requires 0 <= i < |s| => LowerChar(s[i]))
  }

  /** `text.strip().lower()`, applied to tag texts before they are compared. */
  function Label(text: string): string {
    Lower(Strip(text))
  }

  predicate EndsWithSlash(s: string) {
    |s| > 0 && s[|s| - 1] == '/'
  }

  /** Python's `s.rstrip('/')`: every trailing slash is removed, nothing else. */
  function RStripSlash(s: string): (r: string)
    ensures !EndsWithSlash(r)
    decreases |s|
  {
    if EndsWithSlash(s) then RStripSlash(s[..|s| - 1]) else s
  }

  /** `rstrip('/')` removes a suffix made of slashes only. */
  lemma {:induction false} RStripSlashSuffix(s: string)
    ensures RStripSlash(s) <= s
    ensures forall i :: |RStripSlash(s)| <= i < |s| ==> s[i] == '/'
    decreases |s|
  {
    if EndsWithSlash(s) {
      RStripSlashSuffix(s[..|s| - 1]);
    }
  }

  /** The leading half of `strip()`: it removes a prefix made of whitespace
      only and leaves no whitespace at the start. */
  lemma {:induction false} LStripSpec(s: string)
    ensures |LStrip(s)| <= |s| && LStrip(s) == s[|s| - |LStrip(s)|..]
    ensures forall i :: 0 <= i < |s| - |LStrip(s)| ==> IsSpace(s[i])
    ensures |LStrip(s)| == 0 || !IsSpace(LStrip(s)[0])
    decreases |s|
  {
    if |s| > 0 && IsSpace(s[0]) {
      LStripSpec(s[1..]);
    }
  }

  /** The trailing half of `strip()`: it removes a suffix made of whitespace
      only and leaves no whitespace at the end. */
  lemma {:induction false} RStripSpec(s: string)
    ensures RStrip(s) <= s
    ensures forall i :: |RStrip(s)| <= i < |s| ==> IsSpace(s[i])
    ensures |RStrip(s)| == 0 || !IsSpace(RStrip(s)[|RStrip(s)| - 1])
    decreases |s|
  {
    if |s| > 0 && IsSpace(s[|s| - 1]) {
      RStripSpec(s[..|s| - 1]);
    }
  }

  /** `strip()` keeps a slice of `s` from position `a`, everything before and
      after that slice is whitespace, and the slice has no whitespace at
      either end. */
  lemma StripSpec(s: string)
    ensures var t, a := Strip(s), |s| - |LStrip(s)|;
      0 <= a && a + |t| <= |s| && t == s[a..a + |t|] &&
      (forall i :: 0 <= i < a ==> IsSpace(s[i])) &&
      (forall i :: a + |t| <= i < |s| ==> IsSpace(s[i])) &&
      (|t| == 0 || (!IsSpace(t[0]) && !IsSpace(t[|t| - 1])))
  {
    var l := LStrip(s);
    LStripSpec(s);
    RStripSpec(l);
    var a := |s| - |l|;
    forall i | a + |Strip(s)| <= i < |s| ensures IsSpace(s[i]) {
      assert s[i] == l[i - a];
    }
  }

  /** `sub` occurs in `s` starting at position `i`. */
  predicate OccursAt(s: string, sub: string, i: int) {
    0 <= i && i + |sub| <= |s| && s[i..i + |sub|] == sub
  }

  /** Python's `sub in s`. */
  predicate Contains(s: string, sub: string)
    decreases |s|
  {
    sub <= s || (|s| > 0 && Contains(s[1..], sub))
  }

  /** Python's `s.count(sub)`: non-overlapping occurrences scanned from the
      left; the empty string occurs `len(s) + 1` times. */
  function Count(s: string, sub: string): nat
    decreases |s|
  {
    if |sub| == 0 then |s| + 1
    else if |s| < |sub| then 0
    else if sub <= s then 1 + Count(s[|sub|..], sub)
    else Count(s[1..], sub)
  }

  /** The number of positions of `s` at which `sub` occurs, overlapping
      occurrences included; the empty string occurs at all `len(s) + 1`
      positions. */
  function NumAt(s: string, sub: string): nat
    decreases |s|
  {
    (if OccursAt(s, sub, 0) then 1 else 0) + (if |s| == 0 then 0 else NumAt(s[1..], sub))
  }

  /** No two occurrences of `sub` in `s` overlap. */
  ghost predicate Disjoint(s: string, sub: string) {
    forall i, j :: OccursAt(s, sub, i) && OccursAt(s, sub, j) && i < j ==> j - i >= |sub|
  }

  /** An occurrence in `s[d..]` is an occurrence in `s`, `d` positions on. */
  lemma OccursShift(s: string, sub: string, d: nat, i: nat)
    requires d <= |s|
    ensures OccursAt(s[d..], sub, i) <==> OccursAt(s, sub, i + d)
  {
    if i + |sub| <= |s| - d {
      assert s[d..][i..i + |sub|] == s[i + d..i + d + |sub|];
    }
  }

  lemma DisjointShift(s: string, sub: string, d: nat)
    requires d <= |s| && Disjoint(s, sub)
    ensures Disjoint(s[d..], sub)
  {
    forall i, j | OccursAt(s[d..], sub, i) && OccursAt(s[d..], sub, j) && i < j
      ensures j - i >= |sub|
    {
      OccursShift(s, sub, d, i);
      OccursShift(s, sub, d, j);
    }
  }

  /** Leading positions without an occurrence do not add to the number. */
  lemma {:induction false} NumAtSkip(t: string, sub: string, d: nat)
    requires d <= |t|
    requires forall i :: 0 <= i < d ==> !OccursAt(t, sub, i)
    ensures NumAt(t, sub) == NumAt(t[d..], sub)
    decreases d
  {
    if d > 0 {
      forall i | 0 <= i < d - 1 ensures !OccursAt(t[1..], sub, i) {
        OccursShift(t, sub, 1, i);
      }
      NumAtSkip(t[1..], sub, d - 1);
      assert t[1..][d - 1..] == t[d..];
    }
  }

  /** Dropping a prefix never adds occurrences. */
  lemma {:induction false} NumAtDrop(t: string, sub: string, d: nat)
    requires d <= |t|
    ensures NumAt(t[d..], sub) <= NumAt(t, sub)
    decreases d
  {
    if d > 0 {
      NumAtDrop(t[1..], sub, d - 1);
      assert t[1..][d - 1..] == t[d..];
    }
  }

  /** `count` never finds more occurrences than there are, and finds all of
      them when none overlap, as in `"shopshopshop".count("shop") == 3`. */
  lemma {:induction false} CountIsNumAt(s: string, sub: string)
    ensures Count(s, sub) <= NumAt(s, sub)
    ensures Disjoint(s, sub) ==> Count(s, sub) == NumAt(s, sub)
    decreases |s|
  {
    if |s| < |sub| {
      NumAtShort(s, sub);
    } else if |sub| > 0 && sub <= s {
      MatchStep(s, sub);
      if Disjoint(s, sub) {
        MatchSkip(s, sub);
      }
      CountIsNumAt(s[|sub|..], sub);
    } else if |s| > 0 {
      assert |sub| == 0 ==> s[0..0] == sub;
      CountIsNumAt(s[1..], sub);
      if Disjoint(s, sub) {
        DisjointShift(s, sub, 1);
      }
    } else {
      assert s[0..0] == sub;
    }
  }

  /** After an occurrence at the start, `count` resumes `|sub|` positions on,
      which never skips past more occurrences than the one it counted. */
  lemma MatchStep(s: string, sub: string)
    requires 0 < |sub| <= |s| && sub <= s
    ensures NumAt(s, sub) == 1 + NumAt(s[1..], sub)
    ensures NumAt(s[|sub|..], sub) <= NumAt(s[1..], sub)
  {
    assert s[0..|sub|] == sub;
    assert OccursAt(s, sub, 0);
    assert s[1..][|sub| - 1..] == s[|sub|..];
    NumAtDrop(s[1..], sub, |sub| - 1);
  }

  /** When no occurrences overlap, the positions that `count` jumps over
      after an occurrence hold none. */
  lemma MatchSkip(s: string, sub: string)
    requires 0 < |sub| <= |s| && sub <= s && Disjoint(s, sub)
    ensures NumAt(s[1..], sub) == NumAt(s[|sub|..], sub)
    ensures Disjoint(s[|sub|..], sub)
  {
    assert s[0..|sub|] == sub;
    var t := s[1..];
    forall i | 0 <= i < |sub| - 1 ensures !OccursAt(t, sub, i) {
      OccursShift(s, sub, 1, i);
      assert OccursAt(s, sub, 0);
    }
    NumAtSkip(t, sub, |sub| - 1);
    assert t[|sub| - 1..] == s[|sub|..];
    DisjointShift(s, sub, |sub|);
  }

  /** "shop" cannot overlap itself, so `count` finds every occurrence of it. */
  lemma ShopDisjoint(s: string)
    ensures Disjoint(s, "shop")
  {
    forall i, j | OccursAt(s, "shop", i) && OccursAt(s, "shop", j) && i < j
      ensures j - i >= 4
    {
      assert s[i..i + 4] == "shop" && s[j..j + 4] == "shop";
      assert s[j] == s[j..j + 4][0] == 's';
      forall k | i < k < i + 4 ensures s[k] != 's' {
        assert s[k] == s[i..i + 4][k - i];
      }
    }
  }

  lemma {:induction false} NumAtShort(s: string, sub: string)
    requires |s| < |sub|
    ensures NumAt(s, sub) == 0
    decreases |s|
  {
    if |s| > 0 {
      NumAtShort(s[1..], sub);
    }
  }

  lemma {:induction false} ContainsIffOccurs(s: string, sub: string)
    ensures Contains(s, sub) <==> exists i :: OccursAt(s, sub, i)
    decreases |s|
  {
    if sub <= s {
      assert s[0..|sub|] == sub;
      assert OccursAt(s, sub, 0);
    } else if |s| > 0 {
      ContainsIffOccurs(s[1..], sub);
      forall i | OccursAt(s, sub, i) && i > 0 ensures OccursAt(s[1..], sub, i - 1) {
        assert s[1..][i - 1..i - 1 + |sub|] == s[i..i + |sub|];
      }
      forall j | OccursAt(s[1..], sub, j) ensures OccursAt(s, sub, j + 1) {
        assert s[1..][j..j + |sub|] == s[j + 1..j + 1 + |sub|];
      }
    }
  }

  /** A keyword scores at least once exactly when it occurs; the empty
      keyword occurs in every content and always scores. */
  lemma {:induction false} CountPositiveIffContains(s: string, sub: string)
    ensures Count(s, sub) > 0 <==> Contains(s, sub)
    decreases |s|
  {
    if |s| < |sub| {
      NotContainsShort(s, sub);
    } else if sub <= s {
    } else {
      CountPositiveIffContains(s[1..], sub);
    }
  }

  lemma {:induction false} NotContainsShort(s: string, sub: string)
    requires |s| < |sub|
    ensures !Contains(s, sub)
    decreases |s|
  {
    if |s| > 0 {
      NotContainsShort(s[1..], sub);
    }
  }

  /** Occurrences counted by `count` do not overlap. */
  lemma {:induction false} CountBound(s: string, sub: string)
    requires |sub| > 0
    ensures Count(s, sub) * |sub| <= |s|
    decreases |s|
  {
    if |s| >= |sub| {
      if sub <= s {
        CountBound(s[|sub|..], sub);
        MulStep(Count(s[|sub|..], sub), |sub|, |s|);
      } else {
        CountBound(s[1..], sub);
      }
    }
  }

  lemma MulStep(c: nat, n: nat, len: int)
    requires c * n <= len - n
    ensures (1 + c) * n <= len
  {
  }
}

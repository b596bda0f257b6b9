/**
  The integer metrics computed for an author from the citation counts and years of
  their papers: h-index (Hirsch), i10-index, g-index (Egghe, cut at the number of
  papers) and academic age.
 */
module Bibliometrics {
  import opened Wrappers

  predicate SortedDesc(c: seq<int>)
  {
    forall i, j :: 0 <= i < j < |c| ==> c[i] >= c[j]
  }

  /** Puts `x` into a descending list. */
  function Insert(x: int, s: seq<int>): (r: seq<int>)
    requires SortedDesc(s)
    ensures SortedDesc(r) && multiset(r) == multiset(s) + multiset{x}
  {
    if s == [] || x >= s[0] then [x] + s
    else
      var rest := Insert(x, s[1..]);
      InsertHead(x, s, rest);
      [s[0]] + rest
  }

  lemma InsertHead(x: int, s: seq<int>, rest: seq<int>)
    requires s != [] && x < s[0] && SortedDesc(s) && SortedDesc(rest)
    requires multiset(rest) == multiset(s[1..]) + multiset{x}
    ensures SortedDesc([s[0]] + rest)
    ensures multiset([s[0]] + rest) == multiset(s) + multiset{x}
  {
    assert s == [s[0]] + s[1..];
    forall i | 0 <= i < |rest| ensures rest[i] <= s[0] {
      assert rest[i] in multiset(rest);
      if rest[i] != x {
        assert rest[i] in multiset(s[1..]);
      }
    }
  }

  /** `sorted(citations, reverse=True)`. */
  function SortDesc(s: seq<int>): (r: seq<int>)
    ensures SortedDesc(r) && multiset(r) == multiset(s)
  {
    if s == [] then []
    else
      assert s == [s[0]] + s[1..];
      Insert(s[0], SortDesc(s[1..]))
  }

  /** `sum(x >= i + 1 for i, x in enumerate(c))`, counting from position `i`. */
  function HCountFrom(c: seq<int>, i: nat): (h: nat)
    requires i <= |c|
    ensures h <= |c| - i
    decreases |c| - i
  {
    if i == |c| then 0 else (if c[i] >= i + 1 then 1 else 0) + HCountFrom(c, i + 1)
  }

  function HIndex(c: seq<int>): (h: nat)
    ensures h <= |c|
  {
    HCountFrom(c, 0)
  }

  /** First position at or after `i` whose paper has fewer citations than its rank. */
  function FirstShort(c: seq<int>, i: nat): (k: nat)
    requires i <= |c|
    ensures i <= k <= |c|
    ensures forall j :: i <= j < k ==> c[j] >= j + 1
    ensures k < |c| ==> c[k] < k + 1
    decreases |c| - i
  {
    if i == |c| || c[i] < i + 1 then i else FirstShort(c, i + 1)
  }

  lemma {:induction false} HCountIsPrefix(c: seq<int>, i: nat)
    requires SortedDesc(c) && i <= |c|
    ensures HCountFrom(c, i) == FirstShort(c, i) - i
    decreases |c| - i
  {
    if i < |c| {
      HCountIsPrefix(c, i + 1);
      if c[i] < i + 1 {
        forall j | i < j < |c| ensures c[j] < j + 1 { }
        CountNone(c, i + 1);
      }
    }
  }

  lemma {:induction false} CountNone(c: seq<int>, i: nat)
    requires i <= |c|
    requires forall j :: i <= j < |c| ==> c[j] < j + 1
    ensures HCountFrom(c, i) == 0
    decreases |c| - i
  {
    if i < |c| {
      CountNone(c, i + 1);
    }
  }

  /** Hirsch's definition: on a descending list, the first h papers have at least h
      citations each and every other paper has at most h. */
  lemma HIndexIsHirsch(c: seq<int>)
    requires SortedDesc(c)
    ensures var h := HIndex(c);
      (forall i :: 0 <= i < h ==> c[i] >= h) && (forall i :: h <= i < |c| ==> c[i] <= h)
  {
    HCountIsPrefix(c, 0);
    var h := HIndex(c);
    if h > 0 {
      assert c[h - 1] >= h;
    }
    if h < |c| {
      assert c[h] < h + 1;
    }
  }

  /** `sum(x >= 10 for x in c)`. */
  function I10Index(c: seq<int>): (n: nat)
    ensures n <= |c|
  {
    if c == [] then 0 else (if c[0] >= 10 then 1 else 0) + I10Index(c[1..])
  }

  /** On a descending list the i10 papers are exactly the first i10 ones. */
  lemma {:induction false} I10IsPrefix(c: seq<int>)
    requires SortedDesc(c)
    ensures forall i :: 0 <= i < |c| ==> (c[i] >= 10 <==> i < I10Index(c))
  {
    if c != [] {
      I10IsPrefix(c[1..]);
      if c[0] < 10 {
        assert forall i :: 0 <= i < |c| ==> c[i] < 10;
        I10None(c);
      }
    }
  }

  lemma {:induction false} I10None(c: seq<int>)
    requires forall i :: 0 <= i < |c| ==> c[i] < 10
    ensures I10Index(c) == 0
  {
    if c != [] {
      I10None(c[1..]);
    }
  }

  /** Once h reaches 10, all h-core papers count for i10. */
  lemma I10AtLeastH(c: seq<int>)
    requires SortedDesc(c) && HIndex(c) >= 10
    ensures I10Index(c) >= HIndex(c)
  {
    HIndexIsHirsch(c);
    I10IsPrefix(c);
    assert c[HIndex(c) - 1] >= 10;
  }

  /** Sum of a list, the last element peeled off (`sum(c[:k])`). */
  function Sum(s: seq<int>): int
  {
    if s == [] then 0 else Sum(s[..|s| - 1]) + s[|s| - 1]
  }

  /** The top `k` papers together have at least `k`² citations. */
  predicate GReached(c: seq<int>, k: nat)
  {
    1 <= k <= |c| && Sum(c[..k]) >= k * k
  }

  /** The g-index loop: the last `i + 1` whose prefix sum reaches `(i + 1)`², or 0. */
  method GIndex(c: seq<int>) returns (g: nat)
    ensures g <= |c|
    ensures g == 0 || GReached(c, g)
    ensures forall k :: g < k <= |c| ==> !GReached(c, k)
  {
    g := 0;
    for i := 0 to |c|
      invariant g <= i
      invariant g == 0 || GReached(c, g)
      invariant forall k :: g < k <= i ==> !GReached(c, k)
    {
      if Sum(c[..i + 1]) >= (i + 1) * (i + 1) {
        g := i + 1;
      }
    }
  }

  lemma {:induction false} SumAtLeast(s: seq<int>, m: int)
    requires forall i :: 0 <= i < |s| ==> s[i] >= m
    ensures Sum(s) >= |s| * m
  {
    if s != [] {
      SumAtLeast(s[..|s| - 1], m);
    }
  }

  /** Whatever satisfies the g-index contract is at least the h-index. */
  lemma GAtLeastH(c: seq<int>, g: nat)
    requires SortedDesc(c)
    requires g <= |c| && (g == 0 || GReached(c, g))
    requires forall k :: g < k <= |c| ==> !GReached(c, k)
    ensures g >= HIndex(c)
  {
    var h := HIndex(c);
    if h > 0 {
      HIndexIsHirsch(c);
      SumAtLeast(c[..h], h);
      assert GReached(c, h);
    }
  }

  /** The index block: sort the citation counts, then h-, i10- and g-index. The g-index
      never falls below the h-index, and none exceeds the number of papers. */
  method CitationIndices(citations: seq<int>) returns (h: nat, i10: nat, g: nat)
    ensures var c := SortDesc(citations);
      && h == HIndex(c) && i10 == I10Index(c)
      && (g == 0 || GReached(c, g)) && (forall k :: g < k <= |c| ==> !GReached(c, k))
    ensures h <= g <= |citations| && i10 <= |citations|
  {
    var c := SortDesc(citations);
    assert |c| == |multiset(c)| == |citations|;
    h := HIndex(c);
    i10 := I10Index(c);
    g := GIndex(c);
    GAtLeastH(c, g);
  }

  /** `df["year"].min()`: the smallest known year; `None` when no year is known. */
  function MinYear(years: seq<Option<int>>): (m: Option<int>)
    ensures m.None? <==> forall i :: 0 <= i < |years| ==> years[i].None?
    ensures m.Some? ==> m in years && forall i :: 0 <= i < |years| && years[i].Some? ==> m.value <= years[i].value
  {
    if years == [] then None
    else
      var rest := MinYear(years[1..]);
      assert forall i :: 1 <= i < |years| ==> years[i] == years[1..][i - 1];
      match years[0]
      case None => rest
      case Some(y) =>
        if rest.Some? && rest.value < y then rest else Some(y)
  }

  /** Academic age: years since the first paper, at least 1, and 1 when no year is known. */
  function AcademicAge(currentYear: int, years: seq<Option<int>>): (age: int)
    ensures age >= 1
    ensures (forall i :: 0 <= i < |years| ==> years[i].None?) ==> age == 1
    ensures forall i :: 0 <= i < |years| && years[i].Some? && currentYear - years[i].value >= 1 ==>
      age >= currentYear - years[i].value
    ensures age > 1 ==> exists i :: 0 <= i < |years| && years[i].Some? && age == currentYear - years[i].value
  {
    var minYear := MinYear(years);
    var age := if minYear.Some? then currentYear - minYear.value else 1;
    if age < 1 then 1 else age
  }
}

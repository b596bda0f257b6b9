/**
  The publications table under a report: per-venue counts for the quick-filter
  buttons (top six), the venue filter, and pages of ten rows.
 */
module Publications {
  import opened Wrappers
  import opened ReportData

  const PageSize: nat := 10
  const VenueButtons: nat := 6

  datatype VenueCount = VenueCount(name: string, count: nat)

  /** Number of papers whose normalised venue is `v` (last paper peeled off, as the counting loop adds one paper at a time). */
  function Count(papers: seq<Paper>, v: string): nat
  {
    if papers == [] then 0
    else Count(papers[..|papers| - 1], v) + (if NormVenue(papers[|papers| - 1]) == v then 1 else 0)
  }

  /** The normalised venues that occur. */
  function Venues(papers: seq<Paper>): set<string>
  {
    set p | p in papers :: NormVenue(p)
  }

  /** `papers.filter(p => (p.venue || "Unknown") === v)`. */
  function ByVenue(papers: seq<Paper>, v: string): (r: seq<Paper>)
    ensures forall p :: p in r <==> p in papers && NormVenue(p) == v
  {
    if papers == [] then []
    else (if NormVenue(papers[0]) == v then [papers[0]] else []) + ByVenue(papers[1..], v)
  }

  /** The rows the table works on: everything without a filter (`!filterVenue`, so an empty
      name means no filter too), else the papers of that venue. */
  function Filtered(papers: seq<Paper>, filter: Option<string>): seq<Paper>
  {
    if filter.None? || filter.value == [] then papers else ByVenue(papers, filter.value)
  }

  /** The filter keeps the papers' order: it works piece by piece. */
  lemma {:induction false} ByVenueAppend(a: seq<Paper>, b: seq<Paper>, v: string)
    ensures ByVenue(a + b, v) == ByVenue(a, v) + ByVenue(b, v)
  {
    if a == [] {
      assert a + b == b;
    } else {
      assert (a + b)[0] == a[0] && (a + b)[1..] == a[1..] + b;
      ByVenueAppend(a[1..], b, v);
    }
  }

  /** A venue's count is the number of rows its filter shows. */
  lemma {:induction false} CountIsFilteredLength(papers: seq<Paper>, v: string)
    ensures Count(papers, v) == |ByVenue(papers, v)|
    decreases |papers|
  {
    if papers != [] {
      var init, last := papers[..|papers| - 1], papers[|papers| - 1];
      assert papers == init + [last];
      ByVenueAppend(init, [last], v);
      CountIsFilteredLength(init, v);
    }
  }

  /** No filter shows every paper as it is; a venue shows exactly the papers of that
      venue, as many as the venue's count. */
  lemma FilteredRows(papers: seq<Paper>, filter: Option<string>)
    ensures filter.None? ==> Filtered(papers, filter) == papers
    ensures filter.Some? && filter.value != [] ==>
      && (forall p :: p in Filtered(papers, filter) <==> p in papers && NormVenue(p) == filter.value)
      && |Filtered(papers, filter)| == Count(papers, filter.value)
  {
    if filter.Some? && filter.value != [] {
      CountIsFilteredLength(papers, filter.value);
    }
  }

  /** A venue has a positive count exactly when some paper has it. */
  lemma {:induction false} CountPositive(papers: seq<Paper>, v: string)
    ensures Count(papers, v) > 0 <==> v in Venues(papers)
    decreases |papers|
  {
    if papers != [] {
      var init, last := papers[..|papers| - 1], papers[|papers| - 1];
      assert papers == init + [last];
      CountPositive(init, v);
      assert Venues(papers) == Venues(init) + {NormVenue(last)};
    }
  }

  /** One more paper adds one to its own venue's count and nothing to the others. */
  lemma CountStep(papers: seq<Paper>, i: nat, w: string)
    requires i < |papers|
    ensures Count(papers[..i + 1], w) == Count(papers[..i], w) + (if NormVenue(papers[i]) == w then 1 else 0)
  {
    assert papers[..i + 1][..i] == papers[..i];
  }

  lemma VenuesStep(papers: seq<Paper>, i: nat)
    requires i < |papers|
    ensures Venues(papers[..i + 1]) == Venues(papers[..i]) + {NormVenue(papers[i])}
  {
    assert papers[..i + 1] == papers[..i] + [papers[i]];
  }

  /** The `forEach` that fills the `counts` dictionary. */
  method CountVenues(papers: seq<Paper>) returns (counts: map<string, nat>)
    ensures counts.Keys == Venues(papers)
    ensures forall v :: v in counts ==> counts[v] == Count(papers, v) && counts[v] > 0
  {
    counts := map[];
    for i := 0 to |papers|
      invariant counts.Keys == Venues(papers[..i])
      invariant forall v :: v in counts ==> counts[v] == Count(papers[..i], v)
    {
      var v := NormVenue(papers[i]);
      VenuesStep(papers, i);
      if v !in counts {
        CountPositive(papers[..i], v);
      }
      counts := counts[v := (if v in counts then counts[v] else 0) + 1];
      forall w | w in counts
        ensures counts[w] == Count(papers[..i + 1], w)
      {
        CountStep(papers, i, w);
      }
    }
    assert papers[..|papers|] == papers;
    forall v | v in counts ensures counts[v] > 0 {
      CountPositive(papers, v);
    }
  }

  /** A venue among `remaining` with the largest count (ties: any of them). */
  method MostFrequent(counts: map<string, nat>, remaining: set<string>) returns (best: string)
    requires remaining != {} && remaining <= counts.Keys
    ensures best in remaining
    ensures forall v :: v in remaining ==> counts[v] <= counts[best]
  {
    var todo := remaining;
    best :| best in todo;
    while todo != {}
      invariant todo <= remaining && best in remaining
      invariant forall v :: v in remaining - todo ==> counts[v] <= counts[best]
      decreases todo
    {
      var v :| v in todo;
      if counts[v] > counts[best] {
        best := v;
      }
      todo := todo - {v};
    }
  }

  /** The venues listed so far. */
  function Names(stats: seq<VenueCount>): set<string>
  {
    if stats == [] then {} else {stats[0].name} + Names(stats[1..])
  }

  lemma {:induction false} NamesAppend(stats: seq<VenueCount>, x: VenueCount)
    ensures Names(stats + [x]) == Names(stats) + {x.name}
  {
    if stats == [] {
      assert stats + [x] == [x];
    } else {
      assert (stats + [x])[1..] == stats[1..] + [x];
      NamesAppend(stats[1..], x);
    }
  }

  lemma {:induction false} NamesAt(stats: seq<VenueCount>, v: string)
    ensures v in Names(stats) <==> exists i :: 0 <= i < |stats| && stats[i].name == v
  {
    if stats != [] {
      NamesAt(stats[1..], v);
      if v in Names(stats[1..]) {
        var i :| 0 <= i < |stats[1..]| && stats[1..][i].name == v;
        assert stats[i + 1].name == v;
      }
      if exists i :: 0 <= i < |stats| && stats[i].name == v {
        var i :| 0 <= i < |stats| && stats[i].name == v;
        if i > 0 {
          assert stats[1..][i - 1].name == v;
        }
      }
    }
  }

  /** No venue is listed twice. */
  predicate DistinctNames(stats: seq<VenueCount>)
  {
    forall i, j :: 0 <= i < j < |stats| ==> stats[i].name != stats[j].name
  }

  /** Entries have different names and never-increasing counts. */
  predicate Ranked(stats: seq<VenueCount>)
  {
    forall i, j :: 0 <= i < j < |stats| ==> stats[i].name != stats[j].name && stats[i].count >= stats[j].count
  }

  /** The selection after `sort(...).slice(0, 6)`: repeatedly take a most frequent venue
      not yet listed. */
  method TopVenues(counts: map<string, nat>) returns (stats: seq<VenueCount>)
    ensures |stats| == if |counts| < VenueButtons then |counts| else VenueButtons
    ensures forall i :: 0 <= i < |stats| ==> stats[i].name in counts && stats[i].count == counts[stats[i].name]
    ensures Ranked(stats)
    ensures forall i, v :: 0 <= i < |stats| && v in counts && v !in Names(stats) ==> counts[v] <= stats[i].count
  {
    var remaining := counts.Keys;
    stats := [];
    while |stats| < VenueButtons && remaining != {}
      invariant remaining <= counts.Keys && |stats| <= VenueButtons
      invariant forall v :: v in counts ==> (v in remaining <==> v !in Names(stats))
      invariant |stats| + |remaining| == |counts.Keys|
      invariant forall i :: 0 <= i < |stats| ==> stats[i].name in counts && stats[i].count == counts[stats[i].name]
      invariant Ranked(stats)
      invariant forall i, v :: 0 <= i < |stats| && v in remaining ==> counts[v] <= stats[i].count
      decreases remaining
    {
      var best := MostFrequent(counts, remaining);
      var entry := VenueCount(best, counts[best]);
      forall i | 0 <= i < |stats| ensures stats[i].name != best {
        NamesAt(stats, stats[i].name);
      }
      NamesAppend(stats, entry);
      stats := stats + [entry];
      remaining := remaining - {best};
    }
    assert |counts.Keys| == |counts|;
  }

  /** `venueStats`: the six most frequent venues with their exact counts, most frequent
      first. Every venue left out has no larger count than any listed one, and the
      listed counts add up to at most the number of papers. */
  method VenueStats(papers: seq<Paper>) returns (stats: seq<VenueCount>)
    ensures |stats| == if |Venues(papers)| < VenueButtons then |Venues(papers)| else VenueButtons
    ensures forall i :: 0 <= i < |stats| ==>
      stats[i].name in Venues(papers) && stats[i].count == Count(papers, stats[i].name) && stats[i].count > 0
    ensures Ranked(stats)
    ensures forall i, v :: 0 <= i < |stats| && v in Venues(papers) && v !in Names(stats) ==>
      Count(papers, v) <= stats[i].count
    ensures SumCounts(stats) <= |papers|
  {
    var counts := CountVenues(papers);
    assert |counts| == |counts.Keys|;
    stats := TopVenues(counts);
    SumCountsBound(papers, stats);
  }

  function SumCounts(stats: seq<VenueCount>): nat
  {
    if stats == [] then 0 else stats[0].count + SumCounts(stats[1..])
  }

  /** Papers whose normalised venue lies in `names`. */
  function CountAmong(papers: seq<Paper>, names: set<string>): (n: nat)
    ensures n <= |papers|
  {
    if papers == [] then 0
    else CountAmong(papers[..|papers| - 1], names) + (if NormVenue(papers[|papers| - 1]) in names then 1 else 0)
  }

  lemma {:induction false} CountAmongAdd(papers: seq<Paper>, names: set<string>, v: string)
    requires v !in names
    ensures CountAmong(papers, names + {v}) == CountAmong(papers, names) + Count(papers, v)
    decreases |papers|
  {
    if papers != [] {
      CountAmongAdd(papers[..|papers| - 1], names, v);
    }
  }

  lemma {:induction false} CountAmongEmpty(papers: seq<Paper>)
    ensures CountAmong(papers, {}) == 0
    decreases |papers|
  {
    if papers != [] {
      CountAmongEmpty(papers[..|papers| - 1]);
    }
  }

  lemma {:induction false} SumCountsIsCountAmong(papers: seq<Paper>, stats: seq<VenueCount>)
    requires forall i :: 0 <= i < |stats| ==> stats[i].count == Count(papers, stats[i].name)
    requires DistinctNames(stats)
    ensures SumCounts(stats) == CountAmong(papers, Names(stats))
  {
    if stats == [] {
      CountAmongEmpty(papers);
    } else {
      var rest := stats[1..];
      SumCountsIsCountAmong(papers, rest);
      NamesAt(rest, stats[0].name);
      forall i | 0 <= i < |rest| ensures rest[i].name != stats[0].name {
        assert rest[i] == stats[i + 1];
      }
      CountAmongAdd(papers, Names(rest), stats[0].name);
      assert Names(stats) == Names(rest) + {stats[0].name};
    }
  }

  /** Counts of distinct venues never add up to more than the number of papers. */
  lemma SumCountsBound(papers: seq<Paper>, stats: seq<VenueCount>)
    requires forall i :: 0 <= i < |stats| ==> stats[i].count == Count(papers, stats[i].name)
    requires DistinctNames(stats)
    ensures SumCounts(stats) <= |papers|
  {
    SumCountsIsCountAmong(papers, stats);
  }

  // ---- Pagination ----

  /** `Math.ceil(n / 10)`. */
  function TotalPages(n: nat): (t: nat)
    ensures n <= t * PageSize
    ensures t > 0 ==> (t - 1) * PageSize < n
  {
    (n + PageSize - 1) / PageSize
  }

  /** `filtered.slice((page - 1) * 10, (page - 1) * 10 + 10)`; `slice` clamps to the length. */
  function Displayed(filtered: seq<Paper>, page: nat): (rows: seq<Paper>)
    requires page >= 1
    ensures |rows| <= PageSize
    ensures rows != [] ==> (page - 1) * PageSize + |rows| <= |filtered|
    ensures (page - 1) * PageSize < |filtered| ==>
      |rows| == if PageSize <= |filtered| - (page - 1) * PageSize then PageSize
                else |filtered| - (page - 1) * PageSize
    ensures (page - 1) * PageSize >= |filtered| ==> rows == []
    ensures forall i :: 0 <= i < |rows| ==> rows[i] == filtered[(page - 1) * PageSize + i]
  {
    var start := (page - 1) * PageSize;
    if start >= |filtered| then []
    else filtered[start..if start + PageSize <= |filtered| then start + PageSize else |filtered|]
  }

  /** Pages 1 .. k one after the other. */
  function PagesUpTo(filtered: seq<Paper>, k: nat): seq<Paper>
  {
    if k == 0 then [] else PagesUpTo(filtered, k - 1) + Displayed(filtered, k)
  }

  lemma {:induction false} PagesUpToPrefix(filtered: seq<Paper>, k: nat)
    ensures PagesUpTo(filtered, k) == filtered[..if k * PageSize <= |filtered| then k * PageSize else |filtered|]
  {
    if k > 0 {
      PagesUpToPrefix(filtered, k - 1);
      var start := (k - 1) * PageSize;
      assert k * PageSize == start + PageSize;
      var m := if k * PageSize <= |filtered| then k * PageSize else |filtered|;
      if start >= |filtered| {
        assert Displayed(filtered, k) == [];
        assert m == |filtered|;
      } else {
        assert Displayed(filtered, k) == filtered[start..m];
        assert filtered[..start] + filtered[start..m] == filtered[..m];
      }
    }
  }

  /** Reading all pages in order gives back every row exactly once, in order. */
  lemma AllPagesCoverRows(filtered: seq<Paper>)
    ensures PagesUpTo(filtered, TotalPages(|filtered|)) == filtered
  {
    PagesUpToPrefix(filtered, TotalPages(|filtered|));
  }

  /** Every page but the last is full; the last holds the remainder (ten when it divides). */
  lemma PageSizes(filtered: seq<Paper>, page: nat)
    requires 1 <= page <= TotalPages(|filtered|)
    ensures page < TotalPages(|filtered|) ==> |Displayed(filtered, page)| == PageSize
    ensures page == TotalPages(|filtered|) ==>
      |Displayed(filtered, page)| == if |filtered| % PageSize == 0 then PageSize else |filtered| % PageSize
  {
  }

  /** "Showing X to Y": 1-based bounds of the page. */
  function ShowingFrom(page: nat): nat
    requires page >= 1
  {
    (page - 1) * PageSize + 1
  }

  function ShowingTo(page: nat, n: nat): nat
  {
    if page * PageSize < n then page * PageSize else n
  }

  /** On any existing page the "showing" range names exactly the rows displayed. */
  lemma ShowingMatchesRows(filtered: seq<Paper>, page: nat)
    requires 1 <= page <= TotalPages(|filtered|)
    ensures 1 <= ShowingFrom(page) <= ShowingTo(page, |filtered|) <= |filtered|
    ensures Displayed(filtered, page) == filtered[ShowingFrom(page) - 1..ShowingTo(page, |filtered|)]
  {
  }

  /** 23 rows make three pages of 10, 10 and 3. */
  lemma TwentyThreeRows(filtered: seq<Paper>)
    requires |filtered| == 23
    ensures TotalPages(23) == 3
    ensures |Displayed(filtered, 1)| == 10 && |Displayed(filtered, 2)| == 10 && |Displayed(filtered, 3)| == 3
  {
  }

  /** The "Previous" button. */
  function PreviousPage(page: nat): (p: nat)
    requires page >= 1
    ensures 1 <= p <= page && (page > 1 ==> p == page - 1)
  {
    if page - 1 > 1 then page - 1 else 1
  }

  /** The "Next" button: `Math.min(totalPages, p + 1)`, for any page. */
  function NextPage(page: nat, totalPages: nat): (p: nat)
    ensures p <= totalPages && p <= page + 1
    ensures p == totalPages || p == page + 1
    ensures page <= totalPages ==> page <= p && (page < totalPages ==> p == page + 1)
  {
    if totalPages < page + 1 then totalPages else page + 1
  }

  /** The table's own state: the venue filter and the current page, over a fixed paper list.
      A submit clears the report, which unmounts the table, and the commit of its result
      mounts a new one. A commit of an earlier request that lands while a table is shown
      would change its papers in place; that race between overlapping requests is not
      part of this model. */
  class PublicationsTable {
    const papers: seq<Paper>
    var filterVenue: Option<string>
    var currentPage: nat

    /** The page is always between 1 and the last page (1 when there are no rows). */
    ghost predicate Valid()
      reads this
    {
      var t := TotalPages(|Filtered(papers, filterVenue)|);
      1 <= currentPage <= (if t < 1 then 1 else t)
    }

    /** `displayedPapers`. */
    function Rows(): (rows: seq<Paper>)
      reads this
      requires Valid()
      ensures |rows| <= PageSize
    {
      Displayed(Filtered(papers, filterVenue), currentPage)
    }

    constructor (papers: seq<Paper>)
      ensures Valid()
      ensures this.papers == papers && filterVenue.None? && currentPage == 1
    {
      this.papers := papers;
      filterVenue := None;
      currentPage := 1;
    }

    /** "All Publications" (`None`) or a venue button: a different filter sends the view
        back to page 1; choosing the current filter again changes nothing. */
    method SelectVenue(v: Option<string>)
      requires Valid()
      modifies this
      ensures Valid()
      ensures filterVenue == v
      ensures currentPage == if v != old(filterVenue) then 1 else old(currentPage)
    {
      if v != filterVenue {
        filterVenue := v;
        currentPage := 1;
      }
    }

    /** "Previous": shown when there is more than one page, disabled on page 1. */
    method Previous()
      requires Valid()
      modifies this
      ensures Valid() && filterVenue == old(filterVenue)
      ensures currentPage == if |Filtered(papers, filterVenue)| > PageSize && old(currentPage) != 1
                             then PreviousPage(old(currentPage)) else old(currentPage)
    {
      if |Filtered(papers, filterVenue)| > PageSize && currentPage != 1 {
        currentPage := PreviousPage(currentPage);
      }
    }

    /** "Next": shown when there is more than one page, disabled on the last page. */
    method Next()
      requires Valid()
      modifies this
      ensures Valid() && filterVenue == old(filterVenue)
      ensures var t := TotalPages(|Filtered(papers, filterVenue)|);
        currentPage == if |Filtered(papers, filterVenue)| > PageSize && old(currentPage) != t
                       then NextPage(old(currentPage), t) else old(currentPage)
    {
      var t := TotalPages(|Filtered(papers, filterVenue)|);
      if |Filtered(papers, filterVenue)| > PageSize && currentPage != t {
        currentPage := NextPage(currentPage, t);
      }
    }
  }
}

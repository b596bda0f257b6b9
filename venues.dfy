/**
  Small string decisions of the scoring back end: the Scholar author id in a profile
  URL, the conference/journal guess from a venue name, the cleaned rank cell, and the
  choice between the conference and journal table matches.
 */
module Venues {
  import opened Wrappers
  import opened Text

  // ---- Author id ----

  /** `[\w-]` restricted to ASCII: letters, digits, underscore and hyphen. */
  predicate IsIdChar(c: char)
  {
    ('a' <= c <= 'z') || ('A' <= c <= 'Z') || ('0' <= c <= '9') || c == '_' || c == '-'
  }

  const UserKey: string := "user="
  const ScholarHost: string := "scholar.google"

  /** The pattern `user=([\w-]+)` starts matching at `p`. */
  predicate MatchAt(url: string, p: int)
  {
    ContainsAt(url, UserKey, p) && p + |UserKey| < |url| && IsIdChar(url[p + |UserKey|])
  }

  /** Leftmost match position at or after `i`. */
  function FirstMatch(url: string, i: nat): (r: Option<nat>)
    ensures r.Some? ==> i <= r.value && MatchAt(url, r.value) && forall q :: i <= q < r.value ==> !MatchAt(url, q)
    ensures r.None? ==> forall q :: i <= q ==> !MatchAt(url, q)
    decreases |url| - i
  {
    if i + |UserKey| >= |url| then None
    else if MatchAt(url, i) then Some(i)
    else FirstMatch(url, i + 1)
  }

  /** End of the run of id characters starting at `i` (greedy `+`). */
  function IdEnd(url: string, i: nat): (k: nat)
    requires i <= |url|
    ensures i <= k <= |url|
    ensures forall j :: i <= j < k ==> IsIdChar(url[j])
    ensures k < |url| ==> !IsIdChar(url[k])
    decreases |url| - i
  {
    if i == |url| || !IsIdChar(url[i]) then i else IdEnd(url, i + 1)
  }

  /** `extract_author_id`: no id unless the URL mentions "scholar.google"; otherwise the whole
      run of id characters after the leftmost "user=" that is followed by one. */
  function ExtractAuthorId(url: string): (id: Option<string>)
    ensures !Contains(url, ScholarHost) ==> id.None?
    ensures id.None? && Contains(url, ScholarHost) ==> forall p :: !MatchAt(url, p)
    ensures id.Some? ==>
      && id.value != []
      && (forall k :: 0 <= k < |id.value| ==> IsIdChar(id.value[k]))
      && exists p :: MatchAt(url, p) && (forall q :: 0 <= q < p ==> !MatchAt(url, q))
           && p + |UserKey| + |id.value| <= |url|
           && url[p + |UserKey|..p + |UserKey| + |id.value|] == id.value
           && (p + |UserKey| + |id.value| == |url| || !IsIdChar(url[p + |UserKey| + |id.value|]))
  {
    if !Contains(url, ScholarHost) then None
    else
      match FirstMatch(url, 0)
      case None => None
      case Some(p) =>
        var start := p + |UserKey|;
        Some(url[start..IdEnd(url, start)])
  }

  // ---- Venue kind ----

  datatype VenueKind = Conference | Journal | UnknownKind

  const ConferenceKeywords: seq<string> :=
    ["conference", "conf.", "proc.", "proceedings", "workshop", "symposium", "neurips", "cvpr", "iccv", "icml"]
  const JournalKeywords: seq<string> := ["journal", "transactions", "trans.", "letters", "magazine"]

  /** `any(k in v for k in keywords)`. */
  function AnyKeyword(v: string, keywords: seq<string>): (b: bool)
    ensures b <==> exists i :: 0 <= i < |keywords| && Contains(v, keywords[i])
  {
    if keywords == [] then false
    else Contains(v, keywords[0]) || AnyKeyword(v, keywords[1..])
  }

  /** `guesser`: conference keywords win over journal keywords; neither gives "unknown". */
  function Guesser(venue: string): (k: VenueKind)
    ensures k == Conference <==> AnyKeyword(Lower(venue), ConferenceKeywords)
    ensures k == Journal <==> !AnyKeyword(Lower(venue), ConferenceKeywords) && AnyKeyword(Lower(venue), JournalKeywords)
  {
    var v := Lower(venue);
    if AnyKeyword(v, ConferenceKeywords) then Conference
    else if AnyKeyword(v, JournalKeywords) then Journal
    else UnknownKind
  }

  /** The guess ignores case. */
  lemma GuesserIgnoresCase(venue: string)
    ensures Guesser(Upper(venue)) == Guesser(venue)
    ensures Guesser(Lower(venue)) == Guesser(venue)
  {
    LowerUpper(venue);
    LowerIdempotent(venue);
  }

  // ---- Rank cell ----

  /** A rank cell: missing (`None`/`NaN`) or present with its `str(...)` text. */
  datatype Cell = Missing | Present(text: string)

  /** `get_rank_from_row`: the stripped text, or "-" for a missing cell and for the
      placeholders "", "-", "nan" and "None". */
  function RankFromCell(cell: Cell): (rank: string)
    ensures rank != [] && rank != "nan" && rank != "None"
    ensures rank != "-" ==> cell.Present? && rank == Strip(cell.text)
    ensures cell.Present? && Strip(cell.text) !in {"", "-", "nan", "None"} ==> rank == Strip(cell.text)
  {
    if cell.Present? && Strip(cell.text) !in {"", "-", "nan", "None"} then Strip(cell.text) else "-"
  }

  /** Cleaning an already cleaned rank changes nothing. */
  lemma RankIdempotent(cell: Cell)
    ensures RankFromCell(Present(RankFromCell(cell))) == RankFromCell(cell)
  {
    var r := RankFromCell(cell);
    if r == "-" {
      assert Strip(r) == r by { StripUnchanged(r); }
    } else {
      StripSpec(cell.text);
      StripUnchanged(r);
    }
  }

  // ---- Choosing between the two tables ----

  /** One match tuple: kind, matched title, rank, score, method. */
  datatype Match = Match(kind: string, title: Option<string>, rank: string, score: real, source: string)

  const NoMatch: Match := Match("Unranked", None, "-", 0.0, "Failed")

  /** `match_c[3] if match_c else 0`. */
  function Score(m: Option<Match>): real
  {
    if m.Some? then m.value.score else 0.0
  }

  /** The end of `match_quality`: with a hint only that table's result is used; without
      one the higher-scoring table wins, the conference table on a tie, and nothing when
      both score 0. No result at all gives the "Unranked"/"Failed" tuple. */
  function PickBest(hint: VenueKind, conference: Option<Match>, journal: Option<Match>): (m: Match)
  {
    var best :=
      if hint == Conference then conference
      else if hint == Journal then journal
      else if Score(conference) == 0.0 && Score(journal) == 0.0 then None
      else if Score(conference) >= Score(journal) then conference
      else journal;
    if best.Some? then best.value else NoMatch
  }

  /** Without a hint, both scores 0 give no match. Otherwise, with the table searches'
      scores (never negative: 100 for exact and acronym hits, 95 for a substring hit, at
      least 85 for a fuzzy one), the result is one of the two matches and carries the
      larger score. The conference result is kept on ties. */
  lemma PickBestIsMax(conference: Option<Match>, journal: Option<Match>)
    ensures var m := PickBest(UnknownKind, conference, journal);
      && (Score(conference) == 0.0 && Score(journal) == 0.0 ==> m == NoMatch)
      && (Score(conference) >= 0.0 && Score(journal) >= 0.0 && !(Score(conference) == 0.0 && Score(journal) == 0.0) ==>
            && (Some(m) == conference || Some(m) == journal)
            && m.score == (if Score(conference) >= Score(journal) then Score(conference) else Score(journal)))
      && (m != NoMatch ==>
            && (Some(m) == conference || Some(m) == journal)
            && m.score == (if Score(conference) >= Score(journal) then Score(conference) else Score(journal)))
      && (Score(conference) == Score(journal) != 0.0 && conference.Some? ==> m == conference.value)
  {
  }
}

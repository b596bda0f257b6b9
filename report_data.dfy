/**
  The records the front end receives from the analysis service and keeps in the
  browser: a report (profile, metrics, papers) and a saved history entry.
 */
module ReportData {
  import opened Wrappers

  datatype Profile = Profile(id: string, name: string, affiliations: Option<string>, academicAge: int)

  /** Metric values as the service sends them; the client only displays and copies them. */
  datatype Metrics = Metrics(
    totalC: int, totalP: int, recentC: int, recentP: int,
    hIndex: int, i10Index: int, gIndex: int,
    cpp: real, networkSize: int, leadershipScore: real, oneHit: real)

  datatype Paper = Paper(
    title: string, year: Option<int>, venue: Option<string>,
    rank: Option<string>, authorPos: Option<string>, citations: int)

  datatype Report = Report(profile: Profile, metrics: Metrics, papers: seq<Paper>)

  /** One saved line of the "compare_history" list; `id` is the profile id. */
  datatype HistoryEntry = HistoryEntry(
    id: string, name: string, totalC: int, hIndex: int, affiliations: Option<string>,
    userRating: int, userComment: string, date: string)

  const UnknownVenue: string := "Unknown"

  /** `p.venue || "Unknown"`: a missing or empty venue counts as "Unknown". */
  function NormVenue(p: Paper): (v: string)
    ensures v != []
    ensures p.venue.Some? && p.venue.value != [] ==> v == p.venue.value
    ensures p.venue.None? || p.venue.value == [] ==> v == UnknownVenue
  {
    match p.venue
    case Some(s) => if s != [] then s else UnknownVenue
    case None => UnknownVenue
  }
}

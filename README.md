# Scholar report: a Dafny model of its core logic

The system rates a researcher from their Google Scholar profile. A Python back end
reads the profile's publications and derives a set of numbers:

- the h-, i10- and g-index;
- the academic age;
- the co-author network size;
- the researcher's role on each paper;
- a guess of each venue's kind, with its cleaned rank.

It also searches for the researcher under several spellings of their name. A React
front end sends a profile URL and animates a progress bar while the request runs. It
shows the report with a venue-filtered, paginated publications table, and keeps a
"compare_history" list of saved reports in the browser's durable store. A History
page deletes single entries or clears the whole list.

This project models that logic in Dafny and proves what it promises.

| file | module | what it models |
|---|---|---|
| `wrappers.dfy` | `Wrappers` | `Option`, for JavaScript's `null`/absent key and Python's `None` |
| `text.dfy` | `Text` | ASCII white space and case, `in`/`includes`, `strip`/`trim`, `split()`, `split(sep)`, `join` |
| `report_data.dfy` | `ReportData` | the report, paper and history-entry records; the `venue \|\| "Unknown"` rule |
| `history.dfy` | `HistoryStore` | the durable store slot, the filter by id and the save step ("upsert") |
| `history_page.dfy` | `HistoryPage` | the History page: loading, `deleteItem`, `clearAll` |
| `report_page.dfy` | `ReportLifecycle` | the report page's state: submit guard, progress tick, success/error/commit, save dialog |
| `publications.dfy` | `Publications` | venue counts and the top six, the venue filter, pages of ten, Previous/Next |
| `bibliometrics.dfy` | `Bibliometrics` | h-index, i10-index, g-index, academic age |
| `authors.dfy` | `Authors` | target surname, co-author network size, `get_role` |
| `venues.dfy` | `Venues` | `extract_author_id`, `guesser`, `get_rank_from_row`, the table choice in `match_quality` |
| `name_variations.dfy` | `NameVariations` | `name_variations` with `split_camel` and `initials` |

The model takes the source's own form:

- Stateful code is a class whose methods change its fields: the two pages, the
  publications table and the two browser stores. Each method states its whole new
  state in terms of the old one.
- Loops are methods with loop invariants, each proved against a specification
  function: venue counting, the top-six selection, the g-index loop, the network-size
  loop, and the two loops of `name_variations` (capitalising the tokens and expanding
  the given names). Its final list comprehension is the lower-cased set.
- Expression-only code is functions, with lemmas about them.

Modelling conventions:

- **Progress.** The progress bar is kept in half-points, twice the percentage, so the
  0.5 step stays an integer: 200 is 100 %, 180 is the 90 % ceiling and 120 is the
  60 % knee.
- **Timers.** The 100 ms interval and the 500 ms commit timer are events (methods)
  that the environment calls. A success queues its commit, because the code never
  cancels that timer.
- **Clock.** The current year and the save date are parameters.
- **Name variants.** `name_variations` returns a list whose order comes from iterating
  a set, so its result is modelled as a set.

## Model

| member | source | states |
|---|---|---|
| ReportData.NormVenue | frontend/src/pages/GenerateReport.jsx:246 | the venue name is never empty: the paper's venue when present and non-empty, "Unknown" otherwise |
| HistoryStore.LocalStorage.Read | frontend/src/pages/History.jsx:9 | reading an absent "compare_history" key gives the empty list, otherwise the stored list |
| HistoryStore.RemoveId | frontend/src/pages/History.jsx:15 | filtering out an id shortens the list by exactly the number of entries carrying that id |
| HistoryStore.RemoveMembers | frontend/src/pages/History.jsx:15 | the entries kept are exactly the old entries whose id differs |
| HistoryStore.RemoveAbsent | frontend/src/pages/History.jsx:15 | removing an id that no entry carries leaves the list unchanged |
| HistoryStore.RemoveAppend | frontend/src/pages/History.jsx:15 | the filter distributes over concatenation, so kept entries stay in their original order |
| HistoryStore.RemoveKeepsOthers | frontend/src/pages/History.jsx:15 | after the filter no entry has the id, and filtering again changes nothing |
| HistoryStore.RemoveKeepsUnique | frontend/src/pages/History.jsx:15 | a list with distinct ids still has distinct ids after the filter |
| HistoryStore.UpsertSpec | frontend/src/pages/GenerateReport.jsx:78 | after a save the new entry is first, no later entry has its id, the rest is the old list without that id in its old order, the length is old length minus the old entries with that id plus one, and distinct ids stay distinct |
| HistoryStore.UpsertThenRemove | frontend/src/pages/GenerateReport.jsx:78 | saving an entry and then deleting its id gives the same list as deleting alone |
| HistoryStore.UpsertTwice | frontend/src/pages/GenerateReport.jsx:78 | saving two entries with the same id keeps only the second, at the front |
| HistoryPage.HistoryPage.constructor | frontend/src/pages/History.jsx:8-11 | the page loads the stored list, and the empty list when the key is absent |
| HistoryPage.HistoryPage.DeleteItem | frontend/src/pages/History.jsx:14-18 | the shown list becomes the old list without the id, the store holds the same list, no entry with the id remains, and an absent id changes nothing |
| HistoryPage.HistoryPage.ClearAll | frontend/src/pages/History.jsx:21-26 | when confirmed, the list is empty and the key is removed; when declined, nothing changes |
| ReportLifecycle.Tick | frontend/src/pages/GenerateReport.jsx:53-56 | a tick adds 2 % below 60 % and 0.5 % from 60 % on, never goes down, never passes 90 %, strictly grows below 90 %, and 90 % is a fixed point |
| ReportLifecycle.TicksBounded | frontend/src/pages/GenerateReport.jsx:52-57 | from any start at or below 90 %, any number of ticks stays between the start and 90 % |
| ReportLifecycle.TicksMonotone | frontend/src/pages/GenerateReport.jsx:52-57 | more ticks never give less progress |
| ReportLifecycle.TicksSplit | frontend/src/pages/GenerateReport.jsx:52-57 | a + b ticks are a ticks followed by b ticks |
| ReportLifecycle.TicksFast | frontend/src/pages/GenerateReport.jsx:54 | below the knee each tick adds exactly 2 % |
| ReportLifecycle.TicksSlow | frontend/src/pages/GenerateReport.jsx:54-55 | from the knee each tick adds exactly 0.5 % until the 90 % ceiling |
| ReportLifecycle.TicksFromZero | frontend/src/pages/GenerateReport.jsx:52-57 | from 0 the bar reaches 60 % after 30 ticks and 90 % after 90 ticks, then stays there |
| ReportLifecycle.CanSubmit | frontend/src/pages/GenerateReport.jsx:107 | submitting is enabled exactly when no request is pending and the URL has a non-white-space character |
| ReportLifecycle.GenerateReportPage.constructor | frontend/src/pages/GenerateReport.jsx:13-25 | the page restores the report cached for the tab session; everything else starts empty, at 0 or closed |
| ReportLifecycle.GenerateReportPage.EditUrl | frontend/src/pages/GenerateReport.jsx:98 | typing changes the URL only when no request is pending; nothing else changes |
| ReportLifecycle.GenerateReportPage.Submit | frontend/src/pages/GenerateReport.jsx:28-33 | when the guard allows it, the untrimmed URL is sent, the request is pending, progress is 0 and the report cleared; otherwise nothing changes |
| ReportLifecycle.GenerateReportPage.TickProgress | frontend/src/pages/GenerateReport.jsx:49-62 | while pending, one interval step applies `Tick`, and progress stays at or below 90 %; nothing else changes |
| ReportLifecycle.GenerateReportPage.Succeed | frontend/src/pages/GenerateReport.jsx:34-36 | success ends the request, sets progress to 100 % and queues the commit of the data |
| ReportLifecycle.GenerateReportPage.Fail | frontend/src/pages/GenerateReport.jsx:45 | an error ends the request and resets progress to 0; nothing else changes |
| ReportLifecycle.GenerateReportPage.Settle | frontend/src/pages/GenerateReport.jsx:36-43 | the oldest queued commit shows its report and caches it for the tab, marks it unsaved, clears rating and comment, and resets progress to 0 |
| ReportLifecycle.GenerateReportPage.OpenSaveDialog | frontend/src/pages/GenerateReport.jsx:148 | the dialog opens only with a report shown, no request pending and the report not yet saved |
| ReportLifecycle.GenerateReportPage.CloseSaveDialog | frontend/src/pages/GenerateReport.jsx:224 | closing or cancelling closes the dialog and changes nothing else |
| ReportLifecycle.GenerateReportPage.SetRating | frontend/src/pages/GenerateReport.jsx:219 | clicking star 1..5 sets the rating to that star |
| ReportLifecycle.GenerateReportPage.SetComment | frontend/src/pages/GenerateReport.jsx:222 | typing sets the comment |
| ReportLifecycle.GenerateReportPage.ConfirmSave | frontend/src/pages/GenerateReport.jsx:65-82 | with a report, the entry built from profile id, name, affiliations, total citations, h-index, rating and comment goes to the front of the stored list, with the properties of `UpsertSpec`, and the page shows "Saved"; without a report the store and the page are untouched |
| Publications.ByVenue | frontend/src/pages/GenerateReport.jsx:254 | the filter keeps exactly the papers whose normalised venue is the chosen one |
| Publications.ByVenueAppend | frontend/src/pages/GenerateReport.jsx:254 | the filter distributes over concatenation, so it keeps the papers' order |
| Publications.FilteredRows | frontend/src/pages/GenerateReport.jsx:252-255 | with no filter the list is returned unchanged; with a venue, exactly that venue's papers, as many as its count |
| Publications.CountIsFilteredLength | frontend/src/pages/GenerateReport.jsx:243-255 | a venue's count is the number of rows its filter shows |
| Publications.CountPositive | frontend/src/pages/GenerateReport.jsx:245-247 | a venue has a positive count exactly when some paper has it |
| Publications.CountVenues | frontend/src/pages/GenerateReport.jsx:244-248 | the dictionary's keys are the occurring normalised venues, and each value is that venue's exact, positive paper count |
| Publications.MostFrequent | frontend/src/pages/GenerateReport.jsx:249 | picks a remaining venue whose count is at least that of every other remaining venue |
| Publications.TopVenues | frontend/src/pages/GenerateReport.jsx:249 | the first min(6, venues) entries, with their exact counts, distinct names, in non-increasing count order; no venue left out has a larger count than a listed one |
| Publications.VenueStats | frontend/src/pages/GenerateReport.jsx:243-250 | the venue buttons: at most 6 distinct venues with their exact positive counts, most frequent first, none left out more frequent, counts summing to at most the number of papers |
| Publications.SumCountsBound | frontend/src/pages/GenerateReport.jsx:243-250 | counts of distinct venues never add up to more than the number of papers |
| Publications.TotalPages | frontend/src/pages/GenerateReport.jsx:262 | the page count is the ceiling of rows / 10: enough pages for every row and no empty last page |
| Publications.Displayed | frontend/src/pages/GenerateReport.jsx:257-260 | the shown rows are the filtered rows from (page − 1)·10 on, in order: ten of them while ten remain, the remainder on the last page, none past the end |
| Publications.AllPagesCoverRows | frontend/src/pages/GenerateReport.jsx:257-262 | reading pages 1 to the last in turn gives every filtered row once, in order |
| Publications.PageSizes | frontend/src/pages/GenerateReport.jsx:257-262 | every page before the last holds 10 rows; the last holds the remainder, or 10 when it divides |
| Publications.ShowingMatchesRows | frontend/src/pages/GenerateReport.jsx:311 | "Showing (p − 1)·10 + 1 to min(p·10, n)" names exactly the displayed rows |
| Publications.TwentyThreeRows | frontend/src/pages/GenerateReport.jsx:257-262 | 23 rows give 3 pages of 10, 10 and 3 rows |
| Publications.PreviousPage | frontend/src/pages/GenerateReport.jsx:314 | Previous gives max(1, p − 1) |
| Publications.NextPage | frontend/src/pages/GenerateReport.jsx:315 | Next gives min(totalPages, p + 1) for any page: at most both, equal to one of them, and exactly p + 1 before the last page |
| Publications.PublicationsTable.constructor | frontend/src/pages/GenerateReport.jsx:237-238 | a new table has no filter and is on page 1 |
| Publications.PublicationsTable.Rows | frontend/src/pages/GenerateReport.jsx:257-260 | the table never shows more than 10 rows |
| Publications.PublicationsTable.SelectVenue | frontend/src/pages/GenerateReport.jsx:241 | choosing a different filter resets the page to 1; choosing the current filter again changes nothing; the page stays within range |
| Publications.PublicationsTable.Previous | frontend/src/pages/GenerateReport.jsx:314 | with more than 10 rows and not on page 1, moves to the previous page; otherwise nothing changes |
| Publications.PublicationsTable.Next | frontend/src/pages/GenerateReport.jsx:315 | with more than 10 rows and not on the last page, moves to the next page; otherwise nothing changes |
| Bibliometrics.SortDesc | logic.py:187 | the citations sorted in descending order: sorted, and a permutation of the input |
| Bibliometrics.HIndex | logic.py:188 | the h-index is between 0 and the number of papers |
| Bibliometrics.HIndexIsHirsch | logic.py:188 | on a descending list the counted h is Hirsch's: the first h papers have at least h citations and every other paper at most h |
| Bibliometrics.I10Index | logic.py:189 | the i10-index is between 0 and the number of papers |
| Bibliometrics.I10IsPrefix | logic.py:189 | on a descending list the papers with at least 10 citations are exactly the first i10 |
| Bibliometrics.I10AtLeastH | logic.py:188-189 | once the h-index reaches 10, the i10-index is at least the h-index |
| Bibliometrics.GIndex | logic.py:191-194 | the loop returns the largest g ≤ n whose top-g citations sum to at least g², or 0 if there is none |
| Bibliometrics.GAtLeastH | logic.py:188-194 | on a descending list the g-index is at least the h-index |
| Bibliometrics.CitationIndices | logic.py:187-194 | the index block sorts and returns h, i10 and g as defined, with h ≤ g ≤ n and i10 ≤ n |
| Bibliometrics.MinYear | logic.py:196 | the smallest known year, and none exactly when no year is known |
| Bibliometrics.AcademicAge | logic.py:196-199 | the age is at least 1, is 1 with no known year, is at least current year − any known year, and above 1 it equals current year − some known year |
| Authors.TargetLast | logic.py:202-203 | none exactly when the name is blank; otherwise a word of the lower-cased name that starts it or follows white space, with only white space after it: its last word |
| Authors.KeepNames | logic.py:208 | the names kept are exactly those without "..." and longer than one character |
| Authors.CoAuthorsMembers | logic.py:205-212 | a name is in the network exactly when it is a stripped comma-separated part of some present cell, is kept by the cleaning rule, and does not contain the target surname ignoring case |
| Authors.NetworkSize | logic.py:205-213 | the loop returns the number of distinct such names |
| Authors.WithoutEllipsis | logic.py:220 | the parts kept are exactly those without "...", so none has one |
| Authors.WithoutEllipsisAppend | logic.py:220 | the filter works part by part, so the named authors keep their order (first and last are the first and last kept parts) |
| Authors.GetRole | logic.py:216-217 | an absent or empty author cell gives "Unknown" |
| Authors.RoleLead | logic.py:222-225 | "Solo Author" or "First Author" exactly when the first named author contains the surname |
| Authors.RoleNamed | logic.py:216-230 | one of the four named roles exactly when some named author contains the surname |
| Authors.RoleAmbiguous | logic.py:229 | "Ambiguous" exactly for a truncated list of at least two named authors, none of them the target |
| Authors.RoleSolo | logic.py:223-224 | "Solo Author" exactly when one author is named and that author contains the surname |
| Authors.RoleLast | logic.py:225-226 | "Last Author" exactly for an untruncated list of at least two named authors whose first does not contain the surname and whose last does |
| Venues.FirstMatch | logic.py:72 | the leftmost position from `i` where `user=` is followed by an id character, or none if there is none |
| Venues.IdEnd | logic.py:72 | the greedy end of the run of id characters |
| Venues.ExtractAuthorId | logic.py:70-73 | no id without "scholar.google"; none when no `user=` is followed by an id character; otherwise the whole non-empty run of id characters after the leftmost such `user=` |
| Venues.AnyKeyword | logic.py:88-89 | true exactly when some keyword occurs in the text |
| Venues.Guesser | logic.py:86-90 | "conference" exactly when a conference keyword occurs in the lower-cased venue; "journal" exactly when no conference keyword but a journal keyword does; "unknown" otherwise |
| Venues.GuesserIgnoresCase | logic.py:87 | upper- or lower-casing the venue does not change the guess |
| Venues.RankFromCell | logic.py:25-29 | the stripped rank text, or "-" for a missing cell and for "", "-", "nan" and "None"; never empty, "nan" or "None" |
| Venues.RankIdempotent | logic.py:25-29 | cleaning an already cleaned rank changes nothing |
| Venues.PickBestIsMax | logic.py:137-148 | without a hint, both scores 0 give the "Unranked" tuple; otherwise, for the searches' non-negative scores, the result is one of the two matches and carries the larger score, and the conference match wins a tie |
| Text.Contains | logic.py:71 | `pat in s`: true exactly when `pat` occurs at some position |
| Text.StripSpec | frontend/src/pages/GenerateReport.jsx:107 | `trim()` drops only leading and trailing white space, and is empty exactly when the text is all white space |
| Text.Words | name_variations.py:6 | `split()` gives non-empty words without white space, and none exactly when the text is all white space |
| Text.WordsJoin | name_variations.py:6 | `split()` gives back exactly the words that were joined with single spaces, in order |
| Text.WordsLast | logic.py:202-203 | the last element of `split()` is the text's last run of non-white-space: after white space or at the start, followed only by white space |
| Text.SplitJoin | logic.py:207 | joining the parts of `split(",")` with "," gives back the text |
| Text.SplitCount | logic.py:207 | `split(",")` gives one part more than there are commas |
| NameVariations.Capitalize | name_variations.py:21-24 | the first character is upper-cased and the rest is unchanged: same length, same lower-case form, still a word |
| NameVariations.CapitalizeAll | name_variations.py:19-24 | each token capitalised, in order |
| NameVariations.CapitalizeParts | name_variations.py:19-24 | the loop builds the capitalised tokens |
| NameVariations.NextUpper | name_variations.py:14 | the first capital from `i`, with no capital before it |
| NameVariations.CamelPieces | name_variations.py:14 | every piece is a full `[A-Z][^A-Z]*` match: one capital followed by no other capital |
| NameVariations.CamelPiecesConcat | name_variations.py:14 | the pieces put back together are the text from its first capital on |
| NameVariations.SplitCamel | name_variations.py:11-16 | a token with no capital after its first character is not split; the result is never empty |
| NameVariations.SplitCamelSpells | name_variations.py:11-16 | a capitalised token's pieces spell it out exactly |
| NameVariations.SplitCamelTwo | name_variations.py:13-16 | two capitalised words run together split into exactly those two words |
| NameVariations.SplitCamelExample | name_variations.py:10 | "KokShiek" splits into "Kok" and "Shiek" |
| NameVariations.Initials | name_variations.py:36-37 | at most one initial per name; with no empty name, exactly the upper-cased first character of each name, in order |
| NameVariations.InitialsAppend | name_variations.py:36-37 | initials are taken name by name and in order, so an empty name adds none |
| NameVariations.ExpandBlock | name_variations.py:48-50 | the loop builds the CamelCase pieces of the given names in order |
| NameVariations.GivenInitialsCamel | name_variations.py:52 | a CamelCase first name of two words gives two given initials |
| NameVariations.CapitalisedJoin | name_variations.py:40 | the full name joined from capitalised tokens lower-cases to the raw tokens joined |
| NameVariations.LastFirstForm | name_variations.py:43 | "last first middles" needs no stripping and lower-cases to the same form on the raw tokens |
| NameVariations.InitialsMiddlesForm | name_variations.py:66-68 | "LF middles" lower-cases to the same form on the raw tokens |
| NameVariations.VariantsOfTwo | name_variations.py:39-63 | for two tokens the variants are exactly: the full name, "last first", "F last", "GI last", "last GI", all lower-cased |
| NameVariations.VariantsOfMore | name_variations.py:39-68 | with middle names the variants are exactly those five plus "LF middles", all lower-cased |
| NameVariations.VariantsBound | name_variations.py:6-68 | no variant for a blank name; exactly the lower-cased token for one token; at most 5 for two tokens; at most 6 with middle names |
| NameVariations.VariantsAreLower | name_variations.py:71 | every variant is lower-case |
| NameVariations.CamelNameVariant | name_variations.py:52-60 | a CamelCase first name is also searched as its two initials followed by the last name |
| NameVariations.KokShiekWong | name_variations.py:59-60 | "KokShiek Wong" is also searched as "ks wong" |
| NameVariations.NameVariations | name_variations.py:4-71 | the returned set is exactly the lower-cased variants of the name's white-space separated tokens |
| NameVariations.SpellingsOf | name_variations.py:30-71 | for two or more tokens, the lower-cased spellings are exactly the variants |
| NameVariations.RawSpellings | name_variations.py:34-68 | the spellings added in turn are the five forms, plus "LF middles" only when there are middle names |
| NameVariations.CaseTwins | name_variations.py:40-43 | for "ab aB" the full name "Ab AB" and the last-first form "AB Ab" are two distinct members of the set that lower-case to the same "ab ab" |
| NameVariations.ReturnedListRepeats | name_variations.py:71 | whatever order the set is iterated in, the returned list for "ab aB" holds "ab ab" at two positions |
| NameVariations.CaseTwinsOnce | name_variations.py:34-71 | the set of lower-cased variants of "ab aB" is exactly {"ab ab", "a ab", "ab a"}: three spellings, each once |

## Left out

- JSON serialisation of the two browser stores. Each store is one in-memory slot.
  `JSON.parse` of a corrupt value is not modelled.
- Real time. The interval and the commit timer are events the environment calls.
  `Date().toISOString()` is an opaque `date` parameter, and `datetime.now().year`
  is the `currentYear` parameter.
- The race between overlapping requests, and react-query's own concurrency. Commits
  are queued in arrival order.
- The HTTP call itself (`api.js`), the React root, and all presentation: layout,
  cards, the hover preview of the stars, and badge colours.
- Text handling is ASCII only. This covers case mapping and the `\w` class in the
  author-id pattern; Unicode `isupper`/`lower` are not modelled.
- Text.Words: treats only space and tab through carriage return as white space.
  Python's `split()` also splits at the separators `\x1c`–`\x1f`, and at non-ASCII
  white space. So for text holding those characters the model's words differ from
  Python's.
- Text.StripSpec: uses the same white space, whereas Python's `strip()` and
  JavaScript's `trim()` also remove non-ASCII white space, and `strip()` removes
  `\x1c`–`\x1f` as well.
- Publications.TopVenues: does not fix the order among venues with equal counts,
  because the code's order there depends on the key order of `Object.entries` and on
  sort stability.
- Publications.CountVenues: the counts are exact only for venue names that are not
  properties of `Object.prototype`. The code counts in a plain `{}` object, so a
  venue named "constructor", "toString", "valueOf" or similar first reads the
  inherited function. Its count then becomes a string, and the sort comparator gets
  NaN. A venue named "__proto__" is never counted. The model counts every name in a
  map.
- Publications.MostFrequent: picks any of several equally frequent venues, for the
  same reason.
- Bibliometrics.CitationIndices: takes the citation counts as integers. pandas'
  `to_numeric(..., errors="coerce").fillna(0)` is not modelled.
- Bibliometrics.AcademicAge: takes the years as optional integers. pandas' coercion
  of non-numeric years to NaN is a missing year here.
- Authors.GetRole: the function's own contract states only the empty-cell rule. Every
  role is characterised in both directions by a lemma: `RoleSolo`, `RoleLead`,
  `RoleLast`, `RoleNamed` and `RoleAmbiguous`. A NaN cell is not modelled: it is
  truthy in Python and would read as the text "nan".
- Authors.TargetLast: returns none where Python raises `IndexError` on a blank name.
- Venues.PickBestIsMax: only the choice between the conference and journal results
  is modelled. The rest of `match_quality` is not part of this model:
  - `normalize_text`;
  - the exact and acronym lookups;
  - the substring and RapidFuzz searches;
  - the database load.

  The two matches are inputs. Those searches only ever score 100, 95 or at least 85,
  so the lemma's promise that a nonzero score yields a match assumes scores that are
  not negative, rather than deriving it.
- The float metrics (`cpp`, `leadership_score`, `one_hit`) and the recent-year
  metrics are not modelled. `load_or_fetch_author` (database, clock and scraping) is
  not part of this model.
- NameVariations.NameVariations: returns a set, because the code's list comes from
  iterating a set. The list's order is not modelled, and neither is its multiplicity.
  The code lower-cases after building the set, so two spellings that differ only in
  case give the same variant twice in the list (see Findings). The set holds it once.

## Findings

| source | as written | input that shows it | evidently intended | confidence | as-written member | corrected member |
|---|---|---|---|---|---|---|
| name_variations.py:34-71 | the spellings are collected in a set of capitalised strings and lower-cased only when the list is returned, so spellings that differ only in case become equal list entries | "ab aB": the set holds "Ab AB" and "AB Ab", and the list holds "ab ab" twice | each search spelling once, which is what collecting into a set is for | not executed; high that the list repeats, medium that this was unintended | NameVariations.ReturnedListRepeats | NameVariations.CaseTwinsOnce, NameVariations.NameVariations |

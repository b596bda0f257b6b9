/**
  The report page's request lifecycle: the submit guard, the simulated progress bar,
  the success / error callbacks and the delayed commit of the fetched report, and the
  save dialog that copies the current report into the history list.

  Progress is kept in half-points (twice the percentage) so that the 0.5 step is an
  integer: 200 is 100%, 180 is the 90% ceiling, 120 is the 60% knee.
 */
module ReportLifecycle {
  import opened Wrappers
  import opened Text
  import opened ReportData
  import opened HistoryStore

  const Full: nat := 200
  const Cap: nat := 180
  const Knee: nat := 120

  /** One interval tick: +2% below 60%, +0.5% from there on, never above 90%. */
  function Tick(prev: nat): (next: nat)
    ensures prev <= Cap ==> prev <= next <= Cap
    ensures prev < Cap ==> prev < next
    ensures prev < Knee ==> next == prev + 4
    ensures Knee <= prev < Cap ==> next == prev + 1
    ensures prev >= Cap ==> next == Cap
  {
    var increment := if prev < Knee then 4 else 1;
    if prev + increment < Cap then prev + increment else Cap
  }

  /** `k` ticks in a row. */
  function Ticks(p: nat, k: nat): nat
    decreases k
  {
    if k == 0 then p else Ticks(Tick(p), k - 1)
  }

  /** However many ticks pass, progress never goes down and never passes 90%. */
  lemma {:induction false} TicksBounded(p: nat, k: nat)
    requires p <= Cap
    ensures p <= Ticks(p, k) <= Cap
    decreases k
  {
    if k > 0 {
      TicksBounded(Tick(p), k - 1);
    }
  }

  /** More ticks never mean less progress. */
  lemma {:induction false} TicksMonotone(p: nat, k: nat, m: nat)
    requires p <= Cap && k <= m
    ensures Ticks(p, k) <= Ticks(p, m)
    decreases k
  {
    if k > 0 {
      TicksMonotone(Tick(p), k - 1, m - 1);
    } else {
      TicksBounded(p, m);
    }
  }

  lemma {:induction false} TicksSplit(p: nat, a: nat, b: nat)
    ensures Ticks(p, a + b) == Ticks(Ticks(p, a), b)
    decreases a
  {
    if a > 0 {
      TicksSplit(Tick(p), a - 1, b);
    }
  }

  /** Below the knee, in steps of 2%. */
  lemma {:induction false} TicksFast(p: nat, k: nat)
    requires p + 4 * k <= Knee
    ensures Ticks(p, k) == p + 4 * k
    decreases k
  {
    if k > 0 {
      TicksFast(p + 4, k - 1);
    }
  }

  /** From the knee on, in steps of 0.5% up to the ceiling. */
  lemma {:induction false} TicksSlow(p: nat, k: nat)
    requires Knee <= p <= Cap
    ensures Ticks(p, k) == if p + k < Cap then p + k else Cap
    decreases k
  {
    if k > 0 {
      TicksSlow(Tick(p), k - 1);
    }
  }

  /** From 0 the bar takes 30 ticks to reach 60%, 90 ticks to reach 90%, and then stays. */
  lemma TicksFromZero(k: nat)
    ensures k <= 30 ==> Ticks(0, k) == 4 * k
    ensures 30 <= k <= 90 ==> Ticks(0, k) == Knee + (k - 30)
    ensures k >= 90 ==> Ticks(0, k) == Cap
  {
    if k <= 30 {
      TicksFast(0, k);
    } else {
      TicksFast(0, 30);
      TicksSplit(0, 30, k - 30);
      TicksSlow(Knee, k - 30);
    }
  }

  /** The submit button is enabled only when idle and the URL has a non-blank character. */
  function CanSubmit(pending: bool, url: string): (b: bool)
    ensures b <==> !pending && exists k :: 0 <= k < |url| && !IsSpace(url[k])
  {
    StripSpec(url);
    !pending && Strip(url) != []
  }

  /** The history line built from the current report and the dialog's rating and comment. */
  function EntryOf(r: Report, rating: int, comment: string, date: string): HistoryEntry
  {
    HistoryEntry(r.profile.id, r.profile.name, r.metrics.totalC, r.metrics.hIndex,
                 r.profile.affiliations, rating, comment, date)
  }

  /** The tab-scoped browser store, reduced to the "current_report" key. */
  class SessionStorage {
    var currentReport: Option<Report>

    constructor (stored: Option<Report>)
      ensures currentReport == stored
    {
      currentReport := stored;
    }
  }

  class GenerateReportPage {
    var url: string
    var pending: bool
    var progress: nat
    var report: Option<Report>
    /** Success callbacks whose 500 ms commit timer has not fired yet, oldest first. */
    var settling: seq<Report>
    var modalOpen: bool
    var rating: nat
    var comment: string
    var saved: bool
    const session: SessionStorage
    const local: LocalStorage

    /** Progress stays at or below 90% while a request is pending; 100% only appears
        between success and commit. */
    ghost predicate Valid()
      reads this
    {
      && (pending ==> progress <= Cap)
      && (progress <= Cap || progress == Full)
      && rating <= 5
    }

    /** Mounting restores the report cached for this tab session, if any. */
    constructor (session: SessionStorage, local: LocalStorage)
      ensures Valid()
      ensures this.session == session && this.local == local
      ensures report == session.currentReport
      ensures url == [] && !pending && progress == 0 && settling == []
      ensures !modalOpen && rating == 0 && comment == [] && !saved
    {
      this.session := session;
      this.local := local;
      report := session.currentReport;
      url := [];
      pending := false;
      progress := 0;
      settling := [];
      modalOpen := false;
      rating := 0;
      comment := [];
      saved := false;
    }

    /** Typing in the URL field; the field is disabled while a request is pending. */
    method EditUrl(s: string)
      requires Valid()
      modifies this
      ensures Valid()
      ensures url == (if old(pending) then old(url) else s)
      ensures pending == old(pending) && progress == old(progress) && report == old(report)
      ensures settling == old(settling) && modalOpen == old(modalOpen) && rating == old(rating)
      ensures comment == old(comment) && saved == old(saved)
    {
      if !pending {
        url := s;
      }
    }

    /** Clicking "Generate Report": when enabled, the report is cleared, progress restarts
        at 0 and the URL (untrimmed) is sent; otherwise nothing happens. */
    method Submit() returns (request: Option<string>)
      requires Valid()
      modifies this
      ensures Valid()
      ensures old(CanSubmit(pending, url)) ==>
        request == Some(url) && pending && progress == 0 && report.None?
      ensures !old(CanSubmit(pending, url)) ==>
        request.None? && pending == old(pending) && progress == old(progress) && report == old(report)
      ensures url == old(url) && settling == old(settling) && modalOpen == old(modalOpen)
      ensures rating == old(rating) && comment == old(comment) && saved == old(saved)
    {
      if CanSubmit(pending, url) {
        pending := true;
        progress := 0;
        report := None;
        request := Some(url);
      } else {
        request := None;
      }
    }

    /** One 100 ms interval tick; the interval only runs while a request is pending. */
    method TickProgress()
      requires Valid() && pending
      modifies this
      ensures Valid()
      ensures progress == Tick(old(progress))
      ensures old(progress) <= progress <= Cap
      ensures pending && url == old(url) && report == old(report) && settling == old(settling)
      ensures modalOpen == old(modalOpen) && rating == old(rating)
      ensures comment == old(comment) && saved == old(saved)
    {
      progress := Tick(progress);
    }

    /** The request resolved: progress jumps to 100% and the commit is scheduled. */
    method Succeed(data: Report)
      requires Valid() && pending
      modifies this
      ensures Valid()
      ensures !pending && progress == Full && settling == old(settling) + [data]
      ensures url == old(url) && report == old(report) && modalOpen == old(modalOpen)
      ensures rating == old(rating) && comment == old(comment) && saved == old(saved)
    {
      pending := false;
      progress := Full;
      settling := settling + [data];
    }

    /** The request failed: progress resets and no report is shown. */
    method Fail()
      requires Valid() && pending
      modifies this
      ensures Valid()
      ensures !pending && progress == 0
      ensures url == old(url) && report == old(report) && settling == old(settling)
      ensures modalOpen == old(modalOpen) && rating == old(rating)
      ensures comment == old(comment) && saved == old(saved)
    {
      pending := false;
      progress := 0;
    }

    /** The 500 ms commit timer fires: the report is shown and cached for the tab,
        the save dialog's fields are reset and progress returns to 0. */
    method Settle()
      requires Valid() && settling != []
      modifies this, session
      ensures Valid()
      ensures report == Some(old(settling)[0]) && session.currentReport == report
      ensures settling == old(settling)[1..]
      ensures !saved && rating == 0 && comment == [] && progress == 0
      ensures url == old(url) && pending == old(pending) && modalOpen == old(modalOpen)
    {
      var data := settling[0];
      settling := settling[1..];
      report := Some(data);
      session.currentReport := Some(data);
      saved := false;
      rating := 0;
      comment := [];
      progress := 0;
    }

    /** The "Save" button: shown with a report when idle, disabled once saved. */
    method OpenSaveDialog()
      requires Valid()
      modifies this
      ensures Valid()
      ensures modalOpen == (old(modalOpen) || (old(report).Some? && !old(pending) && !old(saved)))
      ensures url == old(url) && pending == old(pending) && progress == old(progress)
      ensures report == old(report) && settling == old(settling) && rating == old(rating)
      ensures comment == old(comment) && saved == old(saved)
    {
      if report.Some? && !pending && !saved {
        modalOpen := true;
      }
    }

    /** The dialog's close and "Cancel" buttons. */
    method CloseSaveDialog()
      requires Valid()
      modifies this
      ensures Valid() && !modalOpen
      ensures url == old(url) && pending == old(pending) && progress == old(progress)
      ensures report == old(report) && settling == old(settling) && rating == old(rating)
      ensures comment == old(comment) && saved == old(saved)
    {
      modalOpen := false;
    }

    /** Clicking one of the five stars. */
    method SetRating(star: nat)
      requires Valid() && 1 <= star <= 5
      modifies this
      ensures Valid() && rating == star
      ensures url == old(url) && pending == old(pending) && progress == old(progress)
      ensures report == old(report) && settling == old(settling) && modalOpen == old(modalOpen)
      ensures comment == old(comment) && saved == old(saved)
    {
      rating := star;
    }

    /** Typing in the dialog's note field. */
    method SetComment(c: string)
      requires Valid()
      modifies this
      ensures Valid() && comment == c
      ensures url == old(url) && pending == old(pending) && progress == old(progress)
      ensures report == old(report) && settling == old(settling) && modalOpen == old(modalOpen)
      ensures rating == old(rating) && saved == old(saved)
    {
      comment := c;
    }

    /** The dialog's "Save": with a report, its history line goes to the front of the stored
        list (replacing any line with the same profile id) and the page shows "Saved";
        without a report nothing changes. `date` stands for the current time. */
    method ConfirmSave(date: string)
      requires Valid()
      modifies this, local
      ensures Valid()
      ensures old(report).None? ==>
        local.compareHistory == old(local.compareHistory) && modalOpen == old(modalOpen) && saved == old(saved)
      ensures old(report).Some? ==>
        var e := EntryOf(old(report).value, old(rating), old(comment), date);
        && local.compareHistory == Some(Upsert(old(local.Read()), e))
        && local.Read()[0] == e
        && e.id == old(report).value.profile.id && e.userRating == old(rating) && e.userComment == old(comment)
        && (forall i :: 1 <= i < |local.Read()| ==> local.Read()[i].id != e.id)
        && |local.Read()| == |old(local.Read())| - CountId(old(local.Read()), e.id) + 1
        && (UniqueIds(old(local.Read())) ==> UniqueIds(local.Read()))
        && !modalOpen && saved
      ensures url == old(url) && pending == old(pending) && progress == old(progress)
      ensures report == old(report) && settling == old(settling)
      ensures rating == old(rating) && comment == old(comment)
    {
      if report.Some? {
        var e := EntryOf(report.value, rating, comment, date);
        var existing := local.Read();
        local.compareHistory := Some(Upsert(existing, e));
        UpsertSpec(existing, e);
        modalOpen := false;
        saved := true;
      }
    }
  }
}

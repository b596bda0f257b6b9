/**
  The saved-report history list ("compare_history" in the browser's durable store):
  the filter that removes an id, the save that moves an entry to the front, and the
  store slot itself.
 */
module HistoryStore {
  import opened Wrappers
  import opened ReportData

  /** The durable browser store, reduced to the one key the app uses;
      `None` means the key is absent. */
  class LocalStorage {
    var compareHistory: Option<seq<HistoryEntry>>

    constructor (stored: Option<seq<HistoryEntry>>)
      ensures compareHistory == stored
    {
      compareHistory := stored;
    }

    /** `JSON.parse(localStorage.getItem("compare_history") || "[]")`. */
    function Read(): (l: seq<HistoryEntry>)
      reads this
      ensures compareHistory.None? ==> l == []
      ensures compareHistory.Some? ==> l == compareHistory.value
    {
      compareHistory.GetOr([])
    }
  }

  /** Number of entries carrying `id`. */
  function CountId(l: seq<HistoryEntry>, id: string): nat
  {
    if l == [] then 0 else (if l[0].id == id then 1 else 0) + CountId(l[1..], id)
  }

  /** No two entries share an id. */
  predicate UniqueIds(l: seq<HistoryEntry>)
  {
    forall i, j :: 0 <= i < j < |l| ==> l[i].id != l[j].id
  }

  /** `l.filter(h => h.id !== id)`. */
  function RemoveId(l: seq<HistoryEntry>, id: string): (r: seq<HistoryEntry>)
    ensures |r| == |l| - CountId(l, id)
  {
    if l == [] then []
    else if l[0].id != id then [l[0]] + RemoveId(l[1..], id)
    else RemoveId(l[1..], id)
  }

  /** The filter keeps exactly the entries with another id. */
  lemma {:induction false} RemoveMembers(l: seq<HistoryEntry>, id: string)
    ensures forall x :: x in RemoveId(l, id) <==> x in l && x.id != id
  {
    if l != [] {
      RemoveMembers(l[1..], id);
      assert forall x :: x in l <==> x == l[0] || x in l[1..];
    }
  }

  /** The save step: the new entry in front of the old list without its id. */
  function Upsert(l: seq<HistoryEntry>, e: HistoryEntry): seq<HistoryEntry>
  {
    [e] + RemoveId(l, e.id)
  }

  /** Removing an id nobody carries changes nothing. */
  lemma {:induction false} RemoveAbsent(l: seq<HistoryEntry>, id: string)
    requires CountId(l, id) == 0
    ensures RemoveId(l, id) == l
  {
    if l != [] {
      RemoveAbsent(l[1..], id);
    }
  }

  /** The filter works element by element, so the kept entries stay in their order. */
  lemma {:induction false} RemoveAppend(a: seq<HistoryEntry>, b: seq<HistoryEntry>, id: string)
    ensures RemoveId(a + b, id) == RemoveId(a, id) + RemoveId(b, id)
  {
    if a == [] {
      assert a + b == b;
    } else {
      assert (a + b)[0] == a[0] && (a + b)[1..] == a[1..] + b;
      RemoveAppend(a[1..], b, id);
    }
  }

  /** Every entry left after the removal is unchanged and none carries the id. */
  lemma RemoveKeepsOthers(l: seq<HistoryEntry>, id: string)
    ensures CountId(RemoveId(l, id), id) == 0
    ensures RemoveId(RemoveId(l, id), id) == RemoveId(l, id)
  {
    var r := RemoveId(l, id);
    RemoveMembers(l, id);
    CountIdZero(r, id);
    RemoveAbsent(r, id);
  }

  /** An id that no entry carries has count 0. */
  lemma {:induction false} CountIdZero(l: seq<HistoryEntry>, id: string)
    requires forall x :: x in l ==> x.id != id
    ensures CountId(l, id) == 0
  {
    if l != [] {
      CountIdZero(l[1..], id);
    }
  }

  lemma {:induction false} RemoveKeepsUnique(l: seq<HistoryEntry>, id: string)
    requires UniqueIds(l)
    ensures UniqueIds(RemoveId(l, id))
  {
    if l != [] {
      RemoveKeepsUnique(l[1..], id);
      var rest := RemoveId(l[1..], id);
      RemoveMembers(l[1..], id);
      if l[0].id != id {
        forall x | x in rest ensures x.id != l[0].id {
          var k :| 0 <= k < |l[1..]| && l[1..][k] == x;
          assert l[k + 1] == x;
        }
        assert RemoveId(l, id) == [l[0]] + rest;
      }
    }
  }

  /** What a save does to the stored list: the new entry is first, no other entry has
      its id, the other entries are those of the old list without that id in their
      old order, and the length changes accordingly. Saving keeps the ids unique. */
  lemma UpsertSpec(l: seq<HistoryEntry>, e: HistoryEntry)
    ensures var r := Upsert(l, e);
      && r[0] == e
      && r[1..] == RemoveId(l, e.id)
      && (forall i :: 1 <= i < |r| ==> r[i].id != e.id)
      && CountId(r, e.id) == 1
      && |r| == |l| - CountId(l, e.id) + 1
      && (UniqueIds(l) ==> UniqueIds(r))
  {
    var r := Upsert(l, e);
    var rest := RemoveId(l, e.id);
    assert r[1..] == rest;
    RemoveMembers(l, e.id);
    forall i | 1 <= i < |r| ensures r[i].id != e.id {
      assert r[i] == rest[i - 1] && r[i] in rest;
    }
    RemoveKeepsOthers(l, e.id);
    if UniqueIds(l) {
      RemoveKeepsUnique(l, e.id);
    }
  }

  /** Saving an entry and then deleting its id leaves what deleting alone would. */
  lemma UpsertThenRemove(l: seq<HistoryEntry>, e: HistoryEntry)
    ensures RemoveId(Upsert(l, e), e.id) == RemoveId(l, e.id)
  {
    assert Upsert(l, e)[1..] == RemoveId(l, e.id);
    RemoveKeepsOthers(l, e.id);
  }

  /** Saving the same profile twice keeps only the second entry, at the front. */
  lemma UpsertTwice(l: seq<HistoryEntry>, e1: HistoryEntry, e2: HistoryEntry)
    requires e1.id == e2.id
    ensures Upsert(Upsert(l, e1), e2) == Upsert(l, e2)
  {
    UpsertThenRemove(l, e1);
  }
}

/** The History page: the list shown on screen and the durable slot it mirrors. */
module HistoryPage {
  import opened Wrappers
  import opened ReportData
  import opened HistoryStore

  class HistoryPage {
    var history: seq<HistoryEntry>
    const storage: LocalStorage

    /** Opening the page loads the stored list; with no stored key the list is empty. */
    constructor (storage: LocalStorage)
      ensures this.storage == storage
      ensures history == storage.Read()
      ensures storage.compareHistory.None? ==> history == []
    {
      this.storage := storage;
      history := storage.Read();
    }

    /** Removes every entry with this id from the list and writes the list back. */
    method DeleteItem(id: string)
      modifies this, storage
      ensures history == RemoveId(old(history), id)
      ensures storage.compareHistory == Some(history)
      ensures CountId(history, id) == 0
      ensures CountId(old(history), id) == 0 ==> history == old(history)
    {
      history := RemoveId(history, id);
      storage.compareHistory := Some(history);
      RemoveKeepsOthers(old(history), id);
      if CountId(old(history), id) == 0 {
        RemoveAbsent(old(history), id);
      }
    }

    /** Empties the list and removes the key, but only when the user confirms. */
    method ClearAll(confirmed: bool)
      modifies this, storage
      ensures confirmed ==> history == [] && storage.compareHistory.None?
      ensures !confirmed ==> history == old(history) && storage.compareHistory == old(storage.compareHistory)
    {
      if confirmed {
        history := [];
        storage.compareHistory := None;
      }
    }
  }
}

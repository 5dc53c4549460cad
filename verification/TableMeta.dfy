/** The page counters of a table; index pages and heap pages draw their numbers from the same file. */
module TableMetas {
  import opened Ids

  class TableMeta {
    var lastTableDataPageId: PageId
    var lastTableHeapDataPageId: PageId
    var tupleCount: nat

    constructor ()
      ensures lastTableDataPageId == lastTableHeapDataPageId == INVALID_PAGE_ID == -1 && tupleCount == 0
    {
      lastTableDataPageId, lastTableHeapDataPageId, tupleCount := INVALID_PAGE_ID, INVALID_PAGE_ID, 0;
    }

    /** Bumps the end of the table file. */
    method IncrementTableDataPageId() returns (id: PageId)
      requires INVALID_PAGE_ID <= lastTableDataPageId
      modifies this`lastTableDataPageId
      ensures id == lastTableDataPageId == old(lastTableDataPageId) + 1
      ensures 0 <= id && (old(lastTableDataPageId) == -1 ==> id == 0)
    {
      if lastTableDataPageId == INVALID_PAGE_ID {
        lastTableDataPageId := START_PAGE_ID;
      } else {
        lastTableDataPageId := lastTableDataPageId + 1;
      }
      id := lastTableDataPageId;
    }
  }
}

/** Page numbers and row ids, as every part of a table uses them. */
module Ids {
  /** The number of a page within its table's file. */
  type PageId = int
  const INVALID_PAGE_ID: PageId := -1
  const START_PAGE_ID: PageId := 0

  datatype Rid = Rid(page: PageId, slot: nat)
}

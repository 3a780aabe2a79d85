/**
 * The rules the results table (frontend/src/components/ResultsTable.tsx) renders by:
 * the sort indicator in each column header, which action buttons a row offers for
 * its status, the checkboxes and the status colour. The table keeps no state.
 */
module ResultsTable {
  import opened Wrappers
  import opened Types
  import opened ViewPipeline
  import opened Selection

  const Ascending: string := " ▲"
  const Descending: string := " ▼"

  /** `renderSortIndicator(key)`. */
  function SortIndicator(sortKey: Option<SortKey>, dir: Direction, key: SortKey): (mark: string)
    ensures mark == Ascending <==> sortKey == Some(key) && dir == Asc
    ensures mark == Descending <==> sortKey == Some(key) && dir == Desc
    ensures mark == "" <==> sortKey != Some(key)
  {
    assert Ascending[1] != Descending[1];
    if sortKey == Some(key) then (if dir.Asc? then Ascending else Descending) else ""
  }

  /** Exactly the active column carries an indicator; every other header shows none. */
  lemma OnlyActiveColumnMarked(key: SortKey, dir: Direction, other: SortKey)
    ensures SortIndicator(Some(key), dir, key) != ""
    ensures other != key ==> SortIndicator(Some(key), dir, other) == ""
    ensures SortIndicator(None, dir, other) == ""
  {
  }

  /** A sort click on the active column flips its arrow. */
  lemma IndicatorFollowsDirection(key: SortKey, dir: Direction)
    ensures SortIndicator(Some(key), dir, key) != SortIndicator(Some(key), if dir == Asc then Desc else Asc, key)
  {
  }

  /** The buttons a row offers. */
  datatype Actions = Actions(start: bool, stop: bool, delete: bool)

  function RowActions(status: string): (a: Actions)
    ensures a.start <==> status == "done" || status == "error"
    ensures a.stop <==> status == "running"
    ensures a.delete
  {
    Actions(status == "done" || status == "error", status == "running", true)
  }

  /** Start and Stop are never offered together, and a queued or stopped row offers
      neither. */
  lemma StartAndStopExclusive(status: string)
    ensures !(RowActions(status).start && RowActions(status).stop)
    ensures status == "queued" || status == "stopped" ==>
      !RowActions(status).start && !RowActions(status).stop
  {
  }

  /** A row's checkbox: `selectedIds.has(url.id)`. */
  predicate RowChecked(row: Row, selectedIds: seq<string>) {
    row.id in selectedIds
  }

  /** The header checkbox shows the `allSelected` flag computed by the wrapper, which is
      true exactly when the page has rows and every row's checkbox is checked. */
  lemma HeaderCheckedIffEveryRowChecked(page: seq<Row>, selectedIds: seq<string>)
    ensures AllSelected(Ids(page), selectedIds) <==>
      |page| > 0 && forall i :: 0 <= i < |page| ==> RowChecked(page[i], selectedIds)
  {
    var ids := Ids(page);
    if AllSelected(ids, selectedIds) {
      forall i | 0 <= i < |page| ensures RowChecked(page[i], selectedIds) {
        assert ids[i] == page[i].id;
      }
    }
    if |page| > 0 && forall i :: 0 <= i < |page| ==> RowChecked(page[i], selectedIds) {
      forall i | 0 <= i < |ids| ensures ids[i] in selectedIds {
        assert RowChecked(page[i], selectedIds);
      }
    }
  }

  datatype Colour = Red | Green

  /** The status cell is red for `"error"` and green for every other status. */
  function StatusColour(status: string): (c: Colour)
    ensures c == Red <==> status == "error"
  {
    if status == "error" then Red else Green
  }
}

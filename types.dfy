/**
 * The record as the client sees it after JSON decoding (frontend/src/types/index.ts).
 * Fields the server omits when empty (`title`, `html_version`) and the
 * `accessible_links` count that the table reads are optional; `url` is optional
 * because the search filter reads it through `?.`.
 */
module Types {
  import opened Wrappers

  datatype BrokenLinkRow = BrokenLinkRow(url: string, status: int)

  datatype Row = Row(
    id: string,
    url: Option<string>,
    title: Option<string>,
    htmlVersion: Option<string>,
    internalLinks: int,
    externalLinks: int,
    accessibleLinks: Option<int>,
    hasLoginForm: bool,
    status: string,
    headings: map<string, int>,
    brokenLinks: seq<BrokenLinkRow>)

  /** The ids of a list of rows, in order (`urls.map((u) => u.id)`). */
  function Ids(rows: seq<Row>): (ids: seq<string>)
    ensures |ids| == |rows|
    ensures forall i :: 0 <= i < |rows| ==> ids[i] == rows[i].id
  {
    seq(|rows|, i requires 0 <= i < |rows| => rows[i].id)
  }
}

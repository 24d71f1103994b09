/**
 Page arithmetic of the table: the widget reports a 0-based page index, the
 component keeps a 1-based page number, and hands the widget back the offset
 of the first row of that page.
 */
module Paging {

  /** Rows per page, also the `limit` of every page request. */
  const Rows: nat := 12

  /** The 1-based page number kept for the widget's 0-based page index. */
  function PageNumber(widgetIndex: int): (page: int)
    ensures widgetIndex >= 0 <==> page >= 1
    ensures page > widgetIndex
  {
    widgetIndex + 1
  }

  /** Offset, in the whole collection, of the first row of a 1-based page. */
  function FirstRow(page: int): (first: int)
    ensures page >= 1 ==> 0 <= first
    ensures first % Rows == 0
  {
    (page - 1) * Rows
  }

  /** The widget recovers its page index from the offset it is given. */
  lemma {:induction false} PageIndexRoundTrip(widgetIndex: int)
    ensures FirstRow(PageNumber(widgetIndex)) / Rows == widgetIndex
  {
    assert FirstRow(PageNumber(widgetIndex)) == widgetIndex * Rows;
  }

  /** Pages cover consecutive, non-overlapping windows of rows. */
  lemma {:induction false} PagesDoNotOverlap(p: int, q: int)
    requires p < q
    ensures FirstRow(p) + Rows <= FirstRow(q)
  {
    assert FirstRow(q) - FirstRow(p) == (q - p) * Rows;
  }
}

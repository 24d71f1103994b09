/**
 The state of the artwork table component: the records of the visible page,
 the 1-based page number, the count typed for a bulk selection, and the
 selection map together with the list of selected records derived from it.
 Each handler builds a new selection map from a copy of the current one and
 then publishes it in full.
 */
module Table {
  import opened Artworks
  import opened Paging
  import opened Reconciliation
  import opened BulkSelection

  class ArtworkTable {
    var artworks: seq<Artwork>
    var selectedArtworks: set<Artwork>
    var selectionMap: SelectionMap
    var page: int
    var inputValue: int

    /** Every selected record sits under its own id, and the selected records
        are exactly the values of the selection map. */
    ghost predicate Valid()
      reads this
    {
      KeyedById(selectionMap) && selectedArtworks == selectionMap.Values
    }

    /** The component's initial state: nothing shown, nothing selected, page 1, count 0. */
    constructor ()
      ensures Valid()
      ensures artworks == [] && selectionMap == map[] && selectedArtworks == {}
      ensures page == 1 && inputValue == 0
    {
      artworks := [];
      selectedArtworks := {};
      selectionMap := map[];
      page := 1;
      inputValue := 0;
    }

    /** The widget moved to the page with 0-based index `widgetIndex`. */
    method OnPageChange(widgetIndex: int)
      modifies this`page
      ensures page == PageNumber(widgetIndex)
      ensures FirstRow(page) == widgetIndex * Rows
    {
      page := widgetIndex + 1;
    }

    /** The records of the current page arrived; they become the visible rows. */
    method ShowPage(fetch: int -> seq<Artwork>)
      modifies this`artworks
      ensures artworks == fetch(page)
    {
      artworks := fetch(page);
    }

    /** The user typed a count for the bulk selection. */
    method OnInputChange(value: int)
      modifies this`inputValue
      ensures inputValue == value
    {
      inputValue := value;
    }

    /** The widget reports the rows now checked; the visible page is reconciled
        with them and the new map and its values are published. */
    method OnSelectionChange(checked: seq<Artwork>)
      requires Valid()
      modifies this`selectionMap, this`selectedArtworks
      ensures Valid()
      ensures selectionMap == Reconciled(old(selectionMap), artworks, IdsOf(checked))
    {
      var newMap := Reconcile(selectionMap, artworks, checked);
      ReconcileKeepsKeyedById(selectionMap, artworks, IdsOf(checked));
      selectionMap := newMap;
      selectedArtworks := newMap.Values;
    }

    /** The "Select" button: take the first `inputValue` records from the
        current page on and publish the grown map. `horizon` names a number of
        pages from the current one that hold at least that many records. */
    method HandleRowSelect(fetch: int -> seq<Artwork>, ghost horizon: nat)
      requires Valid()
      requires inputValue <= |Pages(fetch, page, horizon)|
      modifies this`selectionMap, this`selectedArtworks
      ensures Valid()
      ensures selectionMap == BulkSelected(old(selectionMap), fetch, page, inputValue, horizon)
      ensures old(selectionMap).Keys <= selectionMap.Keys
      ensures inputValue <= 0 ==> selectionMap == old(selectionMap)
    {
      var newSelected := FetchAndSelect(selectionMap, fetch, page, inputValue, horizon);
      BulkSelectKeepsKeyedById(selectionMap, fetch, page, inputValue, horizon);
      selectionMap := newSelected;
      selectedArtworks := newSelected.Values;
    }
  }
}

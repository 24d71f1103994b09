/**
 Reconciling the selection map with the checkboxes of the visible page: every
 record of that page is inserted under its id when its row is checked and its
 id is deleted otherwise; ids of other pages are left alone.
 */
module Reconciliation {
  import opened Artworks

  /** The map after visiting the records of `visible` in order, inserting each
      record whose id is checked and deleting the id of each other one. */
  function Reconciled(prior: SelectionMap, visible: seq<Artwork>, checkedIds: set<int>): SelectionMap
    decreases |visible|
  {
    if visible == [] then prior
    else
      var m := Reconciled(prior, visible[..|visible| - 1], checkedIds);
      var item := visible[|visible| - 1];
      if item.id in checkedIds then m[item.id := item] else m - {item.id}
  }

  /** What reconciling means, independently of the visiting order: the ids of
      the visible page end up exactly the checked ones, each checked id holds
      the last visible record with that id, and no other id changes. */
  lemma {:induction false} ReconciledMeaning(prior: SelectionMap, visible: seq<Artwork>, checkedIds: set<int>)
    ensures Reconciled(prior, visible, checkedIds).Keys
         == (prior.Keys - IdsOf(visible)) + (IdsOf(visible) * checkedIds)
    ensures forall k :: k in prior && k !in IdsOf(visible) ==> Reconciled(prior, visible, checkedIds)[k] == prior[k]
    ensures forall j :: 0 <= j < |visible| && visible[j].id in checkedIds && IsLastOccurrence(visible, j)
                        ==> Reconciled(prior, visible, checkedIds)[visible[j].id] == visible[j]
    decreases |visible|
  {
    if visible != [] {
      var n := |visible|;
      var init := visible[..n - 1];
      var item := visible[n - 1];
      assert visible == init + [item];
      IdsOfSnoc(init, item);
      ReconciledMeaning(prior, init, checkedIds);
      var r := Reconciled(prior, visible, checkedIds);
      forall j | 0 <= j < n && visible[j].id in checkedIds && IsLastOccurrence(visible, j)
        ensures r[visible[j].id] == visible[j]
      {
        if j < n - 1 {
          assert visible[j] == init[j];
          assert IsLastOccurrence(init, j);
        }
      }
    }
  }

  /** Checked rows of the visible page are selected. */
  lemma {:induction false} CheckedRowsSelected(prior: SelectionMap, visible: seq<Artwork>, checkedIds: set<int>, k: int)
    requires k in IdsOf(visible) && k in checkedIds
    ensures k in Reconciled(prior, visible, checkedIds)
    ensures exists j :: 0 <= j < |visible| && visible[j].id == k && Reconciled(prior, visible, checkedIds)[k] == visible[j]
  {
    ReconciledMeaning(prior, visible, checkedIds);
    var j := LastOccurrenceOf(visible, k);
  }

  /** Unchecked rows of the visible page are deselected, selected or not before. */
  lemma {:induction false} UncheckedRowsDeselected(prior: SelectionMap, visible: seq<Artwork>, checkedIds: set<int>, k: int)
    requires k in IdsOf(visible) && k !in checkedIds
    ensures k !in Reconciled(prior, visible, checkedIds)
  {
    ReconciledMeaning(prior, visible, checkedIds);
  }

  /** Ids that are not on the visible page keep their entry, or their absence. */
  lemma {:induction false} OtherPagesUntouched(prior: SelectionMap, visible: seq<Artwork>, checkedIds: set<int>, k: int)
    requires k !in IdsOf(visible)
    ensures k in Reconciled(prior, visible, checkedIds) <==> k in prior
    ensures k in prior ==> Reconciled(prior, visible, checkedIds)[k] == prior[k]
  {
    ReconciledMeaning(prior, visible, checkedIds);
  }

  /** Reconciling twice with the same page and checked rows changes nothing more. */
  lemma ReconcileIdempotent(prior: SelectionMap, visible: seq<Artwork>, checkedIds: set<int>)
    ensures Reconciled(Reconciled(prior, visible, checkedIds), visible, checkedIds)
         == Reconciled(prior, visible, checkedIds)
  {
    var once := Reconciled(prior, visible, checkedIds);
    var twice := Reconciled(once, visible, checkedIds);
    ReconciledMeaning(prior, visible, checkedIds);
    ReconciledMeaning(once, visible, checkedIds);
    assert twice.Keys == once.Keys;
    forall k | k in once
      ensures twice[k] == once[k]
    {
      if k in IdsOf(visible) {
        var j := LastOccurrenceOf(visible, k);
      }
    }
  }

  /** Reconciling keeps every record under its own id. */
  lemma {:induction false} ReconcileKeepsKeyedById(prior: SelectionMap, visible: seq<Artwork>, checkedIds: set<int>)
    requires KeyedById(prior)
    ensures KeyedById(Reconciled(prior, visible, checkedIds))
  {
    var r := Reconciled(prior, visible, checkedIds);
    ReconciledMeaning(prior, visible, checkedIds);
    forall k | k in r
      ensures r[k].id == k
    {
      if k in IdsOf(visible) {
        var j := LastOccurrenceOf(visible, k);
      }
    }
  }

  /** With record 5 selected and records 5, 6, 7 visible, checking only row 6
      leaves exactly record 6 selected. */
  lemma ReconcileExample(r5: Artwork, r6: Artwork, r7: Artwork)
    requires r5.id == 5 && r6.id == 6 && r7.id == 7
    ensures Reconciled(map[5 := r5], [r5, r6, r7], {6}) == map[6 := r6]
  {
    var before := map[5 := r5];
    assert Reconciled(before, [r5], {6}) == map[] by {
      assert [r5][..0] == [];
    }
    assert Reconciled(before, [r5, r6], {6}) == map[6 := r6] by {
      assert [r5, r6][..1] == [r5];
    }
    assert [r5, r6, r7][..2] == [r5, r6];
    assert map[6 := r6] - {7} == map[6 := r6];
  }

  /** The copy-and-update loop of the selection-change handler: starting from a
      copy of the map, visit the visible records and insert or delete each one
      according to whether the widget reports its row as checked. */
  method Reconcile(prior: SelectionMap, visible: seq<Artwork>, checked: seq<Artwork>) returns (r: SelectionMap)
    ensures r == Reconciled(prior, visible, IdsOf(checked))
    ensures r.Keys == (prior.Keys - IdsOf(visible)) + (IdsOf(visible) * IdsOf(checked))
    ensures forall k :: k in prior && k !in IdsOf(visible) ==> r[k] == prior[k]
    ensures forall j :: 0 <= j < |visible| && visible[j].id in IdsOf(checked) && IsLastOccurrence(visible, j)
                        ==> r[visible[j].id] == visible[j]
  {
    var selectedIds := IdsOf(checked);
    r := prior;
    var i := 0;
    while i < |visible|
      invariant 0 <= i <= |visible|
      invariant r == Reconciled(prior, visible[..i], selectedIds)
    {
      var item := visible[i];
      assert visible[..i + 1][..i] == visible[..i];
      if item.id in selectedIds {
        r := r[item.id := item];
      } else {
        r := r - {item.id};
      }
      i := i + 1;
    }
    assert visible[..i] == visible;
    ReconciledMeaning(prior, visible, selectedIds);
  }
}

/**
 "Select the first N records": starting at the current page, fetch page after
 page and insert records from the front of each into a copy of the selection
 map until N records have been taken. Records are counted as taken whether or
 not their id was already selected.

 The page request is the function `fetch`, from 1-based page number to the
 records of that page in the order the collection returns them.
 */
module BulkSelection {
  import opened Artworks

  /** The map after writing `m[item.id] = item` for each record of `items`, in order. */
  function InsertAll(m: SelectionMap, items: seq<Artwork>): SelectionMap
    decreases |items|
  {
    if items == [] then m
    else
      var last := items[|items| - 1];
      InsertAll(m, items[..|items| - 1])[last.id := last]
  }

  /** The records of `k` consecutive pages starting at page `start`, in order. */
  function Pages(fetch: int -> seq<Artwork>, start: int, k: nat): seq<Artwork>
    decreases k
  {
    if k == 0 then [] else Pages(fetch, start, k - 1) + fetch(start + k - 1)
  }

  /** The map the bulk selection publishes: unchanged for a count of zero or
      less, otherwise the first `count` records of the pages from `start` on
      inserted in order. `horizon` is any number of pages holding that many. */
  function BulkSelected(prior: SelectionMap, fetch: int -> seq<Artwork>, start: int, count: int, horizon: nat): SelectionMap
    requires count <= |Pages(fetch, start, horizon)|
  {
    if count <= 0 then prior else InsertAll(prior, Pages(fetch, start, horizon)[..count])
  }

  /** Inserting a list of records: the keys grow by exactly the ids inserted,
      other entries keep their record, and each inserted id holds the last
      record of the list that carries it. */
  lemma {:induction false} InsertAllMeaning(m: SelectionMap, items: seq<Artwork>)
    ensures InsertAll(m, items).Keys == m.Keys + IdsOf(items)
    ensures forall k :: k in m && k !in IdsOf(items) ==> InsertAll(m, items)[k] == m[k]
    ensures forall j :: 0 <= j < |items| && IsLastOccurrence(items, j)
                        ==> InsertAll(m, items)[items[j].id] == items[j]
    decreases |items|
  {
    if items != [] {
      var n := |items|;
      var init := items[..n - 1];
      var last := items[n - 1];
      assert items == init + [last];
      IdsOfSnoc(init, last);
      InsertAllMeaning(m, init);
      forall j | 0 <= j < n && IsLastOccurrence(items, j)
        ensures InsertAll(m, items)[items[j].id] == items[j]
      {
        if j < n - 1 {
          assert items[j] == init[j];
          assert IsLastOccurrence(init, j);
        }
      }
    }
  }

  /** Inserting two lists one after the other is inserting their concatenation. */
  lemma {:induction false} InsertAllAppend(m: SelectionMap, a: seq<Artwork>, b: seq<Artwork>)
    ensures InsertAll(InsertAll(m, a), b) == InsertAll(m, a + b)
    decreases |b|
  {
    if b != [] {
      var n := |b|;
      assert (a + b)[..|a + b| - 1] == a + b[..n - 1];
      assert (a + b)[|a + b| - 1] == b[n - 1];
      InsertAllAppend(m, a, b[..n - 1]);
    } else {
      assert a + b == a;
    }
  }

  /** Inserting keeps every record under its own id. */
  lemma {:induction false} InsertAllKeepsKeyedById(m: SelectionMap, items: seq<Artwork>)
    requires KeyedById(m)
    ensures KeyedById(InsertAll(m, items))
    decreases |items|
  {
    if items != [] {
      InsertAllKeepsKeyedById(m, items[..|items| - 1]);
    }
  }

  /** Fetching more pages only extends the records already fetched. */
  lemma {:induction false} PagesPrefix(fetch: int -> seq<Artwork>, start: int, k: nat, k': nat)
    requires k <= k'
    ensures |Pages(fetch, start, k)| <= |Pages(fetch, start, k')|
    ensures Pages(fetch, start, k) == Pages(fetch, start, k')[..|Pages(fetch, start, k)|]
    decreases k'
  {
    if k < k' {
      PagesPrefix(fetch, start, k, k' - 1);
    }
  }

  /** The published map does not depend on which sufficient horizon is named. */
  lemma BulkSelectedHorizon(prior: SelectionMap, fetch: int -> seq<Artwork>, start: int, count: int, h: nat, h': nat)
    requires count <= |Pages(fetch, start, h)| && count <= |Pages(fetch, start, h')|
    ensures BulkSelected(prior, fetch, start, count, h) == BulkSelected(prior, fetch, start, count, h')
  {
    if count > 0 {
      var p, p' := Pages(fetch, start, h), Pages(fetch, start, h');
      if h <= h' {
        PagesPrefix(fetch, start, h, h');
        assert p[..count] == p'[..|p|][..count] == p'[..count];
      } else {
        PagesPrefix(fetch, start, h', h);
        assert p'[..count] == p[..|p'|][..count] == p[..count];
      }
    }
  }

  /** A count that fits on the current page selects the first `count` records of that page. */
  lemma BulkSelectOnePage(prior: SelectionMap, fetch: int -> seq<Artwork>, start: int, count: int, horizon: nat)
    requires 0 < count <= |fetch(start)|
    requires count <= |Pages(fetch, start, horizon)|
    ensures BulkSelected(prior, fetch, start, count, horizon) == InsertAll(prior, fetch(start)[..count])
  {
    assert Pages(fetch, start, 1) == fetch(start);
    BulkSelectedHorizon(prior, fetch, start, count, horizon, 1);
  }

  /** A count that spills over onto the next page selects the whole current page
      and then the first records of the next one. */
  lemma BulkSelectTwoPages(prior: SelectionMap, fetch: int -> seq<Artwork>, start: int, count: int, horizon: nat)
    requires |fetch(start)| < count <= |fetch(start)| + |fetch(start + 1)|
    requires count <= |Pages(fetch, start, horizon)|
    ensures BulkSelected(prior, fetch, start, count, horizon)
         == InsertAll(InsertAll(prior, fetch(start)), fetch(start + 1)[..count - |fetch(start)|])
  {
    var first := fetch(start);
    var second := fetch(start + 1);
    assert Pages(fetch, start, 1) == first;
    assert Pages(fetch, start, 2) == first + second;
    assert (first + second)[..count] == first + second[..count - |first|];
    InsertAllAppend(prior, first, second[..count - |first|]);
    BulkSelectedHorizon(prior, fetch, start, count, horizon, 2);
  }

  /** The selection only grows: every previously selected id stays selected, and
      keeps its record unless one of the taken records carries it. */
  lemma BulkSelectOnlyInserts(prior: SelectionMap, fetch: int -> seq<Artwork>, start: int, count: int, horizon: nat)
    requires count <= |Pages(fetch, start, horizon)|
    ensures prior.Keys <= BulkSelected(prior, fetch, start, count, horizon).Keys
    ensures forall k :: k in prior && (count <= 0 || k !in IdsOf(Pages(fetch, start, horizon)[..count]))
                        ==> BulkSelected(prior, fetch, start, count, horizon)[k] == prior[k]
  {
    if count > 0 {
      InsertAllMeaning(prior, Pages(fetch, start, horizon)[..count]);
    }
  }

  /** Records already selected still count toward `count`, so at most `count`
      ids are newly selected. */
  lemma BulkSelectNewKeysAtMostCount(prior: SelectionMap, fetch: int -> seq<Artwork>, start: int, count: int, horizon: nat)
    requires 0 <= count <= |Pages(fetch, start, horizon)|
    ensures |BulkSelected(prior, fetch, start, count, horizon).Keys - prior.Keys| <= count
  {
    if count > 0 {
      var taken := Pages(fetch, start, horizon)[..count];
      InsertAllMeaning(prior, taken);
      IdsOfSize(taken);
      var added := BulkSelected(prior, fetch, start, count, horizon).Keys - prior.Keys;
      assert added <= IdsOf(taken);
      SubsetSize(added, IdsOf(taken));
    }
  }

  /** When the taken records carry pairwise distinct ids, none of them already
      selected, exactly `count` ids are newly selected. */
  lemma BulkSelectNewKeysExactlyCount(prior: SelectionMap, fetch: int -> seq<Artwork>, start: int, count: int, horizon: nat)
    requires 0 < count <= |Pages(fetch, start, horizon)|
    requires DistinctIds(Pages(fetch, start, horizon)[..count])
    requires IdsOf(Pages(fetch, start, horizon)[..count]) !! prior.Keys
    ensures |BulkSelected(prior, fetch, start, count, horizon).Keys - prior.Keys| == count
  {
    var taken := Pages(fetch, start, horizon)[..count];
    InsertAllMeaning(prior, taken);
    assert BulkSelected(prior, fetch, start, count, horizon).Keys - prior.Keys == IdsOf(taken);
    IdsOfDistinctSize(taken);
  }

  /** Twenty records from pages of twelve, with distinct ids, into an empty
      selection: the whole first page and the first eight of the next are
      selected, twenty ids in all. */
  lemma BulkSelectTwentyExample(fetch: int -> seq<Artwork>, start: int, horizon: nat)
    requires |fetch(start)| == 12 && |fetch(start + 1)| == 12
    requires 20 <= |Pages(fetch, start, horizon)|
    requires DistinctIds(Pages(fetch, start, horizon)[..20])
    ensures BulkSelected(map[], fetch, start, 20, horizon) == InsertAll(InsertAll(map[], fetch(start)), fetch(start + 1)[..8])
    ensures |BulkSelected(map[], fetch, start, 20, horizon)| == 20
  {
    BulkSelectTwoPages(map[], fetch, start, 20, horizon);
    BulkSelectNewKeysExactlyCount(map[], fetch, start, 20, horizon);
    var none: SelectionMap := map[];
    assert BulkSelected(none, fetch, start, 20, horizon).Keys - none.Keys
        == BulkSelected(none, fetch, start, 20, horizon).Keys;
  }

  /** When every taken record is already selected, no id is added: records are
      counted as taken, not ids as newly selected. */
  lemma BulkSelectCountsReselected(prior: SelectionMap, fetch: int -> seq<Artwork>, start: int, count: int, horizon: nat)
    requires 0 < count <= |Pages(fetch, start, horizon)|
    requires IdsOf(Pages(fetch, start, horizon)[..count]) <= prior.Keys
    ensures BulkSelected(prior, fetch, start, count, horizon).Keys == prior.Keys
  {
    InsertAllMeaning(prior, Pages(fetch, start, horizon)[..count]);
  }

  /** A subset is no larger than its superset. */
  lemma SubsetSize(a: set<int>, b: set<int>)
    requires a <= b
    ensures |a| <= |b|
  {
    assert b == a + (b - a);
    assert a * (b - a) == {};
  }

  /** Bulk selection keeps every record under its own id. */
  lemma BulkSelectKeepsKeyedById(prior: SelectionMap, fetch: int -> seq<Artwork>, start: int, count: int, horizon: nat)
    requires KeyedById(prior)
    requires count <= |Pages(fetch, start, horizon)|
    ensures KeyedById(BulkSelected(prior, fetch, start, count, horizon))
  {
    if count > 0 {
      InsertAllKeepsKeyedById(prior, Pages(fetch, start, horizon)[..count]);
    }
  }

  /** One step of the loop: with all records of the first `k` pages taken,
      taking `toTake` more from the front of the next page is taking that many
      more records of the pages in order. */
  lemma PagesStep(prior: SelectionMap, fetch: int -> seq<Artwork>, start: int, k: nat, toTake: nat)
    requires toTake <= |fetch(start + k)|
    ensures |Pages(fetch, start, k)| + toTake <= |Pages(fetch, start, k + 1)|
    ensures InsertAll(InsertAll(prior, Pages(fetch, start, k)), fetch(start + k)[..toTake])
         == InsertAll(prior, Pages(fetch, start, k + 1)[..|Pages(fetch, start, k)| + toTake])
  {
    var done, page := Pages(fetch, start, k), fetch(start + k);
    assert Pages(fetch, start, k + 1) == done + page;
    assert (done + page)[..|done| + toTake] == done + page[..toTake];
    InsertAllAppend(prior, done, page[..toTake]);
  }

  /** The inner `forEach` of the loop: insert each record under its id. */
  method InsertEach(m: SelectionMap, items: seq<Artwork>) returns (r: SelectionMap)
    ensures r == InsertAll(m, items)
    ensures r.Keys == m.Keys + IdsOf(items)
  {
    r := m;
    var i := 0;
    while i < |items|
      invariant 0 <= i <= |items|
      invariant r == InsertAll(m, items[..i])
    {
      var item := items[i];
      assert items[..i + 1][..i] == items[..i];
      r := r[item.id := item];
      i := i + 1;
    }
    assert items[..i] == items;
    InsertAllMeaning(m, items);
  }

  /** The loop of the bulk selection. Page by page from `start`, it takes
      min(remaining, page length) records from the front of the page, inserts
      them into the copy of the map, lowers `remaining` by the number taken and
      moves to the next page, until `remaining` is no longer positive.
      `horizon` names a number of pages that hold at least `count` records:
      without it the loop would run forever. */
  method FetchAndSelect(prior: SelectionMap, fetch: int -> seq<Artwork>, start: int, count: int, ghost horizon: nat)
    returns (r: SelectionMap)
    requires count <= |Pages(fetch, start, horizon)|
    ensures r == BulkSelected(prior, fetch, start, count, horizon)
    ensures count <= 0 ==> r == prior
    ensures prior.Keys <= r.Keys
  {
    var remaining := count;
    var currentPage := start;
    r := prior;
    ghost var k: nat := 0;
    while remaining > 0
      invariant currentPage == start + k && k <= horizon
      invariant count > 0 ==> 0 <= remaining <= count
      invariant count <= 0 ==> remaining == count && r == prior
      invariant count - remaining <= |Pages(fetch, start, k)|
      invariant remaining > 0 ==> count - remaining == |Pages(fetch, start, k)|
      invariant count > 0 ==> r == InsertAll(prior, Pages(fetch, start, k)[..count - remaining])
      decreases horizon - k
    {
      ghost var done := Pages(fetch, start, k);
      assert done[..count - remaining] == done;
      var pageItems := fetch(currentPage);
      var toTake := if remaining < |pageItems| then remaining else |pageItems|;
      PagesStep(prior, fetch, start, k, toTake);
      r := InsertEach(r, pageItems[..toTake]);
      remaining := remaining - toTake;
      currentPage := currentPage + 1;
      k := k + 1;
    }
    BulkSelectedHorizon(prior, fetch, start, count, k, horizon);
    BulkSelectOnlyInserts(prior, fetch, start, count, horizon);
  }
}

/**
 The records shown by the artwork table and the selection map that holds the
 records the user has selected, keyed by record id, across all pages.
 */
module Artworks {

  /** One record of the collection. Its identity is `id`; the other fields are
      display data that no operation of the table inspects. */
  datatype Artwork = Artwork(
    id: int,
    title: string,
    placeOfOrigin: string,
    artistDisplay: string,
    inscriptions: string,
    dateStart: int,
    dateEnd: int)

  /** The cross-page selection: record id to record. */
  type SelectionMap = map<int, Artwork>

  /** The set of ids of a list of records. */
  function IdsOf(s: seq<Artwork>): set<int>
  {
    set i | 0 <= i < |s| :: s[i].id
  }

  /** Every record stored in the map sits under its own id. */
  ghost predicate KeyedById(m: SelectionMap)
  {
    forall k :: k in m ==> m[k].id == k
  }

  /** Position `j` holds the last record of `s` that carries its id. */
  ghost predicate IsLastOccurrence(s: seq<Artwork>, j: int)
    requires 0 <= j < |s|
  {
    forall j' :: j < j' < |s| ==> s[j'].id != s[j].id
  }

  /** Appending one record adds exactly its id. */
  lemma IdsOfSnoc(s: seq<Artwork>, a: Artwork)
    ensures IdsOf(s + [a]) == IdsOf(s) + {a.id}
  {
    var t := s + [a];
    assert t[|s|] == a;
    forall k | k in IdsOf(s)
      ensures k in IdsOf(t)
    {
      var i :| 0 <= i < |s| && s[i].id == k;
      assert t[i] == s[i];
    }
  }

  /** A list of `n` records carries at most `n` distinct ids. */
  lemma {:induction false} IdsOfSize(s: seq<Artwork>)
    ensures |IdsOf(s)| <= |s|
    decreases |s|
  {
    if s != [] {
      var init := s[..|s| - 1];
      assert s == init + [s[|s| - 1]];
      IdsOfSnoc(init, s[|s| - 1]);
      IdsOfSize(init);
    }
  }

  /** No two records of the list share an id. */
  ghost predicate DistinctIds(s: seq<Artwork>)
  {
    forall i, j :: 0 <= i < j < |s| ==> s[i].id != s[j].id
  }

  /** A list of `n` records with pairwise distinct ids carries exactly `n` ids. */
  lemma {:induction false} IdsOfDistinctSize(s: seq<Artwork>)
    requires DistinctIds(s)
    ensures |IdsOf(s)| == |s|
    decreases |s|
  {
    if s != [] {
      var init := s[..|s| - 1];
      var last := s[|s| - 1];
      assert s == init + [last];
      IdsOfSnoc(init, last);
      assert DistinctIds(init) by {
        forall i, j | 0 <= i < j < |init|
          ensures init[i].id != init[j].id
        {
          assert init[i] == s[i] && init[j] == s[j];
        }
      }
      IdsOfDistinctSize(init);
      assert last.id !in IdsOf(init) by {
        forall i | 0 <= i < |init|
          ensures init[i].id != last.id
        {
          assert init[i] == s[i];
        }
      }
    }
  }

  /** Every id of a list has a last occurrence in it. */
  lemma {:induction false} LastOccurrenceOf(s: seq<Artwork>, k: int) returns (j: int)
    requires k in IdsOf(s)
    ensures 0 <= j < |s| && s[j].id == k && IsLastOccurrence(s, j)
    decreases |s|
  {
    var n := |s|;
    if s[n - 1].id == k {
      j := n - 1;
    } else {
      var init := s[..n - 1];
      assert s == init + [s[n - 1]];
      IdsOfSnoc(init, s[n - 1]);
      j := LastOccurrenceOf(init, k);
      assert s[j] == init[j];
    }
  }
}

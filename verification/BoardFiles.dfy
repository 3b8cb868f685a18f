/** The slug index of the board store across a flush and a load: the file is written in one
    order, and the last holder of a slug in it is the one the loaded index leads to. */
module BoardFiles {
  import opened Common
  import opened Entities
  import opened Sorting
  import B = BoardStore
  import T = IndexedTable

  // ---- What a flush writes ----

  lemma FlushExists(items: map<string, BoardData>) returns (records: seq<BoardData>)
    requires B.Keyed(items)
    ensures T.Lists(B.BySchema(), records, items) && SortedBy(B.ListedBefore, records)
  {
    B.KeyedTable(items);
    B.OrderIsStrict();
    var some := T.SomeListing(B.BySchema(), items);
    records := Sort(B.ListedBefore, some);
    SortSorted(B.ListedBefore, some);
    B.ListingNoDup(items, some);
    assert forall i :: 0 <= i < |some| ==> some[i] in some;
    assert forall id :: id in items ==> B.IdOf(items[id]) == id;
    T.PermutationLists(B.BySchema(), some, records, items);
  }

  // The records in the file, which are the same in whatever order the map is visited.
  ghost function Flushed(items: map<string, BoardData>): (records: seq<BoardData>)
    requires B.Keyed(items)
    ensures T.Lists(B.BySchema(), records, items) && SortedBy(B.ListedBefore, records)
  {
    assert exists records :: T.Lists(B.BySchema(), records, items) && SortedBy(B.ListedBefore, records) by {
      var some := FlushExists(items);
    }
    var records :| T.Lists(B.BySchema(), records, items) && SortedBy(B.ListedBefore, records);
    records
  }

  /** A real flush writes exactly that. */
  method Flush(store: B.MemoryBoardStore) returns (records: seq<BoardData>)
    requires store.Valid()
    modifies store`dirty
    ensures store.Valid() && store.State() == old(store.State()) && !store.dirty
    ensures B.Keyed(store.State().items) && records == Flushed(store.State().items)
  {
    records := store.TakeSnapshot();
    assert B.Keyed(store.State().items);
    B.FlushCanonical(store.State().items, records, Flushed(store.State().items));
  }

  // ---- The slug index across a save and a load ----

  // The last board of the file with this slug.
  function LastWith(records: seq<BoardData>, slug: string): Option<string> {
    if records == [] then None
    else if records[|records| - 1].slug == slug then Some(records[|records| - 1].id)
    else LastWith(records[..|records| - 1], slug)
  }

  lemma {:induction false} ReloadIndexIs(records: seq<BoardData>, slug: string)
    requires forall i :: 0 <= i < |records| ==> records[i].id != ""
    ensures var idx := B.Reload(records).slugIdx;
            (if slug in idx then Some(idx[slug]) else None) == if slug == "" then None else LastWith(records, slug)
  {
    if records != [] {
      var init, b := records[..|records| - 1], records[|records| - 1];
      assert records == init + [b];
      ReloadIndexIs(init, slug);
      B.ReloadSnoc(init, b);
    }
  }

  ghost predicate IsLastWith(records: seq<BoardData>, slug: string, i: nat) {
    && i < |records| && records[i].slug == slug && LastWith(records, slug) == Some(records[i].id)
    && forall j :: i < j < |records| ==> records[j].slug != slug
  }

  // It is the board at some position, and no later board has the slug.
  lemma {:induction false} LastWithIs(records: seq<BoardData>, slug: string) returns (i: nat)
    requires LastWith(records, slug).Some?
    ensures IsLastWith(records, slug, i)
  {
    var n := |records| - 1;
    if records[n].slug == slug {
      i := n;
    } else {
      var init := records[..n];
      i := LastWithIs(init, slug);
      forall j | i < j < |records| ensures records[j].slug != slug {
        if j < n { assert init[j] == records[j]; }
      }
    }
  }

  // The board is the last holder of the slug in the order of a flush.
  ghost predicate LastHolder(items: map<string, BoardData>, id: string, slug: string) {
    && B.HoldsSlug(items, id, slug)
    && forall a :: B.HoldsSlug(items, a, slug) && a != id ==> B.ListedBefore(items[a], items[id])
  }

  // Each held slug is indexed, and each indexed slug leads to its last holder.
  ghost predicate LeadsToLast(s: B.Boards) {
    && (forall id :: id in s.items && s.items[id].slug != "" ==> s.items[id].slug in s.slugIdx)
    && (forall slug :: slug in s.slugIdx ==> LastHolder(s.items, s.slugIdx[slug], slug))
  }

  lemma LastHolderUnique(items: map<string, BoardData>, a: string, b: string, slug: string)
    requires LastHolder(items, a, slug) && LastHolder(items, b, slug)
    ensures a == b
  {
    B.OrderIsStrict();
  }

  lemma ReloadLeadsToLast(items: map<string, BoardData>)
    requires B.Keyed(items)
    ensures B.Reload(Flushed(items)).items == items && LeadsToLast(B.Reload(Flushed(items)))
  {
    var records := Flushed(items);
    B.ReloadListing(items, records);
    var idx := B.Reload(records).slugIdx;
    forall i | 0 <= i < |records| ensures records[i].id != "" {
      assert records[i] in records;
    }
    forall slug | slug in idx ensures LastHolder(items, idx[slug], slug) {
      ReloadIndexIs(records, slug);
      SortedLast(items, records, slug);
    }
  }

  lemma SortedLast(items: map<string, BoardData>, records: seq<BoardData>, slug: string)
    requires B.Keyed(items) && T.Lists(B.BySchema(), records, items) && SortedBy(B.ListedBefore, records)
    requires slug != "" && LastWith(records, slug).Some?
    ensures LastHolder(items, LastWith(records, slug).value, slug)
  {
    var i := LastWithIs(records, slug);
    B.OrderIsStrict();
    assert records[i] in records;
    forall a | B.HoldsSlug(items, a, slug) && a != records[i].id ensures B.ListedBefore(items[a], records[i]) {
      assert items[a] in records;
      var j :| 0 <= j < |records| && records[j] == items[a];
      assert j < i;
    }
  }

  /** A flush and a load keep the slug index if and only if each held slug is indexed and leads
      to its last holder in the order of the file: an index that is wrong in no other way than
      that two boards hold one slug survives if it leads to the later one. */
  lemma SaveKeepsSlugsIff(s: B.Boards)
    requires B.Keyed(s.items)
    ensures B.Reload(Flushed(s.items)) == s <==> LeadsToLast(s)
  {
    ReloadLeadsToLast(s.items);
    var again := B.Reload(Flushed(s.items));
    if LeadsToLast(s) {
      forall slug | slug in s.slugIdx ensures slug in again.slugIdx && again.slugIdx[slug] == s.slugIdx[slug] {
        assert LastHolder(s.items, s.slugIdx[slug], slug);
        assert s.items[s.slugIdx[slug]].slug in again.slugIdx;
        LastHolderUnique(s.items, again.slugIdx[slug], s.slugIdx[slug], slug);
      }
      forall slug | slug in again.slugIdx ensures slug in s.slugIdx {
        assert LastHolder(s.items, again.slugIdx[slug], slug);
      }
      assert again.slugIdx == s.slugIdx;
    }
  }
}

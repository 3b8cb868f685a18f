/** MemoryThreadStore of internal/store/memory_thread.go. Each method is one critical
    section. The records it holds are heap objects that no caller can reach. */
module ThreadStore {
  import opened Common
  import opened Entities
  import opened Sorting
  import opened T = IndexedTable

  function IdOf(t: ThreadData): string { t.id }

  function BoardOf(t: ThreadData): string { t.boardID }

  function BySchema(): Schema<ThreadData> {
    Schema(IdOf, BoardOf)
  }

  // The value of each record of a heap map.
  ghost function Values(items: map<string, Thread>): map<string, ThreadData>
    reads items.Values
  {
    map id | id in items :: items[id].Value()
  }

  // Each record carries the identifier it is filed under.
  ghost predicate Filed(items: map<string, Thread>)
    reads items.Values
  {
    forall id :: id in items ==> id != "" && items[id].id == id
  }

  lemma FiledIsKeyed(items: map<string, Thread>, index: map<string, seq<string>>)
    requires Filed(items)
    ensures Keyed(BySchema(), Table(Values(items), index))
  {
  }

  lemma FileRecord(items: map<string, Thread>, id: string, x: Thread)
    requires Distinct(items) && Filed(items) && x !in items.Values && x.id == id != ""
    ensures Distinct(items[id := x]) && Filed(items[id := x])
    ensures Values(items[id := x]) == Values(items)[id := x.Value()]
  {
    DistinctPut(items, id, x);
  }

  lemma DropRecord(items: map<string, Thread>, id: string)
    requires Distinct(items) && Filed(items)
    ensures Distinct(items - {id}) && Filed(items - {id})
    ensures Values(items - {id}) == Values(items) - {id}
  {
  }

  ghost function ValueSeq(ts: seq<Thread>): (r: seq<ThreadData>)
    reads ts
    ensures |r| == |ts|
  {
    if ts == [] then [] else ValueSeq(ts[..|ts| - 1]) + [ts[|ts| - 1].Value()]
  }

  // What IncrementViewCount does to the state.
  function View(t: Table<ThreadData>, id: string): (Table<ThreadData>, Status) {
    if id !in t.items then (t, Failed(NotFound))
    else (t.(items := t.items[id := t.items[id].(viewCount := t.items[id].viewCount + 1)]), Done)
  }

  /** Counting a view, done in place, is an update that keeps the record in its board: the
      theorems about runs of table operations cover it. */
  lemma ViewIsUpdate(t: Table<ThreadData>, id: string)
    requires Keyed(BySchema(), t) && id in t.items
    ensures var op := OpUpdate(t.items[id].(viewCount := t.items[id].viewCount + 1));
            View(t, id).0 == T.Apply(BySchema(), t, op) && KeepsGroup(BySchema(), t, op)
  {
    assert IdOf(t.items[id]) == BySchema().key(t.items[id]) == id;
  }

  /** It answers whether there is such a thread, adds one view to it and changes nothing else. */
  lemma ViewAnswers(t: Table<ThreadData>, id: string)
    ensures var (t', st) := View(t, id);
            && (st == Failed(NotFound) <==> id !in t.items) && (st == Done <==> id in t.items)
            && t'.index == t.index && t'.items.Keys == t.items.Keys
            && (forall k :: k in t.items ==>
                  t'.items[k] == t.items[k].(viewCount := t.items[k].viewCount + if k == id then 1 else 0))
  {
  }

  // ---- Orders ----

  // The time a thread was last active: its last reply, or its creation.
  function Activity(t: ThreadData): int {
    if t.lastReplyAt.Some? then t.lastReplyAt.value else t.createdAt
  }

  lemma InsertIs(t: Table<ThreadData>, v: ThreadData)
    ensures T.Insert(BySchema(), t, v)
         == Table(t.items[v.id := v], t.index[v.boardID := Bucket(t, v.boardID) + [v.id]])
  {
  }

  // The comparator of List.
  predicate ListedBefore(a: ThreadData, b: ThreadData) {
    if a.isPinned != b.isPinned then a.isPinned else Activity(a) > Activity(b)
  }

  // The comparator of flush.
  predicate SavedBefore(a: ThreadData, b: ThreadData) {
    if a.isPinned != b.isPinned then a.isPinned else a.createdAt < b.createdAt
  }

  lemma OrdersAreWeak()
    ensures StrictWeakOrder(ListedBefore) && StrictWeakOrder(SavedBefore)
  {
  }

  /** A listing is sorted exactly when every pinned thread comes before every other one and,
      within each of the two blocks, times never increase: the time of a thread is that of its
      last reply, or of its creation if it has none. */
  lemma ListingShape(s: seq<ThreadData>)
    ensures SortedBy(ListedBefore, s)
       <==> forall i, j :: 0 <= i < j < |s| ==>
              && (s[j].isPinned ==> s[i].isPinned)
              && (s[i].isPinned == s[j].isPinned ==>
                    match (s[i].lastReplyAt, s[j].lastReplyAt)
                    case (Some(x), Some(y)) => x >= y
                    case (Some(x), None) => x >= s[j].createdAt
                    case (None, Some(y)) => s[i].createdAt >= y
                    case (None, None) => s[i].createdAt >= s[j].createdAt)
  {
  }

  /** A reply lifts its thread above every other one of its block with earlier times. */
  lemma ReplyLifts(a: ThreadData, b: ThreadData, at: int)
    requires a.isPinned == b.isPinned && at > b.createdAt
    requires b.lastReplyAt.Some? ==> at > b.lastReplyAt.value
    ensures ListedBefore(Replied(a, at), b) && !ListedBefore(b, Replied(a, at))
  {
  }

  /** A file is sorted exactly when every pinned thread comes before every other one and,
      within each of the two blocks, creation times never decrease. */
  lemma SavedShape(s: seq<ThreadData>)
    ensures SortedBy(SavedBefore, s)
       <==> forall i, j :: 0 <= i < j < |s| ==>
              && (s[j].isPinned ==> s[i].isPinned)
              && (s[i].isPinned == s[j].isPinned ==> s[i].createdAt <= s[j].createdAt)
  {
  }

  function Keep(f: ThreadFilter): ThreadData -> bool {
    (t: ThreadData) => ThreadMatches(f, t)
  }

  // A full scan: every matching record.
  ghost function Matching(t: Table<ThreadData>, f: ThreadFilter): set<ThreadData> {
    set r | r in t.items.Values && ThreadMatches(f, r)
  }

  function All(): ThreadData -> bool {
    (t: ThreadData) => true
  }

  // What List visits: the index entry of the board, or every key in some order.
  ghost predicate Visits(t: Table<ThreadData>, f: ThreadFilter, ids: seq<string>) {
    if f.boardID != "" then ids == Bucket(t, f.boardID)
    else NoDup(ids) && forall id :: id in ids <==> id in t.items
  }

  // List meets no identifier without a record.
  ghost predicate Listable(t: Table<ThreadData>, f: ThreadFilter) {
    f.boardID != "" ==> forall id :: id in Bucket(t, f.boardID) ==> id in t.items
  }

  /** What List answers: the matching records behind the index entry of the board, or all
      matching records, sorted; with an exact index they are all matching records, too. */
  ghost predicate IsListing(t: Table<ThreadData>, f: ThreadFilter, rows: seq<ThreadData>)
    requires Listable(t, f)
  {
    && SortedBy(ListedBefore, rows)
    && (f.boardID != "" ==> multiset(rows) == multiset(Select(t.items, Keep(f), Bucket(t, f.boardID))))
    && ((f.boardID != "" ==> Exact(BySchema(), t)) ==> multiset(rows) == multiset(Matching(t, f)))
  }

  /** An exact index names only records that exist: List never meets a missing one. */
  lemma ListedIdsExist(t: Table<ThreadData>, board: string)
    requires Exact(BySchema(), t)
    ensures forall id :: id in Bucket(t, board) ==> id in t.items
  {
    assert forall id :: id in Bucket(t, board) <==> InGroup(BySchema(), t, id, board);
  }

  /** Whatever it visits, List sorts the matching records behind the visited identifiers; with
      an exact index they are the records a full scan would find. */
  lemma ListingFromIds(t: Table<ThreadData>, f: ThreadFilter, ids: seq<string>)
    requires Keyed(BySchema(), t) && Visits(t, f, ids)
    requires forall id :: id in ids ==> id in t.items
    ensures SortedBy(ListedBefore, Sort(ListedBefore, Select(t.items, Keep(f), ids)))
    ensures (f.boardID != "" ==> Exact(BySchema(), t))
            ==> multiset(Select(t.items, Keep(f), ids)) == multiset(Matching(t, f))
  {
    OrdersAreWeak();
    hide Select, Sort, Matching, SortedBy, StrictWeakOrder;
    SortSorted(ListedBefore, Select(t.items, Keep(f), ids));
    if f.boardID != "" ==> Exact(BySchema(), t) {
      CoversMatches(t, f, ids);
      hide *;
      SelectIsScan(BySchema(), t.items, Keep(f), ids);
      KeepIsMatch(t, f);
    }
  }

  lemma KeepIsMatch(t: Table<ThreadData>, f: ThreadFilter)
    ensures (set r | r in t.items.Values && Keep(f)(r)) == Matching(t, f)
  {
    hide ThreadMatches;
  }

  lemma CoversMatches(t: Table<ThreadData>, f: ThreadFilter, ids: seq<string>)
    requires Visits(t, f, ids) && (f.boardID != "" ==> Exact(BySchema(), t))
    requires Keyed(BySchema(), t)
    ensures NoDup(ids) && forall id :: id in t.items && Keep(f)(t.items[id]) ==> id in ids
    ensures Keyed(BySchema(), Table(t.items, map[]))
  {
    if f.boardID != "" {
      assert forall id :: id in ids <==> InGroup(BySchema(), t, id, f.boardID);
    }
  }

  lemma SnapshotLists(t: Table<ThreadData>, ids: seq<string>)
    requires Keyed(BySchema(), t) && NoDup(ids) && forall id :: id in ids <==> id in t.items
    ensures var records := Sort(SavedBefore, Select(t.items, All(), ids));
            Lists(BySchema(), records, t.items) && SortedBy(SavedBefore, records)
  {
    var found := Select(t.items, All(), ids);
    OrdersAreWeak();
    SelectMembers(BySchema(), t.items, All(), ids);
    SortSorted(SavedBefore, found);
    PermutationLists(BySchema(), found, Sort(SavedBefore, found), t.items);
  }

  class MemoryThreadStore {
    var items: map<string, Thread>
    var boardIdx: map<string, seq<string>>
    var dirty: bool

    ghost function State(): Table<ThreadData>
      reads this, items.Values
    {
      Table(Values(items), boardIdx)
    }

    // Every record is an object of its own, filed under its identifier.
    ghost predicate Valid()
      reads this, items.Values
    {
      Distinct(items) && Filed(items)
    }

    // The file is what could be read from the path: none without a path, without a file or
    // if it cannot be decoded, which is only logged. The save loop is part of the protocol.
    constructor (file: Option<seq<Option<ThreadData>>>)
      ensures Valid() && fresh(items.Values) && !dirty
      ensures State() == if file.Some? then T.Load(BySchema(), Empty(), file.value) else Empty()
    {
      items, boardIdx, dirty := map[], map[], false;
      new;
      assert State() == Empty();
      if file.Some? {
        Load(file.value);
      }
    }

    method Create(t: Thread?) returns (st: Status)
      requires Valid()
      modifies this
      ensures Valid() && fresh(items.Values - old(items.Values))
      ensures (State(), st) == if t == null then (old(State()), Failed(InvalidInput))
                               else T.Create(BySchema(), old(State()), t.Value())
      ensures dirty == (old(dirty) || st.Done?)
    {
      if t == null || t.id == "" {
        return Failed(InvalidInput);
      }
      if t.id in items {
        return Failed(AlreadyExists);
      }
      InsertIs(State(), t.Value());
      Put(t);
      boardIdx := boardIdx[t.boardID := (if t.boardID in boardIdx then boardIdx[t.boardID] else []) + [t.id]];
      return Done;
    }

    // Files a clone in place of any record under its identifier.
    method Put(t: Thread)
      requires Valid() && t.id != ""
      modifies this`items, this`dirty
      ensures Valid() && fresh(items.Values - old(items.Values)) && dirty
      ensures Values(items) == old(Values(items))[t.id := t.Value()]
    {
      hide Distinct, Filed, Values;
      var cp := t.Clone();
      FileRecord(items, t.id, cp);
      items := items[t.id := cp];
      dirty := true;
    }

    method GetByID(id: string) returns (r: Result<Thread>)
      requires Valid()
      ensures r.Ok? ==> fresh(r.value)
      ensures (if r.Ok? then Ok(r.value.Value()) else Err(r.error)) == Lookup(State(), id)
    {
      if id !in items {
        return Err(NotFound);
      }
      var cp := items[id].Clone();
      return Ok(cp);
    }

    method Update(t: Thread?) returns (st: Status)
      requires Valid()
      modifies this
      ensures Valid() && fresh(items.Values - old(items.Values))
      ensures (State(), st) == if t == null then (old(State()), Failed(InvalidInput))
                               else T.Update(BySchema(), old(State()), t.Value())
      ensures dirty == (old(dirty) || st.Done?)
    {
      if t == null || t.id == "" {
        return Failed(InvalidInput);
      }
      if t.id !in items {
        return Failed(NotFound);
      }
      Put(t);
      return Done;
    }

    method Delete(id: string) returns (st: Status)
      requires Valid()
      modifies this
      ensures Valid() && items.Values <= old(items.Values)
      ensures (State(), st) == T.Delete(BySchema(), old(State()), id)
      ensures dirty == (old(dirty) || st.Done?)
    {
      if id !in items {
        return Failed(NotFound);
      }
      Unindex(items[id].boardID, id);
      hide RemoveFirst, Distinct, Filed;
      Drop(id);
      return Done;
    }

    // Takes the record out of the map.
    method Drop(id: string)
      requires Valid()
      modifies this`items, this`dirty
      ensures Valid() && items.Values <= old(items.Values) && dirty
      ensures Values(items) == old(Values(items)) - {id}
    {
      DropRecord(items, id);
      hide *;
      items := items - {id};
      dirty := true;
    }

    // Splices the first occurrence of the identifier out of the board's index entry.
    method Unindex(board: string, id: string)
      modifies this`boardIdx
      ensures var ids := if board in old(boardIdx) then old(boardIdx)[board] else [];
              boardIdx == if id in ids then old(boardIdx)[board := RemoveFirst(ids, id)] else old(boardIdx)
    {
      var ids := if board in boardIdx then boardIdx[board] else [];
      var i := 0;
      while i < |ids| && ids[i] != id
        invariant 0 <= i <= |ids| && id !in ids[..i]
      {
        i := i + 1;
      }
      if i < |ids| {
        RemoveFirstAt(ids, id, i);
        boardIdx := boardIdx[board := ids[..i] + ids[i + 1..]];
      }
    }

    // Changes one field of one record, in place.
    method IncrementViewCount(id: string) returns (st: Status)
      requires Valid()
      modifies this`dirty, items.Values
      ensures Valid() && items == old(items)
      ensures (State(), st) == View(old(State()), id)
      ensures dirty == (old(dirty) || st.Done?)
    {
      if id !in items {
        return Failed(NotFound);
      }
      var t := items[id];
      ghost var v := t.Value();
      t.viewCount := t.viewCount + 1;
      dirty := true;
      assert Values(items) == old(Values(items))[id := v.(viewCount := v.viewCount + 1)];
      return Done;
    }

    // Clones of the matching records, sorted. Go would dereference nil for an identifier in
    // the index entry that has no record.
    method List(f: ThreadFilter) returns (out: seq<Thread>)
      requires Valid() && Listable(State(), f)
      ensures NoDup(out) && forall t :: t in out ==> fresh(t)
      ensures IsListing(State(), f, ValueSeq(out))
    {
      hide Exact, SortedBy, Matching;
      var ids := Visited(f);
      var found := Collect(Keep(f), ids);
      FiledIsKeyed(items, boardIdx);
      assert f.boardID != "" ==> ids == Bucket(State(), f.boardID);
      ListingFromIds(State(), f, ids);
      assert IsListing(State(), f, Sort(ListedBefore, found));
      hide *;
      out := CloneAll(Sort(ListedBefore, found));
    }

    // The index entry of the board the filter names, or every key of the map.
    method Visited(f: ThreadFilter) returns (ids: seq<string>)
      requires Valid()
      requires Listable(State(), f)
      ensures Visits(State(), f, ids) && forall id :: id in ids ==> id in items
    {
      if f.boardID != "" {
        ids := if f.boardID in boardIdx then boardIdx[f.boardID] else [];
      } else {
        ids := KeysInSomeOrder(items);
      }
    }

    // The loop of List and flush: the records behind the identifiers that pass a filter.
    method Collect(keep: ThreadData -> bool, ids: seq<string>) returns (found: seq<ThreadData>)
      requires forall id :: id in ids ==> id in items
      ensures found == Select(State().items, keep, ids)
    {
      ghost var rows := State().items;
      found := [];
      for k := 0 to |ids|
        invariant forall id :: id in ids[..k] ==> id in rows
        invariant found == Select(rows, keep, ids[..k])
      {
        assert ids[..k + 1][..k] == ids[..k] && ids[k] in ids;
        var t := items[ids[k]];
        if keep(t.Value()) {
          found := found + [t.Value()];
        }
      }
      assert ids[..|ids|] == ids;
    }

    // The locked part of flush: a sorted copy of every record; dirty is cleared before
    // anything is written.
    method TakeSnapshot() returns (records: seq<ThreadData>)
      requires Valid()
      modifies this`dirty
      ensures !dirty && Valid() && State() == old(State())
      ensures Lists(BySchema(), records, State().items) && SortedBy(SavedBefore, records)
    {
      dirty := false;
      var ids := KeysInSomeOrder(items);
      assert Valid() && State() == old(State());
      var found := Collect(All(), ids);
      hide *;
      FiledIsKeyed(items, boardIdx);
      SnapshotLists(State(), ids);
      records := Sort(SavedBefore, found);
    }

    // The locked part of load.
    method Load(file: seq<Option<ThreadData>>)
      requires Valid()
      modifies this
      ensures Valid() && fresh(items.Values - old(items.Values)) && dirty == old(dirty)
      ensures State() == T.Load(BySchema(), old(State()), file)
    {
      ghost var before := State();
      for k := 0 to |file|
        invariant Valid() && fresh(items.Values - old(items.Values)) && dirty == old(dirty)
        invariant State() == T.Load(BySchema(), before, file[..k])
      {
        assert file[..k + 1][..k] == file[..k];
        if file[k].Some? && file[k].value.id != "" {
          Adopt(file[k].value);
        }
      }
      assert file[..|file|] == file;
    }

    // One record of the file, filed under its identifier and its board.
    method Adopt(v: ThreadData)
      requires Valid() && v.id != ""
      modifies this
      ensures Valid() && fresh(items.Values - old(items.Values)) && dirty == old(dirty)
      ensures State() == T.Insert(BySchema(), old(State()), v)
    {
      InsertIs(State(), v);
      hide T.Insert, Distinct, Filed, Values;
      var t := new Thread(v);
      FileRecord(items, v.id, t);
      items := items[v.id := t];
      boardIdx := boardIdx[v.boardID := (if v.boardID in boardIdx then boardIdx[v.boardID] else []) + [v.id]];
    }
  }

  method CloneAll(rows: seq<ThreadData>) returns (out: seq<Thread>)
    ensures NoDup(out) && forall t :: t in out ==> fresh(t)
    ensures ValueSeq(out) == rows
  {
    out := [];
    for k := 0 to |rows|
      invariant NoDup(out) && forall t :: t in out ==> fresh(t)
      invariant ValueSeq(out) == rows[..k]
    {
      var t := new Thread(rows[k]);
      assert (out + [t])[..|out|] == out;
      out := out + [t];
    }
  }

  /** A store saved and loaded into a new one: the same threads, and an exact board index. */
  method Reopen(store: MemoryThreadStore) returns (again: MemoryThreadStore)
    requires store.Valid()
    modifies store`dirty
    ensures again.Valid() && fresh(again) && again.State().items == old(store.State().items)
    ensures Exact(BySchema(), again.State())
  {
    FiledIsKeyed(store.items, store.boardIdx);
    var records := store.TakeSnapshot();
    SaveLoadRoundTrip(BySchema(), store.State(), records);
    hide T.Load, Exact, Lists;
    again := new MemoryThreadStore(Some(Encode(records)));
  }
}

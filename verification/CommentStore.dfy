/** MemoryCommentStore of internal/store/memory_comment.go: the thread store's scheme with
    a thread index, soft deletion in place, and no removal. */
module CommentStore {
  import opened Common
  import opened Entities
  import opened Sorting
  import opened T = IndexedTable

  function IdOf(c: CommentData): string { c.id }

  function ThreadOf(c: CommentData): string { c.threadID }

  function BySchema(): Schema<CommentData> {
    Schema(IdOf, ThreadOf)
  }

  ghost function Values(items: map<string, Comment>): map<string, CommentData>
    reads items.Values
  {
    map id | id in items :: items[id].Value()
  }

  // Each record carries the identifier it is filed under.
  ghost predicate Filed(items: map<string, Comment>)
    reads items.Values
  {
    forall id :: id in items ==> id != "" && items[id].id == id
  }

  lemma FiledIsKeyed(items: map<string, Comment>, index: map<string, seq<string>>)
    requires Filed(items)
    ensures Keyed(BySchema(), Table(Values(items), index))
  {
  }

  lemma FileRecord(items: map<string, Comment>, id: string, x: Comment)
    requires Distinct(items) && Filed(items) && x !in items.Values && x.id == id != ""
    ensures Distinct(items[id := x]) && Filed(items[id := x])
    ensures Values(items[id := x]) == Values(items)[id := x.Value()]
  {
    DistinctPut(items, id, x);
  }

  ghost function ValueSeq(cs: seq<Comment>): (r: seq<CommentData>)
    reads cs
    ensures |r| == |cs|
  {
    if cs == [] then [] else ValueSeq(cs[..|cs| - 1]) + [cs[|cs| - 1].Value()]
  }

  lemma InsertIs(t: Table<CommentData>, v: CommentData)
    ensures T.Insert(BySchema(), t, v)
         == Table(t.items[v.id := v], t.index[v.threadID := Bucket(t, v.threadID) + [v.id]])
  {
  }

  // What SoftDelete does to the state.
  function MarkDeleted(t: Table<CommentData>, id: string): (Table<CommentData>, Status) {
    if id !in t.items then (t, Failed(NotFound))
    else (t.(items := t.items[id := t.items[id].(isDeleted := true)]), Done)
  }

  /** Soft deletion, done in place, is an update that keeps the record in its thread. */
  lemma DeletionIsUpdate(t: Table<CommentData>, id: string)
    requires Keyed(BySchema(), t) && id in t.items
    ensures var op := OpUpdate(t.items[id].(isDeleted := true));
            MarkDeleted(t, id).0 == T.Apply(BySchema(), t, op) && KeepsGroup(BySchema(), t, op)
  {
    assert IdOf(t.items[id]) == BySchema().key(t.items[id]) == id;
  }

  /** It answers whether there is such a comment, marks it deleted and changes nothing else. */
  lemma DeletionAnswers(t: Table<CommentData>, id: string)
    ensures var (t', st) := MarkDeleted(t, id);
            && (st == Failed(NotFound) <==> id !in t.items) && (st == Done <==> id in t.items)
            && t'.index == t.index && t'.items.Keys == t.items.Keys
            && (forall k :: k in t.items ==>
                  t'.items[k] == t.items[k].(isDeleted := t.items[k].isDeleted || k == id))
  {
  }

  // ---- Orders ----

  predicate Older(a: CommentData, b: CommentData) { a.createdAt < b.createdAt }

  predicate Newer(a: CommentData, b: CommentData) { a.createdAt > b.createdAt }

  predicate Better(a: CommentData, b: CommentData) { Score(a) > Score(b) }

  // The comparator the filter asks for; anything unknown means newest first.
  function Comparator(f: CommentFilter): (CommentData, CommentData) -> bool {
    if f.sortBy == "oldest" then Older else if f.sortBy == "score" then Better else Newer
  }

  lemma ComparatorsAreWeak(f: CommentFilter)
    ensures StrictWeakOrder(Comparator(f)) && StrictWeakOrder(Older)
  {
  }

  /** What each order promises of a listing. */
  lemma ListingShape(f: CommentFilter, s: seq<CommentData>)
    ensures SortedBy(Comparator(f), s)
       <==> forall i, j :: 0 <= i < j < |s| ==>
              if f.sortBy == "oldest" then s[i].createdAt <= s[j].createdAt
              else if f.sortBy == "score" then s[i].upvotes - s[i].downvotes >= s[j].upvotes - s[j].downvotes
              else s[i].createdAt >= s[j].createdAt
  {
  }

  /** A file is sorted exactly when creation times never decrease. */
  lemma SavedShape(s: seq<CommentData>)
    ensures SortedBy(Older, s) <==> forall i, j :: 0 <= i < j < |s| ==> s[i].createdAt <= s[j].createdAt
  {
  }

  // ---- Listing ----

  function Keep(f: CommentFilter): CommentData -> bool {
    (c: CommentData) => CommentKept(f, c)
  }

  function All(): CommentData -> bool {
    (c: CommentData) => true
  }

  // A full scan: the thread the filter names, if any, and the rest of the filter.
  ghost function Matching(t: Table<CommentData>, f: CommentFilter): set<CommentData> {
    set r | r in t.items.Values && (f.threadID != "" ==> r.threadID == f.threadID) && CommentKept(f, r)
  }

  ghost predicate Visits(t: Table<CommentData>, f: CommentFilter, ids: seq<string>) {
    if f.threadID != "" then ids == Bucket(t, f.threadID)
    else NoDup(ids) && forall id :: id in ids <==> id in t.items
  }

  // List meets no identifier without a record.
  ghost predicate Listable(t: Table<CommentData>, f: CommentFilter) {
    f.threadID != "" ==> forall id :: id in Bucket(t, f.threadID) ==> id in t.items
  }

  /** What List answers: the matching records behind the index entry of the thread, or all
      matching records, sorted; with an exact index they are all matching records, too. */
  ghost predicate IsListing(t: Table<CommentData>, f: CommentFilter, rows: seq<CommentData>)
    requires Listable(t, f)
  {
    && SortedBy(Comparator(f), rows)
    && (f.threadID != "" ==> multiset(rows) == multiset(Select(t.items, Keep(f), Bucket(t, f.threadID))))
    && ((f.threadID != "" ==> Exact(BySchema(), t)) ==> multiset(rows) == multiset(Matching(t, f)))
  }

  // What the filter's documentation promises: true means only top-level comments.
  predicate DocumentedKept(f: CommentFilter, c: CommentData) {
    CommentKept(f.(parentID := None), c) && (f.parentID.Some? ==> (f.parentID.value <==> c.parentID.None?))
  }

  ghost function DocumentedMatching(t: Table<CommentData>, f: CommentFilter): set<CommentData> {
    set r | r in t.items.Values && (f.threadID != "" ==> r.threadID == f.threadID) && DocumentedKept(f, r)
  }

  /** A listing by parent holds what the documentation promises if and only if neither holds
      anything: the two keep opposite comments. */
  lemma ParentFilterIff(t: Table<CommentData>, f: CommentFilter)
    requires f.parentID.Some?
    ensures Matching(t, f) == DocumentedMatching(t, f) <==> Matching(t, f) == {} && DocumentedMatching(t, f) == {}
    ensures Matching(t, f) + DocumentedMatching(t, f) == Matching(t, f.(parentID := None))
  {
    assert Matching(t, f) !! DocumentedMatching(t, f);
    if Matching(t, f) == DocumentedMatching(t, f) {
      assert Matching(t, f) * DocumentedMatching(t, f) == Matching(t, f);
    }
  }

  // An exact index visits exactly the records of the thread.
  lemma VisitsExactly(t: Table<CommentData>, f: CommentFilter, ids: seq<string>)
    requires Visits(t, f, ids) && (f.threadID != "" ==> Exact(BySchema(), t))
    ensures NoDup(ids)
    ensures forall id :: id in ids <==> id in t.items && (f.threadID != "" ==> t.items[id].threadID == f.threadID)
  {
    if f.threadID != "" {
      assert forall id :: id in ids <==> InGroup(BySchema(), t, id, f.threadID);
    }
  }

  /** Whatever it visits, List sorts the matching records behind the visited identifiers; with
      an exact index they are the records a full scan would find. */
  lemma ListingFromIds(t: Table<CommentData>, f: CommentFilter, ids: seq<string>)
    requires Keyed(BySchema(), t) && Visits(t, f, ids)
    requires forall id :: id in ids ==> id in t.items
    ensures SortedBy(Comparator(f), Sort(Comparator(f), Select(t.items, Keep(f), ids)))
    ensures (f.threadID != "" ==> Exact(BySchema(), t))
            ==> multiset(Select(t.items, Keep(f), ids)) == multiset(Matching(t, f))
  {
    ComparatorsAreWeak(f);
    hide Select, Sort, Matching, SortedBy, StrictWeakOrder, Comparator;
    SortSorted(Comparator(f), Select(t.items, Keep(f), ids));
    if f.threadID != "" ==> Exact(BySchema(), t) {
      SelectedAreMatching(t, f, ids);
    }
  }

  lemma SelectedAreMatching(t: Table<CommentData>, f: CommentFilter, ids: seq<string>)
    requires Keyed(BySchema(), t) && Visits(t, f, ids) && (f.threadID != "" ==> Exact(BySchema(), t))
    requires forall id :: id in ids ==> id in t.items
    ensures multiset(Select(t.items, Keep(f), ids)) == multiset(Matching(t, f))
  {
    var found := Select(t.items, Keep(f), ids);
    VisitsExactly(t, f, ids);
    SelectMembers(BySchema(), t.items, Keep(f), ids);
    FoundAreMatching(t, f, ids, found);
    hide *;
    NoDupMultiset(found);
  }

  lemma FoundAreMatching(t: Table<CommentData>, f: CommentFilter, ids: seq<string>, found: seq<CommentData>)
    requires Keyed(BySchema(), t)
    requires forall id :: id in ids <==> id in t.items && (f.threadID != "" ==> t.items[id].threadID == f.threadID)
    requires forall i :: 0 <= i < |found| ==>
               Keep(f)(found[i]) && found[i].id in ids && t.items[found[i].id] == found[i]
    requires forall id :: id in ids && Keep(f)(t.items[id]) ==> t.items[id] in found
    ensures (set r | r in found) == Matching(t, f)
  {
    hide CommentKept;
  }

  lemma SnapshotLists(t: Table<CommentData>, ids: seq<string>)
    requires Keyed(BySchema(), t) && NoDup(ids) && forall id :: id in ids <==> id in t.items
    ensures var records := Sort(Older, Select(t.items, All(), ids));
            Lists(BySchema(), records, t.items) && SortedBy(Older, records)
  {
    var found := Select(t.items, All(), ids);
    ComparatorsAreWeak(CommentFilter("", None, "", "oldest"));
    SelectMembers(BySchema(), t.items, All(), ids);
    SortSorted(Older, found);
    PermutationLists(BySchema(), found, Sort(Older, found), t.items);
  }

  class MemoryCommentStore {
    var items: map<string, Comment>
    var threadIdx: map<string, seq<string>>
    var dirty: bool

    ghost function State(): Table<CommentData>
      reads this, items.Values
    {
      Table(Values(items), threadIdx)
    }

    ghost predicate Valid()
      reads this, items.Values
    {
      Distinct(items) && Filed(items)
    }

    // The file is what could be read from the path: none without a path, without a file or
    // if it cannot be decoded, which is only logged. The save loop is part of the protocol.
    constructor (file: Option<seq<Option<CommentData>>>)
      ensures Valid() && fresh(items.Values) && !dirty
      ensures State() == if file.Some? then T.Load(BySchema(), Empty(), file.value) else Empty()
    {
      items, threadIdx, dirty := map[], map[], false;
      new;
      assert State() == Empty();
      if file.Some? {
        Load(file.value);
      }
    }

    method Create(c: Comment?) returns (st: Status)
      requires Valid()
      modifies this
      ensures Valid() && fresh(items.Values - old(items.Values))
      ensures (State(), st) == if c == null then (old(State()), Failed(InvalidInput))
                               else T.Create(BySchema(), old(State()), c.Value())
      ensures dirty == (old(dirty) || st.Done?)
    {
      if c == null || c.id == "" {
        return Failed(InvalidInput);
      }
      if c.id in items {
        return Failed(AlreadyExists);
      }
      InsertIs(State(), c.Value());
      Put(c);
      threadIdx := threadIdx[c.threadID := (if c.threadID in threadIdx then threadIdx[c.threadID] else []) + [c.id]];
      return Done;
    }

    // Files a clone in place of any record under its identifier.
    method Put(c: Comment)
      requires Valid() && c.id != ""
      modifies this`items, this`dirty
      ensures Valid() && fresh(items.Values - old(items.Values)) && dirty
      ensures Values(items) == old(Values(items))[c.id := c.Value()]
    {
      hide Distinct, Filed, Values;
      var cp := c.Clone();
      FileRecord(items, c.id, cp);
      items := items[c.id := cp];
      dirty := true;
    }

    method GetByID(id: string) returns (r: Result<Comment>)
      requires Valid()
      ensures r.Ok? ==> fresh(r.value)
      ensures (if r.Ok? then Ok(r.value.Value()) else Err(r.error)) == Lookup(State(), id)
    {
      if id !in items {
        return Err(NotFound);
      }
      var cp := items[id].Clone();
      return Ok(cp);
    }

    method Update(c: Comment?) returns (st: Status)
      requires Valid()
      modifies this
      ensures Valid() && fresh(items.Values - old(items.Values))
      ensures (State(), st) == if c == null then (old(State()), Failed(InvalidInput))
                               else T.Update(BySchema(), old(State()), c.Value())
      ensures dirty == (old(dirty) || st.Done?)
    {
      if c == null || c.id == "" {
        return Failed(InvalidInput);
      }
      if c.id !in items {
        return Failed(NotFound);
      }
      Put(c);
      return Done;
    }

    // Sets one field of one record, in place.
    method SoftDelete(id: string) returns (st: Status)
      requires Valid()
      modifies this`dirty, items.Values
      ensures Valid() && items == old(items)
      ensures (State(), st) == MarkDeleted(old(State()), id)
      ensures dirty == (old(dirty) || st.Done?)
    {
      if id !in items {
        return Failed(NotFound);
      }
      var c := items[id];
      ghost var v := c.Value();
      c.isDeleted := true;
      dirty := true;
      assert Values(items) == old(Values(items))[id := v.(isDeleted := true)];
      return Done;
    }

    // Clones of the matching records, sorted as the filter asks. Go would dereference nil for
    // an identifier in the index entry that has no record.
    method List(f: CommentFilter) returns (out: seq<Comment>)
      requires Valid() && Listable(State(), f)
      ensures NoDup(out) && forall c :: c in out ==> fresh(c)
      ensures IsListing(State(), f, ValueSeq(out))
    {
      hide Exact, SortedBy, Matching;
      var ids := Visited(f);
      var found := Collect(Keep(f), ids);
      FiledIsKeyed(items, threadIdx);
      assert f.threadID != "" ==> ids == Bucket(State(), f.threadID);
      ListingFromIds(State(), f, ids);
      assert IsListing(State(), f, Sort(Comparator(f), found));
      hide *;
      out := CloneAll(Sort(Comparator(f), found));
    }

    method Visited(f: CommentFilter) returns (ids: seq<string>)
      requires Valid()
      requires Listable(State(), f)
      ensures Visits(State(), f, ids) && forall id :: id in ids ==> id in items
    {
      if f.threadID != "" {
        ids := if f.threadID in threadIdx then threadIdx[f.threadID] else [];
      } else {
        ids := KeysInSomeOrder(items);
      }
    }

    method Collect(keep: CommentData -> bool, ids: seq<string>) returns (found: seq<CommentData>)
      requires forall id :: id in ids ==> id in items
      ensures found == Select(State().items, keep, ids)
    {
      ghost var rows := State().items;
      found := [];
      for k := 0 to |ids|
        invariant forall id :: id in ids[..k] ==> id in rows
        invariant found == Select(rows, keep, ids[..k])
      {
        assert ids[..k + 1][..k] == ids[..k] && ids[k] in ids;
        var c := items[ids[k]];
        if keep(c.Value()) {
          found := found + [c.Value()];
        }
      }
      assert ids[..|ids|] == ids;
    }

    method CountByThread(threadID: string) returns (n: nat)
      ensures n == |Bucket(State(), threadID)|
    {
      var ids := if threadID in threadIdx then threadIdx[threadID] else [];
      n := |ids|;
    }

    // The locked part of flush.
    method TakeSnapshot() returns (records: seq<CommentData>)
      requires Valid()
      modifies this`dirty
      ensures !dirty && Valid() && State() == old(State())
      ensures Lists(BySchema(), records, State().items) && SortedBy(Older, records)
    {
      dirty := false;
      var ids := KeysInSomeOrder(items);
      assert Valid() && State() == old(State());
      var found := Collect(All(), ids);
      hide *;
      FiledIsKeyed(items, threadIdx);
      SnapshotLists(State(), ids);
      records := Sort(Older, found);
    }

    // The locked part of load.
    method Load(file: seq<Option<CommentData>>)
      requires Valid()
      modifies this
      ensures Valid() && fresh(items.Values - old(items.Values)) && dirty == old(dirty)
      ensures State() == T.Load(BySchema(), old(State()), file)
    {
      ghost var before := State();
      for k := 0 to |file|
        invariant Valid() && fresh(items.Values - old(items.Values)) && dirty == old(dirty)
        invariant State() == T.Load(BySchema(), before, file[..k])
      {
        assert file[..k + 1][..k] == file[..k];
        if file[k].Some? && file[k].value.id != "" {
          Adopt(file[k].value);
        }
      }
      assert file[..|file|] == file;
    }

    method Adopt(v: CommentData)
      requires Valid() && v.id != ""
      modifies this
      ensures Valid() && fresh(items.Values - old(items.Values)) && dirty == old(dirty)
      ensures State() == T.Insert(BySchema(), old(State()), v)
    {
      InsertIs(State(), v);
      hide T.Insert, Distinct, Filed, Values;
      var c := new Comment(v);
      FileRecord(items, v.id, c);
      items := items[v.id := c];
      threadIdx := threadIdx[v.threadID := (if v.threadID in threadIdx then threadIdx[v.threadID] else []) + [v.id]];
    }
  }

  /** CountByThread is the number of stored comments of the thread, deleted ones included. */
  lemma CountIsScan(t: Table<CommentData>, threadID: string)
    requires Exact(BySchema(), t)
    ensures |Bucket(t, threadID)| == |set id | id in t.items && t.items[id].threadID == threadID|
  {
    var ids := Bucket(t, threadID);
    NoDupMultiset(ids);
    assert forall id :: id in ids <==> InGroup(BySchema(), t, id, threadID);
    assert (set id | id in ids) == (set id | id in t.items && t.items[id].threadID == threadID);
    assert |ids| == |multiset(ids)| == |set id | id in ids|;
  }

  method CloneAll(rows: seq<CommentData>) returns (out: seq<Comment>)
    ensures NoDup(out) && forall c :: c in out ==> fresh(c)
    ensures ValueSeq(out) == rows
  {
    out := [];
    for k := 0 to |rows|
      invariant NoDup(out) && forall c :: c in out ==> fresh(c)
      invariant ValueSeq(out) == rows[..k]
    {
      var c := new Comment(rows[k]);
      assert (out + [c])[..|out|] == out;
      out := out + [c];
    }
  }

  /** A store saved and loaded into a new one: the same comments, and an exact thread index. */
  method Reopen(store: MemoryCommentStore) returns (again: MemoryCommentStore)
    requires store.Valid()
    modifies store`dirty
    ensures again.Valid() && fresh(again) && again.State().items == old(store.State().items)
    ensures Exact(BySchema(), again.State())
  {
    FiledIsKeyed(store.items, store.threadIdx);
    var records := store.TakeSnapshot();
    SaveLoadRoundTrip(BySchema(), store.State(), records);
    hide T.Load, Exact, Lists;
    again := new MemoryCommentStore(Some(Encode(records)));
  }
}

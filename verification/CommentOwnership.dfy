/** Record ownership in the comment store, whose soft deletion changes a record in place: as
    in the thread store, a caller may keep every record it passed in or got back and overwrite
    it at will, and the store behaves as if only values had been exchanged. */
module CommentOwnership {
  import opened Common
  import opened Entities
  import opened CommentStore
  import T = IndexedTable

  // What a caller does: allocate a record, overwrite a record it holds, or call the store
  // with a record it holds. Records it receives are kept, too.
  datatype Action =
    | Allocate(v: CommentData)
    | Overwrite(h: nat, v: CommentData)
    | CallCreate(h: nat)
    | CallUpdate(h: nat)
    | CallGet(id: string)
    | CallSoftDelete(id: string)
    | CallList(f: CommentFilter)

  // The same world without any sharing: the store's table and the caller's own values.
  datatype World = World(table: T.Table<CommentData>, held: seq<CommentData>)

  // The rows are what the store answers if it is asked for a listing: their order is not
  // determined where the comparator does not decide. Go panics where the table is not listable.
  ghost function Act(w: World, a: Action, rows: seq<CommentData>): World {
    match a
    case Allocate(v) => w.(held := w.held + [v])
    case Overwrite(h, v) => if h < |w.held| then w.(held := w.held[h := v]) else w
    case CallCreate(h) => if h < |w.held| then w.(table := T.Create(BySchema(), w.table, w.held[h]).0) else w
    case CallUpdate(h) => if h < |w.held| then w.(table := T.Update(BySchema(), w.table, w.held[h]).0) else w
    case CallGet(id) => if id in w.table.items then w.(held := w.held + [w.table.items[id]]) else w
    case CallSoftDelete(id) => w.(table := MarkDeleted(w.table, id).0)
    case CallList(f) => if Listable(w.table, f) then w.(held := w.held + rows) else w
  }

  // The rows are a listing of the table, if one was asked for.
  ghost predicate Answers(w: World, a: Action, rows: seq<CommentData>) {
    a.CallList? && Listable(w.table, a.f) ==> IsListing(w.table, a.f, rows)
  }

  ghost function ActAll(w: World, actions: seq<Action>, listings: seq<seq<CommentData>>): World
    requires |listings| == |actions|
  {
    if actions == [] then w
    else
      var n := |actions| - 1;
      Act(ActAll(w, actions[..n], listings[..n]), actions[n], listings[n])
  }

  ghost predicate AllAnswer(w: World, actions: seq<Action>, listings: seq<seq<CommentData>>)
    requires |listings| == |actions|
  {
    forall k :: 0 <= k < |actions| ==> Answers(ActAll(w, actions[..k], listings[..k]), actions[k], listings[k])
  }

  lemma AllAnswerSnoc(w: World, actions: seq<Action>, listings: seq<seq<CommentData>>,
                      a: Action, rows: seq<CommentData>)
    requires |listings| == |actions| && AllAnswer(w, actions, listings)
    requires Answers(ActAll(w, actions, listings), a, rows)
    ensures AllAnswer(w, actions + [a], listings + [rows])
    ensures ActAll(w, actions + [a], listings + [rows]) == Act(ActAll(w, actions, listings), a, rows)
  {
    var actions', listings' := actions + [a], listings + [rows];
    assert forall k :: 0 <= k <= |actions| ==> actions'[..k] == actions[..k] && listings'[..k] == listings[..k];
    assert actions[..|actions|] == actions && listings[..|actions|] == listings;
    hide Act, Answers;
  }

  ghost predicate Separate(store: MemoryCommentStore, held: seq<Comment>)
    reads store
  {
    NoDup(held) && forall c :: c in held ==> c !in store.items.Values
  }

  lemma {:induction false} ValueAt(ts: seq<Comment>, i: nat)
    requires i < |ts|
    ensures ValueSeq(ts)[i] == ts[i].Value()
  {
    if i < |ts| - 1 {
      ValueAt(ts[..|ts| - 1], i);
    }
  }

  lemma ValueSnoc(ts: seq<Comment>, c: Comment)
    ensures ValueSeq(ts + [c]) == ValueSeq(ts) + [c.Value()]
  {
    assert (ts + [c])[..|ts|] == ts;
  }

  lemma {:induction false} ValueAppend(ts: seq<Comment>, us: seq<Comment>)
    ensures ValueSeq(ts + us) == ValueSeq(ts) + ValueSeq(us)
  {
    if us == [] {
      assert ts + us == ts;
    } else {
      var init := us[..|us| - 1];
      assert (ts + us)[..|ts + us| - 1] == ts + init;
      ValueAppend(ts, init);
    }
  }

  method Assign(c: Comment, v: CommentData)
    modifies c
    ensures c.Value() == v
  {
    c.id, c.threadID, c.parentID, c.authorID, c.body := v.id, v.threadID, v.parentID, v.authorID, v.body;
    c.upvotes, c.downvotes, c.isDeleted := v.upvotes, v.downvotes, v.isDeleted;
    c.createdAt, c.updatedAt := v.createdAt, v.updatedAt;
  }

  method OverwriteHeld(held: seq<Comment>, h: nat, v: CommentData)
    requires NoDup(held) && h < |held|
    modifies held[h]
    ensures ValueSeq(held) == old(ValueSeq(held))[h := v]
  {
    forall i | 0 <= i < |held| ensures ValueSeq(held)[i] == held[i].Value() {
      ValueAt(held, i);
    }
    Assign(held[h], v);
    forall i | 0 <= i < |held| ensures ValueSeq(held)[i] == held[i].Value() {
      ValueAt(held, i);
    }
  }

  // One action of the caller, on the heap.
  method Step(store: MemoryCommentStore, held: seq<Comment>, a: Action)
    returns (held': seq<Comment>, ghost rows: seq<CommentData>)
    requires store.Valid() && Separate(store, held)
    modifies store, store.items.Values, held
    ensures store.Valid() && Separate(store, held')
    ensures fresh(store.items.Values - old(store.items.Values))
    ensures fresh((set c | c in held') - (set c | c in held))
    ensures Answers(old(World(store.State(), ValueSeq(held))), a, rows)
    ensures World(store.State(), ValueSeq(held')) == Act(old(World(store.State(), ValueSeq(held))), a, rows)
  {
    hide T.Create, T.Update, MarkDeleted, ValueSeq, Distinct, Filed, Values, Listable, IsListing;
    held', rows := held, [];
    match a {
      case Allocate(v) =>
        var c := new Comment(v);
        held' := held + [c];
        ValueSnoc(held, c);
      case Overwrite(h, v) =>
        if h < |held| {
          OverwriteHeld(held, h, v);
        }
      case CallCreate(h) =>
        if h < |held| {
          ValueAt(held, h);
          var st := store.Create(held[h]);
        }
      case CallUpdate(h) =>
        if h < |held| {
          ValueAt(held, h);
          var st := store.Update(held[h]);
        }
      case CallGet(id) =>
        var r := store.GetByID(id);
        if r.Ok? {
          held' := held + [r.value];
          ValueSnoc(held, r.value);
        }
      case CallSoftDelete(id) =>
        var st := store.SoftDelete(id);
      case CallList(f) =>
        held', rows := Listing(store, held, f);
    }
  }

  // A listing, kept with the records held so far.
  method Listing(store: MemoryCommentStore, held: seq<Comment>, f: CommentFilter)
    returns (held': seq<Comment>, ghost rows: seq<CommentData>)
    requires store.Valid() && Separate(store, held)
    ensures Separate(store, held') && fresh((set c | c in held') - (set c | c in held))
    ensures Listable(store.State(), f) ==> IsListing(store.State(), f, rows)
    ensures ValueSeq(held') == if Listable(store.State(), f) then ValueSeq(held) + rows else ValueSeq(held)
  {
    held', rows := held, [];
    var listable := CanList(store, f);
    hide IsListing, Listable, ValueSeq, Distinct, Filed, Values;
    if listable {
      var out := store.List(f);
      rows := ValueSeq(out);
      ValueAppend(held, out);
      held' := held + out;
      SeparateAppend(store, held, out);
    }
  }

  lemma SeparateAppend(store: MemoryCommentStore, held: seq<Comment>, out: seq<Comment>)
    requires Separate(store, held) && NoDup(out)
    requires forall c :: c in out ==> c !in held && c !in store.items.Values
    ensures Separate(store, held + out)
  {
    var all := held + out;
    forall i, j | 0 <= i < j < |all| ensures all[i] != all[j] {
      if i < |held| <= j { assert all[i] in held && all[j] in out; }
    }
  }

  // Every identifier in the index entry of the thread, if the filter names one, has a record.
  method CanList(store: MemoryCommentStore, f: CommentFilter) returns (listable: bool)
    ensures listable == Listable(store.State(), f)
  {
    if f.threadID == "" {
      return true;
    }
    var ids := if f.threadID in store.threadIdx then store.threadIdx[f.threadID] else [];
    for k := 0 to |ids|
      invariant forall id :: id in ids[..k] ==> id in store.State().items
    {
      if ids[k] !in store.items {
        assert ids[k] in T.Bucket(store.State(), f.threadID);
        return false;
      }
    }
    assert ids[..|ids|] == ids == T.Bucket(store.State(), f.threadID);
    return true;
  }

  // The heap is where the run without sharing is after these actions and listings.
  ghost predicate InStep(store: MemoryCommentStore, held: seq<Comment>, actions: seq<Action>,
                         listings: seq<seq<CommentData>>)
    reads store, store.items.Values, held
  {
    && store.Valid() && Separate(store, held)
    && |listings| == |actions| && AllAnswer(World(T.Empty(), []), actions, listings)
    && World(store.State(), ValueSeq(held)) == ActAll(World(T.Empty(), []), actions, listings)
  }

  method Advance(store: MemoryCommentStore, held: seq<Comment>, a: Action,
                 ghost actions: seq<Action>, ghost listings: seq<seq<CommentData>>)
    returns (held': seq<Comment>, ghost listings': seq<seq<CommentData>>)
    requires InStep(store, held, actions, listings)
    modifies store, store.items.Values, held
    ensures InStep(store, held', actions + [a], listings')
    ensures fresh(store.items.Values - old(store.items.Values))
    ensures fresh((set c | c in held') - (set c | c in held))
  {
    hide ActAll, AllAnswer, Answers, Act, Distinct, Filed, Values, ValueSeq;
    ghost var rows;
    held', rows := Step(store, held, a);
    AllAnswerSnoc(World(T.Empty(), []), actions, listings, a, rows);
    listings' := listings + [rows];
  }

  /** Ownership: for every sequence of actions, listings included, the heap run ends in exactly
      the state that the run without sharing ends in, given the same listings, each of which is
      a listing of the table as it then is. So overwriting any record passed in or returned is
      never seen by a later store call, and no store call is seen in a record held. */
  method Session(actions: seq<Action>)
    returns (store: MemoryCommentStore, held: seq<Comment>, ghost listings: seq<seq<CommentData>>)
    ensures store.Valid() && Separate(store, held)
    ensures |listings| == |actions| && AllAnswer(World(T.Empty(), []), actions, listings)
    ensures World(store.State(), ValueSeq(held)) == ActAll(World(T.Empty(), []), actions, listings)
  {
    store := new MemoryCommentStore(None);
    held, listings := [], [];
    NoActions();
    assert InStep(store, held, [], []);
    for k := 0 to |actions|
      invariant fresh(store) && fresh(store.items.Values) && fresh(set c | c in held)
      invariant InStep(store, held, actions[..k], listings)
    {
      hide *;
      held, listings := Advance(store, held, actions[k], actions[..k], listings);
      assert actions[..k + 1] == actions[..k] + [actions[k]];
    }
    assert actions[..|actions|] == actions;
  }

  lemma NoActions()
    ensures AllAnswer(World(T.Empty(), []), [], []) && ActAll(World(T.Empty(), []), [], []) == World(T.Empty(), [])
  {
  }
}

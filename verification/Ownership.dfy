/** Record ownership in the thread store, listings included. A caller may keep every record it
    passed in or got back and overwrite it at will; the store behaves as if only values had
    been exchanged. */
module Ownership {
  import opened Common
  import opened Entities
  import opened ThreadStore
  import T = IndexedTable

  // What a caller does: allocate a record, overwrite a record it holds, or call the store
  // with a record it holds. Records it receives are kept, too.
  datatype Action =
    | Allocate(v: ThreadData)
    | Overwrite(h: nat, v: ThreadData)
    | CallCreate(h: nat)
    | CallUpdate(h: nat)
    | CallGet(id: string)
    | CallDelete(id: string)
    | CallView(id: string)
    | CallList(f: ThreadFilter)

  // The same world without any sharing: the store's table and the caller's own values.
  datatype World = World(table: T.Table<ThreadData>, held: seq<ThreadData>)

  // The rows are what the store answers if it is asked for a listing: their order is not
  // determined where the comparator does not decide. Go panics where the table is not listable.
  ghost function Act(w: World, a: Action, rows: seq<ThreadData>): World {
    match a
    case Allocate(v) => w.(held := w.held + [v])
    case Overwrite(h, v) => if h < |w.held| then w.(held := w.held[h := v]) else w
    case CallCreate(h) => if h < |w.held| then w.(table := T.Create(BySchema(), w.table, w.held[h]).0) else w
    case CallUpdate(h) => if h < |w.held| then w.(table := T.Update(BySchema(), w.table, w.held[h]).0) else w
    case CallGet(id) => if id in w.table.items then w.(held := w.held + [w.table.items[id]]) else w
    case CallDelete(id) => w.(table := T.Delete(BySchema(), w.table, id).0)
    case CallView(id) => w.(table := View(w.table, id).0)
    case CallList(f) => if Listable(w.table, f) then w.(held := w.held + rows) else w
  }

  // The rows are a listing of the table, if one was asked for.
  ghost predicate Answers(w: World, a: Action, rows: seq<ThreadData>) {
    a.CallList? && Listable(w.table, a.f) ==> IsListing(w.table, a.f, rows)
  }

  ghost function ActAll(w: World, actions: seq<Action>, listings: seq<seq<ThreadData>>): World
    requires |listings| == |actions|
  {
    if actions == [] then w
    else
      var n := |actions| - 1;
      Act(ActAll(w, actions[..n], listings[..n]), actions[n], listings[n])
  }

  ghost predicate AllAnswer(w: World, actions: seq<Action>, listings: seq<seq<ThreadData>>)
    requires |listings| == |actions|
  {
    forall k :: 0 <= k < |actions| ==> Answers(ActAll(w, actions[..k], listings[..k]), actions[k], listings[k])
  }

  lemma AllAnswerSnoc(w: World, actions: seq<Action>, listings: seq<seq<ThreadData>>, a: Action, rows: seq<ThreadData>)
    requires |listings| == |actions| && AllAnswer(w, actions, listings)
    requires Answers(ActAll(w, actions, listings), a, rows)
    ensures AllAnswer(w, actions + [a], listings + [rows])
    ensures ActAll(w, actions + [a], listings + [rows]) == Act(ActAll(w, actions, listings), a, rows)
  {
    var actions', listings' := actions + [a], listings + [rows];
    assert forall k :: 0 <= k <= |actions| ==> actions'[..k] == actions[..k] && listings'[..k] == listings[..k];
    assert actions[..|actions|] == actions && listings[..|actions|] == listings;
    hide Act, Answers;
  }

  ghost predicate Separate(store: MemoryThreadStore, held: seq<Thread>)
    reads store
  {
    NoDup(held) && forall t :: t in held ==> t !in store.items.Values
  }

  lemma {:induction false} ValueAt(ts: seq<Thread>, i: nat)
    requires i < |ts|
    ensures ValueSeq(ts)[i] == ts[i].Value()
  {
    if i < |ts| - 1 {
      ValueAt(ts[..|ts| - 1], i);
    }
  }

  lemma ValueSnoc(ts: seq<Thread>, t: Thread)
    ensures ValueSeq(ts + [t]) == ValueSeq(ts) + [t.Value()]
  {
    assert (ts + [t])[..|ts|] == ts;
  }

  lemma {:induction false} ValueAppend(ts: seq<Thread>, us: seq<Thread>)
    ensures ValueSeq(ts + us) == ValueSeq(ts) + ValueSeq(us)
  {
    if us == [] {
      assert ts + us == ts;
    } else {
      var init := us[..|us| - 1];
      assert (ts + us)[..|ts + us| - 1] == ts + init;
      ValueAppend(ts, init);
    }
  }

  method Assign(t: Thread, v: ThreadData)
    modifies t
    ensures t.Value() == v
  {
    t.id, t.boardID, t.authorID, t.title, t.body := v.id, v.boardID, v.authorID, v.title, v.body;
    t.isPinned, t.isLocked, t.viewCount, t.replyCount := v.isPinned, v.isLocked, v.viewCount, v.replyCount;
    t.lastReplyAt, t.createdAt, t.updatedAt := v.lastReplyAt, v.createdAt, v.updatedAt;
  }

  method OverwriteHeld(held: seq<Thread>, h: nat, v: ThreadData)
    requires NoDup(held) && h < |held|
    modifies held[h]
    ensures ValueSeq(held) == old(ValueSeq(held))[h := v]
  {
    forall i | 0 <= i < |held| ensures ValueSeq(held)[i] == held[i].Value() {
      ValueAt(held, i);
    }
    Assign(held[h], v);
    forall i | 0 <= i < |held| ensures ValueSeq(held)[i] == held[i].Value() {
      ValueAt(held, i);
    }
  }

  // One action of the caller, on the heap.
  method Step(store: MemoryThreadStore, held: seq<Thread>, a: Action)
    returns (held': seq<Thread>, ghost rows: seq<ThreadData>)
    requires store.Valid() && Separate(store, held)
    modifies store, store.items.Values, held
    ensures store.Valid() && Separate(store, held')
    ensures fresh(store.items.Values - old(store.items.Values))
    ensures fresh((set t | t in held') - (set t | t in held))
    ensures Answers(old(World(store.State(), ValueSeq(held))), a, rows)
    ensures World(store.State(), ValueSeq(held')) == Act(old(World(store.State(), ValueSeq(held))), a, rows)
  {
    hide T.Create, T.Update, T.Delete, View, ValueSeq, Distinct, Filed, Values, Listable, IsListing;
    held', rows := held, [];
    match a {
      case Allocate(v) =>
        var t := new Thread(v);
        held' := held + [t];
        ValueSnoc(held, t);
      case Overwrite(h, v) =>
        if h < |held| {
          OverwriteHeld(held, h, v);
        }
      case CallCreate(h) =>
        if h < |held| {
          ValueAt(held, h);
          var st := store.Create(held[h]);
        }
      case CallUpdate(h) =>
        if h < |held| {
          ValueAt(held, h);
          var st := store.Update(held[h]);
        }
      case CallGet(id) =>
        var r := store.GetByID(id);
        if r.Ok? {
          held' := held + [r.value];
          ValueSnoc(held, r.value);
        }
      case CallDelete(id) =>
        var st := store.Delete(id);
      case CallView(id) =>
        var st := store.IncrementViewCount(id);
      case CallList(f) =>
        held', rows := Listing(store, held, f);
    }
  }

  // A listing, kept with the records held so far.
  method Listing(store: MemoryThreadStore, held: seq<Thread>, f: ThreadFilter)
    returns (held': seq<Thread>, ghost rows: seq<ThreadData>)
    requires store.Valid() && Separate(store, held)
    ensures Separate(store, held') && fresh((set t | t in held') - (set t | t in held))
    ensures Listable(store.State(), f) ==> IsListing(store.State(), f, rows)
    ensures ValueSeq(held') == if Listable(store.State(), f) then ValueSeq(held) + rows else ValueSeq(held)
  {
    held', rows := held, [];
    var listable := CanList(store, f);
    hide IsListing, Listable, ValueSeq, Distinct, Filed, Values;
    if listable {
      var out := store.List(f);
      rows := ValueSeq(out);
      ValueAppend(held, out);
      held' := held + out;
      SeparateAppend(store, held, out);
    }
  }

  lemma SeparateAppend(store: MemoryThreadStore, held: seq<Thread>, out: seq<Thread>)
    requires Separate(store, held) && NoDup(out)
    requires forall t :: t in out ==> t !in held && t !in store.items.Values
    ensures Separate(store, held + out)
  {
    var all := held + out;
    forall i, j | 0 <= i < j < |all| ensures all[i] != all[j] {
      if i < |held| <= j { assert all[i] in held && all[j] in out; }
    }
  }

  // Every identifier in the index entry of the board, if the filter names one, has a record.
  method CanList(store: MemoryThreadStore, f: ThreadFilter) returns (listable: bool)
    ensures listable == Listable(store.State(), f)
  {
    if f.boardID == "" {
      return true;
    }
    var ids := if f.boardID in store.boardIdx then store.boardIdx[f.boardID] else [];
    for k := 0 to |ids|
      invariant forall id :: id in ids[..k] ==> id in store.State().items
    {
      if ids[k] !in store.items {
        assert ids[k] in T.Bucket(store.State(), f.boardID);
        return false;
      }
    }
    assert ids[..|ids|] == ids == T.Bucket(store.State(), f.boardID);
    return true;
  }

  // The heap is where the run without sharing is after these actions and listings.
  ghost predicate InStep(store: MemoryThreadStore, held: seq<Thread>, actions: seq<Action>,
                         listings: seq<seq<ThreadData>>)
    reads store, store.items.Values, held
  {
    && store.Valid() && Separate(store, held)
    && |listings| == |actions| && AllAnswer(World(T.Empty(), []), actions, listings)
    && World(store.State(), ValueSeq(held)) == ActAll(World(T.Empty(), []), actions, listings)
  }

  method Advance(store: MemoryThreadStore, held: seq<Thread>, a: Action,
                 ghost actions: seq<Action>, ghost listings: seq<seq<ThreadData>>)
    returns (held': seq<Thread>, ghost listings': seq<seq<ThreadData>>)
    requires InStep(store, held, actions, listings)
    modifies store, store.items.Values, held
    ensures InStep(store, held', actions + [a], listings')
    ensures fresh(store.items.Values - old(store.items.Values))
    ensures fresh((set t | t in held') - (set t | t in held))
  {
    hide ActAll, AllAnswer, Answers, Act, Distinct, Filed, Values, ValueSeq;
    ghost var rows;
    held', rows := Step(store, held, a);
    AllAnswerSnoc(World(T.Empty(), []), actions, listings, a, rows);
    listings' := listings + [rows];
  }

  /** Ownership: for every sequence of actions, listings included, the heap run ends in exactly
      the state that the run without sharing ends in, given the same listings, each of which is
      a listing of the table as it then is. So overwriting any record passed in or returned is
      never seen by a later store call, and no store call is seen in a record held. */
  method Session(actions: seq<Action>)
    returns (store: MemoryThreadStore, held: seq<Thread>, ghost listings: seq<seq<ThreadData>>)
    ensures store.Valid() && Separate(store, held)
    ensures |listings| == |actions| && AllAnswer(World(T.Empty(), []), actions, listings)
    ensures World(store.State(), ValueSeq(held)) == ActAll(World(T.Empty(), []), actions, listings)
  {
    store := new MemoryThreadStore(None);
    held, listings := [], [];
    NoActions();
    assert InStep(store, held, [], []);
    for k := 0 to |actions|
      invariant fresh(store) && fresh(store.items.Values) && fresh(set t | t in held)
      invariant InStep(store, held, actions[..k], listings)
    {
      hide *;
      held, listings := Advance(store, held, actions[k], actions[..k], listings);
      assert actions[..k + 1] == actions[..k] + [actions[k]];
    }
    assert actions[..|actions|] == actions;
  }

  lemma NoActions()
    ensures AllAnswer(World(T.Empty(), []), [], []) && ActAll(World(T.Empty(), []), [], []) == World(T.Empty(), [])
  {
  }
}

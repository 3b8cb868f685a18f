/** The services of internal/service/service.go over the stores. Run without interruption,
    each call is proved to be exactly its sequence of protocol steps. Clock readings and
    generated identifiers are parameters. */
module Services {
  import opened Common
  import opened Entities
  import opened Text
  import T = IndexedTable
  import I = Interleaving
  import TS = ThreadStore
  import CS = CommentStore
  import BS = BoardStore
  import VS = VoteStore

  // Two stores at rest, seen as a state of the protocol.
  function AtRest(threads: T.Table<ThreadData>, comments: T.Table<CommentData>): I.State {
    I.State(threads, comments, map[], I.Log(map[], map[], map[], {}, map[]))
  }

  function Stores(s: I.State): (T.Table<ThreadData>, T.Table<CommentData>) {
    (s.threads, s.comments)
  }

  function CommentCreated(s: I.State, c: CommentData, id: string, stored: int, counted: int): I.State {
    I.Next(I.Next(I.Next(s, I.ReadForComment(0, c)), I.StoreComment(0, id, stored)), I.CountReply(0, counted))
  }

  // Whether a call succeeded, and with which error it failed.
  function StatusOf<R>(r: Result<R>): Status {
    if r.Ok? then Done else Failed(r.error)
  }

  // The checks of CommentService.Create on a normalized comment, and the thread it reads.
  function ReadFor(threads: T.Table<ThreadData>, c: CommentData): Result<ThreadData> {
    if c.body == "" || c.threadID == "" then Err(InvalidInput)
    else if c.threadID !in threads.items then Err(NotFound)
    else if threads.items[c.threadID].isLocked then Err(Conflict)
    else Ok(threads.items[c.threadID])
  }

  // What CommentService.Create answers: the first check that fails, or the store's answer.
  function CommentAnswer(threads: T.Table<ThreadData>, comments: T.Table<CommentData>,
                         n: CommentData, id: string, stored: int): Status {
    if ReadFor(threads, n).Err? then Failed(ReadFor(threads, n).error)
    else T.Create(CS.BySchema(), comments, I.Stored(n, id, stored)).1
  }

  // The thread with one more reply.
  function Counted(t: ThreadData, at: int): ThreadData {
    Replied(t, at).(updatedAt := at)
  }

  // The stores after the comment d has been offered to its store and, if that succeeded,
  // the thread t written back with one more reply.
  function AfterStore(threads: T.Table<ThreadData>, comments: T.Table<CommentData>,
                      t: ThreadData, d: CommentData, counted: int): (T.Table<ThreadData>, T.Table<CommentData>)
  {
    var (comments', st) := T.Create(CS.BySchema(), comments, d);
    (if st.Failed? then threads else T.Update(TS.BySchema(), threads, Counted(t, counted)).0, comments')
  }

  // The three steps as the branches of one uninterrupted call.
  lemma CommentOutcome(threads: T.Table<ThreadData>, comments: T.Table<CommentData>,
                       c: CommentData, id: string, stored: int, counted: int)
    ensures var n, after := NormalComment(c), Stores(CommentCreated(AtRest(threads, comments), c, id, stored, counted));
            if ReadFor(threads, n).Err? then after == (threads, comments)
            else after == AfterStore(threads, comments, ReadFor(threads, n).value, I.Stored(n, id, stored), counted)
  {
    hide NormalComment;
    var s1 := I.Next(AtRest(threads, comments), I.ReadForComment(0, c));
    var s2 := I.Next(s1, I.StoreComment(0, id, stored));
    assert s1.procs == map[] ==> s2.procs == map[];
  }

  // The same outcome, with what the store then holds.
  lemma CreationIs(threads: T.Table<ThreadData>, comments: T.Table<CommentData>,
                   c: CommentData, id: string, stored: int, counted: int)
    requires id != ""
    ensures var n, after := NormalComment(c), Stores(CommentCreated(AtRest(threads, comments), c, id, stored, counted));
            var d := I.Stored(n, id, stored);
            var st := T.Create(CS.BySchema(), comments, d).1;
            if ReadFor(threads, n).Err? || st.Failed? then after == (threads, comments)
            else
              && after.1 == T.Create(CS.BySchema(), comments, d).0
              && after.0 == T.Update(TS.BySchema(), threads, Counted(ReadFor(threads, n).value, counted)).0
              && id !in comments.items && T.Lookup(after.1, id) == Ok(d)
  {
    CommentOutcome(threads, comments, c, id, stored, counted);
    hide NormalComment, CommentCreated, ReadFor;
  }

  // What CommentService.Create promises, in fields.
  ghost predicate CommentContract(threads: map<string, ThreadData>, comments: map<string, CommentData>,
                                  c: CommentData, id: string, stored: int, counted: int, failed: Option<Error>,
                                  threads': map<string, ThreadData>, comments': map<string, CommentData>)
  {
    && CommentFails(threads, comments, c, id, failed)
    && (if failed == None then CommentStores(threads, comments, c, id, stored, counted, threads', comments')
        else threads' == threads && comments' == comments)
  }

  // It fails on a blank body or a missing thread identifier, on a thread that does not exist, on
  // one that is locked, and on an identifier in use, in this order.
  ghost predicate CommentFails(threads: map<string, ThreadData>, comments: map<string, CommentData>,
                               c: CommentData, id: string, failed: Option<Error>)
  {
    var blank := TrimSpace(c.body) == "" || c.threadID == "";
    var found := c.threadID in threads;
    && (failed == Some(InvalidInput) <==> blank)
    && (failed == Some(NotFound) <==> !blank && !found)
    && (failed == Some(Conflict) <==> !blank && found && threads[c.threadID].isLocked)
    && (failed == Some(AlreadyExists) <==> !blank && found && !threads[c.threadID].isLocked && id in comments)
    && (failed == None <==> !blank && found && !threads[c.threadID].isLocked && id !in comments)
  }

  // Else the comment is stored as it came, trimmed and stamped, and its thread counts and dates
  // one more reply.
  ghost predicate CommentStores(threads: map<string, ThreadData>, comments: map<string, CommentData>,
                                c: CommentData, id: string, stored: int, counted: int,
                                threads': map<string, ThreadData>, comments': map<string, CommentData>)
  {
    && comments' == comments[id := CommentData(id, c.threadID, c.parentID, c.authorID, TrimSpace(c.body),
                                               0, 0, false, stored, stored)]
    && c.threadID in threads
    && var t := threads[c.threadID];
       threads' == threads[c.threadID := t.(replyCount := t.replyCount + 1, lastReplyAt := Some(counted),
                                            updatedAt := counted)]
  }

  function ErrorOf(st: Status): Option<Error> {
    if st.Failed? then Some(st.error) else None
  }

  lemma CommentFailsAs(threads: T.Table<ThreadData>, comments: T.Table<CommentData>,
                       c: CommentData, id: string, stored: int)
    requires id != ""
    ensures CommentFails(threads.items, comments.items, c, id,
                         ErrorOf(CommentAnswer(threads, comments, NormalComment(c), id, stored)))
  {
  }

  lemma CommentStoresAs(threads: T.Table<ThreadData>, comments: T.Table<CommentData>,
                        c: CommentData, id: string, stored: int, counted: int)
    requires id != "" && T.Keyed(TS.BySchema(), threads)
    requires c.threadID in threads.items
    ensures CommentStores(threads.items, comments.items, c, id, stored, counted,
                          T.Update(TS.BySchema(), threads, Counted(threads.items[c.threadID], counted)).0.items,
                          comments.items[id := I.Stored(NormalComment(c), id, stored)])
  {
    assert TS.IdOf(threads.items[c.threadID]) == c.threadID;
  }

  lemma ReadIs(threads: T.Table<ThreadData>, c: CommentData)
    ensures var n := NormalComment(c);
            ReadFor(threads, n).Ok?
            ==> c.threadID in threads.items && ReadFor(threads, n).value == threads.items[c.threadID]
  {
  }

  lemma CommentContractHolds(threads: T.Table<ThreadData>, comments: T.Table<CommentData>,
                             c: CommentData, id: string, stored: int, counted: int)
    requires id != "" && T.Keyed(TS.BySchema(), threads)
    ensures var after := Stores(CommentCreated(AtRest(threads, comments), c, id, stored, counted));
            var st := CommentAnswer(threads, comments, NormalComment(c), id, stored);
            CommentContract(threads.items, comments.items, c, id, stored, counted, ErrorOf(st),
                            after.0.items, after.1.items)
  {
    CreationIs(threads, comments, c, id, stored, counted);
    CommentFailsAs(threads, comments, c, id, stored);
    ReadIs(threads, c);
    var n := NormalComment(c);
    hide CommentCreated, CommentFails, CommentStores, ReadFor, NormalComment, Counted, I.Stored, T.Update;
    if ReadFor(threads, n).Ok? && T.Create(CS.BySchema(), comments, I.Stored(n, id, stored)).1.Done? {
      CommentStoresAs(threads, comments, c, id, stored, counted);
      CreatedItems(comments, I.Stored(n, id, stored));
      StoredId(n, id, stored);
    }
  }

  lemma StoredId(n: CommentData, id: string, stored: int)
    ensures I.Stored(n, id, stored).id == id
  {
  }

  lemma CreatedItems(comments: T.Table<CommentData>, d: CommentData)
    requires T.Create(CS.BySchema(), comments, d).1.Done?
    ensures T.Create(CS.BySchema(), comments, d).0.items == comments.items[d.id := d]
  {
  }

  lemma CreateFails(comments: T.Table<CommentData>, d: CommentData)
    requires T.Create(CS.BySchema(), comments, d).1.Failed?
    ensures T.Create(CS.BySchema(), comments, d).0 == comments
  {
  }

  class CommentService {
    const store: CS.MemoryCommentStore
    const threadStore: TS.MemoryThreadStore

    constructor (store: CS.MemoryCommentStore, threadStore: TS.MemoryThreadStore)
      ensures this.store == store && this.threadStore == threadStore
    {
      this.store, this.threadStore := store, threadStore;
    }

    // The first part of Create: normalize, check, and read the thread.
    method ReadThread(c: Comment) returns (r: Result<Thread>)
      requires threadStore.Valid()
      modifies c
      ensures c.Value() == NormalComment(old(c.Value()))
      ensures r.Ok? ==> fresh(r.value)
      ensures (if r.Ok? then Ok(r.value.Value()) else Err(r.error)) == ReadFor(threadStore.State(), c.Value())
    {
      c.Normalize();
      if c.body == "" {
        return Err(InvalidInput);
      }
      if c.threadID == "" {
        return Err(InvalidInput);
      }
      r := threadStore.GetByID(c.threadID);
      if r.Err? {
        return;
      }
      if r.value.isLocked {
        return Err(Conflict);
      }
    }

    // `id` is the generated identifier; the clock is read before the comment is stored and
    // again before the thread is written.
    method Create(c: Comment, id: string, stored: int, counted: int) returns (r: Result<Comment>)
      requires store.Valid() && threadStore.Valid() && c !in store.items.Values && id != ""
      modifies c, store, threadStore
      ensures store.Valid() && threadStore.Valid()
      ensures (threadStore.State(), store.State())
           == Stores(CommentCreated(AtRest(old(threadStore.State()), old(store.State())), old(c.Value()),
                                    id, stored, counted))
      ensures r.Ok? ==> fresh(r.value) && T.Lookup(store.State(), id) == Ok(r.value.Value())
      ensures r.Err? ==> store.State() == old(store.State()) && threadStore.State() == old(threadStore.State())
      ensures CommentContract(old(threadStore.State()).items, old(store.State()).items, old(c.Value()), id, stored,
                              counted, ErrorOf(StatusOf(r)), threadStore.State().items, store.State().items)
    {
      ghost var threads, comments, v := threadStore.State(), store.State(), c.Value();
      TS.FiledIsKeyed(threadStore.items, threadStore.boardIdx);
      CommentContractHolds(threads, comments, v, id, stored, counted);
      hide *;
      r := CreateInParts(c, id, stored, counted);
    }

    // Create as its two parts, each a few store calls.
    method CreateInParts(c: Comment, id: string, stored: int, counted: int) returns (r: Result<Comment>)
      requires store.Valid() && threadStore.Valid() && c !in store.items.Values && id != ""
      modifies c, store, threadStore
      ensures store.Valid() && threadStore.Valid()
      ensures (threadStore.State(), store.State())
           == Stores(CommentCreated(AtRest(old(threadStore.State()), old(store.State())), old(c.Value()),
                                    id, stored, counted))
      ensures r.Ok? ==> fresh(r.value) && T.Lookup(store.State(), id) == Ok(r.value.Value())
      ensures r.Err? ==> store.State() == old(store.State()) && threadStore.State() == old(threadStore.State())
      ensures StatusOf(r) == CommentAnswer(old(threadStore.State()), old(store.State()),
                                           NormalComment(old(c.Value())), id, stored)
    {
      ghost var threads, comments, n := threadStore.State(), store.State(), NormalComment(c.Value());
      CreationIs(threads, comments, c.Value(), id, stored, counted);
      hide *;
      var found := ReadThread(c);
      if found.Err? {
        return Err(found.error);
      }
      r := StoreAndCount(c, found.value, id, stored, counted);
      if r.Err? {
        CreateFails(comments, I.Stored(n, id, stored));
      }
    }

    // The second part of Create: store the comment, then write the thread back with one
    // more reply; an error of that write is ignored.
    method StoreAndCount(c: Comment, t: Thread, id: string, stored: int, counted: int) returns (r: Result<Comment>)
      requires store.Valid() && threadStore.Valid()
      requires c !in store.items.Values && t !in threadStore.items.Values
      modifies c, t, store, threadStore
      ensures store.Valid() && threadStore.Valid()
      ensures r.Ok? ==> fresh(r.value) && r.value.Value() == I.Stored(old(c.Value()), id, stored)
      ensures (store.State(), if r.Ok? then Done else Failed(r.error))
           == T.Create(CS.BySchema(), old(store.State()), I.Stored(old(c.Value()), id, stored))
      ensures threadStore.State() ==
                if r.Err? then old(threadStore.State())
                else T.Update(TS.BySchema(), old(threadStore.State()), Counted(old(t.Value()), counted)).0
    {
      hide *;
      Stamp(c, id, stored);
      var st := store.Create(c);
      if st.Failed? {
        return Err(st.error);
      }
      CountOn(t, counted);
      var ignored := threadStore.Update(t);
      r := Reply(c, Done);
    }

    // The first part of Update: read the comment, apply the request, check.
    method Revise(id: string, body: Option<string>) returns (r: Result<Comment>)
      requires store.Valid()
      ensures r.Ok? ==> fresh(r.value)
      ensures (if r.Ok? then Ok(r.value.Value()) else Err(r.error)) == Revised(store.State(), id, body)
    {
      r := store.GetByID(id);
      if r.Err? {
        return;
      }
      var c := r.value;
      if c.isDeleted {
        return Err(Conflict);
      }
      if body.Some? {
        c.body := body.value;
      }
      c.Normalize();
      if c.body == "" {
        return Err(InvalidInput);
      }
    }

    method Update(id: string, body: Option<string>, at: int) returns (r: Result<Comment>)
      requires store.Valid()
      modifies store
      ensures store.Valid()
      ensures store.State() == CommentRevised(AtRest(T.Empty(), old(store.State())), id, body, at).comments
      ensures r.Ok? ==> fresh(r.value) && T.Lookup(store.State(), id) == Ok(r.value.Value())
      ensures StatusOf(r) == StatusOf(Revised(old(store.State()), id, body))
      ensures r.Err? ==> store.State() == old(store.State())
      ensures RevisionContract(old(store.State()).items, id, body, at, ErrorOf(StatusOf(r)), store.State().items)
      ensures r.Ok? ==> id in store.State().items && r.value.Value() == store.State().items[id]
    {
      CS.FiledIsKeyed(store.items, store.threadIdx);
      RevisionContractHolds(store.State(), id, body, at);
      RevisionIs(store.State(), id, body, at);
      hide *;
      r := Revise(id, body);
      if r.Err? {
        return;
      }
      r := WriteBack(r.value, at);
    }

    // The second part of Update.
    method WriteBack(c: Comment, at: int) returns (r: Result<Comment>)
      requires store.Valid() && c !in store.items.Values
      modifies c, store
      ensures store.Valid()
      ensures (store.State(), if r.Ok? then Done else Failed(r.error))
           == T.Update(CS.BySchema(), old(store.State()), old(c.Value()).(updatedAt := at))
      ensures r.Ok? ==> fresh(r.value) && r.value.Value() == old(c.Value()).(updatedAt := at)
    {
      hide T.Update, Distinct, CS.Filed, CS.Values;
      c.updatedAt := at;
      var st := store.Update(c);
      r := Reply(c, st);
    }
  }

  // A clone of the record just written, or the store's error.
  method Reply(c: Comment, st: Status) returns (r: Result<Comment>)
    ensures r.Ok? <==> st.Done?
    ensures r.Ok? ==> fresh(r.value) && r.value.Value() == c.Value()
    ensures r.Err? ==> r.error == st.error
  {
    if st.Failed? {
      return Err(st.error);
    }
    var cp := c.Clone();
    return Ok(cp);
  }

  method ReplyThread(t: Thread, st: Status) returns (r: Result<Thread>)
    ensures r.Ok? <==> st.Done?
    ensures r.Ok? ==> fresh(r.value) && r.value.Value() == t.Value()
    ensures r.Err? ==> r.error == st.error
  {
    if st.Failed? {
      return Err(st.error);
    }
    var cp := t.Clone();
    return Ok(cp);
  }

  // The record CommentService.Update is about to stamp and write.
  function Revised(comments: T.Table<CommentData>, id: string, body: Option<string>): Result<CommentData> {
    if id !in comments.items then Err(NotFound)
    else if comments.items[id].isDeleted then Err(Conflict)
    else
      var c := comments.items[id];
      var n := NormalComment(c.(body := if body.Some? then body.value else c.body));
      if n.body == "" then Err(InvalidInput) else Ok(n)
  }

  function CommentRevised(s: I.State, id: string, body: Option<string>, at: int): I.State {
    I.Next(I.Next(s, I.ReadForRevision(0, id, body)), I.WriteRevision(0, at))
  }

  lemma RevisionIs(comments: T.Table<CommentData>, id: string, body: Option<string>, at: int)
    requires T.Keyed(CS.BySchema(), comments)
    ensures var n := Revised(comments, id, body);
            var after := CommentRevised(AtRest(T.Empty(), comments), id, body, at).comments;
            if n.Err? then after == comments
            else
              var w := n.value.(updatedAt := at);
              T.Update(CS.BySchema(), comments, w) == (after, Done) && T.Lookup(after, id) == Ok(w)
  {
    if id in comments.items {
      assert CS.IdOf(comments.items[id]) == id;
    }
  }

  // What CommentService.Update promises, in fields: it fails on a comment that does not exist,
  // on a deleted one, and on a body that is blank after the request, in this order.
  ghost predicate RevisionContract(comments: map<string, CommentData>, id: string, body: Option<string>, at: int,
                                   failed: Option<Error>, comments': map<string, CommentData>)
  {
    var found := id in comments;
    && (failed == Some(NotFound) <==> !found)
    && (failed == Some(Conflict) <==> found && comments[id].isDeleted)
    && (failed == Some(InvalidInput) <==>
          found && !comments[id].isDeleted && TrimSpace(if body.Some? then body.value else comments[id].body) == "")
    && (failed == None <==>
          found && !comments[id].isDeleted && TrimSpace(if body.Some? then body.value else comments[id].body) != "")
    && (failed != None ==> comments' == comments)
    && (failed == None ==>
          && found
          && comments' == comments[id := comments[id].(
                            body := TrimSpace(if body.Some? then body.value else comments[id].body), updatedAt := at)])
  }

  lemma RevisionContractHolds(comments: T.Table<CommentData>, id: string, body: Option<string>, at: int)
    requires T.Keyed(CS.BySchema(), comments)
    ensures var after := CommentRevised(AtRest(T.Empty(), comments), id, body, at).comments;
            var st := StatusOf(Revised(comments, id, body));
            && RevisionContract(comments.items, id, body, at, ErrorOf(st), after.items)
            && (st.Done? ==> id in after.items)
  {
    RevisionIs(comments, id, body, at);
    hide CommentRevised;
    if id in comments.items {
      assert CS.IdOf(comments.items[id]) == id;
    }
  }

  class ThreadService {
    const store: TS.MemoryThreadStore
    const boardStore: BS.MemoryBoardStore

    constructor (store: TS.MemoryThreadStore, boardStore: BS.MemoryBoardStore)
      ensures this.store == store && this.boardStore == boardStore
    {
      this.store, this.boardStore := store, boardStore;
    }

    // The checks of Create; reads the board.
    method CheckBoard(t: Thread) returns (st: Status)
      requires boardStore.Valid()
      modifies t
      ensures t.Value() == NormalThread(old(t.Value()))
      ensures st == PostCheck(old(boardStore.State().items), t.Value())
    {
      t.Normalize();
      if t.title == "" {
        return Failed(InvalidInput);
      }
      if t.boardID == "" {
        return Failed(InvalidInput);
      }
      var found := boardStore.GetByID(t.boardID);
      if found.Err? {
        return Failed(found.error);
      }
      if found.value.isLocked {
        return Failed(Conflict);
      }
      return Done;
    }

    method Create(t: Thread, newID: string, at: int) returns (r: Result<Thread>)
      requires store.Valid() && boardStore.Valid() && t !in store.items.Values && newID != ""
      modifies t, store
      ensures store.Valid()
      ensures var v, before := Named(old(t.Value()), newID), old(store.State());
              store.State() == if Postable(old(boardStore.State().items), NormalThread(v))
                               then I.Next(AtRest(before, T.Empty()), I.PostThread(v, at)).threads
                               else before
      ensures r.Ok? ==> fresh(r.value) && T.Lookup(store.State(), r.value.Value().id) == Ok(r.value.Value())
      ensures r.Err? ==> store.State() == old(store.State())
      ensures StatusOf(r) == PostAnswer(old(store.State()), old(boardStore.State().items),
                                        NormalThread(old(t.Value())), newID, at)
      ensures PostContract(old(boardStore.State().items), old(store.State()).items, old(t.Value()), newID, at,
                           ErrorOf(StatusOf(r)), store.State().items)
      ensures r.Ok? ==> var id := if old(t.id) == "" then newID else old(t.id);
                                  id in store.State().items && r.value.Value() == store.State().items[id]
    {
      ghost var v := t.Value();
      PostContractHolds(store.State(), boardStore.State().items, v, newID, at);
      PostIs(store.State(), boardStore.State().items, v, newID, at);
      hide *;
      var ok := CheckBoard(t);
      if ok.Failed? {
        return Err(ok.error);
      }
      r := StoreNew(t, newID, at);
    }

    // The second part of Create.
    method StoreNew(t: Thread, newID: string, at: int) returns (r: Result<Thread>)
      requires store.Valid() && t !in store.items.Values
      modifies t, store
      ensures store.Valid() && t.Value() == Stamped(old(t.Value()), newID, at)
      ensures (store.State(), if r.Ok? then Done else Failed(r.error))
           == T.Create(TS.BySchema(), old(store.State()), t.Value())
      ensures r.Ok? ==> fresh(r.value) && r.value.Value() == t.Value()
    {
      hide *;
      StampThread(t, newID, at);
      var st := store.Create(t);
      r := ReplyThread(t, st);
    }

    // Returns the record as it was before its view was counted.
    method GetByID(id: string) returns (r: Result<Thread>)
      requires store.Valid()
      modifies store, store.items.Values
      ensures store.Valid()
      ensures store.State() ==
                I.Next(I.Next(AtRest(old(store.State()), T.Empty()), I.ReadForView(0, id)), I.CountView(0)).threads
      ensures r.Ok? ==> fresh(r.value)
      ensures (if r.Ok? then Ok(r.value.Value()) else Err(r.error)) == T.Lookup(old(store.State()), id)
      ensures r.Ok? <==> id in old(store.State()).items
      ensures r.Err? ==> r.error == NotFound && store.State() == old(store.State())
      ensures r.Ok? ==> var threads := old(store.State()).items;
                        && r.value.Value() == threads[id]
                        && store.State().items == threads[id := threads[id].(viewCount := threads[id].viewCount + 1)]
    {
      r := store.GetByID(id);
      if r.Err? {
        return;
      }
      var ignored := store.IncrementViewCount(id);
    }

    // The first part of Update: read the thread, apply the request, check.
    method Edit(id: string, req: I.ThreadEdit) returns (r: Result<Thread>)
      requires store.Valid()
      ensures r.Ok? ==> fresh(r.value)
      ensures (if r.Ok? then Ok(r.value.Value()) else Err(r.error)) == EditOf(store.State(), id, req)
    {
      r := store.GetByID(id);
      if r.Err? {
        return;
      }
      var t := r.value;
      Apply(req, t);
      t.Normalize();
      if t.title == "" {
        return Err(InvalidInput);
      }
    }

    method Update(id: string, req: I.ThreadEdit, at: int) returns (r: Result<Thread>)
      requires store.Valid()
      modifies store
      ensures store.Valid()
      ensures store.State() == ThreadEdited(AtRest(old(store.State()), T.Empty()), id, req, at).threads
      ensures r.Ok? ==> fresh(r.value) && T.Lookup(store.State(), id) == Ok(r.value.Value())
      ensures StatusOf(r) == StatusOf(EditOf(old(store.State()), id, req))
      ensures r.Err? ==> store.State() == old(store.State())
      ensures EditContract(old(store.State()).items, id, req, at, ErrorOf(StatusOf(r)), store.State().items)
      ensures r.Ok? ==> id in store.State().items && r.value.Value() == store.State().items[id]
    {
      TS.FiledIsKeyed(store.items, store.boardIdx);
      EditContractHolds(store.State(), id, req, at);
      EditIs(store.State(), id, req, at);
      hide *;
      r := Edit(id, req);
      if r.Err? {
        return;
      }
      r := WriteBack(r.value, at);
    }

    // The second part of Update.
    method WriteBack(t: Thread, at: int) returns (r: Result<Thread>)
      requires store.Valid() && t !in store.items.Values
      modifies t, store
      ensures store.Valid()
      ensures (store.State(), if r.Ok? then Done else Failed(r.error))
           == T.Update(TS.BySchema(), old(store.State()), old(t.Value()).(updatedAt := at))
      ensures r.Ok? ==> fresh(r.value) && r.value.Value() == old(t.Value()).(updatedAt := at)
    {
      hide T.Update, Distinct, TS.Filed, TS.Values;
      t.updatedAt := at;
      var st := store.Update(t);
      r := ReplyThread(t, st);
    }
  }

  // The checks of ThreadService.Create on a normalized thread.
  function PostCheck(boards: map<string, BoardData>, t: ThreadData): Status {
    if t.title == "" || t.boardID == "" then Failed(InvalidInput)
    else if t.boardID !in boards then Failed(NotFound)
    else if boards[t.boardID].isLocked then Failed(Conflict)
    else Done
  }

  // ThreadService.Create on a normalized thread reaches the store.
  predicate Postable(boards: map<string, BoardData>, t: ThreadData) {
    PostCheck(boards, t).Done?
  }

  // What ThreadService.Create answers for a normalized thread.
  function PostAnswer(threads: T.Table<ThreadData>, boards: map<string, BoardData>, t: ThreadData,
                      newID: string, at: int): Status {
    if PostCheck(boards, t).Failed? then PostCheck(boards, t)
    else T.Create(TS.BySchema(), threads, Stamped(t, newID, at)).1
  }

  function Named(t: ThreadData, newID: string): ThreadData {
    t.(id := if t.id == "" then newID else t.id)
  }

  // The record ThreadService.Create hands to the store.
  function Stamped(t: ThreadData, newID: string, at: int): ThreadData {
    Named(t, newID).(viewCount := 0, replyCount := 0, createdAt := at, updatedAt := at)
  }

  lemma PostIs(threads: T.Table<ThreadData>, boards: map<string, BoardData>, t: ThreadData, newID: string, at: int)
    requires newID != ""
    ensures Postable(boards, NormalThread(t)) == Postable(boards, NormalThread(Named(t, newID)))
    ensures Postable(boards, NormalThread(t))
            ==> I.Next(AtRest(threads, T.Empty()), I.PostThread(Named(t, newID), at)).threads
                == T.Create(TS.BySchema(), threads, Stamped(NormalThread(t), newID, at)).0
    ensures T.Create(TS.BySchema(), threads, Stamped(NormalThread(t), newID, at)).1.Done?
            ==> T.Lookup(T.Create(TS.BySchema(), threads, Stamped(NormalThread(t), newID, at)).0,
                       Stamped(NormalThread(t), newID, at).id) == Ok(Stamped(NormalThread(t), newID, at))
    ensures T.Create(TS.BySchema(), threads, Stamped(NormalThread(t), newID, at)).1.Failed?
            ==> T.Create(TS.BySchema(), threads, Stamped(NormalThread(t), newID, at)).0 == threads
  {
    assert I.Posted(Named(t, newID), at) == Stamped(NormalThread(t), newID, at);
  }

  // What ThreadService.Create promises, in fields. It fails on a blank title or a missing board
  // identifier, on a board that does not exist, on one that is locked, and on an identifier in
  // use, in this order, and then changes nothing. Else the thread is stored as it came, trimmed,
  // named if it had no identifier, with its counts reset and its times set.
  ghost predicate PostContract(boards: map<string, BoardData>, threads: map<string, ThreadData>, t: ThreadData,
                               newID: string, at: int, failed: Option<Error>, threads': map<string, ThreadData>)
  {
    var id := if t.id == "" then newID else t.id;
    var blank := TrimSpace(t.title) == "" || t.boardID == "";
    var found := t.boardID in boards;
    && (failed == Some(InvalidInput) <==> blank)
    && (failed == Some(NotFound) <==> !blank && !found)
    && (failed == Some(Conflict) <==> !blank && found && boards[t.boardID].isLocked)
    && (failed == Some(AlreadyExists) <==> !blank && found && !boards[t.boardID].isLocked && id in threads)
    && (failed == None <==> !blank && found && !boards[t.boardID].isLocked && id !in threads)
    && (failed != None ==> threads' == threads)
    && (failed == None ==>
          threads' == threads[id := ThreadData(id, t.boardID, t.authorID, TrimSpace(t.title), TrimSpace(t.body),
                                               t.isPinned, t.isLocked, 0, 0, t.lastReplyAt, at, at)])
  }

  lemma PostContractHolds(threads: T.Table<ThreadData>, boards: map<string, BoardData>, t: ThreadData,
                          newID: string, at: int)
    requires newID != ""
    ensures var v := Named(t, newID);
            var after := if Postable(boards, NormalThread(v))
                         then I.Next(AtRest(threads, T.Empty()), I.PostThread(v, at)).threads else threads;
            var st := PostAnswer(threads, boards, NormalThread(t), newID, at);
            && PostContract(boards, threads.items, t, newID, at, ErrorOf(st), after.items)
            && (st.Done? ==> (if t.id == "" then newID else t.id) in after.items)
  {
    PostIs(threads, boards, t, newID, at);
    hide I.Next;
  }

  // The record ThreadService.Update is about to stamp and write.
  function EditOf(threads: T.Table<ThreadData>, id: string, req: I.ThreadEdit): Result<ThreadData> {
    if id !in threads.items then Err(NotFound)
    else
      var n := NormalThread(I.Edited(threads.items[id], req));
      if n.title == "" then Err(InvalidInput) else Ok(n)
  }

  function ThreadEdited(s: I.State, id: string, req: I.ThreadEdit, at: int): I.State {
    I.Next(I.Next(s, I.ReadForEdit(0, id, req)), I.WriteEdit(0, at))
  }

  lemma EditIs(threads: T.Table<ThreadData>, id: string, req: I.ThreadEdit, at: int)
    requires T.Keyed(TS.BySchema(), threads)
    ensures var n, after := EditOf(threads, id, req), ThreadEdited(AtRest(threads, T.Empty()), id, req, at).threads;
            if n.Err? then after == threads
            else
              var w := n.value.(updatedAt := at);
              T.Update(TS.BySchema(), threads, w) == (after, Done) && T.Lookup(after, id) == Ok(w)
  {
    if id in threads.items {
      assert TS.IdOf(threads.items[id]) == id;
    }
  }

  // What ThreadService.Update promises, in fields: it fails on a thread that does not exist and
  // on a title that is blank after the request, in this order; else each field given replaces
  // the stored one, title and body are trimmed, and the rest stays.
  ghost predicate EditContract(threads: map<string, ThreadData>, id: string, req: I.ThreadEdit, at: int,
                               failed: Option<Error>, threads': map<string, ThreadData>)
  {
    var found := id in threads;
    && (failed == Some(NotFound) <==> !found)
    && (failed == Some(InvalidInput) <==>
          found && TrimSpace(if req.title.Some? then req.title.value else threads[id].title) == "")
    && (failed == None <==>
          found && TrimSpace(if req.title.Some? then req.title.value else threads[id].title) != "")
    && (failed != None ==> threads' == threads)
    && (failed == None ==>
          && found
          && var t := threads[id];
             threads' == threads[id := t.(
                           title := TrimSpace(if req.title.Some? then req.title.value else t.title),
                           body := TrimSpace(if req.body.Some? then req.body.value else t.body),
                           isPinned := if req.isPinned.Some? then req.isPinned.value else t.isPinned,
                           isLocked := if req.isLocked.Some? then req.isLocked.value else t.isLocked,
                           updatedAt := at)])
  }

  lemma EditContractHolds(threads: T.Table<ThreadData>, id: string, req: I.ThreadEdit, at: int)
    requires T.Keyed(TS.BySchema(), threads)
    ensures var after := ThreadEdited(AtRest(threads, T.Empty()), id, req, at).threads;
            var st := StatusOf(EditOf(threads, id, req));
            && EditContract(threads.items, id, req, at, ErrorOf(st), after.items)
            && (st.Done? ==> id in after.items)
  {
    EditIs(threads, id, req, at);
    hide ThreadEdited;
    if id in threads.items {
      assert TS.IdOf(threads.items[id]) == id;
    }
  }

  // The fields ThreadService.Create sets before storing the thread; the last reply is left
  // as it came.
  method StampThread(t: Thread, newID: string, at: int)
    modifies t
    ensures t.Value() == Stamped(old(t.Value()), newID, at)
  {
    if t.id == "" {
      t.id := newID;
    }
    t.viewCount := 0;
    t.replyCount := 0;
    t.createdAt := at;
    t.updatedAt := at;
  }

  // The fields CommentService.Create sets before storing the comment.
  method Stamp(c: Comment, id: string, at: int)
    modifies c
    ensures c.Value() == I.Stored(old(c.Value()), id, at)
  {
    c.id := id;
    c.upvotes := 0;
    c.downvotes := 0;
    c.isDeleted := false;
    c.createdAt := at;
    c.updatedAt := at;
  }

  // The thread counts one more reply, written at the same time.
  method CountOn(t: Thread, at: int)
    modifies t
    ensures t.Value() == Counted(old(t.Value()), at)
  {
    t.IncrementReply(at);
    t.updatedAt := at;
  }

  method Apply(req: I.ThreadEdit, t: Thread)
    modifies t
    ensures t.Value() == I.Edited(old(t.Value()), req)
    ensures t.title == if req.title.Some? then req.title.value else old(t.title)
    ensures t.body == if req.body.Some? then req.body.value else old(t.body)
    ensures t.isPinned == if req.isPinned.Some? then req.isPinned.value else old(t.isPinned)
    ensures t.isLocked == if req.isLocked.Some? then req.isLocked.value else old(t.isLocked)
  {
    if req.title.Some? {
      t.title := req.title.value;
    }
    if req.body.Some? {
      t.body := req.body.value;
    }
    if req.isPinned.Some? {
      t.isPinned := req.isPinned.value;
    }
    if req.isLocked.Some? {
      t.isLocked := req.isLocked.value;
    }
  }

  class VoteService {
    const store: VS.MemoryVoteStore
    const threadStore: TS.MemoryThreadStore
    const commentStore: CS.MemoryCommentStore

    constructor (store: VS.MemoryVoteStore, threadStore: TS.MemoryThreadStore, commentStore: CS.MemoryCommentStore)
      ensures this.store == store && this.threadStore == threadStore && this.commentStore == commentStore
    {
      this.store, this.threadStore, this.commentStore := store, threadStore, commentStore;
    }

    // The checks of Vote.
    method CheckTarget(v: Vote) returns (st: Status)
      requires threadStore.Valid() && commentStore.Valid()
      ensures st == VoteCheck(threadStore.State().items.Keys, commentStore.State().items.Keys, v.Value())
    {
      if v.value != 1 && v.value != -1 {
        return Failed(InvalidInput);
      }
      if v.targetType != "thread" && v.targetType != "comment" {
        return Failed(InvalidInput);
      }
      if v.targetID == "" || v.userID == "" {
        return Failed(InvalidInput);
      }
      if v.targetType == "thread" {
        var found := threadStore.GetByID(v.targetID);
        if found.Err? {
          return Failed(found.error);
        }
      } else {
        var found := commentStore.GetByID(v.targetID);
        if found.Err? {
          return Failed(found.error);
        }
      }
      return Done;
    }

    // A vote is stored exactly when it is well formed and its target exists; it replaces an
    // earlier vote of the user on the target.
    method Vote(v: Vote, id: string, at: int) returns (st: Status)
      requires store.Valid() && threadStore.Valid() && commentStore.Valid()
      requires v !in store.items.Values && id != ""
      modifies v, store
      ensures store.Valid()
      ensures st == VoteCheck(threadStore.State().items.Keys, commentStore.State().items.Keys, old(v.Value()))
      ensures store.State() ==
                if st.Done?
                then old(store.State())[VS.KeyOf(old(v.Value())) := old(v.Value()).(id := id, createdAt := at)]
                else old(store.State())
      ensures VoteContract(threadStore.State().items.Keys, commentStore.State().items.Keys, old(store.State()),
                           old(v.Value()), id, at, ErrorOf(st), store.State())
    {
      VoteContractHolds(threadStore.State().items.Keys, commentStore.State().items.Keys, store.State(),
                        v.Value(), id, at);
      hide *;
      st := CheckTarget(v);
      if st.Failed? {
        return;
      }
      StoreVote(v, id, at);
    }

    // The second part of Vote; the store accepts every vote with an identifier.
    method StoreVote(v: Vote, id: string, at: int)
      requires store.Valid() && v !in store.items.Values && id != ""
      modifies v, store
      ensures store.Valid()
      ensures store.State()
           == old(store.State())[VS.KeyOf(old(v.Value())) := old(v.Value()).(id := id, createdAt := at)]
    {
      SameKey(v.Value(), id, at);
      hide *;
      StampVote(v, id, at);
      var st := store.Upsert(v);
    }
  }

  method StampVote(v: Vote, id: string, at: int)
    modifies v
    ensures v.Value() == old(v.Value()).(id := id, createdAt := at) && v.id == id
  {
    v.id := id;
    v.createdAt := at;
  }

  lemma SameKey(v: VoteData, id: string, at: int)
    ensures VS.KeyOf(v.(id := id, createdAt := at)) == VS.KeyOf(v)
  {
  }

  // The checks of VoteService.Vote, given the identifiers of the stored threads and comments.
  function VoteCheck(threads: set<string>, comments: set<string>, v: VoteData): Status {
    if !Acceptable(v) then Failed(InvalidInput)
    else if v.targetID !in (if v.targetType == "thread" then threads else comments) then Failed(NotFound)
    else Done
  }

  // What VoteService.Vote promises, in fields: it fails on a value other than +1 and -1, a type
  // other than thread and comment, or a missing identifier, and on a target that is not in the
  // store of its type; else the vote is stored under its key, as it came and stamped.
  ghost predicate VoteContract(threads: set<string>, comments: set<string>, votes: map<string, VoteData>, v: VoteData,
                               id: string, at: int, failed: Option<Error>, votes': map<string, VoteData>)
  {
    var wellFormed :=
      (v.value == 1 || v.value == -1) && (v.targetType == "thread" || v.targetType == "comment")
      && v.targetID != "" && v.userID != "";
    var found :=
      (v.targetType == "thread" && v.targetID in threads) || (v.targetType == "comment" && v.targetID in comments);
    && (failed == Some(InvalidInput) <==> !wellFormed)
    && (failed == Some(NotFound) <==> wellFormed && !found)
    && (failed == None <==> wellFormed && found)
    && (failed != None ==> votes' == votes)
    && (failed == None ==>
          votes' == votes[v.targetType + ":" + v.targetID + ":" + v.userID :=
                            VoteData(id, v.targetType, v.targetID, v.userID, v.value, at)])
  }

  lemma VoteContractHolds(threads: set<string>, comments: set<string>, votes: map<string, VoteData>, v: VoteData,
                          id: string, at: int)
    ensures var st := VoteCheck(threads, comments, v);
            VoteContract(threads, comments, votes, v, id, at, ErrorOf(st),
                         if st.Done? then votes[VS.KeyOf(v) := v.(id := id, createdAt := at)] else votes)
  {
    assert VS.KeyOf(v) == v.targetType + ":" + v.targetID + ":" + v.userID;
  }

  predicate Acceptable(v: VoteData) {
    && (v.value == 1 || v.value == -1)
    && (v.targetType == "thread" || v.targetType == "comment")
    && v.targetID != "" && v.userID != ""
  }

  /** What the service lets through meets the counting theorem's condition on target types,
      and a vote counted as down is a vote of -1. */
  lemma AcceptableVotesCount(v: VoteData)
    requires Acceptable(v)
    ensures VS.ColonFree(v.targetType) && (v.value > 0 <==> v.value == 1) && (v.value <= 0 <==> v.value == -1)
  {
  }
}

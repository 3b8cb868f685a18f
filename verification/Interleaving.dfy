/** The read-modify-write protocol of internal/service/service.go. Every store call is
    atomic; a service call is a sequence of them, and the calls of different requests
    interleave. A request in progress holds the record it read. */
module Interleaving {
  import opened Common
  import opened Entities
  import T = IndexedTable
  import TS = ThreadStore
  import CS = CommentStore

  datatype ThreadEdit = ThreadEdit(title: Option<string>, body: Option<string>,
                                   isPinned: Option<bool>, isLocked: Option<bool>)

  // UpdateThreadRequest.Apply
  function Edited(t: ThreadData, e: ThreadEdit): ThreadData {
    t.(title := if e.title.Some? then e.title.value else t.title,
       body := if e.body.Some? then e.body.value else t.body,
       isPinned := if e.isPinned.Some? then e.isPinned.value else t.isPinned,
       isLocked := if e.isLocked.Some? then e.isLocked.value else t.isLocked)
  }

  // A request between two of its store calls.
  datatype Proc =
    | Commenting(snap: ThreadData, draft: CommentData)  // thread read, comment not stored yet
    | Counting(snap: ThreadData, comment: string)       // comment stored, thread not written yet
    | Editing(snap: ThreadData, edit: ThreadEdit)       // thread read, not written yet
    | Viewing(id: string)                               // thread read, view not counted yet
    | Revising(read: CommentData, body: Option<string>) // comment read, not written yet

  // History variables; no step reads them. The drift of a thread adds up, over the writes
  // of whole records, by how much the stored reply count was ahead of the one the writer
  // had read; its lost views add up by how much the stored view count was ahead of the one
  // written. The clock of a thread is the last reading taken to store or count a reply to it.
  datatype Log = Log(views: map<string, nat>, drift: map<string, int>, lost: map<string, int>,
                     created: set<string>, clock: map<string, int>)

  datatype State = State(threads: T.Table<ThreadData>, comments: T.Table<CommentData>,
                         procs: map<nat, Proc>, log: Log)

  datatype Step =
    | PostThread(t: ThreadData, at: int)                          // ThreadService.Create
    | ReadForComment(p: nat, draft: CommentData)                  // CommentService.Create
    | StoreComment(p: nat, id: string, at: int)
    | CountReply(p: nat, at: int)
    | ReadForEdit(p: nat, id: string, edit: ThreadEdit)           // ThreadService.Update
    | WriteEdit(p: nat, at: int)
    | ReadForView(p: nat, id: string)                             // ThreadService.GetByID
    | CountView(p: nat)
    | RemoveThread(id: string)                                    // ThreadService.Delete
    | ReadForRevision(p: nat, id: string, body: Option<string>)   // CommentService.Update
    | WriteRevision(p: nat, at: int)
    | RemoveComment(id: string)                                   // CommentService.Delete

  function Views(s: State, id: string): nat {
    if id in s.log.views then s.log.views[id] else 0
  }

  function Drift(s: State, id: string): int {
    if id in s.log.drift then s.log.drift[id] else 0
  }

  function Lost(s: State, id: string): int {
    if id in s.log.lost then s.log.lost[id] else 0
  }

  // CountByThread
  function Count(s: State, id: string): nat {
    |T.Bucket(s.comments, id)|
  }

  function Begin(s: State, p: nat, proc: Proc): State {
    if p in s.procs then s else s.(procs := s.procs[p := proc])
  }

  function End(s: State, p: nat): State {
    s.(procs := s.procs - {p})
  }

  // threadStore.Update with a record whose writer read `seen` replies.
  function WriteThread(s: State, t: ThreadData, seen: int): State {
    var (threads, st) := T.Update(TS.BySchema(), s.threads, t);
    if st.Done? then
      var was := s.threads.items[t.id];
      s.(threads := threads,
         log := s.log.(drift := s.log.drift[t.id := Drift(s, t.id) + was.replyCount - seen],
                       lost := s.log.lost[t.id := Lost(s, t.id) + was.viewCount - t.viewCount]))
    else s
  }

  // The record ThreadService.Create hands to the store, once the checks have passed.
  function Posted(t: ThreadData, at: int): ThreadData {
    NormalThread(t).(viewCount := 0, replyCount := 0, createdAt := at, updatedAt := at)
  }

  // The store takes the new thread.
  predicate Posts(s: State, t: ThreadData, at: int) {
    var r := Posted(t, at);
    r.title != "" && r.boardID != "" && T.Create(TS.BySchema(), s.threads, r).1.Done?
  }

  function PostThreadEffect(s: State, t: ThreadData, at: int): State {
    var r := Posted(t, at);
    if Posts(s, t, at) then
      s.(threads := T.Create(TS.BySchema(), s.threads, r).0, log := s.log.(created := s.log.created + {r.id}))
    else s
  }

  function ReadForCommentEffect(s: State, p: nat, draft: CommentData): State {
    var c := NormalComment(draft);
    if c.body == "" || c.threadID == "" || c.threadID !in s.threads.items then s
    else if s.threads.items[c.threadID].isLocked then s
    else Begin(s, p, Commenting(s.threads.items[c.threadID], c))
  }

  // The record CommentService.Create stores.
  function Stored(draft: CommentData, id: string, at: int): CommentData {
    draft.(id := id, upvotes := 0, downvotes := 0, isDeleted := false, createdAt := at, updatedAt := at)
  }

  function StoreCommentEffect(s: State, p: nat, id: string, at: int): State {
    if p in s.procs && s.procs[p].Commenting? then
      var (comments, st) := T.Create(CS.BySchema(), s.comments, Stored(s.procs[p].draft, id, at));
      if st.Done? then s.(comments := comments, procs := s.procs[p := Counting(s.procs[p].snap, id)])
      else End(s, p)
    else s
  }

  function CountReplyEffect(s: State, p: nat, at: int): State {
    if p in s.procs && s.procs[p].Counting? then
      var snap := s.procs[p].snap;
      End(WriteThread(s, Replied(snap, at).(updatedAt := at), snap.replyCount), p)
    else s
  }

  function ReadForEditEffect(s: State, p: nat, id: string, edit: ThreadEdit): State {
    if id in s.threads.items then Begin(s, p, Editing(s.threads.items[id], edit)) else s
  }

  function WriteEditEffect(s: State, p: nat, at: int): State {
    if p in s.procs && s.procs[p].Editing? then
      var t := NormalThread(Edited(s.procs[p].snap, s.procs[p].edit));
      if t.title == "" then End(s, p)
      else End(WriteThread(s, t.(updatedAt := at), s.procs[p].snap.replyCount), p)
    else s
  }

  function CountViewEffect(s: State, p: nat): State {
    if p in s.procs && s.procs[p].Viewing? then
      var id := s.procs[p].id;
      var (threads, st) := TS.View(s.threads, id);
      if st.Done? then
        End(s.(threads := threads, log := s.log.(views := s.log.views[id := Views(s, id) + 1])), p)
      else End(s, p)
    else s
  }

  function ReadForRevisionEffect(s: State, p: nat, id: string, body: Option<string>): State {
    if id in s.comments.items && !s.comments.items[id].isDeleted
    then Begin(s, p, Revising(s.comments.items[id], body))
    else s
  }

  function WriteRevisionEffect(s: State, p: nat, at: int): State {
    if p in s.procs && s.procs[p].Revising? then
      var c := s.procs[p].read;
      var r := NormalComment(c.(body := if s.procs[p].body.Some? then s.procs[p].body.value else c.body));
      if r.body == "" then End(s, p)
      else End(s.(comments := T.Update(CS.BySchema(), s.comments, r.(updatedAt := at)).0), p)
    else s
  }

  function Effect(s: State, step: Step): State {
    match step
    case PostThread(t, at) => PostThreadEffect(s, t, at)
    case ReadForComment(p, draft) => ReadForCommentEffect(s, p, draft)
    case StoreComment(p, id, at) => StoreCommentEffect(s, p, id, at)
    case CountReply(p, at) => CountReplyEffect(s, p, at)
    case ReadForEdit(p, id, edit) => ReadForEditEffect(s, p, id, edit)
    case WriteEdit(p, at) => WriteEditEffect(s, p, at)
    case ReadForView(p, id) => if id in s.threads.items then Begin(s, p, Viewing(id)) else s
    case CountView(p) => CountViewEffect(s, p)
    case RemoveThread(id) => s.(threads := T.Delete(TS.BySchema(), s.threads, id).0)
    case ReadForRevision(p, id, body) => ReadForRevisionEffect(s, p, id, body)
    case WriteRevision(p, at) => WriteRevisionEffect(s, p, at)
    case RemoveComment(id) => s.(comments := CS.MarkDeleted(s.comments, id).0)
  }

  // The thread for which a step takes a clock reading to store or to count a reply.
  function ReadingFor(s: State, step: Step): Option<string> {
    match step
    case StoreComment(p, _, _) => if p in s.procs && s.procs[p].Commenting? then Some(s.procs[p].snap.id) else None
    case CountReply(p, _) => if p in s.procs && s.procs[p].Counting? then Some(s.procs[p].snap.id) else None
    case _ => None
  }

  function ClockAfter(s: State, step: Step): map<string, int> {
    if ReadingFor(s, step).Some? then s.log.clock[ReadingFor(s, step).value := step.at] else s.log.clock
  }

  function Next(s: State, step: Step): State {
    var s' := Effect(s, step);
    s'.(log := s'.log.(clock := ClockAfter(s, step)))
  }

  function Start(): State {
    State(T.Empty(), T.Empty(), map[], Log(map[], map[], map[], {}, map[]))
  }

  function Run(steps: seq<Step>): State {
    if steps == [] then Start() else Next(Run(steps[..|steps| - 1]), steps[|steps| - 1])
  }

  // ---- Properties of all times ----

  lemma RunLast(steps: seq<Step>)
    requires steps != []
    ensures Run(steps) == Next(Run(steps[..|steps| - 1]), steps[|steps| - 1])
  {
  }

  lemma RunTo(steps: seq<Step>, i: nat)
    requires i < |steps|
    ensures Run(steps[..i + 1]) == Next(Run(steps[..i]), steps[i])
  {
    assert steps[..i + 1][..i] == steps[..i];
  }

  ghost predicate HoldsFrom(steps: seq<Step>, k: nat, good: State -> bool) {
    forall j :: k <= j <= |steps| ==> good(Run(steps[..j]))
  }

  ghost predicate HappensFrom(steps: seq<Step>, k: nat, bad: (State, Step) -> bool) {
    exists i :: k <= i < |steps| && bad(Run(steps[..i]), steps[i])
  }

  // Where a single step breaks a property exactly when it is a bad step, a run keeps it at all
  // times exactly when no bad step happens.
  lemma AllTimesIff(steps: seq<Step>, k: nat, good: State -> bool, bad: (State, Step) -> bool)
    requires k <= |steps| && good(Run(steps[..k]))
    requires forall i :: k <= i < |steps| && good(Run(steps[..i])) ==>
               (good(Next(Run(steps[..i]), steps[i])) <==> !bad(Run(steps[..i]), steps[i]))
    ensures HoldsFrom(steps, k, good) <==> !HappensFrom(steps, k, bad)
  {
    hide Run, Next;
    if HoldsFrom(steps, k, good) {
      forall i | k <= i < |steps| ensures !bad(Run(steps[..i]), steps[i]) {
        RunTo(steps, i);
        assert good(Run(steps[..i + 1]));
      }
    }
    if !HappensFrom(steps, k, bad) {
      forall j | k <= j <= |steps| ensures good(Run(steps[..j])) {
        GoodUpTo(steps, k, j, good, bad);
      }
    }
  }

  lemma {:induction false} GoodUpTo(steps: seq<Step>, k: nat, j: nat, good: State -> bool, bad: (State, Step) -> bool)
    requires k <= j <= |steps| && good(Run(steps[..k]))
    requires forall i :: k <= i < |steps| && good(Run(steps[..i])) ==>
               (good(Next(Run(steps[..i]), steps[i])) <==> !bad(Run(steps[..i]), steps[i]))
    requires !HappensFrom(steps, k, bad)
    ensures good(Run(steps[..j]))
    decreases j
  {
    hide Run, Next;
    if j > k {
      GoodUpTo(steps, k, j - 1, good, bad);
      RunTo(steps, j - 1);
    }
  }

  // ---- Every interleaving ----

  // A record may overstate neither its replies (counting `pending` more to come) nor its views.
  ghost predicate Modest(s: State, t: ThreadData, pending: nat) {
    t.replyCount + pending <= Count(s, t.id) && t.viewCount <= Views(s, t.id)
  }

  ghost predicate ModestProc(s: State, proc: Proc) {
    match proc
    case Commenting(snap, draft) => draft.threadID == snap.id && Modest(s, snap, 0)
    case Counting(snap, _) => Modest(s, snap, 1)
    case Editing(snap, _) => Modest(s, snap, 0)
    case _ => true
  }

  ghost predicate AllModest(s: State) {
    && (forall id :: id in s.threads.items ==> s.threads.items[id].id == id && Modest(s, s.threads.items[id], 0))
    && (forall p :: p in s.procs ==> ModestProc(s, s.procs[p]))
  }

  // Counts and views only grow.
  lemma CountsGrow(s: State, step: Step, id: string)
    ensures Count(Next(s, step), id) >= Count(s, id)
    ensures Views(Next(s, step), id) >= Views(s, id)
  {
  }

  lemma ModestGrows(s: State, s': State)
    requires forall id :: Count(s', id) >= Count(s, id) && Views(s', id) >= Views(s, id)
    requires AllModest(s)
    ensures forall id :: id in s.threads.items ==> Modest(s', s.threads.items[id], 0)
    ensures forall p :: p in s.procs ==> ModestProc(s', s.procs[p])
  {
  }

  predicate ChangesThreads(step: Step) {
    step.PostThread? || step.CountReply? || step.WriteEdit? || step.CountView? || step.RemoveThread?
  }

  lemma WriteStepKeepsModest(s: State, step: Step)
    requires AllModest(s) && (step.CountReply? || step.WriteEdit?)
    ensures AllModest(Next(s, step))
  {
    StepLiftsModest(s, step);
    hide Count, Views;
  }

  lemma ThreadStepKeepsModest(s: State, step: Step)
    requires AllModest(s) && (step.PostThread? || step.CountView? || step.RemoveThread?)
    ensures AllModest(Next(s, step))
  {
    StepLiftsModest(s, step);
  }

  lemma ReadStepKeepsModest(s: State, step: Step)
    requires AllModest(s) && (step.ReadForComment? || step.ReadForEdit? || step.ReadForView? || step.ReadForRevision?)
    ensures AllModest(Next(s, step))
  {
    StepLiftsModest(s, step);
    hide Count, Views;
  }

  lemma CommentStepKeepsModest(s: State, step: Step)
    requires AllModest(s) && (step.StoreComment? || step.WriteRevision? || step.RemoveComment?)
    ensures AllModest(Next(s, step))
  {
    StepLiftsModest(s, step);
  }

  lemma StepKeepsModest(s: State, step: Step)
    requires AllModest(s)
    ensures AllModest(Next(s, step))
  {
    hide *;
    if step.CountReply? || step.WriteEdit? {
      WriteStepKeepsModest(s, step);
    } else if step.PostThread? || step.CountView? || step.RemoveThread? {
      ThreadStepKeepsModest(s, step);
    } else if step.StoreComment? || step.WriteRevision? || step.RemoveComment? {
      CommentStepKeepsModest(s, step);
    } else {
      ReadStepKeepsModest(s, step);
    }
  }

  // What was modest before a step still is, measured after it.
  lemma StepLiftsModest(s: State, step: Step)
    requires AllModest(s)
    ensures forall id :: id in s.threads.items ==> Modest(Next(s, step), s.threads.items[id], 0)
    ensures forall p :: p in s.procs ==> ModestProc(Next(s, step), s.procs[p])
  {
    var s' := Next(s, step);
    forall id ensures Count(s', id) >= Count(s, id) && Views(s', id) >= Views(s, id) {
      CountsGrow(s, step, id);
    }
    ModestGrows(s, s');
  }

  /** Under every interleaving of comment creations, thread updates, views, soft deletes and
      thread deletes, no thread ever shows more replies than it has comments, nor more views
      than were counted, although stale writes may lose updates. */
  lemma {:induction false} NeverOverstated(steps: seq<Step>)
    ensures AllModest(Run(steps))
  {
    if steps != [] {
      NeverOverstated(steps[..|steps| - 1]);
      StepKeepsModest(Run(steps[..|steps| - 1]), steps[|steps| - 1]);
    }
  }

  // ---- The last reply ----

  ghost predicate Dated(t: ThreadData) {
    t.replyCount >= 0 && (t.lastReplyAt.Some? <==> t.replyCount > 0)
  }

  ghost predicate DatedProc(proc: Proc) {
    match proc
    case Commenting(snap, _) => Dated(snap)
    case Counting(snap, _) => Dated(snap)
    case Editing(snap, _) => Dated(snap)
    case _ => true
  }

  ghost predicate AllDated(s: State) {
    && (forall id :: id in s.threads.items ==> Dated(s.threads.items[id]))
    && (forall p :: p in s.procs ==> DatedProc(s.procs[p]))
  }

  lemma WriteThreadKeepsDated(s: State, t: ThreadData, seen: int, p: nat)
    requires AllDated(s) && Dated(t)
    ensures AllDated(End(WriteThread(s, t, seen), p)) && AllDated(End(s, p))
  {
  }

  lemma PostKeepsDated(s: State, t: ThreadData, at: int)
    requires AllDated(s) && (Posts(s, t, at) ==> t.lastReplyAt == None)
    ensures AllDated(PostThreadEffect(s, t, at))
  {
  }

  lemma StoreKeepsDated(s: State, p: nat, id: string, at: int)
    requires AllDated(s)
    ensures AllDated(StoreCommentEffect(s, p, id, at))
  {
  }

  lemma OtherStepKeepsDated(s: State, step: Step)
    requires AllDated(s)
    requires !step.PostThread? && !step.StoreComment? && !step.CountReply? && !step.WriteEdit?
    ensures AllDated(Effect(s, step))
  {
  }

  // What posting a thread must not bring with it.
  predicate PostsUndated(s: State, step: Step) {
    step.PostThread? && Posts(s, step.t, step.at) ==> step.t.lastReplyAt == None
  }

  lemma StepKeepsDated(s: State, step: Step)
    requires AllDated(s) && PostsUndated(s, step)
    ensures AllDated(Next(s, step))
  {
    assert AllDated(Effect(s, step)) by {
      hide AllDated;
      match step
      case PostThread(t, at) => PostKeepsDated(s, t, at);
      case StoreComment(p, id, at) => StoreKeepsDated(s, p, id, at);
      case CountReply(p, at) =>
        if p in s.procs && s.procs[p].Counting? {
          var snap := s.procs[p].snap;
          assert Dated(snap) by { HeldAreDated(s, p); }
          WriteThreadKeepsDated(s, Replied(snap, at).(updatedAt := at), snap.replyCount, p);
        }
      case WriteEdit(p, at) =>
        if p in s.procs && s.procs[p].Editing? {
          var snap := s.procs[p].snap;
          assert Dated(snap) by { HeldAreDated(s, p); }
          var t := NormalThread(Edited(snap, s.procs[p].edit));
          WriteThreadKeepsDated(s, t.(updatedAt := at), snap.replyCount, p);
        }
      case _ => OtherStepKeepsDated(s, step);
    }
    hide Effect;
  }

  lemma HeldAreDated(s: State, p: nat)
    requires AllDated(s) && p in s.procs && (s.procs[p].Counting? || s.procs[p].Editing?)
    ensures Dated(s.procs[p].snap)
  {
    assert DatedProc(s.procs[p]);
  }

  /** Posting a thread is where it can go wrong: ThreadService.Create resets the counts but
      not the time of the last reply. */
  lemma PostKeepsDatedIff(s: State, t: ThreadData, at: int)
    requires AllDated(s) && Posts(s, t, at)
    ensures AllDated(Next(s, PostThread(t, at))) <==> t.lastReplyAt == None
  {
    if t.lastReplyAt == None {
      StepKeepsDated(s, PostThread(t, at));
    }
    var s' := Next(s, PostThread(t, at));
    assert s'.threads.items[t.id] == Posted(t, at);
  }

  lemma DatedStepIff(s: State, step: Step)
    requires AllDated(s)
    ensures AllDated(Next(s, step)) <==> PostsUndated(s, step)
  {
    if PostsUndated(s, step) {
      StepKeepsDated(s, step);
    } else {
      PostKeepsDatedIff(s, step.t, step.at);
    }
  }

  /** In every run, in the store and in every record a request holds, the time of the last
      reply is set exactly when there are replies, at all times, if and only if no thread is
      ever posted with one. */
  lemma LastReplyIffReplies(steps: seq<Step>)
    ensures HoldsFrom(steps, 0, s => AllDated(s)) <==> !HappensFrom(steps, 0, (s, step) => !PostsUndated(s, step))
  {
    assert steps[..0] == [] && AllDated(Start());
    hide AllDated, PostsUndated, Next;
    forall i | 0 <= i < |steps| && AllDated(Run(steps[..i]))
      ensures AllDated(Next(Run(steps[..i]), steps[i])) <==> PostsUndated(Run(steps[..i]), steps[i])
    {
      DatedStepIff(Run(steps[..i]), steps[i]);
    }
    AllTimesIff(steps, 0, s => AllDated(s), (s, step) => !PostsUndated(s, step));
  }

  // ---- Conservation of replies ----

  // The creations that have stored their comment but not yet written the thread.
  ghost function InFlight(s: State, id: string): set<nat> {
    set p | p in s.procs && s.procs[p].Counting? && s.procs[p].snap.id == id
  }

  ghost predicate OpensSpan(proc: Proc) {
    proc.Commenting? || proc.Counting? || proc.Editing?
  }

  // Everything that refers to a thread refers to one that was created at some time.
  ghost predicate Known(s: State) {
    && (forall id :: id in s.threads.items ==> id != "" && s.threads.items[id].id == id && id in s.log.created)
    && (forall id :: Count(s, id) > 0 || Drift(s, id) != 0 ==> id in s.log.created)
    && (forall p :: p in s.procs && OpensSpan(s.procs[p]) ==> s.procs[p].snap.id in s.log.created)
    && (forall p :: p in s.procs && s.procs[p].Commenting? ==> s.procs[p].draft.threadID == s.procs[p].snap.id)
  }

  lemma WriteThreadKeepsKnown(s: State, t: ThreadData, seen: int)
    requires Known(s) && t.id in s.log.created
    ensures Known(WriteThread(s, t, seen))
  {
  }

  lemma EndKeepsKnown(s: State, p: nat)
    requires Known(s)
    ensures Known(End(s, p))
  {
  }

  lemma WriteStepKeepsKnown(s: State, step: Step)
    requires Known(s) && (step.CountReply? || step.WriteEdit?)
    ensures Known(Effect(s, step))
  {
    var p, at := step.p, step.at;
    if step.CountReply? && p in s.procs && s.procs[p].Counting? {
      var snap := s.procs[p].snap;
      WriteThreadKeepsKnown(s, Replied(snap, at).(updatedAt := at), snap.replyCount);
      hide Known;
      EndKeepsKnown(WriteThread(s, Replied(snap, at).(updatedAt := at), snap.replyCount), p);
    } else if step.WriteEdit? && p in s.procs && s.procs[p].Editing? {
      var snap := s.procs[p].snap;
      var t := NormalThread(Edited(snap, s.procs[p].edit));
      WriteThreadKeepsKnown(s, t.(updatedAt := at), snap.replyCount);
      hide Known;
      EndKeepsKnown(s, p);
      EndKeepsKnown(WriteThread(s, t.(updatedAt := at), snap.replyCount), p);
    }
  }

  lemma PostKeepsKnown(s: State, t: ThreadData, at: int)
    requires Known(s)
    ensures Known(PostThreadEffect(s, t, at))
  {
  }

  lemma ViewKeepsKnown(s: State, p: nat)
    requires Known(s)
    ensures Known(CountViewEffect(s, p))
  {
  }

  lemma StoreKeepsKnown(s: State, p: nat, id: string, at: int)
    requires Known(s)
    ensures Known(StoreCommentEffect(s, p, id, at))
  {
  }

  lemma OtherStepKeepsKnown(s: State, step: Step)
    requires Known(s) && (step.RemoveThread? || !ChangesThreads(step))
    requires !step.StoreComment? && !step.WriteRevision?
    ensures Known(Effect(s, step))
  {
  }

  lemma RevisionKeepsKnown(s: State, p: nat, at: int)
    requires Known(s)
    ensures Known(WriteRevisionEffect(s, p, at))
  {
  }

  lemma EffectKeepsKnown(s: State, step: Step)
    requires Known(s)
    ensures Known(Effect(s, step))
  {
    hide Known, PostThreadEffect, StoreCommentEffect, CountViewEffect, WriteRevisionEffect;
    match step
    case PostThread(t, at) => PostKeepsKnown(s, t, at);
    case StoreComment(p, id, at) => StoreKeepsKnown(s, p, id, at);
    case CountView(p) => ViewKeepsKnown(s, p);
    case WriteRevision(p, at) => RevisionKeepsKnown(s, p, at);
    case CountReply(_, _) => WriteStepKeepsKnown(s, step);
    case WriteEdit(_, _) => WriteStepKeepsKnown(s, step);
    case _ => OtherStepKeepsKnown(s, step);
  }

  // The clock is no part of it.
  lemma StepKeepsKnown(s: State, step: Step)
    requires Known(s)
    ensures Known(Next(s, step))
  {
    EffectKeepsKnown(s, step);
    hide Effect;
  }

  // The identifier of a thread is not used again.
  predicate NewThreadId(s: State, step: Step, id: string) {
    step.PostThread? && step.t.id == id && Posts(s, step.t, step.at) ==> id !in s.log.created
  }

  ghost predicate NoReuse(steps: seq<Step>, id: string) {
    forall i :: 0 <= i < |steps| ==> NewThreadId(Run(steps[..i]), steps[i], id)
  }

  ghost predicate Balanced(s: State, id: string) {
    id in s.threads.items
    ==> Count(s, id) == s.threads.items[id].replyCount + |InFlight(s, id)| + Drift(s, id)
  }

  // Writing a whole record moves the reply count and the drift in opposite directions.
  lemma WriteThreadBalance(s: State, t: ThreadData, seen: int, id: string)
    requires Known(s) && id in s.threads.items
    ensures var s' := WriteThread(s, t, seen);
            && id in s'.threads.items
            && s'.threads.items[id].replyCount + Drift(s', id)
               == s.threads.items[id].replyCount + Drift(s, id) + (if t.id == id then t.replyCount - seen else 0)
  {
  }

  lemma PostBalance(s: State, t: ThreadData, at: int, id: string)
    requires Known(s) && Balanced(s, id) && NewThreadId(s, PostThread(t, at), id)
    ensures Balanced(PostThreadEffect(s, t, at), id)
  {
    var s' := PostThreadEffect(s, t, at);
    assert InFlight(s', id) == InFlight(s, id);
    if id == t.id && Posts(s, t, at) {
      assert InFlight(s, id) == {};
    }
  }

  lemma StoreBalance(s: State, p: nat, c: string, at: int, id: string)
    requires Known(s) && Balanced(s, id)
    ensures Balanced(StoreCommentEffect(s, p, c, at), id)
  {
    var s' := StoreCommentEffect(s, p, c, at);
    if p in s.procs && s.procs[p].Commenting? {
      if p in InFlight(s', id) {
        assert InFlight(s', id) == InFlight(s, id) + {p};
      } else {
        assert InFlight(s', id) == InFlight(s, id);
      }
    }
  }

  lemma CountReplyBalance(s: State, p: nat, at: int, id: string)
    requires Known(s) && Balanced(s, id) && p in s.procs && s.procs[p].Counting?
    ensures Balanced(CountReplyEffect(s, p, at), id)
  {
    var s', snap := CountReplyEffect(s, p, at), s.procs[p].snap;
    if id in s'.threads.items {
      WriteThreadBalance(s, Replied(snap, at).(updatedAt := at), snap.replyCount, id);
      assert InFlight(s', id) == InFlight(s, id) - {p};
    }
  }

  lemma WriteEditBalance(s: State, p: nat, at: int, id: string)
    requires Known(s) && Balanced(s, id) && p in s.procs && s.procs[p].Editing?
    ensures Balanced(WriteEditEffect(s, p, at), id)
  {
    var s', snap := WriteEditEffect(s, p, at), s.procs[p].snap;
    assert InFlight(s', id) == InFlight(s, id);
    if id in s'.threads.items {
      WriteThreadBalance(s, NormalThread(Edited(snap, s.procs[p].edit)).(updatedAt := at), snap.replyCount, id);
    }
  }

  // No other step touches a reply count, a comment count, a drift or a pending creation.
  lemma OtherBalance(s: State, step: Step, id: string)
    requires Known(s) && Balanced(s, id)
    requires !step.PostThread? && !step.StoreComment? && !step.CountReply? && !step.WriteEdit?
    ensures Balanced(Effect(s, step), id)
  {
    OtherKeepsFlight(s, step, id);
    hide InFlight;
    var s' := Effect(s, step);
    assert Count(s', id) == Count(s, id) && Drift(s', id) == Drift(s, id);
  }

  lemma OtherKeepsFlight(s: State, step: Step, id: string)
    requires !step.PostThread? && !step.StoreComment? && !step.CountReply? && !step.WriteEdit?
    ensures InFlight(Effect(s, step), id) == InFlight(s, id)
  {
  }

  lemma StepKeepsBalance(s: State, step: Step, id: string)
    requires Known(s) && NewThreadId(s, step, id) && Balanced(s, id)
    ensures Balanced(Next(s, step), id)
  {
    var s' := Effect(s, step);
    assert Balanced(s', id) by {
      match step
      case PostThread(t, at) => PostBalance(s, t, at, id);
      case StoreComment(p, c, at) => StoreBalance(s, p, c, at, id);
      case CountReply(p, at) => if p in s.procs && s.procs[p].Counting? { CountReplyBalance(s, p, at, id); }
      case WriteEdit(p, at) => if p in s.procs && s.procs[p].Editing? { WriteEditBalance(s, p, at, id); }
      case _ => OtherBalance(s, step, id);
    }
    hide Effect;
    assert InFlight(Next(s, step), id) == InFlight(s', id);
  }

  /** Conservation: under every interleaving, as long as the identifier of a thread is not
      reused, its comments are its replies, plus the creations that have stored a comment
      but not yet counted it, plus the net drift of stale writes. */
  lemma {:induction false} RepliesConserved(steps: seq<Step>, id: string)
    requires NoReuse(steps, id)
    ensures Known(Run(steps)) && Balanced(Run(steps), id)
  {
    if steps != [] {
      var init, step := steps[..|steps| - 1], steps[|steps| - 1];
      NoReuseInit(steps, id);
      hide *;
      RepliesConserved(init, id);
      StepKeepsKnown(Run(init), step);
      StepKeepsBalance(Run(init), step, id);
      RunLast(steps);
    } else {
      assert InFlight(Run(steps), id) == {};
    }
  }

  /** So with no creation in flight the reply count is exact if and only if the drift is
      zero: if the writes of stale records made up for one another. */
  lemma {:induction false} ExactIffNoDrift(steps: seq<Step>, id: string)
    requires NoReuse(steps, id)
    requires id in Run(steps).threads.items && InFlight(Run(steps), id) == {}
    ensures Count(Run(steps), id) == Run(steps).threads.items[id].replyCount <==> Drift(Run(steps), id) == 0
  {
    RepliesConserved(steps, id);
  }

  // ---- Spans that do not overlap ----

  // Some request has read the thread and not written it yet.
  ghost predicate SpanOn(s: State, id: string) {
    exists p :: p in s.procs && OpensSpan(s.procs[p]) && s.procs[p].snap.id == id
  }

  // A request reads the thread only while no other is between its read and its write.
  ghost predicate WaitsFor(s: State, step: Step, id: string) {
    && (step.ReadForComment? && step.draft.threadID == id ==> !SpanOn(s, id))
    && (step.ReadForEdit? && step.id == id ==> !SpanOn(s, id))
  }

  ghost predicate NoOverlap(steps: seq<Step>, id: string) {
    forall i :: 0 <= i < |steps| ==> WaitsFor(Run(steps[..i]), steps[i], id)
  }

  lemma NoReuseInit(steps: seq<Step>, id: string)
    requires NoReuse(steps, id) && steps != []
    ensures var init := steps[..|steps| - 1]; NoReuse(init, id) && NewThreadId(Run(init), steps[|steps| - 1], id)
  {
    var init := steps[..|steps| - 1];
    hide Run, NewThreadId;
    forall i | 0 <= i < |init| ensures NewThreadId(Run(init[..i]), init[i], id) {
      assert init[..i] == steps[..i] && NewThreadId(Run(steps[..i]), steps[i], id);
    }
    assert steps[..|init|] == init;
  }

  lemma NoOverlapInit(steps: seq<Step>, id: string)
    requires NoOverlap(steps, id) && steps != []
    ensures var init := steps[..|steps| - 1]; NoOverlap(init, id) && WaitsFor(Run(init), steps[|steps| - 1], id)
  {
    var init := steps[..|steps| - 1];
    hide Run, WaitsFor;
    forall i | 0 <= i < |init| ensures WaitsFor(Run(init[..i]), init[i], id) {
      assert init[..i] == steps[..i] && WaitsFor(Run(steps[..i]), steps[i], id);
    }
    assert steps[..|init|] == init;
  }

  ghost predicate SpansOn(s: State, p: nat, id: string) {
    p in s.procs && OpensSpan(s.procs[p]) && s.procs[p].snap.id == id
  }

  // At most one open span, its record up to date in all but the views, and no drift.
  ghost predicate UpToDate(s: State, id: string) {
    && Drift(s, id) == 0
    && (forall p, q :: SpansOn(s, p, id) && SpansOn(s, q, id) ==> p == q)
    && (forall p :: SpansOn(s, p, id) && id in s.threads.items ==>
          s.procs[p].snap == s.threads.items[id].(viewCount := s.procs[p].snap.viewCount))
  }

  // The writer is the only one with an open span, so it writes back what it would read now.
  lemma WriteKeepsUpToDate(s: State, step: Step, p: nat, id: string)
    requires Known(s) && UpToDate(s, id) && p in s.procs
    requires (step.CountReply? && step.p == p && s.procs[p].Counting?)
          || (step.WriteEdit? && step.p == p && s.procs[p].Editing?)
    ensures UpToDate(Effect(s, step), id)
  {
    var s' := Effect(s, step);
    assert forall q :: SpansOn(s', q, id) ==> SpansOn(s, q, id) && q != p;
    if SpansOn(s, p, id) {
      assert forall q :: !SpansOn(s', q, id);
    }
  }

  lemma PostKeepsUpToDate(s: State, t: ThreadData, at: int, id: string)
    requires Known(s) && UpToDate(s, id) && NewThreadId(s, PostThread(t, at), id)
    ensures UpToDate(PostThreadEffect(s, t, at), id)
  {
    var s' := PostThreadEffect(s, t, at);
    assert forall p :: SpansOn(s', p, id) ==> SpansOn(s, p, id) && id in s.log.created;
  }

  lemma ThreadStepKeepsUpToDate(s: State, step: Step, id: string)
    requires Known(s) && UpToDate(s, id) && NewThreadId(s, step, id) && ChangesThreads(step)
    ensures UpToDate(Effect(s, step), id)
  {
    var s' := Effect(s, step);
    match step
    case CountReply(p, _) => if s' != s { WriteKeepsUpToDate(s, step, p, id); }
    case WriteEdit(p, _) => if s' != s { WriteKeepsUpToDate(s, step, p, id); }
    case PostThread(t, at) => PostKeepsUpToDate(s, t, at, id);
    case CountView(_) => assert forall p :: SpansOn(s', p, id) ==> SpansOn(s, p, id);
    case RemoveThread(_) => assert forall p :: SpansOn(s', p, id) ==> SpansOn(s, p, id);
  }

  // A read opens the only span, with the record as it is.
  lemma ReadKeepsUpToDate(s: State, step: Step, id: string)
    requires Known(s) && UpToDate(s, id) && WaitsFor(s, step, id) && (step.ReadForComment? || step.ReadForEdit?)
    ensures UpToDate(Effect(s, step), id)
  {
    var s' := Effect(s, step);
    assert s'.threads == s.threads && s'.log == s.log;
    assert forall p :: SpansOn(s', p, id) && !SpansOn(s, p, id) ==> p == step.p && !SpanOn(s, id);
    assert forall p :: SpansOn(s, p, id) ==> SpanOn(s, id);
  }

  lemma OtherStepKeepsUpToDate(s: State, step: Step, id: string)
    requires UpToDate(s, id) && !ChangesThreads(step) && !step.ReadForComment? && !step.ReadForEdit?
    ensures UpToDate(Effect(s, step), id)
  {
    var s' := Effect(s, step);
    assert s'.threads == s.threads && s'.log == s.log;
    assert forall p :: SpansOn(s', p, id) ==> SpansOn(s, p, id) && s'.procs[p].snap == s.procs[p].snap;
  }

  lemma StepKeepsUpToDate(s: State, step: Step, id: string)
    requires Known(s) && UpToDate(s, id) && NewThreadId(s, step, id) && WaitsFor(s, step, id)
    ensures UpToDate(Next(s, step), id)
  {
    if ChangesThreads(step) {
      ThreadStepKeepsUpToDate(s, step, id);
    } else if step.ReadForComment? || step.ReadForEdit? {
      ReadKeepsUpToDate(s, step, id);
    } else {
      OtherStepKeepsUpToDate(s, step, id);
    }
    hide Effect;
    assert forall p :: SpansOn(Next(s, step), p, id) ==> SpansOn(Effect(s, step), p, id);
  }

  lemma {:induction false} AlwaysUpToDate(steps: seq<Step>, id: string)
    requires NoReuse(steps, id) && NoOverlap(steps, id)
    ensures Known(Run(steps)) && UpToDate(Run(steps), id)
  {
    if steps != [] {
      var init, step := steps[..|steps| - 1], steps[|steps| - 1];
      NoReuseInit(steps, id);
      NoOverlapInit(steps, id);
      hide *;
      AlwaysUpToDate(init, id);
      StepKeepsKnown(Run(init), step);
      StepKeepsUpToDate(Run(init), step, id);
      RunLast(steps);
    }
  }

  /** Where the spans on one thread do not overlap and its identifier is not reused, its
      reply count is exact but for the creations in flight; spans on other threads interleave
      freely. At rest the counts agree. */
  lemma RepliesExact(steps: seq<Step>, id: string)
    requires NoReuse(steps, id) && NoOverlap(steps, id)
    ensures var s := Run(steps);
            && Known(s) && UpToDate(s, id)
            && (id in s.threads.items ==> Count(s, id) == s.threads.items[id].replyCount + |InFlight(s, id)|)
            && (id in s.threads.items && !SpanOn(s, id) ==> Count(s, id) == s.threads.items[id].replyCount)
  {
    RepliesConserved(steps, id);
    AlwaysUpToDate(steps, id);
    hide Run, NoReuse, NoOverlap;
    var s := Run(steps);
    assert !SpanOn(s, id) ==> InFlight(s, id) == {};
  }

  // ---- Comments and their times ----

  ghost predicate CommentsSound(s: State) {
    && (forall c :: c in s.comments.items ==> SoundComment(s, c))
    && (forall p :: p in s.procs ==> SoundProc(s, s.procs[p]))
  }

  // A comment is filed under its own identifier, in a thread that was created.
  ghost predicate SoundComment(s: State, c: string)
    requires c in s.comments.items
  {
    && c != "" && s.comments.items[c].id == c
    && s.comments.items[c].threadID in s.log.created
  }

  // A comment in progress agrees with the stored one in what never changes.
  ghost predicate SoundProc(s: State, proc: Proc) {
    match proc
    case Counting(snap, c) => c in s.comments.items && s.comments.items[c].threadID == snap.id
    case Revising(read, _) =>
      && read.id in s.comments.items
      && s.comments.items[read.id].threadID == read.threadID
      && s.comments.items[read.id].createdAt == read.createdAt
      && !read.isDeleted
    case _ => true
  }

  // The readings for one thread do not go back.
  predicate ClockGoesOn(s: State, step: Step, id: string) {
    ReadingFor(s, step) == Some(id) && id in s.log.clock ==> step.at >= s.log.clock[id]
  }

  // No comment of the thread was created later than its clock.
  ghost predicate InPast(s: State, id: string) {
    forall c :: c in s.comments.items && s.comments.items[c].threadID == id
      ==> id in s.log.clock && s.comments.items[c].createdAt <= s.log.clock[id]
  }

  lemma StepKeepsPast(s: State, step: Step, id: string)
    requires Known(s) && CommentsSound(s) && InPast(s, id) && ClockGoesOn(s, step, id)
    ensures InPast(Next(s, step), id)
  {
    var s' := Next(s, step);
    forall c | c in s'.comments.items && s'.comments.items[c].threadID == id
      ensures id in s'.log.clock && s'.comments.items[c].createdAt <= s'.log.clock[id]
    {
      if c in s.comments.items { CommentsPersist(s, step, c); }
    }
  }

  // What no step changes about a stored comment.
  ghost predicate Persists(s: State, s': State, c: string)
    requires c in s.comments.items
  {
    && c in s'.comments.items
    && s'.comments.items[c].id == c
    && s'.comments.items[c].threadID == s.comments.items[c].threadID
    && s'.comments.items[c].createdAt == s.comments.items[c].createdAt
  }

  lemma RevisionPersists(s: State, p: nat, at: int, c: string)
    requires CommentsSound(s) && c in s.comments.items
    ensures Persists(s, WriteRevisionEffect(s, p, at), c)
  {
    if p in s.procs {
      assert SoundProc(s, s.procs[p]);
    }
    assert SoundComment(s, c);
  }

  lemma OtherPersists(s: State, step: Step, c: string)
    requires CommentsSound(s) && c in s.comments.items && !step.WriteRevision?
    ensures Persists(s, Effect(s, step), c)
  {
    assert SoundComment(s, c);
  }

  lemma CommentsPersist(s: State, step: Step, c: string)
    requires CommentsSound(s) && c in s.comments.items
    ensures Persists(s, Next(s, step), c)
  {
    if step.WriteRevision? {
      RevisionPersists(s, step.p, step.at, c);
      assert Effect(s, step) == WriteRevisionEffect(s, step.p, step.at);
    } else {
      OtherPersists(s, step, c);
    }
    hide Effect, CommentsSound;
  }

  lemma StepKeepsComments(s: State, step: Step)
    requires Known(s) && CommentsSound(s)
    ensures CommentsSound(Next(s, step))
  {
    var s' := Next(s, step);
    forall c | c in s'.comments.items ensures SoundComment(s', c) {
      if c in s.comments.items {
        CommentsPersist(s, step, c);
        assert SoundComment(s, c);
        CreatedGrows(s, step);
      } else {
        NewCommentSound(s, step, c);
      }
    }
    forall p | p in s'.procs ensures SoundProc(s', s'.procs[p]) {
      ProcStaysSound(s, step, p);
    }
  }

  lemma CreatedGrows(s: State, step: Step)
    ensures s.log.created <= Next(s, step).log.created
  {
  }

  lemma NewCommentSound(s: State, step: Step, c: string)
    requires Known(s) && CommentsSound(s)
    requires c in Next(s, step).comments.items && c !in s.comments.items
    ensures SoundComment(Next(s, step), c)
  {
  }

  lemma ProcStaysSound(s: State, step: Step, p: nat)
    requires Known(s) && CommentsSound(s) && p in Next(s, step).procs
    ensures SoundProc(Next(s, step), Next(s, step).procs[p])
  {
    var s' := Next(s, step);
    forall c | c in s.comments.items ensures c in s'.comments.items
        && s'.comments.items[c].threadID == s.comments.items[c].threadID
        && s'.comments.items[c].createdAt == s.comments.items[c].createdAt {
      CommentsPersist(s, step, c);
    }
    if p in s.procs && s'.procs[p] == s.procs[p] {
      assert SoundProc(s, s.procs[p]);
    } else {
      NewProcSound(s, step, p);
    }
  }

  lemma NewProcSound(s: State, step: Step, p: nat)
    requires Known(s) && CommentsSound(s) && p in Next(s, step).procs
    requires p !in s.procs || Next(s, step).procs[p] != s.procs[p]
    ensures SoundProc(Next(s, step), Next(s, step).procs[p])
  {
    if step.ReadForRevision? && step.id in s.comments.items {
      assert SoundComment(s, step.id);
    }
  }

  // Comment c of the thread is no later than the thread's last reply.
  ghost predicate CoveredBy(s: State, c: string, id: string)
    requires c in s.comments.items && id in s.threads.items
  {
    s.threads.items[id].lastReplyAt.Some? && s.comments.items[c].createdAt <= s.threads.items[id].lastReplyAt.value
  }

  ghost predicate IsInFlight(s: State, c: string) {
    exists p :: p in s.procs && CountsFor(s.procs[p], c)
  }

  ghost predicate CountsFor(proc: Proc, c: string) {
    proc.Counting? && proc.comment == c
  }

  ghost predicate Covered(s: State, id: string) {
    id in s.threads.items ==>
      forall c :: c in s.comments.items && s.comments.items[c].threadID == id
        ==> IsInFlight(s, c) || CoveredBy(s, c, id)
  }

  // The write that counts a reply covers every comment stored so far.
  lemma CountReplyCovers(s: State, p: nat, at: int, id: string)
    requires Known(s) && InPast(s, id) && (id in s.log.clock ==> at >= s.log.clock[id])
    requires p in s.procs && s.procs[p].Counting? && s.procs[p].snap.id == id
    ensures Covered(CountReplyEffect(s, p, at), id)
  {
  }

  // A creation on another thread leaves the comments of this one in flight.
  lemma OtherCountKeepsFlight(s: State, p: nat, at: int, id: string, c: string)
    requires CommentsSound(s) && p in s.procs && s.procs[p].Counting? && s.procs[p].snap.id != id
    requires c in s.comments.items && s.comments.items[c].threadID == id && IsInFlight(s, c)
    ensures IsInFlight(CountReplyEffect(s, p, at), c)
  {
    var q :| q in s.procs && CountsFor(s.procs[q], c);
    assert SoundProc(s, s.procs[p]) && q != p;
    assert q in CountReplyEffect(s, p, at).procs && CountsFor(CountReplyEffect(s, p, at).procs[q], c);
  }

  // Every step but the counting of a reply leaves a comment in flight.
  lemma FlightPersists(s: State, step: Step, c: string)
    requires IsInFlight(s, c) && !step.CountReply?
    ensures IsInFlight(Effect(s, step), c)
  {
    var q :| q in s.procs && CountsFor(s.procs[q], c);
    assert q in Effect(s, step).procs && CountsFor(Effect(s, step).procs[q], c);
  }

  // Short of counting a reply, no step moves the last reply of a thread whose open span is
  // up to date.
  lemma LastReplyPersists(s: State, step: Step, id: string)
    requires Known(s) && UpToDate(s, id) && id in s.threads.items && id in Effect(s, step).threads.items
    requires step.CountReply? && step.p in s.procs && s.procs[step.p].Counting? ==> s.procs[step.p].snap.id != id
    ensures Effect(s, step).threads.items[id].lastReplyAt == s.threads.items[id].lastReplyAt
  {
    if step.WriteEdit? && step.p in s.procs && s.procs[step.p].Editing? && s.procs[step.p].snap.id == id {
      assert SpansOn(s, step.p, id);
    }
  }

  lemma StepKeepsCovered(s: State, step: Step, id: string, c: string)
    requires Known(s) && CommentsSound(s) && InPast(s, id) && UpToDate(s, id) && Covered(s, id)
    requires NewThreadId(s, step, id) && ClockGoesOn(s, step, id)
    requires id in Effect(s, step).threads.items && c in Effect(s, step).comments.items
    requires Effect(s, step).comments.items[c].threadID == id
    ensures IsInFlight(Effect(s, step), c) || CoveredBy(Effect(s, step), c, id)
  {
    if step.CountReply? && step.p in s.procs && s.procs[step.p].Counting? && s.procs[step.p].snap.id == id {
      CountReplyCovers(s, step.p, step.at, id);
    } else if c !in s.comments.items {
      NewCommentInFlight(s, step, c);
    } else {
      OldCommentCovered(s, step, id, c);
    }
  }

  lemma NewCommentInFlight(s: State, step: Step, c: string)
    requires c !in s.comments.items && c in Effect(s, step).comments.items
    ensures IsInFlight(Effect(s, step), c)
  {
    assert step.StoreComment? && step.p in Effect(s, step).procs && CountsFor(Effect(s, step).procs[step.p], c);
  }

  lemma OldCommentCovered(s: State, step: Step, id: string, c: string)
    requires Known(s) && CommentsSound(s) && UpToDate(s, id) && Covered(s, id) && NewThreadId(s, step, id)
    requires step.CountReply? && step.p in s.procs && s.procs[step.p].Counting? ==> s.procs[step.p].snap.id != id
    requires id in Effect(s, step).threads.items && c in s.comments.items && c in Effect(s, step).comments.items
    requires Effect(s, step).comments.items[c].threadID == id
    ensures IsInFlight(Effect(s, step), c) || CoveredBy(Effect(s, step), c, id)
  {
    CommentsPersist(s, step, c);
    assert SoundComment(s, c);
    ThreadWasThere(s, step, id);
    if !IsInFlight(s, c) {
      LastReplyPersists(s, step, id);
      assert CoveredBy(s, c, id);
    } else if !step.CountReply? {
      FlightPersists(s, step, c);
    } else if Effect(s, step) != s {
      OtherCountKeepsFlight(s, step.p, step.at, id, c);
    }
  }

  // A thread with comments was not just created.
  lemma ThreadWasThere(s: State, step: Step, id: string)
    requires NewThreadId(s, step, id) && id in s.log.created && id in Effect(s, step).threads.items
    ensures id in s.threads.items
  {
  }

  // The readings taken for one thread, in the order of the store calls they are taken for;
  // readings for other threads may come in any order.
  ghost predicate ReadingsInOrder(steps: seq<Step>, id: string) {
    forall i :: 0 <= i < |steps| ==> ClockGoesOn(Run(steps[..i]), steps[i], id)
  }

  /** Under every interleaving the stored comments stay filed under their identifier and keep
      their thread and creation time, whatever stale records are written over them. */
  lemma {:induction false} CommentsStaySound(steps: seq<Step>)
    ensures Known(Run(steps)) && CommentsSound(Run(steps))
  {
    if steps != [] {
      var init, step := steps[..|steps| - 1], steps[|steps| - 1];
      CommentsStaySound(init);
      StepKeepsKnown(Run(init), step);
      StepKeepsComments(Run(init), step);
    }
  }

  /** Where the readings for a thread do not go back, none of its comments was created after
      the last of them. */
  lemma {:induction false} CommentsInPast(steps: seq<Step>, id: string)
    requires ReadingsInOrder(steps, id)
    ensures InPast(Run(steps), id)
  {
    if steps != [] {
      var init, step := steps[..|steps| - 1], steps[|steps| - 1];
      ReadingsInit(steps, id);
      hide Run, Next, ReadingsInOrder, ClockGoesOn, InPast, Known, CommentsSound;
      CommentsInPast(init, id);
      CommentsStaySound(init);
      StepKeepsPast(Run(init), step, id);
      RunLast(steps);
    }
  }

  lemma ReadingsInit(steps: seq<Step>, id: string)
    requires ReadingsInOrder(steps, id) && steps != []
    ensures var init := steps[..|steps| - 1];
            ReadingsInOrder(init, id) && ClockGoesOn(Run(init), steps[|steps| - 1], id)
  {
    var init := steps[..|steps| - 1];
    hide Run, ClockGoesOn;
    forall i | 0 <= i < |init| ensures ClockGoesOn(Run(init[..i]), init[i], id) {
      assert init[..i] == steps[..i] && ClockGoesOn(Run(steps[..i]), steps[i], id);
    }
    assert steps[..|init|] == init;
  }

  ghost predicate Orderly(steps: seq<Step>, id: string) {
    NoReuse(steps, id) && NoOverlap(steps, id) && ReadingsInOrder(steps, id)
  }

  lemma OrderlyInit(steps: seq<Step>, id: string)
    requires Orderly(steps, id) && steps != []
    ensures var init, step := steps[..|steps| - 1], steps[|steps| - 1];
            Orderly(init, id) && NewThreadId(Run(init), step, id) && ClockGoesOn(Run(init), step, id)
  {
    hide NoReuse, NoOverlap, ReadingsInOrder, Run, NewThreadId, ClockGoesOn, WaitsFor;
    NoReuseInit(steps, id);
    NoOverlapInit(steps, id);
    ReadingsInit(steps, id);
  }

  /** Where spans on a thread do not overlap, its identifier is not reused and the clock
      readings for it do not go back, the last reply is at or after the creation of every
      comment of the thread that is not still in flight. */
  lemma {:induction false} LastReplyCoversComments(steps: seq<Step>, id: string)
    requires NoReuse(steps, id) && NoOverlap(steps, id) && ReadingsInOrder(steps, id)
    ensures Covered(Run(steps), id)
  {
    assert Orderly(steps, id);
    if steps != [] {
      var init, step := steps[..|steps| - 1], steps[|steps| - 1];
      OrderlyInit(steps, id);
      hide Run, NoReuse, NoOverlap, ReadingsInOrder, Known, UpToDate, Covered, CommentsSound, InPast, NewThreadId;
      LastReplyCoversComments(init, id);
      RepliesExact(init, id);
      CommentsStaySound(init);
      CommentsInPast(init, id);
      NextKeepsCovered(Run(init), step, id);
      RunLast(steps);
    }
  }

  lemma NextKeepsCovered(s: State, step: Step, id: string)
    requires Known(s) && CommentsSound(s) && InPast(s, id) && UpToDate(s, id) && Covered(s, id)
    requires NewThreadId(s, step, id) && ClockGoesOn(s, step, id)
    ensures Covered(Next(s, step), id)
  {
    var s' := Effect(s, step);
    if id in s'.threads.items {
      forall c | c in s'.comments.items && s'.comments.items[c].threadID == id
        ensures IsInFlight(s', c) || CoveredBy(s', c, id)
      {
        StepKeepsCovered(s, step, id, c);
      }
    }
    hide Effect;
    assert forall c :: IsInFlight(s', c) == IsInFlight(Next(s, step), c);
  }

  // ---- The indexes under interleaving ----

  /** Under every interleaving the thread index of the comments is exact: it lists each
      comment once, under its thread. */
  lemma {:induction false} CommentIndexExact(steps: seq<Step>)
    ensures T.Exact(CS.BySchema(), Run(steps).comments)
  {
    if steps != [] {
      var init := steps[..|steps| - 1];
      CommentIndexExact(init);
      CommentsStaySound(init);
      StepKeepsCommentIndex(Run(init), steps[|steps| - 1]);
    }
  }

  lemma StepKeepsCommentIndex(s: State, step: Step)
    requires CommentsSound(s) && T.Exact(CS.BySchema(), s.comments)
    ensures T.Exact(CS.BySchema(), Next(s, step).comments)
  {
    match step
    case StoreComment(p, id, at) =>
      if p in s.procs && s.procs[p].Commenting? {
        T.CreateKeepsExact(CS.BySchema(), s.comments, Stored(s.procs[p].draft, id, at));
      }
    case WriteRevision(p, at) =>
      if p in s.procs && s.procs[p].Revising? {
        assert SoundProc(s, s.procs[p]);
        var c := s.procs[p].read;
        var revised := c.(body := if s.procs[p].body.Some? then s.procs[p].body.value else c.body);
        var r := NormalComment(revised).(updatedAt := at);
        RewriteKeepsExact(CS.BySchema(), s.comments, r);
      }
    case RemoveComment(id) =>
      if id in s.comments.items {
        assert SoundComment(s, id);
        RewriteKeepsExact(CS.BySchema(), s.comments, s.comments.items[id].(isDeleted := true));
      }
    case _ =>
  }

  // Rewriting a record within its group, by Update or in place.
  lemma RewriteKeepsExact<R>(schema: T.Schema<R>, t: T.Table<R>, r: R)
    requires T.Exact(schema, t)
    requires schema.key(r) in t.items ==> schema.group(r) == schema.group(t.items[schema.key(r)])
    ensures T.Exact(schema, T.Update(schema, t, r).0)
  {
    if T.Update(schema, t, r).1.Done? {
      T.UpdateKeepsExactIff(schema, t, r);
    }
  }

  // The record a request holds is of the board the stored thread is on.
  ghost predicate BoardsAgree(s: State) {
    forall p :: p in s.procs && OpensSpan(s.procs[p]) && s.procs[p].snap.id in s.threads.items
      ==> s.threads.items[s.procs[p].snap.id].boardID == s.procs[p].snap.boardID
  }

  // A new thread is not on another board than an open span on its identifier has read.
  ghost predicate KeepsBoard(s: State, step: Step) {
    step.PostThread? && Posts(s, step.t, step.at)
    ==> forall p :: SpansOn(s, p, step.t.id) ==> s.procs[p].snap.boardID == step.t.boardID
  }

  lemma PostKeepsBoards(s: State, t: ThreadData, at: int)
    requires BoardsAgree(s) && KeepsBoard(s, PostThread(t, at))
    ensures BoardsAgree(PostThreadEffect(s, t, at))
  {
    var s' := PostThreadEffect(s, t, at);
    forall p | p in s'.procs && OpensSpan(s'.procs[p]) && s'.procs[p].snap.id in s'.threads.items
      ensures s'.threads.items[s'.procs[p].snap.id].boardID == s'.procs[p].snap.boardID
    {
      assert SpansOn(s, p, s.procs[p].snap.id);
    }
  }

  lemma WriteKeepsBoards(s: State, step: Step)
    requires Known(s) && BoardsAgree(s) && (step.CountReply? || step.WriteEdit?)
    ensures BoardsAgree(Effect(s, step))
  {
  }

  lemma OtherStepKeepsBoards(s: State, step: Step)
    requires Known(s) && BoardsAgree(s) && !step.PostThread? && !step.CountReply? && !step.WriteEdit?
    ensures BoardsAgree(Effect(s, step))
  {
  }

  lemma StepKeepsBoards(s: State, step: Step)
    requires Known(s) && BoardsAgree(s) && KeepsBoard(s, step)
    ensures BoardsAgree(Next(s, step))
  {
    assert BoardsAgree(Effect(s, step)) by {
      hide BoardsAgree, Known;
      match step
      case PostThread(t, at) => PostKeepsBoards(s, t, at);
      case CountReply(_, _) => WriteKeepsBoards(s, step);
      case WriteEdit(_, _) => WriteKeepsBoards(s, step);
      case _ => OtherStepKeepsBoards(s, step);
    }
    hide Effect;
  }

  // A whole record is written over one that is on another board.
  predicate WritesOtherBoard(s: State, step: Step) {
    match step
    case CountReply(p, _) => p in s.procs && s.procs[p].Counting? && OnOtherBoard(s, s.procs[p].snap)
    case WriteEdit(p, _) =>
      p in s.procs && s.procs[p].Editing? && OnOtherBoard(s, s.procs[p].snap)
      && NormalThread(Edited(s.procs[p].snap, s.procs[p].edit)).title != ""
    case _ => false
  }

  predicate OnOtherBoard(s: State, snap: ThreadData) {
    snap.id in s.threads.items && s.threads.items[snap.id].boardID != snap.boardID
  }

  // Writing a whole record keeps the board index exact if and only if it stays on its board.
  lemma WriteThreadIndexIff(s: State, t: ThreadData, seen: int)
    requires Known(s) && T.Exact(TS.BySchema(), s.threads)
    ensures T.Exact(TS.BySchema(), WriteThread(s, t, seen).threads) <==> !OnOtherBoard(s, t)
  {
    if t.id in s.threads.items {
      T.UpdateKeepsExactIff(TS.BySchema(), s.threads, t);
    }
  }

  /** One step keeps the board index exact if and only if it does not write a record over one
      that is on another board. */
  lemma StepKeepsThreadIndexIff(s: State, step: Step)
    requires Known(s) && T.Exact(TS.BySchema(), s.threads)
    ensures T.Exact(TS.BySchema(), Next(s, step).threads) <==> !WritesOtherBoard(s, step)
  {
    hide T.Exact;
    match step
    case PostThread(t, at) => T.CreateKeepsExact(TS.BySchema(), s.threads, Posted(t, at));
    case RemoveThread(id) => T.DeleteKeepsExact(TS.BySchema(), s.threads, id);
    case CountReply(p, at) =>
      if p in s.procs && s.procs[p].Counting? {
        var snap := s.procs[p].snap;
        WriteThreadIndexIff(s, Replied(snap, at).(updatedAt := at), snap.replyCount);
      }
    case WriteEdit(p, at) =>
      if p in s.procs && s.procs[p].Editing? {
        var snap := s.procs[p].snap;
        WriteThreadIndexIff(s, NormalThread(Edited(snap, s.procs[p].edit)).(updatedAt := at), snap.replyCount);
      }
    case CountView(p) =>
      if p in s.procs && s.procs[p].Viewing? && s.procs[p].id in s.threads.items {
        var t := s.threads.items[s.procs[p].id];
        RewriteKeepsExact(TS.BySchema(), s.threads, t.(viewCount := t.viewCount + 1));
      }
    case _ =>
  }

  /** In every run the board index is exact at all times if and only if no record is ever
      written over one that is on another board. */
  lemma ThreadIndexExactIff(steps: seq<Step>)
    ensures HoldsFrom(steps, 0, (s: State) => T.Exact(TS.BySchema(), s.threads))
       <==> !HappensFrom(steps, 0, (s, step) => WritesOtherBoard(s, step))
  {
    assert steps[..0] == [] && T.Exact(TS.BySchema(), Start().threads);
    hide T.Exact, WritesOtherBoard, Next;
    forall i | 0 <= i < |steps| && T.Exact(TS.BySchema(), Run(steps[..i]).threads)
      ensures T.Exact(TS.BySchema(), Next(Run(steps[..i]), steps[i]).threads)
         <==> !WritesOtherBoard(Run(steps[..i]), steps[i])
    {
      CommentsStaySound(steps[..i]);
      StepKeepsThreadIndexIff(Run(steps[..i]), steps[i]);
    }
    AllTimesIff(steps, 0, (s: State) => T.Exact(TS.BySchema(), s.threads), (s, step) => WritesOtherBoard(s, step));
  }

  /** A reused identifier alone does no harm: under every interleaving in which no thread is
      posted on another board than an open span on its identifier has read, the board index of
      the threads is exact, so List never meets a missing thread. */
  lemma {:induction false} ThreadIndexExact(steps: seq<Step>)
    requires forall i :: 0 <= i < |steps| ==> KeepsBoard(Run(steps[..i]), steps[i])
    ensures Known(Run(steps)) && BoardsAgree(Run(steps)) && T.Exact(TS.BySchema(), Run(steps).threads)
  {
    if steps != [] {
      var init, step := steps[..|steps| - 1], steps[|steps| - 1];
      KeepsBoardInit(steps);
      hide *;
      ThreadIndexExact(init);
      StepKeepsBoardsAndIndex(Run(init), step);
      RunLast(steps);
    }
  }

  lemma KeepsBoardInit(steps: seq<Step>)
    requires steps != [] && forall i :: 0 <= i < |steps| ==> KeepsBoard(Run(steps[..i]), steps[i])
    ensures var init := steps[..|steps| - 1];
            && (forall i :: 0 <= i < |init| ==> KeepsBoard(Run(init[..i]), init[i]))
            && KeepsBoard(Run(init), steps[|steps| - 1])
  {
    var init := steps[..|steps| - 1];
    hide Run, KeepsBoard;
    forall i | 0 <= i < |init| ensures KeepsBoard(Run(init[..i]), init[i]) {
      assert init[..i] == steps[..i] && KeepsBoard(Run(steps[..i]), steps[i]);
    }
    assert steps[..|init|] == init;
  }

  lemma StepKeepsBoardsAndIndex(s: State, step: Step)
    requires Known(s) && BoardsAgree(s) && T.Exact(TS.BySchema(), s.threads) && KeepsBoard(s, step)
    ensures Known(Next(s, step)) && BoardsAgree(Next(s, step)) && T.Exact(TS.BySchema(), Next(s, step).threads)
  {
    hide Known, KeepsBoard, T.Exact, Next;
    StepKeepsKnown(s, step);
    StepKeepsBoards(s, step);
    StepKeepsThreadIndexIff(s, step);
  }

  // ---- Conservation of views ----

  ghost predicate ViewsBalanced(s: State, id: string) {
    && (id !in s.log.created ==> Views(s, id) == 0 && Lost(s, id) == 0)
    && (id in s.threads.items ==> Views(s, id) == s.threads.items[id].viewCount + Lost(s, id))
  }

  lemma WriteThreadKeepsViews(s: State, t: ThreadData, seen: int, p: nat, id: string)
    requires Known(s) && ViewsBalanced(s, id)
    ensures ViewsBalanced(End(WriteThread(s, t, seen), p), id) && ViewsBalanced(End(s, p), id)
  {
  }

  lemma PostKeepsViews(s: State, t: ThreadData, at: int, id: string)
    requires Known(s) && ViewsBalanced(s, id) && NewThreadId(s, PostThread(t, at), id)
    ensures ViewsBalanced(PostThreadEffect(s, t, at), id)
  {
  }

  lemma CountViewKeepsViews(s: State, p: nat, id: string)
    requires Known(s) && ViewsBalanced(s, id)
    ensures ViewsBalanced(CountViewEffect(s, p), id)
  {
  }

  lemma OtherStepKeepsViews(s: State, step: Step, id: string)
    requires Known(s) && ViewsBalanced(s, id)
    requires !step.PostThread? && !step.CountReply? && !step.WriteEdit? && !step.CountView?
    ensures ViewsBalanced(Effect(s, step), id)
  {
  }

  lemma StepKeepsViews(s: State, step: Step, id: string)
    requires Known(s) && ViewsBalanced(s, id) && NewThreadId(s, step, id)
    ensures ViewsBalanced(Next(s, step), id)
  {
    assert ViewsBalanced(Effect(s, step), id) by {
      hide ViewsBalanced, Known;
      match step
      case PostThread(t, at) => PostKeepsViews(s, t, at, id);
      case CountReply(p, at) =>
        if p in s.procs && s.procs[p].Counting? {
          var snap := s.procs[p].snap;
          WriteThreadKeepsViews(s, Replied(snap, at).(updatedAt := at), snap.replyCount, p, id);
        }
      case WriteEdit(p, at) =>
        if p in s.procs && s.procs[p].Editing? {
          var snap := s.procs[p].snap;
          var t := NormalThread(Edited(snap, s.procs[p].edit));
          WriteThreadKeepsViews(s, t.(updatedAt := at), snap.replyCount, p, id);
        }
      case CountView(p) => CountViewKeepsViews(s, p, id);
      case _ => OtherStepKeepsViews(s, step, id);
    }
    hide Effect;
  }

  /** Conservation of views: under every interleaving, for an identifier not reused, the views
      counted are the views shown plus the net views overwritten by stale records. */
  lemma {:induction false} ViewsConserved(steps: seq<Step>, id: string)
    requires NoReuse(steps, id)
    ensures ViewsBalanced(Run(steps), id)
  {
    if steps != [] {
      var init := steps[..|steps| - 1];
      assert forall i :: 0 <= i < |init| ==> init[..i] == steps[..i] && init[i] == steps[i];
      ViewsConserved(init, id);
      CommentsStaySound(init);
      StepKeepsViews(Run(init), steps[|steps| - 1], id);
    }
  }
}

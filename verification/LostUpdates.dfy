/** What stale writes of whole records undo, exactly. A lock is undone by any write of a record
    that was read before it, by a comment as by an edit; a soft deletion by any revision that
    was read before it. Where spans do not overlap a lock stays until it is released. */
module LostUpdates {
  import opened Common
  import opened Entities
  import opened Interleaving
  import T = IndexedTable
  import TS = ThreadStore
  import CS = CommentStore

  lemma RunSnoc(init: seq<Step>, step: Step)
    ensures Run(init + [step]) == Next(Run(init), step)
  {
    assert (init + [step])[..|init|] == init;
  }

  // ---- Locks ----

  predicate Locked(s: State, id: string) {
    id in s.threads.items && s.threads.items[id].isLocked
  }

  // The step writes an unlocked record over the thread: a reply is counted on a record read
  // before the lock, or an edit ends with the thread unlocked.
  predicate WritesUnlocked(s: State, step: Step, id: string) {
    match step
    case CountReply(p, _) =>
      p in s.procs && s.procs[p].Counting? && s.procs[p].snap.id == id && !s.procs[p].snap.isLocked
    case WriteEdit(p, _) =>
      p in s.procs && s.procs[p].Editing? && s.procs[p].snap.id == id
      && NormalThread(Edited(s.procs[p].snap, s.procs[p].edit)).title != ""
      && !Edited(s.procs[p].snap, s.procs[p].edit).isLocked
    case _ => false
  }

  lemma LockAfterWrite(s: State, t: ThreadData, seen: int, p: nat, id: string)
    requires Known(s) && Locked(s, id)
    ensures Locked(End(WriteThread(s, t, seen), p), id) <==> (t.id == id ==> t.isLocked)
    ensures Locked(End(s, p), id)
  {
  }

  lemma LockAfterOther(s: State, step: Step, id: string)
    requires Known(s) && Locked(s, id) && !step.CountReply? && !step.WriteEdit?
    ensures Locked(Effect(s, step), id) <==> step != RemoveThread(id)
  {
  }

  /** A step ends the lock of a thread if and only if it removes the thread or writes an
      unlocked record over it. */
  lemma LockStepIff(s: State, step: Step, id: string)
    requires Known(s) && Locked(s, id)
    ensures Locked(Next(s, step), id) <==> step != RemoveThread(id) && !WritesUnlocked(s, step, id)
  {
    hide Known;
    match step
    case CountReply(p, at) =>
      if p in s.procs && s.procs[p].Counting? {
        var snap := s.procs[p].snap;
        LockAfterWrite(s, Replied(snap, at).(updatedAt := at), snap.replyCount, p, id);
      }
    case WriteEdit(p, at) =>
      if p in s.procs && s.procs[p].Editing? {
        var snap := s.procs[p].snap;
        var t := NormalThread(Edited(snap, s.procs[p].edit));
        LockAfterWrite(s, t.(updatedAt := at), snap.replyCount, p, id);
      }
    case _ => LockAfterOther(s, step, id);
  }

  /** Under every interleaving a thread stays locked, at all times, if and only if it is not
      removed and no unlocked record is written over it. */
  lemma LockKeptIff(steps: seq<Step>, k: nat, id: string)
    requires k <= |steps| && Locked(Run(steps[..k]), id)
    ensures HoldsFrom(steps, k, s => Locked(s, id))
       <==> !HappensFrom(steps, k, (s, step) => step == RemoveThread(id) || WritesUnlocked(s, step, id))
  {
    hide Locked, WritesUnlocked, Next;
    forall i | k <= i < |steps| && Locked(Run(steps[..i]), id)
      ensures Locked(Next(Run(steps[..i]), steps[i]), id)
         <==> !(steps[i] == RemoveThread(id) || WritesUnlocked(Run(steps[..i]), steps[i], id))
    {
      CommentsStaySound(steps[..i]);
      LockStepIff(Run(steps[..i]), steps[i], id);
    }
    AllTimesIff(steps, k, s => Locked(s, id),
                (s, step) => step == RemoveThread(id) || WritesUnlocked(s, step, id));
  }

  // A request that says so unlocks the thread, or removes it.
  predicate Releases(s: State, step: Step, id: string) {
    || step == RemoveThread(id)
    || (step.WriteEdit? && step.p in s.procs && s.procs[step.p].Editing? && s.procs[step.p].snap.id == id
        && s.procs[step.p].edit.isLocked == Some(false)
        && NormalThread(Edited(s.procs[step.p].snap, s.procs[step.p].edit)).title != "")
  }

  // With the only open span up to date, an unlocked record is written over a locked thread
  // only where the request says so.
  lemma UpToDateReleases(s: State, step: Step, id: string)
    requires UpToDate(s, id) && Locked(s, id)
    ensures (step == RemoveThread(id) || WritesUnlocked(s, step, id)) <==> Releases(s, step, id)
  {
    if step.CountReply? || step.WriteEdit? {
      assert step.p in s.procs && OpensSpan(s.procs[step.p]) && s.procs[step.p].snap.id == id
          ==> SpansOn(s, step.p, id);
    }
  }

  /** Where the spans on a thread do not overlap and its identifier is not reused, it stays
      locked, at all times, if and only if no request unlocks it explicitly or removes it. */
  lemma LockHonoured(steps: seq<Step>, k: nat, id: string)
    requires NoReuse(steps, id) && NoOverlap(steps, id)
    requires k <= |steps| && Locked(Run(steps[..k]), id)
    ensures HoldsFrom(steps, k, s => Locked(s, id)) <==> !HappensFrom(steps, k, (s, step) => Releases(s, step, id))
  {
    hide Locked, Releases, Next;
    forall i | k <= i < |steps| && Locked(Run(steps[..i]), id)
      ensures Locked(Next(Run(steps[..i]), steps[i]), id) <==> !Releases(Run(steps[..i]), steps[i], id)
    {
      PrefixOrderly(steps, i, id);
      hide WritesUnlocked;
      LockStepIff(Run(steps[..i]), steps[i], id);
      UpToDateReleases(Run(steps[..i]), steps[i], id);
    }
    AllTimesIff(steps, k, s => Locked(s, id), (s, step) => Releases(s, step, id));
  }

  lemma PrefixOrderly(steps: seq<Step>, i: nat, id: string)
    requires NoReuse(steps, id) && NoOverlap(steps, id) && i <= |steps|
    ensures Known(Run(steps[..i])) && UpToDate(Run(steps[..i]), id)
  {
    PrefixHypotheses(steps, i, id);
    PrefixNoOverlap(steps, i, id);
    hide *;
    RepliesExact(steps[..i], id);
  }

  // ---- What a lock is for ----

  // The step stores a comment on the thread.
  predicate TakesComment(s: State, step: Step, id: string) {
    step.StoreComment? && step.p in s.procs && s.procs[step.p].Commenting? && s.procs[step.p].snap.id == id
    && step.id != "" && step.id !in s.comments.items
  }

  /** A thread gets a comment in a step if and only if the step stores the comment of a request
      that has read the thread; whether the thread has been locked since is not looked at. */
  lemma CommentTakenIff(s: State, step: Step, id: string)
    requires Known(s)
    ensures Count(Next(s, step), id) == Count(s, id) + if TakesComment(s, step, id) then 1 else 0
  {
  }

  // Requests read a thread to comment on it only while it is unlocked.
  ghost predicate CommentersUnlocked(s: State) {
    forall p :: p in s.procs && s.procs[p].Commenting? ==> !s.procs[p].snap.isLocked
  }

  lemma {:induction false} AlwaysCommentersUnlocked(steps: seq<Step>)
    ensures CommentersUnlocked(Run(steps))
  {
    if steps != [] {
      var init := steps[..|steps| - 1];
      AlwaysCommentersUnlocked(init);
      StepKeepsCommenters(Run(init), steps[|steps| - 1]);
    }
  }

  lemma StepKeepsCommenters(s: State, step: Step)
    requires CommentersUnlocked(s)
    ensures CommentersUnlocked(Next(s, step))
  {
  }

  /** Where the spans on a thread do not overlap and its identifier is not reused, the lock
      does what it is for: no request about to comment faces a locked thread. */
  lemma LockStopsCommenters(steps: seq<Step>, id: string, p: nat)
    requires NoReuse(steps, id) && NoOverlap(steps, id)
    requires p in Run(steps).procs && Run(steps).procs[p].Commenting? && Run(steps).procs[p].snap.id == id
    ensures !Locked(Run(steps), id)
  {
    AlwaysCommentersUnlocked(steps);
    RepliesExact(steps, id);
    hide Run, NoReuse, NoOverlap, Known;
    assert SpansOn(Run(steps), p, id);
  }

  /** So a locked thread takes no comment. */
  lemma LockedTakesNoComment(steps: seq<Step>, i: nat, id: string)
    requires NoReuse(steps, id) && NoOverlap(steps, id)
    requires i < |steps| && Locked(Run(steps[..i]), id)
    ensures Count(Run(steps[..i + 1]), id) == Count(Run(steps[..i]), id)
  {
    var init, step := steps[..i], steps[i];
    PrefixOrderly(steps, i, id);
    PrefixHypotheses(steps, i, id);
    PrefixNoOverlap(steps, i, id);
    hide *;
    RunTo(steps, i);
    CommentTakenIff(Run(init), step, id);
    if TakesComment(Run(init), step, id) {
      TakerIsCommenter(Run(init), step, id);
      LockStopsCommenters(init, id, step.p);
    }
  }

  lemma TakerIsCommenter(s: State, step: Step, id: string)
    requires TakesComment(s, step, id)
    ensures step.StoreComment? && step.p in s.procs && s.procs[step.p].Commenting? && s.procs[step.p].snap.id == id
  {
  }

  // ---- Counts ----

  // The record that the step writes over the thread, if it writes one, as it was read.
  function Overwrites(s: State, step: Step, id: string): Option<ThreadData> {
    match step
    case CountReply(p, _) =>
      if p in s.procs && s.procs[p].Counting? && s.procs[p].snap.id == id && id in s.threads.items
      then Some(s.procs[p].snap) else None
    case WriteEdit(p, _) =>
      if p in s.procs && s.procs[p].Editing? && s.procs[p].snap.id == id && id in s.threads.items
         && NormalThread(Edited(s.procs[p].snap, s.procs[p].edit)).title != ""
      then Some(s.procs[p].snap) else None
    case _ => None
  }

  // Views were counted between the read of the record and its write.
  predicate LosesViews(s: State, step: Step, id: string) {
    var o := Overwrites(s, step, id);
    o.Some? && id in s.threads.items && o.value.viewCount != s.threads.items[id].viewCount
  }

  // Replies were counted between the read of the record and its write.
  predicate LosesReplies(s: State, step: Step, id: string) {
    var o := Overwrites(s, step, id);
    o.Some? && id in s.threads.items && o.value.replyCount != s.threads.items[id].replyCount
  }

  lemma LedgerAfterWrite(s: State, t: ThreadData, seen: int, p: nat, id: string)
    requires Known(s)
    ensures var s' := End(WriteThread(s, t, seen), p);
            var writes := t.id == id && id in s.threads.items;
            && Lost(s', id) == Lost(s, id) + (if writes then s.threads.items[id].viewCount - t.viewCount else 0)
            && Drift(s', id) == Drift(s, id) + (if writes then s.threads.items[id].replyCount - seen else 0)
  {
  }

  lemma LedgerAfterOther(s: State, step: Step, id: string)
    requires !step.CountReply? && !step.WriteEdit?
    ensures Lost(Effect(s, step), id) == Lost(s, id) && Drift(Effect(s, step), id) == Drift(s, id)
  {
  }

  lemma LedgerStep(s: State, step: Step, id: string)
    requires Known(s)
    ensures var s', o := Next(s, step), Overwrites(s, step, id);
            && (o.Some? ==> id in s.threads.items)
            && Lost(s', id) == Lost(s, id)
                               + (if o.Some? then s.threads.items[id].viewCount - o.value.viewCount else 0)
            && Drift(s', id) == Drift(s, id)
                                + (if o.Some? then s.threads.items[id].replyCount - o.value.replyCount else 0)
  {
    hide Known;
    match step
    case CountReply(p, at) =>
      if p in s.procs && s.procs[p].Counting? {
        var snap := s.procs[p].snap;
        LedgerAfterWrite(s, Replied(snap, at).(updatedAt := at), snap.replyCount, p, id);
      }
    case WriteEdit(p, at) =>
      if p in s.procs && s.procs[p].Editing? {
        var snap := s.procs[p].snap;
        var t := NormalThread(Edited(snap, s.procs[p].edit));
        LedgerAfterWrite(s, t.(updatedAt := at), snap.replyCount, p, id);
      }
    case _ => LedgerAfterOther(s, step, id);
  }

  // A thread that is there after a step was there before, unless the step posts it.
  lemma ThreadThere(s: State, step: Step, id: string)
    requires Known(s) && NewThreadId(s, step, id)
    ensures id in Next(s, step).threads.items && id !in s.threads.items ==> id !in s.log.created
    ensures Overwrites(s, step, id).Some? ==> id in Next(s, step).threads.items
  {
  }

  predicate ViewsExact(s: State, id: string) {
    id in s.threads.items ==> Views(s, id) == s.threads.items[id].viewCount
  }

  ghost predicate RepliesCounted(s: State, id: string) {
    id in s.threads.items ==> Count(s, id) == s.threads.items[id].replyCount + |InFlight(s, id)|
  }

  lemma ViewsStepIff(s: State, step: Step, id: string)
    requires Known(s) && ViewsBalanced(s, id) && NewThreadId(s, step, id) && ViewsExact(s, id)
    ensures ViewsExact(Next(s, step), id) <==> !LosesViews(s, step, id)
  {
    StepKeepsViews(s, step, id);
    LedgerStep(s, step, id);
    ThreadThere(s, step, id);
    hide Next, Known, NewThreadId, Overwrites;
  }

  lemma RepliesStepIff(s: State, step: Step, id: string)
    requires Known(s) && Balanced(s, id) && NewThreadId(s, step, id) && RepliesCounted(s, id)
    ensures RepliesCounted(Next(s, step), id) <==> !LosesReplies(s, step, id)
  {
    StepKeepsBalance(s, step, id);
    LedgerStep(s, step, id);
    ThreadThere(s, step, id);
    assert Drift(s, id) != 0 ==> id in s.log.created;
    hide Next, Known, NewThreadId, Overwrites, InFlight;
  }

  lemma PrefixHypotheses(steps: seq<Step>, i: nat, id: string)
    requires NoReuse(steps, id) && i <= |steps|
    ensures NoReuse(steps[..i], id)
    ensures i < |steps| ==> NewThreadId(Run(steps[..i]), steps[i], id)
  {
    var init := steps[..i];
    hide Run, NewThreadId;
    forall j | 0 <= j < i ensures NewThreadId(Run(init[..j]), init[j], id) {
      assert init[..j] == steps[..j] && NewThreadId(Run(steps[..j]), steps[j], id);
    }
  }

  lemma PrefixNoOverlap(steps: seq<Step>, i: nat, id: string)
    requires NoOverlap(steps, id) && i <= |steps|
    ensures NoOverlap(steps[..i], id)
  {
    var init := steps[..i];
    hide Run, WaitsFor;
    forall j | 0 <= j < i ensures WaitsFor(Run(init[..j]), init[j], id) {
      assert init[..j] == steps[..j] && WaitsFor(Run(steps[..j]), steps[j], id);
    }
  }

  /** Under every interleaving, for an identifier not reused, a thread shows every view that
      was counted, at all times, if and only if no record is written over it whose views have
      been counted on since it was read. */
  lemma ViewsExactIff(steps: seq<Step>, id: string)
    requires NoReuse(steps, id)
    ensures HoldsFrom(steps, 0, s => ViewsExact(s, id))
       <==> !HappensFrom(steps, 0, (s, step) => LosesViews(s, step, id))
  {
    assert steps[..0] == [] && ViewsExact(Start(), id);
    hide ViewsExact, LosesViews, Next, NewThreadId;
    forall i | 0 <= i < |steps| && ViewsExact(Run(steps[..i]), id)
      ensures ViewsExact(Next(Run(steps[..i]), steps[i]), id) <==> !LosesViews(Run(steps[..i]), steps[i], id)
    {
      PrefixHypotheses(steps, i, id);
      CommentsStaySound(steps[..i]);
      ViewsConserved(steps[..i], id);
      ViewsStepIff(Run(steps[..i]), steps[i], id);
    }
    AllTimesIff(steps, 0, s => ViewsExact(s, id), (s, step) => LosesViews(s, step, id));
  }

  /** Likewise a thread shows a reply for each of its comments, but for the creations that have
      stored their comment and not yet counted it, at all times, if and only if no record is
      written over it whose replies have been counted on since it was read. */
  lemma RepliesCountedIff(steps: seq<Step>, id: string)
    requires NoReuse(steps, id)
    ensures HoldsFrom(steps, 0, s => RepliesCounted(s, id))
       <==> !HappensFrom(steps, 0, (s, step) => LosesReplies(s, step, id))
  {
    assert steps[..0] == [] && RepliesCounted(Start(), id);
    hide RepliesCounted, LosesReplies, Next, NewThreadId;
    forall i | 0 <= i < |steps| && RepliesCounted(Run(steps[..i]), id)
      ensures RepliesCounted(Next(Run(steps[..i]), steps[i]), id) <==> !LosesReplies(Run(steps[..i]), steps[i], id)
    {
      PrefixHypotheses(steps, i, id);
      RepliesConserved(steps[..i], id);
      RepliesStepIff(Run(steps[..i]), steps[i], id);
    }
    AllTimesIff(steps, 0, s => RepliesCounted(s, id), (s, step) => LosesReplies(s, step, id));
  }

  // ---- Soft deletions ----

  predicate Deleted(s: State, c: string) {
    c in s.comments.items && s.comments.items[c].isDeleted
  }

  // A revision that read the comment before its deletion is written.
  predicate Undeletes(s: State, step: Step, c: string) {
    step.WriteRevision? && step.p in s.procs && s.procs[step.p].Revising? && s.procs[step.p].read.id == c
    && NormalComment(RevisionOf(s.procs[step.p])).body != ""
  }

  function RevisionOf(proc: Proc): CommentData
    requires proc.Revising?
  {
    proc.read.(body := if proc.body.Some? then proc.body.value else proc.read.body)
  }

  lemma DeletionAfterRevision(s: State, p: nat, at: int, c: string)
    requires CommentsSound(s) && Deleted(s, c)
    ensures Deleted(WriteRevisionEffect(s, p, at), c) <==> !Undeletes(s, WriteRevision(p, at), c)
  {
    assert SoundComment(s, c);
    if p in s.procs {
      assert SoundProc(s, s.procs[p]);
    }
  }

  lemma DeletionAfterOther(s: State, step: Step, c: string)
    requires Deleted(s, c) && !step.WriteRevision?
    ensures Deleted(Effect(s, step), c)
  {
  }

  /** A step undoes the deletion of a comment if and only if it writes a revision of it. */
  lemma DeletionStepIff(s: State, step: Step, c: string)
    requires CommentsSound(s) && Deleted(s, c)
    ensures Deleted(Next(s, step), c) <==> !Undeletes(s, step, c)
  {
    if step.WriteRevision? {
      DeletionAfterRevision(s, step.p, step.at, c);
      assert Effect(s, step) == WriteRevisionEffect(s, step.p, step.at);
    } else {
      DeletionAfterOther(s, step, c);
    }
    hide Effect, CommentsSound;
  }

  /** Under every interleaving a deleted comment stays deleted, at all times, if and only if no
      revision of it is written. */
  lemma DeletionKeptIff(steps: seq<Step>, k: nat, c: string)
    requires k <= |steps| && Deleted(Run(steps[..k]), c)
    ensures HoldsFrom(steps, k, s => Deleted(s, c)) <==> !HappensFrom(steps, k, (s, step) => Undeletes(s, step, c))
  {
    hide Deleted, Undeletes, Next, CommentsSound;
    forall i | k <= i < |steps| && Deleted(Run(steps[..i]), c)
      ensures Deleted(Next(Run(steps[..i]), steps[i]), c) <==> !Undeletes(Run(steps[..i]), steps[i], c)
    {
      CommentsStaySound(steps[..i]);
      DeletionStepIff(Run(steps[..i]), steps[i], c);
    }
    AllTimesIff(steps, k, s => Deleted(s, c), (s, step) => Undeletes(s, step, c));
  }

  // A deleted comment that no request is revising.
  ghost predicate AtPeace(s: State, c: string) {
    Deleted(s, c) && forall p :: p in s.procs && s.procs[p].Revising? ==> s.procs[p].read.id != c
  }

  lemma PeaceLasts(s: State, step: Step, c: string)
    requires CommentsSound(s) && AtPeace(s, c)
    ensures AtPeace(Next(s, step), c)
  {
    DeletionStepIff(s, step, c);
    assert forall id :: id in s.comments.items ==> SoundComment(s, id);
  }

  /** Once a comment is deleted and no request is revising it, it stays deleted under every
      interleaving: no later request can read it to revise it. */
  lemma {:induction false} DeletionLasts(steps: seq<Step>, k: nat, c: string)
    requires k <= |steps| && AtPeace(Run(steps[..k]), c)
    ensures AtPeace(Run(steps), c)
    decreases |steps| - k
  {
    if k == |steps| {
      assert steps[..k] == steps;
    } else {
      CommentsStaySound(steps[..k]);
      RunTo(steps, k);
      PeaceLasts(Run(steps[..k]), steps[k], c);
      DeletionLasts(steps, k + 1, c);
    }
  }

  // ---- Runs in which updates are lost ----

  function Sample(): ThreadData {
    ThreadData("t", "b", "u", "title", "body", false, false, 0, 0, None, 0, 0)
  }

  function Draft(): CommentData {
    CommentData("", "t", None, "u", "hi", 0, 0, false, 0, 0)
  }

  // One thread has been posted, and nothing else has happened.
  ghost predicate JustPosted(s: State) {
    && s.procs == map[] && s.comments == T.Empty() && Views(s, "t") == 0
    && "t" in s.threads.items && s.threads.items["t"] == Sample()
  }

  lemma Samples()
    ensures Posted(Sample(), 0) == Sample() && NormalComment(Draft()) == Draft()
    ensures forall e: ThreadEdit :: (e.title == Some("new") || e.title == None) && e.body == None
              ==> NormalThread(Edited(Sample(), e)) == Edited(Sample(), e)
  {
  }

  lemma PostSample()
    ensures JustPosted(Run([PostThread(Sample(), 0)]))
  {
    Samples();
    hide Posted;
    assert T.Create(TS.BySchema(), T.Empty(), Sample()).1 == Done;
    RunSnoc([], PostThread(Sample(), 0));
    assert [] + [PostThread(Sample(), 0)] == [PostThread(Sample(), 0)];
  }

  lemma ReadToComment(s: State, p: nat)
    requires p !in s.procs && "t" in s.threads.items && s.threads.items["t"] == Sample()
    ensures var s' := Next(s, ReadForComment(p, Draft()));
            && s'.procs == s.procs[p := Commenting(Sample(), Draft())]
            && s'.threads == s.threads && s'.comments == s.comments
  {
    Samples();
    hide NormalComment;
  }

  lemma ReadToEdit(s: State, p: nat, edit: ThreadEdit)
    requires p !in s.procs && "t" in s.threads.items && s.threads.items["t"] == Sample()
    ensures var s' := Next(s, ReadForEdit(p, "t", edit));
            && s'.procs == s.procs[p := Editing(Sample(), edit)]
            && s'.threads == s.threads && s'.comments == s.comments
  {
  }

  /** Two creations whose spans overlap lose a reply: the thread has two comments and shows
      one reply. */
  lemma OverlapLosesReply()
    ensures var s := Run([PostThread(Sample(), 0), ReadForComment(1, Draft()), ReadForComment(2, Draft()),
                          StoreComment(1, "c", 1), StoreComment(2, "d", 2), CountReply(1, 3), CountReply(2, 4)]);
            s.procs == map[] && Count(s, "t") == 2
            && "t" in s.threads.items && s.threads.items["t"].replyCount == 1
  {
    hide *;
    var r1 := [PostThread(Sample(), 0)];
    var r3 := r1 + [ReadForComment(1, Draft())] + [ReadForComment(2, Draft())];
    var r5 := r3 + [StoreComment(1, "c", 1)] + [StoreComment(2, "d", 2)];
    PostSample();
    OverlapSteps(Run(r1));
    RunSnoc(r1, ReadForComment(1, Draft()));
    RunSnoc(r1 + [ReadForComment(1, Draft())], ReadForComment(2, Draft()));
    RunSnoc(r3, StoreComment(1, "c", 1));
    RunSnoc(r3 + [StoreComment(1, "c", 1)], StoreComment(2, "d", 2));
    RunSnoc(r5, CountReply(1, 3));
    RunSnoc(r5 + [CountReply(1, 3)], CountReply(2, 4));
    assert r5 + [CountReply(1, 3)] + [CountReply(2, 4)]
        == [PostThread(Sample(), 0), ReadForComment(1, Draft()), ReadForComment(2, Draft()),
            StoreComment(1, "c", 1), StoreComment(2, "d", 2), CountReply(1, 3), CountReply(2, 4)];
  }

  lemma OverlapSteps(s: State)
    requires JustPosted(s)
    ensures var s3 := Next(Next(s, ReadForComment(1, Draft())), ReadForComment(2, Draft()));
            var s5 := Next(Next(s3, StoreComment(1, "c", 1)), StoreComment(2, "d", 2));
            var s7 := Next(Next(s5, CountReply(1, 3)), CountReply(2, 4));
            s7.procs == map[] && Count(s7, "t") == 2
            && "t" in s7.threads.items && s7.threads.items["t"].replyCount == 1
  {
    hide Next;
    ReadToComment(s, 1);
    var s2 := Next(s, ReadForComment(1, Draft()));
    ReadToComment(s2, 2);
    var s3 := Next(s2, ReadForComment(2, Draft()));
    BothStore(s3);
    BothCount(Next(Next(s3, StoreComment(1, "c", 1)), StoreComment(2, "d", 2)), 3, 4);
  }

  lemma BothStore(s: State)
    requires s.procs == map[1 := Commenting(Sample(), Draft()), 2 := Commenting(Sample(), Draft())]
    requires s.comments == T.Empty()
    ensures var s' := Next(Next(s, StoreComment(1, "c", 1)), StoreComment(2, "d", 2));
            && s'.procs == map[1 := Counting(Sample(), "c"), 2 := Counting(Sample(), "d")]
            && T.Bucket(s'.comments, "t") == ["c", "d"] && s'.threads == s.threads
  {
  }

  lemma BothCount(s: State, at: int, later: int)
    requires s.procs == map[1 := Counting(Sample(), "c"), 2 := Counting(Sample(), "d")]
    requires "t" in s.threads.items
    ensures var s' := Next(Next(s, CountReply(1, at)), CountReply(2, later));
            s'.procs == map[] && s'.comments == s.comments
            && "t" in s'.threads.items && s'.threads.items["t"].replyCount == 1
  {
  }

  function Lock(): ThreadEdit {
    ThreadEdit(None, None, None, Some(true))
  }

  function Rename(): ThreadEdit {
    ThreadEdit(Some("new"), None, None, None)
  }

  /** A completed update locks the thread, and a title edit that had read it before unlocks it. */
  lemma LockIsLost()
    ensures var locked := [PostThread(Sample(), 0), ReadForEdit(1, "t", Rename()), ReadForEdit(2, "t", Lock()),
                           WriteEdit(2, 1)];
            var s, s' := Run(locked), Run(locked + [WriteEdit(1, 2)]);
            Locked(s, "t") && "t" in s'.threads.items && !Locked(s', "t")
  {
    hide *;
    var r1 := [PostThread(Sample(), 0)];
    var r3 := r1 + [ReadForEdit(1, "t", Rename())] + [ReadForEdit(2, "t", Lock())];
    PostSample();
    RenameSteps(Run(r1));
    RunSnoc(r1, ReadForEdit(1, "t", Rename()));
    RunSnoc(r1 + [ReadForEdit(1, "t", Rename())], ReadForEdit(2, "t", Lock()));
    RunSnoc(r3, WriteEdit(2, 1));
    RunSnoc(r3 + [WriteEdit(2, 1)], WriteEdit(1, 2));
    assert r3 + [WriteEdit(2, 1)]
        == [PostThread(Sample(), 0), ReadForEdit(1, "t", Rename()), ReadForEdit(2, "t", Lock()), WriteEdit(2, 1)];
  }

  lemma RenameSteps(s: State)
    requires JustPosted(s)
    ensures var s3 := Next(Next(s, ReadForEdit(1, "t", Rename())), ReadForEdit(2, "t", Lock()));
            var s4 := Next(s3, WriteEdit(2, 1));
            var s5 := Next(s4, WriteEdit(1, 2));
            Locked(s4, "t") && "t" in s5.threads.items && !Locked(s5, "t")
  {
    ReadToEdit(s, 1, Rename());
    var s2 := Next(s, ReadForEdit(1, "t", Rename()));
    ReadToEdit(s2, 2, Lock());
    LockThenRename(Next(s2, ReadForEdit(2, "t", Lock())));
    hide Next;
  }

  lemma LockThenRename(s: State)
    requires s.procs == map[1 := Editing(Sample(), Rename()), 2 := Editing(Sample(), Lock())]
    requires "t" in s.threads.items
    ensures var s1 := Next(s, WriteEdit(2, 1));
            var s2 := Next(s1, WriteEdit(1, 2));
            Locked(s1, "t") && "t" in s2.threads.items && !Locked(s2, "t")
  {
    Samples();
    hide NormalThread;
  }

  /** A comment undoes a lock, too: a creation that read the thread before a completed update
      locked it stores its comment on the locked thread and writes it back unlocked. */
  lemma CommentUnlocks()
    ensures var before := [PostThread(Sample(), 0), ReadForComment(1, Draft()), ReadForEdit(2, "t", Lock()),
                           WriteEdit(2, 1), StoreComment(1, "c", 2)];
            var s, s' := Run(before), Run(before + [CountReply(1, 3)]);
            s'.procs == map[] && Locked(s, "t") && Count(s, "t") == 1
            && "t" in s'.threads.items && !Locked(s', "t")
  {
    hide *;
    var r1 := [PostThread(Sample(), 0)];
    var r3 := r1 + [ReadForComment(1, Draft())] + [ReadForEdit(2, "t", Lock())];
    var r5 := r3 + [WriteEdit(2, 1)] + [StoreComment(1, "c", 2)];
    PostSample();
    CommentSteps(Run(r1));
    RunSnoc(r1, ReadForComment(1, Draft()));
    RunSnoc(r1 + [ReadForComment(1, Draft())], ReadForEdit(2, "t", Lock()));
    RunSnoc(r3, WriteEdit(2, 1));
    RunSnoc(r3 + [WriteEdit(2, 1)], StoreComment(1, "c", 2));
    RunSnoc(r5, CountReply(1, 3));
    assert r5 == [PostThread(Sample(), 0), ReadForComment(1, Draft()), ReadForEdit(2, "t", Lock()),
                  WriteEdit(2, 1), StoreComment(1, "c", 2)];
  }

  lemma CommentSteps(s: State)
    requires JustPosted(s)
    ensures var s3 := Next(Next(s, ReadForComment(1, Draft())), ReadForEdit(2, "t", Lock()));
            var s5 := Next(Next(s3, WriteEdit(2, 1)), StoreComment(1, "c", 2));
            var s6 := Next(s5, CountReply(1, 3));
            s6.procs == map[] && Locked(s5, "t") && Count(s5, "t") == 1
            && "t" in s6.threads.items && !Locked(s6, "t")
  {
    ReadToComment(s, 1);
    var s2 := Next(s, ReadForComment(1, Draft()));
    ReadToEdit(s2, 2, Lock());
    LockThenCount(Next(s2, ReadForEdit(2, "t", Lock())));
    hide Next;
  }

  lemma LockThenCount(s: State)
    requires s.procs == map[1 := Commenting(Sample(), Draft()), 2 := Editing(Sample(), Lock())]
    requires "t" in s.threads.items && s.comments == T.Empty()
    ensures var s1 := Next(Next(s, WriteEdit(2, 1)), StoreComment(1, "c", 2));
            var s2 := Next(s1, CountReply(1, 3));
            s2.procs == map[] && Locked(s1, "t") && Count(s1, "t") == 1
            && "t" in s2.threads.items && !Locked(s2, "t")
  {
    Samples();
    hide NormalThread, NormalComment;
    var s1 := Next(s, WriteEdit(2, 1));
    assert s1.procs == map[1 := Commenting(Sample(), Draft())] && Locked(s1, "t");
    var s2 := Next(s1, StoreComment(1, "c", 2));
    assert s2.procs == map[1 := Counting(Sample(), "c")] && s2.threads == s1.threads;
  }

  /** An edit in flight undoes a view: one is counted and none is shown. */
  lemma ViewIsLost()
    ensures var s := Run([PostThread(Sample(), 0), ReadForEdit(1, "t", Rename()), ReadForView(2, "t"), CountView(2),
                          WriteEdit(1, 1)]);
            s.procs == map[] && Views(s, "t") == 1
            && "t" in s.threads.items && s.threads.items["t"].viewCount == 0
  {
    hide *;
    var r1 := [PostThread(Sample(), 0)];
    var r3 := r1 + [ReadForEdit(1, "t", Rename())] + [ReadForView(2, "t")];
    PostSample();
    ViewSteps(Run(r1));
    RunSnoc(r1, ReadForEdit(1, "t", Rename()));
    RunSnoc(r1 + [ReadForEdit(1, "t", Rename())], ReadForView(2, "t"));
    RunSnoc(r3, CountView(2));
    RunSnoc(r3 + [CountView(2)], WriteEdit(1, 1));
    assert r3 + [CountView(2)] + [WriteEdit(1, 1)]
        == [PostThread(Sample(), 0), ReadForEdit(1, "t", Rename()), ReadForView(2, "t"), CountView(2), WriteEdit(1, 1)];
  }

  lemma ViewSteps(s: State)
    requires JustPosted(s)
    ensures var s3 := Next(Next(s, ReadForEdit(1, "t", Rename())), ReadForView(2, "t"));
            var s5 := Next(Next(s3, CountView(2)), WriteEdit(1, 1));
            s5.procs == map[] && Views(s5, "t") == 1
            && "t" in s5.threads.items && s5.threads.items["t"].viewCount == 0
  {
    ReadToEdit(s, 1, Rename());
    var s2 := Next(s, ReadForEdit(1, "t", Rename()));
    var s3 := Next(s2, ReadForView(2, "t"));
    assert s3.procs == map[1 := Editing(Sample(), Rename()), 2 := Viewing("t")] && s3.threads == s.threads;
    assert Views(s3, "t") == 0;
    ViewThenEdit(s3);
    hide Next;
  }

  lemma ViewThenEdit(s: State)
    requires s.procs == map[1 := Editing(Sample(), Rename()), 2 := Viewing("t")]
    requires "t" in s.threads.items && Views(s, "t") == 0
    ensures var s' := Next(Next(s, CountView(2)), WriteEdit(1, 1));
            s'.procs == map[] && Views(s', "t") == 1
            && "t" in s'.threads.items && s'.threads.items["t"].viewCount == 0
  {
    Samples();
    hide NormalThread;
    var s1 := Next(s, CountView(2));
    assert s1.procs == map[1 := Editing(Sample(), Rename())] && Views(s1, "t") == 1;
  }

  /** A revision undoes a completed deletion. */
  lemma DeletionIsLost()
    ensures var before := [PostThread(Sample(), 0), ReadForComment(1, Draft()), StoreComment(1, "c", 1),
                           ReadForRevision(2, "c", Some("hi")), RemoveComment("c")];
            var s, s' := Run(before), Run(before + [WriteRevision(2, 2)]);
            Deleted(s, "c") && "c" in s'.comments.items && !Deleted(s', "c")
  {
    hide *;
    var r1 := [PostThread(Sample(), 0)];
    var r3 := r1 + [ReadForComment(1, Draft())] + [StoreComment(1, "c", 1)];
    var r5 := r3 + [ReadForRevision(2, "c", Some("hi"))] + [RemoveComment("c")];
    PostSample();
    RevisionSteps(Run(r1));
    RunSnoc(r1, ReadForComment(1, Draft()));
    RunSnoc(r1 + [ReadForComment(1, Draft())], StoreComment(1, "c", 1));
    RunSnoc(r3, ReadForRevision(2, "c", Some("hi")));
    RunSnoc(r3 + [ReadForRevision(2, "c", Some("hi"))], RemoveComment("c"));
    RunSnoc(r5, WriteRevision(2, 2));
    assert r5 == [PostThread(Sample(), 0), ReadForComment(1, Draft()), StoreComment(1, "c", 1),
                  ReadForRevision(2, "c", Some("hi")), RemoveComment("c")];
  }

  lemma RevisionSteps(s: State)
    requires JustPosted(s)
    ensures var s3 := Next(Next(s, ReadForComment(1, Draft())), StoreComment(1, "c", 1));
            var s5 := Next(Next(s3, ReadForRevision(2, "c", Some("hi"))), RemoveComment("c"));
            var s6 := Next(s5, WriteRevision(2, 2));
            Deleted(s5, "c") && "c" in s6.comments.items && !Deleted(s6, "c")
  {
    ReadToComment(s, 1);
    StoreOne(Next(s, ReadForComment(1, Draft())));
    ReviseOverDeletion(Next(Next(s, ReadForComment(1, Draft())), StoreComment(1, "c", 1)));
    hide Next;
  }

  lemma StoreOne(s: State)
    requires s.procs == map[1 := Commenting(Sample(), Draft())] && s.comments == T.Empty()
    ensures var s' := Next(s, StoreComment(1, "c", 1));
            s'.procs == map[1 := Counting(Sample(), "c")]
            && s'.comments.items == map["c" := Stored(Draft(), "c", 1)]
  {
  }

  lemma ReviseOverDeletion(s: State)
    requires s.procs == map[1 := Counting(Sample(), "c")]
    requires s.comments.items == map["c" := Stored(Draft(), "c", 1)]
    ensures var s1 := Next(Next(s, ReadForRevision(2, "c", Some("hi"))), RemoveComment("c"));
            var s2 := Next(s1, WriteRevision(2, 2));
            Deleted(s1, "c") && "c" in s2.comments.items && !Deleted(s2, "c")
  {
    var s0 := Next(s, ReadForRevision(2, "c", Some("hi")));
    assert s0.procs[2] == Revising(Stored(Draft(), "c", 1), Some("hi")) && s0.comments == s.comments;
    var s1 := Next(s0, RemoveComment("c"));
    assert s1.procs == s0.procs && Deleted(s1, "c");
    WrittenOver(s1);
    hide Next;
  }

  lemma WrittenOver(s: State)
    requires 2 in s.procs && s.procs[2] == Revising(Stored(Draft(), "c", 1), Some("hi")) && Deleted(s, "c")
    ensures var s' := Next(s, WriteRevision(2, 2)); "c" in s'.comments.items && !Deleted(s', "c")
  {
  }

  /** An edit in flight over a removal and a new post on another board breaks the index: the
      thread is then listed on a board it is not on. */
  lemma RepostBreaksIndex()
    ensures var before := [PostThread(Sample(), 0), ReadForEdit(1, "t", Rename()), RemoveThread("t"),
                           PostThread(Elsewhere(), 0)];
            var s, s' := Run(before), Run(before + [WriteEdit(1, 1)]);
            T.Exact(TS.BySchema(), s.threads) && !T.Exact(TS.BySchema(), s'.threads)
  {
    hide *;
    var r1 := [PostThread(Sample(), 0)];
    var r2 := r1 + [ReadForEdit(1, "t", Rename())];
    var r4 := r2 + [RemoveThread("t")] + [PostThread(Elsewhere(), 0)];
    PostSample();
    RepostSteps(Run(r1));
    RunSnoc(r1, ReadForEdit(1, "t", Rename()));
    RunSnoc(r2, RemoveThread("t"));
    RunSnoc(r2 + [RemoveThread("t")], PostThread(Elsewhere(), 0));
    RunSnoc(r4, WriteEdit(1, 1));
    ExactWithoutWrites(r4);
    CommentsStaySound(r4);
    StepKeepsThreadIndexIff(Run(r4), WriteEdit(1, 1));
    assert r4 == [PostThread(Sample(), 0), ReadForEdit(1, "t", Rename()), RemoveThread("t"),
                  PostThread(Elsewhere(), 0)];
  }

  function Elsewhere(): ThreadData {
    Sample().(boardID := "c")
  }

  lemma RepostSteps(s: State)
    requires JustPosted(s)
    ensures var s2 := Next(s, ReadForEdit(1, "t", Rename()));
            WritesOtherBoard(Next(Next(s2, RemoveThread("t")), PostThread(Elsewhere(), 0)), WriteEdit(1, 1))
  {
    ReadToEdit(s, 1, Rename());
    RemoveAndRepost(Next(s, ReadForEdit(1, "t", Rename())));
    hide Next;
  }

  lemma RemoveAndRepost(s: State)
    requires s.procs == map[1 := Editing(Sample(), Rename())] && "t" in s.threads.items
    ensures WritesOtherBoard(Next(Next(s, RemoveThread("t")), PostThread(Elsewhere(), 0)), WriteEdit(1, 1))
  {
    Samples();
    assert Posted(Elsewhere(), 0) == Posted(Sample(), 0).(boardID := "c") == Elsewhere();
    hide NormalThread, Posted;
    var s1 := Next(s, RemoveThread("t"));
    assert s1.procs == s.procs && "t" !in s1.threads.items;
    assert T.Create(TS.BySchema(), s1.threads, Elsewhere()).1 == Done;
  }

  lemma ExactWithoutWrites(steps: seq<Step>)
    requires forall i :: 0 <= i < |steps| ==> !steps[i].CountReply? && !steps[i].WriteEdit?
    ensures T.Exact(TS.BySchema(), Run(steps).threads)
  {
    ThreadIndexExactIff(steps);
    assert !HappensFrom(steps, 0, (s, step) => WritesOtherBoard(s, step));
    assert steps[..|steps|] == steps;
  }
}

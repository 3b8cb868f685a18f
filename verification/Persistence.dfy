/** The persistence protocol the five stores share (saveLoop, flush, Close, load), over an
    abstract memory M and file F. The save loop, the closing call and the callers that mutate
    the store interleave; any write may fail, and the process may crash at any step. The
    rename is atomic. */
module Persistence {

  // What a process starts with if it cannot read the file, what it makes of a file it can
  // read, and which files a flush of a memory may write: more than one, where the order of
  // the records is not determined.
  datatype Codec<!F, !M> = Codec(empty: M, load: F -> M, writes: (M, F) -> bool)

  // A flush in progress: the content copied under the lock, the file to write for it, and
  // whether the temporary file already holds all of that.
  datatype Write<F, M> = Write(content: M, file: F, version: nat, temp: bool)

  // The save loop: waiting in its select, having seen dirty set, flushing, or gone.
  datatype Loop<F, M> = Waiting | SawDirty | LoopFlush(w: Write<F, M>) | Gone

  // A call of Close: it stops the loop, waits for it to go, and flushes once more.
  datatype Closing<F, M> = NotCalled | AwaitingLoop | FlushNext | CloseFlush(w: Write<F, M>) | Returned(ok: bool)

  // The file, the process, and two history variables: every content of the memory so far,
  // and how many there were when Close was called. The file and each flush carry the number
  // of their content in that history; the initial file carries zero.
  datatype State<F, M> = State(disk: F, diskVersion: nat, running: bool, mem: M, dirty: bool, synced: bool,
                               loop: Loop<F, M>, closing: Closing<F, M>, history: seq<M>, closedAt: nat)

  datatype Action<F, M> =
    | Boot(readOk: bool)     // start a process: load the file, or log that it cannot be read
    | Mutate(m: M)           // a store call that sets dirty
    | Tick                   // the loop's ticker fires
    | SeeStop                // the loop sees that it is to stop
    | LoopSnapshot(f: F)     // copy the memory; f is the file to write for it
    | CallClose
    | SeeGone                // Close sees that the loop is gone
    | CloseSnapshot(f: F)
    | WriteTemp(close: bool)
    | Rename(close: bool)
    | Fail(close: bool)      // any error of the flush before the rename takes effect
    | Crash

  function Start<F, M>(c: Codec<F, M>, disk: F): State<F, M> {
    State(disk, 0, false, c.empty, false, false, Waiting, NotCalled, [], 0)
  }

  function Snapshot<F, M>(s: State<F, M>, f: F): Write<F, M> {
    Write(s.mem, f, |s.history|, false)
  }

  // The flush of the closing call or of the loop, if it is in progress.
  predicate Flushing<F, M>(s: State<F, M>, close: bool) {
    if close then s.closing.CloseFlush? else s.loop.LoopFlush?
  }

  function FlushOf<F, M>(s: State<F, M>, close: bool): Write<F, M>
    requires Flushing(s, close)
  {
    if close then s.closing.w else s.loop.w
  }

  // flush returns: the loop ignores the error, Close passes it on.
  function FlushEnds<F, M>(s: State<F, M>, close: bool, ok: bool): State<F, M> {
    if close then s.(closing := Returned(ok), synced := ok) else s.(loop := Waiting, synced := ok)
  }

  function Loaded<F, M>(c: Codec<F, M>, disk: F, readOk: bool): M {
    if readOk then c.load(disk) else c.empty
  }

  function Boots<F, M>(c: Codec<F, M>, s: State<F, M>, readOk: bool): State<F, M> {
    var m := Loaded(c, s.disk, readOk);
    s.(running := true, mem := m, dirty := false, synced := readOk, loop := Waiting,
       closing := NotCalled, history := s.history + [m])
  }

  function Act<F, M>(c: Codec<F, M>, s: State<F, M>, a: Action<F, M>): State<F, M> {
    if a.Boot? then (if s.running then s else Boots(c, s, a.readOk))
    else if !s.running then s
    else
      match a
      case Mutate(m) => s.(mem := m, dirty := true, history := s.history + [m])
      case Tick => if s.loop.Waiting? && s.dirty then s.(loop := SawDirty) else s
      case SeeStop => if s.loop.Waiting? && !s.closing.NotCalled? then s.(loop := Gone) else s
      case LoopSnapshot(f) =>
        if s.loop.SawDirty? && c.writes(s.mem, f) then s.(loop := LoopFlush(Snapshot(s, f)), dirty := false) else s
      case CallClose => if s.closing.NotCalled? then s.(closing := AwaitingLoop, closedAt := |s.history|) else s
      case SeeGone => if s.closing.AwaitingLoop? && s.loop.Gone? then s.(closing := FlushNext) else s
      case CloseSnapshot(f) =>
        if s.closing.FlushNext? && c.writes(s.mem, f) then s.(closing := CloseFlush(Snapshot(s, f)), dirty := false)
        else s
      case WriteTemp(close) =>
        if !Flushing(s, close) then s
        else if close then s.(closing := CloseFlush(s.closing.w.(temp := true)))
        else s.(loop := LoopFlush(s.loop.w.(temp := true)))
      case Rename(close) =>
        if Flushing(s, close) && FlushOf(s, close).temp then
          var w := FlushOf(s, close);
          FlushEnds(s.(disk := w.file, diskVersion := w.version), close, true)
        else s
      case Fail(close) => if Flushing(s, close) then FlushEnds(s, close, false) else s
      case Crash => s.(running := false)
      case Boot(_) => s
  }

  function Run<F, M>(c: Codec<F, M>, disk: F, actions: seq<Action<F, M>>): State<F, M> {
    if actions == [] then Start(c, disk)
    else Act(c, Run(c, disk, actions[..|actions| - 1]), actions[|actions| - 1])
  }

  // ---- Safety ----

  ghost predicate WriteOk<F, M>(c: Codec<F, M>, s: State<F, M>, w: Write<F, M>) {
    0 < w.version <= |s.history| && s.diskVersion <= w.version
    && w.content == s.history[w.version - 1] && c.writes(w.content, w.file)
  }

  // The file is the initial one, or one written for some content of the history.
  ghost predicate DiskOk<F, M>(c: Codec<F, M>, initial: F, s: State<F, M>) {
    s.diskVersion <= |s.history|
    && if s.diskVersion == 0 then s.disk == initial else c.writes(s.history[s.diskVersion - 1], s.disk)
  }

  ghost predicate Safe<F, M>(c: Codec<F, M>, initial: F, s: State<F, M>) {
    && DiskOk(c, initial, s)
    && (s.running ==>
          && |s.history| > 0 && s.mem == s.history[|s.history| - 1]
          && (s.loop.LoopFlush? ==> WriteOk(c, s, s.loop.w))
          && (s.closing.CloseFlush? ==> WriteOk(c, s, s.closing.w))
          && (s.closing.FlushNext? || s.closing.CloseFlush? || s.closing.Returned? ==> s.loop.Gone?))
  }

  lemma ActKeepsSafe<F, M>(c: Codec<F, M>, initial: F, s: State<F, M>, a: Action<F, M>)
    requires Safe(c, initial, s)
    ensures Safe(c, initial, Act(c, s, a))
    ensures Act(c, s, a).diskVersion >= s.diskVersion
    ensures s.history <= Act(c, s, a).history
  {
  }

  lemma {:induction false} AlwaysSafe<F, M>(c: Codec<F, M>, disk: F, actions: seq<Action<F, M>>)
    ensures Safe(c, disk, Run(c, disk, actions))
  {
    if actions != [] {
      AlwaysSafe(c, disk, actions[..|actions| - 1]);
      ActKeepsSafe(c, disk, Run(c, disk, actions[..|actions| - 1]), actions[|actions| - 1]);
    }
  }

  /** At most one flush is ever in progress, because Close waits for the loop to be gone. */
  lemma OneFlushAtATime<F, M>(c: Codec<F, M>, disk: F, actions: seq<Action<F, M>>)
    ensures var s := Run(c, disk, actions); s.running ==> !(Flushing(s, true) && Flushing(s, false))
  {
    AlwaysSafe(c, disk, actions);
  }

  /** The file never goes back to an older content of the store's history. */
  lemma {:induction false} DiskNeverGoesBack<F, M>(c: Codec<F, M>, disk: F, actions: seq<Action<F, M>>, k: nat)
    requires k <= |actions|
    ensures var early, late := Run(c, disk, actions[..k]), Run(c, disk, actions);
            early.history <= late.history && early.diskVersion <= late.diskVersion && DiskOk(c, disk, late)
    decreases |actions|
  {
    AlwaysSafe(c, disk, actions);
    if k == |actions| {
      assert actions[..k] == actions;
    } else {
      var init := actions[..|actions| - 1];
      assert init[..k] == actions[..k];
      DiskNeverGoesBack(c, disk, init, k);
      AlwaysSafe(c, disk, init);
      ActKeepsSafe(c, disk, Run(c, disk, init), actions[|actions| - 1]);
    }
  }

  // Some process held this content in memory at some point of the run.
  ghost predicate WasMemory<F, M>(c: Codec<F, M>, disk: F, actions: seq<Action<F, M>>, m: M) {
    exists k :: 0 <= k <= |actions| && HoldsAt(c, disk, actions, k, m)
  }

  ghost predicate HoldsAt<F, M>(c: Codec<F, M>, disk: F, actions: seq<Action<F, M>>, k: nat, m: M)
    requires k <= |actions|
  {
    Run(c, disk, actions[..k]).running && Run(c, disk, actions[..k]).mem == m
  }

  lemma {:induction false} HistoryIsReal<F, M>(c: Codec<F, M>, disk: F, actions: seq<Action<F, M>>, i: nat)
    requires i < |Run(c, disk, actions).history|
    ensures WasMemory(c, disk, actions, Run(c, disk, actions).history[i])
    decreases |actions|
  {
    if actions != [] {
      var init, a := actions[..|actions| - 1], actions[|actions| - 1];
      var before := Run(c, disk, init);
      AlwaysSafe(c, disk, init);
      ActKeepsSafe(c, disk, before, a);
      hide Act, Safe;
      if i < |before.history| {
        HistoryIsReal(c, disk, init, i);
        WasMemoryEarlier(c, disk, actions, before.history[i]);
      } else {
        NewIsMemory(c, before, a, i);
        assert actions[..|actions|] == actions;
        assert HoldsAt(c, disk, actions, |actions|, Run(c, disk, actions).history[i]);
      }
    }
  }

  lemma WasMemoryEarlier<F, M>(c: Codec<F, M>, disk: F, actions: seq<Action<F, M>>, m: M)
    requires actions != [] && WasMemory(c, disk, actions[..|actions| - 1], m)
    ensures WasMemory(c, disk, actions, m)
  {
    var init := actions[..|actions| - 1];
    var k :| 0 <= k <= |init| && HoldsAt(c, disk, init, k, m);
    assert init[..k] == actions[..k];
    assert HoldsAt(c, disk, actions, k, m);
  }

  // A step adds to the history only what the memory then holds.
  lemma NewIsMemory<F, M>(c: Codec<F, M>, s: State<F, M>, a: Action<F, M>, i: nat)
    requires |s.history| <= i < |Act(c, s, a).history|
    ensures var s' := Act(c, s, a); s'.running && s'.mem == s'.history[i]
  {
  }

  /** Persistence safety: in every reachable state, after a crash at any step included, the
      file is the initial one, or one that a flush writes for one complete content that the
      memory of a running process really had. */
  lemma DiskIsInitialOrWasMemory<F, M>(c: Codec<F, M>, disk: F, actions: seq<Action<F, M>>)
    ensures var s := Run(c, disk, actions);
            s.disk == disk || exists m :: WasMemory(c, disk, actions, m) && c.writes(m, s.disk)
  {
    AlwaysSafe(c, disk, actions);
    var s := Run(c, disk, actions);
    if s.diskVersion > 0 {
      HistoryIsReal(c, disk, actions, s.diskVersion - 1);
      var m := s.history[s.diskVersion - 1];
      assert WasMemory(c, disk, actions, m) && c.writes(m, s.disk);
    }
  }

  // ---- Completeness ----

  // While dirty is clear, what a flush in progress carries is what the memory holds; with
  // none in progress and the last load or flush successful, the file was written for it or
  // loads to it.
  ghost predicate Tracked<F, M>(c: Codec<F, M>, s: State<F, M>) {
    s.running && !s.dirty ==>
      if s.loop.LoopFlush? then s.loop.w.content == s.mem && c.writes(s.mem, s.loop.w.file)
      else if s.closing.CloseFlush? then s.closing.w.content == s.mem && c.writes(s.mem, s.closing.w.file)
      else s.synced ==> c.writes(s.mem, s.disk) || c.load(s.disk) == s.mem
  }

  // The closing flush copies the memory after Close was called.
  ghost predicate CloseTracked<F, M>(s: State<F, M>) {
    s.running && !s.closing.NotCalled? ==>
      && 0 < s.closedAt <= |s.history|
      && (s.closing.CloseFlush? ==> s.closing.w.version >= s.closedAt)
      && (s.closing == Returned(true) ==> s.diskVersion >= s.closedAt)
  }

  lemma {:induction false} AlwaysTracked<F, M>(c: Codec<F, M>, disk: F, actions: seq<Action<F, M>>)
    ensures Tracked(c, Run(c, disk, actions)) && CloseTracked(Run(c, disk, actions))
  {
    if actions != [] {
      var init, a := actions[..|actions| - 1], actions[|actions| - 1];
      AlwaysTracked(c, disk, init);
      AlwaysSafe(c, disk, init);
      ActKeepsSafe(c, disk, Run(c, disk, init), a);
      ActKeepsTracked(c, disk, Run(c, disk, init), a);
    }
  }

  lemma ActKeepsTracked<F, M>(c: Codec<F, M>, initial: F, s: State<F, M>, a: Action<F, M>)
    requires Safe(c, initial, s) && Tracked(c, s) && CloseTracked(s)
    ensures Tracked(c, Act(c, s, a)) && CloseTracked(Act(c, s, a))
  {
  }

  ghost predicate Clean<F, M>(s: State<F, M>) {
    s.running && !s.dirty && s.synced && !Flushing(s, true) && !Flushing(s, false)
  }

  // Loading restores what a flush writes.
  ghost predicate RoundTrips<F(!new), M(!new)>(c: Codec<F, M>) {
    forall m, f :: c.writes(m, f) ==> c.load(f) == m
  }

  /** Persistence completeness: in a running process, when dirty is clear, no flush is in
      progress and the last load or flush succeeded, the file was written for the memory or
      loaded to it; and where loading restores what flushes write, it loads to the memory. */
  lemma CleanMeansSaved<F(!new), M(!new)>(c: Codec<F, M>, disk: F, actions: seq<Action<F, M>>)
    ensures var s := Run(c, disk, actions); Clean(s) ==> c.writes(s.mem, s.disk) || c.load(s.disk) == s.mem
    ensures var s := Run(c, disk, actions); RoundTrips(c) && Clean(s) ==> c.load(s.disk) == s.mem
  {
    AlwaysTracked(c, disk, actions);
  }

  /** If Close returns without error, the file was written for a content at least as recent as
      the memory was when Close was called; and for the memory itself if nothing was mutated
      since. */
  lemma CloseSavesEverything<F, M>(c: Codec<F, M>, disk: F, actions: seq<Action<F, M>>)
    ensures var s := Run(c, disk, actions);
            s.running && s.closing == Returned(true) ==>
              && 0 < s.closedAt <= s.diskVersion <= |s.history|
              && c.writes(s.history[s.diskVersion - 1], s.disk)
              && (s.closedAt == |s.history| ==> c.writes(s.mem, s.disk))
  {
    AlwaysTracked(c, disk, actions);
    AlwaysSafe(c, disk, actions);
    hide Run, Tracked;
  }

  /** When Close answers: without error exactly when its flush renames the finished temporary
      file, with an error exactly when its flush fails. */
  lemma CloseAnswersIff<F, M>(c: Codec<F, M>, s: State<F, M>, a: Action<F, M>)
    requires s.running && !s.closing.Returned?
    ensures Act(c, s, a).closing == Returned(true)
       <==> s.closing.CloseFlush? && s.closing.w.temp && a == Rename(true)
    ensures Act(c, s, a).closing == Returned(false) <==> s.closing.CloseFlush? && a == Fail(true)
  {
  }

  // The flush that a step ends, if it ends one.
  predicate EndsFlush<F, M>(s: State<F, M>, a: Action<F, M>, ok: bool) {
    if ok then a.Rename? && Flushing(s, a.close) && FlushOf(s, a.close).temp
    else a.Fail? && Flushing(s, a.close)
  }

  /** The record of the last load or flush: a start sets it to whether the file could be read,
      a flush that ends to whether it was renamed, and no other step touches it. A flush that
      fails leaves the file, and one of the loop leaves the loop waiting. */
  lemma SyncedIs<F, M>(c: Codec<F, M>, s: State<F, M>, a: Action<F, M>)
    ensures var s' := Act(c, s, a);
            && (!s.running && a.Boot? ==> s'.synced == a.readOk)
            && (s.running && EndsFlush(s, a, true) ==> s'.synced && s'.disk == FlushOf(s, a.close).file)
            && (s.running && EndsFlush(s, a, false) ==> !s'.synced && s'.disk == s.disk)
            && (s.running && (a.Rename? || a.Fail?) && !a.close && s'.loop != s.loop ==> s'.loop == Waiting)
            && (s.running && !EndsFlush(s, a, true) && !EndsFlush(s, a, false)
                ==> s'.synced == s.synced && s'.disk == s.disk)
  {
  }

  /** Dirty is set by every mutation, cleared by the start of every flush and of the process,
      and touched by no other step. */
  lemma DirtyIs<F, M>(c: Codec<F, M>, s: State<F, M>, a: Action<F, M>)
    ensures var s' := Act(c, s, a);
            var starts := s.running && ((s'.loop.LoopFlush? && !s.loop.LoopFlush?)
                                        || (s'.closing.CloseFlush? && !s.closing.CloseFlush?));
            && (s.running && a.Mutate? ==> s'.dirty && s'.mem == a.m)
            && (starts ==> !s'.dirty && s'.mem == s.mem)
            && (!s.running && a.Boot? ==> !s'.dirty && s'.mem == Loaded(c, s.disk, a.readOk))
            && (s.running && !a.Mutate? && !starts ==> s'.dirty == s.dirty && s'.mem == s.mem)
  {
  }

  // The save loop is there until Close is called, and Close finds it gone before it flushes.
  ghost predicate LoopRuns<F, M>(s: State<F, M>) {
    s.running ==>
      && (s.closing.NotCalled? ==> !s.loop.Gone?)
      && (s.closing.FlushNext? || s.closing.CloseFlush? || s.closing.Returned? ==> s.loop.Gone?)
  }

  /** The save loop does not stop before Close is called, and has stopped when Close flushes. */
  lemma {:induction false} LoopRunsUntilClosed<F, M>(c: Codec<F, M>, disk: F, actions: seq<Action<F, M>>)
    ensures LoopRuns(Run(c, disk, actions))
  {
    if actions != [] {
      LoopRunsUntilClosed(c, disk, actions[..|actions| - 1]);
      LoopKeepsRunning(c, Run(c, disk, actions[..|actions| - 1]), actions[|actions| - 1]);
    }
  }

  lemma LoopKeepsRunning<F, M>(c: Codec<F, M>, s: State<F, M>, a: Action<F, M>)
    requires LoopRuns(s)
    ensures LoopRuns(Act(c, s, a))
  {
  }

  // closedAt is what it says: the contents known when Close was called.
  lemma CloseMarksHistory<F, M>(c: Codec<F, M>, initial: F, s: State<F, M>)
    requires Safe(c, initial, s) && s.running && s.closing.NotCalled?
    ensures var s' := Act(c, s, CallClose);
            s'.closing == AwaitingLoop && s'.history[..s'.closedAt] == s.history && s'.history[s'.closedAt - 1] == s.mem
  {
  }

  /** After any crash, a process that can read the file starts from what it loads to: where
      loading restores what flushes write, that is the content of the history the file was
      written for, unless no flush ever succeeded. */
  lemma RestartRestoresDisk<F(!new), M(!new)>(c: Codec<F, M>, disk: F, actions: seq<Action<F, M>>)
    ensures var s, s' := Run(c, disk, actions), Run(c, disk, actions + [Crash] + [Boot(true)]);
            && s'.running && s'.mem == c.load(s.disk) && s'.disk == s.disk && !s'.dirty
            && (if s.diskVersion == 0 then s.disk == disk
                else RoundTrips(c) ==> s.diskVersion <= |s.history| && s'.mem == s.history[s.diskVersion - 1])
  {
    assert (actions + [Crash] + [Boot(true)])[..|actions| + 1] == actions + [Crash];
    assert (actions + [Crash])[..|actions|] == actions;
    AlwaysSafe(c, disk, actions);
  }

  // ---- What is not guaranteed ----

  /** A failed flush is forgotten: the file stays behind, and the loop does nothing about it
      if and only if no mutation set dirty again, which was cleared before the write. */
  lemma FailedFlushForgotten<F, M>(c: Codec<F, M>, s: State<F, M>)
    requires s.running && s.loop.LoopFlush?
    ensures var s' := Act(c, s, Fail(false));
            s'.disk == s.disk && s'.dirty == s.dirty && (Act(c, s', Tick) == s' <==> !s.dirty)
  {
  }

  /** Such a state is reachable from any file and for any memory that can be flushed, with the
      file as it was. */
  lemma FailedFlushReachable<F, M>(c: Codec<F, M>, disk: F, m: M, f: F)
    requires c.writes(m, f)
    ensures var s := Run(c, disk, [Boot(true), Mutate(m), Tick, LoopSnapshot(f), Fail(false)]);
            s.running && !s.dirty && !Flushing(s, false) && s.disk == disk && s.mem == m
  {
    RunUnfolds(c, disk, [Boot(true), Mutate(m), Tick, LoopSnapshot(f), Fail(false)]);
  }

  // A run of five actions, step by step.
  lemma RunUnfolds<F, M>(c: Codec<F, M>, disk: F, a: seq<Action<F, M>>)
    requires |a| == 5
    ensures Run(c, disk, a)
         == Act(c, Act(c, Act(c, Act(c, Act(c, Start(c, disk), a[0]), a[1]), a[2]), a[3]), a[4])
  {
    hide Act;
    assert a[..4][..3] == a[..3] && a[..3][..2] == a[..2] && a[..2][..1] == a[..1] && a[..1][..0] == [];
    assert Run(c, disk, a[..1]) == Act(c, Start(c, disk), a[0]);
    assert Run(c, disk, a[..2]) == Act(c, Run(c, disk, a[..1]), a[1]);
    assert Run(c, disk, a[..3]) == Act(c, Run(c, disk, a[..2]), a[2]);
    assert Run(c, disk, a[..4]) == Act(c, Run(c, disk, a[..3]), a[3]);
  }

  /** A file that cannot be read is not protected: the store starts empty, and the next
      flush replaces the file, whatever it holds. */
  lemma UnreadableFileOverwritten<F, M>(c: Codec<F, M>, disk: F, m: M, f: F)
    requires c.writes(m, f)
    ensures Run(c, disk, [Boot(false), Mutate(m), Tick, LoopSnapshot(f), WriteTemp(false), Rename(false)]).disk == f
  {
    var a := [Boot(false), Mutate(m), Tick, LoopSnapshot(f), WriteTemp(false), Rename(false)];
    RunUnfolds(c, disk, a[..5]);
  }

  // ---- When the file is protected ----

  // No store call changes a record.
  ghost predicate NoMutation<F, M>(actions: seq<Action<F, M>>) {
    forall i :: 0 <= i < |actions| ==> !actions[i].Mutate?
  }

  // For each start in the run, whether the file could be read.
  function Reads<F, M>(actions: seq<Action<F, M>>): seq<bool> {
    if actions == [] then []
    else
      var a := actions[|actions| - 1];
      Reads(actions[..|actions| - 1]) + (if a.Boot? then [a.readOk] else [])
  }

  // A flush of the memory can write no other file than this one.
  ghost predicate OnlyWrites<F(!new), M>(c: Codec<F, M>, m: M, disk: F) {
    forall f :: c.writes(m, f) ==> f == disk
  }

  // Whatever each start of the run makes of the file is flushed to the file.
  ghost predicate EachKeeps<F(!new), M>(c: Codec<F, M>, disk: F, loads: seq<bool>) {
    forall i :: 0 <= i < |loads| ==> OnlyWrites(c, Loaded(c, disk, loads[i]), disk)
  }

  // Every run without a mutation in which the file is read with these results leaves it alone.
  ghost predicate FileKept<F(!new), M(!new)>(c: Codec<F, M>, disk: F, loads: seq<bool>) {
    forall actions :: NoMutation(actions) && Reads(actions) == loads ==> Run(c, disk, actions).disk == disk
  }

  // The file is untouched, and no flush can change it.
  ghost predicate Untouched<F(!new), M>(c: Codec<F, M>, s: State<F, M>, disk: F) {
    s.disk == disk && (s.running ==>
                         && OnlyWrites(c, s.mem, disk)
                         && (s.loop.LoopFlush? ==> s.loop.w.file == disk)
                         && (s.closing.CloseFlush? ==> s.closing.w.file == disk))
  }

  lemma ActLeavesFile<F(!new), M>(c: Codec<F, M>, s: State<F, M>, a: Action<F, M>, disk: F)
    requires Untouched(c, s, disk) && !a.Mutate? && (a.Boot? ==> OnlyWrites(c, Loaded(c, disk, a.readOk), disk))
    ensures Untouched(c, Act(c, s, a), disk)
  {
  }

  lemma {:induction false} StartsKeepFile<F(!new), M>(c: Codec<F, M>, disk: F, actions: seq<Action<F, M>>)
    requires NoMutation(actions) && EachKeeps(c, disk, Reads(actions))
    ensures Untouched(c, Run(c, disk, actions), disk)
  {
    if actions != [] {
      var init, a := actions[..|actions| - 1], actions[|actions| - 1];
      assert forall i :: 0 <= i < |init| ==> init[i] == actions[i];
      var loads := Reads(actions);
      assert forall i :: 0 <= i < |Reads(init)| ==> Reads(init)[i] == loads[i];
      assert a.Boot? ==> loads[|loads| - 1] == a.readOk;
      StartsKeepFile(c, disk, init);
      hide Act, Untouched;
      ActLeavesFile(c, Run(c, disk, init), a, disk);
    }
  }

  function Resume<F, M>(c: Codec<F, M>, s: State<F, M>, actions: seq<Action<F, M>>): State<F, M> {
    if actions == [] then s else Act(c, Resume(c, s, actions[..|actions| - 1]), actions[|actions| - 1])
  }

  lemma {:induction false} RunResumes<F, M>(c: Codec<F, M>, disk: F, a: seq<Action<F, M>>, b: seq<Action<F, M>>)
    ensures Run(c, disk, a + b) == Resume(c, Run(c, disk, a), b)
    ensures Reads(a + b) == Reads(a) + Reads(b)
  {
    if b == [] {
      assert a + b == a;
    } else {
      var init := b[..|b| - 1];
      assert (a + b)[..|a + b| - 1] == a + init;
      RunResumes(c, disk, a, init);
    }
  }

  // Starting and crashing, with these results of reading the file.
  function Restarts<F, M>(loads: seq<bool>): seq<Action<F, M>> {
    if loads == [] then [] else Restarts(loads[..|loads| - 1]) + [Boot(loads[|loads| - 1]), Crash]
  }

  lemma TwoMore<F, M>(c: Codec<F, M>, disk: F, init: seq<Action<F, M>>, a: Action<F, M>, b: Action<F, M>)
    ensures Run(c, disk, init + [a, b]) == Act(c, Act(c, Run(c, disk, init), a), b)
    ensures Reads(init + [a, b])
         == Reads(init) + (if a.Boot? then [a.readOk] else []) + (if b.Boot? then [b.readOk] else [])
  {
    var actions := init + [a, b];
    assert actions[..|init| + 1] == init + [a];
    assert actions[..|init| + 1][..|init|] == init;
  }

  lemma {:induction false} RestartsKeep<F, M>(c: Codec<F, M>, disk: F, loads: seq<bool>)
    ensures var s := Run(c, disk, Restarts(loads)); !s.running && s.disk == disk
    ensures NoMutation(Restarts<F, M>(loads)) && Reads(Restarts<F, M>(loads)) == loads
  {
    if loads != [] {
      var init := Restarts<F, M>(loads[..|loads| - 1]);
      RestartsKeep(c, disk, loads[..|loads| - 1]);
      TwoMore(c, disk, init, Boot(loads[|loads| - 1]), Crash);
    }
  }

  // Starting again while the process runs does nothing.
  function Starts<F, M>(loads: seq<bool>): seq<Action<F, M>> {
    if loads == [] then [] else Starts(loads[..|loads| - 1]) + [Boot(loads[|loads| - 1])]
  }

  lemma {:induction false} StartsIgnored<F, M>(c: Codec<F, M>, s: State<F, M>, loads: seq<bool>)
    requires s.running
    ensures Resume(c, s, Starts(loads)) == s
  {
    if loads != [] {
      var init, b := Starts<F, M>(loads[..|loads| - 1]), loads[|loads| - 1];
      StartsIgnored(c, s, loads[..|loads| - 1]);
      assert Act(c, s, Boot(b)) == s;
      hide Act;
      assert (init + [Boot(b)])[..|init|] == init;
    }
  }

  lemma {:induction false} StartsRead<F, M>(loads: seq<bool>)
    ensures NoMutation(Starts<F, M>(loads)) && Reads(Starts<F, M>(loads)) == loads
  {
    if loads != [] {
      var n := |loads| - 1;
      var init: seq<Action<F, M>> := Starts(loads[..n]);
      StartsRead<F, M>(loads[..n]);
      ReadsLast(init, Boot(loads[n]));
      assert loads[..n] + [loads[n]] == loads;
      hide Reads;
    }
  }

  lemma ReadsLast<F, M>(init: seq<Action<F, M>>, last: Action<F, M>)
    ensures Reads(init + [last]) == Reads(init) + (if last.Boot? then [last.readOk] else [])
  {
    assert (init + [last])[..|init|] == init;
  }

  // A process is closed at once, writing the file f.
  function CloseAtOnce<F, M>(readOk: bool, f: F): seq<Action<F, M>> {
    CloseUntilFlush(readOk) + [CloseSnapshot(f)] + [WriteTemp(true)] + [Rename(true)]
  }

  // Up to the closing flush.
  function CloseUntilFlush<F, M>(readOk: bool): seq<Action<F, M>> {
    [] + [Boot(readOk)] + [CallClose] + [SeeStop] + [SeeGone]
  }

  lemma ResumeLast<F, M>(c: Codec<F, M>, s: State<F, M>, init: seq<Action<F, M>>, last: Action<F, M>)
    ensures Resume(c, s, init + [last]) == Act(c, Resume(c, s, init), last)
    ensures Reads(init + [last]) == Reads(init) + (if last.Boot? then [last.readOk] else [])
  {
    hide Act;
    ReadsLast(init, last);
    assert (init + [last])[..|init|] == init;
  }

  lemma ClosingStarts<F, M>(c: Codec<F, M>, s: State<F, M>, readOk: bool)
    requires !s.running
    ensures var s' := Resume(c, s, CloseUntilFlush(readOk));
            s'.running && s'.closing.FlushNext? && s'.mem == Loaded(c, s.disk, readOk) && s'.loop.Gone?
    ensures Reads(CloseUntilFlush<F, M>(readOk)) == [readOk]
  {
    var s1 := Act(c, s, Boot(readOk));
    var s2 := Act(c, s1, CallClose);
    var s4 := Act(c, Act(c, s2, SeeStop), SeeGone);
    assert s4.running && s4.closing.FlushNext? && s4.mem == Loaded(c, s.disk, readOk);
    hide Act;
    ResumeLast(c, s, [], Boot(readOk));
    ResumeLast(c, s, [] + [Boot(readOk)], CallClose);
    ResumeLast(c, s, [] + [Boot(readOk)] + [CallClose], SeeStop);
    ResumeLast(c, s, [] + [Boot(readOk)] + [CallClose] + [SeeStop], SeeGone);
  }

  /** Close can succeed: a process closed at once, whether or not it could read its file,
      answers without error, with the file written for its memory. */
  lemma ClosingOverwrites<F, M>(c: Codec<F, M>, s: State<F, M>, readOk: bool, f: F)
    requires !s.running && c.writes(Loaded(c, s.disk, readOk), f)
    ensures var s' := Resume(c, s, CloseAtOnce(readOk, f));
            s'.running && s'.disk == f && s'.closing == Returned(true) && s'.synced && !s'.dirty
    ensures Reads(CloseAtOnce<F, M>(readOk, f)) == [readOk]
  {
    ClosingStarts(c, s, readOk);
    var start := CloseUntilFlush<F, M>(readOk);
    hide Resume, Reads, CloseUntilFlush, Loaded;
    ResumeLast(c, s, start, CloseSnapshot(f));
    ResumeLast(c, s, start + [CloseSnapshot(f)], WriteTemp(true));
    ResumeLast(c, s, start + [CloseSnapshot(f)] + [WriteTemp(true)], Rename(true));
  }

  /** And so can the save loop: whenever it waits with something to save, it can write the
      memory to the file, and then waits again with nothing left to save. */
  lemma LoopSaves<F, M>(c: Codec<F, M>, s: State<F, M>, f: F)
    requires s.running && s.loop.Waiting? && s.dirty && c.writes(s.mem, f)
    ensures var s' := Resume(c, s, [] + [Tick] + [LoopSnapshot(f)] + [WriteTemp(false)] + [Rename(false)]);
            s'.running && s'.disk == f && s'.mem == s.mem && s'.loop.Waiting? && s'.synced && !s'.dirty
            && s'.closing == s.closing
  {
    ResumeLast(c, s, [], Tick);
    ResumeLast(c, s, [] + [Tick], LoopSnapshot(f));
    ResumeLast(c, s, [] + [Tick] + [LoopSnapshot(f)], WriteTemp(false));
    ResumeLast(c, s, [] + [Tick] + [LoopSnapshot(f)] + [WriteTemp(false)], Rename(false));
  }

  // Where the memory of some start can be flushed to a file, the file can be replaced by it
  // without a mutation.
  lemma ClosingReplaces<F, M>(c: Codec<F, M>, disk: F, loads: seq<bool>, i: nat, f: F)
    returns (actions: seq<Action<F, M>>)
    requires i < |loads| && c.writes(Loaded(c, disk, loads[i]), f)
    ensures NoMutation(actions) && Reads(actions) == loads && Run(c, disk, actions).disk == f
  {
    var first, close, last :=
      Restarts<F, M>(loads[..i]), CloseAtOnce<F, M>(loads[i], f), Starts<F, M>(loads[i + 1..]);
    var closed := first + close;
    actions := closed + last;
    assert NoMutation(close);
    RestartsKeep(c, disk, loads[..i]);
    hide *;
    ClosingOverwrites(c, Run(c, disk, first), loads[i], f);
    RunResumes(c, disk, first, close);
    StartsIgnored(c, Run(c, disk, closed), loads[i + 1..]);
    StartsRead<F, M>(loads[i + 1..]);
    RunResumes(c, disk, closed, last);
    NoMutationAppend(first, close);
    NoMutationAppend(closed, last);
    SplitAt(loads, i);
  }

  lemma SplitAt(loads: seq<bool>, i: nat)
    requires i < |loads|
    ensures loads[..i] + [loads[i]] + loads[i + 1..] == loads
  {
  }

  lemma NoMutationAppend<F, M>(a: seq<Action<F, M>>, b: seq<Action<F, M>>)
    requires NoMutation(a) && NoMutation(b)
    ensures NoMutation(a + b)
  {
  }

  /** A store that changes nothing leaves its file alone, whatever else happens, if and only
      if at every start the file is the only one a flush can write for the memory the process
      starts with. One other start is enough, since closing writes the memory to the file. */
  lemma FileKeptIff<F(!new), M(!new)>(c: Codec<F, M>, disk: F, loads: seq<bool>)
    ensures FileKept(c, disk, loads) <==> EachKeeps(c, disk, loads)
  {
    hide Act, Run, Reads;
    if EachKeeps(c, disk, loads) {
      forall actions | NoMutation(actions) && Reads(actions) == loads ensures Run(c, disk, actions).disk == disk {
        StartsKeepFile(c, disk, actions);
      }
    } else {
      var i :| 0 <= i < |loads| && !OnlyWrites(c, Loaded(c, disk, loads[i]), disk);
      var f :| c.writes(Loaded(c, disk, loads[i]), f) && f != disk;
      var actions := ClosingReplaces(c, disk, loads, i, f);
      assert Run(c, disk, actions).disk != disk;
    }
  }
}

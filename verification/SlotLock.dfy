/**
 * One slot of shared memory, used by a succession of workers and watched by the master, as interleaved steps:
 * fpm/fpm_atomic.h (fpm_spinlock), fpm/fpm_shm_slots.c (acquire, release, the memset of a recycled slot) and
 * fpm/fpm_request.c (the workers' updates, the master's copy).
 */
module SlotLock {
  import opened Basics

  /** The contents of the slot behind its lock word, word by word. */
  type Words = seq<int>

  datatype Write = Write(at: nat, value: int)

  function Put(words: Words, w: Write): (r: Words)
    ensures |r| == |words|
  {
    if w.at < |words| then words[w.at := w.value] else words
  }

  /** A worker's update: its writes, in order. */
  function PutAll(words: Words, ws: seq<Write>): (r: Words)
    ensures |r| == |words|
  {
    if ws == [] then words else Put(PutAll(words, ws[..|ws| - 1]), ws[|ws| - 1])
  }

  datatype Worker =
    | Gone                                      // none, or reaped
    | Outside                                   // alive, outside its critical section
    | Inside(update: seq<Write>, done: nat)     // alive, with the lock, `done` writes made
    | Dead(inside: bool)                        // exited or killed, not reaped yet

  datatype Master =
    | Watching
    | Copying(copied: Words)                    // with the lock, so many words copied
    | Clearing(cleared: nat)                    // memset for a new worker, so many words done

  /** What a worker has published, complete; a new worker begins with zeros. */
  datatype Publication = Publication(owner: nat, words: Words)

  /** What the master has copied, and how much had been published by then. */
  datatype Snapshot = Snapshot(owner: nat, words: Words, published: nat)

  datatype State = State(
    lock: int, words: Words, worker: Worker, master: Master, owner: nat,
    published: seq<Publication>, updates: seq<seq<Write>>, snapshots: seq<Snapshot>)

  datatype Step =
    | Enter(update: seq<Write>)   // the worker's compare-and-set
    | WriteNext                   // one of its writes
    | Leave                       // its release
    | Die                         // it ends, wherever it is
    | TryLock                     // the master's only attempt
    | CopyNext                    // one word of `slot_c = *slot`
    | Unlock                      // the master's release
    | Reap                        // the master discards the slot of a dead worker
    | Recycle                     // it prepares the slot for another one: the lock word is cleared
    | ClearNext                   // and the words behind it
    | Fork                        // the new worker starts
    | Abandon                     // fork(2) failed: the slot becomes free again

  /** A step that is not possible leaves the state as it is: a spinning worker, a failed attempt. */
  function After(s: State, step: Step): State {
    match step
    case Enter(update) =>
      if s.worker.Outside? && s.lock == 0 then s.(lock := 1, worker := Inside(update, 0)) else s
    case WriteNext =>
      if s.worker.Inside? && s.worker.done < |s.worker.update|
      then s.(words := Put(s.words, s.worker.update[s.worker.done]),
              worker := Inside(s.worker.update, s.worker.done + 1))
      else s
    case Leave =>
      if s.worker.Inside? && s.worker.done >= |s.worker.update|
      then s.(lock := 0, worker := Outside,
              published := s.published + [Publication(s.owner, s.words)], updates := s.updates + [s.worker.update])
      else s
    case Die =>
      if s.worker.Outside? || s.worker.Inside? then s.(worker := Dead(s.worker.Inside?)) else s
    case TryLock =>
      if s.master.Watching? && !s.worker.Gone? && s.lock == 0 then s.(lock := 1, master := Copying([])) else s
    case CopyNext =>
      if s.master.Copying? && |s.master.copied| < |s.words|
      then s.(master := Copying(s.master.copied + [s.words[|s.master.copied|]]))
      else s
    case Unlock =>
      if s.master.Copying? && |s.master.copied| >= |s.words|
      then s.(lock := 0, master := Watching,
              snapshots := s.snapshots + [Snapshot(s.owner, s.master.copied, |s.published|)])
      else s
    case Reap =>
      if s.master.Watching? && s.worker.Dead? then s.(worker := Gone) else s
    case Recycle =>
      if s.master.Watching? && s.worker.Gone? then s.(lock := 0, master := Clearing(0)) else s
    case ClearNext =>
      if s.master.Clearing? && s.master.cleared < |s.words|
      then s.(words := s.words[s.master.cleared := 0], master := Clearing(s.master.cleared + 1))
      else s
    case Abandon =>
      if s.master.Clearing? && s.master.cleared >= |s.words| then s.(master := Watching) else s
    case Fork =>
      if s.master.Clearing? && s.master.cleared >= |s.words|
      then s.(master := Watching, worker := Outside, owner := s.owner + 1,
              published := s.published + [Publication(s.owner + 1, s.words)], updates := s.updates + [[]])
      else s
  }

  /** A schedule of steps from a fresh slot with arbitrary contents. */
  function Run(start: State, steps: seq<Step>): State {
    if steps == [] then start else After(Run(start, steps[..|steps| - 1]), steps[|steps| - 1])
  }

  predicate Initial(s: State) {
    s.worker.Gone? && s.master.Watching? && s.published == [] && s.updates == [] && s.snapshots == []
  }

  /** The complete contents that were published last. */
  function Latest(s: State): Words
    requires s.published != []
  {
    s.published[|s.published| - 1].words
  }

  /** A publication is its predecessor with one whole update applied, or the zeros of a new worker. */
  ghost predicate Linked(s: State, i: nat)
    requires i < |s.published| == |s.updates|
  {
    if i == 0 || s.published[i].owner != s.published[i - 1].owner
    then s.published[i].words == Zeros(|s.words|)
    else s.published[i].words == PutAll(s.published[i - 1].words, s.updates[i])
  }

  ghost predicate Chain(s: State) {
    |s.updates| == |s.published| && forall i :: 0 <= i < |s.published| ==> Linked(s, i)
  }

  /** A snapshot is exactly what its worker had published last when the snapshot was taken. */
  ghost predicate Faithful(s: State, shot: Snapshot) {
    && 0 < shot.published <= |s.published|
    && s.published[shot.published - 1] == Publication(shot.owner, shot.words)
  }

  ghost predicate History(s: State) {
    && Chain(s)
    && (forall k :: 0 <= k < |s.snapshots| ==> Faithful(s, s.snapshots[k]))
    && (s.published != [] ==> s.published[|s.published| - 1].owner <= s.owner)
    && (!s.worker.Gone? ==> s.published != [] && s.published[|s.published| - 1].owner == s.owner)
  }

  /** Where lock, worker, master and contents stand relative to the last publication. */
  ghost predicate Control(s: State)
    requires !s.worker.Gone? ==> s.published != []
  {
    && (match s.worker
        case Gone => !s.master.Copying?
        case Outside => s.words == Latest(s) && (s.master.Copying? <==> s.lock != 0)
        case Inside(update, done) =>
          s.lock == 1 && s.master.Watching? && done <= |update| && s.words == PutAll(Latest(s), update[..done])
        case Dead(inside) =>
          if inside then s.lock == 1 && s.master.Watching?
          else s.words == Latest(s) && (s.master.Copying? <==> s.lock != 0))
    && (match s.master
        case Watching => true
        case Copying(copied) => s.lock == 1 && copied <= s.words
        case Clearing(cleared) =>
          s.worker.Gone? && s.lock == 0 && cleared <= |s.words| && s.words[..cleared] == Zeros(cleared))
  }

  ghost predicate Invariant(s: State) {
    History(s) && Control(s)
  }

  lemma {:induction false} PutAllSnoc(words: Words, ws: seq<Write>, k: nat)
    requires k < |ws|
    ensures PutAll(words, ws[..k + 1]) == Put(PutAll(words, ws[..k]), ws[k])
  {
    assert ws[..k + 1][..k] == ws[..k];
  }

  lemma {:induction false} HistoryKept(s: State, s': State)
    requires History(s) && |s'.words| == |s.words| && s'.owner == s.owner
    requires s'.published == s.published && s'.updates == s.updates && s'.snapshots == s.snapshots
    requires s.worker.Gone? ==> s'.worker.Gone?
    ensures History(s')
  {
    forall i | 0 <= i < |s'.published| ensures Linked(s', i) {
      assert Linked(s, i);
    }
    forall k | 0 <= k < |s'.snapshots| ensures Faithful(s', s'.snapshots[k]) {
      assert Faithful(s, s.snapshots[k]);
    }
  }

  lemma {:induction false} HistoryPublished(s: State, p: Publication, u: seq<Write>, s': State)
    requires History(s) && s'.owner == p.owner >= s.owner
    requires s'.published == s.published + [p] && s'.updates == s.updates + [u] && |s'.words| == |s.words|
    requires if s.published == [] || p.owner != s.published[|s.published| - 1].owner
             then p.words == Zeros(|s.words|) else p.words == PutAll(Latest(s), u)
    requires s'.snapshots == s.snapshots
    ensures History(s')
  {
    forall i | 0 <= i < |s'.published| ensures Linked(s', i) {
      if i < |s.published| {
        assert Linked(s, i);
      }
    }
    forall k | 0 <= k < |s'.snapshots| ensures Faithful(s', s'.snapshots[k]) {
      assert Faithful(s, s.snapshots[k]);
    }
  }

  lemma {:induction false} HistoryShot(s: State, s': State)
    requires History(s) && s.published != [] && s.published[|s.published| - 1].owner == s.owner
    requires s'.snapshots == s.snapshots + [Snapshot(s.owner, Latest(s), |s.published|)]
    requires s'.published == s.published && s'.updates == s.updates && s'.owner == s.owner && |s'.words| == |s.words|
    ensures History(s')
  {
    forall i | 0 <= i < |s'.published| ensures Linked(s', i) {
      assert Linked(s, i);
    }
    forall k | 0 <= k < |s'.snapshots| ensures Faithful(s', s'.snapshots[k]) {
      if k < |s.snapshots| {
        assert Faithful(s, s.snapshots[k]);
      }
    }
  }

  lemma {:induction false} StepKeepsHistory(s: State, step: Step)
    requires Invariant(s)
    ensures History(After(s, step))
  {
    var s' := After(s, step);
    if s' == s {
    } else if step.Leave? {
      assert s.worker.update[..s.worker.done] == s.worker.update;
      HistoryPublished(s, Publication(s.owner, s.words), s.worker.update, s');
    } else if step.Fork? {
      assert s.words[..s.master.cleared] == s.words;
      HistoryPublished(s, Publication(s.owner + 1, s.words), [], s');
    } else if step.Unlock? {
      assert s.master.copied == s.words == Latest(s);
      HistoryShot(s, s');
    } else {
      HistoryKept(s, s');
    }
  }

  lemma {:induction false} WorkerStepKeepsControl(s: State, step: Step)
    requires Invariant(s) && History(After(s, step)) && (step.Enter? || step.WriteNext? || step.Leave? || step.Die?)
    ensures Control(After(s, step))
  {
    var s' := After(s, step);
    if s' == s {
    } else if step.Enter? {
      assert step.update[..0] == [];
    } else if step.WriteNext? {
      PutAllSnoc(Latest(s), s.worker.update, s.worker.done);
    }
  }

  lemma {:induction false} MasterStepKeepsControl(s: State, step: Step)
    requires Invariant(s) && History(After(s, step)) && !(step.Enter? || step.WriteNext? || step.Leave? || step.Die?)
    ensures Control(After(s, step))
  {
    var s' := After(s, step);
    if s' == s {
    } else if step.ClearNext? {
      assert s'.words[..s.master.cleared + 1] == s.words[..s.master.cleared] + [0];
    }
  }

  lemma {:induction false} StepKeepsInvariant(s: State, step: Step)
    requires Invariant(s)
    ensures Invariant(After(s, step))
  {
    StepKeepsHistory(s, step);
    if step.Enter? || step.WriteNext? || step.Leave? || step.Die? {
      WorkerStepKeepsControl(s, step);
    } else {
      MasterStepKeepsControl(s, step);
    }
  }

  lemma {:induction false} RunKeepsInvariant(start: State, steps: seq<Step>)
    requires Initial(start)
    ensures Invariant(Run(start, steps))
    decreases |steps|
  {
    if steps != [] {
      RunKeepsInvariant(start, steps[..|steps| - 1]);
      StepKeepsInvariant(Run(start, steps[..|steps| - 1]), steps[|steps| - 1]);
    }
  }

  /** Never are worker and master both inside, and a worker that died inside keeps the master out. */
  lemma {:induction false} MutualExclusion(start: State, steps: seq<Step>)
    requires Initial(start)
    ensures var s := Run(start, steps);
      !((s.worker.Inside? || (s.worker.Dead? && s.worker.inside)) && (s.master.Copying? || s.master.Clearing?))
  {
    RunKeepsInvariant(start, steps);
  }

  /** Every snapshot is one complete publication of the worker it was taken of: never torn, never of another worker. */
  lemma {:induction false} SnapshotsAreComplete(start: State, steps: seq<Step>, k: nat)
    requires Initial(start) && k < |Run(start, steps).snapshots|
    ensures var s := Run(start, steps);
      Chain(s) && Faithful(s, s.snapshots[k])
  {
    RunKeepsInvariant(start, steps);
  }

  /** Whatever the last worker left behind, a new worker finds its slot unlocked and zeroed. */
  lemma {:induction false} ForkFindsCleanSlot(start: State, steps: seq<Step>)
    requires Initial(start)
    ensures var s := Run(start, steps); var s' := After(s, Fork);
      s' != s ==> s'.worker.Outside? && s'.owner == s.owner + 1 && s'.lock == 0 && s'.words == Zeros(|s.words|)
  {
    RunKeepsInvariant(start, steps);
    var s := Run(start, steps);
    if s.master.Clearing? && s.master.cleared >= |s.words| {
      assert s.words[..s.master.cleared] == s.words;
    }
  }

  /** A live worker's attempt fails only while the master copies. */
  lemma {:induction false} WorkerWaitsOnlyForCopy(start: State, steps: seq<Step>, update: seq<Write>)
    requires Initial(start)
    ensures var s := Run(start, steps);
      s.worker.Outside? && After(s, Enter(update)) == s ==> s.master.Copying?
  {
    RunKeepsInvariant(start, steps);
  }

  // ---- What attempts and critical sections come to ------------------------------------------

  /** The attempt of the master succeeds exactly when no worker, alive or dead, is inside. */
  lemma {:induction false} TryLockSucceeds(start: State, steps: seq<Step>)
    requires Initial(start)
    ensures var s := Run(start, steps);
      s.master.Watching? && !s.worker.Gone? ==>
        (After(s, TryLock).master.Copying? <==> !s.worker.Inside? && s.worker != Dead(true))
  {
    RunKeepsInvariant(start, steps);
  }

  lemma {:induction false} RunSnoc(s: State, steps: seq<Step>, step: Step)
    ensures Run(s, steps + [step]) == After(Run(s, steps), step)
  {
    assert (steps + [step])[..|steps|] == steps;
  }

  function Times(n: nat, step: Step): seq<Step> {
    if n == 0 then [] else Times(n - 1, step) + [step]
  }

  /** An uninterrupted update of a worker publishes all of its writes in order, and leaves the slot unlocked. */
  lemma {:induction false} UpdateIsPublished(start: State, steps: seq<Step>, update: seq<Write>)
    requires Initial(start)
    ensures var s := Run(start, steps);
      var s' := Run(s, [Enter(update)] + Times(|update|, WriteNext) + [Leave]);
      s.worker.Outside? && !s.master.Copying? ==>
        && s'.published == s.published + [Publication(s.owner, PutAll(s.words, update))]
        && s'.worker.Outside? && s'.lock == 0
  {
    RunKeepsInvariant(start, steps);
    var s := Run(start, steps);
    if s.worker.Outside? && !s.master.Copying? {
      Writes(s, update, |update|);
      assert update[..|update|] == update;
      RunSnoc(s, [Enter(update)] + Times(|update|, WriteNext), Leave);
    }
  }

  lemma {:induction false} Writes(s: State, update: seq<Write>, n: nat)
    requires s.worker.Outside? && s.lock == 0 && n <= |update|
    ensures Run(s, [Enter(update)] + Times(n, WriteNext))
      == s.(lock := 1, worker := Inside(update, n), words := PutAll(s.words, update[..n]))
  {
    if n == 0 {
      RunSnoc(s, [], Enter(update));
      assert [] + [Enter(update)] == [Enter(update)] == [Enter(update)] + Times(0, WriteNext) && update[..0] == [];
    } else {
      Writes(s, update, n - 1);
      RunSnoc(s, [Enter(update)] + Times(n - 1, WriteNext), WriteNext);
      Assoc([Enter(update)], Times(n - 1, WriteNext), [WriteNext]);
      PutAllSnoc(s.words, update, n - 1);
    }
  }

  /** An uninterrupted check of the master copies the words as they are, and leaves the slot unlocked. */
  lemma {:induction false} CopyIsTaken(start: State, steps: seq<Step>)
    requires Initial(start)
    ensures var s := Run(start, steps);
      var s' := Run(s, [TryLock] + Times(|s.words|, CopyNext) + [Unlock]);
      s.master.Watching? && (s.worker.Outside? || s.worker == Dead(false)) ==>
        s' == s.(snapshots := s.snapshots + [Snapshot(s.owner, s.words, |s.published|)])
  {
    RunKeepsInvariant(start, steps);
    var s := Run(start, steps);
    if s.master.Watching? && (s.worker.Outside? || s.worker == Dead(false)) {
      Copies(s, |s.words|);
      assert s.words[..|s.words|] == s.words;
      RunSnoc(s, [TryLock] + Times(|s.words|, CopyNext), Unlock);
    }
  }

  lemma {:induction false} Copies(s: State, n: nat)
    requires s.master.Watching? && !s.worker.Gone? && s.lock == 0 && n <= |s.words|
    ensures Run(s, [TryLock] + Times(n, CopyNext)) == s.(lock := 1, master := Copying(s.words[..n]))
  {
    if n == 0 {
      RunSnoc(s, [], TryLock);
      assert [] + [TryLock] == [TryLock] == [TryLock] + Times(0, CopyNext) && s.words[..0] == [];
    } else {
      Copies(s, n - 1);
      RunSnoc(s, [TryLock] + Times(n - 1, CopyNext), CopyNext);
      Assoc([TryLock], Times(n - 1, CopyNext), [CopyNext]);
      TakeSnoc(s.words, n - 1);
    }
  }

  /**
   * Whatever the last worker left, the slot of one that was reaped is cleared and given to the next one, or is free
   * again when no worker could be forked.
   */
  lemma {:induction false} SlotIsRecycled(start: State, steps: seq<Step>)
    requires Initial(start)
    ensures var s := Run(start, steps);
      var s' := Run(s, [Recycle] + Times(|s.words|, ClearNext) + [Fork]);
      s.master.Watching? && s.worker.Gone? ==>
        s'.worker.Outside? && s'.owner == s.owner + 1 && s'.lock == 0 && s'.words == Zeros(|s.words|)
    ensures var s := Run(start, steps);
      s.master.Watching? && s.worker.Gone? ==>
        Run(s, [Recycle] + Times(|s.words|, ClearNext) + [Abandon]) == s.(lock := 0, words := Zeros(|s.words|))
  {
    var s := Run(start, steps);
    if s.master.Watching? && s.worker.Gone? {
      Clears(s, |s.words|);
      RunSnoc(s, [Recycle] + Times(|s.words|, ClearNext), Fork);
      RunSnoc(s, [Recycle] + Times(|s.words|, ClearNext), Abandon);
      assert Zeros(|s.words|) + s.words[|s.words|..] == Zeros(|s.words|);
    }
  }

  lemma {:induction false} Clears(s: State, n: nat)
    requires s.master.Watching? && s.worker.Gone? && n <= |s.words|
    ensures Run(s, [Recycle] + Times(n, ClearNext))
      == s.(lock := 0, master := Clearing(n), words := Zeros(n) + s.words[n..])
  {
    if n == 0 {
      RunSnoc(s, [], Recycle);
      assert [] + [Recycle] == [Recycle] == [Recycle] + Times(0, ClearNext) && Zeros(0) + s.words[0..] == s.words;
    } else {
      Clears(s, n - 1);
      RunSnoc(s, [Recycle] + Times(n - 1, ClearNext), ClearNext);
      Assoc([Recycle], Times(n - 1, ClearNext), [ClearNext]);
      ZeroNext(s.words, n);
    }
  }

  lemma {:induction false} ZeroNext(words: Words, n: nat)
    requires 0 < n <= |words|
    ensures (Zeros(n - 1) + words[n - 1..])[n - 1 := 0] == Zeros(n) + words[n..]
  {
  }

  /** A dead worker can be reaped wherever it died, and then its slot is free. */
  lemma {:induction false} DeadIsReaped(start: State, steps: seq<Step>)
    requires Initial(start)
    ensures var s := Run(start, steps);
      s.master.Watching? && (s.worker.Outside? || s.worker.Inside?) ==> After(After(s, Die), Reap).worker.Gone?
  {
  }
}

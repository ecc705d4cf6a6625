/** The master process as a whole: fpm/fpm_process_ctl.c and fpm/fpm_children.c together. */
module Master {
  import opened Basics
  import opened ProcessCtl
  import opened Children
  import FaultRing

  /** FPM_PCTL_ACTION_SET, _TIMEOUT and _LAST_CHILD_EXITED. */
  datatype Action = SetState | Timeout | LastChildExited

  /** What waitpid(2) reports of a child. */
  datatype Status = ExitedWith(code: int) | KilledBy(segvOrBus: bool) | Stopped

  /** What comes of preparing a worker and of fork(2). */
  datatype Fork = Failed | InChild | InParent(pid: int)

  datatype Report = Report(pid: int, status: Status, now: int)

  /** What the event loop hands to the master: a signal, the timer, or SIGCHLD with what waitpid(2) reports then. */
  datatype Occurrence = Signal(state: CtlState) | TimerDue | Deaths(reports: seq<Report>)

  /** What happens to the master, one thing after the other. */
  datatype Incident = Ordered(state: CtlState) | Due | Dead(report: Report)

  function Deads(reports: seq<Report>): seq<Incident> {
    seq(|reports|, i requires 0 <= i < |reports| => Dead(reports[i]))
  }

  function Incidents(o: Occurrence): seq<Incident> {
    match o
    case Signal(s) => [Ordered(s)]
    case TimerDue => [Due]
    case Deaths(reports) => Deads(reports)
  }

  function AllIncidents(os: seq<Occurrence>): seq<Incident> {
    if os == [] then [] else AllIncidents(os[..|os| - 1]) + Incidents(os[|os| - 1])
  }

  /** The master between two incidents: the state machine, the workers by their pids, forks and fault times so far. */
  datatype Moment = Moment(control: Ctl, running: nat, there: multiset<int>, asked: nat, faults: seq<int>)

  /** The state does not go down, and outside NORMAL the workers do not become more. */
  predicate Declines(m: Moment, m': Moment) {
    && Rank(m.control.state) <= Rank(m'.control.state)
    && (m.control.state != Normal ==> m'.running <= m.running)
  }

  predicate Declining(moments: seq<Moment>) {
    forall i, j :: 0 <= i < j < |moments| ==> Declines(moments[i], moments[j])
  }

  lemma {:induction false} DecliningSnoc(moments: seq<Moment>, m: Moment)
    requires Declining(moments) && moments != [] && Declines(moments[|moments| - 1], m)
    ensures Declining(moments + [m])
  {
    var last := moments[|moments| - 1];
    forall i | 0 <= i < |moments| ensures Declines(moments[i], m) {
      assert i < |moments| - 1 ==> Declines(moments[i], last);
    }
  }

  lemma {:induction false} Cancel(a: multiset<int>, b: multiset<int>, c: multiset<int>, x: multiset<int>,
      l: multiset<int>, p: int)
    requires a + l == b + (c + x) && x + multiset{p} == l
    ensures a + multiset{p} == b + c
  {
    forall q ensures (a + multiset{p})[q] == (b + c)[q] {
      assert (a + l)[q] == (b + (c + x))[q] && (x + multiset{p})[q] == l[q];
    }
  }

  lemma {:induction false} CancelAll(a: multiset<int>, b: multiset<int>, c: multiset<int>, l: multiset<int>)
    requires a + l == b + (c + l)
    ensures a == b + c
  {
    forall q ensures a[q] == (b + c)[q] {
      assert (a + l)[q] == (b + (c + l))[q];
    }
  }

  /** Who is there and who left are those who were there and those who came. */
  ghost predicate Accounted(there: multiset<int>, gone: seq<int>, before: multiset<int>, came: multiset<int>) {
    there + multiset(gone) == before + came
  }

  /** Two accounts, one after the other. */
  lemma {:induction false} AccountedOn(mid: multiset<int>, gone: seq<int>, before: multiset<int>, came: multiset<int>,
      there: multiset<int>, gone': seq<int>, came': multiset<int>)
    requires Accounted(mid, gone, before, came) && Accounted(there, gone', mid, came')
    ensures Accounted(there, gone + gone', before, came + came')
  {
    assert multiset(gone + gone') == multiset(gone) + multiset(gone');
    forall q ensures (there + multiset(gone + gone'))[q] == (before + (came + came'))[q] {
      assert (mid + multiset(gone))[q] == (before + came)[q];
      assert (there + multiset(gone'))[q] == (mid + came')[q];
    }
  }

  /** Every pool but the one at `but` has as many workers as it may have. */
  predicate FullBut(pools: seq<Pool>, lists: seq<seq<Child>>, but: int) {
    && |lists| == |pools|
    && forall j :: 0 <= j < |pools| && j != but ==> |lists[j]| == pools[j].maxChildren
  }

  predicate FullUpTo(pools: seq<Pool>, lists: seq<seq<Child>>, n: nat) {
    |lists| == |pools| && forall j :: 0 <= j < |pools| && j < n ==> |lists[j]| == pools[j].maxChildren
  }

  lemma {:induction false} FullNext(pools: seq<Pool>, was: seq<seq<Child>>, now: seq<seq<Child>>, i: nat)
    requires FullUpTo(pools, was, i) && i < |now| == |was| && forall j :: 0 <= j < |was| && j != i ==> now[j] == was[j]
    requires |now[i]| == pools[i].maxChildren
    ensures FullUpTo(pools, now, i + 1)
  {
  }

  lemma {:induction false} FullElsewhere(pools: seq<Pool>, was: seq<seq<Child>>, now: seq<seq<Child>>, i: nat)
    requires FullBut(pools, was, i) && |now| == |was| && forall j :: 0 <= j < |was| && j != i ==> now[j] == was[j]
    ensures FullBut(pools, now, i)
    ensures i < |pools| && |now[i]| == pools[i].maxChildren ==> FullBut(pools, now, -1)
  {
  }

  class Master {
    const all: Pools
    const ring: FaultRing.Ring?          // last_faults; null without an emergency restart
    var state: CtlState
    var signalSent: Signal
    var armed: bool                      // pctl_event is pending
    var ending: Ending                   // execvp(2) and exit(3) do not return
    var isChild: bool                    // after fork(2), in the new worker
    const forks: nat -> Fork             // what comes of the n-th fork
    var asked: nat                       // forks so far
    ghost var rounds: seq<Round>
    ghost var moments: seq<Moment>       // since the start
    ghost var incidents: seq<Incident>   // between them

    constructor (all: Pools, ring: FaultRing.Ring?, forks: nat -> Fork)
      requires all.Valid() && (ring != null ==> ring.Valid())
      ensures Valid() && this.all == all && this.ring == ring && this.forks == forks
      ensures Control() == CTL0 && asked == 0
    {
      this.all, this.ring, this.forks := all, ring, forks;
      state, signalSent, armed, ending, isChild := Normal, NoSignal, false, Alive, false;
      asked, rounds, moments, incidents := 0, [], [], [];
    }

    /** Some worker could not be prepared or forked. */
    ghost predicate SpawnFailed()
      reads this`asked
    {
      exists n :: 0 <= n < asked && forks(n).Failed?
    }

    /** Some fork came back in the new worker. */
    ghost predicate Forked()
      reads this`asked
    {
      ForkedBy(asked)
    }

    ghost predicate ForkedBy(upto: nat) {
      exists n :: 0 <= n < upto && forks(n).InChild?
    }

    /** The pids that forks gave to the master. */
    ghost function NewPids(from: nat, end: nat): multiset<int>
      decreases end
    {
      if end <= from then multiset{}
      else
        NewPids(from, end - 1) + (if forks(end - 1).InParent? then multiset{forks(end - 1).pid} else multiset{})
    }

    /** These children came of these forks, the last one first. */
    ghost predicate Came(added: seq<Child>, first: nat, upto: nat)
      decreases upto
    {
      if upto <= first then added == []
      else if forks(upto - 1).InParent? then
        added != [] && added[0].pid == forks(upto - 1).pid && Came(added[1..], first, upto - 1)
      else Came(added, first, upto - 1)
    }

    lemma {:induction false} CameNext(added: seq<Child>, more: seq<Child>, first: nat, upto: nat)
      requires first <= upto && Came(added, first, upto)
      requires if forks(upto).InParent? then |more| == 1 && more[0].pid == forks(upto).pid else more == []
      ensures Came(more + added, first, upto + 1)
    {
      assert more != [] ==> (more + added)[1..] == added;
      assert more == [] ==> more + added == added;
    }

    lemma {:induction false} CamePids(added: seq<Child>, first: nat, upto: nat)
      requires Came(added, first, upto)
      ensures Pids(added) == NewPids(first, upto)
      decreases upto
    {
      if first < upto {
        CamePids(if forks(upto - 1).InParent? then added[1..] else added, first, upto - 1);
      }
    }

    lemma {:induction false} NewPidsSplit(from: nat, mid: nat, end: nat)
      requires from <= mid <= end
      ensures NewPids(from, end) == NewPids(from, mid) + NewPids(mid, end)
      decreases end
    {
      if mid < end {
        NewPidsSplit(from, mid, end - 1);
      }
    }

    /** The workers, by their pids. */
    ghost function Population(): multiset<int>
      reads all
    {
      AllPids(all.lists)
    }

    ghost function Control(): Ctl
      reads this`state, this`signalSent, this`armed, this`ending, this`rounds
    {
      Ctl(state, signalSent, armed, ending, rounds)
    }

    ghost function RingParts(): set<object>
    {
      if ring == null then {} else {ring, ring.lastFaults}
    }

    /** The times of all faults, if they are watched. */
    ghost function Faults(): seq<int>
      reads if ring == null then {} else {ring}
    {
      if ring == null then [] else ring.history
    }

    ghost function Now(): Moment
      reads this`state, this`signalSent, this`armed, this`ending, this`rounds, this`asked, all
      reads if ring == null then {} else {ring}
    {
      Moment(Control(), all.running, Population(), asked, Faults())
    }

    ghost predicate Valid()
      reads this`state, this`signalSent, this`armed, this`ending, this`rounds, this`isChild, this`asked
      reads all, all.pools, all.everyone, RingParts()
    {
      && all.Valid() && Invariant(Control()) && (ring != null ==> ring.Valid())
      && (isChild <==> Forked())
    }

    /** fpm_pctl_action_last. */
    method ActionLast()
      modifies this`ending
      ensures Control() == ProcessCtl.ActionLast(old(Control()))
    {
      match state {
        case Normal =>
        case Reloading => ending := Execed;
        case Finishing => ending := Exited;
        case Terminating => ending := Exited;
      }
    }

    /** fpm_pctl_action_next; `targets` are the children that were signalled. */
    method ActionNext() returns (targets: seq<Child>)
      requires all.Valid() && ending == Alive
      modifies this`ending, this`signalSent, this`armed, this`rounds
      ensures Control() == ProcessCtl.ActionNext(old(Control()), all.running)
      ensures ending == Alive ==> targets == Flatten(all.lists)
    {
      targets := [];
      if all.running == 0 {
        ActionLast();
        if ending != Alive {
          return;
        }
      }
      var sig, wait;
      if signalSent == NoSignal {
        if state == Terminating {
          sig := Term;
        } else {
          sig := Quit;
        }
        wait := ControlTimeout;
      } else {
        if signalSent == Quit {
          sig := Term;
        } else {
          sig := Kill;
        }
        wait := OneSecond;
      }
      targets := all.KillAll();
      rounds := rounds + [Round(state, sig, wait)];
      signalSent := sig;
      armed := true;
    }

    /** fpm_pctl. */
    method Pctl(newState: CtlState, action: Action)
      requires all.Valid() && ending == Alive
      modifies this`state, this`ending, this`signalSent, this`armed, this`rounds
      ensures action.SetState? ==> Control() == Next(old(Control()), Set(newState), all.running)
      ensures action.Timeout? ==> Control() == ProcessCtl.ActionNext(old(Control()), all.running)
      ensures action.LastChildExited? ==> Control() == ProcessCtl.ActionLast(old(Control()))
    {
      match action {
        case LastChildExited =>
          ActionLast();
          return;
        case Timeout =>
        case SetState =>
          if state == newState {
            return;
          }
          if !(state == Normal || (state == Reloading && newState == Finishing) ||
               (state != Terminating && newState == Terminating)) {
            return;
          }
          signalSent := NoSignal;
          state := newState;
      }
      var targets := ActionNext();
    }

    /** Another state is asked for. */
    method Asked(newState: CtlState)
      requires Valid() && ending == Alive
      modifies this`state, this`ending, this`signalSent, this`armed, this`rounds
      ensures Valid() && Control() == Next(old(Control()), Set(newState), all.running)
    {
      NextKeeps(Control(), Set(newState), all.running);
      Pctl(newState, SetState);
    }

    /** fpm_pctl_action: the timer has fired. */
    method TimerFired()
      requires all.Valid() && ending == Alive && armed
      modifies this`state, this`ending, this`signalSent, this`armed, this`rounds
      ensures Control() == Next(old(Control()), Timer, all.running)
    {
      armed := false;
      Pctl(Normal, Timeout);
    }

    /** fpm_pctl_child_exited. */
    method ChildIsGone()
      requires all.Valid() && ending == Alive
      modifies this`state, this`ending, this`signalSent, this`armed, this`rounds
      ensures Control() == Next(old(Control()), ChildExited, all.running)
    {
      if state == Normal {
        return;
      }
      if all.running == 0 {
        Pctl(Normal, LastChildExited);
      }
    }

    /** Every pool has as many workers as it may have. */
    ghost predicate Full()
      reads all
    {
      && |all.lists| == |all.pools|
      && forall j :: 0 <= j < |all.pools| ==> |all.lists[j]| == all.pools[j].maxChildren
    }

    /** What holds whenever a handler returns to the event loop of a master that still runs this program. */
    ghost predicate Supervised()
      reads this`state, this`signalSent, this`armed, this`ending, this`rounds, this`isChild, this`asked
      reads all, all.pools, all.everyone, RingParts()
    {
      && Valid()
      && (ending == Alive && !isChild ==>
        && (state == Normal && !SpawnFailed() ==> Full())
        && Leaving(Control(), all.running))
    }

    /** One turn of fpm_children_make: resources, fork(2), and in the master the new child's place in its list. */
    method Spawn(wp: Pool, ghost i: nat) returns (fork: Fork, ghost added: seq<Child>)
      requires all.Valid() && i < |all.pools| && all.pools[i] == wp && wp.running < wp.maxChildren && !isChild
      modifies this`isChild, this`asked, all, wp, wp.list`prev
      ensures all.Valid() && fork == forks(old(asked)) && asked == old(asked) + 1 && isChild == fork.InChild?
      ensures if fork.InParent? then |added| == 1 && added[0].pid == fork.pid else added == []
      ensures wp.running == old(wp.running) + |added| == |all.lists[i]|
      ensures all.lists == old(all.lists)[i := added + old(all.lists)[i]]
      ensures old(all.everyone) <= all.everyone
      ensures forall c :: c in all.everyone ==> c in old(all.everyone) || fresh(c)
    {
      fork, added := forks(asked), [];      // fpm_resources_prepare, fork(2)
      asked := asked + 1;
      assert [] + all.lists[i] == all.lists[i];
      all.PoolOf(i);
      if fork.InChild? {
        isChild := true;
      } else if fork.InParent? {
        var child := new Child(wp, fork.pid);
        all.Link(child, i);
        all.PoolOf(i);
        added := [child];
      }
    }

    /** These forks all made a worker of the master's. */
    ghost predicate Parents(first: nat, upto: nat) {
      forall n :: first <= n < upto ==> forks(n).InParent?
    }

    lemma {:induction false} ParentsNext(first: nat, upto: nat)
      requires Parents(first, upto) && forks(upto).InParent?
      ensures Parents(first, upto + 1)
    {
    }

    /** One turn, after the forks from `first` on brought the children `made` in front of `base`. */
    method MakeOne(wp: Pool, ghost i: nat, ghost first: nat, ghost made: seq<Child>, ghost base: seq<Child>)
      returns (failed: bool, ghost added: seq<Child>)
      requires all.Valid() && i < |all.pools| && all.pools[i] == wp && wp.running < wp.maxChildren && !isChild
      requires first <= asked && Parents(first, asked) && Came(made, first, asked) && all.lists[i] == made + base
      modifies this`isChild, this`asked, all, wp, wp.list`prev
      ensures all.Valid() && asked == old(asked) + 1 && failed == forks(old(asked)).Failed?
      ensures isChild == forks(old(asked)).InChild? && (!failed && !isChild ==> Parents(first, asked))
      ensures all.lists == old(all.lists)[i := added + base] && Came(added, first, asked)
      ensures wp.running == |all.lists[i]| <= wp.maxChildren
      ensures wp.running == old(wp.running) + (if failed || isChild then 0 else 1)
      ensures forall c :: c in all.everyone ==> c in old(all.everyone) || fresh(c)
      ensures old(all.everyone) <= all.everyone
    {
      var fork, more := Spawn(wp, i);
      Assoc(more, made, base);
      CameNext(made, more, first, asked - 1);
      added := more + made;
      if fork.InParent? {
        ParentsNext(first, asked - 1);
      }
      failed := fork.Failed?;
    }

    /**
     * fpm_children_make: workers are forked until the pool is full; the first failure ends it, and so does a fork in
     * the child. Unless the last fork was one of these, all of them made a worker, and in NORMAL the pool is full.
     */
    method Make(wp: Pool, ghost i: nat) returns (failed: bool, ghost added: seq<Child>)
      requires all.Valid() && i < |all.pools| && all.pools[i] == wp && !isChild
      modifies this`isChild, this`asked, all, wp, all.everyone`prev
      ensures all.Valid() && asked >= old(asked)
      ensures forall c :: c in all.everyone ==> c in old(all.everyone) || fresh(c)
      ensures failed ==> asked > old(asked) && forks(asked - 1).Failed? && !isChild
      ensures isChild ==> asked > old(asked) && forks(asked - 1).InChild?
      ensures Parents(old(asked), if failed || isChild then asked - 1 else asked)
      ensures (SpawnFailed() <==> old(SpawnFailed()) || failed) && (Forked() <==> old(Forked()) || isChild)
      ensures state == Normal && !failed && !isChild ==> |all.lists[i]| == wp.maxChildren
      ensures all.lists == old(all.lists)[i := added + old(all.lists)[i]] && Came(added, old(asked), asked)
      ensures state != Normal ==> asked == old(asked) && added == [] && all.running == old(all.running)
    {
      failed, added := false, [];
      ghost var base := all.lists[i];
      assert [] + base == base;
      all.PoolOf(i);
      while !failed && state == Normal && wp.running < wp.maxChildren
        invariant all.Valid() && !isChild && asked >= old(asked)
        invariant failed ==> asked > old(asked) && forks(asked - 1).Failed?
        invariant Parents(old(asked), if failed then asked - 1 else asked)
        invariant all.lists == old(all.lists)[i := added + base] && Came(added, old(asked), asked)
        invariant state != Normal ==> asked == old(asked) && added == [] && all.running == old(all.running)
        invariant wp.running == |all.lists[i]| <= wp.maxChildren
        invariant forall c :: c in all.everyone ==> c in old(all.everyone) || fresh(c)
        decreases wp.maxChildren - wp.running, !failed
      {
        failed, added := MakeOne(wp, i, old(asked), added, base);
        if isChild {
          LastFork(old(asked));
          return;
        }
      }
      LastFork(old(asked));
    }

    /** Only the last of some forks can be one that failed or came back in the child. */
    lemma {:induction false} LastFork(first: nat)
      requires first <= asked
      ensures Parents(first, asked) ==>
        && (SpawnFailed() <==> exists n :: 0 <= n < first && forks(n).Failed?)
        && (Forked() <==> exists n :: 0 <= n < first && forks(n).InChild?)
      ensures first < asked && Parents(first, asked - 1) ==>
        && (SpawnFailed() <==> (exists n :: 0 <= n < first && forks(n).Failed?) || forks(asked - 1).Failed?)
        && (Forked() <==> (exists n :: 0 <= n < first && forks(n).InChild?) || forks(asked - 1).InChild?)
    {
    }

    /** A signal to the master asks for another state. */
    method Signalled(newState: CtlState)
      requires Supervised() && ending == Alive && !isChild
      modifies this`state, this`ending, this`signalSent, this`armed, this`rounds
      ensures Supervised() && Control() == Next(old(Control()), Set(newState), all.running)
    {
      StaysLeaving(Control(), Set(newState), all.running);
      Asked(newState);
    }

    /** The escalation timer. */
    method Escalated()
      requires Supervised() && ending == Alive && !isChild && armed
      modifies this`state, this`ending, this`signalSent, this`armed, this`rounds
      ensures Supervised() && Control() == Next(old(Control()), Timer, all.running)
    {
      NextKeeps(Control(), Timer, all.running);
      StaysLeaving(Control(), Timer, all.running);
      TimerFired();
    }

    /** Too many faults within the interval: each of the last ones is, and there were enough of them. */
    ghost predicate TooMany(faults: seq<int>, now: int)
      requires ring != null
    {
      && FaultRing.AllRecent(faults, ring.threshold, now, ring.interval)
      && (|faults| >= ring.threshold || now <= ring.interval)
    }

    /** What becomes of state machine and fault times when a child is gone and `running` are left. */
    ghost function Reacted(c: Ctl, running: nat, faults: seq<int>, segvOrBus: bool, now: int): (Ctl, seq<int>) {
      var gone := Next(c, ChildExited, running);
      if ring == null || !segvOrBus || gone.ending != Alive then (gone, faults)
      else if TooMany(faults + [now], now) then (Next(gone, Set(Reloading), running), faults + [now])
      else (gone, faults + [now])
    }

    /** A worker died of SIGSEGV or SIGBUS: a reload is asked for when too many did within the interval. */
    method Faulted(now: int)
      requires Valid() && ending == Alive && ring != null
      modifies this`state, this`ending, this`signalSent, this`armed, this`rounds, RingParts()
      ensures Valid() && ring.history == old(ring.history) + [now]
      ensures Control() ==
        if TooMany(ring.history, now) then Next(old(Control()), Set(Reloading), all.running) else old(Control())
    {
      var restart := ring.Record(now);
      if restart {
        Asked(Reloading);
      }
    }

    /** What the state machine makes of a child that is gone. */
    method React(segvOrBus: bool, now: int)
      requires Valid() && ending == Alive
      modifies this`state, this`ending, this`signalSent, this`armed, this`rounds, RingParts()
      ensures Valid() && Leaving(Control(), all.running)
      ensures all.lists == old(all.lists) && all.running == old(all.running) && asked == old(asked)
      ensures (Control(), Faults()) == Reacted(old(Control()), all.running, old(Faults()), segvOrBus, now)
    {
      NextKeeps(Control(), ChildExited, all.running);
      StaysLeaving(Control(), ChildExited, all.running);
      ChildIsGone();
      if ending == Alive && ring != null && segvOrBus {
        StaysLeaving(Control(), Set(Reloading), all.running);
        Faulted(now);
      }
    }

    /** The end of fpm_children_bury: a successor is made, unless the master is leaving. */
    method Replace(wp: Pool, ghost i: nat) returns (ghost added: seq<Child>)
      requires Valid() && i < |all.pools| && all.pools[i] == wp && ending == Alive && !isChild
      requires state == Normal && !SpawnFailed() ==> FullBut(all.pools, all.lists, i)
      requires Leaving(Control(), all.running)
      modifies this`isChild, this`asked, all, wp, all.everyone`prev
      ensures Supervised() && asked >= old(asked)
      ensures forall c :: c in all.everyone ==> c in old(all.everyone) || fresh(c)
      ensures state != Normal ==> all.running == old(all.running) && asked == old(asked)
      ensures all.lists == old(all.lists)[i := added + old(all.lists)[i]] && Came(added, old(asked), asked)
    {
      ghost var was := all.lists;
      var failed;
      failed, added := Make(wp, i);
      if state == Normal && !SpawnFailed() && !isChild {
        FullElsewhere(all.pools, was, all.lists, i);
      }
    }

    /** A child that is gone leaves its list, and the state machine is told. */
    method Leave(child: Child, ghost i: nat, ghost k: nat, segvOrBus: bool, now: int)
      requires Supervised() && ending == Alive && !isChild
      requires i < |all.pools| && k < |all.lists[i]| && all.lists[i][k] == child
      modifies this`state, this`ending, this`signalSent, this`armed, this`rounds, RingParts()
      modifies all`running, all`lists, all.pools[i], all.pools[i].list`prev, all.pools[i].list`next
      ensures Valid() && all.running == old(all.running) - 1
      ensures all.lists == old(all.lists)[i := Except(old(all.lists)[i], k)] && asked == old(asked)
      ensures ending == Alive && state == Normal && !SpawnFailed() ==> FullBut(all.pools, all.lists, i)
      ensures Leaving(Control(), all.running)
      ensures (Control(), Faults()) == Reacted(old(Control()), all.running, old(Faults()), segvOrBus, now)
    {
      ghost var c, faults := Control(), Faults();
      ghost var lists := all.lists[i := Except(all.lists[i], k)];
      if state == Normal && !SpawnFailed() {
        FullElsewhere(all.pools, all.lists, lists, i);
      }
      assert state == Normal && !SpawnFailed() ==> FullBut(all.pools, lists, i);
      all.Unlink(child, i, k);
      ReactedClimbs(c, all.running, faults, segvOrBus, now);
      React(segvOrBus, now);
    }

    lemma {:induction false} ReactedClimbs(c: Ctl, running: nat, faults: seq<int>, segvOrBus: bool, now: int)
      ensures Rank(c.state) <= Rank(Reacted(c, running, faults, segvOrBus, now).0.state)
    {
      NextClimbs(c, ChildExited, running);
      NextClimbs(Next(c, ChildExited, running), Set(Reloading), running);
    }

    /**
     * The part of fpm_children_bury for a child that is gone: it leaves its list, and a successor is made unless the
     * master is leaving.
     */
    method Bury(child: Child, ghost i: nat, ghost k: nat, segvOrBus: bool, now: int)
      returns (ghost added: seq<Child>)
      requires Supervised() && ending == Alive && !isChild
      requires i < |all.pools| && k < |all.lists[i]| && all.lists[i][k] == child
      modifies this`state, this`ending, this`signalSent, this`armed, this`rounds, this`isChild, this`asked
      modifies all, all.pools[i], all.everyone`prev, all.everyone`next, RingParts()
      ensures Supervised() && asked >= old(asked)
      ensures forall c :: c in all.everyone ==> c in old(all.everyone) || fresh(c)
      ensures old(all.running) > 0
      ensures state != Normal || ending != Alive ==> all.running == old(all.running) - 1 && asked == old(asked)
      ensures all.lists == old(all.lists)[i := added + Except(old(all.lists)[i], k)]
      ensures Came(added, old(asked), asked)
      ensures (Control(), Faults()) == Reacted(old(Control()), old(all.running) - 1, old(Faults()), segvOrBus, now)
    {
      all.PoolOf(i);
      var wp := child.pool;
      Leave(child, i, k, segvOrBus, now);
      added := [];
      if ending != Alive {
        assert [] + all.lists[i] == all.lists[i];
        return;
      }
      added := Replace(wp, i);
    }

    /** Who left and who came, in numbers. */
    lemma {:induction false} Turnover(lists: seq<seq<Child>>, i: nat, k: nat, added: seq<Child>,
        lists': seq<seq<Child>>, first: nat, upto: nat)
      requires i < |lists| && k < |lists[i]| && lists' == lists[i := added + Except(lists[i], k)]
      requires Came(added, first, upto)
      ensures Accounted(AllPids(lists'), [lists[i][k].pid], AllPids(lists), NewPids(first, upto))
    {
      AllPidsUpdate(lists, i, added + Except(lists[i], k));
      PidsAppend(added, Except(lists[i], k));
      PidsExcept(lists[i], k);
      CamePids(added, first, upto);
      Cancel(AllPids(lists'), AllPids(lists), Pids(added), Pids(Except(lists[i], k)), Pids(lists[i]), lists[i][k].pid);
    }

    lemma {:induction false} Arrivals(lists: seq<seq<Child>>, i: nat, added: seq<Child>, lists': seq<seq<Child>>,
        first: nat, upto: nat)
      requires i < |lists| && lists' == lists[i := added + lists[i]] && Came(added, first, upto)
      ensures Accounted(AllPids(lists'), [], AllPids(lists), NewPids(first, upto))
    {
      AllPidsUpdate(lists, i, added + lists[i]);
      PidsAppend(added, lists[i]);
      CamePids(added, first, upto);
      CancelAll(AllPids(lists'), AllPids(lists), Pids(added), Pids(lists[i]));
    }

    /** One more account, over the forks in between. */
    lemma {:induction false} AccountNext(mid: multiset<int>, gone: seq<int>, before: multiset<int>, first: nat,
        asked': nat, there: multiset<int>, gone': seq<int>, upto: nat)
      requires first <= asked' <= upto && Accounted(mid, gone, before, NewPids(first, asked'))
      requires Accounted(there, gone', mid, NewPids(asked', upto))
      ensures Accounted(there, gone + gone', before, NewPids(first, upto))
    {
      AccountedOn(mid, gone, before, NewPids(first, asked'), there, gone', NewPids(asked', upto));
      NewPidsSplit(first, asked', upto);
    }

    lemma {:induction false} NoAccount(there: multiset<int>, first: nat)
      ensures Accounted(there, [], there, NewPids(first, first))
    {
    }

    /** What one incident makes of one moment. */
    ghost predicate Step(m: Moment, e: Incident, m': Moment) {
      match e
      case Ordered(s) => m' == m.(control := Next(m.control, Set(s), m.running))
      case Due => m' == m.(control := Next(m.control, Timer, m.running))
      case Dead(r) => if Buries(m, r) then Buried(m, r, m') else m' == m
    }

    /** A report of a worker that is there and did not only stop. */
    predicate Buries(m: Moment, r: Report) {
      !r.status.Stopped? && r.pid in m.there
    }

    /** The worker is gone, the state machine was told, and forks added theirs unless the master is leaving or left. */
    ghost predicate Buried(m: Moment, r: Report, m': Moment) {
      && m.running > 0
      && (m'.control, m'.faults) == Reacted(m.control, m.running - 1, m.faults, r.status == KilledBy(true), r.now)
      && m.asked <= m'.asked && Accounted(m'.there, [r.pid], m.there, NewPids(m.asked, m'.asked))
      && (m'.control.state != Normal || m'.control.ending != Alive ==>
        m'.running == m.running - 1 && m'.asked == m.asked)
    }

    /** The master executed itself anew or exited, or this is a new worker. */
    ghost predicate Over(m: Moment) {
      m.control.ending != Alive || ForkedBy(m.asked)
    }

    ghost predicate Linked(moments: seq<Moment>, incidents: seq<Incident>) {
      && |moments| == |incidents| + 1
      && forall k :: 0 <= k < |incidents| ==> Step(moments[k], incidents[k], moments[k + 1]) && !Over(moments[k])
    }

    lemma {:induction false} LinkedSnoc(moments: seq<Moment>, incidents: seq<Incident>, e: Incident, m: Moment)
      requires Linked(moments, incidents) && !Over(moments[|incidents|]) && Step(moments[|incidents|], e, m)
      ensures Linked(moments + [m], incidents + [e])
    {
      var ms, es := moments + [m], incidents + [e];
      forall k | 0 <= k < |es| ensures Step(ms[k], es[k], ms[k + 1]) && !Over(ms[k]) {
        assert k < |incidents| ==> es[k] == incidents[k] && ms[k + 1] == moments[k + 1];
      }
    }

    lemma {:induction false} LinkedFront(moments: seq<Moment>, incidents: seq<Incident>)
      requires Linked(moments, incidents) && incidents != []
      ensures Linked(moments[..|incidents|], incidents[..|incidents| - 1])
    {
    }

    /** What was noted so far leads to the present. */
    ghost predicate Logged()
      reads this`state, this`signalSent, this`armed, this`ending, this`rounds, this`asked, all
      reads this`moments, this`incidents, if ring == null then {} else {ring}
    {
      Linked(moments, incidents) && moments[|incidents|] == Now()
    }

    /**
     * fpm_children_bury: as long as waitpid(2) finds a child; the loop ends in a new worker, and exec and exit do not
     * return.
     */
    method Reap(reports: seq<Report>)
      requires Supervised() && Logged() && ending == Alive && !isChild
      modifies this, all, all.pools, all.everyone`prev, all.everyone`next, RingParts()
      ensures Supervised() && Logged() && moments[0] == old(moments[0])
      ensures forall c :: c in all.everyone ==> c in old(all.everyone) || fresh(c)
      ensures old(incidents) <= incidents <= old(incidents) + Deads(reports)
      ensures ending == Alive && !isChild ==> incidents == old(incidents) + Deads(reports)
    {
      var w := 0;
      ghost var before, everyone0, first := incidents, all.everyone, moments[0];
      assert reports[..0] == [] && before + Deads([]) == before;
      while w < |reports| && ending == Alive && !isChild
        invariant 0 <= w <= |reports| && Supervised() && Logged() && moments[0] == first
        invariant forall c :: c in all.everyone ==> c in everyone0 || fresh(c)
        invariant incidents == before + Deads(reports[..w])
      {
        DeadsSnoc(before, reports, w);
        ReapNoted(reports[w]);
        w := w + 1;
      }
      DeadsFront(before, reports, w);
    }

    lemma {:induction false} DeadsFront(before: seq<Incident>, reports: seq<Report>, w: nat)
      requires w <= |reports|
      ensures before <= before + Deads(reports[..w]) <= before + Deads(reports)
      ensures w == |reports| ==> reports[..w] == reports
    {
      assert Deads(reports[..w]) == Deads(reports)[..w];
    }

    lemma {:induction false} DeadsSnoc(before: seq<Incident>, reports: seq<Report>, w: nat)
      requires w < |reports|
      ensures before + Deads(reports[..w + 1]) == before + Deads(reports[..w]) + [Dead(reports[w])]
    {
      assert Deads(reports[..w + 1]) == Deads(reports[..w]) + [Dead(reports[w])];
    }

    method ReapNoted(report: Report)
      requires Supervised() && Logged() && ending == Alive && !isChild
      modifies this, all, all.pools, all.everyone`prev, all.everyone`next, RingParts()
      ensures Supervised() && Logged() && incidents == old(incidents) + [Dead(report)]
      ensures moments[0] == old(moments[0])
      ensures forall c :: c in all.everyone ==> c in old(all.everyone) || fresh(c)
    {
      ghost var ms, es, m := moments, incidents, Now();
      ReapOne(report);
      Note(Dead(report), m);
    }

    /** The present is noted. */
    ghost method Note(e: Incident, m: Moment)
      requires Linked(moments, incidents) && moments[|incidents|] == m && !Over(m) && Step(m, e, Now())
      modifies this`moments, this`incidents
      ensures Logged() && incidents == old(incidents) + [e] && moments[0] == old(moments[0])
    {
      LinkedSnoc(moments, incidents, e, Now());
      moments, incidents := moments + [Now()], incidents + [e];
    }

    /** One child that waitpid(2) found. */
    method ReapOne(report: Report)
      requires Supervised() && ending == Alive && !isChild
      modifies this`state, this`ending, this`signalSent, this`armed, this`rounds, this`isChild, this`asked
      modifies all, all.pools, all.everyone`prev, all.everyone`next, RingParts()
      ensures Supervised() && Step(old(Now()), Dead(report), Now())
      ensures forall c :: c in all.everyone ==> c in old(all.everyone) || fresh(c)
    {
      var child, i, k := FindDead(report);
      if child != null {
        BuryOne(child, i, k, report);
      }
    }

    /** The child that a report is about, if it is one of the master's and did not only stop. */
    method FindDead(report: Report) returns (child: Child?, ghost i: nat, ghost k: nat)
      requires all.Valid()
      ensures child != null <==> !report.status.Stopped? && report.pid in Population()
      ensures child != null ==>
        child.pid == report.pid && i < |all.pools| && k < |all.lists[i]| && all.lists[i][k] == child
    {
      child, i, k := all.Find(report.pid);
      if child == null {
        NotListed(all.lists, report.pid);
        return;
      }
      Listed(all.lists, i, k);
      if report.status.Stopped? {
        child := null;
      }
    }

    method BuryOne(child: Child, ghost i: nat, ghost k: nat, report: Report)
      requires Supervised() && ending == Alive && !isChild
      requires i < |all.pools| && k < |all.lists[i]| && all.lists[i][k] == child && child.pid == report.pid
      modifies this`state, this`ending, this`signalSent, this`armed, this`rounds, this`isChild, this`asked
      modifies all, all.pools[i], all.everyone`prev, all.everyone`next, RingParts()
      ensures Supervised() && Buried(old(Now()), report, Now())
      ensures forall c :: c in all.everyone ==> c in old(all.everyone) || fresh(c)
    {
      ghost var lists, asked' := all.lists, asked;
      ghost var added := Bury(child, i, k, report.status == KilledBy(true), report.now);
      Turnover(lists, i, k, added, all.lists, asked', asked);
    }

    /** The workers that a master starts with. */
    method StartUp()
      requires Valid() && Control() == CTL0 && asked == 0
      modifies this`isChild, this`asked, this`moments, this`incidents, all, all.pools, all.everyone`prev
      ensures Supervised() && Logged() && Control() == CTL0 && Faults() == old(Faults())
      ensures moments == [Now()] && incidents == []
      ensures forall c :: c in all.everyone ==> c in old(all.everyone) || fresh(c)
      ensures Accounted(Population(), [], old(Population()), NewPids(0, asked))
    {
      StartAll();
      moments, incidents := [Now()], [];
    }

    /** fpm_children_create_initial for every pool. */
    method StartAll()
      requires Valid() && Control() == CTL0 && asked == 0
      modifies this`isChild, this`asked, all, all.pools, all.everyone`prev
      ensures Valid() && Control() == CTL0 && (!isChild && !SpawnFailed() ==> Full())
      ensures forall c :: c in all.everyone ==> c in old(all.everyone) || fresh(c)
      ensures Accounted(Population(), [], old(Population()), NewPids(0, asked))
    {
      var w := 0;
      ghost var there := Population();
      NoAccount(there, 0);
      while w < |all.pools| && !isChild
        invariant 0 <= w <= |all.pools| && Valid() && Control() == CTL0
        invariant forall c :: c in all.everyone ==> c in old(all.everyone) || fresh(c)
        invariant !isChild && !SpawnFailed() ==> FullUpTo(all.pools, all.lists, w)
        invariant Accounted(Population(), [], there, NewPids(0, asked))
      {
        StartOne(w, there);
        w := w + 1;
      }
    }

    method StartOne(w: nat, ghost there: multiset<int>)
      requires Valid() && Control() == CTL0 && w < |all.pools| && !isChild
      requires !SpawnFailed() ==> FullUpTo(all.pools, all.lists, w)
      requires Accounted(Population(), [], there, NewPids(0, asked))
      modifies this`isChild, this`asked, all, all.pools[w], all.everyone`prev
      ensures Valid() && (forall c :: c in all.everyone ==> c in old(all.everyone) || fresh(c))
      ensures !isChild && !SpawnFailed() ==> FullUpTo(all.pools, all.lists, w + 1)
      ensures Accounted(Population(), [], there, NewPids(0, asked))
    {
      ghost var lists, asked' := all.lists, asked;
      var failed, added := Make(all.pools[w], w);
      ArrivedNext(there, lists, w, added, all.lists, asked', asked);
      if !isChild && !SpawnFailed() {
        FullNext(all.pools, lists, all.lists, w);
      }
    }

    lemma {:induction false} ArrivedNext(there: multiset<int>, lists: seq<seq<Child>>, i: nat, added: seq<Child>,
        lists': seq<seq<Child>>, first: nat, upto: nat)
      requires i < |lists| && lists' == lists[i := added + lists[i]] && first <= upto && Came(added, first, upto)
      requires Accounted(AllPids(lists), [], there, NewPids(0, first))
      ensures Accounted(AllPids(lists'), [], there, NewPids(0, upto))
    {
      Arrivals(lists, i, added, lists', first, upto);
      AccountNext(AllPids(lists), [], there, 0, first, AllPids(lists'), [], upto);
    }

    /** One handler of the event loop. */
    method Handle(o: Occurrence)
      requires Supervised() && Logged() && ending == Alive && !isChild
      modifies this, all, all.pools, all.everyone`prev, all.everyone`next, RingParts()
      ensures Supervised() && Logged() && moments[0] == old(moments[0])
      ensures forall c :: c in all.everyone ==> c in old(all.everyone) || fresh(c)
      ensures old(incidents) <= incidents <= old(incidents) + Incidents(o)
      ensures ending == Alive && !isChild ==> incidents == old(incidents) + Incidents(o)
    {
      match o {
        case Signal(s) =>
          HandleSignal(s);
        case TimerDue =>
          HandleTimer();
        case Deaths(reports) =>
          Reap(reports);
      }
    }

    method HandleSignal(s: CtlState)
      requires Supervised() && Logged() && ending == Alive && !isChild
      modifies this`state, this`ending, this`signalSent, this`armed, this`rounds, this`moments, this`incidents
      ensures Supervised() && Logged() && incidents == old(incidents) + [Ordered(s)] && moments[0] == old(moments[0])
    {
      ghost var m := Now();
      Signalled(s);
      Note(Ordered(s), m);
    }

    method HandleTimer()
      requires Supervised() && Logged() && ending == Alive && !isChild
      modifies this`state, this`ending, this`signalSent, this`armed, this`rounds, this`moments, this`incidents
      ensures Supervised() && Logged() && incidents == old(incidents) + [Due] && moments[0] == old(moments[0])
    {
      ghost var m := Now();
      if armed {
        Escalated();
      }
      Note(Due, m);
    }

    // ---- What a run comes to ------------------------------------------------------------------

    lemma {:induction false} StepDeclines(m: Moment, e: Incident, m': Moment)
      requires Step(m, e, m')
      ensures Declines(m, m')
    {
      match e
      case Ordered(s) => NextClimbs(m.control, Set(s), m.running);
      case Due => NextClimbs(m.control, Timer, m.running);
      case Dead(r) =>
        if Buries(m, r) {
          ReactedClimbs(m.control, m.running - 1, m.faults, r.status == KilledBy(true), r.now);
        }
    }

    lemma {:induction false} LinkedDeclines(moments: seq<Moment>, incidents: seq<Incident>)
      requires Linked(moments, incidents)
      ensures Declining(moments)
      decreases |incidents|
    {
      if incidents != [] {
        var n := |incidents|;
        LinkedFront(moments, incidents);
        LinkedDeclines(moments[..n], incidents[..n - 1]);
        StepDeclines(moments[n - 1], incidents[n - 1], moments[n]);
        DecliningSnoc(moments[..n], moments[n]);
        assert moments[..n] + [moments[n]] == moments;
      }
    }

    /** What the state machine is told of one incident. */
    ghost function Happened(m: Moment, e: Incident): seq<Happening> {
      match e
      case Ordered(s) => [Happening(Set(s), m.running)]
      case Due => [Happening(Timer, m.running)]
      case Dead(r) =>
        if !Buries(m, r) || m.running == 0 then []
        else
          var left := m.running - 1;
          var gone := Next(m.control, ChildExited, left);
          if IsFault(m, r) && TooMany(m.faults + [r.now], r.now) then
            [Happening(ChildExited, left), Happening(Set(Reloading), left)]
          else [Happening(ChildExited, left)]
    }

    /** A worker died of SIGSEGV or SIGBUS, faults are watched, and the master is still there afterwards. */
    ghost predicate IsFault(m: Moment, r: Report) {
      && ring != null && Buries(m, r) && r.status == KilledBy(true)
      && m.running > 0 && Next(m.control, ChildExited, m.running - 1).ending == Alive
    }

    ghost function AllHappened(moments: seq<Moment>, incidents: seq<Incident>): seq<Happening>
      requires |moments| == |incidents| + 1
      decreases |incidents|
    {
      if incidents == [] then []
      else
        var n := |incidents| - 1;
        AllHappened(moments[..n + 1], incidents[..n]) + Happened(moments[n], incidents[n])
    }

    lemma {:induction false} StepRuns(m: Moment, e: Incident, m': Moment)
      requires Step(m, e, m')
      ensures m'.control == RunFrom(m.control, Happened(m, e))
    {
      var hs := Happened(m, e);
      if |hs| == 1 {
        OneHappened(m.control, hs[0]);
      } else if |hs| == 2 {
        OneHappened(m.control, hs[0]);
        RunFromSnoc(m.control, [hs[0]], hs[1]);
        assert [hs[0]] + [hs[1]] == hs;
      }
    }

    lemma {:induction false} OneHappened(c: Ctl, h: Happening)
      ensures RunFrom(c, [h]) == Next(c, h.event, h.running)
    {
      RunFromSnoc(c, [], h);
      assert [] + [h] == [h];
    }

    /** The state machine went through the run that the incidents tell it. */
    lemma {:induction false} LinkedRuns(moments: seq<Moment>, incidents: seq<Incident>)
      requires Linked(moments, incidents)
      ensures moments[|incidents|].control == RunFrom(moments[0].control, AllHappened(moments, incidents))
      decreases |incidents|
    {
      if incidents != [] {
        var n := |incidents| - 1;
        LinkedFront(moments, incidents);
        LinkedRuns(moments[..n + 1], incidents[..n]);
        StepRuns(moments[n], incidents[n], moments[n + 1]);
        RunFromAppend(moments[0].control, AllHappened(moments[..n + 1], incidents[..n]),
                      Happened(moments[n], incidents[n]));
      }
    }

    /** The pids of the workers that were buried. */
    function Gone(moments: seq<Moment>, incidents: seq<Incident>): seq<int>
      requires |moments| == |incidents| + 1
      decreases |incidents|
    {
      if incidents == [] then []
      else
        var n := |incidents| - 1;
        Gone(moments[..n + 1], incidents[..n])
        + (if incidents[n].Dead? && Buries(moments[n], incidents[n].report) then [incidents[n].report.pid] else [])
    }

    lemma {:induction false} LinkedAccounts(moments: seq<Moment>, incidents: seq<Incident>)
      requires Linked(moments, incidents)
      ensures var n := |incidents|;
        && moments[0].asked <= moments[n].asked
        && Accounted(moments[n].there, Gone(moments, incidents), moments[0].there,
                     NewPids(moments[0].asked, moments[n].asked))
      decreases |incidents|
    {
      if incidents == [] {
        NoAccount(moments[0].there, moments[0].asked);
      } else {
        var n := |incidents| - 1;
        var m, m', e := moments[n], moments[n + 1], incidents[n];
        LinkedFront(moments, incidents);
        LinkedAccounts(moments[..n + 1], incidents[..n]);
        var left := if e.Dead? && Buries(m, e.report) then [e.report.pid] else [];
        if left == [] {
          NoAccount(m.there, m.asked);
        }
        AccountNext(m.there, Gone(moments[..n + 1], incidents[..n]), moments[0].there, moments[0].asked, m.asked,
                    m'.there, left, m'.asked);
      }
    }

    /** When the faults were: the times of the reports of workers that were there and died of SIGSEGV or SIGBUS. */
    ghost function FaultTimes(moments: seq<Moment>, incidents: seq<Incident>): seq<int>
      requires |moments| == |incidents| + 1
      decreases |incidents|
    {
      if incidents == [] then []
      else
        var n := |incidents| - 1;
        FaultTimes(moments[..n + 1], incidents[..n])
        + (if incidents[n].Dead? && IsFault(moments[n], incidents[n].report) then [incidents[n].report.now] else [])
    }

    lemma {:induction false} LinkedFaults(moments: seq<Moment>, incidents: seq<Incident>)
      requires Linked(moments, incidents)
      ensures moments[|incidents|].faults == moments[0].faults + FaultTimes(moments, incidents)
      decreases |incidents|
    {
      if incidents == [] {
        assert moments[0].faults + [] == moments[0].faults;
      } else {
        var n := |incidents| - 1;
        var m, m', e := moments[n], moments[n + 1], incidents[n];
        LinkedFront(moments, incidents);
        LinkedFaults(moments[..n + 1], incidents[..n]);
        var more := if e.Dead? && IsFault(m, e.report) then [e.report.now] else [];
        assert m'.faults == m.faults + more;
        Assoc(moments[0].faults, FaultTimes(moments[..n + 1], incidents[..n]), more);
      }
    }

    /** What holds of everything that happened since the start. */
    ghost predicate Accountable(moments: seq<Moment>, incidents: seq<Incident>) {
      && Linked(moments, incidents) && Declining(moments)
      && var first, last := moments[0], moments[|incidents|];
      && last.control == RunFrom(first.control, AllHappened(moments, incidents))
      && last.faults == first.faults + FaultTimes(moments, incidents)
      && first.asked <= last.asked
      && Accounted(last.there, Gone(moments, incidents), first.there, NewPids(first.asked, last.asked))
    }

    /**
     * The master over any run: workers are started, then signals, timer and dead children come in any order, until
     * exec, exit or a fork in the child. Each incident is one step from moment to moment; so the state never goes
     * down, the workers only become fewer once it is not NORMAL, the state machine went through the run that the
     * incidents tell it, who is there are those that were forked and not buried, and the fault times are those of the
     * workers that died of a fault. A master that left executed itself anew if and only if it was reloading.
     */
    method Run(occurrences: seq<Occurrence>)
      requires Valid() && Control() == CTL0 && asked == 0
      modifies this, all, all.pools, all.everyone`prev, all.everyone`next, RingParts()
      ensures Supervised() && Accountable(moments, incidents) && moments[|incidents|] == Now()
      ensures moments[0].control == CTL0 && moments[0].faults == old(Faults())
      ensures Accounted(moments[0].there, [], old(Population()), NewPids(0, moments[0].asked))
      ensures incidents <= AllIncidents(occurrences)
      ensures ending == Alive && !isChild ==> incidents == AllIncidents(occurrences)
      ensures ending != Alive ==> (ending == Execed <==> state == Reloading)
    {
      StartUp();
      RunOn(occurrences);
      RunIsAccountable(moments, incidents);
      RunKeeps(AllHappened(moments, incidents));
    }

    /** The event loop. */
    method RunOn(occurrences: seq<Occurrence>)
      requires Supervised() && Logged() && incidents == []
      modifies this, all, all.pools, all.everyone`prev, all.everyone`next, RingParts()
      ensures Supervised() && Logged() && moments[0] == old(moments[0])
      ensures incidents <= AllIncidents(occurrences)
      ensures ending == Alive && !isChild ==> incidents == AllIncidents(occurrences)
    {
      var n := 0;
      ghost var first, everyone0 := moments[0], all.everyone;
      while n < |occurrences| && ending == Alive && !isChild
        invariant 0 <= n <= |occurrences| && Supervised() && Logged() && moments[0] == first
        invariant forall c :: c in all.everyone ==> c in everyone0 || fresh(c)
        invariant incidents <= AllIncidents(occurrences[..n])
        invariant ending == Alive && !isChild ==> incidents == AllIncidents(occurrences[..n])
      {
        ghost var before := incidents;
        Handle(occurrences[n]);
        IncidentsSnoc(occurrences, n, before, incidents);
        n := n + 1;
      }
      IncidentsPrefix(occurrences, n);
    }

    lemma {:induction false} RunIsAccountable(moments: seq<Moment>, incidents: seq<Incident>)
      requires Linked(moments, incidents)
      ensures Accountable(moments, incidents)
    {
      LinkedDeclines(moments, incidents);
      LinkedRuns(moments, incidents);
      LinkedAccounts(moments, incidents);
      LinkedFaults(moments, incidents);
    }
  }

  lemma {:induction false} IncidentsSnoc(os: seq<Occurrence>, n: nat, before: seq<Incident>, after: seq<Incident>)
    requires n < |os| && before == AllIncidents(os[..n]) && after <= before + Incidents(os[n])
    ensures after <= AllIncidents(os[..n + 1])
    ensures after == before + Incidents(os[n]) ==> after == AllIncidents(os[..n + 1])
  {
    assert os[..n + 1][..n] == os[..n];
  }

  lemma {:induction false} IncidentsPrefix(os: seq<Occurrence>, n: nat)
    requires n <= |os|
    ensures AllIncidents(os[..n]) <= AllIncidents(os) && (n == |os| ==> os[..n] == os)
    decreases |os|
  {
    if n == |os| {
      assert os[..n] == os;
    } else {
      IncidentsPrefix(os[..|os| - 1], n);
      assert os[..|os| - 1][..n] == os[..n];
    }
  }
}

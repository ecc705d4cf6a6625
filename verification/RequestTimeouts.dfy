/** Request times: what a worker writes into its slot and what the master makes of it: fpm/fpm_request.c. */
module RequestTimeouts {

  /** In the order of enum fpm_request_stage_e; a zeroed slot is at Unused. */
  datatype Stage = Unused | Accepting | ReadingHeaders | Info | Executing | Finished

  datatype Timeval = Timeval(sec: int, usec: int)

  const ZERO := Timeval(0, 0)

  function Micros(t: Timeval): int {
    t.sec * 1000000 + t.usec
  }

  predicate Normal(t: Timeval) {
    0 <= t.usec < 1000000
  }

  /** timersub. */
  function Minus(a: Timeval, b: Timeval): Timeval {
    if a.usec - b.usec < 0 then Timeval(a.sec - b.sec - 1, a.usec - b.usec + 1000000)
    else Timeval(a.sec - b.sec, a.usec - b.usec)
  }

  /** The borrow makes the test on whole seconds exact. */
  lemma {:induction false} SecondsAreExact(a: Timeval, b: Timeval, limit: int)
    requires Normal(a) && Normal(b)
    ensures Normal(Minus(a, b)) && Micros(Minus(a, b)) == Micros(a) - Micros(b)
    ensures Minus(a, b).sec >= limit <==> Micros(a) - Micros(b) >= limit * 1000000
  {
    var d := Minus(a, b);
    assert Micros(d) == d.sec * 1000000 + d.usec;
    if d.sec >= limit {
      assert (d.sec - limit) * 1000000 >= 0;
    } else {
      assert (limit - 1 - d.sec) * 1000000 >= 0;
    }
  }

  /** Earlier, for normal times. */
  predicate Less(a: Timeval, b: Timeval) {
    a.sec < b.sec || (a.sec == b.sec && a.usec < b.usec)
  }

  // ---- The master's decision ----------------------------------------------------------------

  datatype Limits = Limits(terminate: nat, slowlog: nat)

  datatype Action = Nothing | Trace | Terminate

  /** The action, and the child's slow_logged afterwards. */
  datatype Decision = Decision(action: Action, logged: Timeval)

  /** The part of a snapshot that the decision is about. */
  datatype Shot = Shot(stage: Stage, accepted: Timeval)

  predicate InRequest(s: Stage) {
    s == ReadingHeaders || s == Info || s == Executing
  }

  /** A limit is set and the request has lasted that long, to the microsecond. */
  predicate Overdue(shot: Shot, now: Timeval, limit: nat) {
    && (shot.stage == ReadingHeaders || shot.stage == Info || shot.stage == Executing)
    && limit > 0 && Micros(now) - Micros(shot.accepted) >= limit * 1000000
  }

  /** The same in terms of timersub and whole seconds. */
  predicate Due(shot: Shot, now: Timeval, limit: nat) {
    InRequest(shot.stage) && limit > 0 && Minus(now, shot.accepted).sec >= limit
  }

  lemma {:induction false} DueIsOverdue(shot: Shot, now: Timeval, limit: nat)
    requires Normal(now) && Normal(shot.accepted)
    ensures Due(shot, now, limit) <==> Overdue(shot, now, limit)
  {
    SecondsAreExact(now, shot.accepted, limit);
  }

  /** The decision: a trace is due once per accepted time, and it goes before SIGTERM. */
  function Decide(slowLogged: Timeval, shot: Shot, now: Timeval, limits: Limits): Decision {
    var logged := if slowLogged.sec != 0 && slowLogged != shot.accepted then ZERO else slowLogged;
    if logged.sec == 0 && shot.stage == Executing && Due(shot, now, limits.slowlog) then Decision(Trace, shot.accepted)
    else if Due(shot, now, limits.terminate) then Decision(Terminate, logged)
    else Decision(Nothing, logged)
  }

  /** The fields of struct fpm_child_s that the check uses. */
  class Watched {
    var slowLogged: Timeval
    var tracer: bool            // the tracer is set, and SIGSTOP was sent

    constructor ()
      ensures slowLogged == ZERO && !tracer
    {
      slowLogged, tracer := ZERO, false;
    }

    /** fpm_request_check_timed_out, with the snapshot in hand. */
    method CheckTimedOut(slot: Shot, now: Timeval, terminateTimeout: nat, slowlogTimeout: nat) returns (action: Action)
      modifies this
      ensures Decision(action, slowLogged)
        == Decide(old(slowLogged), slot, now, Limits(terminateTimeout, slowlogTimeout))
      ensures tracer == (old(tracer) || action == Trace)
    {
      action := Nothing;
      if slowLogged.sec != 0 {
        if slowLogged.sec != slot.accepted.sec || slowLogged.usec != slot.accepted.usec {
          slowLogged := Timeval(0, 0);
        }
      }
      if InRequest(slot.stage) {
        var tv := Minus(now, slot.accepted);
        if slowLogged.sec == 0 && slowlogTimeout != 0 && slot.stage == Executing && tv.sec >= slowlogTimeout {
          slowLogged := slot.accepted;
          tracer := true;
          action := Trace;
        } else if terminateTimeout != 0 && tv.sec >= terminateTimeout {
          action := Terminate;
        }
      }
    }
  }

  // ---- The worker's reports -----------------------------------------------------------------

  /**
   * Of all reports only two touch `accepted`: reading headers sets it to the time of the report, finishing clears it.
   */
  function Reported(shot: Shot, stage: Stage, clock: Timeval): Shot {
    Shot(stage, if stage == ReadingHeaders then clock else if stage == Finished then ZERO else shot.accepted)
  }

  /** struct fpm_shm_slot_s behind its lock, as its worker writes it; cpystrn cuts strings to their buffers. */
  class RequestSlot {
    var requestStage: Stage
    var accepted: Timeval
    var tv: Timeval
    var requestMethod: string
    var contentLength: nat
    var scriptFilename: string

    function Current(): Shot
      reads this
    {
      Shot(requestStage, accepted)
    }

    constructor ()
      ensures Current() == Shot(Unused, ZERO)
    {
      requestStage, accepted, tv, requestMethod, contentLength, scriptFilename := Unused, ZERO, ZERO, "", 0, "";
    }

    method ReportAccepting(clock: Timeval)
      modifies this
      ensures Current() == Reported(old(Current()), Accepting, clock) == Shot(Accepting, old(accepted)) && tv == clock
      ensures requestMethod == "" && contentLength == 0 && scriptFilename == ""
    {
      requestStage, tv := Accepting, clock;
      requestMethod, contentLength, scriptFilename := "", 0, "";
    }

    method ReportReadingHeaders(clock: Timeval)
      modifies this`requestStage, this`tv, this`accepted
      ensures Current() == Reported(old(Current()), ReadingHeaders, clock) == Shot(ReadingHeaders, clock) && tv == clock
    {
      requestStage, tv := ReadingHeaders, clock;
      accepted := tv;
    }

    method ReportInfo(clock: Timeval, method_: string, length: nat, filename: string)
      modifies this`requestStage, this`tv, this`requestMethod, this`contentLength, this`scriptFilename
      ensures Current() == Reported(old(Current()), Info, clock) == Shot(Info, old(accepted))
      ensures tv == clock && contentLength == length
      ensures requestMethod <= method_ && |requestMethod| == (if |method_| < 16 then |method_| else 15)
      ensures scriptFilename <= filename && |scriptFilename| == (if |filename| < 256 then |filename| else 255)
    {
      requestStage, tv, contentLength := Info, clock, length;
      requestMethod := if |method_| < 16 then method_ else method_[..15];
      scriptFilename := if |filename| < 256 then filename else filename[..255];
    }

    method ReportExecuting(clock: Timeval)
      modifies this`requestStage, this`tv
      ensures Current() == Reported(old(Current()), Executing, clock) == Shot(Executing, old(accepted)) && tv == clock
    {
      requestStage, tv := Executing, clock;
    }

    method ReportFinished(clock: Timeval)
      modifies this`requestStage, this`tv, this`accepted
      ensures Current() == Reported(old(Current()), Finished, clock) == Shot(Finished, Timeval(0, 0)) && tv == clock
    {
      requestStage, tv := Finished, clock;
      accepted := ZERO;
    }
  }

  // ---- Runs ---------------------------------------------------------------------------------

  /** What happens: time passes, the worker reports its stage, the master checks with the time of its heartbeat. */
  datatype Event = Tick(to: Timeval) | Report(stage: Stage) | Check(now: Timeval)

  /** A check that was made and what came of it. */
  datatype Verdict = Verdict(shot: Shot, now: Timeval, action: Action)

  datatype World = World(clock: Timeval, shot: Shot, slowLogged: Timeval, log: seq<Verdict>)

  /**
   * The clock never goes back; the stages of a request follow each other; the heartbeat's time is not in the future.
   */
  predicate Possible(w: World, e: Event) {
    match e
    case Tick(to) => Normal(to) && !Less(to, w.clock)
    case Report(stage) =>
      (match stage
       case Unused => false
       case Accepting => true
       case ReadingHeaders => w.shot.stage == Accepting
       case Info => InRequest(w.shot.stage)
       case Executing => InRequest(w.shot.stage)
       case Finished => true)
    case Check(now) => Normal(now) && !Less(w.clock, now)
  }

  function After(w: World, e: Event, limits: Limits): World {
    if !Possible(w, e) then w
    else
      match e
      case Tick(to) => w.(clock := to)
      case Report(stage) =>
        w.(shot := Reported(w.shot, stage, w.clock))
      case Check(now) =>
        var d := Decide(w.slowLogged, w.shot, now, limits);
        w.(slowLogged := d.logged, log := w.log + [Verdict(w.shot, now, d.action)])
  }

  function Run(start: Timeval, events: seq<Event>, limits: Limits): World {
    if events == [] then World(start, Shot(Unused, ZERO), ZERO, [])
    else After(Run(start, events[..|events| - 1], limits), events[|events| - 1], limits)
  }

  ghost predicate Invariant(w: World) {
    && Normal(w.clock) && w.clock.sec > 0 && Normal(w.shot.accepted)
    && !Less(w.clock, w.shot.accepted)
    && (InRequest(w.shot.stage) ==> w.shot.accepted.sec > 0)
    && (w.shot.accepted != ZERO ==> w.shot.accepted.sec > 0)
    && (w.slowLogged != ZERO ==> w.slowLogged.sec > 0)
    && (forall k :: 0 <= k < |w.log| && w.log[k].action == Trace ==> TracedBefore(w, w.log[k].shot.accepted))
    && (w.slowLogged != ZERO ==> Traced(w.log, |w.log|, w.slowLogged))
  }

  /** One of the first n checks traced the request that was accepted at t. */
  ghost predicate Traced(log: seq<Verdict>, n: nat, t: Timeval)
    requires n <= |log|
  {
    exists k :: 0 <= k < n && log[k].action == Trace && log[k].shot.accepted == t
  }

  lemma {:induction false} TracedSnoc(log: seq<Verdict>, v: Verdict, t: Timeval)
    ensures Traced(log + [v], |log| + 1, t) <==> Traced(log, |log|, t) || (v.action == Trace && v.shot.accepted == t)
    ensures forall n :: 0 <= n <= |log| ==> (Traced(log + [v], n, t) <==> Traced(log, n, t))
  {
    var all := log + [v];
    assert all[|log|] == v && forall k :: 0 <= k < |log| ==> all[k] == log[k];
  }

  /** A time that was traced has passed, and while it is still the current one, the child is marked with it. */
  ghost predicate TracedBefore(w: World, t: Timeval) {
    && t.sec > 0 && Less(t, w.clock)
    && (w.shot.accepted == t ==> w.slowLogged == t)
  }

  lemma {:induction false} AfterKeeps(w: World, e: Event, limits: Limits)
    requires Invariant(w)
    ensures Invariant(After(w, e, limits))
  {
    var w' := After(w, e, limits);
    forall k | 0 <= k < |w'.log| && w'.log[k].action == Trace ensures TracedBefore(w', w'.log[k].shot.accepted) {
      if k < |w.log| {
        assert TracedBefore(w, w.log[k].shot.accepted);
      }
    }
    if e.Check? && Possible(w, e) {
      TracedSnoc(w.log, w'.log[|w.log|], w'.slowLogged);
    }
  }

  lemma {:induction false} RunKeeps(start: Timeval, events: seq<Event>, limits: Limits)
    requires Normal(start) && start.sec > 0
    ensures Invariant(Run(start, events, limits))
    decreases |events|
  {
    if events == [] {
      assert Run(start, events, limits) == World(start, Shot(Unused, ZERO), ZERO, []);
    } else {
      RunKeeps(start, events[..|events| - 1], limits);
      AfterKeeps(Run(start, events[..|events| - 1], limits), events[|events| - 1], limits);
    }
  }

  /**
   * What should come of the i-th check: a trace of a script that has executed for too long, if none was made of the
   * same request before; otherwise SIGTERM to a worker whose request lasts too long.
   */
  ghost predicate Right(log: seq<Verdict>, i: nat, limits: Limits)
    requires i < |log|
  {
    var v := log[i];
    v.action ==
      if v.shot.stage == Executing && Overdue(v.shot, v.now, limits.slowlog) && !Traced(log, i, v.shot.accepted)
      then Trace
      else if Overdue(v.shot, v.now, limits.terminate) then Terminate
      else Nothing
  }

  ghost predicate AllRight(log: seq<Verdict>, limits: Limits) {
    forall i :: 0 <= i < |log| ==> Right(log, i, limits)
  }

  /** Over every run with a monotone clock each check does what it should. */
  lemma {:induction false} RunIsRight(start: Timeval, events: seq<Event>, limits: Limits)
    requires Normal(start) && start.sec > 0
    ensures AllRight(Run(start, events, limits).log, limits)
    decreases |events|
  {
    if events != [] {
      var front, e := events[..|events| - 1], events[|events| - 1];
      var w := Run(start, front, limits);
      RunIsRight(start, front, limits);
      RunKeeps(start, front, limits);
      if e.Check? && Possible(w, e) {
        NextIsRight(w, e.now, limits);
      }
    }
  }

  lemma {:induction false} NextIsRight(w: World, now: Timeval, limits: Limits)
    requires Invariant(w) && AllRight(w.log, limits) && Possible(w, Check(now))
    ensures AllRight(After(w, Check(now), limits).log, limits)
  {
    var v := Verdict(w.shot, now, Decide(w.slowLogged, w.shot, now, limits).action);
    var n, all := |w.log|, w.log + [v];
    DueIsOverdue(w.shot, now, limits.terminate);
    DueIsOverdue(w.shot, now, limits.slowlog);
    MarkedIsTraced(w);
    forall i | 0 <= i < |all| ensures Right(all, i, limits) {
      if i < n {
        assert Right(w.log, i, limits) && all[i] == w.log[i];
        TracedSnoc(w.log, v, all[i].shot.accepted);
      } else {
        TracedSnoc(w.log, v, w.shot.accepted);
      }
    }
  }

  /** The child is marked with the present request exactly when that was traced. */
  lemma {:induction false} MarkedIsTraced(w: World)
    requires Invariant(w)
    ensures InRequest(w.shot.stage) ==> (w.slowLogged == w.shot.accepted <==> Traced(w.log, |w.log|, w.shot.accepted))
  {
    if Traced(w.log, |w.log|, w.shot.accepted) {
      var k :| 0 <= k < |w.log| && w.log[k].action == Trace && w.log[k].shot.accepted == w.shot.accepted;
      assert TracedBefore(w, w.log[k].shot.accepted);
    }
  }

  /** What that comes to: traces are unique, SIGTERM is exact, and of two overdue checks one sends it. */
  ghost predicate Promises(log: seq<Verdict>, limits: Limits) {
    && (forall i, j :: 0 <= i < j < |log| && log[i].action == Trace && log[j].action == Trace ==>
      log[i].shot.accepted != log[j].shot.accepted)
    && (forall i :: 0 <= i < |log| && log[i].action == Trace ==>
      log[i].shot.stage == Executing && Overdue(log[i].shot, log[i].now, limits.slowlog))
    && (forall i :: 0 <= i < |log| && log[i].action == Terminate ==> Overdue(log[i].shot, log[i].now, limits.terminate))
    && (forall i :: 0 <= i < |log| && Overdue(log[i].shot, log[i].now, limits.terminate) ==> log[i].action != Nothing)
    && (forall i, j :: 0 <= i < j < |log| && log[i].shot.accepted == log[j].shot.accepted
          && Overdue(log[i].shot, log[i].now, limits.terminate) && Overdue(log[j].shot, log[j].now, limits.terminate)
          ==> log[i].action == Terminate || log[j].action == Terminate)
  }

  lemma {:induction false} RightPromises(log: seq<Verdict>, limits: Limits)
    requires AllRight(log, limits)
    ensures Promises(log, limits)
  {
    forall i | 0 <= i < |log|
      ensures Right(log, i, limits)
      ensures forall j :: i < j < |log| && log[i].action == Trace ==> Traced(log, j, log[i].shot.accepted)
    {
      assert Right(log, i, limits);
    }
  }

  /** For every run with a monotone clock. */
  lemma {:induction false} RunPromises(start: Timeval, events: seq<Event>, limits: Limits)
    requires Normal(start) && start.sec > 0
    ensures var log := Run(start, events, limits).log; AllRight(log, limits) && Promises(log, limits)
  {
    RunIsRight(start, events, limits);
    RightPromises(Run(start, events, limits).log, limits);
  }
}

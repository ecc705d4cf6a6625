/** The shutdown and reload state machine of the master: fpm/fpm_process_ctl.c. */
module ProcessCtl {

  datatype CtlState = Normal | Reloading | Finishing | Terminating

  datatype Signal = NoSignal | Quit | Term | Kill

  /** Whether the master process still runs this program, and if not, how it left. */
  datatype Ending = Alive | Execed | Exited

  /** What the timer is set to: process_control_timeout, or a second. */
  datatype Wait = ControlTimeout | OneSecond

  /** One signalling of all children, and how long it waits for the next one. */
  datatype Round = Round(state: CtlState, signal: Signal, wait: Wait)

  datatype Ctl = Ctl(state: CtlState, sent: Signal, armed: bool, ending: Ending, rounds: seq<Round>)

  const CTL0 := Ctl(Normal, NoSignal, false, Alive, [])

  function Rank(s: CtlState): nat {
    match s
    case Normal => 0
    case Reloading => 1
    case Finishing => 2
    case Terminating => 3
  }

  /** The signal that a state begins with. */
  function First(s: CtlState): Signal {
    if s == Terminating then Term else Quit
  }

  /** The signal that follows another one. */
  function Escalate(s: Signal): Signal {
    if s == Quit then Term else Kill
  }

  /** fpm_pctl_action_last: with no child left, the master executes itself anew or exits. */
  function ActionLast(c: Ctl): Ctl {
    match c.state
    case Normal => c
    case Reloading => c.(ending := Execed)
    case Finishing => c.(ending := Exited)
    case Terminating => c.(ending := Exited)
  }

  function NextSignal(c: Ctl): Signal {
    if c.sent == NoSignal then First(c.state) else Escalate(c.sent)
  }

  function NextWait(c: Ctl): Wait {
    if c.sent == NoSignal then ControlTimeout else OneSecond
  }

  /** fpm_pctl_action_next: the next signal to all children, and the timer for the one after it. */
  function ActionNext(c: Ctl, running: nat): Ctl {
    if running == 0 && ActionLast(c).ending != Alive then ActionLast(c)
    else
      c.(sent := NextSignal(c), armed := true, rounds := c.rounds + [Round(c.state, NextSignal(c), NextWait(c))])
  }

  /** A state overrides another one. */
  predicate Overrides(new_: CtlState, old_: CtlState) {
    match old_
    case Normal => new_ != Normal
    case Reloading => new_ == Finishing || new_ == Terminating
    case Finishing => new_ == Terminating
    case Terminating => false
  }

  datatype Event =
    | Set(state: CtlState)   // FPM_PCTL_ACTION_SET: a signal to the master, or the emergency restart
    | Timer                  // the timer fires
    | ChildExited            // fpm_pctl_child_exited

  /** What an event does while `running` children are alive. */
  function Next(c: Ctl, e: Event, running: nat): Ctl {
    if c.ending != Alive then c
    else
      match e
      case Set(s) => if Overrides(s, c.state) then ActionNext(c.(sent := NoSignal, state := s), running) else c
      case Timer => if c.armed then ActionNext(c.(armed := false), running) else c
      case ChildExited => if c.state != Normal && running == 0 then ActionLast(c) else c
  }

  /** Overriding goes strictly up, from the start to TERMINATING. */
  lemma {:induction false} OverridesClimbs(new_: CtlState, old_: CtlState)
    ensures Overrides(new_, old_) <==> Rank(new_) > Rank(old_)
  {
  }

  datatype Happening = Happening(event: Event, running: nat)

  function RunFrom(c: Ctl, hs: seq<Happening>): Ctl {
    if hs == [] then c else Next(RunFrom(c, hs[..|hs| - 1]), hs[|hs| - 1].event, hs[|hs| - 1].running)
  }

  function Run(hs: seq<Happening>): Ctl {
    RunFrom(CTL0, hs)
  }

  lemma {:induction false} RunFromSnoc(c: Ctl, hs: seq<Happening>, h: Happening)
    ensures RunFrom(c, hs + [h]) == Next(RunFrom(c, hs), h.event, h.running)
  {
    assert (hs + [h])[..|hs|] == hs;
  }

  lemma {:induction false} RunFromAppend(c: Ctl, hs: seq<Happening>, more: seq<Happening>)
    ensures RunFrom(c, hs + more) == RunFrom(RunFrom(c, hs), more)
    decreases |more|
  {
    if more == [] {
      assert hs + more == hs;
    } else {
      var front, last := more[..|more| - 1], more[|more| - 1];
      RunFromAppend(c, hs, front);
      assert hs + more == (hs + front) + [last];
      RunFromSnoc(c, hs + front, last);
    }
  }

  lemma {:induction false} NextClimbs(c: Ctl, e: Event, running: nat)
    ensures Rank(c.state) <= Rank(Next(c, e, running).state)
  {
    if e.Set? {
      OverridesClimbs(e.state, c.state);
    }
  }

  /** States only climb, and within a state signals only escalate, beginning with that of the state. */
  ghost predicate Escalating(rounds: seq<Round>) {
    forall i :: 0 <= i < |rounds| ==> EscalatesAt(rounds, i)
  }

  ghost predicate EscalatesAt(rounds: seq<Round>, i: nat)
    requires i < |rounds|
  {
    && (i > 0 ==> Rank(rounds[i - 1].state) <= Rank(rounds[i].state))
    && rounds[i] == Following(rounds[..i], rounds[i].state)
  }

  /** The round that a state is due after those before it: SIGQUIT, SIGTERM, SIGKILL, and so on; or from SIGTERM on. */
  function Following(rounds: seq<Round>, state: CtlState): Round {
    if rounds == [] || rounds[|rounds| - 1].state != state then
      Round(state, if state == Terminating then Term else Quit, ControlTimeout)
    else
      Round(state, if rounds[|rounds| - 1].signal == Quit then Term else Kill, OneSecond)
  }

  /** Signalling rounds that a child can still answer by itself. */
  function Gentle(rounds: seq<Round>): nat {
    if rounds == [] then 0
    else Gentle(rounds[..|rounds| - 1]) + (if rounds[|rounds| - 1].signal == Kill then 0 else 1)
  }

  /** How many of them can still follow. */
  function Ahead(c: Ctl): nat {
    match c.state
    case Normal => 5
    case Reloading => if c.sent == NoSignal then 5 else if c.sent == Quit then 4 else 3
    case Finishing => if c.sent == NoSignal then 3 else if c.sent == Quit then 2 else 1
    case Terminating => if c.sent == NoSignal then 1 else 0
  }

  function Last(rounds: seq<Round>): (CtlState, Signal)
    requires rounds != []
  {
    (rounds[|rounds| - 1].state, rounds[|rounds| - 1].signal)
  }

  ghost predicate Invariant(c: Ctl) {
    && (c.state == Normal ==> c.rounds == [] && !c.armed && c.ending == Alive && c.sent == NoSignal)
    && (c.state != Normal && c.ending == Alive ==>
      c.armed && c.rounds != [] && Last(c.rounds) == (c.state, c.sent) && c.sent != NoSignal)
    && (c.rounds != [] ==> Rank(c.rounds[|c.rounds| - 1].state) <= Rank(c.state))
    && Escalating(c.rounds) && Gentle(c.rounds) + Ahead(c) <= 5
    && (c.ending != Alive ==> (c.ending == Execed <==> c.state == Reloading))
    && (c.state == Terminating ==> c.sent != Quit)
  }

  /** The part of the invariant that a signalling round can rely on. */
  ghost predicate BeforeRound(c: Ctl) {
    && c.state != Normal && c.ending == Alive && (c.state == Terminating ==> c.sent != Quit)
    && (c.sent == NoSignal ==> c.rounds == [] || Rank(c.rounds[|c.rounds| - 1].state) < Rank(c.state))
    && (c.sent != NoSignal ==> c.rounds != [] && Last(c.rounds) == (c.state, c.sent))
  }

  lemma {:induction false} ActionNextKeeps(c: Ctl, running: nat)
    requires BeforeRound(c) && Escalating(c.rounds) && Gentle(c.rounds) + Ahead(c) <= 5
    ensures Invariant(ActionNext(c, running))
  {
    if running > 0 {
      var r := Round(c.state, NextSignal(c), NextWait(c));
      AheadDrops(c, r.signal);
      NextRound(c, r);
      SignalKeeps(c, r);
    } else {
      NoneLeft(c);
    }
  }

  lemma {:induction false} NoneLeft(c: Ctl)
    requires BeforeRound(c) && Escalating(c.rounds) && Gentle(c.rounds) + Ahead(c) <= 5
    ensures Invariant(ActionNext(c, 0))
  {
  }

  lemma {:induction false} NextRound(c: Ctl, r: Round)
    requires BeforeRound(c) && Escalating(c.rounds) && r == Round(c.state, NextSignal(c), NextWait(c))
    ensures r == Following(c.rounds, c.state)
    ensures Escalating(c.rounds + [r])
    ensures Gentle(c.rounds + [r]) == Gentle(c.rounds) + (if r.signal == Kill then 0 else 1)
  {
    RoundAdded(c.rounds, r);
  }

  lemma {:induction false} AheadDrops(c: Ctl, signal: Signal)
    requires c.state != Normal && signal == NextSignal(c) && (c.state == Terminating ==> c.sent != Quit)
    ensures Ahead(c.(sent := signal)) + (if signal == Kill then 0 else 1) <= Ahead(c)
    ensures signal != NoSignal && (c.state == Terminating ==> signal != Quit)
  {
  }

  lemma {:induction false} SignalKeeps(c: Ctl, r: Round)
    requires c.state != Normal && c.ending == Alive && r.state == c.state && r.signal != NoSignal
    requires c.state == Terminating ==> r.signal != Quit
    requires Escalating(c.rounds + [r]) && Gentle(c.rounds + [r]) + Ahead(c.(sent := r.signal)) <= 5
    ensures Invariant(c.(sent := r.signal, armed := true, rounds := c.rounds + [r]))
  {
    var c' := c.(sent := r.signal, armed := true, rounds := c.rounds + [r]);
    assert Ahead(c') == Ahead(c.(sent := r.signal));
  }

  lemma {:induction false} RoundAdded(rounds: seq<Round>, r: Round)
    requires Escalating(rounds) && r == Following(rounds, r.state)
    requires rounds != [] ==> Rank(rounds[|rounds| - 1].state) <= Rank(r.state)
    ensures Escalating(rounds + [r]) && Gentle(rounds + [r]) == Gentle(rounds) + (if r.signal == Kill then 0 else 1)
  {
    var all := rounds + [r];
    assert all[..|rounds|] == rounds;
    forall i | 0 <= i < |all| ensures EscalatesAt(all, i) {
      if i < |rounds| {
        assert all[..i] == rounds[..i] && EscalatesAt(rounds, i);
      }
    }
  }

  lemma {:induction false} NextKeeps(c: Ctl, e: Event, running: nat)
    requires Invariant(c)
    ensures Invariant(Next(c, e, running))
  {
    if c.ending == Alive {
      if e.Set? && Overrides(e.state, c.state) {
        ActionNextKeeps(c.(sent := NoSignal, state := e.state), running);
      } else if e.Timer? && c.armed {
        ActionNextKeeps(c.(armed := false), running);
      }
    }
  }

  /** A master that is leaving and still runs has workers, and its timer is armed. */
  predicate Leaving(c: Ctl, running: nat) {
    c.ending == Alive && c.state != Normal ==> running > 0 && c.armed
  }

  lemma {:induction false} StaysLeaving(c: Ctl, e: Event, running: nat)
    requires Invariant(c) && c.ending == Alive && (e.ChildExited? || Leaving(c, running))
    ensures Leaving(Next(c, e, running), running) && Rank(c.state) <= Rank(Next(c, e, running).state)
  {
    NextClimbs(c, e, running);
  }

  /**
   * For every run: at most five rounds are not SIGKILL, signals escalate, and a master that left executed itself anew
   * if and only if it was reloading.
   */
  lemma {:induction false} RunKeeps(hs: seq<Happening>)
    ensures Invariant(Run(hs)) && Gentle(Run(hs).rounds) <= 5
    ensures Run(hs).ending != Alive ==> (Run(hs).ending == Execed <==> Run(hs).state == Reloading)
    decreases |hs|
  {
    if hs != [] {
      RunKeeps(hs[..|hs| - 1]);
      NextKeeps(Run(hs[..|hs| - 1]), hs[|hs| - 1].event, hs[|hs| - 1].running);
    }
  }

  /** What one sees of the master: its state, the rounds of signals, and how it left. */
  datatype View = View(state: CtlState, rounds: seq<Round>, ending: Ending)

  function Seen(c: Ctl): View {
    View(c.state, c.rounds, c.ending)
  }

  function Left(v: View): View {
    v.(ending := if v.state == Reloading then Execed else Exited)
  }

  /** A master without children leaves; otherwise another round begins. */
  function Signalled(v: View, running: nat): View {
    if running == 0 then Left(v) else v.(rounds := v.rounds + [Following(v.rounds, v.state)])
  }

  /**
   * What each event should do, without fpm_signal_sent and the timer event: a higher state is entered, a lower one is
   * ignored, the timer counts whenever the state is not NORMAL, and so does the last child that exits.
   */
  function Answered(v: View, h: Happening): View {
    if v.ending != Alive then v
    else
      match h.event
      case Set(s) => if Rank(s) > Rank(v.state) then Signalled(v.(state := s), h.running) else v
      case Timer => if v.state != Normal then Signalled(v, h.running) else v
      case ChildExited => if v.state != Normal && h.running == 0 then Left(v) else v
  }

  function AllAnswered(hs: seq<Happening>): View {
    if hs == [] then View(Normal, [], Alive) else Answered(AllAnswered(hs[..|hs| - 1]), hs[|hs| - 1])
  }

  lemma {:induction false} AnsweredNext(c: Ctl, h: Happening)
    requires Invariant(c)
    ensures Seen(Next(c, h.event, h.running)) == Answered(Seen(c), h)
  {
    match h.event
    case Set(s) =>
      OverridesClimbs(s, c.state);
      if c.ending == Alive && Overrides(s, c.state) && h.running > 0 {
        var c' := c.(sent := NoSignal, state := s);
        NextRound(c', Round(s, NextSignal(c'), NextWait(c')));
      }
    case Timer =>
      if c.ending == Alive && c.armed && h.running > 0 {
        NextRound(c.(armed := false), Round(c.state, NextSignal(c), NextWait(c)));
      }
    case ChildExited =>
  }

  /** Over every run the machine with its flags does what each event should do. */
  lemma {:induction false} RunIsAnswered(hs: seq<Happening>)
    ensures Seen(Run(hs)) == AllAnswered(hs)
    decreases |hs|
  {
    if hs != [] {
      RunIsAnswered(hs[..|hs| - 1]);
      RunKeeps(hs[..|hs| - 1]);
      AnsweredNext(Run(hs[..|hs| - 1]), hs[|hs| - 1]);
    }
  }

  /** When the last child is gone, a master that is not in NORMAL leaves: a reload executes it anew, the others exit. */
  lemma {:induction false} LastChildLeaves(hs: seq<Happening>)
    requires Run(hs).state != Normal && Run(hs).ending == Alive
    ensures Run(hs + [Happening(ChildExited, 0)]).ending == if Run(hs).state == Reloading then Execed else Exited
  {
    RunFromSnoc(CTL0, hs, Happening(ChildExited, 0));
  }

  /**
   * From any point of a run on, the state never goes down; so after FINISHING or TERMINATING nothing is executed anew.
   */
  lemma {:induction false} NeverDown(before: seq<Happening>, more: seq<Happening>)
    ensures Rank(Run(before).state) <= Rank(Run(before + more).state)
    ensures Run(before).ending != Alive ==> Run(before + more) == Run(before)
    ensures Rank(Run(before).state) >= Rank(Finishing) ==> Run(before + more).ending != Execed
    decreases |more|
  {
    RunKeeps(before + more);
    var all := before + more;
    if more == [] {
      assert all == before;
    } else {
      NeverDown(before, more[..|more| - 1]);
      assert all[..|all| - 1] == before + more[..|more| - 1];
      NextClimbs(Run(all[..|all| - 1]), all[|all| - 1].event, all[|all| - 1].running);
    }
  }
}

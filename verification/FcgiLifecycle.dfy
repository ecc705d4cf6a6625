/**
 * The life of a request in a worker: cgi/fastcgi.c, fcgi_close, fcgi_accept_request and fcgi_finish_request,
 * and the loop of cgi/cgi_main.c around them.
 */
module FcgiLifecycle {
  import opened Basics

  /** What happens to the connection and to the table `env` of the worker's one request structure. */
  datatype Event =
    | Connect      // a connection is accepted
    | EnvInit      // the table is initialised: a request is going to be read
    | Return       // fcgi_accept_request hands the request to its caller
    | End          // an END_REQUEST record is put at the end of the response
    | EarlyEnd     // the same, at the wish of the script
    | EnvDestroy   // the table is destroyed
    | Close        // the connection is closed

  /** Where the history of a worker stands. */
  datatype Phase =
    | Idle         // no connection
    | Open         // a connection between two requests
    | Reading      // a request is being read
    | Dropped      // a request was rejected; its connection has to be closed
    | Serving      // a request was returned and waits for its END_REQUEST
    | Ended        // END_REQUEST has been sent; the table still exists
    | Leaked       // the connection was closed while the table still exists
    | LeakedOpen   // the same, with another connection open
    | Broken       // the discipline has been violated

  function Next(p: Phase, e: Event): Phase {
    match (p, e)
    case (Idle, Connect) => Open
    case (Open, EnvInit) => Reading
    case (Open, Close) => Idle
    case (Reading, Return) => Serving
    case (Reading, EnvDestroy) => Dropped
    case (Dropped, Close) => Idle
    case (Serving, End) => Ended
    case (Serving, EarlyEnd) => Ended
    case (Ended, EnvDestroy) => Open
    case (Ended, Close) => Leaked
    case (Leaked, Connect) => LeakedOpen
    case (LeakedOpen, Close) => Leaked
    case _ => Broken
  }

  function PhaseOf(log: seq<Event>): Phase {
    if log == [] then Idle else Next(PhaseOf(log[..|log| - 1]), log[|log| - 1])
  }

  predicate Lawful(log: seq<Event>) {
    PhaseOf(log) != Broken
  }

  function Count(log: seq<Event>, e: Event): nat {
    if log == [] then 0 else Count(log[..|log| - 1], e) + (if log[|log| - 1] == e then 1 else 0)
  }

  /** The END_REQUEST records of a history. */
  function Ends(log: seq<Event>): nat {
    Count(log, End) + Count(log, EarlyEnd)
  }

  lemma {:induction false} PhaseSnoc(log: seq<Event>, e: Event)
    ensures PhaseOf(log + [e]) == Next(PhaseOf(log), e)
  {
    assert (log + [e])[..|log|] == log;
  }

  lemma {:induction false} CountSnoc(log: seq<Event>, e: Event, of: Event)
    ensures Count(log + [e], of) == Count(log, of) + (if e == of then 1 else 0)
  {
    assert (log + [e])[..|log|] == log;
  }

  lemma {:induction false} PhaseAppend(log: seq<Event>, more: seq<Event>)
    ensures PhaseOf(log).Broken? ==> PhaseOf(log + more).Broken?
    decreases |more|
  {
    if more == [] {
      assert log + more == log;
    } else {
      PhaseAppend(log, more[..|more| - 1]);
      assert (log + more)[..|log + more| - 1] == log + more[..|more| - 1];
    }
  }

  /** Initialisation and destruction of the table alternate, and so do returned requests and END_REQUESTs. */
  lemma {:induction false} LawfulCounts(log: seq<Event>)
    requires Lawful(log)
    ensures var p := PhaseOf(log);
      && Count(log, EnvInit) - Count(log, EnvDestroy)
        == (if p in {Reading, Serving, Ended, Leaked, LeakedOpen} then 1 else 0)
      && Count(log, Return) - Ends(log) == (if p == Serving then 1 else 0)
      && Count(log, Connect) - Count(log, Close) == (if p in {Idle, Leaked} then 0 else 1)
    decreases |log|
  {
    if log != [] {
      LawfulCounts(log[..|log| - 1]);
    }
  }

  lemma {:induction false} PrefixLawful(log: seq<Event>, k: nat)
    requires Lawful(log) && k <= |log|
    ensures Lawful(log[..k])
  {
    assert log == log[..k] + log[k..];
    PhaseAppend(log[..k], log[k..]);
  }

  /** In one life of the table, from its initialisation to its destruction. */
  ghost predicate Life(log: seq<Event>, i: nat, j: nat) {
    && i < j < |log| && log[i] == EnvInit && log[j] == EnvDestroy
    && forall k :: i < k < j ==> log[k] != EnvDestroy
  }

  lemma {:induction false} CountAt(log: seq<Event>, k: nat, e: Event)
    requires k < |log|
    ensures Count(log[..k + 1], e) == Count(log[..k], e) + (if log[k] == e then 1 else 0)
  {
    assert log[..k + 1][..k] == log[..k];
  }

  lemma {:induction false} PhaseAt(log: seq<Event>, k: nat)
    requires Lawful(log) && k < |log|
    ensures Lawful(log[..k + 1]) && PhaseOf(log[..k + 1]) == Next(PhaseOf(log[..k]), log[k])
  {
    PrefixLawful(log, k + 1);
    assert log[..k + 1][..k] == log[..k];
  }

  /** How a life that began behind `before` stands after more events of it. */
  ghost predicate Living(before: seq<Event>, log: seq<Event>) {
    var p := PhaseOf(log);
    && p in {Reading, Serving, Ended, Leaked, LeakedOpen}
    && Count(log, Return) - Count(before, Return) == (if p == Reading then 0 else 1)
    && Ends(log) - Ends(before) == (if p in {Reading, Serving} then 0 else 1)
  }

  /** A lawful event goes on with the life, unless it ends it. */
  lemma {:induction false} LivesOn(before: seq<Event>, log: seq<Event>, k: nat)
    requires Lawful(log) && k < |log| && Living(before, log[..k]) && log[k] != EnvDestroy
    ensures Living(before, log[..k + 1]) && log[k] != EnvInit
  {
    PhaseAt(log, k);
    CountAt(log, k, Return);
    CountAt(log, k, End);
    CountAt(log, k, EarlyEnd);
  }

  lemma {:induction false} LifeBegins(log: seq<Event>, i: nat)
    requires Lawful(log) && i < |log| && log[i] == EnvInit
    ensures Living(log[..i], log[..i + 1])
  {
    PhaseAt(log, i);
    CountAt(log, i, Return);
    CountAt(log, i, End);
    CountAt(log, i, EarlyEnd);
  }

  /** Each request that was returned gets exactly one END_REQUEST before its table goes; a rejected one gets none. */
  lemma {:induction false} OneEndPerRequest(log: seq<Event>, i: nat, j: nat)
    requires Lawful(log) && Life(log, i, j)
    ensures Ends(log[..j]) - Ends(log[..i]) == Count(log[..j], Return) - Count(log[..i], Return)
    ensures 0 <= Count(log[..j], Return) - Count(log[..i], Return) <= 1
    ensures forall k :: i < k < j ==> log[k] != EnvInit
  {
    LifeBegins(log, i);
    var k := i + 1;
    while k < j
      invariant i < k <= j && Living(log[..i], log[..k])
      invariant forall m :: i < m < k ==> log[m] != EnvInit
    {
      LivesOn(log[..i], log, k);
      k := k + 1;
    }
    PhaseAt(log, j);
  }

  /** What breaks the discipline: a response that is ended early on a kept connection is ended again. */
  lemma {:induction false} EndedTwice()
    ensures !Lawful([Connect, EnvInit, Return, EarlyEnd, End])
  {
    PhasesOf([Connect, EnvInit, Return, EarlyEnd]);
    PhaseSnoc([Connect, EnvInit, Return, EarlyEnd], End);
  }

  /** Or one is ended early, its connection is closed, and the next read initialises the table that still exists. */
  lemma {:induction false} TableLost()
    ensures !Lawful([Connect, EnvInit, Return, EarlyEnd, Close, Connect, EnvInit])
  {
    var log := [Connect, EnvInit, Return, EarlyEnd];
    PhasesOf(log);
    PhaseSnoc(log, Close);
    PhaseSnoc(log + [Close], Connect);
    PhaseSnoc(log + [Close, Connect], EnvInit);
    assert log + [Close] + [Connect] == log + [Close, Connect];
    assert log + [Close, Connect] + [EnvInit] == [Connect, EnvInit, Return, EarlyEnd, Close, Connect, EnvInit];
  }

  lemma {:induction false} PhasesOf(log: seq<Event>)
    requires log == [Connect, EnvInit, Return, EarlyEnd]
    ensures PhaseOf(log) == Ended
  {
    PhaseSnoc([], Connect);
    PhaseSnoc([Connect], EnvInit);
    PhaseSnoc([Connect, EnvInit], Return);
    PhaseSnoc([Connect, EnvInit, Return], EarlyEnd);
    assert [] + [Connect] == [Connect] && [Connect] + [EnvInit] == [Connect, EnvInit];
    assert [Connect, EnvInit] + [Return] == [Connect, EnvInit, Return];
    assert [Connect, EnvInit, Return] + [EarlyEnd] == log;
  }

  // ---- What an early end may be followed by ----------------------------------------------

  /** Every early end closes its connection at once, and no other request is read after it. */
  ghost predicate Harmless(log: seq<Event>) {
    HarmlessUpTo(log, |log|)
  }

  ghost predicate HarmlessUpTo(log: seq<Event>, n: int) {
    forall i :: 0 <= i < n <= |log| && log[i] == EarlyEnd ==>
      i + 1 < |log| && log[i + 1] == Close && EnvInit !in log[i + 2..]
  }

  /** How a history stands towards its early ends. */
  datatype Early = Never | Just | Shut | Harm

  function NextEarly(x: Early, e: Event): Early {
    match x
    case Never => if e == EarlyEnd then Just else Never
    case Just => if e == Close then Shut else Harm
    case Shut => if e == EnvInit then Harm else if e == EarlyEnd then Just else Shut
    case Harm => Harm
  }

  function EarlyOf(log: seq<Event>): Early {
    if log == [] then Never else NextEarly(EarlyOf(log[..|log| - 1]), log[|log| - 1])
  }

  lemma {:induction false} EarlySnoc(log: seq<Event>, e: Event)
    ensures EarlyOf(log + [e]) == NextEarly(EarlyOf(log), e)
  {
    assert (log + [e])[..|log|] == log;
  }

  /** What each standing says of the log; a harm is not undone. */
  ghost predicate Says(log: seq<Event>, x: Early) {
    match x
    case Never => EarlyEnd !in log
    case Just => log != [] && log[|log| - 1] == EarlyEnd && HarmlessUpTo(log, |log| - 1)
    case Shut => EarlyEnd in log && Harmless(log)
    case Harm => EarlyEnd in log && exists i :: Harmed(log, i)
  }

  ghost predicate Harmed(log: seq<Event>, i: int) {
    0 <= i < |log| - 1 && log[i] == EarlyEnd && (log[i + 1] == Close ==> EnvInit in log[i + 2..])
  }

  /** What is known of an early end stays so, unless the next event is a request that is read. */
  lemma {:induction false} StaysHarmless(log: seq<Event>, n: nat, e: Event)
    requires n <= |log| && HarmlessUpTo(log, n) && (e == EnvInit ==> EarlyEnd !in log[..n])
    ensures HarmlessUpTo(log + [e], n)
  {
    var all := log + [e];
    forall i | 0 <= i < n && all[i] == EarlyEnd
      ensures i + 1 < |all| && all[i + 1] == Close && EnvInit !in all[i + 2..]
    {
      assert log[i] == EarlyEnd && log[i] in log[..n];
      assert all[i + 2..] == log[i + 2..] + [e];
    }
  }

  lemma {:induction false} StaysHarmed(log: seq<Event>, i: int, e: Event)
    requires Harmed(log, i)
    ensures Harmed(log + [e], i)
  {
    assert (log + [e])[i + 2..] == log[i + 2..] + [e];
  }

  lemma {:induction false} SaysNext(log: seq<Event>, x: Early, e: Event)
    requires Says(log, x)
    ensures Says(log + [e], NextEarly(x, e))
  {
    match x
    case Never => NeverNext(log, e);
    case Just => JustNext(log, e);
    case Shut => ShutNext(log, e);
    case Harm =>
      var i :| Harmed(log, i);
      StaysHarmed(log, i, e);
  }

  lemma {:induction false} NeverNext(log: seq<Event>, e: Event)
    requires Says(log, Never)
    ensures Says(log + [e], NextEarly(Never, e))
  {
  }

  lemma {:induction false} JustNext(log: seq<Event>, e: Event)
    requires Says(log, Just)
    ensures Says(log + [e], NextEarly(Just, e))
  {
    var all, n := log + [e], |log|;
    assert all[n - 1] == EarlyEnd && all[n] == e && all[n + 1..] == [];
    if e == Close {
      StaysHarmless(log, n - 1, e);
      assert EarlyEnd in all;
    } else {
      assert Harmed(all, n - 1);
    }
  }

  lemma {:induction false} ShutNext(log: seq<Event>, e: Event)
    requires Says(log, Shut)
    ensures Says(log + [e], NextEarly(Shut, e))
  {
    if e == EnvInit {
      var i :| 0 <= i < |log| && log[i] == EarlyEnd;
      assert (log + [e])[i + 2..] == log[i + 2..] + [e];
      assert Harmed(log + [e], i);
    } else {
      StaysHarmless(log, |log|, e);
    }
  }

  lemma {:induction false} EarlySays(log: seq<Event>)
    ensures Says(log, EarlyOf(log))
    decreases |log|
  {
    if log != [] {
      var front, e := log[..|log| - 1], log[|log| - 1];
      EarlySays(front);
      SaysNext(front, EarlyOf(front), e);
      assert log == front + [e];
    }
  }

  lemma {:induction false} EarlyMeans(log: seq<Event>)
    ensures Harmless(log) <==> EarlyOf(log) in {Never, Shut}
    ensures EarlyOf(log) == Never <==> EarlyEnd !in log
  {
    EarlySays(log);
    if EarlyOf(log) == Harm {
      var i :| Harmed(log, i);
      assert log[i] == EarlyEnd;
    } else if EarlyOf(log) == Just {
      assert log[|log| - 1] == EarlyEnd;
    }
  }

  /**
   * What accept(2) answers: a connection, with whether it becomes readable within five seconds; EINTR or ECONNABORTED;
   * or anything else.
   */
  datatype Answer = From(fd: nat, peer: nat, readable: bool) | Retry | Hard

  /** What fcgi_read_request makes of a peer's bytes. */
  datatype Outcome = Outcome(ok: bool, keep: bool)

  /** How far a worker is: whether it saw a shutdown, how often it looked, and the answers and readings so far. */
  datatype Seen = Seen(shut: bool, looked: nat, asked: nat, taken: nat)

  /** What a wait for a connection comes to: a connection, none for good, or another turn. */
  datatype Got = Take(fd: nat) | Stop | Again

  /** Why the loop of the worker ends. */
  datatype Reason = NoRequest | StartupFailed | MaxReached

  /** The events so far, with what they amount to. */
  class History {
    ghost var log: seq<Event>
    ghost var phase: Phase
    ghost var early: Early
    ghost var inits: nat      // how often a request was going to be read
    ghost var handed: nat     // how often one was returned

    constructor ()
      ensures Valid() && log == [] && phase == Idle && early == Never && inits == 0 && handed == 0
    {
      log, phase, early, inits, handed := [], Idle, Never, 0, 0;
    }

    ghost predicate Valid()
      reads this
    {
      && phase == PhaseOf(log) && early == EarlyOf(log)
      && inits == Count(log, EnvInit) && handed == Count(log, Return)
    }

    ghost method Note(e: Event)
      requires Valid()
      modifies this
      ensures Valid() && log == old(log) + [e]
      ensures phase == Next(old(phase), e) && early == NextEarly(old(early), e)
      ensures inits == old(inits) + (if e == EnvInit then 1 else 0)
      ensures handed == old(handed) + (if e == Return then 1 else 0)
    {
      PhaseSnoc(log, e);
      EarlySnoc(log, e);
      CountSnoc(log, e, EnvInit);
      CountSnoc(log, e, Return);
      phase, early := Next(phase, e), NextEarly(early, e);
      inits, handed := inits + (if e == EnvInit then 1 else 0), handed + (if e == Return then 1 else 0);
      log := log + [e];
    }
  }

  /**
   * A worker. What the world does to it comes in as constants: the answers of accept(2), with nothing but errors behind
   * the last one, what comes of each reading of a request and of each write of an END_REQUEST, when a shutdown is asked
   * for, whether the n-th request can be started, and how often its script finishes it early.
   */
  class Worker {
    const answers: seq<Answer>
    const readings: seq<Outcome>
    const writes: nat -> bool
    const signals: nat -> bool
    const startups: nat -> bool
    const finishes: nat -> nat
    const allowedClients: Option<seq<nat>>   // the addresses of FCGI_WEB_SERVER_ADDRS, if it is set
    var fd: int
    var keep: bool
    var inShutdown: bool
    var asked: nat          // answers so far
    var taken: nat          // readings so far
    var looked: nat         // how often the shutdown flag was looked at
    var flushed: nat        // how often an END_REQUEST was written
    const history: History

    constructor (answers: seq<Answer>, readings: seq<Outcome>, writes: nat -> bool, signals: nat -> bool,
        startups: nat -> bool, finishes: nat -> nat, allowedClients: Option<seq<nat>>)
      ensures fd == -1 && history.log == [] && Valid() && fresh(history) && !keep && !inShutdown
      ensures this.answers == answers && this.readings == readings && this.writes == writes && this.signals == signals
      ensures this.startups == startups && this.finishes == finishes && this.allowedClients == allowedClients
      ensures asked == 0 && taken == 0 && looked == 0 && flushed == 0
    {
      this.answers, this.readings, this.writes, this.signals := answers, readings, writes, signals;
      this.startups, this.finishes, this.allowedClients := startups, finishes, allowedClients;
      fd, keep, inShutdown := -1, false, false;
      asked, taken, looked, flushed := 0, 0, 0, 0;
      history := new History();
    }

    function AnswerAt(n: nat): Answer {
      if n < |answers| then answers[n] else Hard
    }

    function ReadingAt(n: nat): Outcome {
      if n < |readings| then readings[n] else Outcome(false, false)
    }

    /** The world's answers that are still to come. */
    ghost function Left(): nat
      reads this`inShutdown, this`looked, this`asked, this`taken
    {
      Ahead(Here())
    }

    ghost function Ahead(s: Seen): nat {
      (if s.asked < |answers| then |answers| - s.asked else 0)
        + (if s.taken < |readings| then |readings| - s.taken else 0)
    }

    ghost function Here(): Seen
      reads this`inShutdown, this`looked, this`asked, this`taken
    {
      Seen(inShutdown, looked, asked, taken)
    }

    /** A connection that is allowed and becomes readable in time. */
    ghost predicate Usable(n: nat) {
      var a := AnswerAt(n);
      a.From? && Allowed(a.peer) && a.readable
    }

    /** Some accept failed for good. */
    ghost predicate Refused(from: nat, to: int) {
      exists n :: from <= n < to && AnswerAt(n).Hard?
    }

    /** A shutdown was asked for at some look. */
    ghost predicate Signalled(from: nat, to: int) {
      exists n :: from <= n < to && signals(n)
    }

    /** A shutdown is seen at the first look at which it is asked for, and that was the last look. */
    ghost predicate Looks(s: Seen, s': Seen) {
      && s.looked < s'.looked && (s.shut ==> s'.looked == s.looked + 1)
      && (s'.shut <==> s.shut || Signalled(s.looked, s'.looked)) && !Signalled(s.looked, s'.looked - 1)
    }

    /** An accept that failed for good was the last one. */
    ghost predicate Asks(s: Seen, s': Seen) {
      s.asked <= s'.asked && !Refused(s.asked, s'.asked - 1)
    }

    ghost predicate GaveUp(s: Seen, s': Seen) {
      s'.shut || Refused(s.asked, s'.asked)
    }

    ghost predicate NoneUsable(from: nat, to: int) {
      forall n :: from <= n < to ==> !Usable(n)
    }

    /** The wait for a connection: the first one that is usable, unless there is a shutdown or an error before it. */
    ghost predicate Waits(s: Seen, s': Seen, got: Got) {
      && Looks(s, s') && Asks(s, s') && s'.taken == s.taken && (got == Stop <==> GaveUp(s, s'))
      && match got
         case Take(fd) =>
           && s.asked < s'.asked && Usable(s'.asked - 1) && fd == AnswerAt(s'.asked - 1).fd
           && NoneUsable(s.asked, s'.asked - 1)
         case _ => NoneUsable(s.asked, s'.asked)
    }

    /** One turn of the wait. */
    ghost function TurnTo(s: Seen): (Seen, Got) {
      if s.shut || signals(s.looked) then (s.(shut := true, looked := s.looked + 1), Stop)
      else AnswerTo(s.(looked := s.looked + 1))
    }

    ghost function AnswerTo(s: Seen): (Seen, Got) {
      var c, a := s.(asked := s.asked + 1), AnswerAt(s.asked);
      if Usable(s.asked) then (c, Take(a.fd))
      else if a.From? then (c, Again)
      else
        var d := c.(looked := c.looked + 1, shut := c.shut || signals(c.looked));
        (d, if d.shut || a.Hard? then Stop else Again)
    }

    ghost function WaitTo(s: Seen): (Seen, Got)
      decreases if s.asked < |answers| then |answers| - s.asked else 0
    {
      var (c, got) := TurnTo(s);
      if got == Again then WaitTo(c) else (c, got)
    }

    lemma {:induction false} TurnWaits(s: Seen)
      ensures var (c, got) := TurnTo(s); Waits(s, c, got)
    {
    }

    lemma {:induction false} LooksOn(s: Seen, m: Seen, s': Seen)
      requires Looks(s, m) && !m.shut && Looks(m, s')
      ensures Looks(s, s')
    {
    }

    lemma {:induction false} AsksOn(s: Seen, m: Seen, s': Seen)
      requires Asks(s, m) && !Refused(s.asked, m.asked) && Asks(m, s')
      ensures Asks(s, s') && (Refused(s.asked, s'.asked) <==> Refused(m.asked, s'.asked))
    {
    }

    lemma {:induction false} WaitsOn(s: Seen, m: Seen, s': Seen, got: Got)
      requires Waits(s, m, Again) && Waits(m, s', got)
      ensures Waits(s, s', got)
    {
      LooksOn(s, m, s');
      AsksOn(s, m, s');
    }

    /** The loop of accept waits as it should. */
    lemma {:induction false} WaitWaits(s: Seen)
      ensures var (c, got) := WaitTo(s); Waits(s, c, got) && got != Again
      decreases if s.asked < |answers| then |answers| - s.asked else 0
    {
      TurnWaits(s);
      var (c, got) := TurnTo(s);
      if got == Again {
        WaitWaits(c);
        var (c', got') := WaitTo(c);
        WaitsOn(s, c, c', got');
      }
    }

    /** The descriptor is open in exactly the phases that have a connection. */
    ghost predicate Agrees()
      reads this, history
    {
      history.phase == Broken || (fd < 0 <==> history.phase in {Idle, Leaked})
    }

    ghost predicate Valid()
      reads this, history
    {
      history.Valid() && Agrees()
    }

    /** The discipline is broken by a harmful early end, and by nothing else. */
    ghost predicate Told()
      reads history
    {
      match history.early
      case Never => history.phase in {Idle, Open, Reading, Dropped, Serving}
      case Just => history.phase == Ended
      case Shut => history.phase in {Leaked, LeakedOpen}
      case Harm => history.phase == Broken
    }

    /** A signal may ask for shutdown at any time; the request is never taken back. */
    method ShutdownAsked() returns (it: bool)
      modifies this`inShutdown, this`looked
      ensures it == inShutdown == (old(inShutdown) || signals(old(looked))) && looked == old(looked) + 1
    {
      inShutdown := inShutdown || signals(looked);
      looked := looked + 1;
      it := inShutdown;
    }

    method CloseRequest(force: bool, destroy: bool)
      requires history.Valid()
      modifies this`fd, history
      ensures history.Valid() && history.inits == old(history.inits) && history.handed == old(history.handed)
      ensures var closes := (force || !keep) && old(fd) >= 0;
        && fd == (if closes then -1 else old(fd))
        && history.log == old(history.log) + (if destroy then [EnvDestroy] else []) + (if closes then [Close] else [])
        && var p := if destroy then Next(old(history.phase), EnvDestroy) else old(history.phase);
        var x := if destroy then NextEarly(old(history.early), EnvDestroy) else old(history.early);
        && history.phase == (if closes then Next(p, Close) else p)
        && history.early == (if closes then NextEarly(x, Close) else x)
    {
      if destroy {
        history.Note(EnvDestroy);
      }
      if (force || !keep) && fd >= 0 {
        fd := -1;
        history.Note(Close);
      }
    }

    /** fcgi_flush(req, 1): END_REQUEST is appended; if the write fails, the connection is not kept. */
    method FlushEnd(ghost e: Event)
      requires history.Valid() && e in {End, EarlyEnd}
      modifies this`keep, this`flushed, history
      ensures keep == (old(keep) && writes(old(flushed))) && flushed == old(flushed) + 1
      ensures history.Valid() && history.inits == old(history.inits) && history.handed == old(history.handed)
      ensures history.log == old(history.log) + [e] && history.phase == Next(old(history.phase), e)
      ensures history.early == NextEarly(old(history.early), e)
    {
      var written := writes(flushed);
      flushed := flushed + 1;
      history.Note(e);
      if !written {
        keep := false;
      }
    }

    /**
     * fcgi_finish_request. Exactly when there is no connection or a request waits for its END_REQUEST,
     * the call keeps the discipline; afterwards the connection is open only if it is kept.
     */
    method Finish()
      requires Valid()
      modifies this`fd, this`keep, this`flushed, history
      ensures Valid() && history.inits == old(history.inits) && history.handed == old(history.handed)
      ensures history.phase != Broken <==>
        old(history.phase) != Broken && (old(fd) < 0 || old(history.phase) == Serving)
      ensures old(fd) < 0 ==> history.log == old(history.log) && history.phase == old(history.phase)
      ensures old(fd) >= 0 ==>
        history.log == old(history.log) + [End, EnvDestroy] + (if fd < 0 then [Close] else [])
      ensures fd == if old(fd) < 0 || (old(keep) && writes(old(flushed))) then old(fd) else -1
      ensures old(history.phase) == Serving ==> history.phase == if fd < 0 then Idle else Open
      ensures old(Told()) && old(history.phase) in {Idle, Serving, Ended, Leaked, Broken} ==> Told()
    {
      if fd >= 0 {
        FlushEnd(End);
        CloseRequest(false, true);
      }
    }

    /** fcgi_read_request; the table is initialised first. */
    method ReadRequest() returns (ok: bool)
      requires history.Valid()
      modifies this`keep, history, this`taken
      ensures history.Valid() && history.inits == old(history.inits) + 1 && history.handed == old(history.handed)
      ensures taken == old(taken) + 1 && Outcome(ok, keep) == ReadingAt(old(taken))
      ensures history.log == old(history.log) + [EnvInit] && history.phase == Next(old(history.phase), EnvInit)
      ensures history.early == NextEarly(old(history.early), EnvInit)
    {
      history.Note(EnvInit);
      var reading := ReadingAt(taken);
      ok, keep, taken := reading.ok, reading.keep, taken + 1;
    }

    predicate Allowed(peer: nat) {
      allowedClients.None? || peer in allowedClients.value
    }

    method IsAllowed(peer: nat) returns (allowed: bool)
      ensures allowed == Allowed(peer)
    {
      if allowedClients.None? {
        return true;
      }
      var clients := allowedClients.value;
      var n := 0;
      while n < |clients|
        invariant 0 <= n <= |clients| && peer !in clients[..n]
      {
        if clients[n] == peer {
          return true;
        }
        n := n + 1;
      }
      return false;
    }

    /**
     * accept(2) and the list of allowed clients: an accepted connection stays open if and only if its address is
     * allowed, and is closed at once otherwise.
     */
    method AcceptOne() returns (answer: Answer)
      requires fd < 0 && Valid() && Told()
      modifies this`fd, history, this`asked
      ensures Valid() && Told() && history.inits == old(history.inits) && history.handed == old(history.handed)
      ensures answer == AnswerAt(old(asked)) && asked == old(asked) + 1
      ensures fd == if answer.From? && Allowed(answer.peer) then answer.fd else -1
      ensures history.log == old(history.log) +
        (if !answer.From? then [] else if Allowed(answer.peer) then [Connect] else [Connect, Close])
      ensures history.phase == if fd < 0 then old(history.phase) else Next(old(history.phase), Connect)
    {
      answer := AnswerAt(asked);
      asked := asked + 1;
      assert history.log + [] == history.log;
      if !answer.From? {
        fd := -1;
        return;
      }
      var allowed := IsAllowed(answer.peer);
      fd := answer.fd;
      history.Note(Connect);
      if allowed {
        return;
      }
      fd := -1;
      history.Note(Close);
      assert history.log == old(history.log) + [Connect, Close];
    }

    /** One turn of the inner loop: a readable connection, none for good, or another turn. */
    method AwaitOne() returns (got: Got)
      requires fd < 0 && Valid() && Told()
      modifies this`fd, this`inShutdown, history, this`asked, this`looked
      ensures Valid() && Told() && history.inits == old(history.inits) && history.handed == old(history.handed)
      ensures old(history.log) <= history.log
      ensures (Here(), got) == TurnTo(old(Here())) && fd == (if got.Take? then got.fd else -1)
      ensures history.phase == if got.Take? then Next(old(history.phase), Connect) else old(history.phase)
    {
      var it := ShutdownAsked();
      if it {
        fd := -1;
        return Stop;
      }
      got := TakeAnswer();
    }

    /** What accept(2) answers, and the poll behind it. */
    method TakeAnswer() returns (got: Got)
      requires fd < 0 && Valid() && Told()
      modifies this`fd, this`inShutdown, history, this`asked, this`looked
      ensures Valid() && Told() && history.inits == old(history.inits) && history.handed == old(history.handed)
      ensures old(history.log) <= history.log
      ensures (Here(), got) == AnswerTo(old(Here())) && fd == (if got.Take? then got.fd else -1)
      ensures history.phase == if got.Take? then Next(old(history.phase), Connect) else old(history.phase)
    {
      var answer := AcceptOne();
      if answer.From? {
        if fd < 0 {
          return Again;
        }
        if answer.readable {   // poll(2), with a limit of five seconds
          return Take(fd);
        }
        CloseRequest(true, false);
        return Again;
      }
      var it := ShutdownAsked();
      return if it || answer.Hard? then Stop else Again;
    }

    /** The inner loop: a connection that becomes readable within five seconds, or none. */
    method AwaitConnection() returns (got: Got)
      requires fd < 0 && Valid() && Told()
      modifies this`fd, this`inShutdown, history, this`asked, this`looked
      ensures Valid() && Told() && history.inits == old(history.inits) && history.handed == old(history.handed)
      ensures old(history.log) <= history.log
      ensures (Here(), got) == WaitTo(old(Here())) && got != Again && fd == (if got.Take? then got.fd else -1)
      ensures history.phase == if got.Take? then Next(old(history.phase), Connect) else old(history.phase)
    {
      ghost var s := Here();
      while true
        invariant fd < 0 && Valid() && Told()
        invariant history.inits == old(history.inits) && history.handed == old(history.handed)
        invariant old(history.log) <= history.log && history.phase == old(history.phase)
        invariant WaitTo(Here()) == WaitTo(s)
        decreases if asked < |answers| then |answers| - asked else 0
      {
        got := AwaitOne();
        if got != Again {
          return;
        }
      }
    }

    /** The kept connection unless there is a shutdown, or the wait for another one. */
    ghost function ConnectTo(s: Seen, kept: int): (Seen, Got) {
      if kept < 0 then WaitTo(s)
      else
        var c := s.(looked := s.looked + 1, shut := s.shut || signals(s.looked));
        (c, if c.shut then Stop else Take(kept))
    }

    /** A connection to read from: the kept one, or a new one; none when shutdown is asked for or accept fails. */
    method Connected() returns (got: Got)
      requires Valid() && Told()
      modifies this`fd, this`inShutdown, history, this`asked, this`looked
      ensures Valid() && Told() && history.inits == old(history.inits) && history.handed == old(history.handed)
      ensures old(history.log) <= history.log
      ensures history.phase ==
        if old(fd) < 0 && got.Take? then Next(old(history.phase), Connect) else old(history.phase)
      ensures (Here(), got) == ConnectTo(old(Here()), old(fd)) && got != Again
      ensures fd == if got.Take? then got.fd else if old(fd) < 0 then -1 else old(fd)
    {
      if fd < 0 {
        got := AwaitConnection();
        return;
      }
      var it := ShutdownAsked();
      got := if it then Stop else Take(fd);
    }

    /** Reads one request: it is ready to be returned, or the connection is closed. */
    method ReadOne() returns (ok: bool)
      requires Valid() && Told() && fd >= 0 && history.phase in {Open, LeakedOpen, Broken}
      modifies this`fd, this`keep, history, this`taken
      ensures Valid() && Told() && history.inits == old(history.inits) + 1 && old(history.log) <= history.log
      ensures history.handed == old(history.handed) + (if ok then 1 else 0)
      ensures old(history.phase) == Open ==> history.phase == if ok then Serving else Idle
      ensures old(history.phase) != Open ==> history.phase == Broken
      ensures taken == old(taken) + 1 && Outcome(ok, keep) == ReadingAt(old(taken))
      ensures fd == if ok then old(fd) else -1
    {
      ok := ReadRequest();
      if ok {
        history.Note(Return);
      } else {
        CloseRequest(true, true);
      }
    }

    /** All readings fail but the last one, which succeeds exactly when a request is returned. */
    ghost predicate Reads(from: nat, to: nat, ok: bool) {
      && from <= to && (ok ==> from < to && ReadingAt(to - 1).ok)
      && forall n :: from <= n < to - (if ok then 1 else 0) ==> !ReadingAt(n).ok
    }

    /** One connection and a reading from it: a request, or -1 for good, or another try. */
    ghost function TryTo(s: Seen, kept: int): (Seen, Option<int>) {
      var (c, got) := ConnectTo(s, kept);
      var ret: int := if got.Take? then got.fd else -1;
      if ret < 0 then (c, Some(ret)) else (c.(taken := c.taken + 1), if ReadingAt(c.taken).ok then Some(ret) else None)
    }

    lemma {:induction false} TryDecreases(s: Seen, kept: int)
      ensures var (s', ret) := TryTo(s, kept);
        Ahead(s') <= Ahead(s) && ((if ret.Some? then ret.value >= 0 else kept < 0) ==> Ahead(s') < Ahead(s))
    {
      ConnectDecreases(s, kept);
    }

    /** The next request: try after try. */
    ghost function AcceptTo(s: Seen, kept: int): (Seen, int)
      decreases Ahead(s), kept >= 0
    {
      var (s', ret) := TryTo(s, kept);
      TryDecreases(s, kept);
      if ret.Some? then (s', ret.value) else AcceptTo(s', -1)
    }

    /** The next request, from the connection `kept` if that is one; shutdown and errors end the search at once. */
    ghost predicate Accepts(s: Seen, s': Seen, kept: int, ret: int) {
      && Looks(s, s') && Asks(s, s') && Reads(s.taken, s'.taken, ret >= 0)
      && (ret < 0 <==> GaveUp(s, s'))
      && (ret >= 0 && s.asked == s'.asked ==> ret == kept)
      && (ret >= 0 && s.asked < s'.asked ==> Usable(s'.asked - 1) && ret == AnswerAt(s'.asked - 1).fd)
    }

    lemma {:induction false} ConnectDecreases(s: Seen, kept: int)
      ensures var (c, got) := ConnectTo(s, kept);
        && got != Again && c.taken == s.taken && Looks(s, c) && Asks(s, c) && (got == Stop <==> GaveUp(s, c))
        && (got.Take? ==>
          if kept >= 0 then got.fd == kept && c.asked == s.asked
          else s.asked < c.asked && Usable(c.asked - 1) && got.fd == AnswerAt(c.asked - 1).fd)
        && Ahead(c) <= Ahead(s) && (got.Take? && kept < 0 ==> Ahead(c) < Ahead(s))
    {
      if kept < 0 {
        WaitWaits(s);
      }
    }

    /** Whatever happens, the next request is accepted as it should. */
    lemma {:induction false} AcceptAccepts(s: Seen, kept: int)
      ensures var (s', ret) := AcceptTo(s, kept); Accepts(s, s', kept, ret) && (ret >= 0 ==> Ahead(s') < Ahead(s))
      decreases Ahead(s), kept >= 0
    {
      ConnectDecreases(s, kept);
      TryDecreases(s, kept);
      var (c, got) := ConnectTo(s, kept);
      if got.Take? && !ReadingAt(c.taken).ok {
        var m := c.(taken := c.taken + 1);
        AcceptAccepts(m, -1);
        var (s', ret) := AcceptTo(m, -1);
        LooksOn(s, m, s');
        AsksOn(s, m, s');
      }
    }

    /** One turn of the outer loop. */
    method TryOne() returns (tried: Option<int>)
      requires Valid() && Told() && history.phase in {Idle, Open, Leaked, Broken}
      modifies this, history
      ensures Valid() && Told() && old(history.log) <= history.log
      ensures history.inits == old(history.inits) + (if tried == Some(-1) then 0 else 1)
      ensures history.handed == old(history.handed) + (if tried.Some? && tried.value >= 0 then 1 else 0)
      ensures history.phase ==
        if tried == Some(-1) then old(history.phase)
        else if old(history.phase) in {Leaked, Broken} then Broken
        else if tried.Some? then Serving
        else Idle
      ensures (Here(), tried) == TryTo(old(Here()), old(fd)) && (tried.Some? ==> tried.value >= -1)
      ensures fd ==
        if tried == Some(-1) then if old(fd) < 0 then -1 else old(fd)
        else if tried.Some? then tried.value
        else -1
    {
      var got := Connected();
      if got == Stop {
        return Some(-1);
      }
      var ok := ReadOne();
      return if ok then Some(fd) else None;
    }

    /**
     * fcgi_accept_request. From a lawful history the history stays lawful if and only if the last request
     * was not finished early: then its END_REQUEST would go out a second time on a kept connection, or the
     * next read would initialise a table that still exists. Without a request it ends for a shutdown or an error only,
     * and for each of them at once.
     */
    method Accept() returns (ret: int)
      requires Valid() && Told() && history.phase in {Idle, Serving, Ended, Leaked, Broken}
      modifies this, history
      ensures Valid() && Told() && old(history.log) <= history.log && history.inits >= old(history.inits)
      ensures old(history.phase) in {Idle, Serving} ==>
        history.phase == if ret >= 0 then Serving else if fd >= 0 then Open else Idle
      ensures old(history.phase) == Leaked ==>
        history.phase == if history.inits == old(history.inits) then Leaked else Broken
      ensures old(history.phase) in {Ended, Broken} ==> history.phase == Broken
      ensures ret >= 0 ==> ret == fd && history.inits > old(history.inits)
      ensures history.handed == old(history.handed) + (if ret >= 0 then 1 else 0)
      ensures (Here(), ret) ==
        AcceptTo(old(Here()), if old(fd) < 0 || (old(keep) && writes(old(flushed))) then old(fd) else -1)
      ensures looked > old(looked) && (inShutdown <==> old(inShutdown) || Signalled(old(looked), looked))
      ensures ret < 0 <==> inShutdown || Refused(old(asked), asked)
    {
      ghost var start := history.phase;
      Finish();
      ghost var s, kept := Here(), fd;
      AcceptAccepts(s, kept);
      while true
        invariant Valid() && Told() && old(history.log) <= history.log && history.inits >= old(history.inits)
        invariant history.handed == old(history.handed)
        invariant start in {Idle, Serving} ==> history.phase in {Idle, Open}
        invariant start == Leaked ==>
          history.phase == if history.inits == old(history.inits) then Leaked else Broken
        invariant start in {Ended, Broken} ==> history.phase == Broken
        invariant AcceptTo(Here(), fd) == AcceptTo(s, kept)
        decreases Left(), fd >= 0
      {
        TryDecreases(Here(), fd);
        var tried := TryOne();
        if tried.Some? {
          return tried.value;
        }
      }
    }

    /** fastcgi_finish_request, called by a script: the response ends, the table stays. */
    method FinishEarly()
      requires Valid() && Told() && history.phase in {Serving, Ended, Leaked, Broken}
      modifies this`fd, this`keep, this`flushed, history
      ensures Valid() && Told() && history.inits == old(history.inits) && history.handed == old(history.handed)
      ensures history.log == old(history.log) +
        (if old(fd) < 0 then [] else if fd < 0 then [EarlyEnd, Close] else [EarlyEnd])
      ensures old(fd) >= 0 && old(history.phase) == Serving ==> history.phase == if fd < 0 then Leaked else Ended
      ensures old(fd) < 0 ==> fd < 0 && history.phase == old(history.phase)
      ensures old(fd) >= 0 ==> fd == if old(keep) && writes(old(flushed)) then old(fd) else -1
      ensures old(history.phase) in {Ended, Broken} && old(fd) >= 0 ==> history.phase == Broken
    {
      assert history.log + [] == history.log;
      if fd >= 0 {
        FlushEnd(EarlyEnd);
        CloseRequest(false, false);
      }
    }

    /** The script of one request; it may finish its request early, and do so more than once. */
    method Execute(calls: nat)
      requires Valid() && Told() && fd >= 0 && history.phase in {Serving, Broken}
      modifies this`fd, this`keep, this`flushed, history
      ensures Valid() && Told() && history.inits == old(history.inits) && history.handed == old(history.handed)
      ensures old(history.phase) == Broken ==> history.phase == Broken
      ensures old(history.phase) == Serving ==>
        history.phase in (if calls == 0 then {Serving} else {Ended, Leaked, Broken})
    {
      var n := 0;
      while n < calls
        invariant n <= calls && Valid() && Told() && (n == 0 ==> fd >= 0)
        invariant history.inits == old(history.inits) && history.handed == old(history.handed)
        invariant old(history.phase) == Broken ==> history.phase == Broken
        invariant old(history.phase) == Serving ==>
          history.phase in (if n == 0 then {Serving} else {Ended, Leaked, Broken})
      {
        FinishEarly();
        n := n + 1;
      }
    }

    /** Some script among the first ones finished its request early. */
    ghost predicate SomeEarly(requests: nat) {
      exists n :: 0 <= n < requests && finishes(n) > 0
    }

    lemma {:induction false} SomeEarlyNext(requests: nat)
      ensures SomeEarly(requests + 1) <==> SomeEarly(requests) || finishes(requests) > 0
    {
    }

    /** The first requests could be started. */
    ghost predicate AllStarted(requests: nat) {
      forall n :: 0 <= n < requests ==> startups(n)
    }

    lemma {:induction false} AllStartedNext(requests: nat)
      ensures AllStarted(requests + 1) <==> AllStarted(requests) && startups(requests)
    {
    }

    /** What the summary of a history says of it. */
    lemma {:induction false} InTheEnd()
      requires Valid() && Told() && history.phase != Ended
      ensures Lawful(history.log) <==> Harmless(history.log)
      ensures EarlyEnd in history.log <==> history.early != Never
      ensures Count(history.log, Return) == history.handed
    {
      EarlyMeans(history.log);
    }

    /** Over any number of turns: no request is returned at or after a shutdown or an accept that failed for good. */
    ghost predicate Turns(s: Seen, s': Seen, ok: bool) {
      && Looks(s, s') && Asks(s, s') && s.taken <= s'.taken && (ok <==> !GaveUp(s, s'))
      && (ok ==> s.taken < s'.taken && ReadingAt(s'.taken - 1).ok)
    }

    lemma {:induction false} TurnsOn(s: Seen, m: Seen, s': Seen, ok: bool)
      requires Turns(s, m, true) && Turns(m, s', ok)
      ensures Turns(s, s', ok)
    {
      LooksOn(s, m, s');
      AsksOn(s, m, s');
    }

    /** One turn of the loop, or the reason to leave it. */
    method ServeOne(n: nat) returns (reason: Option<Reason>)
      requires Valid() && Told() && history.phase in {Idle, Serving, Ended, Leaked, Broken}
      modifies this, history
      ensures Valid() && Told() && reason != Some(MaxReached)
      ensures if reason.None? then history.phase in {Serving, Ended, Leaked, Broken} else history.phase != Ended
      ensures history.early != Never <==> old(history.early) != Never || (reason.None? && finishes(n) > 0)
      ensures history.handed == old(history.handed) + (if reason == Some(NoRequest) then 0 else 1)
      ensures reason.None? ==> startups(n) && Left() < old(Left())
      ensures reason == Some(StartupFailed) ==> !startups(n)
      ensures Turns(old(Here()), Here(), reason != Some(NoRequest))
    {
      AcceptTurns(Here(), if fd < 0 || (keep && writes(flushed)) then fd else -1);
      var ret := Accept();
      if ret < 0 {
        return Some(NoRequest);
      }
      reason := Treat(n);
    }

    /** What becomes of a request that was returned. */
    method Treat(n: nat) returns (reason: Option<Reason>)
      requires Valid() && Told() && fd >= 0 && history.phase in {Serving, Broken}
      modifies this`fd, this`keep, this`flushed, history
      ensures Valid() && Told() && reason == (if startups(n) then None else Some(StartupFailed))
      ensures if reason.None? then history.phase in {Serving, Ended, Leaked, Broken} else history.phase != Ended
      ensures history.early != Never <==> old(history.early) != Never || (reason.None? && finishes(n) > 0)
      ensures history.handed == old(history.handed)
    {
      if !startups(n) {      // php_request_startup
        Finish();
        return Some(StartupFailed);
      }
      Execute(finishes(n));
      return None;
    }

    lemma {:induction false} AcceptTurns(s: Seen, kept: int)
      ensures var (s', ret) := AcceptTo(s, kept); Turns(s, s', ret >= 0) && (ret >= 0 ==> Ahead(s') < Ahead(s))
    {
      AcceptAccepts(s, kept);
    }

    /** The end of the loop when enough requests were served. */
    method FinishLast()
      requires Valid() && Told() && history.phase in {Serving, Ended, Leaked, Broken}
      modifies this`fd, this`keep, this`flushed, history
      ensures Valid() && (Lawful(history.log) <==> Harmless(history.log))
      ensures EarlyEnd in history.log <==> old(history.early) != Never
      ensures Count(history.log, Return) == old(history.handed)
    {
      Finish();
      InTheEnd();
    }

    /** A turn of the loop, after those since s. */
    method ServeNext(n: nat, ghost s: Seen) returns (reason: Option<Reason>)
      requires Valid() && Told() && history.phase in {Idle, Serving, Ended, Leaked, Broken}
      requires (n == 0 && Here() == s) || Turns(s, Here(), true)
      modifies this, history
      ensures Valid() && Told() && reason != Some(MaxReached)
      ensures if reason.None? then history.phase in {Serving, Ended, Leaked, Broken} else history.phase != Ended
      ensures history.early != Never <==> old(history.early) != Never || (reason.None? && finishes(n) > 0)
      ensures history.handed == old(history.handed) + (if reason == Some(NoRequest) then 0 else 1)
      ensures reason.None? ==> startups(n) && Left() < old(Left())
      ensures reason == Some(StartupFailed) ==> !startups(n)
      ensures Turns(s, Here(), reason != Some(NoRequest))
    {
      ghost var m := Here();
      reason := ServeOne(n);
      if m != s {
        TurnsOn(s, m, Here(), reason != Some(NoRequest));
      }
    }

    /**
     * The loop of the worker, over every run. Its history keeps the discipline if and only if every early end of a
     * script closes the connection at once and no other request is read after it; it contains an early end if and only
     * if some script asked for one. The loop ends when a shutdown is asked for, accept fails, a request cannot be
     * started, or the requested number of them is served.
     */
    method Serve(maxRequests: nat) returns (reason: Reason, requests: nat)
      requires Valid() && history.log == [] && !inShutdown
      modifies this, history
      ensures Valid() && (Lawful(history.log) <==> Harmless(history.log))
      ensures EarlyEnd in history.log <==> SomeEarly(requests)
      ensures Count(history.log, Return) == requests + (if reason == StartupFailed then 1 else 0)
      ensures reason == MaxReached <==> maxRequests != 0 && requests == maxRequests
      ensures reason == StartupFailed ==> !startups(requests)
      ensures Turns(old(Here()), Here(), reason != NoRequest)
      ensures AllStarted(requests)
    {
      requests := 0;
      ghost var s := Here();
      assert PhaseOf([]) == Idle && EarlyOf([]) == Never && Count([], Return) == 0;
      while true
        invariant Valid() && Told() && history.phase in {Idle, Serving, Ended, Leaked, Broken}
        invariant history.early != Never <==> SomeEarly(requests)
        invariant history.handed == requests && (maxRequests != 0 ==> requests < maxRequests)
        invariant (requests == 0 && Here() == s) || Turns(s, Here(), true)
        invariant AllStarted(requests)
        decreases Left()
      {
        var left := ServeNext(requests, s);
        if left.Some? {
          InTheEnd();
          return left.value, requests;
        }
        SomeEarlyNext(requests);
        AllStartedNext(requests);
        requests := requests + 1;
        if maxRequests != 0 && requests == maxRequests {
          FinishLast();
          return MaxReached, requests;
        }
      }
    }
  }
}

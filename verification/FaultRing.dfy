/** The ring of fault times behind the emergency restart: fpm/fpm_children.c. */
module FaultRing {

  /** The j-th last fault, counted from 1; before there were that many, the zero the ring was filled with. */
  function Nth(history: seq<int>, j: nat): int
    requires j > 0
  {
    if j <= |history| then history[|history| - j] else 0
  }

  /** Each of the last n faults, as far as there are any, is within the interval before `now`. */
  ghost predicate AllRecent(history: seq<int>, n: nat, now: int, interval: int) {
    forall j :: 1 <= j <= n && j <= |history| ==> now - Nth(history, j) <= interval
  }

  class Ring {
    const threshold: nat
    const interval: int
    const lastFaults: array<int>
    var fault: nat                   // where the next fault time goes
    ghost var history: seq<int>      // all fault times

    ghost predicate Valid()
      reads this, lastFaults
    {
      && threshold > 0 && lastFaults.Length == threshold && fault < threshold
      && forall j :: 1 <= j <= threshold ==> lastFaults[Place(fault, j)] == Nth(history, j)
    }

    /** Where the j-th last fault time is. */
    function Place(at: nat, j: nat): int
    {
      if j <= at then at - j else at - j + threshold
    }

    constructor (threshold: nat, interval: int)
      requires threshold > 0
      ensures Valid() && history == [] && this.threshold == threshold && this.interval == interval && fresh(lastFaults)
    {
      this.threshold, this.interval := threshold, interval;
      lastFaults := new int[threshold](_ => 0);
      fault, history := 0, [];
    }

    method Store(now: int)
      requires Valid()
      modifies this`fault, this`history, lastFaults
      ensures Valid() && history == old(history) + [now]
    {
      ghost var before := fault;
      lastFaults[fault] := now;
      fault := fault + 1;
      if fault == threshold {
        fault := 0;
      }
      history := history + [now];
      forall j | 1 <= j <= threshold ensures lastFaults[Place(fault, j)] == Nth(history, j) {
        if j > 1 {
          assert Place(fault, j) == Place(before, j - 1) != before;
        }
      }
    }

    /**
     * A fault at `now`: a restart is requested if and only if the last `threshold` faults are all recent; as long
     * as there were fewer faults, the clock itself must still be within its first interval.
     */
    method Record(now: int) returns (restart: bool)
      requires Valid()
      modifies this`fault, this`history, lastFaults
      ensures Valid() && history == old(history) + [now]
      ensures restart <==> AllRecent(history, threshold, now, interval) && (|history| >= threshold || now <= interval)
      ensures now > interval ==> (restart <==> |history| >= threshold && AllRecent(history, threshold, now, interval))
    {
      Store(now);
      restart := true;
      var i := 0;
      while i < threshold && restart
        invariant 0 <= i <= threshold
        invariant restart ==> forall k :: 0 <= k < i ==> now - lastFaults[k] <= interval
        invariant !restart ==> exists k :: 0 <= k < threshold && now - lastFaults[k] > interval
        decreases threshold - i, restart
      {
        if now - lastFaults[i] > interval {
          restart := false;
        } else {
          i := i + 1;
        }
      }
      Window(now);
    }

    /** All entries of the ring are recent if and only if the window over the history is. */
    lemma {:induction false} Window(now: int)
      requires Valid() && history != []
      ensures (forall k :: 0 <= k < threshold ==> now - lastFaults[k] <= interval)
        <==> AllRecent(history, threshold, now, interval) && (|history| >= threshold || now <= interval)
    {
      var recent := forall k :: 0 <= k < threshold ==> now - lastFaults[k] <= interval;
      if recent {
        forall j | 1 <= j <= threshold ensures now - Nth(history, j) <= interval {
          assert 0 <= Place(fault, j) < threshold;
        }
        if |history| < threshold {
          assert Nth(history, threshold) == 0;
        }
      } else {
        var k :| 0 <= k < threshold && now - lastFaults[k] > interval;
        var j := if k < fault then fault - k else fault - k + threshold;
        assert Place(fault, j) == k;
        assert lastFaults[Place(fault, j)] == Nth(history, j);
        assert now - Nth(history, j) > interval && j <= threshold;
      }
    }
  }
}

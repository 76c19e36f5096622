/**
 * The countdown of the dial timer as a value: the committed total in
 * seconds, the number of ticks counted so far and whether the one-second
 * timer is running. `MainWindow` keeps these three in its fields
 * `_totalSeconds`, `_count` and `_timer`; this module states, one tick at a
 * time and over whole runs of ticks, what they go through.
 */
module Countdown {

  datatype Clock = Clock(total: int, count: int, running: bool)

  /** The state of a fresh window: nothing committed, no timer. */
  const Idle: Clock := Clock(0, 0, false)

  /**
   * Between ticks a running countdown has counted no further than its
   * total, and a stopped one has its count back at zero.
   */
  predicate Inv(c: Clock) {
    if c.running then 0 <= c.count <= c.total else c.count == 0
  }

  /** The seconds the dial shows at the next tick (before the count moves). */
  function Remaining(c: Clock): int {
    c.total - c.count
  }

  /** The next tick is the one that counts past the total. */
  predicate Expires(c: Clock) {
    c.running && c.total < c.count + 1
  }

  /**
   * Committing a new total `t` (`SetTimer`): the count is reset only when a
   * timer was running; in every case a new timer is started.
   */
  function Commit(c: Clock, t: int): (r: Clock)
    ensures r.total == t && r.running
    ensures Inv(c) && 0 <= t ==> Inv(r) && r.count == 0
  {
    Clock(t, if c.running then 0 else c.count, true)
  }

  /**
   * One elapse of the one-second timer (`OnTimerElapsed`). A stopped timer
   * raises no event, so it leaves the clock as it is.
   */
  function Tick(c: Clock): (r: Clock)
    ensures r.total == c.total
    ensures Inv(c) ==> Inv(r)
    ensures c.running ==> (r.running <==> !Expires(c))
  {
    if !c.running then c
    else
      var n := c.count + 1;
      if c.total < n then Clock(c.total, 0, false) else Clock(c.total, n, true)
  }

  /** The clock after `n` consecutive ticks. */
  function Ticks(c: Clock, n: nat): Clock
    decreases n
  {
    if n == 0 then c else Ticks(Tick(c), n - 1)
  }

  /** How many of those `n` ticks expired the countdown. */
  function Expiries(c: Clock, n: nat): nat
    decreases n
  {
    if n == 0 then 0 else (if Expires(c) then 1 else 0) + Expiries(Tick(c), n - 1)
  }

  // ---------------------------------------------------------------------------
  // One tick
  // ---------------------------------------------------------------------------

  /** A tick that does not expire counts exactly one more and keeps the total. */
  lemma TickAdvances(c: Clock)
    requires c.running && !Expires(c)
    ensures Tick(c) == Clock(c.total, c.count + 1, true)
  {
  }

  /** The expiring tick resets the count and stops the timer. */
  lemma TickExpires(c: Clock)
    requires Expires(c)
    ensures Tick(c) == Clock(c.total, 0, false)
  {
  }

  /** What a running tick renders is never negative and never above the total. */
  lemma RemainingInRange(c: Clock)
    requires Inv(c) && c.running
    ensures 0 <= Remaining(c) <= c.total
  {
  }

  /**
   * Committing a new total from any reachable state leaves exactly one
   * countdown, at count zero: the reset in `SetTimer` is only needed when a
   * timer runs, because a stopped clock is already at zero.
   */
  lemma CommitResets(c: Clock, t: int)
    requires Inv(c) && 0 <= t
    ensures Commit(c, t) == Clock(t, 0, true)
  {
  }

  // ---------------------------------------------------------------------------
  // Runs of ticks
  // ---------------------------------------------------------------------------

  /** The invariant holds after any number of ticks. */
  lemma {:induction false} TicksKeepInv(c: Clock, n: nat)
    requires Inv(c)
    ensures Inv(Ticks(c, n))
    decreases n
  {
    if n > 0 {
      TicksKeepInv(Tick(c), n - 1);
    }
  }

  /** Once stopped, no further tick changes anything or expires again. */
  lemma {:induction false} StoppedIsFinal(c: Clock, n: nat)
    requires !c.running
    ensures Ticks(c, n) == c && Expiries(c, n) == 0
    decreases n
  {
    if n > 0 {
      StoppedIsFinal(Tick(c), n - 1);
    }
  }

  /** Up to the remaining time, each tick just counts one more. */
  lemma {:induction false} CountingPhase(c: Clock, n: nat)
    requires Inv(c) && c.running && n <= Remaining(c)
    ensures Ticks(c, n) == Clock(c.total, c.count + n, true)
    ensures Expiries(c, n) == 0
    decreases n
  {
    if n > 0 {
      TickAdvances(c);
      CountingPhase(Tick(c), n - 1);
    }
  }

  /**
   * Any run longer than the remaining time has expired exactly once and
   * ends stopped at count zero.
   */
  lemma {:induction false} ExpiredPhase(c: Clock, n: nat)
    requires Inv(c) && c.running && n > Remaining(c)
    ensures Ticks(c, n) == Clock(c.total, 0, false)
    ensures Expiries(c, n) == 1
    decreases n
  {
    if Expires(c) {
      TickExpires(c);
      StoppedIsFinal(Tick(c), n - 1);
    } else {
      TickAdvances(c);
      ExpiredPhase(Tick(c), n - 1);
    }
  }

  /**
   * From a commit of `t >= 0` seconds: ticks 1..t count up and the dial
   * shows t, t-1, ..., 1; the (t+1)-th tick (which shows 0) is the one that
   * expires, and it is the only expiry however long the run continues.
   */
  lemma CountdownFromCommit(c: Clock, t: int, n: nat)
    requires Inv(c) && 0 <= t
    ensures n <= t ==> Ticks(Commit(c, t), n) == Clock(t, n, true) && Expiries(Commit(c, t), n) == 0
    ensures n <= t ==> Remaining(Ticks(Commit(c, t), n)) == t - n
    ensures n == t ==> Expires(Ticks(Commit(c, t), n))
    ensures n > t ==> Ticks(Commit(c, t), n) == Clock(t, 0, false) && Expiries(Commit(c, t), n) == 1
  {
    CommitResets(c, t);
    if n <= t {
      CountingPhase(Commit(c, t), n);
    } else {
      ExpiredPhase(Commit(c, t), n);
    }
  }

  /**
   * A commit made while an earlier countdown is under way replaces it: the
   * old count is dropped and one countdown of the new total remains.
   */
  lemma Preempt(c: Clock, t1: int, k: nat, t2: int)
    requires Inv(c) && 0 <= t1 && 0 <= t2
    ensures Commit(Ticks(Commit(c, t1), k), t2) == Clock(t2, 0, true)
  {
    TicksKeepInv(Commit(c, t1), k);
    CommitResets(Ticks(Commit(c, t1), k), t2);
  }

  /**
   * A 5 min 30 s countdown: after 330 ticks it is still running (count 330,
   * dial at 00:00); the 331st tick expires it.
   */
  lemma FiveAndAHalfMinutes()
    ensures Ticks(Commit(Idle, 330), 330) == Clock(330, 330, true)
    ensures Ticks(Commit(Idle, 330), 331) == Clock(330, 0, false)
    ensures Expiries(Commit(Idle, 330), 331) == 1
  {
    CountdownFromCommit(Idle, 330, 330);
    CountdownFromCommit(Idle, 330, 331);
  }
}

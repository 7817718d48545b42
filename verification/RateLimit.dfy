/** ratelimit/time_period.go. */
module RateLimit {
  // Over a virtual clock in nanoseconds. The mutex makes the calls of Take follow one another; timers may
  // fire late, never early. What is shown: how far apart calls are granted and return, whatever was
  // cancelled in between, and how long a call may have to sleep.

  datatype State = State(started: bool, last: int, sleepFor: int)
  {
    /** The nominal time of the latest request. */
    function Nominal(): int { last + sleepFor }
  }

  datatype Config = Config(perRequest: nat, maxSlack: int)

  /** The periods New derives from a rate; Go's division truncates toward zero. */
  function ConfigOf(rps: nat): (c: Config)
    requires rps > 0
    ensures c.maxSlack <= 0
  {
    Config(1_000_000_000 / rps, -(10_000_000_000 / rps))
  }

  /** The longest period that fits rps times into a second, and a slack of ten such, each to the nanosecond. */
  lemma PeriodInNumbers(rps: nat, c: Config)
    requires rps > 0 && c == ConfigOf(rps)
    ensures c.perRequest * rps <= 1_000_000_000 < (c.perRequest + 1) * rps
    ensures -c.maxSlack * rps <= 10_000_000_000 < (-c.maxSlack + 1) * rps
  {
  }

  const Initial := State(false, 0, 0)

  function Max(a: int, b: int): int { if a < b then b else a }

  /** Take called at time cur; cancelled says which channel is ready first if it has to sleep. */
  function TakeNext(c: Config, s: State, cur: int, cancelled: bool): (State, bool) {
    if !s.started then (State(true, cur, 0), true)
    else
      var sleep := Max(s.sleepFor + (c.perRequest - (cur - s.last)), c.maxSlack);
      if sleep > 0 && cancelled then (State(true, cur, sleep), false)
      else if sleep > 0 then (State(true, cur + sleep, 0), true)
      else (State(true, cur, sleep), true)
  }

  class TimePeriod {
    var started: bool
    var last: int
    var sleepFor: int
    const config: Config

    function Snapshot(): State
      reads this
    {
      State(started, last, sleepFor)
    }

    constructor New(rps: nat)
      requires rps > 0
      ensures Snapshot() == Initial && config == ConfigOf(rps)
      ensures var c := config;
              && c.perRequest * rps <= 1_000_000_000 < (c.perRequest + 1) * rps
              && -c.maxSlack * rps <= 10_000_000_000 < (-c.maxSlack + 1) * rps
    {
      started, last, sleepFor := false, 0, 0;
      config := ConfigOf(rps);
      new;
      PeriodInNumbers(rps, config);
    }

    method Take(cur: int, cancelled: bool) returns (ok: bool)
      modifies this
      ensures (Snapshot(), ok) == TakeNext(config, old(Snapshot()), cur, cancelled)
    {
      if !started {
        started, last := true, cur;
        sleepFor := 0;
        return true;
      }
      sleepFor := sleepFor + (config.perRequest - (cur - last));
      last := cur;
      if sleepFor < config.maxSlack {
        sleepFor := config.maxSlack;
      }
      if sleepFor > 0 {
        if cancelled { return false; }
        last := cur + sleepFor;
        sleepFor := 0;
      }
      return true;
    }
  }

  // ---- Histories

  /** A call of Take: when it got the lock, whether cancellation would win, when it returned. */
  datatype Call = Call(cur: int, cancelled: bool, back: int)

  function After(c: Config, calls: seq<Call>): State {
    if calls == [] then Initial
    else TakeNext(c, After(c, calls[..|calls| - 1]), calls[|calls| - 1].cur, calls[|calls| - 1].cancelled).0
  }

  function Granted(c: Config, calls: seq<Call>, i: nat): bool
    requires i < |calls|
  {
    TakeNext(c, After(c, calls[..i]), calls[i].cur, calls[i].cancelled).1
  }

  /** The nominal time of call i, and the time at which it is nominally granted. */
  function Due(c: Config, calls: seq<Call>, i: nat): int
    requires i < |calls|
  {
    After(c, calls[..i + 1]).Nominal()
  }

  function GrantTime(c: Config, calls: seq<Call>, i: nat): int
    requires i < |calls|
  {
    Max(calls[i].cur, Due(c, calls, i))
  }

  /** Calls follow one another, and a granted call does not return before its time. */
  predicate Possible(c: Config, calls: seq<Call>) {
    && (forall i | 0 <= i < |calls| :: calls[i].cur <= calls[i].back)
    && (forall i, j | 0 <= i < j < |calls| :: calls[i].back <= calls[j].cur)
    && (forall i | 0 <= i < |calls| :: Granted(c, calls, i) ==> GrantTime(c, calls, i) <= calls[i].back)
  }

  /** Cancelled or not, a call moves the nominal time one period on, but not further back than the
      slack allows. */
  lemma Recurrence(c: Config, calls: seq<Call>, i: nat)
    requires c.maxSlack <= 0 && i < |calls|
    ensures i == 0 ==> Due(c, calls, i) == calls[i].cur
    ensures i > 0 ==> Due(c, calls, i) == Max(Due(c, calls, i - 1) + c.perRequest, calls[i].cur + c.maxSlack)
  {
    assert calls[..i + 1][..i] == calls[..i];
    assert calls[..i + 1][i] == calls[i];
    if i == 0 {
      assert calls[..0] == [];
    } else {
      Started(c, calls[..i]);
      assert Due(c, calls, i - 1) == After(c, calls[..i]).Nominal();
    }
  }

  lemma Started(c: Config, calls: seq<Call>)
    requires calls != []
    ensures After(c, calls).started
  {
  }

  /** One period more. */
  lemma OneMorePeriod(a: int, b: int, d: int, k: nat, m: nat, p: nat)
    requires b >= a + k * p && d >= b + p && m == k + 1
    ensures d >= a + m * p
  {
  }

  lemma {:induction false} DueSpacing(c: Config, calls: seq<Call>, i: nat, j: nat)
    requires c.maxSlack <= 0 && i <= j < |calls|
    ensures Due(c, calls, j) >= Due(c, calls, i) + (j - i) * c.perRequest
    decreases j
  {
    hide Due;
    if i < j {
      DueSpacing(c, calls, i, j - 1);
      Recurrence(c, calls, j);
      OneMorePeriod(Due(c, calls, i), Due(c, calls, j - 1), Due(c, calls, j), j - 1 - i, j - i, c.perRequest);
    }
  }

  lemma DueFloor(c: Config, calls: seq<Call>, i: nat)
    requires c.maxSlack <= 0 && i < |calls|
    ensures Due(c, calls, i) >= calls[i].cur + c.maxSlack
  {
    Recurrence(c, calls, i);
  }

  /** Rate bound: any two calls, however many were cancelled in between, are nominally granted at
      least a period per call apart, but for the slack. */
  lemma RateBound(c: Config, calls: seq<Call>, i: nat, j: nat)
    requires c.maxSlack <= 0 && i < j < |calls|
    ensures (j - i) * c.perRequest <= GrantTime(c, calls, j) - GrantTime(c, calls, i) - c.maxSlack
  {
    DueSpacing(c, calls, i, j);
    DueFloor(c, calls, i);
    hide Due;
  }

  /** Rate bound on actual return times, however late timers fire: one period is lost, since a call
      may be delayed after it has been granted. */
  lemma ReturnBound(c: Config, calls: seq<Call>, i: nat, j: nat)
    requires c.maxSlack <= 0 && i < j < |calls| && Possible(c, calls) && Granted(c, calls, j)
    ensures (j - i - 1) * c.perRequest <= calls[j].back - calls[i].back - c.maxSlack
  {
    DueSpacing(c, calls, i + 1, j);
    DueFloor(c, calls, i + 1);
    hide Due;
  }

  /** Two calls granted k calls apart by a limiter for rps requests a second: in a window of real
      time there are at most ten periods' worth of extra requests. */
  lemma BurstBound(rps: nat, calls: seq<Call>, i: nat, j: nat)
    requires rps > 0 && i < j < |calls|
    requires Possible(ConfigOf(rps), calls) && Granted(ConfigOf(rps), calls, j)
    ensures (j - i - 1) * (1_000_000_000 / rps) <= calls[j].back - calls[i].back + 10_000_000_000 / rps
  {
    ReturnBound(ConfigOf(rps), calls, i, j);
  }

  /** A call is nominally more than a period away exactly when the call before it is due later than
      this one is made, cancelled or not. */
  lemma LongSleepIff(c: Config, calls: seq<Call>, i: nat)
    requires c.maxSlack <= 0 && 0 < i < |calls|
    ensures GrantTime(c, calls, i) - calls[i].cur > c.perRequest <==> Due(c, calls, i - 1) > calls[i].cur
  {
    Recurrence(c, calls, i);
  }

  /** The first call, and any call after a granted one, is nominally at most a period away when it
      starts to sleep; it is granted unless it is cancelled, and a granted call leaves no debt behind. */
  lemma SleepBound(c: Config, calls: seq<Call>, i: nat)
    requires c.maxSlack <= 0 && i < |calls| && Possible(c, calls)
    ensures i == 0 || Granted(c, calls, i - 1) ==> GrantTime(c, calls, i) - calls[i].cur <= c.perRequest
    ensures !calls[i].cancelled ==> Granted(c, calls, i)
    ensures Granted(c, calls, i) ==>
              After(c, calls[..i + 1]).sleepFor <= 0 && After(c, calls[..i + 1]).last <= calls[i].back
  {
    assert calls[..i + 1][..i] == calls[..i];
    assert calls[..i + 1][i] == calls[i];
    Recurrence(c, calls, i);
    if i > 0 { LongSleepIff(c, calls, i); }
  }

  /** A call is granted exactly if it is not cancelled or need not wait. */
  lemma GrantedIff(c: Config, calls: seq<Call>, i: nat)
    requires c.maxSlack <= 0 && i < |calls|
    ensures Granted(c, calls, i) <==> !calls[i].cancelled || Due(c, calls, i) <= calls[i].cur
  {
    assert calls[..i + 1][..i] == calls[..i];
    assert calls[..i + 1][i] == calls[i];
    if i == 0 {
      assert calls[..0] == [];
    } else {
      Started(c, calls[..i]);
    }
  }

  /** From when on call j, made k calls before call i, keeps call i waiting: a period for each of them, less
      the slack unless it is the first call of all. */
  function Earliest(c: Config, calls: seq<Call>, k: nat, i: nat): int
    requires k <= i < |calls|
  {
    calls[k].cur + (if k == 0 then 0 else c.maxSlack) + (i - k) * c.perRequest
  }

  /** The schedule exactly: a call is due when the last of the calls up to it allows it, and not later. */
  lemma {:induction false} DueExactly(c: Config, calls: seq<Call>, i: nat)
    requires c.maxSlack <= 0 && i < |calls|
    ensures forall k | 0 <= k <= i :: Earliest(c, calls, k, i) <= Due(c, calls, i)
    ensures exists k :: 0 <= k <= i && Earliest(c, calls, k, i) == Due(c, calls, i)
    decreases i
  {
    hide Due, Earliest;
    Recurrence(c, calls, i);
    EarliestNow(c, calls, i);
    if i > 0 {
      DueExactly(c, calls, i - 1);
      forall k: nat | k < i ensures Earliest(c, calls, k, i) == Earliest(c, calls, k, i - 1) + c.perRequest {
        EarliestLater(c, calls, k, i, i - 1 - k, i - k);
      }
      var k :| 0 <= k <= i - 1 && Earliest(c, calls, k, i - 1) == Due(c, calls, i - 1);
      assert Earliest(c, calls, k, i) == Due(c, calls, i) || Earliest(c, calls, i, i) == Due(c, calls, i);
    }
  }

  lemma EarliestNow(c: Config, calls: seq<Call>, i: nat)
    requires i < |calls|
    ensures Earliest(c, calls, i, i) == calls[i].cur + if i == 0 then 0 else c.maxSlack
  {
  }

  lemma EarliestLater(c: Config, calls: seq<Call>, k: nat, i: nat, m: nat, n: nat)
    requires k < i < |calls| && m == i - 1 - k && n == m + 1
    ensures Earliest(c, calls, k, i) == Earliest(c, calls, k, i - 1) + c.perRequest
  {
    assert n * c.perRequest == m * c.perRequest + c.perRequest;
  }

  /** Debt: each call since the last granted one adds at most a period to the sleep. */
  lemma {:induction false} DebtBound(c: Config, calls: seq<Call>, k: nat, i: nat)
    requires c.maxSlack <= 0 && k <= i < |calls| && Possible(c, calls)
    requires k == 0 || Granted(c, calls, k - 1)
    ensures GrantTime(c, calls, i) - calls[i].cur <= (i - k + 1) * c.perRequest
    decreases i
  {
    hide Due, Granted, Possible, GrantTime;
    if i == k {
      SleepBound(c, calls, i);
    } else {
      DebtBound(c, calls, k, i - 1);
      OneCallMore(c, calls, i, i - k, i - k + 1);
    }
  }

  lemma OneCallMore(c: Config, calls: seq<Call>, i: nat, k: nat, m: nat)
    requires c.maxSlack <= 0 && 0 < i < |calls| && Possible(c, calls) && m == k + 1
    requires GrantTime(c, calls, i - 1) - calls[i - 1].cur <= k * c.perRequest
    ensures GrantTime(c, calls, i) - calls[i].cur <= m * c.perRequest
  {
    hide Due, Granted, Possible;
    Recurrence(c, calls, i);
    InOrder(c, calls, i);
    DebtStep(Due(c, calls, i - 1), calls[i - 1].cur, Due(c, calls, i), calls[i].cur, c, k, m);
  }

  lemma InOrder(c: Config, calls: seq<Call>, i: nat)
    requires 0 < i < |calls| && Possible(c, calls)
    ensures calls[i - 1].cur <= calls[i].cur
  {
    hide Granted, GrantTime;
    assert calls[i - 1].cur <= calls[i - 1].back;
  }

  lemma DebtStep(was: int, before: int, due: int, cur: int, c: Config, k: nat, m: nat)
    requires was - before <= k * c.perRequest && before <= cur && m == k + 1
    requires due == Max(was + c.perRequest, cur + c.maxSlack) && c.maxSlack <= 0
    ensures Max(cur, due) - cur <= m * c.perRequest
  {
    OnePeriodMore(was - before, k, m, c.perRequest);
  }

  lemma OnePeriodMore(debt: int, k: nat, m: nat, p: nat)
    requires debt <= k * p && m == k + 1
    ensures debt + p <= m * p && 0 <= m * p
  {
  }

  /** n calls at once, which are cancelled if they have to sleep, and one that is not. */
  function Impatient(n: nat, p: nat): seq<Call> { seq(n, _ => Call(0, true, 0)) + [Call(0, false, n * p)] }

  lemma {:induction false} ImpatientDue(c: Config, n: nat, j: nat)
    requires c.maxSlack <= 0 && j <= n
    ensures Due(c, Impatient(n, c.perRequest), j) == j * c.perRequest
    decreases j
  {
    var calls := Impatient(n, c.perRequest);
    assert calls[j].cur == 0;
    Recurrence(c, calls, j);
    if j > 0 {
      ImpatientDue(c, n, j - 1);
      hide Due;
      assert (j - 1) * c.perRequest + c.perRequest == j * c.perRequest;
      OnePeriodMore((j - 1) * c.perRequest, j - 1, j, c.perRequest);
    }
  }

  lemma ImpatientGranted(c: Config, n: nat, j: nat)
    requires c.maxSlack <= 0 && c.perRequest > 0 && j <= n
    ensures Granted(c, Impatient(n, c.perRequest), j) <==> j == 0 || j == n
  {
    var calls := Impatient(n, c.perRequest);
    if j == 0 {
      assert calls[..0] == [];
    } else {
      Started(c, calls[..j]);
      assert calls[..j] == calls[..(j - 1) + 1];
      ImpatientDue(c, n, j - 1);
      OnePeriodMore((j - 1) * c.perRequest, j - 1, j, c.perRequest);
      hide After, Impatient;
    }
  }

  lemma ImpatientInTime(c: Config, n: nat, j: nat, w: nat)
    requires c.maxSlack <= 0 && c.perRequest > 0 && j <= n && w == n * c.perRequest
    ensures var calls := Impatient(n, c.perRequest);
            && calls[j] == Call(0, j < n, if j < n then 0 else w)
            && (Granted(c, calls, j) ==> GrantTime(c, calls, j) <= calls[j].back)
  {
    ImpatientGranted(c, n, j);
    ImpatientDue(c, n, j);
    hide Due, Granted;
  }

  /** The bound is reached: the call after any number of cancelled ones sleeps a period for each of
      them and one for itself. */
  lemma CancelledCallsAddUp(c: Config, n: nat)
    requires c.maxSlack <= 0 && c.perRequest > 0 && n > 0
    ensures var calls := Impatient(n, c.perRequest);
            && Possible(c, calls)
            && (forall j | 0 <= j < n :: Granted(c, calls, j) <==> j == 0)
            && GrantTime(c, calls, n) - calls[n].cur == n * c.perRequest
  {
    hide Due, Granted, GrantTime, Impatient;
    var calls, w := Impatient(n, c.perRequest), n * c.perRequest;
    ImpatientPossible(c, n, calls, w);
    forall j: nat | j < n ensures Granted(c, calls, j) <==> j == 0 { ImpatientGranted(c, n, j); }
    LastWait(c, n, calls, w);
  }

  lemma ImpatientPossible(c: Config, n: nat, calls: seq<Call>, w: nat)
    requires c.maxSlack <= 0 && c.perRequest > 0 && w == n * c.perRequest && calls == Impatient(n, c.perRequest)
    ensures Possible(c, calls) && |calls| == n + 1
  {
    hide Due, Granted, GrantTime;
    assert |calls| == n + 1;
    hide Impatient;
    forall j: nat | j <= n
      ensures calls[j] == Call(0, j < n, if j < n then 0 else w)
      ensures Granted(c, calls, j) ==> GrantTime(c, calls, j) <= calls[j].back
    {
      ImpatientInTime(c, n, j, w);
    }
  }

  lemma LastWait(c: Config, n: nat, calls: seq<Call>, w: nat)
    requires c.maxSlack <= 0 && c.perRequest > 0 && w == n * c.perRequest && calls == Impatient(n, c.perRequest)
    ensures GrantTime(c, calls, n) - calls[n].cur == w
  {
    hide Due, Granted;
    ImpatientDue(c, n, n);
    ImpatientInTime(c, n, n, w);
  }
}

/** limiter/limiter.go under concurrency. */
module Limiter {
  // Workers that call More until it returns false, and goroutines that call Stop, share one Run.
  // Every atomic load, store, swap and decrement is one step, and steps interleave in any order.
  // What Take does is left open: More ignores its result.

  /** Where a worker is. Ready: about to load unlimited. TakingUnlimited: in Take, will return true.
      Checking: about to load requestsLeft. Taking: in Take. Decrementing: about to decrement.
      Finished: More returned false. */
  datatype WorkerPc = Ready | TakingUnlimited | Checking | Taking | Decrementing | Finished

  /** trues counts the calls to More that returned true; late says that the current call began after
      a Stop had finished; afterLift counts trues returned after a Stop cleared unlimited. */
  datatype Worker = Worker(pc: WorkerPc, trues: nat, late: bool, afterLift: nat)

  /** Before the swap; won it; stored 0; cleared unlimited; closed the channel; lost the swap. */
  datatype StopPc = Starting | Won | Zeroed | Lifted | Closed | Lost

  /** The shared fields, the goroutines, and a history: who won the swap (-1: nobody), how often the
      channel was closed, how many decrements after the zero store yielded true, and how many
      calls of More that began after a finished Stop returned true. */
  datatype State = State(
    unlimited: bool, left: int, cancelled: bool, closes: nat,
    workers: seq<Worker>, stops: seq<StopPc>,
    winner: int, trueAfterZero: nat, trueAfterStop: nat)

  datatype Action = MoreStep(worker: nat) | StopStep(stop: nat)

  predicate Enabled(s: State, a: Action) {
    match a
    case MoreStep(i) => i < |s.workers| && s.workers[i].pc != Finished
    case StopStep(j) => j < |s.stops| && s.stops[j] != Closed && s.stops[j] != Lost
  }

  predicate HasZeroed(s: State) { 0 <= s.winner < |s.stops| && s.stops[s.winner] in {Zeroed, Lifted, Closed} }
  predicate HasLifted(s: State) { 0 <= s.winner < |s.stops| && s.stops[s.winner] in {Lifted, Closed} }

  function SetWorker(s: State, i: nat, w: Worker): State
    requires i < |s.workers|
  {
    s.(workers := s.workers[i := w])
  }

  /** More returns true to worker i. */
  function Grant(s: State, i: nat): State
    requires i < |s.workers|
  {
    var w := s.workers[i];
    SetWorker(s, i, Worker(Ready, w.trues + 1, false, if HasLifted(s) then w.afterLift + 1 else w.afterLift))
      .(trueAfterStop := s.trueAfterStop + if w.late then 1 else 0)
  }

  /** One atomic step of More. */
  function MoreNext(s: State, i: nat): State
    requires Enabled(s, MoreStep(i))
  {
    var w := s.workers[i];
    match w.pc
    case Ready => SetWorker(s, i, w.(pc := if s.unlimited then TakingUnlimited else Checking, late := s.closes > 0))
    case TakingUnlimited => Grant(s, i)
    case Checking => SetWorker(s, i, w.(pc := if s.left >= 0 then Taking else Decrementing))
    case Taking => SetWorker(s, i, w.(pc := Decrementing))
    case Decrementing =>
      var t := s.(left := s.left - 1);
      if t.left >= 0 then Grant(t.(trueAfterZero := s.trueAfterZero + if HasZeroed(s) then 1 else 0), i)
      else SetWorker(t, i, w.(pc := Finished))
    case Finished => s
  }

  /** One atomic step of Stop. */
  function StopNext(s: State, j: nat): State
    requires Enabled(s, StopStep(j))
  {
    match s.stops[j]
    case Starting =>
      if s.cancelled then s.(stops := s.stops[j := Lost])
      else s.(cancelled := true, winner := j, stops := s.stops[j := Won])
    case Won => s.(left := 0, stops := s.stops[j := Zeroed])
    case Zeroed => s.(unlimited := false, stops := s.stops[j := Lifted])
    case Lifted => s.(closes := s.closes + 1, stops := s.stops[j := Closed])
    case _ => s
  }

  function Next(s: State, a: Action): State
    requires Enabled(s, a)
  {
    match a
    case MoreStep(i) => MoreNext(s, i)
    case StopStep(j) => StopNext(s, j)
  }

  /** limiter.New, with the goroutines about to start. */
  function Start(maxRequests: nat, workers: nat, stops: nat): State {
    State(maxRequests == 0, maxRequests, false, 0,
          seq(workers, _ => Worker(Ready, 0, false, 0)), seq(stops, _ => Starting), -1, 0, 0)
  }

  // ---- The invariant

  function Trues(ws: seq<Worker>): nat {
    if ws == [] then 0 else Trues(ws[..|ws| - 1]) + ws[|ws| - 1].trues
  }

  function Done(ws: seq<Worker>): nat {
    if ws == [] then 0 else Done(ws[..|ws| - 1]) + if ws[|ws| - 1].pc == Finished then 1 else 0
  }

  function Positive(n: int): nat { if n > 0 then n else 0 }

  /** At most one goroutine is past the swap, and how far it is shows in the shared fields. */
  predicate StopInvariant(s: State) {
    && -1 <= s.winner < |s.stops|
    && (s.cancelled <==> s.winner >= 0)
    && (forall j | 0 <= j < |s.stops| && j != s.winner :: s.stops[j] == Starting || s.stops[j] == Lost)
    && (s.winner >= 0 ==> s.stops[s.winner] in {Won, Zeroed, Lifted, Closed})
    && s.closes == (if s.winner >= 0 && s.stops[s.winner] == Closed then 1 else 0)
    && (HasZeroed(s) ==> s.left <= 0)
    && (HasLifted(s) ==> !s.unlimited)
    && s.trueAfterZero == 0 && s.trueAfterStop == 0
  }

  predicate WorkerInvariant(s: State, w: Worker) {
    && (w.late ==> HasLifted(s) && w.pc != TakingUnlimited)
    && w.afterLift + (if w.pc == TakingUnlimited then 1 else 0) <= 1
    && (w.afterLift > 0 ==> HasLifted(s))
  }

  /** With a limit n: the budget left and the trues given out never exceed n together, and are
      exactly n as long as nobody stopped the run. */
  predicate BudgetInvariant(s: State, n: nat) {
    && !s.unlimited
    && (forall i | 0 <= i < |s.workers| :: s.workers[i].pc != TakingUnlimited && s.workers[i].afterLift == 0)
    && Trues(s.workers) + Positive(s.left) <= n
    && (!HasZeroed(s) ==> Trues(s.workers) + Positive(s.left) == n)
    && (!HasZeroed(s) && Done(s.workers) > 0 ==> s.left < 0)
  }

  predicate Invariant(s: State, n: nat) {
    && StopInvariant(s)
    && (forall i | 0 <= i < |s.workers| :: WorkerInvariant(s, s.workers[i]))
    && s.left + Done(s.workers) >= 0
    && s.left <= n
    && (n > 0 ==> BudgetInvariant(s, n))
  }

  lemma {:induction false} TruesUpdate(ws: seq<Worker>, i: nat, w: Worker)
    requires i < |ws|
    ensures Trues(ws[i := w]) == Trues(ws) - ws[i].trues + w.trues
    ensures Done(ws[i := w]) == Done(ws) - (if ws[i].pc == Finished then 1 else 0) + (if w.pc == Finished then 1 else 0)
  {
    var n := |ws| - 1;
    var us := ws[i := w];
    if i == n {
      assert us[..n] == ws[..n];
    } else {
      assert us[..n] == ws[..n][i := w];
      TruesUpdate(ws[..n], i, w);
    }
  }

  lemma {:induction false} FreshWorkers(k: nat)
    ensures Trues(seq(k, _ => Worker(Ready, 0, false, 0))) == 0
    ensures Done(seq(k, _ => Worker(Ready, 0, false, 0))) == 0
  {
    if k > 0 {
      var ws := seq(k, _ => Worker(Ready, 0, false, 0));
      assert ws[..k - 1] == seq(k - 1, _ => Worker(Ready, 0, false, 0));
      FreshWorkers(k - 1);
    }
  }

  lemma StartInvariant(n: nat, workers: nat, stops: nat)
    ensures Invariant(Start(n, workers, stops), n)
  {
    FreshWorkers(workers);
  }

  lemma StopKeepsWorkers(s: State, j: nat, w: Worker)
    requires StopInvariant(s) && WorkerInvariant(s, w) && Enabled(s, StopStep(j))
    ensures WorkerInvariant(StopNext(s, j), w)
  {
  }

  lemma StopKeepsStop(s: State, j: nat)
    requires StopInvariant(s) && Enabled(s, StopStep(j))
    ensures StopInvariant(StopNext(s, j))
    ensures HasZeroed(s) ==> HasZeroed(StopNext(s, j))
    ensures s.stops[j] != Won ==> (HasZeroed(s) <==> HasZeroed(StopNext(s, j)))
  {
  }

  lemma StopKeeps(s: State, n: nat, j: nat)
    requires Invariant(s, n) && Enabled(s, StopStep(j))
    ensures Invariant(StopNext(s, j), n)
  {
    var t := StopNext(s, j);
    StopKeepsStop(s, j);
    forall i | 0 <= i < |t.workers| ensures WorkerInvariant(t, t.workers[i]) { StopKeepsWorkers(s, j, s.workers[i]); }
    hide StopInvariant, WorkerInvariant, Trues, Done;
  }

  lemma MoreKeepsStop(s: State, i: nat)
    requires StopInvariant(s) && Enabled(s, MoreStep(i)) && WorkerInvariant(s, s.workers[i])
    ensures StopInvariant(MoreNext(s, i))
    ensures HasZeroed(MoreNext(s, i)) == HasZeroed(s) && HasLifted(MoreNext(s, i)) == HasLifted(s)
  {
  }

  lemma MoreKeepsWorkers(s: State, i: nat, k: nat)
    requires StopInvariant(s) && Enabled(s, MoreStep(i)) && k < |s.workers|
    requires WorkerInvariant(s, s.workers[i]) && WorkerInvariant(s, s.workers[k])
    ensures |MoreNext(s, i).workers| == |s.workers| && WorkerInvariant(MoreNext(s, i), MoreNext(s, i).workers[k])
  {
  }

  lemma MoreKeepsBudget(s: State, n: nat, i: nat)
    requires StopInvariant(s) && Enabled(s, MoreStep(i)) && BudgetInvariant(s, n) && n > 0
    ensures BudgetInvariant(MoreNext(s, i), n)
  {
    var t := MoreNext(s, i);
    assert t.workers == s.workers[i := t.workers[i]];
    TruesUpdate(s.workers, i, t.workers[i]);
    hide Trues, Done;
  }

  lemma MoreKeepsBounds(s: State, n: nat, i: nat)
    requires Enabled(s, MoreStep(i)) && s.left + Done(s.workers) >= 0 && s.left <= n
    ensures MoreNext(s, i).left + Done(MoreNext(s, i).workers) >= 0 && MoreNext(s, i).left <= n
  {
    var t := MoreNext(s, i);
    assert t.workers == s.workers[i := t.workers[i]];
    TruesUpdate(s.workers, i, t.workers[i]);
    hide Trues, Done;
  }

  lemma MoreKeeps(s: State, n: nat, i: nat)
    requires Invariant(s, n) && Enabled(s, MoreStep(i))
    ensures Invariant(MoreNext(s, i), n)
  {
    hide Trues, Done, StopInvariant, WorkerInvariant, BudgetInvariant, MoreNext;
    MoreKeepsStop(s, i);
    forall k | 0 <= k < |MoreNext(s, i).workers|
      ensures WorkerInvariant(MoreNext(s, i), MoreNext(s, i).workers[k])
    {
      SameWorkers(s, i);
      MoreKeepsWorkers(s, i, k);
    }
    MoreKeepsBounds(s, n, i);
    if n > 0 { MoreKeepsBudget(s, n, i); }
  }

  lemma SameWorkers(s: State, i: nat)
    requires Enabled(s, MoreStep(i))
    ensures |MoreNext(s, i).workers| == |s.workers| && |MoreNext(s, i).stops| == |s.stops|
  {
  }

  lemma SameStops(s: State, j: nat)
    requires Enabled(s, StopStep(j))
    ensures |StopNext(s, j).workers| == |s.workers| && |StopNext(s, j).stops| == |s.stops|
  {
  }

  /** What a step means for the number of trues: one more for at most one worker, which is ready again. */
  lemma StepTrues(s: State, a: Action, k: nat)
    requires Enabled(s, a) && k < |s.workers|
    ensures var t := Next(s, a);
            && |t.workers| == |s.workers|
            && (a != MoreStep(k) ==> t.workers[k] == s.workers[k])
            && (a == MoreStep(k) ==>
                  || t.workers[k].trues == s.workers[k].trues
                  || (t.workers[k].trues == s.workers[k].trues + 1 && t.workers[k].pc == Ready))
  {
  }

  // ---- Runs

  predicate Runs(s: State, acts: seq<Action>)
    decreases |acts|
  {
    acts == [] || (Enabled(s, acts[0]) && Runs(Next(s, acts[0]), acts[1..]))
  }

  function After(s: State, acts: seq<Action>): State
    requires Runs(s, acts)
    decreases |acts|
  {
    if acts == [] then s else After(Next(s, acts[0]), acts[1..])
  }

  /** The invariant holds at every point of every interleaving. */
  lemma {:induction false} InvariantAlways(s: State, n: nat, acts: seq<Action>)
    requires Invariant(s, n) && Runs(s, acts)
    ensures Invariant(After(s, acts), n)
    ensures |After(s, acts).workers| == |s.workers| && |After(s, acts).stops| == |s.stops|
    decreases |acts|
  {
    if acts != [] {
      hide Invariant, MoreNext, StopNext;
      match acts[0] {
        case MoreStep(i) => MoreKeeps(s, n, i); SameWorkers(s, i);
        case StopStep(j) => StopKeeps(s, n, j); SameStops(s, j);
      }
      InvariantAlways(Next(s, acts[0]), n, acts[1..]);
    }
  }

  predicate AllDone(s: State) { forall i | 0 <= i < |s.workers| :: s.workers[i].pc == Finished }

  lemma {:induction false} DoneCounts(ws: seq<Worker>)
    ensures Done(ws) <= |ws|
    ensures (forall i | 0 <= i < |ws| :: ws[i].pc == Finished) ==> Done(ws) == |ws|
  {
    if ws != [] { DoneCounts(ws[..|ws| - 1]); }
  }

  /** Budget: with a limit n > 0, whatever the schedule, More returns true at most n times in all;
      and exactly n times once all workers, at least one, have seen false and nobody has stopped
      the run. */
  lemma Budget(n: nat, workers: nat, stops: nat, acts: seq<Action>)
    requires n > 0 && Runs(Start(n, workers, stops), acts)
    ensures var s := After(Start(n, workers, stops), acts);
            && Trues(s.workers) <= n
            && (workers > 0 && AllDone(s) && !s.cancelled ==> Trues(s.workers) == n)
  {
    var s0 := Start(n, workers, stops);
    StartInvariant(n, workers, stops);
    InvariantAlways(s0, n, acts);
    var s := After(s0, acts);
    DoneCounts(s.workers);
    hide Runs, After, Trues, Done;
  }

  /** Stop safety: in every reachable state the channel has been closed at most once, no decrement
      after the zero store has yielded true, no call of More that began after a Stop finished has
      returned true, no worker has got more than one true since unlimited was cleared (none
      with a limit), and the counter is not below minus the number of workers. */
  lemma StopSafety(n: nat, workers: nat, stops: nat, acts: seq<Action>)
    requires Runs(Start(n, workers, stops), acts)
    ensures var s := After(Start(n, workers, stops), acts);
            && s.closes <= 1
            && s.trueAfterZero == 0
            && s.trueAfterStop == 0
            && (forall i | 0 <= i < |s.workers| :: s.workers[i].afterLift <= 1)
            && (n > 0 ==> forall i | 0 <= i < |s.workers| :: s.workers[i].afterLift == 0)
            && 0 <= s.left + workers && s.left <= n
  {
    var s0 := Start(n, workers, stops);
    StartInvariant(n, workers, stops);
    InvariantAlways(s0, n, acts);
    var s := After(s0, acts);
    DoneCounts(s.workers);
    forall i | 0 <= i < |s.workers| ensures s.workers[i].afterLift <= 1 { assert WorkerInvariant(s, s.workers[i]); }
    hide Runs, After, Trues, Done;
  }

  /** A Stop that loses the swap returns at once, before the winner has changed anything: a call of
      More that begins after it has returned may still return true. */
  lemma LosingStopReturnsEarly()
    ensures var acts := [StopStep(0), StopStep(1), MoreStep(0), MoreStep(0)];
            && Runs(Start(0, 1, 2), acts[..2]) && After(Start(0, 1, 2), acts[..2]).stops[1] == Lost
            && Runs(Start(0, 1, 2), acts) && After(Start(0, 1, 2), acts).workers[0].trues == 1
  {
    var acts := [StopStep(0), StopStep(1), MoreStep(0), MoreStep(0)];
    var s0 := Start(0, 1, 2);
    var s1 := Next(s0, acts[0]);
    var s2 := Next(s1, acts[1]);
    var s3 := Next(s2, acts[2]);
    var s4 := Next(s3, acts[3]);
    var two, one := acts[..2], acts[1..2];
    assert two[1..] == one && one[1..] == [];
    assert Runs(s1, one) && After(s1, one) == s2;
    assert Runs(s0, two) && After(s0, two) == s2;
    assert acts[3..][1..] == [] && acts[2..][1..] == acts[3..] && acts[1..][1..] == acts[2..];
    assert Runs(s3, acts[3..]) && After(s3, acts[3..]) == s4;
    assert Runs(s2, acts[2..]) && After(s2, acts[2..]) == s4;
    assert Runs(s1, acts[1..]) && After(s1, acts[1..]) == s4;
  }

  // ---- Who can still get a true

  /** Some continuation makes More return true to worker i once more. */
  ghost predicate MayGetAnother(s: State, i: nat)
    requires i < |s.workers|
  {
    exists acts :: Runs(s, acts) && i < |After(s, acts).workers| && After(s, acts).workers[i].trues > s.workers[i].trues
  }

  predicate Hopeful(s: State, i: nat)
    requires i < |s.workers|
  {
    match s.workers[i].pc
    case Ready => s.unlimited || s.left > 0
    case TakingUnlimited => true
    case Finished => false
    case _ => s.left > 0
  }

  lemma HopelessStays(s: State, i: nat, a: Action)
    requires i < |s.workers| && !Hopeful(s, i) && Enabled(s, a)
    ensures |Next(s, a).workers| == |s.workers| && !Hopeful(Next(s, a), i)
    ensures Next(s, a).workers[i].trues == s.workers[i].trues
  {
  }

  lemma {:induction false} HopelessForEver(s: State, i: nat, acts: seq<Action>)
    requires i < |s.workers| && !Hopeful(s, i) && Runs(s, acts)
    ensures |After(s, acts).workers| == |s.workers| && !Hopeful(After(s, acts), i)
    ensures After(s, acts).workers[i].trues == s.workers[i].trues
    decreases |acts|
  {
    hide Next, Enabled, Hopeful;
    if acts != [] {
      HopelessStays(s, i, acts[0]);
      HopelessForEver(Next(s, acts[0]), i, acts[1..]);
    }
  }

  /** How many steps of its own a worker is from a true. */
  function Distance(w: Worker, unlimited: bool): nat {
    match w.pc
    case Ready => if unlimited then 2 else 4
    case Checking => 3
    case Taking => 2
    case _ => 1
  }

  lemma {:induction false} HopeIsFulfilled(s: State, i: nat)
    requires i < |s.workers| && Hopeful(s, i)
    ensures MayGetAnother(s, i)
    decreases Distance(s.workers[i], s.unlimited)
  {
    var a := MoreStep(i);
    var t := Next(s, a);
    if t.workers[i].trues > s.workers[i].trues {
      assert [a][1..] == [] && Runs(t, []) && After(t, []) == t;
      assert Runs(s, [a]) && After(s, [a]) == t;
    } else {
      HopeIsFulfilled(t, i);
      var acts :| Runs(t, acts) && i < |After(t, acts).workers| && After(t, acts).workers[i].trues > t.workers[i].trues;
      assert ([a] + acts)[1..] == acts;
      assert Runs(s, [a] + acts) && After(s, [a] + acts) == After(t, acts);
    }
  }

  /** In any state a worker can be given another true exactly when, about to call More, it would find
      requests unlimited or left over; when in More without a limit, always; when past that check,
      exactly when requests are left. */
  lemma AnotherIffHopeful(s: State, i: nat)
    requires i < |s.workers|
    ensures MayGetAnother(s, i) <==> Hopeful(s, i)
  {
    if Hopeful(s, i) {
      HopeIsFulfilled(s, i);
    } else {
      forall acts | Runs(s, acts)
        ensures |After(s, acts).workers| == |s.workers| && After(s, acts).workers[i].trues == s.workers[i].trues
      {
        HopelessForEver(s, i, acts);
      }
    }
    hide Runs, After;
  }

  /** What a Stop that has returned means for a worker about to call More: it can still get a true
      exactly when requests are unlimited or left over, which is never so if the Stop won the swap. When
      it is not so, it never will be, and no call of More by that worker returns true again. */
  lemma AfterStop(n: nat, workers: nat, stops: nat, acts: seq<Action>, i: nat, j: nat)
    requires Runs(Start(n, workers, stops), acts) && i < workers && j < stops
    ensures var s := After(Start(n, workers, stops), acts);
            && |s.workers| == workers && |s.stops| == stops
            && (s.workers[i].pc == Ready && s.stops[j] in {Closed, Lost} ==>
                  && (MayGetAnother(s, i) <==> s.unlimited || s.left > 0)
                  && (s.stops[j] == Closed ==> !MayGetAnother(s, i))
                  && (!MayGetAnother(s, i) ==>
                        forall more | Runs(s, more) ::
                          var t := After(s, more);
                          |t.workers| == workers && t.workers[i].trues == s.workers[i].trues && !MayGetAnother(t, i)))
  {
    hide Runs, After, MayGetAnother, Trues, Done;
    StartInvariant(n, workers, stops);
    InvariantAlways(Start(n, workers, stops), n, acts);
    var s := After(Start(n, workers, stops), acts);
    AnotherIffHopeful(s, i);
    if !Hopeful(s, i) {
      forall more | Runs(s, more)
        ensures var t := After(s, more);
                |t.workers| == workers && t.workers[i].trues == s.workers[i].trues && !MayGetAnother(t, i)
      {
        HopelessForEver(s, i, more);
        AnotherIffHopeful(After(s, more), i);
      }
    }
  }

  // ---- Every limited run ends

  function Weight(w: Worker): nat {
    match w.pc
    case Ready => 4
    case Checking => 3
    case Taking => 2
    case Decrementing => 1
    case TakingUnlimited => 0
    case Finished => 0
  }

  function WorkersWeight(ws: seq<Worker>): nat {
    if ws == [] then 0 else WorkersWeight(ws[..|ws| - 1]) + Weight(ws[|ws| - 1])
  }

  function StopWeight(p: StopPc): nat {
    match p
    case Starting => 4
    case Won => 3
    case Zeroed => 2
    case Lifted => 1
    case Closed => 0
    case Lost => 0
  }

  function StopsWeight(ps: seq<StopPc>): nat {
    if ps == [] then 0 else StopsWeight(ps[..|ps| - 1]) + StopWeight(ps[|ps| - 1])
  }

  /** How many steps can still be taken. */
  function StepsLeft(s: State): nat { 4 * Positive(s.left) + WorkersWeight(s.workers) + StopsWeight(s.stops) }

  lemma {:induction false} WorkersWeightUpdate(ws: seq<Worker>, i: nat, w: Worker)
    requires i < |ws|
    ensures WorkersWeight(ws[i := w]) == WorkersWeight(ws) - Weight(ws[i]) + Weight(w)
  {
    var n := |ws| - 1;
    var us := ws[i := w];
    if i == n {
      assert us[..n] == ws[..n];
    } else {
      assert us[..n] == ws[..n][i := w];
      WorkersWeightUpdate(ws[..n], i, w);
    }
  }

  lemma {:induction false} StopsWeightUpdate(ps: seq<StopPc>, i: nat, p: StopPc)
    requires i < |ps|
    ensures StopsWeight(ps[i := p]) == StopsWeight(ps) - StopWeight(ps[i]) + StopWeight(p)
  {
    var n := |ps| - 1;
    var us := ps[i := p];
    if i == n {
      assert us[..n] == ps[..n];
    } else {
      assert us[..n] == ps[..n][i := p];
      StopsWeightUpdate(ps[..n], i, p);
    }
  }

  lemma MoreUses(s: State, n: nat, i: nat)
    requires n > 0 && BudgetInvariant(s, n) && Enabled(s, MoreStep(i))
    ensures StepsLeft(MoreNext(s, i)) < StepsLeft(s)
  {
    var t := MoreNext(s, i);
    assert t.workers == s.workers[i := t.workers[i]];
    WorkersWeightUpdate(s.workers, i, t.workers[i]);
    hide Trues, Done, WorkersWeight, StopsWeight;
  }

  lemma StopUses(s: State, j: nat)
    requires Enabled(s, StopStep(j))
    ensures StepsLeft(StopNext(s, j)) < StepsLeft(s)
  {
    var t := StopNext(s, j);
    assert t.stops == s.stops[j := t.stops[j]];
    StopsWeightUpdate(s.stops, j, t.stops[j]);
    hide Trues, Done, WorkersWeight, StopsWeight;
  }

  lemma StepUses(s: State, n: nat, a: Action)
    requires n > 0 && Invariant(s, n) && Enabled(s, a)
    ensures StepsLeft(Next(s, a)) < StepsLeft(s)
  {
    hide StepsLeft, MoreNext, StopNext, StopInvariant, WorkerInvariant, BudgetInvariant;
    match a
    case MoreStep(i) => MoreUses(s, n, i);
    case StopStep(j) => StopUses(s, j);
  }

  lemma {:induction false} RunIsShort(s: State, n: nat, acts: seq<Action>)
    requires n > 0 && Invariant(s, n) && Runs(s, acts)
    ensures |acts| + StepsLeft(After(s, acts)) <= StepsLeft(s)
    decreases |acts|
  {
    if acts != [] {
      hide Invariant, Next, StepsLeft, Enabled;
      StepUses(s, n, acts[0]);
      match acts[0] {
        case MoreStep(i) => StepIsMore(s, n, i);
        case StopStep(j) => StepIsStop(s, n, j);
      }
      RunIsShort(Next(s, acts[0]), n, acts[1..]);
    }
  }

  lemma StepIsMore(s: State, n: nat, i: nat)
    requires Invariant(s, n) && Enabled(s, MoreStep(i))
    ensures Invariant(Next(s, MoreStep(i)), n)
  {
    hide Invariant, MoreNext;
    MoreKeeps(s, n, i);
  }

  lemma StepIsStop(s: State, n: nat, j: nat)
    requires Invariant(s, n) && Enabled(s, StopStep(j))
    ensures Invariant(Next(s, StopStep(j)), n)
  {
    hide Invariant, StopNext;
    StopKeeps(s, n, j);
  }

  lemma {:induction false} FreshWeights(k: nat, m: nat)
    ensures WorkersWeight(seq(k, _ => Worker(Ready, 0, false, 0))) == 4 * k
    ensures StopsWeight(seq(m, _ => Starting)) == 4 * m
    decreases k + m
  {
    if k > 0 {
      var ws := seq(k, _ => Worker(Ready, 0, false, 0));
      assert ws[..k - 1] == seq(k - 1, _ => Worker(Ready, 0, false, 0));
      FreshWeights(k - 1, m);
    } else if m > 0 {
      var ps := seq(m, _ => Starting);
      assert ps[..m - 1] == seq(m - 1, _ => Starting);
      FreshWeights(k, m - 1);
    }
  }

  /** With a limit every schedule ends after a bounded number of steps; and a schedule that cannot
      be continued, in which no Stop was called, has given out exactly n trues. */
  lemma LimitedRunsEnd(n: nat, workers: nat, stops: nat, acts: seq<Action>)
    requires n > 0 && Runs(Start(n, workers, stops), acts)
    ensures |acts| <= 4 * (n + workers + stops)
    ensures var s := After(Start(n, workers, stops), acts);
            workers > 0 && !s.cancelled && (forall i | 0 <= i < workers :: !Enabled(s, MoreStep(i))) ==>
                Trues(s.workers) == n
  {
    var s0 := Start(n, workers, stops);
    StartInvariant(n, workers, stops);
    FreshWeights(workers, stops);
    RunIsShort(s0, n, acts);
    InvariantAlways(s0, n, acts);
    Budget(n, workers, stops, acts);
    var s := After(s0, acts);
    assert |s.workers| == workers;
    if forall i | 0 <= i < workers :: !Enabled(s, MoreStep(i)) {
      assert forall i | 0 <= i < workers :: !Enabled(s, MoreStep(i)) ==> s.workers[i].pc == Finished;
      assert AllDone(s);
    }
    hide Invariant, Runs, After, Trues, WorkersWeight, StopsWeight;
  }

  // ---- The rate limiter is asked

  /** The step is worker k's call of Take. */
  predicate Asks(s: State, a: Action, k: nat) {
    a == MoreStep(k) && k < |s.workers| && s.workers[k].pc in {Taking, TakingUnlimited}
  }

  /** How often worker k calls Take. */
  function Takes(s: State, acts: seq<Action>, k: nat): nat
    requires Runs(s, acts)
    decreases |acts|
  {
    if acts == [] then 0 else (if Asks(s, acts[0], k) then 1 else 0) + Takes(Next(s, acts[0]), acts[1..], k)
  }

  /** Trues, and one more if the next decrement will yield it; or may have been asked for. */
  function Due(s: State, k: nat): nat
    requires k < |s.workers|
  {
    s.workers[k].trues + if s.workers[k].pc == Decrementing && s.left > 0 then 1 else 0
  }

  function Asked(s: State, k: nat): nat
    requires k < |s.workers|
  {
    s.workers[k].trues + if s.workers[k].pc in {Decrementing, Finished} then 1 else 0
  }

  lemma OneStepAsks(s: State, a: Action, k: nat)
    requires Enabled(s, a) && k < |s.workers|
    ensures var t := Next(s, a);
            && k < |t.workers|
            && Due(t, k) <= Due(s, k) + (if Asks(s, a, k) then 1 else 0)
            && Asked(s, k) + (if Asks(s, a, k) then 1 else 0) <= Asked(t, k)
  {
    StepTrues(s, a, k);
    match a {
      case MoreStep(i) =>
        if i == k { OwnStepAsks(s, k); } else { OtherStepLeft(s, a); }
      case StopStep(_) => OtherStepLeft(s, a);
    }
    hide Next;
  }

  lemma OtherStepLeft(s: State, a: Action)
    requires Enabled(s, a)
    ensures Next(s, a).left > 0 ==> s.left > 0
  {
  }

  lemma OwnStepAsks(s: State, k: nat)
    requires Enabled(s, MoreStep(k))
    ensures var t := MoreNext(s, k);
            && k < |t.workers|
            && Due(t, k) <= Due(s, k) + (if Asks(s, MoreStep(k), k) then 1 else 0)
            && Asked(s, k) + (if Asks(s, MoreStep(k), k) then 1 else 0) <= Asked(t, k)
  {
  }

  lemma {:induction false} TakesAlong(s: State, acts: seq<Action>, k: nat)
    requires Runs(s, acts) && k < |s.workers|
    ensures k < |After(s, acts).workers|
    ensures Due(After(s, acts), k) <= Due(s, k) + Takes(s, acts, k)
    ensures Asked(s, k) + Takes(s, acts, k) <= Asked(After(s, acts), k)
    decreases |acts|
  {
    hide Next, Due, Asked, Asks;
    if acts != [] {
      OneStepAsks(s, acts[0], k);
      TakesAlong(Next(s, acts[0]), acts[1..], k);
    }
  }

  /** More never returns true without having called Take, with a limit or without; and no call takes twice: at
      every point of every schedule a worker has called Take once for each true, and for the call it is in at
      most once more. */
  lemma TakesForTrues(n: nat, workers: nat, stops: nat, acts: seq<Action>, k: nat)
    requires Runs(Start(n, workers, stops), acts) && k < workers
    ensures k < |After(Start(n, workers, stops), acts).workers|
    ensures var w := After(Start(n, workers, stops), acts).workers[k];
            w.trues <= Takes(Start(n, workers, stops), acts, k) <= w.trues + 1
  {
    hide Runs, After, Takes;
    TakesAlong(Start(n, workers, stops), acts, k);
  }

  // ---- The request cap of a benchmark

  /** floor(rps * duration), the duration in nanoseconds. */
  function RateCap(rps: nat, duration: nat): nat { rps * duration / 1_000_000_000 }

  /** The limit runBenchmark passes to New; 0 means unlimited there. */
  function EffectiveMax(maxRequests: nat, rps: nat, duration: nat): nat {
    if rps > 0 && duration > 0 && (RateCap(rps, duration) < maxRequests || maxRequests == 0)
    then RateCap(rps, duration)
    else maxRequests
  }

  /** A benchmark with a user limit and a rate cap of at least one request makes no more calls
      than either, in any schedule. */
  lemma BenchmarkCap(maxRequests: nat, rps: nat, duration: nat, workers: nat, stops: nat, acts: seq<Action>)
    requires rps > 0 && duration > 0 && RateCap(rps, duration) >= 1
    requires Runs(Start(EffectiveMax(maxRequests, rps, duration), workers, stops), acts)
    ensures var s := After(Start(EffectiveMax(maxRequests, rps, duration), workers, stops), acts);
            && Trues(s.workers) <= RateCap(rps, duration)
            && (maxRequests > 0 ==> Trues(s.workers) <= maxRequests)
  {
    hide Runs, After, Trues, RateCap;
    Budget(EffectiveMax(maxRequests, rps, duration), workers, stops, acts);
  }

  /** One worker calling More k times. */
  function Solo(k: nat): seq<Action> {
    if k == 0 then [] else [MoreStep(0), MoreStep(0)] + Solo(k - 1)
  }

  lemma {:induction false} UnlimitedSolo(s: State, k: nat)
    requires s.unlimited && |s.workers| > 0 && s.workers[0].pc == Ready
    ensures Runs(s, Solo(k)) && |After(s, Solo(k)).workers| == |s.workers|
    ensures After(s, Solo(k)).workers[0].trues == s.workers[0].trues + k
    decreases k
  {
    if k > 0 {
      var t := Next(Next(s, MoreStep(0)), MoreStep(0));
      UnlimitedSolo(t, k - 1);
      var acts := Solo(k);
      assert acts[0] == MoreStep(0) && acts[1..][0] == MoreStep(0) && acts[1..][1..] == Solo(k - 1);
      assert Runs(Next(s, MoreStep(0)), acts[1..]);
    }
  }

  lemma {:induction false} TruesAtLeast(ws: seq<Worker>, i: nat)
    requires i < |ws|
    ensures Trues(ws) >= ws[i].trues
  {
    if i < |ws| - 1 { TruesAtLeast(ws[..|ws| - 1], i); }
  }

  /** The limit passed on is 0, that is none, exactly when the user gave no limit and no rate and
      duration to derive one from, or when the rate cap rounds to 0; in the latter case a user limit
      is lost: some schedule makes more than any number of calls. */
  lemma CapLost(maxRequests: nat, rps: nat, duration: nat, workers: nat, stops: nat, k: nat)
    requires workers > 0
    ensures EffectiveMax(maxRequests, rps, duration) == 0 <==>
              || (maxRequests == 0 && !(rps > 0 && duration > 0))
              || (rps > 0 && duration > 0 && RateCap(rps, duration) == 0)
    ensures EffectiveMax(maxRequests, rps, duration) == 0 ==>
              exists acts ::
                  Runs(Start(0, workers, stops), acts) && Trues(After(Start(0, workers, stops), acts).workers) >= k
  {
    hide RateCap;
    if EffectiveMax(maxRequests, rps, duration) == 0 {
      var s := Start(0, workers, stops);
      UnlimitedSolo(s, k);
      TruesAtLeast(After(s, Solo(k)).workers, 0);
      assert Runs(s, Solo(k));
    }
    hide Runs, After, Trues;
  }

  /** Every schedule keeps the user's limit exactly when there is no rate cap that rounds to 0. */
  lemma UserLimitKeptIff(maxRequests: nat, rps: nat, duration: nat, workers: nat, stops: nat)
    requires maxRequests > 0 && workers > 0
    ensures var s := Start(EffectiveMax(maxRequests, rps, duration), workers, stops);
            (forall acts :: Runs(s, acts) ==> Trues(After(s, acts).workers) <= maxRequests)
            <==> !(rps > 0 && duration > 0 && RateCap(rps, duration) == 0)
  {
    hide RateCap, Runs, After, Trues;
    var limit := EffectiveMax(maxRequests, rps, duration);
    CapLost(maxRequests, rps, duration, workers, stops, maxRequests + 1);
    if limit > 0 {
      forall acts | Runs(Start(limit, workers, stops), acts)
        ensures Trues(After(Start(limit, workers, stops), acts).workers) <= maxRequests
      {
        Budget(limit, workers, stops, acts);
      }
    }
  }

  // ---- The shared object

  /** A Run shared by goroutines: its atomic fields, where each goroutine stands, and the history. */
  class Run {
    var unlimited: bool
    var requestsLeft: int
    var cancelled: bool
    var closes: nat
    var workers: seq<Worker>
    var stops: seq<StopPc>
    var winner: int
    var trueAfterZero: nat
    var trueAfterStop: nat

    function Snapshot(): State
      reads this
    {
      State(unlimited, requestsLeft, cancelled, closes, workers, stops, winner, trueAfterZero, trueAfterStop)
    }

    constructor New(maxRequests: nat, numWorkers: nat, numStops: nat)
      ensures Snapshot() == Start(maxRequests, numWorkers, numStops)
    {
      unlimited := maxRequests == 0;
      requestsLeft := maxRequests;
      cancelled := false;
      closes := 0;
      workers := seq(numWorkers, _ => Worker(Ready, 0, false, 0));
      stops := seq(numStops, _ => Starting);
      winner, trueAfterZero, trueAfterStop := -1, 0, 0;
      new;
      assert workers == Start(maxRequests, numWorkers, numStops).workers;
      assert stops == Start(maxRequests, numWorkers, numStops).stops;
    }

    /** More returns true to worker i. */
    method ReturnTrue(i: nat)
      requires i < |workers|
      modifies this`workers, this`trueAfterStop
      ensures Snapshot() == Grant(old(Snapshot()), i)
    {
      var w := workers[i];
      if w.late { trueAfterStop := trueAfterStop + 1; }
      var afterLift := if HasLifted(Snapshot()) then w.afterLift + 1 else w.afterLift;
      workers := workers[i := Worker(Ready, w.trues + 1, false, afterLift)];
    }

    /** The next atomic operation of the call of More that worker i is in. */
    method StepMore(i: nat)
      requires Enabled(Snapshot(), MoreStep(i))
      modifies this
      ensures Snapshot() == MoreNext(old(Snapshot()), i)
    {
      var w := workers[i];
      match w.pc {
        case Ready =>
          var u := unlimited;
          workers := workers[i := w.(pc := if u then TakingUnlimited else Checking, late := closes > 0)];
        case TakingUnlimited => ReturnTrue(i);
        case Checking =>
          var positive := requestsLeft >= 0;
          workers := workers[i := w.(pc := if positive then Taking else Decrementing)];
        case Taking => workers := workers[i := w.(pc := Decrementing)];
        case Decrementing =>
          requestsLeft := requestsLeft - 1;
          if requestsLeft >= 0 {
            if HasZeroed(Snapshot()) { trueAfterZero := trueAfterZero + 1; }
            ReturnTrue(i);
          } else {
            workers := workers[i := w.(pc := Finished)];
          }
      }
    }

    /** The next atomic operation of the call of Stop number j. */
    method StepStop(j: nat)
      requires Enabled(Snapshot(), StopStep(j))
      modifies this
      ensures Snapshot() == StopNext(old(Snapshot()), j)
    {
      match stops[j] {
        case Starting =>
          var before := cancelled;
          cancelled := true;
          if before {
            stops := stops[j := Lost];
          } else {
            winner, stops := j, stops[j := Won];
          }
        case Won =>
          requestsLeft := 0;
          stops := stops[j := Zeroed];
        case Zeroed =>
          unlimited := false;
          stops := stops[j := Lifted];
        case Lifted =>
          closes := closes + 1;
          stops := stops[j := Closed];
      }
    }

    /** Any schedule. */
    method Execute(acts: seq<Action>)
      requires Runs(Snapshot(), acts)
      modifies this
      ensures Snapshot() == After(old(Snapshot()), acts)
    {
      for k := 0 to |acts|
        invariant Runs(Snapshot(), acts[k..])
        invariant After(old(Snapshot()), acts) == After(Snapshot(), acts[k..])
      {
        hide MoreNext, StopNext, Enabled;
        assert acts[k..][1..] == acts[k + 1..];
        match acts[k] {
          case MoreStep(i) => StepMore(i);
          case StopStep(j) => StepStop(j);
        }
      }
    }
  }
}

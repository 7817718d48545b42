/** benchmark.go. */
module Benchmark {
  // Workers that call More until it returns false and record how their calls went into states of their own;
  // the layout of those states, by connection and worker; the launch of the workers; and the merge that
  // turns the states into one result, whose numbers are those of a single state that records every call.

  import opened BenchState
  import Limiter

  /** How one call went: an error, or a latency and, for streams, the messages sent and received. */
  datatype Call = Failed(message: string) | Unary(latency: int) | Stream(latency: int, sent: nat, received: nat)

  function Record(s: Stats, c: Call): Stats {
    match c
    case Failed(m) => AddError(s, m)
    case Unary(d) => AddLatency(s, d)
    case Stream(d, sent, received) => AddMessages(AddLatency(s, d), sent, received)
  }

  function Recorded(s: Stats, calls: seq<Call>): Stats {
    if calls == [] then s else Record(Recorded(s, calls[..|calls| - 1]), calls[|calls| - 1])
  }

  lemma RecordedAppend(s: Stats, calls: seq<Call>, c: Call)
    ensures Recorded(s, calls + [c]) == Record(Recorded(s, calls), c)
  {
    assert (calls + [c])[..|calls|] == calls;
  }

  lemma RecordConserves(s: Stats, c: Call)
    requires Consistent(s)
    ensures Consistent(Record(s, c)) && Record(s, c).totalRequests == s.totalRequests + 1
  {
    hide Consistent;
    match c
    case Failed(m) => RecordsConserve(s, m, 0, 0, 0);
    case Unary(d) => RecordsConserve(s, "", d, 0, 0);
    case Stream(d, sent, received) =>
      RecordsConserve(s, "", d, 0, 0);
      RecordsConserve(AddLatency(s, d), "", 0, sent, received);
  }

  lemma {:induction false} RecordedConserves(calls: seq<Call>)
    ensures Consistent(Recorded(Empty, calls)) && Recorded(Empty, calls).totalRequests == |calls|
  {
    hide Record;
    if calls == [] {
    } else {
      RecordedConserves(calls[..|calls| - 1]);
      hide Consistent;
      RecordConserves(Recorded(Empty, calls[..|calls| - 1]), calls[|calls| - 1]);
    }
  }

  method RecordCall(s: BenchmarkState, c: Call)
    modifies s
    ensures s.Snapshot() == Record(old(s.Snapshot()), c)
  {
    if c.Failed? {
      s.RecordError(c.message);
      return;
    }
    s.RecordLatency(c.latency);
    if c.Stream? { s.RecordStreamMessages(c.sent, c.received); }
  }

  // ---- Interleaved workers

  /** A schedule: which worker finished which call, in the order of time. */
  datatype Event = Event(worker: nat, call: Call)

  predicate InRange(sched: seq<Event>, n: nat) { forall k | 0 <= k < |sched| :: sched[k].worker < n }

  function Calls(sched: seq<Event>): seq<Call> { seq(|sched|, k requires 0 <= k < |sched| => sched[k].call) }

  function CallsOf(sched: seq<Event>, w: nat): seq<Call> {
    if sched == [] then []
    else
      var before := CallsOf(sched[..|sched| - 1], w);
      var e := sched[|sched| - 1];
      if e.worker == w then before + [e.call] else before
  }

  /** The states of n workers after a schedule. */
  function StatesAfter(sched: seq<Event>, n: nat): (ss: seq<Stats>)
    ensures |ss| == n
  {
    seq(n, w requires 0 <= w < n => Recorded(Empty, CallsOf(sched, w)))
  }

  lemma StatesStep(sched: seq<Event>, n: nat)
    requires sched != [] && InRange(sched, n)
    ensures var e := sched[|sched| - 1];
            var before := StatesAfter(sched[..|sched| - 1], n);
            StatesAfter(sched, n) == before[e.worker := Record(before[e.worker], e.call)]
  {
    hide Record;
    var e := sched[|sched| - 1];
    RecordedAppend(Empty, CallsOf(sched[..|sched| - 1], e.worker), e.call);
    hide Recorded;
  }

  lemma RecordedStep(sched: seq<Event>, e: Event, n: nat)
    requires InRange(sched + [e], n)
    ensures e.worker < n
    ensures var before := StatesAfter(sched, n);
            StatesAfter(sched + [e], n) == before[e.worker := Record(before[e.worker], e.call)]
  {
    hide StatesAfter, Record;
    assert (sched + [e])[..|sched|] == sched && (sched + [e])[|sched|] == e;
    StatesStep(sched + [e], n);
  }

  lemma RecordCombines(a: Stats, b: Stats, c: Call)
    ensures Record(Combine(a, b), c) == Combine(a, Record(b, c))
  {
    hide AddCounts;
    match c
    case Failed(m) => AddCountsCount(a.errors, b.errors, Mask(m));
    case _ => assert a.latencies + b.latencies + [c.latency] == a.latencies + (b.latencies + [c.latency]);
  }

  lemma AddCountsCount(a: map<string, nat>, b: map<string, nat>, k: string)
    ensures AddCount(AddCounts(a, b), k, 1) == AddCounts(a, AddCount(b, k, 1))
  {
    hide AddCounts;
    var l, r := AddCount(AddCounts(a, b), k, 1), AddCounts(a, AddCount(b, k, 1));
    AddCountsAt(a, b);
    AddCountsAt(a, AddCount(b, k, 1));
    assert l.Keys == r.Keys;
    assert forall n | n in l :: l[n] == Count(l, n) && r[n] == Count(r, n);
  }

  lemma RecordSame(a: Stats, b: Stats, c: Call)
    requires Same(a, b)
    ensures Same(Record(a, c), Record(b, c))
  {
  }

  /** Recording into one of several states is, once they are merged, recording into the result. */
  lemma RecordMerged(ss: seq<Stats>, i: nat, c: Call)
    requires i < |ss|
    ensures Same(Merged(ss[i := Record(ss[i], c)]), Record(Merged(ss), c))
  {
    hide Merged, Same, Record, Combine, Without;
    var ts := ss[i := Record(ss[i], c)];
    if |ss| == 1 {
      assert ss == [ss[0]] && ts == [Record(ss[0], c)];
      MergedOne(ss[0]);
      MergedOne(Record(ss[0], c));
      SameItself(Record(ss[0], c));
    } else {
      AnyLast(ts, i);
      AnyLast(ss, i);
      WithoutUpdated(ss, i, Record(ss[i], c));
      var rest := Merged(Without(ss, i));
      RecordCombines(rest, ss[i], c);
      RecordSame(Merged(ss), Combine(rest, ss[i]), c);
      SameBack(Record(Merged(ss), c), Record(Combine(rest, ss[i]), c));
      SameThrough(Merged(ts), Combine(rest, ts[i]), Record(Merged(ss), c));
    }
  }

  lemma WithoutUpdated(ss: seq<Stats>, i: nat, s: Stats)
    requires i < |ss|
    ensures Without(ss[i := s], i) == Without(ss, i)
  {
  }

  lemma CombineNothing(a: Stats)
    ensures Combine(a, Empty) == a
  {
    hide AddCounts;
    AddCountsNothing(a.errors);
    assert a.latencies + [] == a.latencies;
  }

  lemma {:induction false} MergedEmpties(ss: seq<Stats>)
    requires forall i | 0 <= i < |ss| :: ss[i] == Empty
    ensures Merged(ss) == Empty
  {
    hide Combine;
    if |ss| > 1 {
      MergedEmpties(ss[..|ss| - 1]);
      CombineNothing(Empty);
    }
  }

  lemma RecordedLast(sched: seq<Event>)
    requires sched != []
    ensures Recorded(Empty, Calls(sched)) ==
            Record(Recorded(Empty, Calls(sched[..|sched| - 1])), sched[|sched| - 1].call)
  {
    hide Record;
    assert Calls(sched) == Calls(sched[..|sched| - 1]) + [sched[|sched| - 1].call];
    RecordedAppend(Empty, Calls(sched[..|sched| - 1]), sched[|sched| - 1].call);
    hide Recorded;
  }

  lemma NothingRecorded(n: nat)
    ensures forall w | 0 <= w < n :: StatesAfter([], n)[w] == Empty
    ensures Recorded(Empty, Calls([])) == Empty
  {
  }

  /** However the workers interleave, merging their states gives what one state recording every
      call in the order of time would hold, but for the order of latencies. */
  lemma {:induction false} MergeIsOneState(sched: seq<Event>, n: nat)
    requires n > 0 && InRange(sched, n)
    ensures Same(Merged(StatesAfter(sched, n)), Recorded(Empty, Calls(sched)))
    decreases |sched|
  {
    hide Merged, Same, Record, Recorded, StatesAfter, Calls;
    if sched == [] {
      NothingRecorded(n);
      MergedEmpties(StatesAfter([], n));
      SameItself(Empty);
    } else {
      var before, e := sched[..|sched| - 1], sched[|sched| - 1];
      MergeIsOneState(before, n);
      StatesStep(sched, n);
      RecordMerged(StatesAfter(before, n), e.worker, e.call);
      RecordSame(Merged(StatesAfter(before, n)), Recorded(Empty, Calls(before)), e.call);
      RecordedLast(sched);
      SameThrough(Merged(StatesAfter(sched, n)), Record(Merged(StatesAfter(before, n)), e.call),
                  Recorded(Empty, Calls(sched)));
    }
  }

  // ---- The numbers a benchmark reports

  lemma TotalsSame(a: Stats, b: Stats)
    requires Same(a, b) && Consistent(b)
    ensures Consistent(a) && a.totalRequests == b.totalRequests
  {
    assert |multiset(a.latencies)| == |multiset(b.latencies)|;
  }

  /** Conservation: the merged result counts every finished call once, as an error or a success. */
  lemma ReportConserves(sched: seq<Event>, n: nat)
    requires n > 0 && InRange(sched, n)
    ensures Consistent(Merged(StatesAfter(sched, n)))
    ensures Merged(StatesAfter(sched, n)).totalRequests == |sched|
  {
    hide Merged, Same, Recorded, StatesAfter, Consistent;
    MergeIsOneState(sched, n);
    RecordedConserves(Calls(sched));
    TotalsSame(Merged(StatesAfter(sched, n)), Recorded(Empty, Calls(sched)));
  }

  datatype Kind = Failure | Success | FailedWith(masked: string) | Took(time: int)
  {
    predicate Is(c: Call) {
      match this
      case Failure => c.Failed?
      case Success => !c.Failed?
      case FailedWith(m) => c.Failed? && Mask(c.message) == m
      case Took(d) => !c.Failed? && c.latency == d
    }
  }

  /** How many of the calls are of a kind. */
  function Number(calls: seq<Call>, kind: Kind): nat { |Indices(calls, kind)| }

  function Indices(calls: seq<Call>, kind: Kind): set<int> { set i | 0 <= i < |calls| && kind.Is(calls[i]) }

  function SentIn(calls: seq<Call>): nat {
    if calls == [] then 0 else (if calls[0].Stream? then calls[0].sent else 0) + SentIn(calls[1..])
  }

  function ReceivedIn(calls: seq<Call>): nat {
    if calls == [] then 0 else (if calls[0].Stream? then calls[0].received else 0) + ReceivedIn(calls[1..])
  }

  /** What the counters say about the calls. */
  ghost predicate Counts(s: Stats, calls: seq<Call>) {
    && s.totalRequests == |calls|
    && s.totalErrors == Number(calls, Failure)
    && s.totalSuccess == Number(calls, Success)
    && (forall m :: Count(s.errors, m) == Number(calls, FailedWith(m)))
    && (forall d :: multiset(s.latencies)[d] == Number(calls, Took(d)))
    && s.sent == SentIn(calls) && s.received == ReceivedIn(calls)
  }

  lemma NumberStep(calls: seq<Call>, c: Call, kind: Kind)
    ensures Number(calls + [c], kind) == Number(calls, kind) + if kind.Is(c) then 1 else 0
  {
    hide Kind.Is, Indices;
    IndicesStep(calls, c, kind);
  }

  lemma IndicesStep(calls: seq<Call>, c: Call, kind: Kind)
    ensures Indices(calls + [c], kind) == Indices(calls, kind) + if kind.Is(c) then {|calls|} else {}
    ensures |calls| !in Indices(calls, kind)
  {
    hide Kind.Is;
    var all := calls + [c];
    assert all[|calls|] == c && forall i | 0 <= i < |calls| :: all[i] == calls[i];
  }

  lemma {:induction false} SentStep(calls: seq<Call>, c: Call)
    ensures SentIn(calls + [c]) == SentIn(calls) + if c.Stream? then c.sent else 0
    ensures ReceivedIn(calls + [c]) == ReceivedIn(calls) + if c.Stream? then c.received else 0
  {
    if calls == [] {
      assert ([] + [c])[1..] == [];
    } else {
      assert (calls + [c])[1..] == calls[1..] + [c];
      SentStep(calls[1..], c);
    }
  }

  lemma CountsStep(s: Stats, calls: seq<Call>, c: Call)
    requires Counts(s, calls)
    ensures Counts(Record(s, c), calls + [c])
  {
    hide Number, SentIn, ReceivedIn, Mask;
    SentStep(calls, c);
    forall kind: Kind ensures Number(calls + [c], kind) == Number(calls, kind) + if kind.Is(c) then 1 else 0 {
      NumberStep(calls, c, kind);
    }
  }

  lemma {:induction false} RecordedCounts(calls: seq<Call>)
    ensures Counts(Recorded(Empty, calls), calls)
  {
    hide Record;
    if calls != [] {
      var pre, c := calls[..|calls| - 1], calls[|calls| - 1];
      assert pre + [c] == calls;
      RecordedCounts(pre);
      CountsStep(Recorded(Empty, pre), pre, c);
    }
  }

  lemma CountsSame(a: Stats, b: Stats, calls: seq<Call>)
    requires Same(a, b) && Counts(b, calls)
    ensures Counts(a, calls)
  {
    hide Number, SentIn, ReceivedIn, Mask;
  }

  /** The report in numbers: however the workers interleave, each error is counted under its masked
      message, each latency is there, and the messages of all streams are added up. */
  lemma ReportCounts(sched: seq<Event>, n: nat)
    requires n > 0 && InRange(sched, n)
    ensures Counts(Merged(StatesAfter(sched, n)), Calls(sched))
  {
    hide Merged, Same, Recorded, StatesAfter, Counts;
    MergeIsOneState(sched, n);
    RecordedCounts(Calls(sched));
    CountsSame(Merged(StatesAfter(sched, n)), Recorded(Empty, Calls(sched)), Calls(sched));
  }

  // ---- Workers and limiter together

  /** The limiter, and the workers that are making a call: More has returned true to them, and they have
      not recorded how the call went. */
  datatype System = System(limiter: Limiter.State, busy: set<nat>)

  /** A step of More or Stop, or a worker's call that ends and is recorded. */
  datatype Action = Limit(step: Limiter.Action) | Finish(worker: nat, call: Call)

  /** A worker calls More again when its call has been recorded. */
  predicate CanDo(s: System, a: Action) {
    match a
    case Limit(b) => Limiter.Enabled(s.limiter, b) && (b.MoreStep? ==> b.worker !in s.busy)
    case Finish(w, _) => w in s.busy
  }

  function TruesOf(s: Limiter.State, w: nat): nat { if w < |s.workers| then s.workers[w].trues else 0 }

  function Do(s: System, a: Action): System
    requires CanDo(s, a)
  {
    match a
    case Limit(b) =>
      var t := Limiter.Next(s.limiter, b);
      var granted := b.MoreStep? && TruesOf(t, b.worker) > TruesOf(s.limiter, b.worker);
      System(t, if granted then s.busy + {b.worker} else s.busy)
    case Finish(w, _) => s.(busy := s.busy - {w})
  }

  predicate Plays(s: System, acts: seq<Action>)
    decreases |acts|
  {
    acts == [] || (CanDo(s, acts[0]) && Plays(Do(s, acts[0]), acts[1..]))
  }

  function Played(s: System, acts: seq<Action>): System
    requires Plays(s, acts)
    decreases |acts|
  {
    if acts == [] then s else Played(Do(s, acts[0]), acts[1..])
  }

  function Begin(limit: nat, workers: nat, stops: nat): System { System(Limiter.Start(limit, workers, stops), {}) }

  /** The steps of the limiter. */
  function LimiterSteps(acts: seq<Action>): seq<Limiter.Action> {
    if acts == [] then []
    else if acts[0].Limit? then [acts[0].step] + LimiterSteps(acts[1..])
    else LimiterSteps(acts[1..])
  }

  /** The calls that were recorded. */
  function Made(acts: seq<Action>): seq<Event> {
    if acts == [] then []
    else
      var before := Made(acts[..|acts| - 1]);
      var a := acts[|acts| - 1];
      if a.Finish? then before + [Event(a.worker, a.call)] else before
  }

  lemma {:induction false} LimiterRuns(s: System, acts: seq<Action>)
    requires Plays(s, acts)
    ensures Limiter.Runs(s.limiter, LimiterSteps(acts))
    ensures Played(s, acts).limiter == Limiter.After(s.limiter, LimiterSteps(acts))
    decreases |acts|
  {
    if acts != [] {
      LimiterRuns(Do(s, acts[0]), acts[1..]);
      var rest := LimiterSteps(acts[1..]);
      if acts[0].Limit? {
        assert ([acts[0].step] + rest)[1..] == rest;
      }
      hide Limiter.Enabled, Limiter.Next;
    }
  }

  lemma {:induction false} PlaysStep(s: System, acts: seq<Action>, a: Action)
    ensures Plays(s, acts + [a]) <==> Plays(s, acts) && CanDo(Played(s, acts), a)
    ensures Plays(s, acts + [a]) ==> Played(s, acts + [a]) == Do(Played(s, acts), a)
    decreases |acts|
  {
    hide CanDo, Do;
    if acts == [] {
      assert ([] + [a])[1..] == [];
    } else {
      assert (acts + [a])[1..] == acts[1..] + [a];
      if CanDo(s, acts[0]) { PlaysStep(Do(s, acts[0]), acts[1..], a); }
    }
  }

  function OneIf(b: bool): nat { if b then 1 else 0 }

  /** A worker has recorded every call that More allowed it, but for the one that it is making. */
  predicate Balanced(s: System, made: seq<Event>) {
    && InRange(made, |s.limiter.workers|)
    && (forall w | w in s.busy :: w < |s.limiter.workers| && s.limiter.workers[w].pc == Limiter.Ready)
    && (forall w | 0 <= w < |s.limiter.workers| ::
         |CallsOf(made, w)| + OneIf(w in s.busy) == s.limiter.workers[w].trues)
  }

  lemma BalancedStart(limit: nat, workers: nat, stops: nat)
    ensures Balanced(Begin(limit, workers, stops), [])
  {
  }

  lemma CallsOfStep(made: seq<Event>, e: Event, w: nat)
    ensures CallsOf(made + [e], w) == if e.worker == w then CallsOf(made, w) + [e.call] else CallsOf(made, w)
  {
    assert (made + [e])[..|made|] == made;
  }

  lemma LimitKeepsBalance(s: System, made: seq<Event>, b: Limiter.Action)
    requires Balanced(s, made) && CanDo(s, Limit(b))
    ensures Balanced(Do(s, Limit(b)), made)
  {
    hide CallsOf, Limiter.Next, Limiter.Enabled;
    var t := Limiter.Next(s.limiter, b);
    forall k: nat | k < |s.limiter.workers|
      ensures |t.workers| == |s.limiter.workers| && (b != Limiter.MoreStep(k) ==> t.workers[k] == s.limiter.workers[k])
      ensures b == Limiter.MoreStep(k) ==>
                || t.workers[k].trues == s.limiter.workers[k].trues
                || (t.workers[k].trues == s.limiter.workers[k].trues + 1 && t.workers[k].pc == Limiter.Ready)
    {
      Limiter.StepTrues(s.limiter, b, k);
    }
    SameNumber(s.limiter, b);
  }

  lemma SameNumber(s: Limiter.State, b: Limiter.Action)
    requires Limiter.Enabled(s, b)
    ensures |Limiter.Next(s, b).workers| == |s.workers|
  {
    match b
    case MoreStep(i) => Limiter.SameWorkers(s, i);
    case StopStep(j) => Limiter.SameStops(s, j);
  }

  lemma FinishKeepsBalance(s: System, made: seq<Event>, w: nat, c: Call)
    requires Balanced(s, made) && CanDo(s, Finish(w, c))
    ensures Balanced(Do(s, Finish(w, c)), made + [Event(w, c)])
  {
    hide CallsOf;
    forall v: nat
      ensures CallsOf(made + [Event(w, c)], v) == if w == v then CallsOf(made, v) + [c] else CallsOf(made, v)
    {
      CallsOfStep(made, Event(w, c), v);
    }
  }

  lemma {:induction false} AlwaysBalanced(limit: nat, workers: nat, stops: nat, acts: seq<Action>)
    requires Plays(Begin(limit, workers, stops), acts)
    ensures Balanced(Played(Begin(limit, workers, stops), acts), Made(acts))
    decreases |acts|
  {
    hide Plays, Played, Balanced, Do, CanDo;
    var s := Begin(limit, workers, stops);
    if acts == [] {
      PlayedNothing(s);
      BalancedStart(limit, workers, stops);
    } else {
      var n := |acts| - 1;
      var pre, a := acts[..n], acts[n];
      assert pre + [a] == acts;
      PlaysStep(s, pre, a);
      AlwaysBalanced(limit, workers, stops, pre);
      match a
      case Limit(b) => LimitKeepsBalance(Played(s, pre), Made(pre), b);
      case Finish(w, c) => FinishKeepsBalance(Played(s, pre), Made(pre), w, c);
    }
  }

  lemma PlayedNothing(s: System)
    ensures Plays(s, []) && Played(s, []) == s
  {
  }

  function TotalCalls(sched: seq<Event>, n: nat): nat {
    if n == 0 then 0 else TotalCalls(sched, n - 1) + |CallsOf(sched, n - 1)|
  }

  lemma {:induction false} TotalCallsStep(sched: seq<Event>, n: nat)
    requires sched != []
    ensures TotalCalls(sched, n) ==
            TotalCalls(sched[..|sched| - 1], n) + if sched[|sched| - 1].worker < n then 1 else 0
  {
    if n > 0 { TotalCallsStep(sched, n - 1); }
  }

  lemma {:induction false} TotalCallsNone(n: nat)
    ensures TotalCalls([], n) == 0
  {
    if n > 0 { TotalCallsNone(n - 1); }
  }

  lemma {:induction false} TotalCallsAll(sched: seq<Event>, n: nat)
    requires InRange(sched, n)
    ensures TotalCalls(sched, n) == |sched|
    decreases |sched|
  {
    if sched == [] {
      TotalCallsNone(n);
    } else {
      TotalCallsStep(sched, n);
      TotalCallsAll(sched[..|sched| - 1], n);
    }
  }

  lemma {:induction false} TruesAreCalls(sched: seq<Event>, ws: seq<Limiter.Worker>)
    requires forall w | 0 <= w < |ws| :: |CallsOf(sched, w)| == ws[w].trues
    ensures Limiter.Trues(ws) == TotalCalls(sched, |ws|)
    decreases |ws|
  {
    if ws != [] { TruesAreCalls(sched, ws[..|ws| - 1]); }
  }

  lemma {:induction false} CallsWithinTrues(sched: seq<Event>, ws: seq<Limiter.Worker>)
    requires forall w | 0 <= w < |ws| :: |CallsOf(sched, w)| <= ws[w].trues
    ensures TotalCalls(sched, |ws|) <= Limiter.Trues(ws)
    decreases |ws|
  {
    hide CallsOf;
    if ws != [] { CallsWithinTrues(sched, ws[..|ws| - 1]); }
  }

  lemma {:induction false} LimiterStepsLast(acts: seq<Action>, a: Action)
    ensures |LimiterSteps(acts + [a])| == |LimiterSteps(acts)| + OneIf(a.Limit?)
    decreases |acts|
  {
    if acts == [] {
      assert ([] + [a])[1..] == [];
    } else {
      assert (acts + [a])[1..] == acts[1..] + [a];
      LimiterStepsLast(acts[1..], a);
    }
  }

  /** A step is one of the limiter or ends a call. */
  lemma {:induction false} StepsAreTwoKinds(acts: seq<Action>)
    ensures |acts| == |LimiterSteps(acts)| + |Made(acts)|
    decreases |acts|
  {
    if acts != [] {
      var pre, a := acts[..|acts| - 1], acts[|acts| - 1];
      assert pre + [a] == acts;
      StepsAreTwoKinds(pre);
      LimiterStepsLast(pre, a);
    }
    hide LimiterSteps;
  }

  /** At no point have more calls been recorded than More allowed. */
  lemma MadeWithinTrues(limit: nat, workers: nat, stops: nat, acts: seq<Action>)
    requires Plays(Begin(limit, workers, stops), acts)
    ensures |Made(acts)| <= Limiter.Trues(Played(Begin(limit, workers, stops), acts).limiter.workers)
  {
    hide Limiter.Trues, CallsOf, Plays, Played, Made;
    var ws := Played(Begin(limit, workers, stops), acts).limiter.workers;
    AlwaysBalanced(limit, workers, stops, acts);
    CallsWithinTrues(Made(acts), ws);
    TotalCallsAll(Made(acts), |ws|);
  }

  /** With a limit n > 0 the whole benchmark ends: no schedule of the workers, the limiter and the calls
      to Stop is longer than this. */
  lemma SystemEnds(n: nat, workers: nat, stops: nat, acts: seq<Action>)
    requires n > 0 && Plays(Begin(n, workers, stops), acts)
    ensures |acts| <= 4 * (n + workers + stops) + n
  {
    hide Limiter.Runs, Limiter.After, Limiter.Trues, LimiterSteps, Plays, Played, Made;
    LimiterRuns(Begin(n, workers, stops), acts);
    Limiter.LimitedRunsEnd(n, workers, stops, LimiterSteps(acts));
    Limiter.Budget(n, workers, stops, LimiterSteps(acts));
    MadeWithinTrues(n, workers, stops, acts);
    StepsAreTwoKinds(acts);
  }

  /** A benchmark run to its end: some interleaving after which all workers have seen false. */
  predicate Finished(limit: nat, workers: nat, stops: nat, acts: seq<Action>) {
    && Plays(Begin(limit, workers, stops), acts)
    && Limiter.AllDone(Played(Begin(limit, workers, stops), acts).limiter)
  }

  /** A schedule that cannot go on has come to the end: no worker waits for another. */
  lemma StuckIsFinished(limit: nat, workers: nat, stops: nat, acts: seq<Action>)
    requires Plays(Begin(limit, workers, stops), acts)
    requires forall a :: !CanDo(Played(Begin(limit, workers, stops), acts), a)
    ensures Finished(limit, workers, stops, acts) && Played(Begin(limit, workers, stops), acts).busy == {}
  {
    hide Plays, Played;
    var s := Played(Begin(limit, workers, stops), acts);
    forall w: nat ensures w !in s.busy { assert !CanDo(s, Finish(w, Unary(0))); }
    forall i | 0 <= i < |s.limiter.workers| ensures s.limiter.workers[i].pc == Limiter.Finished {
      assert !CanDo(s, Limit(Limiter.MoreStep(i)));
    }
  }

  /** By then every call that More allowed has been recorded. */
  lemma FinishedTotal(limit: nat, workers: nat, stops: nat, acts: seq<Action>)
    requires Finished(limit, workers, stops, acts)
    ensures InRange(Made(acts), workers)
    ensures |Made(acts)| == Limiter.Trues(Played(Begin(limit, workers, stops), acts).limiter.workers)
  {
    hide Limiter.Runs, Limiter.After, Limiter.Invariant, Limiter.Trues, CallsOf, Plays, Played, Made;
    var s0 := Begin(limit, workers, stops);
    var ws := Played(s0, acts).limiter.workers;
    AlwaysBalanced(limit, workers, stops, acts);
    LimiterRuns(s0, acts);
    Limiter.StartInvariant(limit, workers, stops);
    Limiter.InvariantAlways(s0.limiter, limit, LimiterSteps(acts));
    TruesAreCalls(Made(acts), ws);
    TotalCallsAll(Made(acts), |ws|);
  }

  /** With a limit n > 0 the reported number of requests is at most n; if nobody stopped the run it
      is exactly n, and errors and successes add up to it. */
  lemma ReportsTheLimit(n: nat, workers: nat, stops: nat, acts: seq<Action>)
    requires n > 0 && workers > 0 && Finished(n, workers, stops, acts)
    ensures InRange(Made(acts), workers)
    ensures var r := Merged(StatesAfter(Made(acts), workers));
            && r.totalErrors + r.totalSuccess == r.totalRequests <= n
            && (!Played(Begin(n, workers, stops), acts).limiter.cancelled ==> r.totalRequests == n)
  {
    hide Limiter.Runs, Limiter.After, Limiter.Trues, Merged, StatesAfter, Plays, Played, Made;
    FinishedTotal(n, workers, stops, acts);
    ReportConserves(Made(acts), workers);
    LimiterRuns(Begin(n, workers, stops), acts);
    Limiter.Budget(n, workers, stops, LimiterSteps(acts));
  }

  /** With a user limit and a rate cap of at least one, neither is exceeded by the report. */
  lemma ReportsWithinTheCap(maxRequests: nat, rps: nat, duration: nat, workers: nat, stops: nat, acts: seq<Action>)
    requires workers > 0 && rps > 0 && duration > 0 && Limiter.RateCap(rps, duration) >= 1
    requires Finished(Limiter.EffectiveMax(maxRequests, rps, duration), workers, stops, acts)
    ensures InRange(Made(acts), workers)
    ensures var total := Merged(StatesAfter(Made(acts), workers)).totalRequests;
            total <= Limiter.RateCap(rps, duration) && (maxRequests > 0 ==> total <= maxRequests)
  {
    hide Limiter.Runs, Limiter.After, Limiter.Trues, Limiter.RateCap, Limiter.EffectiveMax, Merged, StatesAfter,
         Plays, Played, Made;
    var limit := Limiter.EffectiveMax(maxRequests, rps, duration);
    FinishedTotal(limit, workers, stops, acts);
    ReportConserves(Made(acts), workers);
    LimiterRuns(Begin(limit, workers, stops), acts);
    Limiter.BenchmarkCap(maxRequests, rps, duration, workers, stops, LimiterSteps(acts));
  }

  // ---- The limit in numbers

  predicate NobodyStops(acts: seq<Action>) {
    forall i | 0 <= i < |acts| :: !(acts[i].Limit? && acts[i].step.StopStep?)
  }

  lemma {:induction false} NotCancelled(s: System, acts: seq<Action>)
    requires Plays(s, acts) && NobodyStops(acts)
    ensures Played(s, acts).limiter.cancelled == s.limiter.cancelled
    decreases |acts|
  {
    hide CanDo, Do;
    if acts != [] {
      MoreDoesNotCancel(s, acts[0]);
      assert forall i | 0 <= i < |acts[1..]| :: acts[1..][i] == acts[i + 1];
      NotCancelled(Do(s, acts[0]), acts[1..]);
    }
  }

  lemma MoreDoesNotCancel(s: System, a: Action)
    requires CanDo(s, a) && !(a.Limit? && a.step.StopStep?)
    ensures Do(s, a).limiter.cancelled == s.limiter.cancelled
  {
  }

  /** Only the user's limit counts when there is no rate or no duration, or it is not above what rate and
      duration, in nanoseconds, allow. */
  predicate UserLimits(maxRequests: nat, rps: nat, duration: nat) {
    maxRequests > 0 && (rps == 0 || duration == 0 || maxRequests * 1_000_000_000 <= rps * duration)
  }

  /** Rate and duration allow at least one request, and less than the user does. */
  predicate RateLimits(maxRequests: nat, rps: nat, duration: nat) {
    && rps * duration >= 1_000_000_000
    && (maxRequests == 0 || rps * duration < maxRequests * 1_000_000_000)
  }

  /** How many requests t a benchmark that was stopped or not may report. */
  predicate KeepsLimits(maxRequests: nat, rps: nat, duration: nat, stopped: bool, t: nat) {
    && (UserLimits(maxRequests, rps, duration) ==> t <= maxRequests && (!stopped ==> t == maxRequests))
    && (RateLimits(maxRequests, rps, duration) ==>
          t * 1_000_000_000 <= rps * duration && (!stopped ==> rps * duration < (t + 1) * 1_000_000_000))
  }

  lemma LimitInNumbers(maxRequests: nat, rps: nat, duration: nat, stopped: bool, t: nat)
    requires var limit := Limiter.EffectiveMax(maxRequests, rps, duration);
             limit > 0 ==> t <= limit && (!stopped ==> t == limit)
    ensures KeepsLimits(maxRequests, rps, duration, stopped, t)
  {
    var p := rps * duration;
    if RateLimits(maxRequests, rps, duration) { BothPositive(rps, duration); }
    CapInNumbers(maxRequests, rps, duration, p);
  }

  lemma BothPositive(rps: nat, duration: nat)
    requires rps * duration > 0
    ensures rps > 0 && duration > 0
  {
  }

  lemma CapInNumbers(maxRequests: nat, rps: nat, duration: nat, p: nat)
    requires p == rps * duration
    ensures var cap := Limiter.RateCap(rps, duration);
            cap * 1_000_000_000 <= p < (cap + 1) * 1_000_000_000
  {
  }

  // ---- The states and the merge loop

  /** The index of the state of worker j of connection i. */
  function Slot(i: nat, concurrency: nat, j: nat): nat { i * concurrency + j }

  function ConnOf(k: nat, concurrency: nat): nat
    requires concurrency > 0
  {
    k / concurrency
  }

  function WorkerOf(k: nat, concurrency: nat): nat
    requires concurrency > 0
  {
    k % concurrency
  }

  lemma SlotSteps(i: nat, concurrency: nat, j: nat)
    ensures Slot(i, concurrency, j + 1) == Slot(i, concurrency, j) + 1
    ensures Slot(i, concurrency, concurrency) == Slot(i + 1, concurrency, 0)
    ensures Slot(0, concurrency, 0) == 0
  {
  }

  lemma MulAtMost(a: nat, b: nat, c: nat)
    requires a <= b
    ensures a * c <= b * c
  {
    assert b * c - a * c == (b - a) * c;
  }

  lemma QuotientUnique(p: nat, q: nat, c: nat, r: nat, t: nat)
    requires p * c + r == q * c + t && r < c && t < c
    ensures p == q && r == t
  {
    if p < q { MulAtMost(p + 1, q, c); }
    if q < p { MulAtMost(q + 1, p, c); }
  }

  /** Workers and states correspond one to one. */
  lemma SlotOfWorker(conns: nat, concurrency: nat, i: nat, j: nat)
    requires i < conns && j < concurrency
    ensures Slot(i, concurrency, j) < Slot(conns, concurrency, 0)
    ensures ConnOf(Slot(i, concurrency, j), concurrency) == i && WorkerOf(Slot(i, concurrency, j), concurrency) == j
  {
    MulAtMost(i + 1, conns, concurrency);
    var k := i * concurrency + j;
    QuotientUnique(i, k / concurrency, concurrency, j, k % concurrency);
  }

  lemma WorkerOfSlot(conns: nat, concurrency: nat, k: nat)
    requires k < Slot(conns, concurrency, 0)
    ensures concurrency > 0 && ConnOf(k, concurrency) < conns && WorkerOf(k, concurrency) < concurrency
    ensures Slot(ConnOf(k, concurrency), concurrency, WorkerOf(k, concurrency)) == k
  {
    if concurrency > 0 && k / concurrency >= conns { MulAtMost(conns, k / concurrency, concurrency); }
  }

  lemma NoSlots(conns: nat, concurrency: nat)
    ensures Slot(conns, concurrency, 0) == 0 <==> conns == 0 || concurrency == 0
  {
    if conns > 0 { MulAtMost(1, conns, concurrency); }
  }

  ghost predicate Filled(s: seq<BenchmarkState?>, k: nat, concurrency: nat)
    requires concurrency > 0
    reads s
  {
    && k <= |s|
    && (forall a | 0 <= a < k :: s[a] != null && s[a].Snapshot() == Empty && s[a].statter == ConnOf(a, concurrency))
    && (forall a, b | 0 <= a < b < k :: s[a] != s[b])
  }

  /** Every connection gets a state for each of its workers. */
  method NewStates(conns: nat, concurrency: nat) returns (states: array<BenchmarkState?>)
    ensures fresh(states) && states.Length == Slot(conns, concurrency, 0)
    ensures concurrency > 0 ==> Filled(states[..], states.Length, concurrency)
    ensures forall k | 0 <= k < states.Length :: fresh(states[k])
  {
    hide Slot, ConnOf, WorkerOf;
    states := new BenchmarkState?[Slot(conns, concurrency, 0)];
    SlotSteps(0, concurrency, 0);
    for i := 0 to conns
      invariant concurrency > 0 ==> Filled(states[..], Slot(i, concurrency, 0), concurrency)
      invariant forall k | 0 <= k < Slot(i, concurrency, 0) && k < states.Length :: fresh(states[k])
    {
      for j := 0 to concurrency
        invariant concurrency > 0 ==> Filled(states[..], Slot(i, concurrency, j), concurrency)
        invariant forall k | 0 <= k < Slot(i, concurrency, j) && k < states.Length :: fresh(states[k])
      {
        SlotOfWorker(conns, concurrency, i, j);
        SlotSteps(i, concurrency, j);
        var state := new BenchmarkState.New(i);
        states[Slot(i, concurrency, j)] := state;
      }
      SlotSteps(i, concurrency, 0);
    }
    if concurrency == 0 { NoSlots(conns, concurrency); }
  }

  /** The worker goroutines, as pairs of a connection and the index of the state given to it, in the
      order in which they are launched: every state goes to one worker, of the right connection. */
  method Launch(conns: nat, concurrency: nat) returns (workers: seq<(nat, nat)>)
    ensures forall k: nat | k < Slot(conns, concurrency, 0) :: GetsWorker(k, concurrency, workers)
    ensures forall p, q | 0 <= p < q < |workers| :: workers[p].1 != workers[q].1
  {
    hide Slot, ConnOf, WorkerOf, LaunchedAt;
    workers := [];
    SlotSteps(0, conns, 0);
    for j := 0 to concurrency
      invariant |workers| == Slot(j, conns, 0)
      invariant forall p | 0 <= p < |workers| :: LaunchedAt(workers[p], p, conns, concurrency)
    {
      for i := 0 to conns
        invariant |workers| == Slot(j, conns, i)
        invariant forall p | 0 <= p < |workers| :: LaunchedAt(workers[p], p, conns, concurrency)
      {
        LaunchedNext(conns, concurrency, i, j);
        SlotSteps(j, conns, i);
        workers := workers + [(i, Slot(i, concurrency, j))];
      }
      SlotSteps(j, conns, 0);
    }
    LaunchCovers(workers, conns, concurrency);
  }

  /** State k goes to a worker of its connection. */
  predicate GetsWorker(k: nat, concurrency: nat, workers: seq<(nat, nat)>) {
    concurrency > 0 && (ConnOf(k, concurrency), k) in workers
  }

  predicate LaunchedAt(w: (nat, nat), p: nat, conns: nat, concurrency: nat) {
    && conns > 0 && p < Slot(concurrency, conns, 0)
    && w == (WorkerOf(p, conns), Slot(WorkerOf(p, conns), concurrency, ConnOf(p, conns)))
  }

  lemma HasWorker(k: nat, concurrency: nat, workers: seq<(nat, nat)>)
    requires GetsWorker(k, concurrency, workers)
    ensures exists g :: g in workers && g.1 == k
  {
    assert (ConnOf(k, concurrency), k) in workers;
  }

  lemma LaunchedNext(conns: nat, concurrency: nat, i: nat, j: nat)
    requires i < conns && j < concurrency
    ensures LaunchedAt((i, Slot(i, concurrency, j)), Slot(j, conns, i), conns, concurrency)
  {
    hide Slot, ConnOf, WorkerOf;
    SlotOfWorker(concurrency, conns, j, i);
  }

  /** The position at which a worker was launched can be read off its state. */
  lemma LaunchedSlot(w: (nat, nat), p: nat, conns: nat, concurrency: nat)
    requires LaunchedAt(w, p, conns, concurrency)
    ensures concurrency > 0 && w.0 == ConnOf(w.1, concurrency)
    ensures p == Slot(WorkerOf(w.1, concurrency), conns, ConnOf(w.1, concurrency))
  {
    hide Slot, ConnOf, WorkerOf;
    WorkerOfSlot(concurrency, conns, p);
    SlotOfWorker(conns, concurrency, WorkerOf(p, conns), ConnOf(p, conns));
  }

  /** Where the worker of a state is launched. */
  lemma LaunchPosition(k: nat, conns: nat, concurrency: nat) returns (p: nat)
    requires k < Slot(conns, concurrency, 0)
    ensures concurrency > 0 && LaunchedAt((ConnOf(k, concurrency), k), p, conns, concurrency)
  {
    hide Slot, ConnOf, WorkerOf;
    WorkerOfSlot(conns, concurrency, k);
    p := Slot(WorkerOf(k, concurrency), conns, ConnOf(k, concurrency));
    LaunchedNext(conns, concurrency, ConnOf(k, concurrency), WorkerOf(k, concurrency));
  }

  lemma LaunchedOnce(w: (nat, nat), v: (nat, nat), p: nat, conns: nat, concurrency: nat)
    requires LaunchedAt(w, p, conns, concurrency) && LaunchedAt(v, p, conns, concurrency)
    ensures w == v && p < Slot(concurrency, conns, 0)
  {
  }

  lemma LaunchCovers(workers: seq<(nat, nat)>, conns: nat, concurrency: nat)
    requires |workers| == Slot(concurrency, conns, 0)
    requires forall p | 0 <= p < |workers| :: LaunchedAt(workers[p], p, conns, concurrency)
    ensures forall k: nat | k < Slot(conns, concurrency, 0) :: GetsWorker(k, concurrency, workers)
    ensures forall p, q | 0 <= p < q < |workers| :: workers[p].1 != workers[q].1
  {
    hide Slot, ConnOf, WorkerOf, LaunchedAt;
    forall k: nat | k < Slot(conns, concurrency, 0) ensures GetsWorker(k, concurrency, workers)
    {
      var p := LaunchPosition(k, conns, concurrency);
      LaunchedOnce((ConnOf(k, concurrency), k), (ConnOf(k, concurrency), k), p, conns, concurrency);
      LaunchedOnce((ConnOf(k, concurrency), k), workers[p], p, conns, concurrency);
    }
    forall p, q | 0 <= p < q < |workers| ensures workers[p].1 != workers[q].1 {
      LaunchedSlot(workers[p], p, conns, concurrency);
      LaunchedSlot(workers[q], q, conns, concurrency);
    }
  }

  ghost function Snapshots(states: seq<BenchmarkState>): (ss: seq<Stats>)
    reads states
    ensures |ss| == |states|
    ensures forall i | 0 <= i < |states| :: ss[i] == states[i].Snapshot()
  {
    if states == [] then [] else Snapshots(states[..|states| - 1]) + [states[|states| - 1].Snapshot()]
  }

  predicate Distinct(states: seq<BenchmarkState>) { forall a, b | 0 <= a < b < |states| :: states[a] != states[b] }

  lemma SnapshotsStep(states: seq<BenchmarkState>, w: nat, ss: seq<Stats>, s: Stats)
    requires w < |states| == |ss| && states[w].Snapshot() == s
    requires forall k | 0 <= k < |states| && k != w :: states[k].Snapshot() == ss[k]
    ensures Snapshots(states) == ss[w := s]
  {
  }

  lemma {:induction false} PlaysPrefix(s: System, acts: seq<Action>, k: nat)
    requires Plays(s, acts) && k <= |acts|
    ensures Plays(s, acts[..k])
    decreases |acts|
  {
    hide Plays, Played, CanDo;
    if k == |acts| {
      assert acts[..k] == acts;
    } else {
      var n := |acts| - 1;
      assert acts[..n] + [acts[n]] == acts && acts[..n][..k] == acts[..k];
      PlaysStep(s, acts[..n], acts[n]);
      PlaysPrefix(s, acts[..n], k);
    }
  }

  /** One more action. */
  lemma PlaysAt(s: System, acts: seq<Action>, t: nat)
    requires Plays(s, acts) && t < |acts|
    ensures Plays(s, acts[..t]) && Plays(s, acts[..t + 1]) && CanDo(Played(s, acts[..t]), acts[t])
    ensures Played(s, acts[..t + 1]) == Do(Played(s, acts[..t]), acts[t])
  {
    hide Plays, Played, CanDo, Do;
    assert acts[..t] + [acts[t]] == acts[..t + 1];
    PlaysPrefix(s, acts, t + 1);
    PlaysStep(s, acts[..t], acts[t]);
  }

  lemma MadeStep(acts: seq<Action>, t: nat)
    requires t < |acts|
    ensures Made(acts[..t + 1]) ==
            if acts[t].Finish? then Made(acts[..t]) + [Event(acts[t].worker, acts[t].call)] else Made(acts[..t])
  {
    assert acts[..t + 1][..t] == acts[..t];
  }

  lemma SameCrew(limit: nat, workers: nat, stops: nat, acts: seq<Action>)
    requires Plays(Begin(limit, workers, stops), acts)
    ensures |Played(Begin(limit, workers, stops), acts).limiter.workers| == workers
  {
    hide Plays, Played, Limiter.Runs, Limiter.After, Limiter.Invariant, LimiterSteps;
    LimiterRuns(Begin(limit, workers, stops), acts);
    Limiter.StartInvariant(limit, workers, stops);
    Limiter.InvariantAlways(Begin(limit, workers, stops).limiter, limit, LimiterSteps(acts));
  }

  /** What one more action adds. */
  lemma MadeNext(limit: nat, workers: nat, stops: nat, acts: seq<Action>, t: nat)
    requires Plays(Begin(limit, workers, stops), acts) && t < |acts|
    ensures var s := Begin(limit, workers, stops);
            && Plays(s, acts[..t]) && Plays(s, acts[..t + 1]) && CanDo(Played(s, acts[..t]), acts[t])
            && Played(s, acts[..t + 1]) == Do(Played(s, acts[..t]), acts[t])
    ensures InRange(Made(acts[..t + 1]), workers)
    ensures acts[t].Finish? ==> acts[t].worker < workers
    ensures var before := StatesAfter(Made(acts[..t]), workers);
            StatesAfter(Made(acts[..t + 1]), workers) ==
            if acts[t].Finish? then before[acts[t].worker := Record(before[acts[t].worker], acts[t].call)] else before
  {
    hide Plays, Played, CanDo, Do, Made, StatesAfter, Record, CallsOf;
    PlaysAt(Begin(limit, workers, stops), acts, t);
    AlwaysBalanced(limit, workers, stops, acts[..t + 1]);
    SameCrew(limit, workers, stops, acts[..t + 1]);
    MadeStep(acts, t);
    if acts[t].Finish? { RecordedStep(Made(acts[..t]), Event(acts[t].worker, acts[t].call), workers); }
  }

  /** One step of a goroutine: of More or Stop, or of a worker that records how its call went. The worker
      with number k is the one whose state is states[k]. */
  method TakeStep(run: Limiter.Run, workers: seq<(nat, nat)>, states: seq<BenchmarkState>, a: Action,
                  ghost s: System, ghost concurrency: nat)
    requires Distinct(states) && CanDo(s, a) && run.Snapshot() == s.limiter
    requires a.Finish? ==> a.worker < |states| && GetsWorker(a.worker, concurrency, workers)
    modifies run, states
    ensures run.Snapshot() == Do(s, a).limiter
    ensures var before := old(Snapshots(states));
            Snapshots(states) == if a.Finish? then before[a.worker := Record(before[a.worker], a.call)] else before
  {
    hide GetsWorker, Limiter.MoreNext, Limiter.StopNext, Limiter.Enabled, Record;
    ghost var before := Snapshots(states);
    match a {
      case Limit(MoreStep(k)) => run.StepMore(k);
      case Limit(StopStep(j)) => run.StepStop(j);
      case Finish(k, call) =>
        HasWorker(k, concurrency, workers);
        var g :| g in workers && g.1 == k;
        RecordCall(states[g.1], call);
        SnapshotsStep(states, k, before, Record(before[k], call));
    }
  }

  /** The workers run, each in its loop: More, a call, a record, while others step in between. */
  method RunWorkers(run: Limiter.Run, workers: seq<(nat, nat)>, states: seq<BenchmarkState>, acts: seq<Action>,
                    ghost concurrency: nat, ghost limit: nat, ghost stops: nat)
    requires Distinct(states)
    requires forall k: nat | k < |states| :: GetsWorker(k, concurrency, workers)
    requires forall k | 0 <= k < |states| :: states[k].Snapshot() == Empty
    requires run.Snapshot() == Limiter.Start(limit, |states|, stops)
    requires Plays(Begin(limit, |states|, stops), acts)
    modifies run, states
    ensures run.Snapshot() == Played(Begin(limit, |states|, stops), acts).limiter
    ensures InRange(Made(acts), |states|) && Snapshots(states) == StatesAfter(Made(acts), |states|)
  {
    ghost var s0 := Begin(limit, |states|, stops);
    NothingRecorded(|states|);
    PlayedNothing(s0);
    assert acts[..0] == [];
    for t := 0 to |acts|
      invariant Plays(s0, acts[..t]) && run.Snapshot() == Played(s0, acts[..t]).limiter
      invariant InRange(Made(acts[..t]), |states|) && Snapshots(states) == StatesAfter(Made(acts[..t]), |states|)
    {
      hide Plays, Played, CanDo, Do, Made, StatesAfter, GetsWorker, Distinct, Record;
      MadeNext(limit, |states|, stops, acts, t);
      TakeStep(run, workers, states, acts[t], Played(s0, acts[..t]), concurrency);
    }
    assert acts[..|acts|] == acts;
  }

  /** All states are merged into the first. */
  method MergeAll(states: seq<BenchmarkState>) returns (overall: BenchmarkState)
    requires |states| > 0 && Distinct(states)
    modifies states[0]
    ensures overall == states[0]
    ensures overall.Snapshot() == Merged(old(Snapshots(states)))
  {
    hide Combine;
    overall := states[0];
    ghost var ss := Snapshots(states);
    MergedOne(ss[0]);
    assert ss[..1] == [ss[0]];
    for i := 1 to |states|
      invariant overall.Snapshot() == Merged(ss[..i])
      invariant forall k | 1 <= k < |states| :: states[k].Snapshot() == ss[k]
    {
      hide Merged;
      overall.Merge(states[i]);
      assert ss[..i] + [ss[i]] == ss[..i + 1];
      MergedAppend(ss[..i], ss[i]);
    }
    assert ss[..|states|] == ss;
  }

  /** runBenchmark from the limit and the states to the merged result, for any interleaving of its
      goroutines that ends; null where it panics for want of a state. */
  method RunBenchmark(conns: nat, concurrency: nat, maxRequests: nat, rps: nat, duration: nat, stops: nat,
                      acts: seq<Action>) returns (overall: BenchmarkState?)
    requires Finished(Limiter.EffectiveMax(maxRequests, rps, duration), Slot(conns, concurrency, 0), stops, acts)
    ensures overall == null <==> conns == 0 || concurrency == 0
    ensures InRange(Made(acts), Slot(conns, concurrency, 0))
    ensures overall != null ==>
      overall.Snapshot() == Merged(StatesAfter(Made(acts), Slot(conns, concurrency, 0)))
    ensures var limit := Limiter.EffectiveMax(maxRequests, rps, duration);
            var end := Played(Begin(limit, Slot(conns, concurrency, 0), stops), acts).limiter;
            overall != null && limit > 0 ==>
              && overall.Snapshot().totalRequests <= limit
              && (!end.cancelled ==> overall.Snapshot().totalRequests == limit)
    ensures overall != null ==>
      && KeepsLimits(maxRequests, rps, duration, !NobodyStops(acts), overall.Snapshot().totalRequests)
      && Counts(overall.Snapshot(), Calls(Made(acts)))
  {
    hide Slot, ConnOf, StatesAfter, Merged, Plays, Played, Made, KeepsLimits, NobodyStops, Counts,
         Limiter.EffectiveMax;
    var limit := Limiter.EffectiveMax(maxRequests, rps, duration);
    NoSlots(conns, concurrency);
    FinishedTotal(limit, Slot(conns, concurrency, 0), stops, acts);
    if limit > 0 && Slot(conns, concurrency, 0) > 0 {
      ReportsTheLimit(limit, Slot(conns, concurrency, 0), stops, acts);
    }
    if conns == 0 || concurrency == 0 { return null; }
    var slots := NewStates(conns, concurrency);
    var states: seq<BenchmarkState> := slots[..];
    var run := new Limiter.Run.New(limit, |states|, stops);
    var workers := Launch(conns, concurrency);
    RunWorkers(run, workers, states, acts, concurrency, limit, stops);
    overall := MergeAll(states);
    if NobodyStops(acts) { NotCancelled(Begin(limit, Slot(conns, concurrency, 0), stops), acts); }
    LimitInNumbers(maxRequests, rps, duration, !NobodyStops(acts), overall.Snapshot().totalRequests);
    ReportCounts(Made(acts), Slot(conns, concurrency, 0));
  }
}

/** bench_state.go: the counters a benchmark worker keeps, merging them, and quantiles of latencies
    over exact reals. */
module BenchState {
  import opened Option

  datatype Stats = Stats(
    errors: map<string, nat>, totalErrors: nat, totalSuccess: nat, totalRequests: nat,
    latencies: seq<int>, sent: nat, received: nat)

  const Empty := Stats(map[], 0, 0, 0, [], 0, 0)

  // ---- Error messages

  predicate IsDigit(c: char) { '0' <= c <= '9' }

  /** Every run of digits becomes a single X. */
  function Mask(s: string): string {
    if s == "" then ""
    else
      var n := |s| - 1;
      if !IsDigit(s[n]) then Mask(s[..n]) + [s[n]]
      else if n > 0 && IsDigit(s[n - 1]) then Mask(s[..n])
      else Mask(s[..n]) + "X"
  }

  predicate NoDigits(s: string) { forall i | 0 <= i < |s| :: !IsDigit(s[i]) }

  method ErrorToMessage(origMsg: string) returns (buf: string)
    ensures buf == Mask(origMsg)
  {
    var consecutiveDigits := 0;
    buf := "";
    for i := 0 to |origMsg|
      invariant buf == Mask(origMsg[..i])
      invariant consecutiveDigits >= 0 && (consecutiveDigits > 0 <==> i > 0 && IsDigit(origMsg[i - 1]))
    {
      assert origMsg[..i + 1][..i] == origMsg[..i];
      var c := origMsg[i];
      if c < '0' || c > '9' {
        consecutiveDigits := 0;
      } else {
        c := 'X';
        consecutiveDigits := consecutiveDigits + 1;
        if consecutiveDigits > 1 { continue; }
      }
      buf := buf + [c];
    }
    assert origMsg[..|origMsg|] == origMsg;
  }

  lemma {:induction false} MaskHasNoDigits(s: string)
    ensures NoDigits(Mask(s))
  {
    if s != "" { MaskHasNoDigits(s[..|s| - 1]); }
  }

  lemma {:induction false} MaskFixes(s: string)
    requires NoDigits(s)
    ensures Mask(s) == s
  {
    if s != "" { MaskFixes(s[..|s| - 1]); }
  }

  lemma {:induction false} MaskIdempotent(s: string)
    ensures Mask(Mask(s)) == Mask(s)
  {
    MaskHasNoDigits(s);
    MaskFixes(Mask(s));
  }

  predicate AllDigits(s: string) { forall i | 0 <= i < |s| :: IsDigit(s[i]) }

  /** Unless a run of digits is cut in two, the parts of a message are masked one by one. */
  lemma {:induction false} MaskParts(a: string, b: string)
    requires a == "" || b == "" || !IsDigit(a[|a| - 1]) || !IsDigit(b[0])
    ensures Mask(a + b) == Mask(a) + Mask(b)
    decreases |b|
  {
    if b == "" {
      assert a + b == a;
    } else {
      var n := |b| - 1;
      assert (a + b)[..|a + b| - 1] == a + b[..n] && (a + b)[|a + b| - 1] == b[n];
      MaskParts(a, b[..n]);
      assert n > 0 ==> (a + b)[|a + b| - 2] == b[n - 1];
      assert n == 0 ==> a + b[..n] == a;
    }
  }

  lemma {:induction false} MaskDigits(d: string)
    requires d != "" && AllDigits(d)
    ensures Mask(d) == "X"
  {
    if |d| > 1 { MaskDigits(d[..|d| - 1]); }
  }

  /** A whole run of digits becomes one X; MaskFixes says that everything else stays. */
  lemma MaskRun(a: string, d: string, b: string)
    requires d != "" && AllDigits(d)
    requires (a == "" || !IsDigit(a[|a| - 1])) && (b == "" || !IsDigit(b[0]))
    ensures Mask(a + d + b) == Mask(a) + "X" + Mask(b)
  {
    MaskParts(a, d);
    MaskDigits(d);
    MaskParts(a + d, b);
    hide Mask;
  }

  // ---- Counts

  function Count(m: map<string, nat>, k: string): nat { if k in m then m[k] else 0 }

  function AddCount(m: map<string, nat>, k: string, v: nat): map<string, nat> { m[k := Count(m, k) + v] }

  ghost function Pick(m: map<string, nat>): (k: string)
    requires m != map[]
    ensures k in m
  {
    var k :| k in m; k
  }

  ghost function Sum(m: map<string, nat>): nat {
    if m == map[] then 0 else m[Pick(m)] + Sum(m - {Pick(m)})
  }

  lemma {:induction false} SumRemove(m: map<string, nat>, k: string)
    requires k in m
    ensures Sum(m) == m[k] + Sum(m - {k})
    decreases |m|
  {
    var p := Pick(m);
    if p != k {
      SumRemove(m - {p}, k);
      SumRemove(m - {k}, p);
      assert m - {p} - {k} == m - {k} - {p};
    }
  }

  lemma SumAddCount(m: map<string, nat>, k: string, v: nat)
    ensures Sum(AddCount(m, k, v)) == Sum(m) + v
  {
    var m' := AddCount(m, k, v);
    SumRemove(m', k);
    if k in m {
      SumRemove(m, k);
      assert m' - {k} == m - {k};
    } else {
      assert m' - {k} == m;
    }
  }

  function AddCounts(a: map<string, nat>, b: map<string, nat>): map<string, nat> {
    map k | k in a.Keys + b.Keys :: Count(a, k) + Count(b, k)
  }

  lemma AddCountsAt(a: map<string, nat>, b: map<string, nat>)
    ensures AddCounts(a, b).Keys == a.Keys + b.Keys
    ensures forall k :: Count(AddCounts(a, b), k) == Count(a, k) + Count(b, k)
  {
  }

  lemma AddCountsStep(a: map<string, nat>, b: map<string, nat>, k: string)
    requires k in b
    ensures AddCounts(a, b) == AddCount(AddCounts(a, b - {k}), k, b[k])
  {
    var l, r := AddCounts(a, b), AddCount(AddCounts(a, b - {k}), k, b[k]);
    assert l.Keys == r.Keys;
    forall n | n in l ensures l[n] == r[n] {
      assert n != k ==> Count(b - {k}, n) == Count(b, n);
    }
  }

  lemma AddCountsNothing(a: map<string, nat>)
    ensures AddCounts(a, map[]) == a
  {
  }

  /** A count may be moved from one side of a sum to the other. */
  lemma AddCountsMove(a: map<string, nat>, b: map<string, nat>, k: string)
    requires k in b
    ensures AddCounts(AddCount(a, k, b[k]), b - {k}) == AddCounts(a, b)
  {
    hide AddCounts;
    var l, r := AddCounts(AddCount(a, k, b[k]), b - {k}), AddCounts(a, b);
    AddCountsAt(AddCount(a, k, b[k]), b - {k});
    AddCountsAt(a, b);
    assert l.Keys == r.Keys;
    assert forall n | n in l :: l[n] == Count(l, n) && r[n] == Count(r, n);
  }

  lemma AddCountsAssociates(a: map<string, nat>, b: map<string, nat>, c: map<string, nat>)
    ensures AddCounts(AddCounts(a, b), c) == AddCounts(a, AddCounts(b, c))
  {
    hide AddCounts;
    var l, r := AddCounts(AddCounts(a, b), c), AddCounts(a, AddCounts(b, c));
    AddCountsAt(AddCounts(a, b), c);
    AddCountsAt(a, AddCounts(b, c));
    AddCountsAt(a, b);
    AddCountsAt(b, c);
    assert l.Keys == r.Keys;
    assert forall n | n in l :: l[n] == Count(l, n) && r[n] == Count(r, n);
  }

  lemma {:induction false} SumAddCounts(a: map<string, nat>, b: map<string, nat>)
    ensures Sum(AddCounts(a, b)) == Sum(a) + Sum(b)
    decreases |b|
  {
    if b == map[] {
      assert AddCounts(a, b) == a;
    } else {
      var k := Pick(b);
      SumAddCounts(a, b - {k});
      SumAddCount(AddCounts(a, b - {k}), k, b[k]);
      AddCountsStep(a, b, k);
    }
    hide AddCounts, AddCount;
  }

  // ---- Records and merges

  function AddError(s: Stats, msg: string): Stats {
    s.(totalRequests := s.totalRequests + 1, totalErrors := s.totalErrors + 1,
       errors := AddCount(s.errors, Mask(msg), 1))
  }

  function AddLatency(s: Stats, d: int): Stats {
    s.(totalRequests := s.totalRequests + 1, totalSuccess := s.totalSuccess + 1, latencies := s.latencies + [d])
  }

  function AddMessages(s: Stats, sent: nat, received: nat): Stats {
    s.(sent := s.sent + sent, received := s.received + received)
  }

  function Combine(a: Stats, b: Stats): Stats {
    Stats(AddCounts(a.errors, b.errors), a.totalErrors + b.totalErrors, a.totalSuccess + b.totalSuccess,
          a.totalRequests + b.totalRequests, a.latencies + b.latencies, a.sent + b.sent, a.received + b.received)
  }

  /** Every request is an error or a success, every success has its latency, every error its message. */
  ghost predicate Consistent(s: Stats) {
    && s.totalRequests == s.totalErrors + s.totalSuccess
    && |s.latencies| == s.totalSuccess
    && Sum(s.errors) == s.totalErrors
  }

  lemma RecordsConserve(s: Stats, msg: string, d: int, sent: nat, received: nat)
    requires Consistent(s)
    ensures Consistent(AddError(s, msg)) && Consistent(AddLatency(s, d)) && Consistent(AddMessages(s, sent, received))
  {
    SumAddCount(s.errors, Mask(msg), 1);
  }

  lemma CombineConserves(a: Stats, b: Stats)
    requires Consistent(a) && Consistent(b)
    ensures Consistent(Combine(a, b))
  {
    SumAddCounts(a.errors, b.errors);
  }

  /** The same but for the order of latencies. */
  predicate Same(a: Stats, b: Stats) {
    a.(latencies := []) == b.(latencies := []) && multiset(a.latencies) == multiset(b.latencies)
  }

  lemma CombineSame(a: Stats, b: Stats, a': Stats, b': Stats)
    requires Same(a, a') && Same(b, b')
    ensures Same(Combine(a, b), Combine(a', b'))
  {
  }

  lemma CombineCommutes(a: Stats, b: Stats)
    ensures Same(Combine(a, b), Combine(b, a))
  {
    assert AddCounts(a.errors, b.errors) == AddCounts(b.errors, a.errors);
  }

  lemma CombineAssociates(a: Stats, b: Stats, c: Stats)
    ensures Combine(Combine(a, b), c) == Combine(a, Combine(b, c))
  {
    assert a.latencies + b.latencies + c.latencies == a.latencies + (b.latencies + c.latencies);
    AddCountsAssociates(a.errors, b.errors, c.errors);
    hide AddCounts;
  }

  /** All states merged into the first, in order. */
  function Merged(ss: seq<Stats>): Stats {
    if ss == [] then Empty
    else if |ss| == 1 then ss[0]
    else Combine(Merged(ss[..|ss| - 1]), ss[|ss| - 1])
  }

  lemma {:induction false} MergedConserves(ss: seq<Stats>)
    requires forall i | 0 <= i < |ss| :: Consistent(ss[i])
    ensures Consistent(Merged(ss))
  {
    if |ss| > 1 {
      MergedConserves(ss[..|ss| - 1]);
      CombineConserves(Merged(ss[..|ss| - 1]), ss[|ss| - 1]);
    }
  }

  lemma MergedAppend(ss: seq<Stats>, s: Stats)
    requires ss != []
    ensures Merged(ss + [s]) == Combine(Merged(ss), s)
  {
    assert (ss + [s])[..|ss|] == ss;
  }

  /** Merging b into a and then c is, up to latency order, merging c and then b. */
  lemma CombineSwaps(a: Stats, b: Stats, c: Stats)
    ensures Same(Combine(Combine(a, b), c), Combine(Combine(a, c), b))
  {
    CombineAssociates(a, b, c);
    CombineAssociates(a, c, b);
    CombineCommutes(b, c);
    CombineSame(a, Combine(b, c), a, Combine(c, b));
  }

  function Without(ss: seq<Stats>, i: nat): seq<Stats>
    requires i < |ss|
  {
    ss[..i] + ss[i + 1..]
  }

  lemma SameItself(a: Stats)
    ensures Same(a, a)
  {
  }

  lemma MergedLast(ss: seq<Stats>)
    requires |ss| > 1
    ensures Merged(ss) == Combine(Merged(ss[..|ss| - 1]), ss[|ss| - 1])
  {
  }

  lemma BagWithout(ss: seq<Stats>, i: nat)
    requires i < |ss|
    ensures multiset(Without(ss, i)) == multiset(ss) - multiset{ss[i]}
  {
    assert ss == ss[..i] + [ss[i]] + ss[i + 1..];
  }

  lemma SameBagOne(ss: seq<Stats>, ts: seq<Stats>)
    requires multiset(ss) == multiset(ts)
    ensures |ss| == |ts|
    ensures |ss| <= 1 ==> ss == ts
  {
    assert |ss| == |multiset(ss)| == |ts|;
    if |ss| == 1 { assert ss[0] in multiset(ts); }
  }

  lemma PositionOf(x: Stats, ts: seq<Stats>) returns (i: nat)
    requires x in multiset(ts)
    ensures i < |ts| && ts[i] == x
  {
    i :| i < |ts| && ts[i] == x;
  }

  lemma SameBack(a: Stats, b: Stats)
    requires Same(a, b)
    ensures Same(b, a)
  {
  }

  lemma WithoutLast(ss: seq<Stats>)
    requires ss != []
    ensures Without(ss, |ss| - 1) == ss[..|ss| - 1]
  {
  }

  lemma WithoutFirst(ss: seq<Stats>)
    requires |ss| == 2
    ensures Without(ss, 0) == [ss[1]] && ss[..1] == [ss[0]]
  {
  }

  lemma WithoutInner(ss: seq<Stats>, i: nat)
    requires i < |ss| - 1
    ensures Without(ss, i) == Without(ss[..|ss| - 1], i) + [ss[|ss| - 1]]
  {
  }

  lemma WithoutLength(ss: seq<Stats>, i: nat)
    requires i < |ss|
    ensures |Without(ss, i)| == |ss| - 1
  {
  }

  lemma SameThrough(a: Stats, b: Stats, c: Stats)
    requires Same(a, b) && Same(b, c)
    ensures Same(a, c)
  {
  }

  lemma MergedOne(s: Stats)
    ensures Merged([s]) == s
  {
  }

  /** Any state may be merged last. */
  lemma {:induction false} AnyLast(ss: seq<Stats>, i: nat)
    requires i < |ss| && |ss| > 1
    ensures Same(Merged(ss), Combine(Merged(Without(ss, i)), ss[i]))
  {
    hide Merged, Combine, Same, Without;
    var n := |ss| - 1;
    MergedLast(ss);
    if i == n {
      SameItself(Merged(ss));
      WithoutLast(ss);
    } else if n == 1 {
      WithoutFirst(ss);
      MergedOne(ss[0]);
      MergedOne(ss[1]);
      CombineCommutes(ss[0], ss[1]);
    } else {
      var pre, last := ss[..n], ss[n];
      AnyLast(pre, i);
      WithoutInner(ss, i);
      var rest := Without(pre, i);
      WithoutLength(pre, i);
      MergedAppend(rest, last);
      SameItself(last);
      CombineSame(Merged(pre), last, Combine(Merged(rest), ss[i]), last);
      CombineSwaps(Merged(rest), ss[i], last);
      SameThrough(Merged(ss), Combine(Combine(Merged(rest), ss[i]), last), Combine(Merged(Without(ss, i)), ss[i]));
    }
  }

  /** The order in which states are merged changes only the order of latencies. */
  lemma {:induction false} MergeOrder(ss: seq<Stats>, ts: seq<Stats>)
    requires multiset(ss) == multiset(ts)
    ensures Same(Merged(ss), Merged(ts))
    decreases |ss|
  {
    hide Combine, Same, Merged, Without;
    SameBagOne(ss, ts);
    if |ss| <= 1 {
      SameItself(Merged(ss));
    } else {
      var n := |ss| - 1;
      assert ss[n] in multiset(ss);
      var i := PositionOf(ss[n], ts);
      BagWithout(ss, n);
      BagWithout(ts, i);
      WithoutLast(ss);
      MergeOrder(ss[..n], Without(ts, i));
      MergedLast(ss);
      AnyLast(ts, i);
      SameItself(ss[n]);
      CombineSame(Merged(ss[..n]), ss[n], Merged(Without(ts, i)), ts[i]);
      SameBack(Merged(ts), Combine(Merged(Without(ts, i)), ts[i]));
      SameThrough(Merged(ss), Combine(Merged(Without(ts, i)), ts[i]), Merged(ts));
    }
  }

  // ---- Quantiles

  predicate Sorted(s: seq<int>) { forall i, j | 0 <= i < j < |s| :: s[i] <= s[j] }

  /** math.Round: half away from zero. */
  function Round(x: real): int { if x >= 0.0 then (x + 0.5).Floor else -(-x + 0.5).Floor }

  /** Both neighbours, each weighted by the nearness of the exact position. */
  function Interpolate(a: int, b: int, bias: real): real { (a as real) * (1.0 - bias) + (b as real) * bias }

  /** The latency at a position between indices. */
  function ValueAt(s: seq<int>, exact: real): int
    requires |s| >= 2 && 0.0 <= exact
  {
    var left := exact.Floor;
    if left >= |s| - 1 then s[|s| - 1] else Round(Interpolate(s[left], s[left + 1], exact - left as real))
  }

  /** The exact position of the quantile q, if the last index is m. */
  function Position(q: real, m: real): (x: real)
    requires 0.0 <= q && 0.0 <= m
    ensures 0.0 <= x
  {
    TimesMonotone(0.0, q, m);
    q * m
  }

  /** The quantile q of sorted latencies; None where the code panics. */
  function Quantile(s: seq<int>, q: real): Option<int> {
    if q < 0.0 || q > 1.0 then None
    else if |s| == 0 then Some(0)
    else if |s| == 1 then Some(s[0])
    else Some(ValueAt(s, Position(q, (|s| - 1) as real)))
  }

  lemma TimesMonotone(p: real, q: real, m: real)
    requires 0.0 <= p <= q && 0.0 <= m
    ensures 0.0 <= p * m <= q * m
  {
    assert q * m - p * m == (q - p) * m;
  }

  lemma PositionMonotone(p: real, q: real, m: real)
    requires 0.0 <= p <= q && 0.0 <= m
    ensures Position(p, m) <= Position(q, m)
  {
    TimesMonotone(p, q, m);
  }

  lemma RoundMonotone(x: real, y: real)
    requires x <= y
    ensures Round(x) <= Round(y)
  {
  }

  lemma RoundInt(n: int)
    ensures Round(n as real) == n
  {
  }

  /** An interpolated value lies between its ends, and grows with the bias. */
  lemma InterpolateBetween(a: int, b: int, x: real, y: real)
    requires a <= b && 0.0 <= x <= y <= 1.0
    ensures a as real <= Interpolate(a, b, x) <= Interpolate(a, b, y) <= b as real
  {
    var d := (b - a) as real;
    assert Interpolate(a, b, x) == a as real + d * x;
    assert Interpolate(a, b, y) == a as real + d * y;
    Scale(d, x, y);
  }

  lemma Scale(d: real, x: real, y: real)
    requires d >= 0.0 && 0.0 <= x <= y <= 1.0
    ensures 0.0 <= d * x <= d * y <= d
  {
    assert d * y - d * x == d * (y - x);
    assert d - d * y == d * (1.0 - y);
  }

  /** Two sorted positions. */
  lemma SortedAt(s: seq<int>, i: nat, j: nat)
    requires Sorted(s) && i <= j < |s|
    ensures s[i] <= s[j]
  {
  }

  /** The value at an exact position. */
  lemma ValueBetween(s: seq<int>, exact: real)
    requires |s| >= 2 && 0.0 <= exact && Sorted(s)
    ensures exact.Floor >= |s| - 1 ==> ValueAt(s, exact) == s[|s| - 1]
    ensures exact.Floor < |s| - 1 ==> s[exact.Floor] <= ValueAt(s, exact) <= s[exact.Floor + 1]
  {
    var left := exact.Floor;
    if left < |s| - 1 {
      var bias := exact - left as real;
      InterpolateBetween(s[left], s[left + 1], bias, bias);
      RoundMonotone(s[left] as real, Interpolate(s[left], s[left + 1], bias));
      RoundMonotone(Interpolate(s[left], s[left + 1], bias), s[left + 1] as real);
      RoundInt(s[left]);
      RoundInt(s[left + 1]);
    }
    hide Round, Interpolate;
  }

  lemma ValueMonotone(s: seq<int>, x: real, y: real)
    requires |s| >= 2 && 0.0 <= x <= y && Sorted(s)
    ensures ValueAt(s, x) <= ValueAt(s, y)
  {
    hide Round, Interpolate;
    var i, j := x.Floor, y.Floor;
    if i == j && i < |s| - 1 {
      InterpolateBetween(s[i], s[i + 1], x - i as real, y - i as real);
      RoundMonotone(Interpolate(s[i], s[i + 1], x - i as real), Interpolate(s[i], s[i + 1], y - i as real));
    } else {
      ValueBetween(s, x);
      ValueBetween(s, y);
      if i < |s| - 1 { SortedAt(s, i + 1, if j < |s| - 1 then j else |s| - 1); }
    }
  }

  /** From the second latency on, a quantile is the value at its exact position. */
  lemma QuantileIsValue(s: seq<int>, q: real, m: real)
    requires |s| >= 2 && 0.0 <= q <= 1.0 && m == (|s| - 1) as real
    ensures Quantile(s, q) == Some(ValueAt(s, Position(q, m)))
  {
    hide ValueAt, Position;
  }

  lemma QuantileOfFew(s: seq<int>, q: real)
    ensures !(0.0 <= q <= 1.0) ==> Quantile(s, q) == None
    ensures 0.0 <= q <= 1.0 && |s| < 2 ==> Quantile(s, q) == Some(if s == [] then 0 else s[0])
  {
  }

  lemma QuantileByCases(s: seq<int>, q: real, m: real, exact: real)
    requires |s| >= 2 && 0.0 <= q <= 1.0 && m == (|s| - 1) as real && exact == Position(q, m)
    ensures exact.Floor >= |s| - 1 ==> Quantile(s, q) == Some(s[|s| - 1])
    ensures exact.Floor < |s| - 1 ==>
      && 0 <= exact.Floor
      && Quantile(s, q) == Some(Round(Interpolate(s[exact.Floor], s[exact.Floor + 1], exact - exact.Floor as real)))
  {
    hide Round, Interpolate, Quantile, Position;
    QuantileIsValue(s, q, m);
  }

  /** Quantiles of sorted latencies are monotone and stay within the smallest and the largest. */
  lemma QuantileMonotone(s: seq<int>, p: real, q: real)
    requires Sorted(s) && 0.0 <= p <= q <= 1.0
    ensures Quantile(s, p).Some? && Quantile(s, q).Some?
    ensures Quantile(s, p).value <= Quantile(s, q).value
    ensures |s| > 0 ==> s[0] <= Quantile(s, p).value && Quantile(s, q).value <= s[|s| - 1]
  {
    hide Quantile, Round, Interpolate, ValueAt, Sorted, Position;
    if |s| < 2 {
      QuantileOfFew(s, p);
      QuantileOfFew(s, q);
    } else {
      var m := (|s| - 1) as real;
      PositionMonotone(p, q, m);
      QuantileIsValue(s, p, m);
      QuantileIsValue(s, q, m);
      ValueMonotone(s, Position(p, m), Position(q, m));
      WithinEnds(s, Position(p, m));
      WithinEnds(s, Position(q, m));
    }
  }

  lemma WithinEnds(s: seq<int>, x: real)
    requires |s| >= 2 && 0.0 <= x && Sorted(s)
    ensures s[0] <= ValueAt(s, x) <= s[|s| - 1]
  {
    ValueBetween(s, x);
    var i := x.Floor;
    if i < |s| - 1 {
      SortedAt(s, 0, i);
      SortedAt(s, i + 1, |s| - 1);
    }
    hide ValueAt;
  }

  lemma ValueAtIndex(s: seq<int>, k: nat)
    requires |s| >= 2 && k < |s|
    ensures ValueAt(s, k as real) == s[k]
  {
    hide Round;
    assert (k as real).Floor == k;
    if k < |s| - 1 {
      assert Interpolate(s[k], s[k + 1], 0.0) == s[k] as real;
      RoundInt(s[k]);
    }
  }

  /** The quantile k/(n-1) of n latencies is the one at index k. */
  lemma QuantileExact(s: seq<int>, k: nat)
    requires |s| >= 2 && k < |s|
    ensures Quantile(s, k as real / (|s| - 1) as real) == Some(s[k])
  {
    hide Quantile, ValueAt;
    var m := (|s| - 1) as real;
    QuotientTimes(k as real, m);
    assert Position(k as real / m, m) == k as real;
    hide Position;
    QuantileIsValue(s, k as real / m, m);
    ValueAtIndex(s, k);
  }

  /** The integer nearest to x; from the middle between two, away from zero. */
  predicate Nearest(x: real, r: int) {
    && -0.5 <= r as real - x <= 0.5
    && (r as real - x == 0.5 ==> x > 0.0) && (r as real - x == -0.5 ==> x < 0.0)
  }

  /** The value a part t of the way from the latency at index k to the next, on the line between them. */
  function Line(s: seq<int>, k: nat, t: real): real
    requires k < |s|
  {
    if k + 1 < |s| then s[k] as real + t * (s[k + 1] - s[k]) as real else s[k] as real
  }

  /** The exact position of q is a part t of the way from index k to the next, and r is the value there. */
  predicate OnTheLine(s: seq<int>, q: real, k: nat, t: real, r: int) {
    && k < |s| && 0.0 <= t < 1.0 && q * (|s| - 1) as real == k as real + t
    && Nearest(Line(s, k, t), r)
  }

  /** What a quantile is. */
  ghost predicate IsQuantile(s: seq<int>, q: real, r: Option<int>) {
    if q < 0.0 || q > 1.0 then r == None
    else if s == [] then r == Some(0)
    else r.Some? && exists k: nat, t: real :: OnTheLine(s, q, k, t, r.value)
  }

  lemma RoundsToNearest(x: real)
    ensures Nearest(x, Round(x))
  {
  }

  lemma InterpolateOnLine(s: seq<int>, k: nat, t: real)
    requires k + 1 < |s|
    ensures Interpolate(s[k], s[k + 1], t) == Line(s, k, t)
  {
  }

  lemma PositionAtMost(q: real, m: real)
    requires 0.0 <= q <= 1.0 && 0.0 <= m
    ensures Position(q, m) <= m
  {
    TimesMonotone(q, 1.0, m);
  }

  /** Every quantile lies on the line between the latencies on either side of its exact position. */
  lemma QuantileInterpolates(s: seq<int>, q: real)
    ensures IsQuantile(s, q, Quantile(s, q))
  {
    hide Quantile, Position, Round, Nearest;
    QuantileOfFew(s, q);
    if 0.0 <= q <= 1.0 && s != [] {
      var m := (|s| - 1) as real;
      PositionAtMost(q, m);
      var x := Position(q, m);
      PositionIs(q, m);
      var k, t := x.Floor, x - x.Floor as real;
      if |s| == 1 {
        NearestInt(s[0]);
        assert OnTheLine(s, q, 0, 0.0, s[0]);
      } else {
        QuantileByCases(s, q, m, x);
        LineAt(s, q, k, t, x);
      }
    }
  }

  lemma PositionIs(q: real, m: real)
    requires 0.0 <= q && 0.0 <= m
    ensures Position(q, m) == q * m
  {
  }

  lemma NearestInt(n: int)
    ensures Nearest(n as real, n)
  {
  }

  lemma LineAt(s: seq<int>, q: real, k: nat, t: real, x: real)
    requires |s| >= 2 && x == q * (|s| - 1) as real && k == x.Floor && t == x - k as real && k < |s|
    ensures OnTheLine(s, q, k, t, if k < |s| - 1 then Round(Interpolate(s[k], s[k + 1], t)) else s[k])
  {
    hide Round, Nearest, Interpolate;
    assert t < 1.0;
    if k < |s| - 1 {
      hide Line;
      InterpolateOnLine(s, k, t);
      RoundsToNearest(Interpolate(s[k], s[k + 1], t));
    } else {
      NearestInt(s[k]);
    }
  }

  /** There is only one such value. */
  lemma QuantileIsUnique(s: seq<int>, q: real, a: Option<int>, b: Option<int>)
    requires IsQuantile(s, q, a) && IsQuantile(s, q, b)
    ensures a == b
  {
    if 0.0 <= q <= 1.0 && s != [] {
      var k: nat, t: real :| OnTheLine(s, q, k, t, a.value);
      var j: nat, u: real :| OnTheLine(s, q, j, u, b.value);
      hide Nearest, Line;
      SamePosition(k, t, j, u);
      NearestIsUnique(Line(s, k, t), a.value, b.value);
    }
  }

  /** In numbers: a part t of the way from one latency to the next. */
  lemma QuantileBetween(s: seq<int>, q: real, k: nat, t: real)
    requires k + 1 < |s| && 0.0 <= t < 1.0 && 0.0 <= q <= 1.0 && q * (|s| - 1) as real == k as real + t
    ensures Quantile(s, q).Some?
    ensures Nearest(s[k] as real + t * (s[k + 1] - s[k]) as real, Quantile(s, q).value)
  {
    hide Quantile, Nearest, OnTheLine;
    QuantileInterpolates(s, q);
    var j: nat, u: real :| OnTheLine(s, q, j, u, Quantile(s, q).value);
    ItsLine(s, q, j, u, Quantile(s, q).value, k, t);
  }

  lemma ItsLine(s: seq<int>, q: real, j: nat, u: real, r: int, k: nat, t: real)
    requires OnTheLine(s, q, j, u, r) && k < |s| && 0.0 <= t < 1.0 && q * (|s| - 1) as real == k as real + t
    ensures Nearest(Line(s, k, t), r)
  {
    hide Nearest, Line;
    SamePosition(k, t, j, u);
  }

  lemma NearestIsUnique(x: real, a: int, b: int)
    requires Nearest(x, a) && Nearest(x, b)
    ensures a == b
  {
  }

  lemma SamePosition(k: nat, t: real, j: nat, u: real)
    requires 0.0 <= t < 1.0 && 0.0 <= u < 1.0 && k as real + t == j as real + u
    ensures k == j && t == u
  {
    assert (k - j) as real == u - t;
  }

  lemma QuotientTimes(a: real, b: real)
    requires b > 0.0 && 0.0 <= a <= b
    ensures 0.0 <= a / b <= 1.0 && (a / b) * b == a
  {
  }

  lemma LastIsLargest(s: seq<int>, x: int)
    requires Sorted(s) && x in multiset(s)
    ensures s != [] && x <= s[|s| - 1]
  {
    var i :| 0 <= i < |s| && s[i] == x;
    SortedAt(s, i, |s| - 1);
  }

  lemma BagLast(s: seq<int>)
    requires s != []
    ensures multiset(s[..|s| - 1]) == multiset(s) - multiset{s[|s| - 1]}
    ensures s[|s| - 1] in multiset(s)
  {
    assert s == s[..|s| - 1] + [s[|s| - 1]];
  }

  lemma SameLength(s: seq<int>, t: seq<int>)
    requires multiset(s) == multiset(t)
    ensures |s| == |t|
  {
    assert |s| == |multiset(s)| == |t|;
  }

  lemma SameLast(s: seq<int>, t: seq<int>)
    requires Sorted(s) && Sorted(t) && multiset(s) == multiset(t) && |s| == |t| > 0
    ensures s[|s| - 1] == t[|t| - 1]
    ensures multiset(s[..|s| - 1]) == multiset(t[..|t| - 1])
  {
    hide Sorted;
    BagLast(s);
    BagLast(t);
    LastIsLargest(t, s[|s| - 1]);
    LastIsLargest(s, t[|t| - 1]);
  }

  lemma EqualByLast(s: seq<int>, t: seq<int>)
    requires |s| == |t| > 0 && s[..|s| - 1] == t[..|s| - 1] && s[|s| - 1] == t[|s| - 1]
    ensures s == t
  {
    assert s == s[..|s| - 1] + [s[|s| - 1]] && t == t[..|s| - 1] + [t[|s| - 1]];
  }

  /** A sorted sequence is determined by its elements. */
  lemma {:induction false} SortedUnique(s: seq<int>, t: seq<int>)
    requires Sorted(s) && Sorted(t) && multiset(s) == multiset(t)
    ensures s == t
    decreases |s|
  {
    hide Sorted;
    SameLength(s, t);
    if s != [] {
      var n := |s| - 1;
      SameLast(s, t);
      SortedPrefix(s);
      SortedPrefix(t);
      SortedUnique(s[..n], t[..n]);
      EqualByLast(s, t);
    }
  }

  lemma SortedPrefix(s: seq<int>)
    requires Sorted(s) && s != []
    ensures Sorted(s[..|s| - 1])
  {
  }

  /** Reported quantiles do not depend on the order in which states were merged. */
  lemma QuantilesIgnoreMergeOrder(ss: seq<Stats>, ts: seq<Stats>, s: seq<int>, t: seq<int>, q: real)
    requires multiset(ss) == multiset(ts)
    requires Sorted(s) && multiset(s) == multiset(Merged(ss).latencies)
    requires Sorted(t) && multiset(t) == multiset(Merged(ts).latencies)
    ensures Quantile(s, q) == Quantile(t, q)
  {
    hide Merged, Quantile, Sorted;
    MergeOrder(ss, ts);
    SortedUnique(s, t);
  }

  // ---- The state of a worker

  class BenchmarkState {
    var errors: map<string, nat>
    var totalErrors: nat
    var totalSuccess: nat
    var totalRequests: nat
    var latencies: seq<int>
    var sent: nat
    var received: nat
    /** The connection whose statistics the state also emits. */
    const statter: nat

    ghost function Snapshot(): Stats
      reads this
    {
      Stats(errors, totalErrors, totalSuccess, totalRequests, latencies, sent, received)
    }

    constructor New(statter: nat)
      ensures Snapshot() == Empty && this.statter == statter
    {
      this.statter := statter;
      errors, totalErrors, totalSuccess, totalRequests := map[], 0, 0, 0;
      latencies, sent, received := [], 0, 0;
    }

    method RecordRequest()
      modifies this`totalRequests
      ensures totalRequests == old(totalRequests) + 1
    {
      totalRequests := totalRequests + 1;
    }

    method RecordError(err: string)
      modifies this
      ensures Snapshot() == AddError(old(Snapshot()), err)
    {
      RecordRequest();
      var msg := ErrorToMessage(err);
      errors := errors[msg := Count(errors, msg) + 1];
      totalErrors := totalErrors + 1;
    }

    method RecordLatency(d: int)
      modifies this
      ensures Snapshot() == AddLatency(old(Snapshot()), d)
    {
      RecordRequest();
      latencies := latencies + [d];
      totalSuccess := totalSuccess + 1;
    }

    method RecordStreamMessages(s: nat, r: nat)
      modifies this
      ensures Snapshot() == AddMessages(old(Snapshot()), s, r)
    {
      sent := sent + s;
      received := received + r;
    }

    /** The loop over the other state's errors visits them in any order. */
    method Merge(other: BenchmarkState)
      requires other != this
      modifies this
      ensures Snapshot() == Combine(old(Snapshot()), other.Snapshot())
    {
      hide AddCounts;
      var rest := other.errors;
      while rest != map[]
        invariant rest.Keys <= other.errors.Keys
        invariant AddCounts(errors, rest) == AddCounts(old(errors), other.errors)
        invariant unchanged(this`totalErrors) && unchanged(this`totalSuccess) && unchanged(this`totalRequests)
        invariant unchanged(this`latencies) && unchanged(this`sent) && unchanged(this`received)
        decreases rest.Keys
      {
        var k :| k in rest;
        AddCountsMove(errors, rest, k);
        errors := errors[k := Count(errors, k) + rest[k]];
        rest := rest - {k};
      }
      AddCountsNothing(errors);
      latencies := latencies + other.latencies;
      totalErrors := totalErrors + other.totalErrors;
      totalSuccess := totalSuccess + other.totalSuccess;
      totalRequests := totalRequests + other.totalRequests;
      received := received + other.received;
      sent := sent + other.sent;
    }

    method GetQuantile(q: real) returns (r: Option<int>)
      ensures r == Quantile(latencies, q) && IsQuantile(latencies, q, r)
    {
      hide Quantile, Round, Interpolate, ValueAt, IsQuantile;
      QuantileInterpolates(latencies, q);
      QuantileOfFew(latencies, q);
      if q < 0.0 || q > 1.0 { return None; }
      var numLatencies := |latencies|;
      if numLatencies == 0 { return Some(0); }
      if numLatencies == 1 { return Some(latencies[0]); }
      var lastIndex := numLatencies - 1;
      var exactIdx := q * (lastIndex as real);
      QuantileByCases(latencies, q, lastIndex as real, exactIdx);
      var leftIdx := exactIdx.Floor;
      if leftIdx >= lastIndex { return Some(latencies[lastIndex]); }
      var rightIdx := leftIdx + 1;
      var rightBias := exactIdx - leftIdx as real;
      return Some(Round(Interpolate(latencies[leftIdx], latencies[rightIdx], rightBias)));
    }

    /** Sorts the latencies in place and reads the quantiles off. */
    method GetLatencies(quantiles: seq<real>) returns (values: map<real, Option<int>>)
      modifies this`latencies
      ensures Sorted(latencies) && multiset(latencies) == multiset(old(latencies))
      ensures values.Keys == set q | q in quantiles
      ensures forall q | q in quantiles :: values[q] == Quantile(latencies, q) && IsQuantile(latencies, q, values[q])
    {
      latencies := SortDurations(latencies);
      ghost var sorted := latencies;
      values := map[];
      for i := 0 to |quantiles|
        invariant latencies == sorted
        invariant values.Keys == set q | q in quantiles[..i]
        invariant forall q | q in values :: values[q] == Quantile(latencies, q) && IsQuantile(latencies, q, values[q])
      {
        hide Quantile, Sorted, IsQuantile;
        var v := GetQuantile(quantiles[i]);
        assert quantiles[..i + 1] == quantiles[..i] + [quantiles[i]];
        values := values[quantiles[i] := v];
      }
      assert quantiles[..|quantiles|] == quantiles;
    }
  }

  function Inserted(r: seq<int>, j: nat, x: int): seq<int>
    requires j <= |r|
  {
    r[..j] + [x] + r[j..]
  }

  lemma BagInserted(r: seq<int>, j: nat, x: int)
    requires j <= |r|
    ensures multiset(Inserted(r, j, x)) == multiset(r) + multiset{x}
  {
    assert r == r[..j] + r[j..];
  }

  lemma InsertedAt(r: seq<int>, j: nat, x: int, a: nat)
    requires j <= |r| && a <= |r|
    ensures |Inserted(r, j, x)| == |r| + 1
    ensures Inserted(r, j, x)[a] == if a < j then r[a] else if a == j then x else r[a - 1]
  {
  }

  lemma InsertSorted(r: seq<int>, j: nat, x: int)
    requires Sorted(r) && j <= |r|
    requires forall k | 0 <= k < j :: r[k] <= x
    requires j < |r| ==> x <= r[j]
    ensures Sorted(Inserted(r, j, x))
  {
    hide Inserted;
    InsertedAt(r, j, x, 0);
    var t := Inserted(r, j, x);
    forall a: nat, b: nat | a < b < |t| ensures t[a] <= t[b] {
      InsertedAt(r, j, x, a);
      InsertedAt(r, j, x, b);
      if b < j { SortedAt(r, a, b); }
      if a < j < b { SortedAt(r, a, b - 1); }
      if j < a { SortedAt(r, a - 1, b - 1); }
      if a == j { SortedAt(r, j, b - 1); }
    }
  }

  method SortDurations(s: seq<int>) returns (r: seq<int>)
    ensures Sorted(r) && multiset(r) == multiset(s)
  {
    r := [];
    for i := 0 to |s|
      invariant Sorted(r) && multiset(r) == multiset(s[..i])
    {
      var j := 0;
      while j < |r| && r[j] < s[i]
        invariant 0 <= j <= |r|
        invariant forall k | 0 <= k < j :: r[k] <= s[i]
      {
        j := j + 1;
      }
      InsertSorted(r, j, s[i]);
      BagInserted(r, j, s[i]);
      assert s[..i + 1] == s[..i] + [s[i]];
      r := r[..j] + [s[i]] + r[j..];
    }
    assert s[..|s|] == s;
  }
}

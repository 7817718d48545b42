/** Sets of results, and the outcome that sums one up. */
module ThriftSums {
  // None stands for a run that does not return a value, however it ends.

  import opened Option
  import opened ThriftEncode
  import opened ThriftRuns

  type Results<!T(==)> = iset<Option<T>>

  /** How runs may end. */
  datatype Fate = Fate(good: bool, bad: bool, out: bool)
  {
    predicate Fails() { bad || out }

    predicate May(e: End) {
      match e
      case Good => good
      case Bad => bad
      case Out => out
    }
  }

  /** The second part is reached if the first succeeds; or either may come first. */
  function Chain(a: Fate, b: Fate): Fate {
    Fate(a.good && b.good, a.bad || (a.good && b.bad), a.out || (a.good && b.out))
  }

  function Either(a: Fate, b: Fate): Fate { Fate(a.good && b.good, a.bad || b.bad, a.out || b.out) }

  /** The outcome tells exactly what the results have in common. */
  ghost predicate Sums<T(!new)>(o: Outcome<T>, rs: Results<T>) {
    match o
    case Done(x) => rs == iset{Some(x)}
    case Failed => rs == iset{None}
    case NoValue => rs == iset{None}
    case Ambiguous => Differ(rs)
  }

  /** And whether success is possible. */
  ghost predicate Tells<T(!new)>(o: Outcome<T>, f: Fate, rs: Results<T>) {
    Sums(o, rs) && (f.good <==> !o.Barred()) && (None in rs <==> f.Fails())
  }

  function Joined<A, B, C>(a: Outcome<A>, b: Outcome<B>, join: (A, B) -> C): Outcome<C> {
    match Both(a, b)
    case Done((x, y)) => Done(join(x, y))
    case Failed => Failed case Ambiguous => Ambiguous case NoValue => NoValue
  }

  /** The whole has a value for each pair of values of its parts. */
  ghost predicate Combines<A(!new), B(!new), C(!new)>(p: Results<A>, q: Results<B>, r: Results<C>, join: (A, B) -> C) {
    forall z :: Some(z) in r <==> exists x, y :: Some(x) in p && Some(y) in q && z == join(x, y)
  }

  /** Different values of one part make a difference to the whole. */
  ghost predicate Injective<A(!new), B(!new), C(!new)>(p: Results<A>, q: Results<B>, join: (A, B) -> C) {
    && (forall x, x', y :: Some(x) in p && Some(x') in p && Some(y) in q && join(x, y) == join(x', y) ==> x == x')
    && (forall x, y, y' :: Some(x) in p && Some(y) in q && Some(y') in q && join(x, y) == join(x, y') ==> y == y')
  }

  lemma CombinesFrom<A(!new), B(!new), C(!new)>(p: Results<A>, q: Results<B>, r: Results<C>, join: (A, B) -> C)
    requires forall x, y :: Some(x) in p && Some(y) in q ==> Some(join(x, y)) in r
    requires forall z :: Some(z) in r ==> exists x, y :: Some(x) in p && Some(y) in q && z == join(x, y)
    ensures Combines(p, q, r, join)
  {
  }

  lemma CombinesPair<A(!new), B(!new), C(!new)>(p: Results<A>, q: Results<B>, r: Results<C>,
                                        join: (A, B) -> C, x: A, y: B)
    requires Combines(p, q, r, join) && Some(x) in p && Some(y) in q
    ensures Some(join(x, y)) in r
  {
  }

  lemma CombinesSplit<A(!new), B(!new), C(!new)>(p: Results<A>, q: Results<B>, r: Results<C>, join: (A, B) -> C, z: C)
    returns (x: A, y: B)
    requires Combines(p, q, r, join) && Some(z) in r
    ensures Some(x) in p && Some(y) in q && z == join(x, y)
  {
    x, y :| Some(x) in p && Some(y) in q && z == join(x, y);
  }

  lemma Live<T(!new)>(o: Outcome<T>, rs: Results<T>)
    requires Sums(o, rs)
    ensures o.Barred() <==> forall x :: Some(x) !in rs
    ensures o.Barred() ==> None in rs
  {
  }

  lemma SameResults<T(!new)>(p: Results<T>, q: Results<T>)
    requires None in p <==> None in q
    requires forall x :: Some(x) in p <==> Some(x) in q
    ensures p == q
  {
    forall z ensures z in p <==> z in q {
      if z.Some? { assert z == Some(z.value); }
    }
  }

  /** No value of one part, no value of the whole. */
  lemma JoinBarred<A(!new), B(!new), C(!new)>(p: Results<A>, q: Results<B>, r: Results<C>, join: (A, B) -> C)
    requires Combines(p, q, r, join) && None in r
    requires (forall x :: Some(x) !in p) || (forall y :: Some(y) !in q)
    ensures r == iset{None}
  {
    forall z | z in r ensures z == None {
      if z.Some? { var x, y := CombinesSplit(p, q, r, join, z.value); }
    }
  }

  lemma JoinDone<A(!new), B(!new), C(!new)>(x: A, p: Results<A>, y: B, q: Results<B>, r: Results<C>, join: (A, B) -> C)
    requires Combines(p, q, r, join) && None !in r && p == iset{Some(x)} && q == iset{Some(y)}
    ensures r == iset{Some(join(x, y))}
  {
    hide Combines;
    CombinesPair(p, q, r, join, x, y);
    forall z | z in r ensures z == Some(join(x, y)) {
      var x', y' := CombinesSplit(p, q, r, join, z.value);
    }
  }

  /** Two results that differ, one of them a value. */
  ghost predicate Differ<T(!new)>(rs: Results<T>) { exists a, b :: Some(a) in rs && b in rs && b != Some(a) }

  lemma JoinLeft<A(!new), B(!new), C(!new)>(p: Results<A>, q: Results<B>, r: Results<C>, join: (A, B) -> C, y: B)
    requires Differ(p) && Some(y) in q && Combines(p, q, r, join) && Injective(p, q, join)
    requires None in p ==> None in r
    ensures Differ(r)
  {
    hide Combines;
    var x, x' :| Some(x) in p && x' in p && x' != Some(x);
    CombinesPair(p, q, r, join, x, y);
    if x'.Some? {
      CombinesPair(p, q, r, join, x'.value, y);
      assert join(x, y) != join(x'.value, y);
    }
  }

  lemma JoinRight<A(!new), B(!new), C(!new)>(p: Results<A>, q: Results<B>, r: Results<C>, join: (A, B) -> C, x: A)
    requires Differ(q) && Some(x) in p && Combines(p, q, r, join) && Injective(p, q, join)
    requires None in q ==> None in r
    ensures Differ(r)
  {
    hide Combines;
    var y, y' :| Some(y) in q && y' in q && y' != Some(y);
    CombinesPair(p, q, r, join, x, y);
    if y'.Some? {
      CombinesPair(p, q, r, join, x, y'.value);
      assert join(x, y) != join(x, y'.value);
    }
  }

  /** What two parts tell, the whole tells. */
  lemma TellsJoin<A(!new), B(!new), C(!new)>(a: Outcome<A>, f: Fate, p: Results<A>, b: Outcome<B>, h: Fate,
                                        q: Results<B>, c: Fate, r: Results<C>, join: (A, B) -> C)
    requires Tells(a, f, p) && Tells(b, h, q) && (c == Chain(f, h) || c == Either(f, h))
    requires Combines(p, q, r, join) && Injective(p, q, join) && (None in r <==> c.Fails())
    ensures Tells(Joined(a, b, join), c, r)
  {
    hide Combines, Injective, Differ;
    Live(a, p);
    Live(b, q);
    if a.Barred() || b.Barred() {
      JoinBarred(p, q, r, join);
    } else if a.Ambiguous? {
      var y :| Some(y) in q;
      JoinLeft(p, q, r, join, y);
    } else if b.Ambiguous? {
      JoinRight(p, q, r, join, a.value);
    } else {
      JoinDone(a.value, p, b.value, q, r, join);
    }
  }

  /** The outcomes of different runs are brought together. */
  lemma TwoOutcomes<T(!new)>(a: Outcome<T>, p: Results<T>, b: Outcome<T>, q: Results<T>, r: Results<T>)
    requires Sums(a, p) && Sums(b, q) && p <= r && q <= r && !a.Barred() && a != b
    ensures Differ(r)
  {
    if a.Done? {
      assert Some(a.value) in p;
      if b.Done? { assert Some(b.value) in q; }
      if b.Barred() { assert None in q; }
    }
  }

  function Mapped<A, B>(o: Outcome<A>, fn: A -> B): Outcome<B> {
    match o
    case Done(x) => Done(fn(x))
    case Failed => Failed case Ambiguous => Ambiguous case NoValue => NoValue
  }

  ghost predicate Image<A(!new), B(!new)>(p: Results<A>, r: Results<B>, fn: A -> B) {
    && (forall x :: Some(x) in p ==> Some(fn(x)) in r)
    && (forall z :: Some(z) in r ==> exists x :: Some(x) in p && z == fn(x))
    && (forall x, y :: Some(x) in p && Some(y) in p && fn(x) == fn(y) ==> x == y)
    && (None in r <==> None in p)
  }

  lemma TellsMap<A(!new), B(!new)>(o: Outcome<A>, f: Fate, p: Results<A>, r: Results<B>, fn: A -> B)
    requires Tells(o, f, p) && Image(p, r, fn)
    ensures Tells(Mapped(o, fn), f, r)
  {
    match o
    case Done(x) => SameResults(r, iset{Some(fn(x))});
    case Ambiguous =>
      var a, b :| Some(a) in p && b in p && b != Some(a);
      assert Some(fn(a)) in r;
      if b.Some? { assert Some(fn(b.value)) in r; } else { assert None in r; }
    case _ => SameResults(r, iset{None});
  }
}

/** protobuf/filedescriptorsets.go: resolving file descriptors. */
module Descriptors {
  // A file is resolved together with its dependencies, by a depth-first search that remembers what it
  // has resolved and does not look for cycles.

  import opened Option
  import opened Graph

  /** A FileDescriptorProto, with the names of the files it imports. */
  datatype File = File(name: string, deps: seq<string>)

  /** A linked descriptor. */
  datatype Descriptor = Descriptor(file: File, deps: seq<Descriptor>)

  /** Whether desc.CreateFileDescriptor accepts a file with its linked dependencies. */
  type Create = (File, seq<Descriptor>) -> bool

  type Files = map<string, File>
  type Memo = map<string, Descriptor>

  predicate WellNamed(u: Files) { forall n | n in u :: u[n].name == n }

  // ---- Which descriptors are right

  /** Every file in the tree is the one of its name, with its dependencies in their order. */
  predicate Faithful(u: Files, c: Create, d: Descriptor) {
    && d.file.name in u && u[d.file.name] == d.file
    && |d.deps| == |d.file.deps|
    && (forall i | 0 <= i < |d.deps| :: d.deps[i].file.name == d.file.deps[i] && Faithful(u, c, d.deps[i]))
    && c(d.file, d.deps)
  }

  predicate IsTreeOf(u: Files, c: Create, d: Descriptor, name: string) {
    Faithful(u, c, d) && d.file.name == name
  }

  ghost predicate HasTree(u: Files, c: Create, name: string) { exists d :: IsTreeOf(u, c, d, name) }

  /** There is at most one right descriptor for a name. */
  lemma {:induction false} TreeUnique(u: Files, c: Create, d: Descriptor, e: Descriptor)
    requires Faithful(u, c, d) && Faithful(u, c, e) && d.file.name == e.file.name
    ensures d == e
    decreases d
  {
    forall i | 0 <= i < |d.deps| ensures d.deps[i] == e.deps[i] {
      TreeUnique(u, c, d.deps[i], e.deps[i]);
    }
  }

  // ---- The search

  /** Diverged: the call stack was exhausted. */
  datatype Outcome<T> = Done(value: T, memo: Memo) | Failed | Diverged

  function Resolve(u: Files, c: Create, memo: Memo, depth: nat, name: string): Outcome<Descriptor>
    decreases depth, 0
  {
    if name in memo then Done(memo[name], memo)
    else if name !in u then Failed
    else if depth == 0 then Diverged
    else
      match ResolveAll(u, c, memo, depth - 1, u[name].deps)
      case Failed => Failed
      case Diverged => Diverged
      case Done(ds, m) => if c(u[name], ds) then Store(m, Descriptor(u[name], ds), name) else Failed
  }

  function Store(m: Memo, d: Descriptor, name: string): Outcome<Descriptor> { Done(d, m[name := d]) }

  function ResolveAll(u: Files, c: Create, memo: Memo, depth: nat, names: seq<string>): Outcome<seq<Descriptor>>
    decreases depth, |names| + 1
  {
    if names == [] then Done([], memo)
    else
      match Resolve(u, c, memo, depth, names[0])
      case Failed => Failed
      case Diverged => Diverged
      case Done(d, m) =>
        match ResolveAll(u, c, m, depth, names[1..])
        case Failed => Failed
        case Diverged => Diverged
        case Done(ds, m') => Done([d] + ds, m')
  }

  /** What has been resolved is right. */
  predicate GoodMemo(u: Files, c: Create, m: Memo) { forall n | n in m :: IsTreeOf(u, c, m[n], n) }

  /** With a file, everything it imports has been resolved. */
  predicate Closed(u: Files, m: Memo) {
    forall n | n in m && n in u :: forall i | 0 <= i < |u[n].deps| :: u[n].deps[i] in m
  }

  predicate Extends(m: Memo, m': Memo) { forall n | n in m :: n in m' && m'[n] == m[n] }

  predicate AreTreesOf(u: Files, c: Create, ds: seq<Descriptor>, names: seq<string>) {
    |ds| == |names| && forall i | 0 <= i < |names| :: IsTreeOf(u, c, ds[i], names[i])
  }

  predicate Have(m: Memo, names: seq<string>) { forall i | 0 <= i < |names| :: names[i] in m }

  lemma MemoGrows(u: Files, c: Create, m: Memo, d: Descriptor, name: string)
    requires WellNamed(u) && GoodMemo(u, c, m) && Closed(u, m)
    requires name in u && name !in m && AreTreesOf(u, c, d.deps, u[name].deps) && Have(m, u[name].deps)
    requires d.file == u[name] && c(d.file, d.deps)
    ensures IsTreeOf(u, c, d, name)
    ensures GoodMemo(u, c, m[name := d]) && Closed(u, m[name := d]) && Extends(m, m[name := d])
  {
  }

  /** Whatever is resolved is right, memorised, and leaves everything resolved so far closed. */
  lemma {:induction false} ResolveSound(u: Files, c: Create, memo: Memo, depth: nat, name: string)
    requires WellNamed(u) && GoodMemo(u, c, memo) && Closed(u, memo)
    ensures var r := Resolve(u, c, memo, depth, name);
            r.Done? ==>
              && IsTreeOf(u, c, r.value, name) && name in r.memo
              && GoodMemo(u, c, r.memo) && Closed(u, r.memo) && Extends(memo, r.memo)
    decreases depth, 0
  {
    hide IsTreeOf, GoodMemo, Closed, Extends, WellNamed, ResolveAll, AreTreesOf, Have;
    if name in memo {
      MemoLookup(u, c, memo, name);
    } else if name in u && depth > 0 {
      ResolveAllSound(u, c, memo, depth - 1, u[name].deps);
      var r := ResolveAll(u, c, memo, depth - 1, u[name].deps);
      if r.Done? && c(u[name], r.value) {
        if name in r.memo {
          Overwrite(u, c, r.memo, Descriptor(u[name], r.value), name);
        } else {
          MemoGrows(u, c, r.memo, Descriptor(u[name], r.value), name);
        }
        ExtendsFurther(memo, r.memo, r.memo[name := Descriptor(u[name], r.value)]);
      }
    }
  }

  lemma MemoLookup(u: Files, c: Create, memo: Memo, name: string)
    requires GoodMemo(u, c, memo) && name in memo
    ensures IsTreeOf(u, c, memo[name], name) && Extends(memo, memo)
  {
  }

  lemma ExtendsFurther(a: Memo, b: Memo, c: Memo)
    requires Extends(a, b) && Extends(b, c)
    ensures Extends(a, c)
  {
  }

  /** Storing a right descriptor again changes nothing. */
  lemma Overwrite(u: Files, c: Create, m: Memo, d: Descriptor, name: string)
    requires WellNamed(u) && GoodMemo(u, c, m) && Closed(u, m) && name in m && name in u
    requires AreTreesOf(u, c, d.deps, u[name].deps) && d.file == u[name] && c(d.file, d.deps)
    ensures IsTreeOf(u, c, d, name) && m[name := d] == m && Extends(m, m)
  {
    TreeUnique(u, c, d, m[name]);
  }

  lemma {:induction false} ResolveAllSound(u: Files, c: Create, memo: Memo, depth: nat, names: seq<string>)
    requires WellNamed(u) && GoodMemo(u, c, memo) && Closed(u, memo)
    ensures var r := ResolveAll(u, c, memo, depth, names);
            r.Done? ==>
              && AreTreesOf(u, c, r.value, names) && Have(r.memo, names)
              && GoodMemo(u, c, r.memo) && Closed(u, r.memo) && Extends(memo, r.memo)
    decreases depth, |names| + 1
  {
    hide IsTreeOf, GoodMemo, Closed, WellNamed, Resolve;
    if names != [] {
      ResolveSound(u, c, memo, depth, names[0]);
      var r := Resolve(u, c, memo, depth, names[0]);
      if r.Done? { ResolveAllSound(u, c, r.memo, depth, names[1..]); }
    }
  }

  // ---- When the search succeeds

  function Height(d: Descriptor): nat
    decreases d
  {
    1 + MaxHeight(d.deps)
  }

  function MaxHeight(ds: seq<Descriptor>): nat
    decreases ds
  {
    if ds == [] then 0
    else if Height(ds[|ds| - 1]) > MaxHeight(ds[..|ds| - 1]) then Height(ds[|ds| - 1]) else MaxHeight(ds[..|ds| - 1])
  }

  lemma {:induction false} MaxHeightIs(ds: seq<Descriptor>, i: nat)
    requires i < |ds|
    ensures Height(ds[i]) <= MaxHeight(ds)
  {
    if i < |ds| - 1 { MaxHeightIs(ds[..|ds| - 1], i); }
  }

  /** A name with a right descriptor is resolved, given a stack as deep as the descriptor. */
  lemma {:induction false} ResolveComplete(u: Files, c: Create, memo: Memo, depth: nat, name: string, d: Descriptor)
    requires WellNamed(u) && GoodMemo(u, c, memo) && Closed(u, memo)
    requires IsTreeOf(u, c, d, name) && depth >= Height(d)
    ensures Resolve(u, c, memo, depth, name).Done? && Resolve(u, c, memo, depth, name).value == d
    decreases depth, 0
  {
    hide GoodMemo, Closed, Faithful, ResolveAll;
    if name in memo {
      MemoLookup(u, c, memo, name);
      TreeUnique(u, c, d, memo[name]);
    } else {
      TreeParts(u, c, d);
      forall i | 0 <= i < |d.deps| ensures Height(d.deps[i]) <= depth - 1 { MaxHeightIs(d.deps, i); }
      ResolveAllComplete(u, c, memo, depth - 1, u[name].deps, d.deps);
    }
  }

  lemma TreeParts(u: Files, c: Create, d: Descriptor)
    requires Faithful(u, c, d)
    ensures d.file.name in u && d.file == u[d.file.name] && AreTreesOf(u, c, d.deps, d.file.deps) && c(d.file, d.deps)
  {
  }

  lemma {:induction false} ResolveAllComplete(u: Files, c: Create, memo: Memo, depth: nat, names: seq<string>,
                                              ds: seq<Descriptor>)
    requires WellNamed(u) && GoodMemo(u, c, memo) && Closed(u, memo)
    requires AreTreesOf(u, c, ds, names) && forall i | 0 <= i < |ds| :: Height(ds[i]) <= depth
    ensures ResolveAll(u, c, memo, depth, names).Done? && ResolveAll(u, c, memo, depth, names).value == ds
    decreases depth, |names| + 1
  {
    hide IsTreeOf, GoodMemo, Closed, WellNamed, Resolve, Height;
    if names == [] {
      assert ds == [];
    } else {
      ResolveComplete(u, c, memo, depth, names[0], ds[0]);
      ResolveSound(u, c, memo, depth, names[0]);
      ResolveAllComplete(u, c, Resolve(u, c, memo, depth, names[0]).memo, depth, names[1..], ds[1..]);
      assert [ds[0]] + ds[1..] == ds;
    }
  }

  /** For any files, with cycles or without: a name is resolved, given stack enough, exactly when it
      has a finite right descriptor; and what was resolved before makes no difference. */
  lemma ResolvesIffTree(u: Files, c: Create, memo: Memo, name: string)
    requires WellNamed(u) && GoodMemo(u, c, memo) && Closed(u, memo)
    ensures (exists depth :: Resolve(u, c, memo, depth, name).Done?) <==> HasTree(u, c, name)
  {
    hide Resolve, IsTreeOf, GoodMemo, Closed, Height;
    if HasTree(u, c, name) {
      var d :| IsTreeOf(u, c, d, name);
      ResolveComplete(u, c, memo, Height(d), name, d);
    }
    if depth :| Resolve(u, c, memo, depth, name).Done? { ResolveSound(u, c, memo, depth, name); }
  }

  // ---- Presence and cycles

  function DepGraph(u: Files): Graph<string> { map n | n in u :: set d | d in u[n].deps }

  /** Nothing below a name is missing. */
  ghost predicate AllPresent(u: Files, name: string) { forall b | Reaches(DepGraph(u), name, b) :: b in u }

  /** No cycle is below a name. */
  ghost predicate Acyclic(u: Files, name: string) {
    forall b | Reaches(DepGraph(u), name, b) :: !OnCycle(DepGraph(u), b)
  }

  /** Following a path down a tree. */
  lemma {:induction false} TreeOfPath(u: Files, c: Create, p: seq<string>, a: string, b: string, d: Descriptor)
    returns (e: Descriptor)
    requires Links(DepGraph(u), p, a, b) && IsTreeOf(u, c, d, a)
    ensures IsTreeOf(u, c, e, b) && Height(e) <= Height(d)
    ensures |p| > 1 ==> Height(e) < Height(d)
    decreases d
  {
    hide Height, MaxHeight;
    if |p| == 1 {
      e := d;
    } else {
      assert p[1] in Next(DepGraph(u), p[0]);
      var i :| 0 <= i < |d.file.deps| && d.file.deps[i] == p[1];
      LinksRest(DepGraph(u), p, a, b);
      e := TreeOfPath(u, c, p[1..], p[1], b, d.deps[i]);
      ChildLower(d, i);
    }
  }

  lemma ChildLower(d: Descriptor, i: nat)
    requires i < |d.deps|
    ensures Height(d.deps[i]) < Height(d)
  {
    MaxHeightIs(d.deps, i);
  }

  lemma LinksRest<T(!new)>(g: Graph<T>, p: seq<T>, a: T, b: T)
    requires Links(g, p, a, b) && |p| > 1
    ensures Links(g, p[1..], p[1], b)
  {
    var q := p[1..];
    forall i | 0 <= i < |q| - 1 ensures q[i + 1] in Next(g, q[i]) {
      assert q[i] == p[i + 1] && q[i + 1] == p[i + 2];
    }
  }

  lemma LinksMore<T(!new)>(g: Graph<T>, p: seq<T>, a: T, b: T, c: T)
    requires Links(g, p, b, c) && b in Next(g, a)
    ensures Links(g, [a] + p, a, c)
  {
    var q := [a] + p;
    forall i | 0 <= i < |q| - 1 ensures q[i + 1] in Next(g, q[i]) {
      if i > 0 { assert q[i] == p[i - 1] && q[i + 1] == p[i]; }
    }
  }

  lemma TreeMeansCalm(u: Files, c: Create, name: string)
    requires HasTree(u, c, name)
    ensures AllPresent(u, name) && Acyclic(u, name)
  {
    hide IsTreeOf, Links, Height;
    var g := DepGraph(u);
    var d :| IsTreeOf(u, c, d, name);
    forall b | Reaches(g, name, b) ensures b in u && !OnCycle(g, b) {
      var p :| Links(g, p, name, b);
      var e := TreeOfPath(u, c, p, name, b, d);
      TreePresent(u, c, e, b);
      if OnCycle(g, b) {
        var n :| n in Next(g, b) && Reaches(g, n, b);
        var q :| Links(g, q, n, b);
        NoLoop(u, c, e, b, n, q);
      }
    }
  }

  lemma TreePresent(u: Files, c: Create, d: Descriptor, name: string)
    requires IsTreeOf(u, c, d, name)
    ensures name in u
  {
  }

  /** No path leads from an import back to the file. */
  lemma NoLoop(u: Files, c: Create, e: Descriptor, b: string, n: string, q: seq<string>)
    requires IsTreeOf(u, c, e, b) && n in Next(DepGraph(u), b)
    ensures !Links(DepGraph(u), q, n, b)
  {
    hide Faithful, Height;
    if Links(DepGraph(u), q, n, b) {
      LinksMore(DepGraph(u), q, b, n, b);
      var f := TreeOfPath(u, c, [b] + q, b, b, e);
      TreeUnique(u, c, e, f);
    }
  }

  /** A dependency ranks below the file that imports it. */
  lemma DepRank(u: Files, name: string, dep: string)
    requires name in u && dep in u[name].deps && Acyclic(u, name)
    ensures Reaches(DepGraph(u), name, dep) && Acyclic(u, dep)
    ensures AllPresent(u, name) ==> AllPresent(u, dep)
    ensures |Reach(DepGraph(u), {dep})| < |Reach(DepGraph(u), {name})|
    ensures Reach(DepGraph(u), {dep}) <= Reach(DepGraph(u), {name})
  {
    var g := DepGraph(u);
    hide Reaches, OnCycle;
    ReachesSelf(g, name);
    ReachesSelf(g, dep);
    assert dep in Next(g, name);
    ReachesBefore(g, name, dep, dep);
    forall b | Reaches(g, dep, b) ensures Reaches(g, name, b) { ReachesBefore(g, name, dep, b); }
    ReachDrops(g, name, {name});
    ReachMonotone(g, {dep}, Next(g, name));
    hide Reach;
  }

  /** The tree of a name under which nothing is missing and there is no cycle. */
  lemma {:induction false} BuildTree(u: Files, c: Create, name: string) returns (d: Descriptor)
    requires WellNamed(u) && (forall f, ds :: c(f, ds)) && AllPresent(u, name) && Acyclic(u, name)
    ensures IsTreeOf(u, c, d, name)
    decreases |Reach(DepGraph(u), {name})|, 0
  {
    hide Reaches, OnCycle, Reach, DepGraph, AllPresent, Acyclic;
    NamePresent(u, name);
    var ds := BuildTrees(u, c, name, |u[name].deps|);
    d := Descriptor(u[name], ds);
  }

  lemma NamePresent(u: Files, name: string)
    requires AllPresent(u, name)
    ensures name in u
  {
    ReachesSelf(DepGraph(u), name);
    hide Reaches;
  }

  lemma {:induction false} BuildTrees(u: Files, c: Create, name: string, k: nat) returns (ds: seq<Descriptor>)
    requires WellNamed(u) && (forall f, ds :: c(f, ds)) && AllPresent(u, name) && Acyclic(u, name)
    requires name in u && k <= |u[name].deps|
    ensures AreTreesOf(u, c, ds, u[name].deps[..k])
    decreases |Reach(DepGraph(u), {name})|, 0, k
  {
    hide Reaches, OnCycle, Reach, DepGraph, AllPresent, Acyclic, Faithful;
    if k == 0 {
      ds := [];
    } else {
      var ds' := BuildTrees(u, c, name, k - 1);
      DepRank(u, name, u[name].deps[k - 1]);
      var d := BuildTree(u, c, u[name].deps[k - 1]);
      ds := ds' + [d];
    }
  }

  /** With creation succeeding, a name has a right descriptor, and is resolved, exactly when nothing
      below it is missing and no cycle is below it. */
  lemma TreeIffPresentAndAcyclic(u: Files, c: Create, name: string)
    requires WellNamed(u) && forall f, ds :: c(f, ds)
    ensures HasTree(u, c, name) <==> AllPresent(u, name) && Acyclic(u, name)
  {
    hide IsTreeOf, AllPresent, Acyclic;
    if HasTree(u, c, name) {
      TreeMeansCalm(u, c, name);
    } else if AllPresent(u, name) && Acyclic(u, name) {
      var d := BuildTree(u, c, name);
    }
  }

  // ---- Termination

  /** The search gets to import i of a file if the imports before it can be resolved. */
  ghost predicate Visited(u: Files, c: Create, name: string, i: nat)
    requires name in u && i < |u[name].deps|
  {
    forall j | 0 <= j < i :: HasTree(u, c, u[name].deps[j])
  }

  ghost function VisitGraph(u: Files, c: Create): Graph<string> {
    map n | n in u :: set i | 0 <= i < |u[n].deps| && Visited(u, c, n, i) :: u[n].deps[i]
  }

  /** The search meets no cycle below a name. */
  ghost predicate Calm(u: Files, c: Create, name: string) {
    forall b | Reaches(VisitGraph(u, c), name, b) :: !OnCycle(VisitGraph(u, c), b)
  }

  /** An import that is visited ranks below the file. */
  lemma VisitRank(u: Files, c: Create, name: string, i: nat)
    requires name in u && i < |u[name].deps| && Visited(u, c, name, i) && Calm(u, c, name)
    ensures Calm(u, c, u[name].deps[i])
    ensures |Reach(VisitGraph(u, c), {u[name].deps[i]})| < |Reach(VisitGraph(u, c), {name})|
    ensures Reach(VisitGraph(u, c), {u[name].deps[i]}) <= Reach(VisitGraph(u, c), {name})
    ensures name !in Reach(VisitGraph(u, c), {u[name].deps[i]})
  {
    var g, dep := VisitGraph(u, c), u[name].deps[i];
    hide Reaches, OnCycle, Visited;
    ReachesSelf(g, name);
    assert dep in Next(g, name);
    forall b | Reaches(g, dep, b) ensures Reaches(g, name, b) { ReachesBefore(g, name, dep, b); }
    ReachDrops(g, name, {name});
    ReachMonotone(g, {dep}, Next(g, name));
    NotBelow(g, name, dep);
    hide Reach;
  }

  /** A node on no cycle is not below its successors. */
  lemma NotBelow(g: Graph<string>, a: string, b: string)
    requires b in Next(g, a) && !OnCycle(g, a)
    ensures a !in Reach(g, {b})
  {
    hide Reaches;
  }

  lemma InReach(u: Files, c: Create, name: string)
    ensures name in Reach(VisitGraph(u, c), {name}) && |Reach(VisitGraph(u, c), {name})| > 0
  {
    ReachesSelf(VisitGraph(u, c), name);
    ReachIs(VisitGraph(u, c), {name}, name, name);
    hide Reaches, Reach;
  }

  /** When the search meets no cycle it ends, whether it succeeds or not. */
  lemma {:induction false} CalmTerminates(u: Files, c: Create, memo: Memo, depth: nat, name: string)
    requires WellNamed(u) && GoodMemo(u, c, memo) && Closed(u, memo)
    requires Calm(u, c, name) && depth >= |Reach(VisitGraph(u, c), {name})|
    ensures Resolve(u, c, memo, depth, name) != Diverged
    decreases depth, 0
  {
    hide Calm, Reach, VisitGraph, ResolveAll, WellNamed, GoodMemo, Closed;
    if name !in memo && name in u {
      InReach(u, c, name);
      CalmImports(u, c, memo, depth - 1, name, 0);
    }
  }

  lemma {:induction false} CalmImports(u: Files, c: Create, memo: Memo, depth: nat, name: string, k: nat)
    requires WellNamed(u) && GoodMemo(u, c, memo) && Closed(u, memo)
    requires name in u && k <= |u[name].deps| && forall j | 0 <= j < k :: HasTree(u, c, u[name].deps[j])
    requires Calm(u, c, name) && depth + 1 >= |Reach(VisitGraph(u, c), {name})|
    ensures ResolveAll(u, c, memo, depth, u[name].deps[k..]) != Diverged
    decreases depth, |u[name].deps| - k + 1
  {
    hide Calm, Reach, VisitGraph, HasTree, Resolve, WellNamed, GoodMemo, Closed, IsTreeOf;
    if k < |u[name].deps| {
      var dep := u[name].deps[k];
      assert u[name].deps[k..][1..] == u[name].deps[k + 1..];
      VisitRank(u, c, name, k);
      CalmTerminates(u, c, memo, depth, dep);
      var r := Resolve(u, c, memo, depth, dep);
      if r.Done? {
        ResolveSound(u, c, memo, depth, dep);
        TreeFound(u, c, r.value, dep);
        CalmImports(u, c, r.memo, depth, name, k + 1);
      }
    }
  }

  /** A name that has a descriptor never makes the search fail. */
  lemma {:induction false} TreeNeverFails(u: Files, c: Create, memo: Memo, depth: nat, name: string)
    requires WellNamed(u) && GoodMemo(u, c, memo) && Closed(u, memo) && HasTree(u, c, name)
    ensures Resolve(u, c, memo, depth, name) != Failed
    decreases depth, 0
  {
    hide WellNamed, GoodMemo, Closed, HasTree, ResolveAll, AreTreesOf;
    HasItsFile(u, c, name);
    if name !in memo && depth > 0 {
      var names := u[name].deps;
      TreesNeverFail(u, c, memo, depth - 1, names);
      var r := ResolveAll(u, c, memo, depth - 1, names);
      if r.Done? {
        ResolveAllSound(u, c, memo, depth - 1, names);
        if !c(u[name], r.value) { NotCreatedNoTree(u, c, name, r.value); }
      }
    }
  }

  lemma {:induction false} TreesNeverFail(u: Files, c: Create, memo: Memo, depth: nat, names: seq<string>)
    requires WellNamed(u) && GoodMemo(u, c, memo) && Closed(u, memo)
    requires forall i | 0 <= i < |names| :: HasTree(u, c, names[i])
    ensures ResolveAll(u, c, memo, depth, names) != Failed
    decreases depth, |names| + 1
  {
    hide WellNamed, GoodMemo, Closed, HasTree, Resolve;
    if names != [] {
      TreeNeverFails(u, c, memo, depth, names[0]);
      var r := Resolve(u, c, memo, depth, names[0]);
      if r.Done? {
        ResolveSound(u, c, memo, depth, names[0]);
        TreesNeverFail(u, c, r.memo, depth, names[1..]);
      }
    }
  }

  lemma HasItsFile(u: Files, c: Create, name: string)
    requires WellNamed(u) && HasTree(u, c, name)
    ensures name in u && forall i | 0 <= i < |u[name].deps| :: HasTree(u, c, u[name].deps[i])
  {
    var d :| IsTreeOf(u, c, d, name);
    forall i | 0 <= i < |u[name].deps| ensures HasTree(u, c, u[name].deps[i]) {
      assert IsTreeOf(u, c, d.deps[i], u[name].deps[i]);
    }
  }

  lemma MoreEdges(g: Graph<string>, h: Graph<string>, a: string, b: string)
    requires (forall n: string, d | d in Next(g, n) :: d in Next(h, n)) && Reaches(g, a, b)
    ensures Reaches(h, a, b)
  {
    var p :| Links(g, p, a, b);
    assert Links(h, p, a, b);
  }

  lemma MoreCycles(g: Graph<string>, h: Graph<string>, a: string)
    requires (forall n: string, d | d in Next(g, n) :: d in Next(h, n)) && OnCycle(g, a)
    ensures OnCycle(h, a)
  {
    hide Reaches;
    var b :| b in Next(g, a) && Reaches(g, b, a);
    MoreEdges(g, h, b, a);
  }

  /** Without cycles the search meets none. */
  lemma AcyclicIsCalm(u: Files, c: Create, name: string)
    requires Acyclic(u, name)
    ensures Calm(u, c, name)
  {
    hide OnCycle, Reaches, Visited;
    var g, h := VisitGraph(u, c), DepGraph(u);
    forall n: string, d | d in Next(g, n) ensures d in Next(h, n) {
    }
    forall b | Reaches(g, name, b) ensures !OnCycle(g, b) {
      MoreEdges(g, h, name, b);
      if OnCycle(g, b) { MoreCycles(g, h, b); }
    }
  }

  /** A name that has a descriptor meets none either. */
  lemma TreeIsCalm(u: Files, c: Create, name: string)
    requires HasTree(u, c, name)
    ensures Calm(u, c, name)
  {
    TreeMeansCalm(u, c, name);
    AcyclicIsCalm(u, c, name);
  }

  /** From a file below which the search meets a cycle it goes on to another such file. */
  lemma RestlessNext(u: Files, c: Create, name: string) returns (i: nat)
    requires !Calm(u, c, name)
    ensures name in u && i < |u[name].deps| && Visited(u, c, name, i) && !Calm(u, c, u[name].deps[i])
  {
    hide Reaches, Visited;
    var g := VisitGraph(u, c);
    var b :| Reaches(g, name, b) && OnCycle(g, b);
    var d;
    if name == b {
      d :| d in Next(g, name) && Reaches(g, d, name);
    } else {
      d := FirstStep(g, name, b);
    }
    assert Reaches(g, d, b);
    i :| 0 <= i < |u[name].deps| && Visited(u, c, name, i) && u[name].deps[i] == d;
  }

  lemma {:induction false} RestlessDiverges(u: Files, c: Create, memo: Memo, depth: nat, name: string)
    requires WellNamed(u) && GoodMemo(u, c, memo) && Closed(u, memo) && !Calm(u, c, name)
    ensures Resolve(u, c, memo, depth, name) == Diverged
    decreases depth, 0
  {
    hide WellNamed, Closed, Calm, HasTree, ResolveAll, IsTreeOf;
    var i := RestlessNext(u, c, name);
    if name in memo {
      TreeFound(u, c, memo[name], name);
      TreeIsCalm(u, c, name);
    } else if depth > 0 {
      ImportDiverges(u, c, memo, depth - 1, u[name].deps, i);
    }
  }

  lemma {:induction false} ImportDiverges(u: Files, c: Create, memo: Memo, depth: nat, names: seq<string>, i: nat)
    requires WellNamed(u) && GoodMemo(u, c, memo) && Closed(u, memo)
    requires i < |names| && !Calm(u, c, names[i]) && forall j | 0 <= j < i :: HasTree(u, c, names[j])
    ensures ResolveAll(u, c, memo, depth, names) == Diverged
    decreases depth, |names| + 1
  {
    hide WellNamed, GoodMemo, Closed, Calm, HasTree, Resolve;
    if i == 0 {
      RestlessDiverges(u, c, memo, depth, names[0]);
    } else {
      TreeNeverFails(u, c, memo, depth, names[0]);
      var r := Resolve(u, c, memo, depth, names[0]);
      if r.Done? {
        ResolveSound(u, c, memo, depth, names[0]);
        ImportDiverges(u, c, r.memo, depth, names[1..], i - 1);
      }
    }
  }

  /** From depth n on the search ends, successful or not. */
  ghost predicate EndsFrom(u: Files, c: Create, memo: Memo, name: string, n: nat) {
    forall depth: nat | depth >= n :: Resolve(u, c, memo, depth, name) != Diverged
  }

  /** For any files, and whatever was resolved before: the search for a name ends from some depth on
      exactly when it meets no cycle; otherwise it ends at no depth. */
  lemma TerminatesIffCalm(u: Files, c: Create, memo: Memo, name: string)
    requires WellNamed(u) && GoodMemo(u, c, memo) && Closed(u, memo)
    ensures Calm(u, c, name) <==> exists n: nat :: EndsFrom(u, c, memo, name, n)
    ensures !Calm(u, c, name) ==> forall depth: nat :: Resolve(u, c, memo, depth, name) == Diverged
  {
    hide WellNamed, GoodMemo, Closed, Calm, Resolve, Reach, VisitGraph;
    if Calm(u, c, name) {
      var n := |Reach(VisitGraph(u, c), {name})|;
      forall depth: nat | depth >= n ensures Resolve(u, c, memo, depth, name) != Diverged {
        CalmTerminates(u, c, memo, depth, name);
      }
      assert EndsFrom(u, c, memo, name, n);
    } else {
      forall depth: nat ensures Resolve(u, c, memo, depth, name) == Diverged {
        RestlessDiverges(u, c, memo, depth, name);
      }
      forall n: nat ensures !EndsFrom(u, c, memo, name, n) { assert Resolve(u, c, memo, n, name) == Diverged; }
    }
  }

  /** Every import names a file of the set. */
  predicate Complete(u: Files) { forall n | n in u :: forall i | 0 <= i < |u[n].deps| :: u[n].deps[i] in u }

  /** The search can go on for ever: here for a file that imports itself. */
  lemma {:induction false} SelfImportDiverges(c: Create, name: string, depth: nat)
    ensures var u := map[name := File(name, [name])];
            Complete(u) && !Calm(u, c, name) && Resolve(u, c, map[], depth, name) == Diverged
    decreases depth
  {
    var u := map[name := File(name, [name])];
    var g := VisitGraph(u, c);
    assert Visited(u, c, name, 0) && name in Next(g, name);
    ReachesSelf(g, name);
    assert OnCycle(g, name);
    if depth > 0 { SelfImportDiverges(c, name, depth - 1); }
  }

  lemma {:induction false} NeverFails(u: Files, c: Create, memo: Memo, depth: nat, name: string)
    requires Complete(u) && (forall f, ds :: c(f, ds)) && name in u
    ensures Resolve(u, c, memo, depth, name) != Failed
    decreases depth, 0
  {
    hide ResolveAll;
    if name !in memo && depth > 0 { NoneFails(u, c, memo, depth - 1, u[name].deps); }
  }

  lemma {:induction false} NoneFails(u: Files, c: Create, memo: Memo, depth: nat, names: seq<string>)
    requires Complete(u) && (forall f, ds :: c(f, ds)) && forall i | 0 <= i < |names| :: names[i] in u
    ensures ResolveAll(u, c, memo, depth, names) != Failed
    decreases depth, |names| + 1
  {
    hide Resolve;
    if names != [] {
      NeverFails(u, c, memo, depth, names[0]);
      var r := Resolve(u, c, memo, depth, names[0]);
      if r.Done? { NoneFails(u, c, r.memo, depth, names[1..]); }
    }
  }

  /** Acyclicity is a genuine precondition: when no import is missing and creation succeeds, the
      search for a name ends exactly when no cycle is below it. */
  lemma TerminatesIffAcyclic(u: Files, c: Create, name: string)
    requires WellNamed(u) && Complete(u) && (forall f, ds :: c(f, ds)) && name in u
    ensures (exists depth :: Resolve(u, c, map[], depth, name) != Diverged) <==> Acyclic(u, name)
  {
    hide Resolve, Acyclic, AllPresent, Calm;
    TerminatesIffCalm(u, c, map[], name);
    if Acyclic(u, name) {
      AcyclicIsCalm(u, c, name);
      var n: nat :| EndsFrom(u, c, map[], name, n);
      assert Resolve(u, c, map[], n, name) != Diverged;
    }
    if depth :| Resolve(u, c, map[], depth, name) != Diverged {
      NeverFails(u, c, map[], depth, name);
      assert Resolve(u, c, map[], depth, name).Done?;
      ResolvesIffTree(u, c, map[], name);
      TreeMeansCalm(u, c, name);
    }
  }

  // ---- The resolver

  /** Files in the order in which they were created: none twice, and each after its imports. */
  predicate InOrder(u: Files, built: seq<string>) {
    && (forall i, j | 0 <= i < j < |built| :: built[i] != built[j])
    && forall i | 0 <= i < |built| :: built[i] in u && forall d | d in u[built[i]].deps :: d in built[..i]
  }

  ghost predicate SameNames(m: Memo, built: seq<string>) { forall n :: n in m <==> n in built }

  lemma BuildsNext(u: Files, built: seq<string>, m: Memo, name: string, d: Descriptor)
    requires InOrder(u, built) && SameNames(m, built)
    requires name in u && name !in m && forall d | d in u[name].deps :: d in m
    ensures InOrder(u, built + [name]) && SameNames(m[name := d], built + [name])
  {
    var next := built + [name];
    forall i | 0 <= i < |next| ensures next[i] in u && forall d | d in u[next[i]].deps :: d in next[..i] {
      if i < |built| {
        assert next[..i] == built[..i];
      } else {
        assert next[..i] == built;
      }
    }
  }

  /** The state that recursive calls share. */
  class Resolver {
    const unresolved: Files
    const create: Create
    var resolved: Memo
    ghost var built: seq<string>

    ghost predicate Valid()
      reads this
    {
      && WellNamed(unresolved) && GoodMemo(unresolved, create, resolved) && Closed(unresolved, resolved)
      && InOrder(unresolved, built) && SameNames(resolved, built)
    }

    constructor (files: Files, create: Create)
      requires WellNamed(files)
      ensures Valid() && unresolved == files && this.create == create && resolved == map[] && built == []
    {
      unresolved, this.create, resolved, built := files, create, map[], [];
    }

    /** None stands for the error. Every file is created at most once, after its imports, and
        nothing is created but what is below the name. */
    method ResolveFileDescriptor(filename: string) returns (r: Option<Descriptor>)
      requires Valid() && Calm(unresolved, create, filename)
      modifies this`resolved, this`built
      ensures Valid()
      ensures r.Some? <==> HasTree(unresolved, create, filename)
      ensures r.Some? ==> IsTreeOf(unresolved, create, r.value, filename)
      ensures r.Some? ==> filename in resolved && resolved[filename] == r.value
      ensures Extends(old(resolved), resolved) && old(built) <= built
      ensures resolved.Keys <= old(resolved.Keys) + Reach(VisitGraph(unresolved, create), {filename})
      decreases |Reach(VisitGraph(unresolved, create), {filename})|
    {
      hide Calm, Reach, VisitGraph, Visited, IsTreeOf, HasTree, GoodMemo, Closed, InOrder, SameNames, WellNamed,
           Extends, AreTreesOf, Have;
      MemoLookupAll(unresolved, create, resolved);
      if filename in resolved {
        TreeFound(unresolved, create, resolved[filename], filename);
        return Some(resolved[filename]);
      }
      if filename !in unresolved {
        NoFileNoTree(unresolved, create, filename);
        return None;
      }
      var fd := unresolved[filename];
      var deps: seq<Descriptor> := [];
      for i := 0 to |fd.deps|
        invariant Valid()
        invariant AreTreesOf(unresolved, create, deps, fd.deps[..i]) && Have(resolved, fd.deps[..i])
        invariant Extends(old(resolved), resolved) && old(built) <= built
        invariant filename !in resolved
        invariant resolved.Keys <= old(resolved.Keys) + Reach(VisitGraph(unresolved, create), {filename})
      {
        TreesVisited(unresolved, create, filename, deps, i);
        VisitRank(unresolved, create, filename, i);
        ghost var before := resolved;
        var depFd := ResolveFileDescriptor(fd.deps[i]);
        ExtendsFurther(old(resolved), before, resolved);
        if depFd.None? {
          NoDepNoTree(unresolved, create, filename, fd.deps[i]);
          return None;
        }
        OneMore(unresolved, create, deps, fd.deps, i, depFd.value, before, resolved);
        deps := deps + [depFd.value];
      }
      assert fd.deps[..|fd.deps|] == fd.deps;
      if !create(fd, deps) {
        NotCreatedNoTree(unresolved, create, filename, deps);
        return None;
      }
      var result := Descriptor(fd, deps);
      ghost var before := resolved;
      MemoGrows(unresolved, create, resolved, result, filename);
      TreeFound(unresolved, create, result, filename);
      HaveAll(resolved, fd.deps);
      BuildsNext(unresolved, built, resolved, filename, result);
      resolved := resolved[filename := result];
      built := built + [filename];
      ExtendsFurther(old(resolved), before, resolved);
      InReach(unresolved, create, filename);
      return Some(result);
    }
  }

  lemma TreesVisited(u: Files, c: Create, name: string, ds: seq<Descriptor>, i: nat)
    requires name in u && i < |u[name].deps| && AreTreesOf(u, c, ds, u[name].deps[..i])
    ensures Visited(u, c, name, i)
  {
    forall j | 0 <= j < i ensures HasTree(u, c, u[name].deps[j]) {
      assert IsTreeOf(u, c, ds[j], u[name].deps[..i][j]);
    }
  }

  lemma MemoLookupAll(u: Files, c: Create, m: Memo)
    requires GoodMemo(u, c, m)
    ensures forall n | n in m :: IsTreeOf(u, c, m[n], n)
    ensures Extends(m, m)
    ensures forall names: seq<string> | names == [] :: Have(m, names) && AreTreesOf(u, c, [], names)
  {
  }

  lemma TreeFound(u: Files, c: Create, d: Descriptor, name: string)
    requires IsTreeOf(u, c, d, name)
    ensures HasTree(u, c, name)
  {
  }

  lemma NoFileNoTree(u: Files, c: Create, name: string)
    requires name !in u
    ensures !HasTree(u, c, name)
  {
  }

  lemma NoDepNoTree(u: Files, c: Create, name: string, dep: string)
    requires WellNamed(u) && name in u && dep in u[name].deps && !HasTree(u, c, dep)
    ensures !HasTree(u, c, name)
  {
    if d :| IsTreeOf(u, c, d, name) {
      var i :| 0 <= i < |d.file.deps| && d.file.deps[i] == dep;
      assert IsTreeOf(u, c, d.deps[i], dep);
    }
  }

  lemma NotCreatedNoTree(u: Files, c: Create, name: string, ds: seq<Descriptor>)
    requires name in u && AreTreesOf(u, c, ds, u[name].deps) && !c(u[name], ds)
    ensures !HasTree(u, c, name)
  {
    if d :| IsTreeOf(u, c, d, name) {
      forall i | 0 <= i < |ds| ensures ds[i] == d.deps[i] { TreeUnique(u, c, ds[i], d.deps[i]); }
      assert ds == d.deps;
    }
  }

  lemma OneMore(u: Files, c: Create, ds: seq<Descriptor>, names: seq<string>, i: nat, d: Descriptor, m: Memo, m': Memo)
    requires i < |names| && AreTreesOf(u, c, ds, names[..i]) && IsTreeOf(u, c, d, names[i])
    requires Have(m, names[..i]) && Extends(m, m') && names[i] in m'
    ensures AreTreesOf(u, c, ds + [d], names[..i + 1]) && Have(m', names[..i + 1])
  {
    hide IsTreeOf;
  }

  lemma HaveAll(m: Memo, names: seq<string>)
    requires Have(m, names)
    ensures forall d | d in names :: d in m
  {
  }

  // ---- The descriptor provider

  /** Of several files with one name the last counts. */
  function Unresolved(files: seq<File>): (u: Files)
    ensures WellNamed(u)
  {
    if files == [] then map[] else Unresolved(files[..|files| - 1])[files[|files| - 1].name := files[|files| - 1]]
  }

  /** The descriptors of all the files, or none. */
  ghost predicate Provides(u: Files, c: Create, r: Option<Memo>) {
    && (r.Some? <==> forall n | n in u :: HasTree(u, c, n))
    && (r.Some? ==> r.value.Keys == u.Keys && GoodMemo(u, c, r.value))
  }

  lemma {:induction false} UnresolvedNames(files: seq<File>)
    ensures forall i | 0 <= i < |files| :: files[i].name in Unresolved(files)
    ensures forall n | n in Unresolved(files) :: exists i | 0 <= i < |files| :: files[i] == Unresolved(files)[n]
  {
    if files != [] {
      UnresolvedNames(files[..|files| - 1]);
      assert files == files[..|files| - 1] + [files[|files| - 1]];
      forall n | n in Unresolved(files) ensures exists i | 0 <= i < |files| :: files[i] == Unresolved(files)[n] {
        if n == files[|files| - 1].name {
          assert files[|files| - 1] == Unresolved(files)[n];
        } else {
          var i :| 0 <= i < |files| - 1 && files[..|files| - 1][i] == Unresolved(files)[n];
          assert files[i] == Unresolved(files)[n];
        }
      }
    }
  }

  /** The files before this one can be resolved. */
  ghost predicate Earlier(files: seq<File>, create: Create, i: nat)
    requires i <= |files|
  {
    forall j | 0 <= j < i :: HasTree(Unresolved(files), create, files[j].name)
  }

  method NewDescriptorProvider(files: seq<File>, create: Create) returns (r: Option<Memo>)
    requires forall i | 0 <= i < |files| && Earlier(files, create, i) :: Calm(Unresolved(files), create, files[i].name)
    ensures Provides(Unresolved(files), create, r)
  {
    var unresolved := IndexFiles(files);
    NoneEarlier(files, create);
    hide *;
    var resolver := new Resolver(unresolved, create);
    for i := 0 to |files|
      invariant fresh(resolver) && resolver.Valid() && resolver.unresolved == unresolved && resolver.create == create
      invariant forall k | 0 <= k < i :: files[k].name in resolver.resolved
      invariant Earlier(files, create, i)
    {
      ghost var before := resolver.resolved;
      var d := resolver.ResolveFileDescriptor(files[i].name);
      if d.None? {
        UnresolvedNames(files);
        NothingProvided(unresolved, create, files[i].name);
        return None;
      }
      StillThere(before, resolver.resolved);
      OneEarlier(files, create, i);
    }
    ResolverGood(resolver);
    NamesCovered(files, resolver.resolved);
    AllProvided(unresolved, create, resolver.resolved);
    r := Some(resolver.resolved);
  }

  lemma NoneEarlier(files: seq<File>, create: Create)
    ensures Earlier(files, create, 0)
  {
  }

  lemma OneEarlier(files: seq<File>, create: Create, i: nat)
    requires i < |files| && Earlier(files, create, i) && HasTree(Unresolved(files), create, files[i].name)
    ensures Earlier(files, create, i + 1)
  {
  }

  lemma ResolverGood(r: Resolver)
    requires r.Valid()
    ensures WellNamed(r.unresolved) && GoodMemo(r.unresolved, r.create, r.resolved)
  {
  }

  lemma StillThere(m: Memo, m': Memo)
    requires Extends(m, m')
    ensures forall n | n in m :: n in m'
  {
  }

  method IndexFiles(files: seq<File>) returns (unresolved: Files)
    ensures unresolved == Unresolved(files) && WellNamed(unresolved)
  {
    unresolved := map[];
    for i := 0 to |files|
      invariant unresolved == Unresolved(files[..i])
    {
      assert files[..i + 1][..i] == files[..i];
      unresolved := unresolved[files[i].name := files[i]];
    }
    assert files[..|files|] == files;
  }

  lemma NothingProvided(u: Files, c: Create, name: string)
    requires name in u && !HasTree(u, c, name)
    ensures Provides(u, c, None)
  {
    hide HasTree;
  }

  lemma MemoWithin(u: Files, c: Create, m: Memo)
    requires GoodMemo(u, c, m)
    ensures forall n | n in m :: n in u && HasTree(u, c, n)
  {
    hide Faithful, HasTree;
    forall n | n in m ensures n in u && HasTree(u, c, n) {
      TreePresent(u, c, m[n], n);
      TreeFound(u, c, m[n], n);
    }
  }

  lemma NamesCovered(files: seq<File>, m: Memo)
    requires forall k | 0 <= k < |files| :: files[k].name in m
    ensures forall n | n in Unresolved(files) :: n in m
  {
    hide Unresolved, WellNamed;
    UnresolvedNames(files);
    forall n | n in Unresolved(files) ensures n in m {
      var i :| 0 <= i < |files| && files[i] == Unresolved(files)[n];
      NamedAlike(Unresolved(files), n);
    }
  }

  lemma NamedAlike(u: Files, n: string)
    requires WellNamed(u) && n in u
    ensures u[n].name == n
  {
  }

  lemma AllProvided(u: Files, c: Create, m: Memo)
    requires GoodMemo(u, c, m) && forall n | n in u :: n in m
    ensures Provides(u, c, Some(m))
  {
    hide GoodMemo, HasTree;
    MemoWithin(u, c, m);
    assert m.Keys == u.Keys;
  }

  lemma {:induction false} CompletePath(u: Files, p: seq<string>, a: string, b: string)
    requires Complete(u) && a in u && Links(DepGraph(u), p, a, b)
    ensures b in u
    decreases |p|
  {
    if |p| > 1 {
      assert p[1] in Next(DepGraph(u), p[0]);
      LinksRest(DepGraph(u), p, a, b);
      CompletePath(u, p[1..], p[1], b);
    }
  }

  /** With creation succeeding and no cycles, a set of files is accepted exactly when it contains
      every file that one of its files imports. */
  lemma AcceptedIffComplete(u: Files, c: Create, r: Option<Memo>)
    requires WellNamed(u) && (forall f, ds :: c(f, ds)) && (forall n | n in u :: Acyclic(u, n)) && Provides(u, c, r)
    ensures r.Some? <==> Complete(u)
  {
    hide HasTree, Acyclic, WellNamed, GoodMemo, Links, OnCycle, DepGraph;
    forall n | n in u ensures HasTree(u, c, n) <==> AllPresent(u, n) { TreeIffPresentAndAcyclic(u, c, n); }
    if Complete(u) {
      forall n, b | n in u && Reaches(DepGraph(u), n, b) ensures b in u {
        var p :| Links(DepGraph(u), p, n, b);
        CompletePath(u, p, n, b);
      }
    } else {
      var n, i :| n in u && 0 <= i < |u[n].deps| && u[n].deps[i] !in u;
      DepRank(u, n, u[n].deps[i]);
      assert !AllPresent(u, n);
    }
  }

  predicate UniqueNames(files: seq<File>) { forall i, j | 0 <= i < j < |files| :: files[i].name != files[j].name }

  lemma UniqueFile(files: seq<File>, f: File)
    requires UniqueNames(files) && f in files
    ensures f.name in Unresolved(files) && Unresolved(files)[f.name] == f
  {
    UnresolvedNames(files);
  }

  lemma FilesSameIndex(files: seq<File>, files': seq<File>)
    requires multiset(files) == multiset(files') && UniqueNames(files) && UniqueNames(files')
    ensures Unresolved(files) == Unresolved(files')
  {
    hide Unresolved, UniqueNames;
    var u, u' := Unresolved(files), Unresolved(files');
    IndexWithin(files, files');
    IndexWithin(files', files);
    assert u.Keys == u'.Keys;
  }

  lemma IndexWithin(files: seq<File>, files': seq<File>)
    requires multiset(files) == multiset(files') && UniqueNames(files')
    ensures forall n | n in Unresolved(files) ::
            n in Unresolved(files') && Unresolved(files')[n] == Unresolved(files)[n]
  {
    hide Unresolved, UniqueNames;
    UnresolvedNames(files);
    var u := Unresolved(files);
    forall n | n in u ensures n in Unresolved(files') && Unresolved(files')[n] == u[n] {
      assert u[n] in multiset(files');
      UniqueFile(files', u[n]);
      assert u[n].name == n;
    }
  }

  /** With unique names the order of the files makes no difference: neither to success nor to the
      descriptors provided. */
  lemma FileOrderIrrelevant(files: seq<File>, files': seq<File>, c: Create, r: Option<Memo>, r': Option<Memo>)
    requires multiset(files) == multiset(files') && UniqueNames(files) && UniqueNames(files')
    requires Provides(Unresolved(files), c, r) && Provides(Unresolved(files'), c, r')
    ensures r == r'
  {
    hide Provides, Unresolved, UniqueNames;
    FilesSameIndex(files, files');
    ProvidesUnique(Unresolved(files), c, r, r');
  }

  lemma ProvidesUnique(u: Files, c: Create, r: Option<Memo>, r': Option<Memo>)
    requires Provides(u, c, r) && Provides(u, c, r')
    ensures r == r'
  {
    hide Faithful, HasTree;
    if r.Some? {
      forall n | n in u ensures r.value[n] == r'.value[n] { TreeUnique(u, c, r.value[n], r'.value[n]); }
      assert r.value == r'.value;
    }
  }
}

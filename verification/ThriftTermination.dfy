/** When does filling in defaults come to an end? */
module ThriftTermination {
  // The encoder recurses on the request value, but every default it fills in is a new value, and struct types
  // may be recursive.

  import opened Option
  import opened Values
  import opened ThriftSpec
  import opened ThriftFields
  import opened ThriftEncode
  import opened ThriftFieldLoops
  import opened ThriftRuns
  import opened Graph
  import opened ThriftSites
  import ThriftToWire

  /** The size of a problem: how many defaults may still be needed. */
  ghost function Needs(env: Env, spec: Spec, v: Dyn): nat { |Reach(SiteGraph(env), Sites(env, spec, v))| }

  /** A depth from which no run exhausts it, by the number of defaults that runs may still need and
      then the size of the value. */
  lemma {:induction false} Terminates(env: Env, spec: Spec, v: Dyn) returns (n: nat)
    requires ScalarKeysEnv(env) && ScalarKeys(spec) && Calm(env, Sites(env, spec, v))
    ensures NeverOut(env, spec, v, n)
    decreases Needs(env, spec, v), v, 2, 0
  {
    hide NeverOut, Sites, ScalarKeysEnv, Needs, Calm, Accepted, KeysEnd, DefaultsEnd, ItemsEnd, EntriesEnd, AsStrings,
         AsEntries;
    ScalarKeysRoot(spec);
    var root := spec.Root();
    if root.StructSpec? {
      var g := env.Def(root.structName).fields;
      if AsStrings(v).None? || !Accepted(g, AsStrings(v).value) {
        n := 1;
        RejectedEnds(env, spec, v);
      } else {
        var request := AsStrings(v).value;
        var keys := TerminatesKeys(env, spec, v, request.Keys);
        var defaults := TerminatesDefaults(env, spec, v, |g|);
        n := keys + defaults + 1;
        Later(env, g, request, request.Keys, keys, defaults);
        StructEnds(env, spec, v, keys + defaults);
      }
    } else if root.ListSpec? || root.SetSpec? {
      var m := 0;
      if v.List? { m := TerminatesList(env, spec, v, |v.items|); }
      n := m + 1;
      ListEnds(env, spec, v, m);
    } else if root.MapSpec? {
      var m := 0;
      if AsEntries(v).Some? { m := TerminatesEntries(env, spec, v, AsEntries(v).value.Keys); }
      n := m + 2;
      MapEnds(env, spec, v, m);
    } else {
      n := 1;
      ScalarEnds(env, spec, v);
    }
  }

  lemma Later(env: Env, g: seq<FieldSpec>, request: map<string, Dyn>, keys: set<string>, n: nat, m: nat)
    requires KeysEnd(env, g, request, keys, n) && DefaultsEnd(env, g, request, |g|, m)
    ensures KeysEnd(env, g, request, keys, n + m) && DefaultsEnd(env, g, request, |g|, n + m)
  {
    hide May, GetField, Given, RequestOf;
  }

  lemma {:induction false} TerminatesKeys(env: Env, spec: Spec, v: Dyn, keys: set<string>) returns (n: nat)
    requires ScalarKeysEnv(env) && Calm(env, Sites(env, spec, v)) && spec.Root().StructSpec? && AsStrings(v).Some?
    requires Accepted(env.Def(spec.Root().structName).fields, AsStrings(v).value)
    ensures KeysEnd(env, env.Def(spec.Root().structName).fields, AsStrings(v).value, keys, n)
    decreases Needs(env, spec, v), v, 1, |keys|
  {
    hide NeverOut, Sites, ScalarKeysEnv, Needs, Calm, Accepted, KeysEnd, AsStrings, GetField;
    var g, request := env.Def(spec.Root().structName).fields, AsStrings(v).value;
    if keys == {} {
      n := 0;
      NoKeysEnd(env, g, request);
    } else {
      var k :| k in keys;
      n := TerminatesKeys(env, spec, v, keys - {k});
      var m := 0;
      if k in request && GetField(g, k).Some? {
        var f := GetField(g, k).value;
        GetFieldFinds(g, k);
        RequestPart(env, spec, v, k, f);
        CalmSubset(env, Sites(env, f.ty, request[k]), Sites(env, spec, v));
        ScalarKeysField(env, spec.Root().structName, f);
        NeedsLess(env, spec, v, f.ty, request[k]);
        m := Terminates(env, f.ty, request[k]);
      }
      OneMoreKey(env, g, request, keys, k, n, m);
      n := n + m;
    }
  }

  lemma NeedsLess(env: Env, spec: Spec, v: Dyn, ty: Spec, x: Dyn)
    requires Sites(env, ty, x) <= Sites(env, spec, v)
    ensures Needs(env, ty, x) <= Needs(env, spec, v)
  {
    hide Sites, SiteGraph, Reach;
    ReachMonotone(SiteGraph(env), Sites(env, ty, x), Sites(env, spec, v));
  }

  lemma NoKeysEnd(env: Env, g: seq<FieldSpec>, request: map<string, Dyn>)
    ensures KeysEnd(env, g, request, {}, 0) && DefaultsEnd(env, g, request, 0, 0)
  {
    hide NeverOut;
  }

  lemma OneMoreKey(env: Env, g: seq<FieldSpec>, request: map<string, Dyn>, keys: set<string>, k: string, n: nat, m: nat)
    requires KeysEnd(env, g, request, keys - {k}, n)
    requires k in request && GetField(g, k).Some? ==> NeverOut(env, GetField(g, k).value.ty, request[k], m)
    ensures KeysEnd(env, g, request, keys, n + m)
  {
    hide May, GetField;
  }

  lemma {:induction false} TerminatesDefaults(env: Env, spec: Spec, v: Dyn, j: nat) returns (n: nat)
    requires ScalarKeysEnv(env) && Calm(env, Sites(env, spec, v)) && spec.Root().StructSpec? && AsStrings(v).Some?
    requires Accepted(env.Def(spec.Root().structName).fields, AsStrings(v).value)
    requires j <= |env.Def(spec.Root().structName).fields|
    ensures DefaultsEnd(env, env.Def(spec.Root().structName).fields, AsStrings(v).value, j, n)
    decreases Needs(env, spec, v), v, 1, j
  {
    hide NeverOut, Sites, ScalarKeysEnv, Needs, Calm, Accepted, DefaultsEnd, AsStrings, Given, RequestOf, SiteNext;
    var name := spec.Root().structName;
    var g, request := env.Def(name).fields, AsStrings(v).value;
    if j == 0 {
      n := 0;
      NoKeysEnd(env, g, request);
    } else {
      n := TerminatesDefaults(env, spec, v, j - 1);
      var m := 0;
      var f := g[j - 1];
      if f.name !in Given(g, request) && f.default.Some? && RequestOf(f.default.value).Some? {
        DefaultSiteNext(env, name, request, f);
        DefaultPart(env, spec, v);
        CalmNext(env, Sites(env, spec, v), Site(name, f.name));
        ScalarKeysField(env, name, f);
        NeedsFewer(env, spec, v, Site(name, f.name), f.ty, RequestOf(f.default.value).value);
        m := Terminates(env, f.ty, RequestOf(f.default.value).value);
      }
      OneMoreDefault(env, g, request, j, n, m);
      n := n + m;
    }
  }

  lemma NeedsFewer(env: Env, spec: Spec, v: Dyn, s: Site, ty: Spec, x: Dyn)
    requires s in Sites(env, spec, v) && Calm(env, Sites(env, spec, v)) && SiteNext(env, s) == Sites(env, ty, x)
    ensures Needs(env, ty, x) < Needs(env, spec, v)
  {
    hide Sites, SiteNext, SiteGraph, Reach, Calm;
    CalmNext(env, Sites(env, spec, v), s);
  }

  lemma OneMoreDefault(env: Env, g: seq<FieldSpec>, request: map<string, Dyn>, j: nat, n: nat, m: nat)
    requires 0 < j <= |g| && DefaultsEnd(env, g, request, j - 1, n)
    requires var f := g[j - 1];
             (f.name !in Given(g, request) && f.default.Some? && RequestOf(f.default.value).Some?) ==>
               NeverOut(env, f.ty, RequestOf(f.default.value).value, m)
    ensures DefaultsEnd(env, g, request, j, n + m)
  {
    hide May, Given, RequestOf;
  }

  lemma {:induction false} TerminatesList(env: Env, spec: Spec, v: Dyn, j: nat) returns (n: nat)
    requires ScalarKeysEnv(env) && ScalarKeys(spec.Root()) && Calm(env, Sites(env, spec, v))
    requires (spec.Root().ListSpec? || spec.Root().SetSpec?) && v.List? && j <= |v.items|
    ensures ItemsEnd(env, spec.Root().elem, v.items, j, n)
    decreases Needs(env, spec, v), v, 1, j
  {
    hide NeverOut, Sites, ScalarKeysEnv, Needs, Calm, ItemsEnd, Visited;
    var elem := spec.Root().elem;
    if j == 0 {
      n := 0;
      NoItemsEnd(env, elem, v.items);
    } else {
      n := TerminatesList(env, spec, v, j - 1);
      var m := 0;
      if Visited(env, elem, v.items, j - 1) {
        ItemPart(env, spec, v, j - 1);
        CalmSubset(env, Sites(env, elem, v.items[j - 1]), Sites(env, spec, v));
        NeedsLess(env, spec, v, elem, v.items[j - 1]);
        m := Terminates(env, elem, v.items[j - 1]);
      }
      OneMoreItem(env, elem, v.items, j, n, m);
      n := n + m;
    }
  }

  lemma NoItemsEnd(env: Env, elem: Spec, vs: seq<Dyn>)
    ensures ItemsEnd(env, elem, vs, 0, 0)
  {
    hide NeverOut;
  }

  lemma OneMoreItem(env: Env, elem: Spec, vs: seq<Dyn>, j: nat, n: nat, m: nat)
    requires 0 < j <= |vs| && ItemsEnd(env, elem, vs, j - 1, n)
    requires Visited(env, elem, vs, j - 1) ==> NeverOut(env, elem, vs[j - 1], m)
    ensures ItemsEnd(env, elem, vs, j, n + m)
  {
    hide May, Visited;
  }

  lemma {:induction false} TerminatesEntries(env: Env, spec: Spec, v: Dyn, keys: set<Key>) returns (n: nat)
    requires ScalarKeysEnv(env) && ScalarKeys(spec.Root()) && Calm(env, Sites(env, spec, v))
    requires spec.Root().MapSpec? && AsEntries(v).Some?
    ensures EntriesEnd(env, spec.Root().key, spec.Root().value, AsEntries(v).value, keys, n)
    decreases Needs(env, spec, v), v, 1, |keys|
  {
    hide NeverOut, Sites, ScalarKeysEnv, Needs, Calm, EntriesEnd, KeySucceeds, AsEntries;
    var ks, vs, m := spec.Root().key, spec.Root().value, AsEntries(v).value;
    if keys == {} {
      n := 0;
      NoEntriesEnd(env, ks, vs, m);
    } else {
      var k :| k in keys;
      n := TerminatesEntries(env, spec, v, keys - {k});
      var i := 0;
      if k in m && KeySucceeds(env, ks, k) {
        EntryPart(env, spec, v, k);
        CalmSubset(env, Sites(env, vs, m[k]), Sites(env, spec, v));
        NeedsLess(env, spec, v, vs, m[k]);
        i := Terminates(env, vs, m[k]);
      }
      OneMoreEntry(env, ks, vs, m, keys, k, n, i);
      n := n + i;
    }
  }

  lemma NoEntriesEnd(env: Env, ks: Spec, vs: Spec, m: map<Key, Dyn>)
    ensures EntriesEnd(env, ks, vs, m, {}, 0)
  {
    hide NeverOut;
  }

  lemma OneMoreEntry(env: Env, ks: Spec, vs: Spec, m: map<Key, Dyn>, keys: set<Key>, k: Key, n: nat, i: nat)
    requires EntriesEnd(env, ks, vs, m, keys - {k}, n)
    requires k in m && KeySucceeds(env, ks, k) ==> NeverOut(env, vs, m[k], i)
    ensures EntriesEnd(env, ks, vs, m, keys, n + i)
  {
    hide May, KeySucceeds;
  }

  // ---- Divergence

  /** Some run on a value that needs a default of an endless set exhausts any depth. */
  lemma {:induction false} Diverges(env: Env, d: nat, spec: Spec, v: Dyn, bad: set<Site>)
    requires Endless(env, bad) && Hits(env, spec, v, bad)
    ensures May(env, d, spec, v, Out)
    decreases d
  {
    hide May, MayList, MayEntries, Endless, Sites, Hits, Accepted, AsStrings, AsEntries, WithDefaults, KeySucceeds;
    if d == 0 {
      MayNothing(env, spec, v, Out);
      return;
    }
    HitsKind(env, spec, v, bad);
    var root := spec.Root();
    if root.StructSpec? {
      var given, f := HitField(env, spec, v, bad);
      var def := env.Def(root.structName);
      Diverges(env, d - 1, f.ty, WithDefaults(def.fields, given).value[f.name], bad);
      FieldDecides(env, d - 1, def.fields, WithDefaults(def.fields, given).value, f, Out);
      GroupDecides(env, d - 1, def.fields, AsStrings(v).value, given, Out);
      MayOfStruct(env, d, spec, v, Out);
    } else if root.ListSpec? || root.SetSpec? {
      var i := HitItem(env, spec, v, bad);
      var r := GetsTo(env, d - 1, root.elem, v.items, i);
      Diverges(env, d - 1, root.elem, v.items[i], bad);
      if r == Good { ItemDecides(env, d - 1, root.elem, v.items, i, Out); }
      MayOfList(env, d, spec, v, Out);
    } else {
      var k := HitEntry(env, spec, v, bad);
      Diverges(env, d - 1, root.value, AsEntries(v).value[k], bad);
      EntryOut(env, d - 1, root.key, root.value, AsEntries(v).value, k);
      MayOfMap(env, d, spec, v, Out);
    }
  }

  lemma EntryOut(env: Env, d: nat, ks: Spec, vs: Spec, m: map<Key, Dyn>, k: Key)
    requires k in m && !m[k].Nil? && KeySucceeds(env, ks, k) && May(env, d, vs, m[k], Out)
    ensures MayEntries(env, d, ks, vs, m, Out)
  {
    hide May, MayEntry, MayEntries, CanSucceed, ConvertMapKey;
    var r := SucceedsOrOut(env, d, ks, ConvertMapKey(env.lib, ks, k));
    if r == Good {
      ValueDecides(env, d, ks, vs, k, m[k], Out);
    } else {
      KeyDecides(env, d, ks, vs, k, m[k], Out);
    }
    EntryDecides(env, d, ks, vs, m, k, Out);
  }

  // ---- The exact condition

  lemma NextIsNode(g: Graph<Site>, t: Site, u: Site)
    requires u in Next(g, t)
    ensures u in Nodes(g)
  {
  }

  /** The defaults from which the cycle through s is reached. */
  lemma CycleIsEndless(env: Env, from: set<Site>, s: Site) returns (bad: set<Site>)
    requires s in Reach(SiteGraph(env), from) && OnCycle(SiteGraph(env), s)
    ensures Endless(env, bad) && Meets(from, bad)
  {
    hide SiteGraph, SiteNext, Sites;
    var g := SiteGraph(env);
    bad := set t | t in Nodes(g) + from && Reaches(g, t, s);
    var a :| a in from && Reaches(g, a, s);
    assert a in bad;
    forall t | t in bad ensures Meets(SiteNext(env, t), bad) {
      var u: Site;
      if t == s {
        u :| u in Next(g, s) && Reaches(g, u, s);
      } else {
        u := FirstStep(g, t, s);
      }
      SiteGraphNext(env, t);
      NextIsNode(g, t, u);
      assert u in SiteNext(env, t) && u in bad;
    }
  }

  /** Some depth is enough for every run, and then so is every greater one, exactly when none of the
      defaults that runs need, directly or through other defaults, needs itself; otherwise some run
      exhausts any depth. */
  lemma TerminatesIffCalm(env: Env, spec: Spec, v: Dyn)
    requires ScalarKeysEnv(env) && ScalarKeys(spec)
    ensures Calm(env, Sites(env, spec, v)) <==> exists n: nat :: NeverOut(env, spec, v, n)
    ensures forall n: nat :: NeverOut(env, spec, v, n) <==> !May(env, n, spec, v, Out)
    ensures !Calm(env, Sites(env, spec, v)) ==> forall d: nat :: May(env, d, spec, v, Out)
  {
    hide May, Sites, SiteGraph, NeverOut, Calm;
    if Calm(env, Sites(env, spec, v)) {
      var n := Terminates(env, spec, v);
    } else {
      AlwaysDiverges(env, spec, v);
    }
    forall n: nat ensures NeverOut(env, spec, v, n) <==> !May(env, n, spec, v, Out) {
      if May(env, n, spec, v, Out) { DoesNotEnd(env, spec, v, n); } else { NotOutStays(env, spec, v, n); }
    }
  }

  lemma AlwaysDiverges(env: Env, spec: Spec, v: Dyn)
    requires !Calm(env, Sites(env, spec, v))
    ensures forall d: nat :: May(env, d, spec, v, Out)
  {
    hide May, Sites, SiteGraph, Reach, OnCycle, Endless;
    var s :| s in Reach(SiteGraph(env), Sites(env, spec, v)) && OnCycle(SiteGraph(env), s);
    var bad := CycleIsEndless(env, Sites(env, spec, v), s);
    forall d: nat ensures May(env, d, spec, v, Out) { Diverges(env, d, spec, v, bad); }
  }

  lemma DoesNotEnd(env: Env, spec: Spec, v: Dyn, n: nat)
    requires May(env, n, spec, v, Out)
    ensures !NeverOut(env, spec, v, n)
  {
    hide May;
  }

  /** As code: with a depth that no run exhausts, toWireValue returns a value or an error. */
  method EncodeToTheEnd(env: Env, depth: nat, spec: Spec, v: Dyn) returns (r: ThriftToWire.Result<Wire>)
    requires !May(env, depth, spec, v, Out)
    ensures !r.Exhausted?
  {
    hide May;
    r := ThriftToWire.ToWireValue(env, depth, spec, v);
  }

  // ---- A condition on the types alone

  function Refs(spec: Spec): set<string> {
    match spec
    case TypedefSpec(t) => Refs(t)
    case StructSpec(n) => {n}
    case ListSpec(e) => Refs(e)
    case SetSpec(e) => Refs(e)
    case MapSpec(_, v) => Refs(v)
    case _ => {}
  }

  lemma {:induction false} RefsRoot(spec: Spec)
    ensures Refs(spec.Root()) == Refs(spec)
  {
    if spec.TypedefSpec? { RefsRoot(spec.target); }
  }

  ghost function TypeGraph(env: Env): Graph<string> {
    map n | n in env.structs ::
        set i, r | 0 <= i < |env.structs[n].fields| && r in Refs(env.structs[n].fields[i].ty) :: r
  }

  ghost predicate Within(env: Env, spec: Spec, name: string) {
    exists r :: r in Refs(spec) && Reaches(TypeGraph(env), r, name)
  }

  /** No struct is reachable from the type of one of its own fields that have a default. */
  ghost predicate NoDefaultCycle(env: Env) {
    forall s: Site | HasDefault(env, s) ::
        !Within(env, FieldOf(env.Def(s.structName).fields, s.fieldName).ty, s.structName)
  }

  lemma WithinField(env: Env, name: string, f: FieldSpec, target: string)
    requires f in env.Def(name).fields && Within(env, f.ty, target)
    ensures Reaches(TypeGraph(env), name, target)
  {
    var r :| r in Refs(f.ty) && Reaches(TypeGraph(env), r, target);
    var i :| 0 <= i < |env.structs[name].fields| && env.structs[name].fields[i] == f;
    assert r in Next(TypeGraph(env), name);
    ReachesBefore(TypeGraph(env), name, r, target);
  }

  /** A default that a value of some type needs belongs to a struct reachable from the type. */
  lemma {:induction false} SitesWithin(env: Env, spec: Spec, v: Dyn, s: Site)
    requires s in Sites(env, spec, v)
    ensures Within(env, spec, s.structName)
    decreases v
  {
    hide Accepted, DefaultSites, GetField, TypeGraph, Reaches, Visited, KeySucceeds;
    RefsRoot(spec);
    var root := spec.Root();
    var bad := {s};
    assert s in Sites(env, spec, v) && s in bad;
    assert Hits(env, spec, v, bad);
    HitsKind(env, spec, v, bad);
    if root.StructSpec? {
      var name := root.structName;
      var g := env.Def(name).fields;
      SplitSite(env, spec, v, s);
      if s in DefaultSites(name, g, AsStrings(v).value) {
        var f := SiteField(name, g, AsStrings(v).value, s);
        ReachesSelf(TypeGraph(env), name);
      } else {
        var k :| k in AsStrings(v).value && GetField(g, k).Some?
            && s in Sites(env, GetField(g, k).value.ty, AsStrings(v).value[k]);
        GetFieldFinds(g, k);
        RequestPart(env, spec, v, k, GetField(g, k).value);
        SitesWithin(env, GetField(g, k).value.ty, AsStrings(v).value[k], s);
        WithinField(env, name, GetField(g, k).value, s.structName);
      }
    } else if root.ListSpec? || root.SetSpec? {
      var i := HitItem(env, spec, v, bad);
      SitesWithin(env, root.elem, v.items[i], s);
    } else {
      var k := HitEntry(env, spec, v, bad);
      EntryPart(env, spec, v, k);
      SitesWithin(env, root.value, AsEntries(v).value[k], s);
    }
  }

  lemma SiteStepWithin(env: Env, s: Site, t: Site)
    requires t in SiteNext(env, s)
    ensures HasDefault(env, s) && Within(env, FieldOf(env.Def(s.structName).fields, s.fieldName).ty, t.structName)
    ensures Reaches(TypeGraph(env), s.structName, t.structName)
  {
    hide Within, TypeGraph, Reaches, Sites;
    var f := FieldOf(env.Def(s.structName).fields, s.fieldName);
    SitesWithin(env, f.ty, RequestOf(f.default.value).value, t);
    WithinField(env, s.structName, f, t.structName);
  }

  lemma {:induction false} SitePathReaches(env: Env, p: seq<Site>, s: Site, t: Site)
    requires Links(SiteGraph(env), p, s, t)
    ensures Reaches(TypeGraph(env), s.structName, t.structName)
  {
    hide TypeGraph, Reaches, SiteGraph, SiteNext;
    if |p| == 1 {
      ReachesSelf(TypeGraph(env), s.structName);
    } else {
      assert p[1] in Next(SiteGraph(env), p[0]);
      SiteGraphNext(env, p[0]);
      SiteStepWithin(env, p[0], p[1]);
      var q := p[1..];
      forall i | 0 <= i < |q| - 1 ensures q[i + 1] in Next(SiteGraph(env), q[i]) {
        assert q[i] == p[i + 1] && q[i + 1] == p[i + 2];
      }
      SitePathReaches(env, q, p[1], t);
      ReachesChain(TypeGraph(env), s.structName, p[1].structName, t.structName);
    }
  }

  lemma WithinChain(env: Env, spec: Spec, a: string, b: string)
    requires Within(env, spec, a) && Reaches(TypeGraph(env), a, b)
    ensures Within(env, spec, b)
  {
    hide TypeGraph, Reaches;
    var r :| r in Refs(spec) && Reaches(TypeGraph(env), r, a);
    ReachesChain(TypeGraph(env), r, a, b);
  }

  /** If no struct is reachable from the type of one of its own defaulted fields, then every run ends,
      for every type, recursive ones included, and every value. */
  lemma TerminatesByTypes(env: Env, spec: Spec, v: Dyn)
    requires ScalarKeysEnv(env) && ScalarKeys(spec) && NoDefaultCycle(env)
    ensures exists n: nat :: NeverOut(env, spec, v, n)
  {
    hide Sites, SiteGraph, NeverOut, NoDefaultCycle, Reach, OnCycle;
    forall s | s in Reach(SiteGraph(env), Sites(env, spec, v)) ensures !OnCycle(SiteGraph(env), s) {
      NoSiteCycle(env, s);
    }
    TerminatesIffCalm(env, spec, v);
  }

  lemma NoSiteCycle(env: Env, s: Site)
    requires NoDefaultCycle(env)
    ensures !OnCycle(SiteGraph(env), s)
  {
    hide SiteGraph, SiteNext, Sites, Within, TypeGraph, HasDefault;
    if OnCycle(SiteGraph(env), s) {
      var t :| t in Next(SiteGraph(env), s) && Reaches(SiteGraph(env), t, s);
      SiteGraphNext(env, s);
      SiteStepWithin(env, s, t);
      var p :| Links(SiteGraph(env), p, t, s);
      SitePathReaches(env, p, t, s);
      WithinChain(env, FieldOf(env.Def(s.structName).fields, s.fieldName).ty, t.structName, s.structName);
    }
  }

  /** struct A {1: optional A a = {}} */
  function SelfDefaultField(): FieldSpec { FieldSpec(1, "a", StructSpec("A"), false, Some(ConstStruct(map[]))) }

  function SelfDefaultEnv(lib: Lib): Env { Env(map["A" := StructDef([SelfDefaultField()], false)], lib) }

  lemma EmptyRequestOfA(g: seq<FieldSpec>)
    requires g == [SelfDefaultField()]
    ensures WithDefaults(g, map[]) == Some(map["a" := StrMap(map[])])
    ensures Accepted(g, map[]) && Collected(g, map[], map[])
    ensures forall given | Collected(g, map[], given) :: given == map[]
  {
    hide WithDefaults, Collected, Given;
    DefaultOfA(g);
    NothingCollected(g);
  }

  lemma DefaultOfA(g: seq<FieldSpec>)
    requires g == [SelfDefaultField()]
    ensures WithDefaults(g, map[]) == Some(map["a" := StrMap(map[])])
  {
    var c := ConstStruct(map[]);
    assert RequestOf(c).Some? && RequestOf(c).value.fields == map[];
    assert g[..0] == [] && WithDefaults(g[..0], map[]) == Some(map[]);
    hide RequestOf;
  }

  lemma NothingCollected(g: seq<FieldSpec>)
    requires g == [SelfDefaultField()]
    ensures Unknown(g, map[]) == {} && Given(g, map[]) == map[] && Missing(g, map[]) == {}
    ensures Collected(g, map[], map[]) && forall given | Collected(g, map[], given) :: given == map[]
  {
    hide GetField;
    assert Given(g, map[]) == map[];
    GivenIsCollected(g, map[]);
    forall given | Collected(g, map[], given) ensures given == map[] {
      SameKeys(g, map[], given, Given(g, map[]));
      assert given.Keys == {};
    }
  }

  /** The condition is needed: on the empty request of this struct every run exhausts every depth. */
  lemma {:induction false} SelfDefaultDiverges(lib: Lib, depth: nat, e: End)
    ensures May(SelfDefaultEnv(lib), depth, StructSpec("A"), StrMap(map[]), e) <==> e == Out
  {
    hide May, Accepted, WithDefaults, Collected;
    var env, spec, v := SelfDefaultEnv(lib), StructSpec("A"), StrMap(map[]);
    var def := env.Def("A");
    var g := def.fields;
    EmptyRequestOfA(g);
    var uf := map["a" := v];
    if depth == 0 {
      MayNothing(env, spec, v, e);
    } else {
      SelfDefaultDiverges(lib, depth - 1, Good);
      SelfDefaultDiverges(lib, depth - 1, e);
      MayOfStruct(env, depth, spec, v, e);
      OnlyField(env, depth - 1, g, uf, Good);
      OnlyField(env, depth - 1, g, uf, e);
      OnlyGiven(env, depth - 1, g, uf, Good);
      OnlyGiven(env, depth - 1, g, uf, e);
    }
  }

  lemma OnlyField(env: Env, depth: nat, g: seq<FieldSpec>, uf: map<string, Dyn>, e: End)
    requires g == [SelfDefaultField()] && uf.Keys == {"a"}
    ensures MayFields(env, depth, g, uf, e) <==> May(env, depth, StructSpec("A"), uf["a"], e)
  {
    hide May;
    assert g[0] in g && g[0].name == "a";
  }

  lemma OnlyGiven(env: Env, depth: nat, g: seq<FieldSpec>, uf: map<string, Dyn>, e: End)
    requires WithDefaults(g, map[]) == Some(uf) && Collected(g, map[], map[])
    requires forall given | Collected(g, map[], given) :: given == map[]
    ensures MayGroup(env, depth, g, map[], e) <==> MayFields(env, depth, g, uf, e)
  {
    hide MayFields, Collected, WithDefaults;
    if MayFields(env, depth, g, uf, e) { GroupDecides(env, depth, g, map[], map[], e); }
  }
}

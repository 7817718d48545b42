/** The defaults that runs of the encoder fill in. */
module ThriftSites {
  // A site is a struct and one of its fields that has a default. A default is itself a value and may
  // need further defaults, so sites form a graph. Every value that a run meets is either a part of the
  // request, whose sites are among the request's, or the default of one of the request's sites; whether
  // runs come to an end is then a question about that graph.

  import opened Option
  import opened Values
  import opened ThriftSpec
  import opened ThriftFields
  import opened ThriftScalars
  import opened ThriftEncode
  import opened ThriftFieldLoops
  import opened ThriftRuns
  import opened Graph

  /** A field, by struct and field name, that has a default. */
  datatype Site = Site(structName: string, fieldName: string)

  ghost function DefaultSites(name: string, g: seq<FieldSpec>, request: map<string, Dyn>): set<Site> {
    set i | 0 <= i < |g| && g[i].default.Some? && g[i].name !in Given(g, request) :: Site(name, g[i].name)
  }

  /** The key of an entry can be encoded. */
  ghost predicate KeySucceeds(env: Env, ks: Spec, k: Key) { CanSucceed(env, ks, ConvertMapKey(env.lib, ks, k)) }

  /** The defaults that some run on the value fills in, not counting those that defaults need in turn.
      A value is met only after the items before it, or its key, have been encoded. */
  ghost function Sites(env: Env, spec: Spec, v: Dyn): set<Site>
    decreases v
  {
    match spec.Root()
    case StructSpec(name) =>
      var g := env.Def(name).fields;
      if AsStrings(v).None? || !Accepted(g, AsStrings(v).value) then {}
      else
        DefaultSites(name, g, AsStrings(v).value) +
        (if v.StrMap?
         then set k, s | k in v.fields && GetField(g, k).Some?
                         && s in Sites(env, GetField(g, k).value.ty, v.fields[k]) :: s
         else set k, s | k in v.entries && k.KStr? && GetField(g, k.s).Some?
                         && s in Sites(env, GetField(g, k.s).value.ty, v.entries[k]) :: s)
    case ListSpec(e) => if v.List? then ItemSites(env, e, v.items) else {}
    case SetSpec(e) => if v.List? then ItemSites(env, e, v.items) else {}
    case MapSpec(ks, t) =>
      if v.StrMap?
      then set k, s | k in v.fields && KeySucceeds(env, ks, KStr(k)) && s in Sites(env, t, v.fields[k]) :: s
      else if v.AnyMap?
      then set k, s | k in v.entries && KeySucceeds(env, ks, k) && s in Sites(env, t, v.entries[k]) :: s
      else {}
    case _ => {}
  }

  ghost function ItemSites(env: Env, elem: Spec, vs: seq<Dyn>): set<Site>
    decreases vs
  {
    set i, s | 0 <= i < |vs| && Visited(env, elem, vs, i) && s in Sites(env, elem, vs[i]) :: s
  }

  /** The declared field of a site. */
  ghost predicate HasDefault(env: Env, s: Site) {
    && s.fieldName in Names(env.Def(s.structName).fields)
    && FieldOf(env.Def(s.structName).fields, s.fieldName).default.Some?
  }

  /** The defaults that the default at a site fills in. */
  ghost function SiteNext(env: Env, s: Site): set<Site> {
    if !HasDefault(env, s) then {}
    else
      var f := FieldOf(env.Def(s.structName).fields, s.fieldName);
      match RequestOf(f.default.value)
      case None => {}
      case Some(v) => Sites(env, f.ty, v)
  }

  ghost function AllSites(env: Env): set<Site> {
    set n, i | n in env.structs && 0 <= i < |env.structs[n].fields| :: Site(n, env.structs[n].fields[i].name)
  }

  ghost function SiteGraph(env: Env): Graph<Site> { map s | s in AllSites(env) :: SiteNext(env, s) }

  lemma SiteGraphNext(env: Env, s: Site)
    ensures Next(SiteGraph(env), s) == SiteNext(env, s)
  {
    if HasDefault(env, s) {
      var g := env.Def(s.structName).fields;
      var i :| 0 <= i < |g| && g[i].name == s.fieldName;
      assert s in AllSites(env);
    }
    hide Sites, HasDefault;
  }

  /** No default reachable from the given ones needs itself. */
  ghost predicate Calm(env: Env, from: set<Site>) {
    forall s | s in Reach(SiteGraph(env), from) :: !OnCycle(SiteGraph(env), s)
  }

  lemma CalmSubset(env: Env, small: set<Site>, large: set<Site>)
    requires small <= large && Calm(env, large)
    ensures Calm(env, small) && |Reach(SiteGraph(env), small)| <= |Reach(SiteGraph(env), large)|
  {
    hide Reach, SiteGraph, OnCycle;
    ReachMonotone(SiteGraph(env), small, large);
  }

  lemma CalmNext(env: Env, from: set<Site>, s: Site)
    requires s in from && Calm(env, from)
    ensures Calm(env, SiteNext(env, s))
    ensures |Reach(SiteGraph(env), SiteNext(env, s))| < |Reach(SiteGraph(env), from)|
  {
    hide SiteGraph, OnCycle, SiteNext, Reaches;
    ReachesSelf(SiteGraph(env), s);
    ReachIs(SiteGraph(env), from, s, s);
    SiteGraphNext(env, s);
    ReachDrops(SiteGraph(env), s, from);
  }

  // ---- Sites of the parts of a value

  /** A value in the request is smaller, and its sites are sites of the whole. */
  lemma RequestPart(env: Env, spec: Spec, v: Dyn, k: string, f: FieldSpec)
    requires spec.Root().StructSpec? && AsStrings(v).Some? && k in AsStrings(v).value
    requires var g := env.Def(spec.Root().structName).fields;
             Accepted(g, AsStrings(v).value) && GetField(g, k) == Some(f)
    ensures AsStrings(v).value[k] < v && Sites(env, f.ty, AsStrings(v).value[k]) <= Sites(env, spec, v)
  {
    hide Accepted, GetField, DefaultSites;
    if v.StrMap? {
      assert v.fields[k] < v;
    } else {
      assert KStr(k) in v.entries && AsStrings(v).value[k] == v.entries[KStr(k)] && v.entries[KStr(k)] < v;
      assert KStr(k).s == k;
    }
  }

  lemma DefaultPart(env: Env, spec: Spec, v: Dyn)
    requires spec.Root().StructSpec? && AsStrings(v).Some?
    requires Accepted(env.Def(spec.Root().structName).fields, AsStrings(v).value)
    ensures var name := spec.Root().structName;
            DefaultSites(name, env.Def(name).fields, AsStrings(v).value) <= Sites(env, spec, v)
  {
    hide Accepted, GetField, DefaultSites;
  }

  lemma ItemPart(env: Env, spec: Spec, v: Dyn, i: nat)
    requires (spec.Root().ListSpec? || spec.Root().SetSpec?) && v.List? && i < |v.items|
    requires Visited(env, spec.Root().elem, v.items, i)
    ensures Sites(env, spec.Root().elem, v.items[i]) <= Sites(env, spec, v)
  {
    hide Visited;
  }

  lemma EntryPart(env: Env, spec: Spec, v: Dyn, k: Key)
    requires spec.Root().MapSpec? && AsEntries(v).Some? && k in AsEntries(v).value
    requires KeySucceeds(env, spec.Root().key, k)
    ensures AsEntries(v).value[k] < v
    ensures Sites(env, spec.Root().value, AsEntries(v).value[k]) <= Sites(env, spec, v)
  {
    hide KeySucceeds;
    if v.StrMap? {
      assert k.KStr? && k.s in v.fields && v.fields[k.s] < v;
    } else {
      assert v.entries[k] < v;
    }
  }

  lemma DefaultSiteNext(env: Env, name: string, request: map<string, Dyn>, f: FieldSpec)
    requires var g := env.Def(name).fields;
             f in g && f.name !in Given(g, request) && f.default.Some? && RequestOf(f.default.value).Some?
    ensures Site(name, f.name) in DefaultSites(name, env.Def(name).fields, request)
    ensures SiteNext(env, Site(name, f.name)) == Sites(env, f.ty, RequestOf(f.default.value).value)
  {
    hide Sites, RequestOf, Given;
    var g := env.Def(name).fields;
    MemberIsFieldOf(g, f);
    var i :| 0 <= i < |g| && g[i] == f;
  }

  /** A field value that some run meets is the value of a request key, or the field's default. */
  lemma FieldSource(g: seq<FieldSpec>, request: map<string, Dyn>, given: map<string, Dyn>, f: FieldSpec)
    requires DistinctFields(g) && Collected(g, request, given) && WithDefaults(g, given).Some?
    requires f in g && f.name in WithDefaults(g, given).value
    ensures var x := WithDefaults(g, given).value[f.name];
            || (exists k :: k in request && GetField(g, k) == Some(f) && !request[k].Nil? && x == request[k])
            || (f.name !in Given(g, request) && f.default.Some? && RequestOf(f.default.value) == Some(x))
  {
    hide GetField, Given, Collected, WithDefaults, RequestOf;
    SameDomain(g, request, given);
    WithDefaultsLookup(g, given);
    if f.name in given {
      var k := CollectedAt(g, request, given, f.name);
      GetFieldFinds(g, k);
      NameInjective(g, f, GetField(g, k).value);
    } else {
      var h :| h in g && h.name == f.name && h.default.Some?;
      NameInjective(g, f, h);
    }
  }

  // ---- When runs end

  /** Map keys are scalars: a key never brings in a struct. */
  predicate ScalarKeys(spec: Spec) {
    match spec
    case TypedefSpec(t) => ScalarKeys(t)
    case ListSpec(e) => ScalarKeys(e)
    case SetSpec(e) => ScalarKeys(e)
    case MapSpec(k, v) => ScalarSpec(k.Root()) && ScalarKeys(v)
    case _ => true
  }

  ghost predicate ScalarKeysEnv(env: Env) {
    forall name, i | name in env.structs && 0 <= i < |env.structs[name].fields| ::
      ScalarKeys(env.structs[name].fields[i].ty)
  }

  lemma {:induction false} ScalarKeysRoot(spec: Spec)
    requires ScalarKeys(spec)
    ensures ScalarKeys(spec.Root())
  {
    if spec.TypedefSpec? { ScalarKeysRoot(spec.target); }
  }

  lemma ScalarKeysField(env: Env, name: string, f: FieldSpec)
    requires ScalarKeysEnv(env) && f in env.Def(name).fields
    ensures ScalarKeys(f.ty)
  {
  }

  /** From depth n on, no value that one of these request keys gives a field exhausts the depth. */
  ghost predicate KeysEnd(env: Env, g: seq<FieldSpec>, request: map<string, Dyn>, keys: set<string>, n: nat) {
    forall k | k in keys && k in request && GetField(g, k).Some? && !request[k].Nil? ::
      NeverOut(env, GetField(g, k).value.ty, request[k], n)
  }

  /** No default of the first j fields does. */
  ghost predicate DefaultsEnd(env: Env, g: seq<FieldSpec>, request: map<string, Dyn>, j: nat, n: nat) {
    forall i | 0 <= i < j && i < |g| && g[i].name !in Given(g, request) && g[i].default.Some? ::
      RequestOf(g[i].default.value).Some? ==> NeverOut(env, g[i].ty, RequestOf(g[i].default.value).value, n)
  }

  /** None of the first j items does, if it is visited. */
  ghost predicate ItemsEnd(env: Env, elem: Spec, vs: seq<Dyn>, j: nat, n: nat) {
    forall i | 0 <= i < j && i < |vs| && Visited(env, elem, vs, i) :: NeverOut(env, elem, vs[i], n)
  }

  /** No value of one of these keys does, if its key can be encoded. */
  ghost predicate EntriesEnd(env: Env, ks: Spec, vs: Spec, m: map<Key, Dyn>, keys: set<Key>, n: nat) {
    forall k | k in keys && k in m && KeySucceeds(env, ks, k) :: NeverOut(env, vs, m[k], n)
  }

  lemma ScalarEnds(env: Env, spec: Spec, v: Dyn)
    requires ScalarSpec(spec.Root())
    ensures NeverOut(env, spec, v, 1)
  {
    hide May, EncodeScalar;
    forall d: nat | d >= 1 ensures !May(env, d, spec, v, Out) { MayOfScalar(env, d, spec, v, Out); }
  }

  lemma RejectedEnds(env: Env, spec: Spec, v: Dyn)
    requires spec.Root().StructSpec?
    requires AsStrings(v).None? || !Accepted(env.Def(spec.Root().structName).fields, AsStrings(v).value)
    ensures NeverOut(env, spec, v, 1)
  {
    hide May, Accepted, AsStrings;
    forall d: nat | d >= 1 ensures !May(env, d, spec, v, Out) { MayOfStruct(env, d, spec, v, Out); }
  }

  lemma StructEnds(env: Env, spec: Spec, v: Dyn, n: nat)
    requires spec.Root().StructSpec? && AsStrings(v).Some?
    requires var g, request := env.Def(spec.Root().structName).fields, AsStrings(v).value;
             && Accepted(g, request)
             && KeysEnd(env, g, request, request.Keys, n) && DefaultsEnd(env, g, request, |g|, n)
    ensures NeverOut(env, spec, v, n + 1)
  {
    hide May, Accepted, AsStrings, MayGroup, KeysEnd, DefaultsEnd;
    var g, request := env.Def(spec.Root().structName).fields, AsStrings(v).value;
    forall d: nat | d >= n + 1 ensures !May(env, d, spec, v, Out) {
      MayOfStruct(env, d, spec, v, Out);
      GroupEnds(env, g, request, n, d - 1);
    }
  }

  lemma GroupEnds(env: Env, g: seq<FieldSpec>, request: map<string, Dyn>, n: nat, d: nat)
    requires DistinctFields(g) && d >= n
    requires KeysEnd(env, g, request, request.Keys, n) && DefaultsEnd(env, g, request, |g|, n)
    ensures !MayGroup(env, d, g, request, Out)
  {
    hide May, MayFields, Collected, WithDefaults, GetField, Given, RequestOf;
    if MayGroup(env, d, g, request, Out) {
      var given :| Collected(g, request, given) && MayFill(env, d, g, given, Out);
      var f := OutField(env, d, g, WithDefaults(g, given).value);
      var i :| 0 <= i < |g| && g[i] == f;
      FieldSource(g, request, given, f);
    }
  }

  lemma OutField(env: Env, d: nat, g: seq<FieldSpec>, uf: map<string, Dyn>) returns (f: FieldSpec)
    requires MayFields(env, d, g, uf, Out)
    ensures f in g && f.name in uf && May(env, d, f.ty, uf[f.name], Out)
  {
    hide May;
    f :| f in g && f.name in uf && May(env, d, f.ty, uf[f.name], Out);
  }

  lemma ListEnds(env: Env, spec: Spec, v: Dyn, n: nat)
    requires spec.Root().ListSpec? || spec.Root().SetSpec?
    requires v.List? ==> ItemsEnd(env, spec.Root().elem, v.items, |v.items|, n)
    ensures NeverOut(env, spec, v, n + 1)
  {
    hide May, MayList, ItemsEnd;
    forall d: nat | d >= n + 1 ensures !May(env, d, spec, v, Out) {
      MayOfList(env, d, spec, v, Out);
      if v.List? { ItemsNeverOut(env, spec.Root().elem, v.items, n, d - 1); }
    }
  }

  lemma ItemsNeverOut(env: Env, elem: Spec, vs: seq<Dyn>, n: nat, d: nat)
    requires d >= n && ItemsEnd(env, elem, vs, |vs|, n)
    ensures !MayList(env, d, elem, vs, Out)
  {
    hide May, Visited;
    if MayList(env, d, elem, vs, Out) {
      var i :| 0 <= i < |vs| && May(env, d, elem, vs[i], Out) && MayList(env, d, elem, vs[..i], Good);
      SuccessMeansVisited(env, d, elem, vs, i);
    }
  }

  lemma MapEnds(env: Env, spec: Spec, v: Dyn, n: nat)
    requires spec.Root().MapSpec? && ScalarSpec(spec.Root().key.Root())
    requires AsEntries(v).Some? ==>
               EntriesEnd(env, spec.Root().key, spec.Root().value, AsEntries(v).value, AsEntries(v).value.Keys, n)
    ensures NeverOut(env, spec, v, n + 2)
  {
    hide May, MayEntries, EntriesEnd, AsEntries;
    forall d: nat | d >= n + 2 ensures !May(env, d, spec, v, Out) {
      MayOfMap(env, d, spec, v, Out);
      if AsEntries(v).Some? {
        EntriesNeverOut(env, spec.Root().key, spec.Root().value, AsEntries(v).value, n, d - 1);
      }
    }
  }

  lemma EntriesNeverOut(env: Env, ks: Spec, vs: Spec, m: map<Key, Dyn>, n: nat, d: nat)
    requires d >= n + 1 && ScalarSpec(ks.Root()) && EntriesEnd(env, ks, vs, m, m.Keys, n)
    ensures !MayEntries(env, d, ks, vs, m, Out)
  {
    hide May, MayEntry, ConvertMapKey;
    if MayEntries(env, d, ks, vs, m, Out) {
      var k :| k in m && !m[k].Nil? && MayEntry(env, d, ks, vs, k, m[k], Out);
      var early := EntryParts(env, d, ks, vs, k, m[k], Out);
      ScalarEnds(env, ks, ConvertMapKey(env.lib, ks, k));
    }
  }

  // ---- Defaults that need one another

  ghost predicate Meets(a: set<Site>, b: set<Site>) { exists s :: s in a && s in b }

  /** Every default in the set needs another one in the set. */
  ghost predicate Endless(env: Env, bad: set<Site>) {
    forall s {:trigger SiteNext(env, s)} | s in bad :: Meets(SiteNext(env, s), bad)
  }

  ghost predicate Hits(env: Env, spec: Spec, v: Dyn, bad: set<Site>) {
    Meets(Sites(env, spec, v), bad)
  }

  lemma HitsKind(env: Env, spec: Spec, v: Dyn, bad: set<Site>)
    requires Hits(env, spec, v, bad)
    ensures spec.Root().StructSpec? ==>
              AsStrings(v).Some? && Accepted(env.Def(spec.Root().structName).fields, AsStrings(v).value)
    ensures spec.Root().ListSpec? || spec.Root().SetSpec? ==> v.List?
    ensures || spec.Root().StructSpec? || spec.Root().ListSpec? || spec.Root().SetSpec?
            || (spec.Root().MapSpec? && AsEntries(v).Some?)
  {
    hide Accepted, DefaultSites, GetField, ItemSites, KeySucceeds;
  }

  lemma NilHitsNothing(env: Env, spec: Spec, bad: set<Site>)
    ensures !Hits(env, spec, Nil, bad)
  {
  }

  lemma HitItem(env: Env, spec: Spec, v: Dyn, bad: set<Site>) returns (i: nat)
    requires (spec.Root().ListSpec? || spec.Root().SetSpec?) && v.List? && Hits(env, spec, v, bad)
    ensures i < |v.items| && Visited(env, spec.Root().elem, v.items, i)
    ensures Hits(env, spec.Root().elem, v.items[i], bad)
  {
    hide Visited;
    var s :| s in Sites(env, spec, v) && s in bad;
    assert s in ItemSites(env, spec.Root().elem, v.items);
    var j :| 0 <= j < |v.items| && Visited(env, spec.Root().elem, v.items, j)
             && s in Sites(env, spec.Root().elem, v.items[j]);
    i := j;
  }

  lemma HitEntry(env: Env, spec: Spec, v: Dyn, bad: set<Site>) returns (k: Key)
    requires spec.Root().MapSpec? && AsEntries(v).Some? && Hits(env, spec, v, bad)
    ensures k in AsEntries(v).value && Hits(env, spec.Root().value, AsEntries(v).value[k], bad)
    ensures KeySucceeds(env, spec.Root().key, k) && !AsEntries(v).value[k].Nil?
  {
    hide KeySucceeds;
    var t := spec.Root().value;
    var s :| s in Sites(env, spec, v) && s in bad;
    if v.StrMap? {
      var n :| n in v.fields && KeySucceeds(env, spec.Root().key, KStr(n)) && s in Sites(env, t, v.fields[n]);
      k := KStr(n);
    } else {
      k :| k in v.entries && KeySucceeds(env, spec.Root().key, k) && s in Sites(env, t, v.entries[k]);
    }
    NilHitsNothing(env, t, bad);
  }

  /** The site is that of a default to fill in, or lies in a value of the request. */
  lemma SplitSite(env: Env, spec: Spec, v: Dyn, s: Site)
    requires spec.Root().StructSpec? && AsStrings(v).Some? && s in Sites(env, spec, v)
    ensures var g := env.Def(spec.Root().structName).fields;
            var request := AsStrings(v).value;
            || s in DefaultSites(spec.Root().structName, g, request)
            || exists k :: k in request && GetField(g, k).Some? && s in Sites(env, GetField(g, k).value.ty, request[k])
  {
    hide Accepted, DefaultSites, GetField;
    var g := env.Def(spec.Root().structName).fields;
    if s !in DefaultSites(spec.Root().structName, g, AsStrings(v).value) {
      if v.StrMap? {
        var k :| k in v.fields && GetField(g, k).Some? && s in Sites(env, GetField(g, k).value.ty, v.fields[k]);
      } else {
        var k :| k in v.entries && k.KStr? && GetField(g, k.s).Some?
                 && s in Sites(env, GetField(g, k.s).value.ty, v.entries[k]);
        assert KStr(k.s) == k && k.s in AsStrings(v).value;
      }
    }
  }

  /** Some run meets a field value that needs a default of the set. */
  lemma HitField(env: Env, spec: Spec, v: Dyn, bad: set<Site>) returns (given: map<string, Dyn>, f: FieldSpec)
    requires Endless(env, bad) && Hits(env, spec, v, bad) && spec.Root().StructSpec? && AsStrings(v).Some?
    requires Accepted(env.Def(spec.Root().structName).fields, AsStrings(v).value)
    ensures var g := env.Def(spec.Root().structName).fields;
            && Collected(g, AsStrings(v).value, given) && WithDefaults(g, given).Some?
            && f in g && f.name in WithDefaults(g, given).value
            && Hits(env, f.ty, WithDefaults(g, given).value[f.name], bad)
  {
    hide Sites, Unknown, Missing, Given, GetField, WithDefaults, DefaultSites, AsStrings, RequestOf, SiteNext,
         Collected;
    var name := spec.Root().structName;
    var g := env.Def(name).fields;
    var request := AsStrings(v).value;
    var s :| s in Sites(env, spec, v) && s in bad;
    SplitSite(env, spec, v, s);
    given := Given(g, request);
    GivenIsCollected(g, request);
    if s in DefaultSites(name, g, request) {
      f := SiteField(name, g, request, s);
      WithDefaultsLookup(g, given);
      DefaultSiteNext(env, name, request, f);
    } else {
      var k :| k in request && GetField(g, k).Some? && s in Sites(env, GetField(g, k).value.ty, request[k]);
      f := GetField(g, k).value;
      GetFieldFinds(g, k);
      assert Hits(env, f.ty, request[k], bad);
      NilHitsNothing(env, f.ty, bad);
      given := Choose(g, request, k, f);
      AcceptedAny(g, request, given);
      WithDefaultsLookup(g, given);
    }
  }

  /** Any key that gives a field a value may be the one whose value is kept. */
  lemma Choose(g: seq<FieldSpec>, request: map<string, Dyn>, k: string, f: FieldSpec) returns (given: map<string, Dyn>)
    requires k in request && GetField(g, k) == Some(f) && !request[k].Nil?
    ensures Collected(g, request, given) && f.name in given && given[f.name] == request[k]
  {
    hide GetField, Collected, Given;
    given := Given(g, request)[f.name := request[k]];
    assert k in Givers(g, request, f.name);
    CollectedPick(g, request, f.name, k);
  }

  lemma SiteField(name: string, g: seq<FieldSpec>, request: map<string, Dyn>, s: Site) returns (f: FieldSpec)
    requires s in DefaultSites(name, g, request)
    ensures f in g && f.default.Some? && f.name !in Given(g, request) && s == Site(name, f.name)
  {
    hide Given;
    var i :| 0 <= i < |g| && g[i].default.Some? && g[i].name !in Given(g, request) && Site(name, g[i].name) == s;
    f := g[i];
  }
}

/** Which values a run of thrift/to_wire.go may return. */
module ThriftResults {
  // As for how runs end: maps are visited in any order, and of several keys that name one field any may
  // be the one whose value is kept.

  import opened Option
  import opened Values
  import opened ThriftSpec
  import opened ThriftFields
  import opened ThriftScalars
  import opened ThriftEncode
  import opened ThriftRuns

  /** Some run of toWireValue returns a value of this meaning. */
  ghost predicate Gives(env: Env, depth: nat, spec: Spec, v: Dyn, m: Meaning)
    decreases depth, 0, 0
  {
    var root := spec.Root();
    if depth == 0 then false
    else if root.StructSpec? then
      AsStrings(v).Some? && GivesStruct(env, depth - 1, env.Def(root.structName), AsStrings(v).value, m)
    else if root.ListSpec? || root.SetSpec? then
      v.List? && exists ms ::
        GivesList(env, depth - 1, root.elem, v.items, ms) && m == ListMeaning(root.SetSpec?, root.elem, ms)
    else if root.MapSpec? then
      && AsEntries(v).Some?
      && exists es ::
           && GivesEntries(env, depth - 1, root.key, root.value, AsEntries(v).value, es)
           && m == MapMeaning(root.key, root.value, es)
    else
      EncodeScalar(env.lib, root, v).Some? && m == MScalar(EncodeScalar(env.lib, root, v).value)
  }

  function ListMeaning(isSet: bool, elem: Spec, ms: seq<Meaning>): Meaning {
    if isSet then MSet(elem.Code(), ms) else MList(elem.Code(), ms)
  }

  function MapMeaning(ks: Spec, vs: Spec, es: Items): Meaning { MMap(ks.Code(), vs.Code(), es) }

  ghost predicate GivesStruct(env: Env, depth: nat, def: StructDef, request: map<string, Dyn>, m: Meaning)
    decreases depth, 4, 0
  {
    && Accepted(def.fields, request) && !WrongUnion(def, request)
    && exists fs :: GivesGroup(env, depth, def.fields, request, fs) && m == MStruct(fs)
  }

  ghost predicate GivesGroup(env: Env, depth: nat, g: seq<FieldSpec>, request: map<string, Dyn>, fs: map<I16, Meaning>)
    decreases depth, 3, 0
  {
    exists given :: Collected(g, request, given) && GivesFilled(env, depth, g, given, fs)
  }

  ghost predicate GivesFilled(env: Env, depth: nat, g: seq<FieldSpec>, given: map<string, Dyn>, fs: map<I16, Meaning>)
    decreases depth, 2, 0
  {
    WithDefaults(g, given).Some? && GivesFields(env, depth, g, WithDefaults(g, given).value, fs)
  }

  /** A value for every field that is set, under its identifier. */
  ghost predicate GivesFields(env: Env, depth: nat, g: seq<FieldSpec>, uf: map<string, Dyn>, fs: map<I16, Meaning>)
    decreases depth, 1, 0
  {
    && (forall f | f in g && f.name in uf :: f.id in fs && Gives(env, depth, f.ty, uf[f.name], fs[f.id]))
    && (forall id | id in fs :: exists f :: f in g && f.name in uf && f.id == id)
  }

  ghost predicate GivesList(env: Env, depth: nat, elem: Spec, vs: seq<Dyn>, ms: seq<Meaning>)
    decreases depth, 1, 0
  {
    |ms| == |vs| && forall i | 0 <= i < |vs| :: Gives(env, depth, elem, vs[i], ms[i])
  }

  ghost predicate GivesEntries(env: Env, depth: nat, ks: Spec, vs: Spec, m: map<Key, Dyn>, es: Items)
    decreases depth, 2, |m|
  {
    if m == map[] then es == multiset{}
    else
      var k := Pick(m);
      exists one, rest ::
        && GivesEntry(env, depth, ks, vs, k, m[k], one)
        && GivesEntries(env, depth, ks, vs, m - {k}, rest) && es == Merge(one, rest)
  }

  function Pair(a: Meaning, b: Meaning): Items { multiset{(a, b)} }

  function Merge(x: Items, y: Items): Items { x + y }

  /** The item of an entry; a nil value drops it. */
  ghost predicate GivesEntry(env: Env, depth: nat, ks: Spec, vs: Spec, k: Key, v: Dyn, one: Items)
    decreases depth, 1, 0
  {
    if v.Nil? then one == multiset{}
    else
      exists a, b ::
        && Gives(env, depth, ks, ConvertMapKey(env.lib, ks, k), a) && Gives(env, depth, vs, v, b)
        && one == Pair(a, b)
  }

  // ---- Unfolding

  lemma GivesNothing(env: Env, spec: Spec, v: Dyn, m: Meaning)
    ensures !Gives(env, 0, spec, v, m)
  {
  }

  lemma GivesOfStruct(env: Env, depth: nat, spec: Spec, v: Dyn, m: Meaning)
    requires depth > 0 && spec.Root().StructSpec?
    ensures Gives(env, depth, spec, v, m) <==>
            AsStrings(v).Some? && GivesStruct(env, depth - 1, env.Def(spec.Root().structName), AsStrings(v).value, m)
  {
    hide GivesStruct, GivesList, GivesEntries, EncodeScalar, AsStrings, AsEntries;
  }

  lemma GivesOfList(env: Env, depth: nat, spec: Spec, v: Dyn, m: Meaning)
    requires depth > 0 && (spec.Root().ListSpec? || spec.Root().SetSpec?)
    ensures Gives(env, depth, spec, v, m) <==>
            && v.List?
            && exists ms ::
                 && GivesList(env, depth - 1, spec.Root().elem, v.items, ms)
                 && m == ListMeaning(spec.Root().SetSpec?, spec.Root().elem, ms)
  {
    hide GivesStruct, GivesList, GivesEntries, EncodeScalar, AsStrings, AsEntries;
  }

  lemma GivesOfMap(env: Env, depth: nat, spec: Spec, v: Dyn, m: Meaning)
    requires depth > 0 && spec.Root().MapSpec?
    ensures Gives(env, depth, spec, v, m) <==>
            && AsEntries(v).Some?
            && exists es ::
                 && GivesEntries(env, depth - 1, spec.Root().key, spec.Root().value, AsEntries(v).value, es)
                 && m == MapMeaning(spec.Root().key, spec.Root().value, es)
  {
    hide GivesStruct, GivesList, GivesEntries, EncodeScalar, AsStrings, AsEntries;
  }

  lemma GivesOfScalar(env: Env, depth: nat, spec: Spec, v: Dyn, m: Meaning)
    requires depth > 0 && ScalarSpec(spec.Root())
    ensures Gives(env, depth, spec, v, m) <==>
            && EncodeScalar(env.lib, spec.Root(), v).Some?
            && m == MScalar(EncodeScalar(env.lib, spec.Root(), v).value)
  {
    hide GivesStruct, GivesList, GivesEntries, EncodeScalar, AsStrings, AsEntries;
  }

  // ---- Loops

  lemma GivesListStep(env: Env, depth: nat, elem: Spec, vs: seq<Dyn>, v: Dyn, ms: seq<Meaning>)
    ensures GivesList(env, depth, elem, vs + [v], ms) <==>
            ms != [] && GivesList(env, depth, elem, vs, ms[..|ms| - 1]) && Gives(env, depth, elem, v, ms[|ms| - 1])
  {
    hide Gives;
    if |ms| == |vs| + 1 {
      assert forall i | 0 <= i < |vs| :: (vs + [v])[i] == vs[i] && ms[..|ms| - 1][i] == ms[i];
      assert (vs + [v])[|vs|] == v;
    }
  }

  lemma NoItemsGiven(env: Env, depth: nat, elem: Spec, ms: seq<Meaning>)
    ensures GivesList(env, depth, elem, [], ms) <==> ms == []
  {
    hide Gives;
  }

  lemma FirstTaken(env: Env, depth: nat, ks: Spec, vs: Spec, m: map<Key, Dyn>, es: Items)
    returns (one: Items, rest: Items)
    requires m != map[] && GivesEntries(env, depth, ks, vs, m, es)
    ensures GivesEntry(env, depth, ks, vs, Pick(m), m[Pick(m)], one)
    ensures GivesEntries(env, depth, ks, vs, m - {Pick(m)}, rest) && es == Merge(one, rest)
  {
    hide Gives, GivesEntry, Merge;
    var k := Pick(m);
    one, rest :|
      && GivesEntry(env, depth, ks, vs, k, m[k], one)
      && GivesEntries(env, depth, ks, vs, m - {k}, rest) && es == Merge(one, rest);
  }

  lemma FirstPut(env: Env, depth: nat, ks: Spec, vs: Spec, m: map<Key, Dyn>, one: Items, rest: Items)
    requires m != map[] && GivesEntry(env, depth, ks, vs, Pick(m), m[Pick(m)], one)
    requires GivesEntries(env, depth, ks, vs, m - {Pick(m)}, rest)
    ensures GivesEntries(env, depth, ks, vs, m, Merge(one, rest))
  {
    hide Gives, GivesEntry, Merge;
  }

  lemma NoEntriesGiven(env: Env, depth: nat, ks: Spec, vs: Spec, es: Items)
    ensures GivesEntries(env, depth, ks, vs, map[], es) <==> es == multiset{}
  {
    hide Gives, GivesEntry, Merge;
  }

  lemma MergeSwaps(a: Items, b: Items, c: Items)
    ensures Merge(a, Merge(b, c)) == Merge(b, Merge(a, c))
  {
    assert a + (b + c) == b + (a + c);
  }

  /** Any entry may be taken out. */
  lemma {:induction false} TakeEntry(env: Env, depth: nat, ks: Spec, vs: Spec, m: map<Key, Dyn>, k: Key, es: Items)
    returns (one: Items, rest: Items)
    requires k in m && GivesEntries(env, depth, ks, vs, m, es)
    ensures GivesEntry(env, depth, ks, vs, k, m[k], one) && GivesEntries(env, depth, ks, vs, m - {k}, rest)
    ensures es == Merge(one, rest)
    decreases |m|, 1
  {
    hide GivesEntry, GivesEntries, Merge;
    var p := Pick(m);
    var a, b := FirstTaken(env, depth, ks, vs, m, es);
    one, rest := a, b;
    if p != k {
      var c;
      one, c := TakeEntry(env, depth, ks, vs, m - {p}, k, b);
      assert m - {p} - {k} == m - {k} - {p};
      PutEntry(env, depth, ks, vs, m - {k}, p, a, c);
      rest := Merge(a, c);
      MergeSwaps(a, one, c);
    }
  }

  /** And any entry may be put in. */
  lemma {:induction false} PutEntry(env: Env, depth: nat, ks: Spec, vs: Spec, m: map<Key, Dyn>, k: Key, one: Items,
                                    rest: Items)
    requires k in m && GivesEntry(env, depth, ks, vs, k, m[k], one) && GivesEntries(env, depth, ks, vs, m - {k}, rest)
    ensures GivesEntries(env, depth, ks, vs, m, Merge(one, rest))
    decreases |m|, 0
  {
    hide GivesEntry, GivesEntries, Merge;
    var p := Pick(m);
    if p == k {
      FirstPut(env, depth, ks, vs, m, one, rest);
    } else {
      var a, b := TakeEntry(env, depth, ks, vs, m - {k}, p, rest);
      assert m - {p} - {k} == m - {k} - {p};
      PutEntry(env, depth, ks, vs, m - {p}, k, one, b);
      FirstPut(env, depth, ks, vs, m, a, Merge(one, b));
      MergeSwaps(a, one, b);
    }
  }

  lemma PairGiven(env: Env, depth: nat, ks: Spec, vs: Spec, k: Key, v: Dyn, a: Meaning, b: Meaning)
    requires !v.Nil? && Gives(env, depth, ks, ConvertMapKey(env.lib, ks, k), a) && Gives(env, depth, vs, v, b)
    ensures GivesEntry(env, depth, ks, vs, k, v, Pair(a, b))
  {
    hide Gives, ConvertMapKey, Pair;
  }

  lemma NilGives(env: Env, depth: nat, ks: Spec, vs: Spec, k: Key, z: Items)
    ensures GivesEntry(env, depth, ks, vs, k, Nil, z) <==> z == multiset{}
  {
    hide Gives, ConvertMapKey;
  }

  lemma GroupGives(env: Env, depth: nat, g: seq<FieldSpec>, request: map<string, Dyn>, given: map<string, Dyn>,
                   fs: map<I16, Meaning>)
    requires Collected(g, request, given) && WithDefaults(g, given).Some?
    requires GivesFields(env, depth, g, WithDefaults(g, given).value, fs)
    ensures GivesGroup(env, depth, g, request, fs)
  {
    hide GivesFields, Collected, WithDefaults;
    assert GivesFilled(env, depth, g, given, fs);
  }
}

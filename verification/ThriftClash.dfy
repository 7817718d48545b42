/** Keys that name one field. */
module ThriftClash {
  // When the order in which Go visits a request makes a difference.

  import opened Option
  import opened Values
  import opened ThriftSpec
  import opened ThriftFields
  import opened ThriftScalars
  import opened ThriftEncode
  import opened ThriftFieldLoops
  import opened ThriftRuns
  import opened ThriftAgreement
  import opened ThriftToWire
  import Decimal
  import ThriftRoundTrip
  import ThriftStructs

  /** At some depth of the value, or of a default that it needs, two request keys give one field
      different values. */
  ghost predicate Clashes(env: Env, depth: nat, spec: Spec, v: Dyn)
    decreases depth, 0
  {
    var root := spec.Root();
    if depth == 0 then false
    else if root.StructSpec? then
      AsStrings(v).Some? && ClashesInStruct(env, depth - 1, env.Def(root.structName).fields, AsStrings(v).value)
    else if root.ListSpec? || root.SetSpec? then
      v.List? && ClashesInItem(env, depth - 1, root.elem, v.items)
    else
      root.MapSpec? && AsEntries(v).Some? && ClashesInEntry(env, depth - 1, root.key, root.value, AsEntries(v).value)
  }

  ghost predicate ClashesInStruct(env: Env, depth: nat, g: seq<FieldSpec>, request: map<string, Dyn>)
    decreases depth, 2
  {
    || Clash(g, request)
    || (Accepted(g, request) && ClashesInField(env, depth, g, WithDefaults(g, Given(g, request)).value))
  }

  ghost predicate ClashesInField(env: Env, depth: nat, g: seq<FieldSpec>, uf: map<string, Dyn>)
    decreases depth, 1
  {
    exists f :: f in g && f.name in uf && Clashes(env, depth, f.ty, uf[f.name])
  }

  ghost predicate ClashesInItem(env: Env, depth: nat, elem: Spec, vs: seq<Dyn>)
    decreases depth, 1
  {
    exists i :: 0 <= i < |vs| && Clashes(env, depth, elem, vs[i])
  }

  ghost predicate ClashesInEntry(env: Env, depth: nat, ks: Spec, vs: Spec, m: map<Key, Dyn>)
    decreases depth, 1
  {
    exists k :: k in m && !m[k].Nil? &&
      (Clashes(env, depth, ks, ConvertMapKey(env.lib, ks, k)) || Clashes(env, depth, vs, m[k]))
  }

  /** Only a clash makes the outcome depend on the order of visits. */
  lemma {:induction false} AmbiguousMeansClash(env: Env, depth: nat, spec: Spec, v: Dyn)
    requires Encode(env, depth, spec, v).Ambiguous?
    ensures Clashes(env, depth, spec, v)
    decreases depth, 0
  {
    hide *;
    var root := spec.Root();
    OpenIsComposite(env, depth, spec, v);
    if root.StructSpec? {
      OpenStruct(env, depth, spec, v);
      AmbiguousStruct(env, depth - 1, env.Def(root.structName), AsStrings(v).value);
      StructClashes(env, depth, spec, v);
    } else if root.MapSpec? {
      OpenMap(env, depth, spec, v);
      AmbiguousEntries(env, depth - 1, root.key, root.value, AsEntries(v).value);
      MapClashes(env, depth, spec, v);
    } else {
      OpenList(env, depth, spec, v);
      assert v.items[..|v.items|] == v.items;
      AmbiguousItems(env, depth - 1, root.elem, v.items, |v.items|);
      ListClashes(env, depth, spec, v);
    }
  }

  lemma OpenIsComposite(env: Env, depth: nat, spec: Spec, v: Dyn)
    requires Encode(env, depth, spec, v).Ambiguous?
    ensures depth > 0
    ensures spec.Root().StructSpec? || spec.Root().MapSpec? || spec.Root().ListSpec? || spec.Root().SetSpec?
  {
    if depth == 0 {
      NotAtZero(env, spec, v);
    } else if ScalarSpec(spec.Root()) {
      hide Encode, EncodeScalar;
      EncodeOfScalar(env, depth, spec, v);
    }
    hide Encode;
  }

  lemma OpenStruct(env: Env, depth: nat, spec: Spec, v: Dyn)
    requires depth > 0 && spec.Root().StructSpec? && Encode(env, depth, spec, v).Ambiguous?
    ensures AsStrings(v).Some?
    ensures EncodeStruct(env, depth - 1, env.Def(spec.Root().structName), AsStrings(v).value).Ambiguous?
  {
    hide Encode, EncodeStruct, AsStrings;
    EncodeOfStruct(env, depth, spec, v);
  }

  lemma OpenList(env: Env, depth: nat, spec: Spec, v: Dyn)
    requires depth > 0 && (spec.Root().ListSpec? || spec.Root().SetSpec?) && Encode(env, depth, spec, v).Ambiguous?
    ensures v.List? && EncodeList(env, depth - 1, spec.Root().elem, v.items).Ambiguous?
  {
    hide Encode, EncodeList;
    if v.List? { EncodeOfList(env, depth, spec, v); } else { NotAList(env, depth, spec, v); }
  }

  lemma OpenMap(env: Env, depth: nat, spec: Spec, v: Dyn)
    requires depth > 0 && spec.Root().MapSpec? && Encode(env, depth, spec, v).Ambiguous?
    ensures AsEntries(v).Some?
    ensures EncodeEntries(env, depth - 1, spec.Root().key, spec.Root().value, AsEntries(v).value).Ambiguous?
  {
    hide Encode, EncodeEntries, AsEntries;
    EncodeOfMap(env, depth, spec, v);
  }

  lemma StructClashes(env: Env, depth: nat, spec: Spec, v: Dyn)
    requires depth > 0 && spec.Root().StructSpec? && AsStrings(v).Some?
    requires ClashesInStruct(env, depth - 1, env.Def(spec.Root().structName).fields, AsStrings(v).value)
    ensures Clashes(env, depth, spec, v)
  {
    hide ClashesInStruct, ClashesInItem, ClashesInEntry, AsStrings, AsEntries;
  }

  lemma ListClashes(env: Env, depth: nat, spec: Spec, v: Dyn)
    requires depth > 0 && (spec.Root().ListSpec? || spec.Root().SetSpec?) && v.List?
    requires ClashesInItem(env, depth - 1, spec.Root().elem, v.items)
    ensures Clashes(env, depth, spec, v)
  {
    hide ClashesInStruct, ClashesInItem, ClashesInEntry, AsStrings, AsEntries;
  }

  lemma MapClashes(env: Env, depth: nat, spec: Spec, v: Dyn)
    requires depth > 0 && spec.Root().MapSpec? && AsEntries(v).Some?
    requires ClashesInEntry(env, depth - 1, spec.Root().key, spec.Root().value, AsEntries(v).value)
    ensures Clashes(env, depth, spec, v)
  {
    hide ClashesInStruct, ClashesInItem, ClashesInEntry, AsStrings, AsEntries;
  }

  lemma NotAtZero(env: Env, spec: Spec, v: Dyn)
    ensures Encode(env, 0, spec, v).NoValue?
  {
  }

  lemma {:induction false} AmbiguousStruct(env: Env, depth: nat, def: StructDef, request: map<string, Dyn>)
    requires EncodeStruct(env, depth, def, request).Ambiguous?
    ensures ClashesInStruct(env, depth, def.fields, request)
    decreases depth, 3
  {
    hide Encode, EncodeGroup, EncodeFields, WrongUnion, Clash, Given, WithDefaults, Unknown, Missing, Clashes,
         ClashesInField;
    var g := def.fields;
    if !Clash(g, request) {
      GroupWithoutClash(env, depth, g, request);
      assert g[..|g|] == g;
      AmbiguousFields(env, depth, g, WithDefaults(g, Given(g, request)).value, |g|);
    }
  }

  lemma {:induction false} AmbiguousFields(env: Env, depth: nat, g: seq<FieldSpec>, uf: map<string, Dyn>, k: nat)
    requires k <= |g| && EncodeFields(env, depth, g[..k], uf).Ambiguous?
    ensures ClashesInField(env, depth, g, uf)
    decreases depth, 2, k
  {
    hide Encode, EncodeFields, Clashes;
    if k == 0 {
      ThriftStructs.NoFieldsEncode(env, depth, uf);
    } else {
      var f := g[k - 1];
      assert g[..k - 1] + [f] == g[..k];
      EncodeFieldsStep(env, depth, g[..k - 1], f, uf);
      if EncodeFields(env, depth, g[..k - 1], uf).Ambiguous? {
        AmbiguousFields(env, depth, g, uf, k - 1);
      } else {
        AmbiguousMeansClash(env, depth, f.ty, uf[f.name]);
      }
    }
  }

  lemma {:induction false} AmbiguousItems(env: Env, depth: nat, elem: Spec, vs: seq<Dyn>, k: nat)
    requires k <= |vs| && EncodeList(env, depth, elem, vs[..k]).Ambiguous?
    ensures ClashesInItem(env, depth, elem, vs)
    decreases depth, 2, k
  {
    hide Encode, EncodeList, Clashes;
    if k == 0 {
      ThriftRoundTrip.ListTripsEmpty(env, elem, depth);
    } else {
      assert vs[..k - 1] + [vs[k - 1]] == vs[..k];
      EncodeListStep(env, depth, elem, vs[..k - 1], vs[k - 1]);
      if EncodeList(env, depth, elem, vs[..k - 1]).Ambiguous? {
        AmbiguousItems(env, depth, elem, vs, k - 1);
      } else {
        AmbiguousMeansClash(env, depth, elem, vs[k - 1]);
      }
    }
  }

  lemma {:induction false} AmbiguousEntries(env: Env, depth: nat, ks: Spec, vs: Spec, m: map<Key, Dyn>)
    requires EncodeEntries(env, depth, ks, vs, m).Ambiguous?
    ensures ClashesInEntry(env, depth, ks, vs, m)
    decreases depth, 2, |m|
  {
    hide EncodeEntries, EncodeItem, ClashesInEntry;
    if m == map[] {
      NothingAmbiguous(env, depth, ks, vs);
    } else {
      var k :| k in m;
      EncodeEntriesFirst(env, depth, ks, vs, m, k);
      if EncodeItem(env, depth, ks, vs, k, m[k]).Ambiguous? {
        AmbiguousEntry(env, depth, ks, vs, m, k);
      } else {
        AmbiguousEntries(env, depth, ks, vs, m - {k});
        FewerEntriesClash(env, depth, ks, vs, m, k);
      }
    }
  }

  lemma FewerEntriesClash(env: Env, depth: nat, ks: Spec, vs: Spec, m: map<Key, Dyn>, k: Key)
    requires ClashesInEntry(env, depth, ks, vs, m - {k})
    ensures ClashesInEntry(env, depth, ks, vs, m)
  {
    hide Clashes, ConvertMapKey;
  }

  lemma {:induction false} AmbiguousEntry(env: Env, depth: nat, ks: Spec, vs: Spec, m: map<Key, Dyn>, k: Key)
    requires k in m && EncodeItem(env, depth, ks, vs, k, m[k]).Ambiguous?
    ensures ClashesInEntry(env, depth, ks, vs, m)
    decreases depth, 1
  {
    hide Encode, EncodeItem, Clashes, ConvertMapKey;
    ItemIs(env, depth, ks, vs, k, m[k]);
    if Encode(env, depth, vs, m[k]).Ambiguous? {
      AmbiguousMeansClash(env, depth, vs, m[k]);
    } else {
      AmbiguousMeansClash(env, depth, ks, ConvertMapKey(env.lib, ks, k));
    }
  }

  lemma NothingAmbiguous(env: Env, depth: nat, ks: Spec, vs: Spec)
    ensures EncodeEntries(env, depth, ks, vs, map[]) == Done(multiset{})
  {
  }

  /** Without a clash at any depth, one run that succeeds means that every run succeeds, with the same
      value up to the order of map items. */
  lemma NoClashOneResult(env: Env, depth: nat, spec: Spec, v: Dyn, r: Result<Wire>, s: Result<Wire>)
    requires !Clashes(env, depth, spec, v)
    requires Implements(r, Encode(env, depth, spec, v)) && Implements(s, Encode(env, depth, spec, v))
    ensures r.Ok? ==> s.Ok? && Abs(s.value) == Abs(r.value)
    ensures !RunsDiffer(env, depth, spec, v)
  {
    hide Encode, Clashes, Abs, RunsDiffer;
    AmbiguousIffRunsDiffer(env, depth, spec, v);
    if Encode(env, depth, spec, v).Ambiguous? { AmbiguousMeansClash(env, depth, spec, v); }
  }

  // ---- When clashing keys make a difference

  /** The values that the field may get: those of the keys that name it, or else its default. */
  ghost function Candidates(g: seq<FieldSpec>, request: map<string, Dyn>, f: FieldSpec): set<Dyn> {
    if Givers(g, request, f.name) != {} then set k | k in Givers(g, request, f.name) :: request[k]
    else if f.default.Some? && RequestOf(f.default.value).Some? then {RequestOf(f.default.value).value}
    else {}
  }

  /** Every field that is set may get a value that some run encodes. */
  ghost predicate AllEncodable(env: Env, depth: nat, g: seq<FieldSpec>, request: map<string, Dyn>) {
    forall f | f in g && Candidates(g, request, f) != {} ::
      exists c :: c in Candidates(g, request, f) && !Encode(env, depth, f.ty, c).Barred()
  }

  /** The values that this field may get are all encoded to the same. */
  ghost predicate Uniform(env: Env, depth: nat, g: seq<FieldSpec>, request: map<string, Dyn>, f: FieldSpec) {
    forall c, d | c in Candidates(g, request, f) && d in Candidates(g, request, f) ::
      !Encode(env, depth, f.ty, c).Ambiguous? && Encode(env, depth, f.ty, c) == Encode(env, depth, f.ty, d)
  }

  lemma FilledValue(g: seq<FieldSpec>, request: map<string, Dyn>, given: map<string, Dyn>, f: FieldSpec)
    requires DistinctFields(g) && Accepted(g, request) && Collected(g, request, given) && f in g
    ensures f.name in SetFields(g, given) <==> Candidates(g, request, f) != {}
    ensures f.name in SetFields(g, given) ==> SetFields(g, given)[f.name] in Candidates(g, request, f)
    ensures f.name in given <==> Givers(g, request, f.name) != {}
  {
    hide WithDefaults, RequestOf, Given, Unknown, Missing;
    AcceptedAny(g, request, given);
    WithDefaultsLookup(g, given);
    if f.name in given {
      var k := CollectedAt(g, request, given, f.name);
      assert request[k] in Candidates(g, request, f);
    } else if f.name in SetFields(g, given) {
      var h :| h in g && h.name == f.name && h.default.Some?;
      NameInjective(g, f, h);
    }
  }

  /** Another candidate may be collected instead. */
  lemma FilledPick(g: seq<FieldSpec>, request: map<string, Dyn>, given: map<string, Dyn>, f: FieldSpec, c: Dyn)
    returns (other: map<string, Dyn>)
    requires DistinctFields(g) && Accepted(g, request) && Collected(g, request, given) && f in g
    requires c in Candidates(g, request, f)
    ensures Collected(g, request, other) && f.name in SetFields(g, other) && SetFields(g, other)[f.name] == c
    ensures SetFields(g, other).Keys == SetFields(g, given).Keys
    ensures forall n | n in SetFields(g, given) && n != f.name ::
              n in SetFields(g, other) && SetFields(g, other)[n] == SetFields(g, given)[n]
  {
    hide WithDefaults, RequestOf, Given, Unknown, Missing, Collected, SetFields;
    FilledValue(g, request, given, f);
    other := given;
    if f.name in given {
      var k :| k in Givers(g, request, f.name) && request[k] == c;
      other := given[f.name := c];
      PickKeeps(g, request, given, f.name, k);
      Refilled(g, request, given, other, f.name);
    }
  }

  /** Another value for one field changes nothing else. */
  lemma Refilled(g: seq<FieldSpec>, request: map<string, Dyn>, given: map<string, Dyn>, other: map<string, Dyn>,
                 n: string)
    requires DistinctFields(g) && Accepted(g, request) && Collected(g, request, given) && Collected(g, request, other)
    requires n in given && n in other && other == given[n := other[n]]
    ensures n in SetFields(g, other) && SetFields(g, other)[n] == other[n]
    ensures SetFields(g, other).Keys == SetFields(g, given).Keys
    ensures forall m | m in SetFields(g, given) && m != n ::
              m in SetFields(g, other) && SetFields(g, other)[m] == SetFields(g, given)[m]
  {
    hide WithDefaults, RequestOf, Given, Unknown, Missing, Collected;
    AcceptedAny(g, request, given);
    AcceptedAny(g, request, other);
    WithDefaultsLookup(g, given);
    WithDefaultsLookup(g, other);
    DefaultsAgree(g, given, other, n);
  }

  lemma PickKeeps(g: seq<FieldSpec>, request: map<string, Dyn>, given: map<string, Dyn>, n: string, k: string)
    requires Collected(g, request, given) && k in Givers(g, request, n)
    ensures Collected(g, request, given[n := request[k]])
  {
    var other := given[n := request[k]];
    forall m | m in other ensures exists j :: j in Givers(g, request, m) && request[j] == other[m] {
      if m != n { assert other[m] == given[m]; }
    }
  }

  /** Defaults do not depend on the values given. */
  lemma DefaultsAgree(g: seq<FieldSpec>, a: map<string, Dyn>, b: map<string, Dyn>, n: string)
    requires DistinctFields(g) && a.Keys == b.Keys && WithDefaults(g, a).Some? && WithDefaults(g, b).Some?
    requires forall m | m in a && m != n :: m in b && a[m] == b[m]
    ensures forall m | m in WithDefaults(g, a).value && m != n ::
              m in WithDefaults(g, b).value && WithDefaults(g, b).value[m] == WithDefaults(g, a).value[m]
  {
    hide WithDefaults, RequestOf;
    WithDefaultsLookup(g, a);
    WithDefaultsLookup(g, b);
    WithDefaultsKeys(g, a, b);
    var r, t := WithDefaults(g, a).value, WithDefaults(g, b).value;
    assert forall m :: m in a <==> m in b;
    assert forall m :: m in r <==> m in t;
    forall m | m in r && m != n ensures m in t && t[m] == r[m] {
      if m !in a {
        var f :| f in g && f.name == m && f.default.Some?;
        assert Some(r[m]) == RequestOf(f.default.value) == Some(t[m]);
      }
    }
  }

  /** The outcome for the fields: barred if one is, open if none is and one is open. */
  lemma {:induction false} FieldsSum(env: Env, depth: nat, g: seq<FieldSpec>, uf: map<string, Dyn>)
    ensures EncodeFields(env, depth, g, uf).Barred() <==>
            exists f :: f in g && f.name in uf && Encode(env, depth, f.ty, uf[f.name]).Barred()
    ensures EncodeFields(env, depth, g, uf).Ambiguous? <==>
            !EncodeFields(env, depth, g, uf).Barred() &&
            exists f :: f in g && f.name in uf && Encode(env, depth, f.ty, uf[f.name]).Ambiguous?
  {
    hide Encode, EncodeFields;
    if g == [] {
      ThriftStructs.NoFieldsEncode(env, depth, uf);
    } else {
      var n := |g| - 1;
      var pre, f := g[..n], g[n];
      assert pre + [f] == g;
      assert forall h :: h in g <==> h in pre || h == f;
      FieldsSum(env, depth, pre, uf);
      EncodeFieldsStep(env, depth, pre, f, uf);
    }
  }

  /** Fields that are encoded alike make structs that are encoded alike. */
  lemma {:induction false} FieldsAlike(env: Env, depth: nat, g: seq<FieldSpec>, a: map<string, Dyn>,
                                       b: map<string, Dyn>)
    requires a.Keys == b.Keys
    requires forall f | f in g && f.name in a ::
               Encode(env, depth, f.ty, a[f.name]) == Encode(env, depth, f.ty, b[f.name])
    ensures EncodeFields(env, depth, g, a) == EncodeFields(env, depth, g, b)
  {
    hide Encode, EncodeFields;
    if g == [] {
      ThriftStructs.NoFieldsEncode(env, depth, a);
      ThriftStructs.NoFieldsEncode(env, depth, b);
    } else {
      var n := |g| - 1;
      var pre, f := g[..n], g[n];
      assert pre + [f] == g;
      FieldsAlike(env, depth, pre, a, b);
      assert f.name in a <==> f.name in a.Keys;
      assert f.name in b <==> f.name in b.Keys;
      EncodeFieldsStep(env, depth, pre, f, a);
      EncodeFieldsStep(env, depth, pre, f, b);
    }
  }

  /** Structs that are encoded alike have fields that are. */
  lemma {:induction false} FieldsTold(env: Env, depth: nat, g: seq<FieldSpec>, uf: map<string, Dyn>, f: FieldSpec)
    requires DistinctFields(g) && f in g && f.name in uf && EncodeFields(env, depth, g, uf).Done?
    ensures f.id in EncodeFields(env, depth, g, uf).value
    ensures Encode(env, depth, f.ty, uf[f.name]) == Done(EncodeFields(env, depth, g, uf).value[f.id])
  {
    hide Encode, EncodeFields;
    var n := |g| - 1;
    var pre, h := g[..n], g[n];
    assert pre + [h] == g;
    EncodeFieldsStep(env, depth, pre, h, uf);
    if f != h {
      LastFieldDiffers(pre, h);
      FieldsTold(env, depth, pre, uf, f);
    }
  }

  /** The fields of some collected map may all be encoded. */
  lemma {:induction false} LiveChoice(env: Env, depth: nat, g: seq<FieldSpec>, request: map<string, Dyn>, k: nat)
    returns (given: map<string, Dyn>)
    requires DistinctFields(g) && Accepted(g, request) && AllEncodable(env, depth, g, request) && k <= |g|
    ensures Collected(g, request, given)
    ensures forall f | f in g[..k] && f.name in SetFields(g, given) ::
              !Encode(env, depth, f.ty, SetFields(g, given)[f.name]).Barred()
    decreases k
  {
    hide Encode, Collected, WithDefaults, Unknown, Missing, Given, SetFields, Candidates, DistinctFields;
    if k == 0 {
      given := Given(g, request);
      GivenIsCollected(g, request);
    } else {
      var before := LiveChoice(env, depth, g, request, k - 1);
      var f := g[k - 1];
      assert g[..k] == g[..k - 1] + [f];
      FilledValue(g, request, before, f);
      given := before;
      if f.name in SetFields(g, before) {
        var c :| c in Candidates(g, request, f) && !Encode(env, depth, f.ty, c).Barred();
        given := FilledPick(g, request, before, f, c);
        forall h | h in g[..k] && h.name in SetFields(g, given)
          ensures !Encode(env, depth, h.ty, SetFields(g, given)[h.name]).Barred()
        {
          EarlierDiffers(g, k - 1, h);
          assert h.name in SetFields(g, given).Keys;
        }
      }
    }
  }

  lemma EarlierDiffers(g: seq<FieldSpec>, k: nat, h: FieldSpec)
    requires DistinctFields(g) && k < |g| && h in g[..k + 1]
    ensures h == g[k] || (h in g[..k] && h.name != g[k].name)
  {
    var i :| 0 <= i <= k && g[i] == h;
    if i < k { assert g[..k][i] == h; }
  }

  lemma FilledOutcome(env: Env, depth: nat, g: seq<FieldSpec>, request: map<string, Dyn>, given: map<string, Dyn>)
    requires DistinctFields(g) && Accepted(g, request) && Collected(g, request, given)
    ensures EncodeFilled(env, depth, g, given) == EncodeFields(env, depth, g, SetFields(g, given))
  {
    hide Encode, EncodeFields, Collected, Unknown, Missing, Given, WithDefaults;
    AcceptedAny(g, request, given);
  }

  /** Two candidates that are encoded differently, all other fields being encodable, make two different
      outcomes. */
  lemma CandidatesDiffer(env: Env, depth: nat, g: seq<FieldSpec>, request: map<string, Dyn>, f: FieldSpec, c: Dyn,
                         d: Dyn)
    requires DistinctFields(g) && Accepted(g, request) && AllEncodable(env, depth, g, request) && f in g
    requires c in Candidates(g, request, f) && d in Candidates(g, request, f)
    requires Encode(env, depth, f.ty, c).Ambiguous? || Encode(env, depth, f.ty, c) != Encode(env, depth, f.ty, d)
    ensures EncodeGroup(env, depth, g, request).Ambiguous?
  {
    hide Encode, EncodeFields, EncodeFilled, EncodeGroup, Collected, WithDefaults, Unknown, Missing, Given, SetFields,
         Candidates, DistinctFields;
    var live := LiveChoice(env, depth, g, request, |g|);
    assert g[..|g|] == g;
    var a := FilledPick(g, request, live, f, c);
    var b := FilledPick(g, request, live, f, d);
    FilledOutcome(env, depth, g, request, live);
    FilledOutcome(env, depth, g, request, a);
    FilledOutcome(env, depth, g, request, b);
    var x, y, z := SetFields(g, live), SetFields(g, a), SetFields(g, b);
    FieldsSum(env, depth, g, x);
    OneOpen(env, depth, g, x, y, f);
    OneOpen(env, depth, g, x, z, f);
    if EncodeFields(env, depth, g, y).Done? { FieldsTold(env, depth, g, y, f); }
    if EncodeFields(env, depth, g, z).Done? { FieldsTold(env, depth, g, z, f); }
    GroupOpen(env, depth, g, request, live, a, b);
  }

  /** Replacing the value of one field. */
  lemma OneOpen(env: Env, depth: nat, g: seq<FieldSpec>, x: map<string, Dyn>, y: map<string, Dyn>, f: FieldSpec)
    requires DistinctFields(g) && x.Keys == y.Keys && f in g && f.name in x
    requires forall n | n in x && n != f.name :: n in y && y[n] == x[n]
    requires !EncodeFields(env, depth, g, x).Barred()
    ensures EncodeFields(env, depth, g, y).Barred() <==> Encode(env, depth, f.ty, y[f.name]).Barred()
    ensures Encode(env, depth, f.ty, y[f.name]).Ambiguous? ==> EncodeFields(env, depth, g, y).Ambiguous?
  {
    hide Encode, EncodeFields;
    FieldsSum(env, depth, g, x);
    FieldsSum(env, depth, g, y);
    assert f.name in y.Keys;
    forall h | h in g && h.name in y && Encode(env, depth, h.ty, y[h.name]).Barred() ensures h == f {
      assert h.name in x.Keys;
      if h.name == f.name { NameInjective(g, h, f); }
    }
  }

  /** A live outcome, and another one that is open or not the same. */
  lemma GroupOpen(env: Env, depth: nat, g: seq<FieldSpec>, request: map<string, Dyn>, live: map<string, Dyn>,
                  a: map<string, Dyn>, b: map<string, Dyn>)
    requires Accepted(g, request) && Collected(g, request, live) && Collected(g, request, a) && Collected(g, request, b)
    requires !EncodeFilled(env, depth, g, live).Barred()
    requires || EncodeFilled(env, depth, g, a).Ambiguous?
             || EncodeFilled(env, depth, g, a) != EncodeFilled(env, depth, g, b)
             || EncodeFilled(env, depth, g, a).Barred()
    ensures EncodeGroup(env, depth, g, request).Ambiguous?
  {
    hide EncodeFilled, EncodeGroup, Collected, WithDefaults, Unknown, Missing, Given;
    GroupOutcomeIs(env, depth, g, request);
    GivenIsCollected(g, request);
  }

  /** Where the values of every field are encoded alike, all collected maps lead to one settled outcome, or to
      none. */
  lemma UniformGroup(env: Env, depth: nat, g: seq<FieldSpec>, request: map<string, Dyn>)
    requires DistinctFields(g) && Accepted(g, request)
    requires forall f | f in g :: Uniform(env, depth, g, request, f)
    ensures !EncodeGroup(env, depth, g, request).Ambiguous?
  {
    hide Encode, EncodeFields, EncodeFilled, EncodeGroup, Collected, WithDefaults, Unknown, Missing, Given, SetFields,
         Candidates;
    GroupOutcomeIs(env, depth, g, request);
    var first := Given(g, request);
    GivenIsCollected(g, request);
    FilledOutcome(env, depth, g, request, first);
    FieldsSum(env, depth, g, SetFields(g, first));
    forall f | f in g && f.name in SetFields(g, first)
      ensures !Encode(env, depth, f.ty, SetFields(g, first)[f.name]).Ambiguous?
    {
      FilledValue(g, request, first, f);
    }
    forall given | Collected(g, request, given)
      ensures EncodeFilled(env, depth, g, given) == EncodeFilled(env, depth, g, first)
    {
      UniformFields(env, depth, g, request, first, given);
      FilledOutcome(env, depth, g, request, given);
    }
  }

  lemma UniformFields(env: Env, depth: nat, g: seq<FieldSpec>, request: map<string, Dyn>, a: map<string, Dyn>,
                      b: map<string, Dyn>)
    requires DistinctFields(g) && Accepted(g, request) && Collected(g, request, a) && Collected(g, request, b)
    requires forall f | f in g :: Uniform(env, depth, g, request, f)
    ensures EncodeFields(env, depth, g, SetFields(g, a)) == EncodeFields(env, depth, g, SetFields(g, b))
  {
    hide Encode, EncodeFields, Collected, WithDefaults, Unknown, Missing, Given, Candidates;
    AcceptedAny(g, request, a);
    AcceptedAny(g, request, b);
    forall f | f in g && f.name in SetFields(g, a)
      ensures Encode(env, depth, f.ty, SetFields(g, a)[f.name]) == Encode(env, depth, f.ty, SetFields(g, b)[f.name])
    {
      FilledValue(g, request, a, f);
      FilledValue(g, request, b, f);
    }
    FieldsAlike(env, depth, g, SetFields(g, a), SetFields(g, b));
  }

  /** Where some field has no value that can be encoded, no collected map leads to a value. */
  lemma SomeUnencodable(env: Env, depth: nat, g: seq<FieldSpec>, request: map<string, Dyn>)
    requires DistinctFields(g) && Accepted(g, request) && !AllEncodable(env, depth, g, request)
    ensures EncodeGroup(env, depth, g, request).Barred()
  {
    hide Encode, EncodeFields, EncodeFilled, EncodeGroup, Collected, WithDefaults, Unknown, Missing, Given, SetFields,
         Candidates;
    GroupOutcomeIs(env, depth, g, request);
    GivenIsCollected(g, request);
    var f :| f in g && Candidates(g, request, f) != {}
             && forall c | c in Candidates(g, request, f) :: Encode(env, depth, f.ty, c).Barred();
    forall given | Collected(g, request, given) ensures EncodeFilled(env, depth, g, given).Barred() {
      FilledOutcome(env, depth, g, request, given);
      FilledValue(g, request, given, f);
      FieldsSum(env, depth, g, SetFields(g, given));
    }
  }

  /** Clashing keys make a difference to an accepted request exactly if every field that is set has a
      candidate that can be encoded, and some field has two candidates that are encoded differently, or
      one whose own encoding is open. */
  lemma GroupAmbiguousIff(env: Env, depth: nat, g: seq<FieldSpec>, request: map<string, Dyn>)
    requires DistinctFields(g) && Accepted(g, request)
    ensures EncodeGroup(env, depth, g, request).Ambiguous? <==>
            AllEncodable(env, depth, g, request) && exists f :: f in g && !Uniform(env, depth, g, request, f)
  {
    hide Encode, EncodeGroup, Accepted, DistinctFields, Candidates;
    if !AllEncodable(env, depth, g, request) {
      SomeUnencodable(env, depth, g, request);
    } else if forall f | f in g :: Uniform(env, depth, g, request, f) {
      UniformGroup(env, depth, g, request);
    } else {
      var f :| f in g && !Uniform(env, depth, g, request, f);
      var c, d :| c in Candidates(g, request, f) && d in Candidates(g, request, f)
                  && (|| Encode(env, depth, f.ty, c).Ambiguous?
                      || Encode(env, depth, f.ty, c) != Encode(env, depth, f.ty, d));
      CandidatesDiffer(env, depth, g, request, f, c, d);
    }
  }

  lemma StructIsOpen(env: Env, depth: nat, def: StructDef, request: map<string, Dyn>)
    ensures EncodeStruct(env, depth, def, request).Ambiguous? <==>
            !WrongUnion(def, request) && EncodeGroup(env, depth, def.fields, request).Ambiguous?
  {
    hide WrongUnion, EncodeGroup;
  }

  /** Two runs on a struct differ exactly if its request is accepted, every field that is set has a
      candidate that can be encoded, and some field has candidates that are not encoded alike. */
  lemma StructRunsDifferIff(env: Env, depth: nat, spec: Spec, v: Dyn)
    requires depth > 0 && spec.Root().StructSpec? && AsStrings(v).Some?
    ensures var def, request := env.Def(spec.Root().structName), AsStrings(v).value;
            RunsDiffer(env, depth, spec, v) <==>
              && Accepted(def.fields, request) && !WrongUnion(def, request)
              && AllEncodable(env, depth - 1, def.fields, request)
              && exists f :: f in def.fields && !Uniform(env, depth - 1, def.fields, request, f)
  {
    hide Encode, EncodeStruct, EncodeGroup, RunsDiffer, Accepted, WrongUnion, AllEncodable, Uniform, AsStrings;
    var def, request := env.Def(spec.Root().structName), AsStrings(v).value;
    AmbiguousIffRunsDiffer(env, depth, spec, v);
    EncodeOfStruct(env, depth, spec, v);
    StructIsOpen(env, depth - 1, def, request);
    if Accepted(def.fields, request) {
      GroupAmbiguousIff(env, depth - 1, def.fields, request);
    } else {
      RefusedOutcome(env, depth - 1, def, request);
    }
  }

  // ---- Two clashes

  /** struct S {1: optional ty x} */
  function ClashField(ty: Spec): FieldSpec { FieldSpec(1, "x", ty, false, None) }

  function ClashEnv(lib: Lib, ty: Spec): Env { Env(map["S" := StructDef([ClashField(ty)], false)], lib) }

  function ClashRequest(a: Dyn, b: Dyn): map<string, Dyn> { map["x" := a, "X" := b] }

  lemma FuzzOfX()
    ensures Fuzz("x") == "x" && Fuzz("X") == "x"
  {
    assert Fuzz("") == "";
    assert "x"[..0] == "" && Fuzz("x") == Fuzz("") + ['x'];
    assert "X"[..0] == "" && IsUpper('X') && 'X' + ('a' - 'A') == 'x';
  }

  /** Both keys name the field. */
  lemma ClashLookup(g: seq<FieldSpec>, ty: Spec)
    requires g == [ClashField(ty)]
    ensures GetField(g, "x") == Some(g[0]) && GetField(g, "X") == Some(g[0])
  {
    DeclaredNameResolves(g, g[0]);
    FuzzOfX();
    assert g[..0] == [] && Decimal.Format(1) == "1";
    assert "x"[0] != "X"[0] && "1"[0] != "X"[0];
    assert ByName(g, "X") == None && ByIDText(g, "X") == None && ByFuzz(g, "x") == Some(g[0]);
    assert Names(g) == {"x"} && FuzzyNames(g) == {"x"};
  }

  /** So either value may be collected. */
  lemma ClashCollects(g: seq<FieldSpec>, ty: Spec, request: map<string, Dyn>, k: string)
    requires g == [ClashField(ty)] && request.Keys == {"x", "X"} && k in request
    requires request["x"] != Nil && request["X"] != Nil
    ensures Givers(g, request, "x") == {"x", "X"} && Accepted(g, request)
    ensures Collected(g, request, map["x" := request[k]])
    ensures WithDefaults(g, map["x" := request[k]]) == Some(map["x" := request[k]])
  {
    hide GetField;
    ClashLookup(g, ty);
    assert forall n | n in request :: n in {"x", "X"};
    assert k in Givers(g, request, "x");
    CollectedPick(g, request, "x", k);
    GivenIsCollected(g, request);
    assert forall n | n in Given(g, request) :: n == "x";
    assert Given(g, request)["x" := request[k]] == map["x" := request[k]];
    assert g[..0] == [];
    assert WithDefaults(g, Given(g, request)) == Some(Given(g, request));
  }

  lemma ClashFields(env: Env, depth: nat, g: seq<FieldSpec>, v: Dyn, e: End)
    requires depth > 0 && g == [ClashField(I32Spec)] && e != Out
    requires e == if EncodeScalar(env.lib, I32Spec, v).Some? then Good else Bad
    ensures MayFields(env, depth, g, map["x" := v], e)
  {
    hide May, EncodeScalar;
    MayOfScalar(env, depth, I32Spec, v, e);
    assert g[0].name == "x" && g[0].ty == I32Spec;
  }

  /** A run that visits k last ends as encoding the value of k ends. */
  lemma LastKeyDecides(lib: Lib, depth: nat, a: Dyn, b: Dyn, k: string, e: End)
    requires depth >= 2 && a != Nil && b != Nil && k in ClashRequest(a, b)
    requires e == if EncodeScalar(lib, I32Spec, ClashRequest(a, b)[k]).Some? then Good else Bad
    ensures May(ClashEnv(lib, I32Spec), depth, StructSpec("S"), StrMap(ClashRequest(a, b)), e)
  {
    hide May, MayFields, Collected, WithDefaults, Accepted, EncodeScalar, Givers;
    var env, request := ClashEnv(lib, I32Spec), ClashRequest(a, b);
    var def := env.Def("S");
    var given := map["x" := request[k]];
    ClashCollects(def.fields, I32Spec, request, k);
    ClashFields(env, depth - 1, def.fields, request[k], e);
    assert MayFill(env, depth - 1, def.fields, given, e);
    assert MayGroup(env, depth - 1, def.fields, request, e);
    MayOfStruct(env, depth, StructSpec("S"), StrMap(request), e);
  }

  /** A clash may decide between success and failure: given 5 and "foo" for an i32, a run that visits
      "x" last succeeds, one that visits "X" last fails. */
  lemma ClashDecides(lib: Lib, depth: nat)
    requires depth >= 2
    ensures var request := StrMap(ClashRequest(Int(GoInt, 5), Str("foo")));
            && May(ClashEnv(lib, I32Spec), depth, StructSpec("S"), request, Good)
            && May(ClashEnv(lib, I32Spec), depth, StructSpec("S"), request, Bad)
  {
    hide May;
    LastKeyDecides(lib, depth, Int(GoInt, 5), Str("foo"), "x", Good);
    LastKeyDecides(lib, depth, Int(GoInt, 5), Str("foo"), "X", Bad);
  }

  lemma BoolField(env: Env, depth: nat, g: seq<FieldSpec>, v: Dyn)
    requires depth > 0 && g == [ClashField(BoolSpec)] && v in {Bool(true), Int(GoInt, 1)}
    ensures EncodeFields(env, depth, g, map["x" := v]) == Done(map[1 := MScalar(WBool(true))])
  {
    hide Encode, EncodeFields;
    EncodeOfScalar(env, depth, BoolSpec, v);
    ThriftStructs.NoFieldsEncode(env, depth, map["x" := v]);
    EncodeFieldsStep(env, depth, [], g[0], map["x" := v]);
    assert [] + [g[0]] == g;
  }

  /** Whichever key is visited last, the group is encoded to the same. */
  lemma HarmlessGroup(env: Env, depth: nat, g: seq<FieldSpec>, request: map<string, Dyn>)
    requires depth > 0 && g == [ClashField(BoolSpec)] && request == ClashRequest(Bool(true), Int(GoInt, 1))
    ensures EncodeGroup(env, depth, g, request) == Done(map[1 := MScalar(WBool(true))])
  {
    hide Encode, EncodeFields, EncodeGroup, Collected, WithDefaults, Given, Unknown, Missing, Givers;
    ClashCollects(g, BoolSpec, request, "x");
    GroupOutcomeIs(env, depth, g, request);
    GivenIsCollected(g, request);
    forall given | Collected(g, request, given)
      ensures EncodeFilled(env, depth, g, given) == Done(map[1 := MScalar(WBool(true))])
    {
      var k := OnlyX(g, request, given);
      ClashCollects(g, BoolSpec, request, k);
      BoolField(env, depth, g, request[k]);
    }
  }

  lemma OnlyX(g: seq<FieldSpec>, request: map<string, Dyn>, given: map<string, Dyn>) returns (k: string)
    requires g == [ClashField(BoolSpec)] && request == ClashRequest(Bool(true), Int(GoInt, 1))
    requires Collected(g, request, given)
    ensures k in request && given == map["x" := request[k]]
  {
    hide GetField, Accepted, WithDefaults;
    ClashCollects(g, BoolSpec, request, "x");
    SameKeys(g, request, given, map["x" := request["x"]]);
    assert "x" in given.Keys;
    k := CollectedAt(g, request, given, "x");
  }

  /** A clash may be harmless: true and 1 for a boolean are encoded to the same, so every run returns it. */
  lemma HarmlessClash(lib: Lib, depth: nat)
    requires depth >= 2
    ensures var env, request := ClashEnv(lib, BoolSpec), ClashRequest(Bool(true), Int(GoInt, 1));
            && Clash(env.Def("S").fields, request)
            && RunsAgree(env, depth, StructSpec("S"), StrMap(request), MStruct(map[1 := MScalar(WBool(true))]))
  {
    hide Encode, EncodeGroup, EncodeFields, RunsAgree, Accepted, Collected, WithDefaults;
    var env, request := ClashEnv(lib, BoolSpec), ClashRequest(Bool(true), Int(GoInt, 1));
    var def, m := env.Def("S"), MStruct(map[1 := MScalar(WBool(true))]);
    ClashCollects(def.fields, BoolSpec, request, "x");
    assert "x" in Givers(def.fields, request, "x") && "X" in Givers(def.fields, request, "x");
    HarmlessGroup(env, depth - 1, def.fields, request);
    EncodeOfStruct(env, depth, StructSpec("S"), StrMap(request));
    DoneIffRunsAgree(env, depth, StructSpec("S"), StrMap(request), m);
  }
}

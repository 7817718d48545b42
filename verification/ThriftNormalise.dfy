/** Decoding any wire value and encoding the result normalises it: the result is canonical, and
    doing it again changes nothing. */
module ThriftNormalise {
  import opened Option
  import opened Values
  import opened ThriftSpec
  import opened ThriftFields
  import opened ThriftScalars
  import opened ThriftEncode
  import opened ThriftDecode
  import opened ThriftStructs
  import opened ThriftRoundTrip
  import opened ThriftTidy

  // ---- Tidy values encode to the same canonical value in every run

  ghost function KeySet(es: Items): set<Meaning> { set p | p in es :: p.0 }

  /** As DistinctKeys, up to map order: a map has as many keys as items. */
  ghost predicate Clean(m: Meaning)
    decreases m
  {
    match m
    case MScalar(_) => true
    case MStruct(fs) => forall id | id in fs :: Clean(fs[id])
    case MList(_, ms) => forall i | 0 <= i < |ms| :: Clean(ms[i])
    case MSet(_, ms) => forall i | 0 <= i < |ms| :: Clean(ms[i])
    case MMap(_, _, es) => |KeySet(es)| == |es| && forall p | p in es :: p.0.MScalar? && Clean(p.1)
  }

  /** The outcome is settled or the depth was not enough, and what it yields is clean. */
  ghost predicate CleanOutcome(o: Outcome<Meaning>) {
    !o.Ambiguous? && (o.Done? ==> Clean(o.value))
  }

  lemma {:induction false} TidyClean(env: Env, depth: nat, spec: Spec, v: Dyn)
    requires LinkedEnv(env) && Readable(env.lib, spec) && Tidy(env, spec, v)
    ensures CleanOutcome(Encode(env, depth, spec, v))
    decreases depth, 2
  {
    if depth > 0 {
      ReadableRoot(env.lib, spec);
      var root := spec.Root();
      if root.StructSpec? {
        TidyStructClean(env, depth, spec, v);
      } else if root.ListSpec? || root.SetSpec? {
        TidyListClean(env, depth, spec, v);
      } else if root.MapSpec? {
        TidyMapClean(env, depth, spec, v);
      } else {
        EncodeOfScalar(env, depth, spec, v);
      }
    }
    hide Encode, LinkedEnv, Readable, Tidy, EncodeScalar;
  }

  lemma TidyStructMap(env: Env, spec: Spec, v: Dyn)
    requires spec.Root().StructSpec? && Tidy(env, spec, v)
    ensures v.StrMap? && TidyFields(env, env.Def(spec.Root().structName).fields, v.fields)
    ensures Exact(env.Def(spec.Root().structName).fields, v.fields)
  {
  }

  lemma {:induction false} TidyStructClean(env: Env, depth: nat, spec: Spec, v: Dyn)
    requires LinkedEnv(env) && depth > 0 && spec.Root().StructSpec? && Tidy(env, spec, v)
    ensures CleanOutcome(Encode(env, depth, spec, v))
    decreases depth, 1
  {
    hide Encode, EncodeFields, EncodeStruct, AsStruct, CleanOutcome, CleanFieldsOutcome, LinkedEnv, Tidy, TidyFields,
         Exact, Unknown, Clash, Given, Missing, WithDefaults, WrongUnion;
    var def := env.Def(spec.Root().structName);
    var g := def.fields;
    TidyStructMap(env, spec, v);
    EncodeOfStruct(env, depth, spec, v);
    ExactGiven(g, v.fields);
    EncodeStructExact(env, depth - 1, def, v.fields);
    FailedIsClean();
    if Missing(g, v.fields) == {} && WithDefaults(g, v.fields).Some? {
      var uf := WithDefaults(g, v.fields).value;
      DefaultsTidy(env, spec.Root().structName, g, v.fields);
      assert g[..|g|] == g;
      TidyFieldsClean(env, depth - 1, spec.Root().structName, |g|, uf);
      AsStructClean(def, WrongUnion(def, v.fields), EncodeFields(env, depth - 1, g, uf));
    }
  }

  lemma FailedIsClean()
    ensures CleanOutcome(Failed)
  {
  }

  lemma AsStructClean(def: StructDef, wrong: bool, o: Outcome<map<I16, Meaning>>)
    requires CleanFieldsOutcome(o)
    ensures CleanOutcome(AsStruct(def, wrong, o))
  {
  }

  lemma EncodeStructExact(env: Env, depth: nat, def: StructDef, m: map<string, Dyn>)
    requires Unknown(def.fields, m) == {} && !Clash(def.fields, m) && Given(def.fields, m) == m
    ensures EncodeStruct(env, depth, def, m) ==
            if Missing(def.fields, m) != {} || WithDefaults(def.fields, m).None? then Failed
            else
              AsStruct(def, WrongUnion(def, m), EncodeFields(env, depth, def.fields, WithDefaults(def.fields, m).value))
  {
    hide Encode, EncodeFields, EncodeGroup, Unknown, Clash, Given, Missing, WithDefaults, WrongUnion;
    GroupWithoutClash(env, depth, def.fields, m);
  }

  ghost predicate CleanFieldsOutcome(o: Outcome<map<I16, Meaning>>) {
    !o.Ambiguous? && (o.Done? ==> forall id | id in o.value :: Clean(o.value[id]))
  }

  lemma AddFieldClean(o: Outcome<map<I16, Meaning>>, id: I16, v: Outcome<Meaning>)
    requires CleanFieldsOutcome(o) && CleanOutcome(v)
    ensures CleanFieldsOutcome(AddField(o, id, v))
  {
    hide Clean;
  }

  lemma {:induction false} TidyFieldsClean(env: Env, depth: nat, name: string, k: nat, uf: map<string, Dyn>)
    requires LinkedEnv(env) && k <= |env.Def(name).fields| && TidyFields(env, env.Def(name).fields, uf)
    ensures CleanFieldsOutcome(EncodeFields(env, depth, env.Def(name).fields[..k], uf))
    decreases depth, 3, k
  {
    var g := env.Def(name).fields;
    if k == 0 {
      NoFieldsEncode(env, depth, uf);
      hide Encode, EncodeFields, LinkedEnv, TidyFields;
    } else {
      hide Encode, EncodeFields, LinkedEnv, TidyFields, CleanOutcome, CleanFieldsOutcome, AddField, Env.Def;
      var pre, f := g[..k - 1], g[k - 1];
      assert pre + [f] == g[..k];
      TidyFieldsClean(env, depth, name, k - 1, uf);
      EncodeFieldsStep(env, depth, pre, f, uf);
      if f.name in uf {
        LinkedField(env, name, f);
        TidyFieldAt(env, g, uf, f);
        TidyClean(env, depth, f.ty, uf[f.name]);
        AddFieldClean(EncodeFields(env, depth, pre, uf), f.id, Encode(env, depth, f.ty, uf[f.name]));
      }
    }
  }

  lemma TidyFieldAt(env: Env, g: seq<FieldSpec>, m: map<string, Dyn>, f: FieldSpec)
    requires DistinctFields(g) && TidyFields(env, g, m) && f in g && f.name in m
    ensures Tidy(env, f.ty, m[f.name])
  {
    NameInjective(g, f, FieldOf(g, f.name));
    hide Tidy;
  }

  lemma {:induction false} TidyListClean(env: Env, depth: nat, spec: Spec, v: Dyn)
    requires LinkedEnv(env) && depth > 0 && Readable(env.lib, spec.Root()) && Tidy(env, spec, v)
    requires spec.Root().ListSpec? || spec.Root().SetSpec?
    ensures CleanOutcome(Encode(env, depth, spec, v))
    decreases depth, 1
  {
    hide Encode, EncodeList, AsList, CleanOutcome, CleanListOutcome, LinkedEnv, Tidy;
    NotAList(env, depth, spec, v);
    FailedIsClean();
    if v.List? {
      var isSet, elem := spec.Root().SetSpec?, spec.Root().elem;
      EncodeOfList(env, depth, spec, v);
      assert v.items[..|v.items|] == v.items;
      TidyList(env, spec, v);
      TidyItemsClean(env, depth - 1, elem, v.items, |v.items|);
      AsListClean(isSet, elem, EncodeList(env, depth - 1, elem, v.items));
    }
  }

  lemma TidyList(env: Env, spec: Spec, v: Dyn)
    requires (spec.Root().ListSpec? || spec.Root().SetSpec?) && v.List? && Tidy(env, spec, v)
    ensures forall i | 0 <= i < |v.items| :: Tidy(env, spec.Root().elem, v.items[i])
  {
  }

  lemma AsListClean(isSet: bool, elem: Spec, o: Outcome<seq<Meaning>>)
    requires CleanListOutcome(o)
    ensures CleanOutcome(AsList(isSet, elem, o))
  {
  }

  ghost predicate CleanListOutcome(o: Outcome<seq<Meaning>>) {
    !o.Ambiguous? && (o.Done? ==> forall i | 0 <= i < |o.value| :: Clean(o.value[i]))
  }

  lemma AppendClean(o: Outcome<seq<Meaning>>, v: Outcome<Meaning>)
    requires CleanListOutcome(o) && CleanOutcome(v)
    ensures CleanListOutcome(Append(o, v))
  {
    hide Clean;
  }

  lemma {:induction false} TidyItemsClean(env: Env, depth: nat, elem: Spec, vs: seq<Dyn>, k: nat)
    requires LinkedEnv(env) && Readable(env.lib, elem) && k <= |vs|
    requires forall i | 0 <= i < |vs| :: Tidy(env, elem, vs[i])
    ensures CleanListOutcome(EncodeList(env, depth, elem, vs[..k]))
    decreases depth, 3, k
  {
    if k == 0 {
      ListTripsEmpty(env, elem, depth);
      hide Encode, EncodeList, LinkedEnv, Tidy, Readable;
    } else {
      hide Encode, EncodeList, LinkedEnv, Tidy, Readable, CleanOutcome, CleanListOutcome, Append;
      assert vs[..k - 1] + [vs[k - 1]] == vs[..k];
      TidyItemsClean(env, depth, elem, vs, k - 1);
      EncodeListStep(env, depth, elem, vs[..k - 1], vs[k - 1]);
      TidyClean(env, depth, elem, vs[k - 1]);
      AppendClean(EncodeList(env, depth, elem, vs[..k - 1]), Encode(env, depth, elem, vs[k - 1]));
    }
  }

  lemma {:induction false} TidyMapClean(env: Env, depth: nat, spec: Spec, v: Dyn)
    requires LinkedEnv(env) && depth > 0 && Readable(env.lib, spec.Root()) && Tidy(env, spec, v)
    requires spec.Root().MapSpec?
    ensures CleanOutcome(Encode(env, depth, spec, v))
    decreases depth, 1
  {
    hide Encode, LinkedEnv, Tidy, KeySet, AsEntries, KeyWire;
    TidyEntries(env, spec, v);
    EncodeOfMap(env, depth, spec, v);
    TidyEntriesClean(env, depth - 1, spec.Root().key, spec.Root().value, AsEntries(v).value);
  }

  /** What encoding the entries of a tidy map yields. */
  ghost predicate CleanItems(lib: Lib, ks: Spec, keys: set<Key>, es: Items)
    requires ScalarSpec(ks.Root())
  {
    && |KeySet(es)| == |es|
    && forall p | p in es :: Clean(p.1) && p.0.MScalar? && exists k :: k in keys && KeyWire(lib, ks, k) == Some(p.0.w)
  }

  lemma {:induction false} TidyEntriesClean(env: Env, depth: nat, ks: Spec, vs: Spec, m: map<Key, Dyn>)
    requires LinkedEnv(env) && Readable(env.lib, vs) && KeysApart(env.lib, ks, m.Keys) && ScalarSpec(ks.Root())
    requires forall k | k in m :: Tidy(env, vs, m[k])
    ensures !EncodeEntries(env, depth, ks, vs, m).Ambiguous?
    ensures EncodeEntries(env, depth, ks, vs, m).Done? ==>
            CleanItems(env.lib, ks, m.Keys, EncodeEntries(env, depth, ks, vs, m).value)
    decreases depth, 3, |m|
  {
    hide Encode, EncodeItem, EncodeEntries, LinkedEnv, Tidy, Clean, CleanItems, CleanOutcome, ItemOf, KeysApart,
         KeyWire, ScalarSpec, Readable, Plus;
    if m == map[] {
      NoEntriesEncode(env, depth, ks, vs);
    } else {
      var k := Pick(m);
      EncodeEntriesFirst(env, depth, ks, vs, m, k);
      FewerKeysApart(env.lib, ks, m.Keys, k);
      assert (m - {k}).Keys == m.Keys - {k};
      TidyEntriesClean(env, depth, ks, vs, m - {k});
      TidyClean(env, depth, vs, m[k]);
      ItemOutcome(env, depth, ks, vs, k, m[k]);
      var item, rest := EncodeItem(env, depth, ks, vs, k, m[k]), EncodeEntries(env, depth, ks, vs, m - {k});
      PlusOutcome(item, rest);
      if rest.Done? && item.Done? {
        CleanItemsPlus(env.lib, ks, m.Keys, k, rest.value, item.value);
      }
    }
  }

  lemma PlusOutcome(a: Outcome<Items>, b: Outcome<Items>)
    ensures !a.Ambiguous? && !b.Ambiguous? ==> !Plus(a, b).Ambiguous?
    ensures Plus(a, b).Done? ==> a.Done? && b.Done? && Plus(a, b).value == a.value + b.value
  {
  }

  lemma NoEntriesEncode(env: Env, depth: nat, ks: Spec, vs: Spec)
    requires ScalarSpec(ks.Root())
    ensures EncodeEntries(env, depth, ks, vs, map[]) == Done(multiset{})
    ensures CleanItems(env.lib, ks, {}, multiset{})
  {
    assert KeySet(multiset{}) == {};
  }

  lemma FewerKeysApart(lib: Lib, ks: Spec, keys: set<Key>, k: Key)
    requires KeysApart(lib, ks, keys)
    ensures KeysApart(lib, ks, keys - {k})
  {
    hide EncodeScalar, ConvertMapKey, SimpleKey;
  }

  /** One item, or none, with the wire form of the key. */
  ghost predicate ItemOf(lib: Lib, ks: Spec, k: Key, es: Items)
    requires ScalarSpec(ks.Root())
  {
    es == multiset{} || exists w, m :: KeyWire(lib, ks, k) == Some(w) && Clean(m) && es == multiset{(MScalar(w), m)}
  }

  lemma ItemOutcome(env: Env, depth: nat, ks: Spec, vs: Spec, k: Key, v: Dyn)
    requires ScalarSpec(ks.Root()) && CleanOutcome(Encode(env, depth, vs, v))
    ensures var o := EncodeItem(env, depth, ks, vs, k, v);
            !o.Ambiguous? && (o.Done? ==> ItemOf(env.lib, ks, k, o.value))
  {
    hide Encode, EncodeItem, Clean, ScalarSpec, EncodeScalar, ConvertMapKey, KeyWire;
    ItemIs(env, depth, ks, vs, k, v);
    if !v.Nil? {
      KeyOutcome(env, depth, ks, k);
      var a, b := Encode(env, depth, ks, ConvertMapKey(env.lib, ks, k)), Encode(env, depth, vs, v);
      if Item(a, b).Done? { assert Item(a, b).value == multiset{(MScalar(KeyWire(env.lib, ks, k).value), b.value)}; }
    }
  }

  /** A scalar key is encoded to its wire form, or not at all. */
  lemma KeyOutcome(env: Env, depth: nat, ks: Spec, k: Key)
    requires ScalarSpec(ks.Root())
    ensures var o := Encode(env, depth, ks, ConvertMapKey(env.lib, ks, k));
            && !o.Ambiguous?
            && (o.Done? ==> KeyWire(env.lib, ks, k).Some? && o == Done(MScalar(KeyWire(env.lib, ks, k).value)))
  {
    hide EncodeStruct, EncodeList, EncodeEntries, EncodeScalar, ConvertMapKey;
    if depth > 0 { EncodeOfScalar(env, depth, ks, ConvertMapKey(env.lib, ks, k)); }
  }

  lemma KeySetPlus(rest: Items, e: (Meaning, Meaning))
    ensures KeySet(multiset{e} + rest) == KeySet(rest) + {e.0}
  {
    var es := multiset{e} + rest;
    assert e in es;
    forall x ensures x in KeySet(es) <==> x in KeySet(rest) + {e.0} {
      if x in KeySet(rest) {
        var p :| p in rest && p.0 == x;
        assert p in es;
      }
    }
  }

  lemma CleanItemsPlus(lib: Lib, ks: Spec, keys: set<Key>, k: Key, rest: Items, item: Items)
    requires ScalarSpec(ks.Root()) && k in keys && KeysApart(lib, ks, keys)
    requires CleanItems(lib, ks, keys - {k}, rest) && ItemOf(lib, ks, k, item)
    ensures CleanItems(lib, ks, keys, item + rest)
  {
    hide Clean, ScalarSpec, KeyWire, SimpleKey;
    var es := item + rest;
    if item == multiset{} {
      assert es == rest;
    } else {
      var w, m :| KeyWire(lib, ks, k) == Some(w) && Clean(m) && item == multiset{(MScalar(w), m)};
      assert MScalar(w) !in KeySet(rest);
      KeySetPlus(rest, (MScalar(w), m));
    }
  }

  // ---- From meanings back to wire values

  lemma {:induction false} AbsEntriesHas(es: seq<WItem>, i: nat)
    requires i < |es|
    ensures AbsItem(es[i]) in AbsEntries(es)
  {
    if i < |es| - 1 { AbsEntriesHas(es[..|es| - 1], i); }
  }

  lemma KeySetAppend(pre: seq<WItem>, e: WItem)
    ensures KeySet(AbsEntries(pre + [e])) == KeySet(AbsEntries(pre)) + {Abs(e.key)}
    ensures |AbsEntries(pre + [e])| == |AbsEntries(pre)| + 1
  {
    hide Abs;
    assert (pre + [e])[..|pre|] == pre;
    var b, es := AbsEntries(pre), AbsEntries(pre + [e]);
    assert es == b + multiset{AbsItem(e)};
    forall x ensures x in KeySet(es) <==> x in KeySet(b) + {Abs(e.key)} {
      if x in KeySet(b) { var p :| p in b && p.0 == x; assert p in es; }
      assert AbsItem(e) in es;
    }
  }

  predicate KeysDiffer(es: seq<WItem>) {
    forall i, j | 0 <= i < j < |es| :: es[i].key != es[j].key
  }

  lemma KeysDifferAppend(pre: seq<WItem>, e: WItem)
    requires KeysDiffer(pre) && forall i | 0 <= i < |pre| :: pre[i].key != e.key
    ensures KeysDiffer(pre + [e])
  {
  }

  ghost predicate KeysListed(es: seq<WItem>) {
    forall i | 0 <= i < |es| :: Abs(es[i].key) in KeySet(AbsEntries(es))
  }

  lemma KeysListedAppend(pre: seq<WItem>, e: WItem)
    requires KeysListed(pre)
    ensures KeysListed(pre + [e])
  {
    hide Abs, KeySet, AbsEntries;
    KeySetAppend(pre, e);
  }

  lemma NoKeys()
    ensures AbsEntries([]) == multiset{} && KeySet(multiset{}) == {}
  {
  }

  /** Counting keys detects a repeated key. */
  lemma {:induction false} KeyCount(es: seq<WItem>)
    ensures |AbsEntries(es)| == |es| && KeysListed(es)
    ensures |KeySet(AbsEntries(es))| <= |es|
    ensures |KeySet(AbsEntries(es))| == |es| ==> KeysDiffer(es)
  {
    if es == [] {
      NoKeys();
    } else {
      hide Abs, AbsEntries, KeySet, KeysDiffer, KeysListed;
      var pre, e := es[..|es| - 1], es[|es| - 1];
      assert pre + [e] == es;
      KeyCount(pre);
      KeySetAppend(pre, e);
      KeysListedAppend(pre, e);
      if |KeySet(AbsEntries(es))| == |es| {
        NewKeyDiffers(pre, e);
        KeysDifferAppend(pre, e);
      }
    }
  }

  lemma NewKeyDiffers(pre: seq<WItem>, e: WItem)
    requires KeysListed(pre) && Abs(e.key) !in KeySet(AbsEntries(pre))
    ensures forall i | 0 <= i < |pre| :: pre[i].key != e.key
  {
    hide Abs, KeySet, AbsEntries;
  }

  lemma {:induction false} CleanIsDistinct(env: Env, spec: Spec, w: Wire)
    requires Conforms(env, spec, w) && Clean(Abs(w))
    ensures DistinctKeys(w)
    decreases w, 1
  {
    match w
    case WStruct(fs) =>
      var g := env.Def(spec.Root().structName).fields;
      AbsFieldsLookup(fs);
      forall i | 0 <= i < |fs| ensures DistinctKeys(fs[i].value) {
        assert Clean(AbsFields(fs)[fs[i].id]);
        CleanIsDistinct(env, FieldByID(g, fs[i].id).value.ty, fs[i].value);
      }
    case WList(_, ws) => CleanListDistinct(env, spec, w);
    case WSet(_, ws) => CleanListDistinct(env, spec, w);
    case WMap(_, _, es) => CleanEntriesDistinct(env, spec, w);
    case _ =>
    hide FieldByID, AbsFields, AbsEntries, Spec.Code, Wire.Code;
  }

  lemma {:induction false} CleanListDistinct(env: Env, spec: Spec, w: Wire)
    requires Conforms(env, spec, w) && Clean(Abs(w)) && (w.WList? || w.WSet?)
    ensures forall i | 0 <= i < |w.items| :: DistinctKeys(w.items[i])
    decreases w, 0
  {
    SameKind(env, spec, w);
    hide FieldByID, Spec.Code, Wire.Code;
    forall i | 0 <= i < |w.items| ensures DistinctKeys(w.items[i]) {
      assert Clean(AbsList(w.items)[i]);
      CleanIsDistinct(env, spec.Root().elem, w.items[i]);
    }
  }

  lemma CleanEntry(w: Wire, i: nat)
    requires w.WMap? && Clean(Abs(w)) && i < |w.entries|
    ensures w.entries[i].key.Scalar() && Clean(Abs(w.entries[i].value))
  {
    AbsEntriesHas(w.entries, i);
    assert AbsItem(w.entries[i]) == (Abs(w.entries[i].key), Abs(w.entries[i].value));
    hide AbsEntries;
  }

  lemma ConformingEntry(env: Env, spec: Spec, w: Wire, i: nat)
    requires w.WMap? && Conforms(env, spec, w) && i < |w.entries|
    ensures spec.Root().MapSpec? && Conforms(env, spec.Root().value, w.entries[i].value)
  {
    SameKind(env, spec, w);
    hide FieldByID, Spec.Code, Wire.Code;
  }

  lemma CleanMapKeys(w: Wire)
    requires w.WMap? && Clean(Abs(w))
    ensures KeysDiffer(w.entries)
  {
    KeyCount(w.entries);
    hide AbsEntries;
  }

  lemma {:induction false} CleanEntriesDistinct(env: Env, spec: Spec, w: Wire)
    requires Conforms(env, spec, w) && Clean(Abs(w)) && w.WMap?
    ensures DistinctKeys(w)
    decreases w, 0
  {
    CleanMapKeys(w);
    forall i | 0 <= i < |w.entries| ensures DistinctKeys(w.entries[i].key) && DistinctKeys(w.entries[i].value) {
      hide Conforms, Abs, Clean;
      CleanEntry(w, i);
      ConformingEntry(env, spec, w, i);
      CleanIsDistinct(env, spec.Root().value, w.entries[i].value);
    }
    hide Conforms, Clean, Abs;
  }

  /** Normalisation: if a wire value decodes to d and w1 is a well-formed value with the meaning
      that encoding d has (what any run yields), then w1 is canonical, and decoding and encoding w1
      changes nothing. */
  lemma Normalises(env: Env, spec: Spec, w: Wire, depth: nat, w1: Wire, depth1: nat)
    requires LinkedEnv(env) && Readable(env.lib, spec)
    requires Decode(env, spec, w).Some?
    requires Encode(env, depth, spec, Decode(env, spec, w).value) == Done(Abs(w1))
    requires Conforms(env, spec, w1) && Height(w1) <= depth1
    ensures Canonical(env, spec, w1)
    ensures Decode(env, spec, w1).Some? && Encode(env, depth1, spec, Decode(env, spec, w1).value) == Done(Abs(w1))
  {
    hide Decode, Encode, Tidy, Readable, Clean, Abs, Conforms, DistinctKeys, Height;
    DecodeTidy(env, spec, w);
    TidyClean(env, depth, spec, Decode(env, spec, w).value);
    CleanIsDistinct(env, spec, w1);
    RoundTrip(env, spec, w1, depth1);
  }

  /** Encoding a decoded value never depends on Go's iteration order. */
  lemma DecodedIsSettled(env: Env, spec: Spec, w: Wire, depth: nat)
    requires LinkedEnv(env) && Readable(env.lib, spec) && Decode(env, spec, w).Some?
    ensures !Encode(env, depth, spec, Decode(env, spec, w).value).Ambiguous?
  {
    hide Decode, Encode, Tidy, Readable, Clean;
    DecodeTidy(env, spec, w);
    TidyClean(env, depth, spec, Decode(env, spec, w).value);
  }
}

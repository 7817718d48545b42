/** Decoding a canonical wire value and encoding the result gives the value back, for every
    specification, recursive ones included. */
module ThriftRoundTrip {
  import opened Option
  import opened Values
  import opened ThriftSpec
  import opened ThriftFields
  import opened ThriftScalars
  import opened ThriftEncode
  import opened ThriftDecode
  import opened ThriftStructs
  import Decimal

  function BoolText(b: bool): string { if b then "true" else "false" }

  /** What is assumed of the libraries: JSON prints integers in decimal and booleans as words, YAML
      reads both back, and case folding does not touch parentheses. */
  ghost predicate LibOk(lib: Lib) {
    && (forall n: I64 :: lib.yaml(Decimal.Format(n)) == Some(Int(GoInt, n)))
    && (forall b :: lib.yaml(BoolText(b)) == Some(Bool(b)))
    && (forall k, n :: lib.json(Int(k, n)) == Some(Decimal.Format(n)))
    && (forall b :: lib.json(Bool(b)) == Some(BoolText(b)))
    && FoldKeepsParens(lib.fold)
  }

  predicate SimpleKey(root: Spec) {
    root in {BoolSpec, I8Spec, I16Spec, I32Spec, I64Spec, StringSpec}
  }

  /** Map keys are strings, booleans or integers, and enum names are not ambiguous. */
  ghost predicate Readable(lib: Lib, spec: Spec) {
    match spec
    case TypedefSpec(t) => Readable(lib, t)
    case EnumSpec(_, items) => EnumReadable(lib.fold, items)
    case ListSpec(e) => Readable(lib, e)
    case SetSpec(e) => Readable(lib, e)
    case MapSpec(k, v) => SimpleKey(k.Root()) && Readable(lib, v)
    case _ => true
  }

  ghost predicate ReadableEnv(env: Env) {
    && LibOk(env.lib)
    && forall name, i | name in env.structs && 0 <= i < |env.structs[name].fields| ::
         Readable(env.lib, env.structs[name].fields[i].ty)
  }

  lemma {:induction false} ReadableRoot(lib: Lib, spec: Spec)
    requires Readable(lib, spec)
    ensures Readable(lib, spec.Root())
  {
    if spec.TypedefSpec? { ReadableRoot(lib, spec.target); }
  }

  // ---- Nesting height of a wire value

  function Max(a: nat, b: nat): nat { if a < b then b else a }

  ghost function Height(w: Wire): nat
    decreases w, 0
  {
    match w
    case WStruct(fs) => 1 + HeightFields(fs)
    case WList(_, ws) => 1 + HeightList(ws)
    case WSet(_, ws) => 1 + HeightList(ws)
    case WMap(_, _, es) => 1 + HeightItems(es)
    case _ => 1
  }

  ghost function HeightFields(fs: seq<WField>): nat
    decreases fs
  {
    if fs == [] then 0 else Max(HeightFields(fs[..|fs| - 1]), HeightField(fs[|fs| - 1]))
  }

  ghost function HeightField(f: WField): nat
    decreases f
  {
    Height(f.value)
  }

  ghost function HeightList(ws: seq<Wire>): nat
    decreases ws, 1
  {
    if ws == [] then 0 else Max(HeightList(ws[..|ws| - 1]), Height(ws[|ws| - 1]))
  }

  ghost function HeightItems(es: seq<WItem>): nat
    decreases es
  {
    if es == [] then 1 else Max(HeightItems(es[..|es| - 1]), HeightItem(es[|es| - 1]))
  }

  ghost function HeightItem(e: WItem): nat
    decreases e
  {
    Max(Height(e.key), Height(e.value))
  }

  lemma {:induction false} HeightFieldsBound(fs: seq<WField>)
    ensures forall i | 0 <= i < |fs| :: Height(fs[i].value) <= HeightFields(fs)
  {
    if fs != [] { HeightFieldsBound(fs[..|fs| - 1]); }
  }

  lemma {:induction false} HeightListBound(ws: seq<Wire>)
    ensures forall i | 0 <= i < |ws| :: Height(ws[i]) <= HeightList(ws)
  {
    if ws != [] { HeightListBound(ws[..|ws| - 1]); }
  }

  lemma {:induction false} HeightItemsBound(es: seq<WItem>)
    ensures HeightItems(es) >= 1
    ensures forall i | 0 <= i < |es| :: Height(es[i].key) <= HeightItems(es) && Height(es[i].value) <= HeightItems(es)
  {
    if es != [] { HeightItemsBound(es[..|es| - 1]); }
  }

  // ---- Map keys

  function KeyTextOf(w: Wire): string
    requires w.WBool? || w.WI8? || w.WI16? || w.WI32? || w.WI64? || w.WBinary?
  {
    match w
    case WBool(b) => BoolText(b)
    case WI8(n) => Decimal.Format(n)
    case WI16(n) => Decimal.Format(n)
    case WI32(n) => Decimal.Format(n)
    case WI64(n) => Decimal.Format(n)
    case WBinary(s) => s
  }

  /** A map key travels through text: it decodes to its text, and the text encodes back to it. */
  lemma KeyRoundTrip(env: Env, ks: Spec, w: Wire, depth: nat)
    requires LibOk(env.lib) && SimpleKey(ks.Root()) && ks.Code() == w.Code() && depth >= 1
    ensures w.WBool? || w.WI8? || w.WI16? || w.WI32? || w.WI64? || w.WBinary?
    ensures Decode(env, ks, w).Some?
    ensures KeyText(env.lib, Decode(env, ks, w).value) == Some(KeyTextOf(w))
    ensures Encode(env, depth, ks, ConvertMapKey(env.lib, ks, KStr(KeyTextOf(w)))) == Done(MScalar(w))
  {
    hide Encode, Decode;
    DecodeOfScalar(env, ks, w);
    KeyEncodes(env, ks, w);
    EncodeOfScalar(env, depth, ks, ConvertMapKey(env.lib, ks, KStr(KeyTextOf(w))));
  }

  lemma KeyEncodes(env: Env, ks: Spec, w: Wire)
    requires LibOk(env.lib) && SimpleKey(ks.Root()) && ks.Code() == w.Code()
    ensures w.WBool? || w.WI8? || w.WI16? || w.WI32? || w.WI64? || w.WBinary?
    ensures EncodeScalar(env.lib, ks.Root(), ConvertMapKey(env.lib, ks, KStr(KeyTextOf(w)))) == Some(w)
  {
    hide Decimal.Format;
    var v := ConvertMapKey(env.lib, ks, KStr(KeyTextOf(w)));
    match w
    case WBool(b) => assert v == Bool(b);
    case WI8(n) => ParseIntExact(v, 8);
    case WI16(n) => ParseIntExact(v, 16);
    case WI32(n) => ParseIntExact(v, 32);
    case WI64(n) => ParseIntExact(v, 64);
    case _ =>
  }

  lemma KeyTextInjective(a: Wire, b: Wire, ks: Spec)
    requires SimpleKey(ks.Root()) && ks.Code() == a.Code() == b.Code()
    requires KeyTextOf(a) == KeyTextOf(b)
    ensures a == b
  {
    match a
    case WI8(n) => Decimal.FormatInjective(n, b.i8);
    case WI16(n) => Decimal.FormatInjective(n, b.i16);
    case WI32(n) => Decimal.FormatInjective(n, b.i32);
    case WI64(n) => Decimal.FormatInjective(n, b.i64);
    case _ =>
  }

  // ---- Structs

  /** The struct case, given that every field value makes the round trip. */
  lemma StructRoundTrip(env: Env, spec: Spec, fs: seq<WField>, depth: nat)
    requires spec.Root().StructSpec? && Conforms(env, spec, WStruct(fs))
    requires var g := env.Def(spec.Root().structName).fields;
             AllDeclared(g, fs) && forall i | 0 <= i < |fs| :: FieldTrips(env, g, fs[i], depth)
    ensures Trips(env, spec, WStruct(fs), depth + 1)
  {
    hide Decode, DecodeFields, Encode, FieldByID, Exact, Holds, WithDefaults, FieldTrips, AllDecode;
    var def := env.Def(spec.Root().structName);
    var g := def.fields;
    var w := WStruct(fs);
    AllTripsDecode(env, g, fs, depth);
    DecodedFields(env, g, fs);
    var m := DecodeFields(env, g, fs).value;
    StructFieldsPresent(env, g, fs, m);
    NeededPresent(env, spec, fs, m);
    DecodedIsExact(env, g, fs, m);
    ExactStruct(env, depth, def, m);
    DefaultsPresent(g, m);
    DecodeOfStruct(env, spec, w);
    StructFieldsEncode(env, g, fs, m, depth);
    AbsFieldsSize(fs);
    EncodeOfStruct(env, depth + 1, spec, StrMap(m));
    assert Abs(w) == MStruct(AbsFields(fs));
  }

  lemma AllTripsDecode(env: Env, g: seq<FieldSpec>, fs: seq<WField>, depth: nat)
    requires AllDeclared(g, fs) && forall i | 0 <= i < |fs| :: FieldTrips(env, g, fs[i], depth)
    ensures AllDecode(env, g, fs)
  {
    hide Decode, Encode, FieldByID;
  }

  lemma NeededPresent(env: Env, spec: Spec, fs: seq<WField>, m: map<string, Dyn>)
    requires spec.Root().StructSpec? && Conforms(env, spec, WStruct(fs))
    requires var g := env.Def(spec.Root().structName).fields;
             forall j | 0 <= j < |g| :: g[j].name in m <==> HasID(fs, g[j].id)
    ensures var g := env.Def(spec.Root().structName).fields;
            forall j | 0 <= j < |g| :: g[j].required || g[j].default.Some? ==> g[j].name in m
  {
    hide FieldByID;
  }

  ghost predicate FieldTrips(env: Env, g: seq<FieldSpec>, f: WField, depth: nat)
    requires FieldByID(g, f.id).Some?
  {
    Trips(env, FieldByID(g, f.id).value.ty, f.value, depth)
  }

  /** The field of the list that declared field f holds. */
  lemma FieldEncodes(env: Env, g: seq<FieldSpec>, fs: seq<WField>, m: map<string, Dyn>, depth: nat, f: FieldSpec,
                     i: nat)
    requires DistinctFields(g) && AllDecode(env, g, fs) && Holds(env, g, fs, m)
    requires f in g && i < |fs| && fs[i].id == f.id && FieldTrips(env, g, fs[i], depth)
    ensures f.name in m && Encode(env, depth, f.ty, m[f.name]) == Done(Abs(fs[i].value))
  {
    FieldByIDIs(g, f);
    assert NameOf(g, fs[i]) == f.name;
    assert Some(m[NameOf(g, fs[i])]) == DecodeAs(env, g, fs[i]);
    hide Decode, Encode, FieldByID;
  }

  lemma StructFieldsEncode(env: Env, g: seq<FieldSpec>, fs: seq<WField>, m: map<string, Dyn>, depth: nat)
    requires DistinctFields(g) && DistinctIDs(fs) && AllDecode(env, g, fs) && Holds(env, g, fs, m)
    requires forall j | 0 <= j < |g| :: g[j].name in m <==> HasID(fs, g[j].id)
    requires forall i | 0 <= i < |fs| :: FieldTrips(env, g, fs[i], depth)
    ensures EncodeFields(env, depth, g, m) == Done(AbsFields(fs))
  {
    hide Decode, Encode, EncodeFields, Holds, AllDecode, FieldTrips;
    forall j | 0 <= j < |g| && g[j].name in m
      ensures Encode(env, depth, g[j].ty, m[g[j].name]).Done?
    {
      var i :| 0 <= i < |fs| && fs[i].id == g[j].id;
      FieldEncodes(env, g, fs, m, depth, g[j], i);
    }
    EncodedFields(env, depth, g, m);
    var r := EncodeFields(env, depth, g, m).value;
    AbsFieldsLookup(fs);
    forall i | 0 <= i < |fs| ensures fs[i].id in r && r[fs[i].id] == Abs(fs[i].value) {
      assert FieldByID(g, fs[i].id).Some? by { DeclaredAt(env, g, fs, i); }
      var f := FieldByID(g, fs[i].id).value;
      var j :| 0 <= j < |g| && g[j] == f;
      FieldEncodes(env, g, fs, m, depth, f, i);
    }
    forall id | id in r ensures HasID(fs, id) {
      var j :| 0 <= j < |g| && g[j].id == id && g[j].name in m;
    }
    SameLookups(r, fs);
  }

  // ---- The theorem

  ghost predicate Trips(env: Env, spec: Spec, w: Wire, depth: nat) {
    Decode(env, spec, w).Some? && Encode(env, depth, spec, Decode(env, spec, w).value) == Done(Abs(w))
  }

  lemma ListTripsEmpty(env: Env, elem: Spec, depth: nat)
    ensures DecodeList(env, elem, []) == Some([])
    ensures EncodeList(env, depth, elem, []) == Done([])
  {
  }

  lemma TripsIn(env: Env, spec: Spec, w: Wire, depth: nat)
    requires Decode(env, spec, w).Some? && Encode(env, depth, spec, Decode(env, spec, w).value) == Done(Abs(w))
    ensures Trips(env, spec, w, depth)
  {
    hide Decode, Encode;
  }

  lemma TripsOut(env: Env, spec: Spec, w: Wire, depth: nat)
    requires Trips(env, spec, w, depth)
    ensures Decode(env, spec, w).Some? && Encode(env, depth, spec, Decode(env, spec, w).value) == Done(Abs(w))
  {
    hide Decode, Encode, Abs;
  }

  lemma {:induction false} ListTrips(env: Env, elem: Spec, ws: seq<Wire>, depth: nat)
    requires forall i | 0 <= i < |ws| :: Trips(env, elem, ws[i], depth)
    ensures DecodeList(env, elem, ws).Some?
    ensures EncodeList(env, depth, elem, DecodeList(env, elem, ws).value) == Done(AbsList(ws))
  {
    hide Decode, DecodeList, Encode, EncodeList, Trips, Abs;
    if ws == [] {
      ListTripsEmpty(env, elem, depth);
    } else {
      var n := |ws| - 1;
      var pre := ws[..n];
      assert pre + [ws[n]] == ws;
      ListTrips(env, elem, pre, depth);
      TripsOut(env, elem, ws[n], depth);
      DecodeListStep(env, elem, pre, ws[n]);
      EncodeListStep(env, depth, elem, DecodeList(env, elem, pre).value, Decode(env, elem, ws[n]).value);
      assert AbsList(ws) == AbsList(pre) + [Abs(ws[n])];
    }
  }

  function TextOfItem(e: WItem): Option<string> {
    var w := e.key;
    if w.WBool? || w.WI8? || w.WI16? || w.WI32? || w.WI64? || w.WBinary? then Some(KeyTextOf(w)) else None
  }

  lemma RekeyedStep(m: map<string, Dyn>, s: string, v: Dyn)
    requires s !in m
    ensures KStr(s) in Rekeyed(m[s := v]) && Rekeyed(m[s := v])[KStr(s)] == v
    ensures Rekeyed(m[s := v]) - {KStr(s)} == Rekeyed(m)
  {
  }

  lemma ItemTrips(env: Env, ks: Spec, vs: Spec, e: WItem, depth: nat)
    requires LibOk(env.lib) && SimpleKey(ks.Root()) && depth >= 1
    requires e.key.Code() == ks.Code() && Trips(env, vs, e.value, depth)
    ensures Decode(env, vs, e.value).Some? && TextOfItem(e).Some?
    ensures DecodeItem(env, ks, vs, e) == Some((TextOfItem(e).value, Decode(env, vs, e.value).value))
    ensures EncodeItem(env, depth, ks, vs, KStr(TextOfItem(e).value), Decode(env, vs, e.value).value) ==
            Done(multiset{AbsItem(e)})
  {
    hide LibOk, SimpleKey, Decode, Encode, Trips, ConvertMapKey, KeyText;
    KeyRoundTrip(env, ks, e.key, depth);
    TripsOut(env, vs, e.value, depth);
    assert Abs(e.key) == MScalar(e.key);
    hide Abs, ConvertMapKey, KeyText, Spec.Code, Wire.Code;
  }

  /** One more item whose key text is new. */
  lemma MapTripsStep(env: Env, ks: Spec, vs: Spec, m: map<string, Dyn>, e: WItem, depth: nat)
    requires LibOk(env.lib) && SimpleKey(ks.Root()) && depth >= 1
    requires e.key.Code() == ks.Code() && Trips(env, vs, e.value, depth)
    requires TextOfItem(e).Some? && TextOfItem(e).value !in m
    ensures Decode(env, vs, e.value).Some?
    ensures DecodeItem(env, ks, vs, e) == Some((TextOfItem(e).value, Decode(env, vs, e.value).value))
    ensures EncodeEntries(env, depth, ks, vs, Rekeyed(m[TextOfItem(e).value := Decode(env, vs, e.value).value])) ==
            Plus(Done(multiset{AbsItem(e)}), EncodeEntries(env, depth, ks, vs, Rekeyed(m)))
  {
    hide LibOk, SimpleKey, Encode, EncodeEntries, Decode, DecodeItem, Trips, TextOfItem, AbsItem, Plus, Spec.Code,
         Wire.Code;
    ItemTrips(env, ks, vs, e, depth);
    var s, v := TextOfItem(e).value, Decode(env, vs, e.value).value;
    RekeyedStep(m, s, v);
    EncodeEntriesFirst(env, depth, ks, vs, Rekeyed(m[s := v]), KStr(s));
  }

  ghost predicate KeysFrom(m: map<string, Dyn>, es: seq<WItem>) {
    forall s | s in m :: exists i :: 0 <= i < |es| && TextOfItem(es[i]) == Some(s)
  }

  lemma {:induction false} MapTrips(env: Env, ks: Spec, vs: Spec, es: seq<WItem>, depth: nat)
    requires LibOk(env.lib) && SimpleKey(ks.Root()) && depth >= 1
    requires forall i | 0 <= i < |es| :: es[i].key.Code() == ks.Code() && Trips(env, vs, es[i].value, depth)
    requires forall i, j | 0 <= i < j < |es| :: es[i].key != es[j].key
    ensures DecodeEntries(env, ks, vs, es).Some? && KeysFrom(DecodeEntries(env, ks, vs, es).value, es)
    ensures EncodeEntries(env, depth, ks, vs, Rekeyed(DecodeEntries(env, ks, vs, es).value)) == Done(AbsEntries(es))
  {
    hide LibOk, SimpleKey, Decode, DecodeEntries, Encode, EncodeEntries, AbsItem, Trips, TextOfItem, KeysFrom, Plus,
         Spec.Code, Wire.Code;
    if es == [] {
      MapTripsEmpty(env, ks, vs, depth);
    } else {
      var n := |es| - 1;
      var pre := es[..n];
      MapTrips(env, ks, vs, pre, depth);
      var m := DecodeEntries(env, ks, vs, pre).value;
      NewText(ks, pre, es[n], m);
      var s := TextOfItem(es[n]).value;
      assert pre + [es[n]] == es;
      DecodeEntriesStep(env, ks, vs, pre, es[n]);
      MapTripsStep(env, ks, vs, m, es[n], depth);
      PlusOne(pre, es[n]);
      KeysFromStep(m, pre, es[n], s, Decode(env, vs, es[n].value).value);
    }
  }

  /** The text of a key that differs from all earlier keys is new. */
  lemma NewText(ks: Spec, pre: seq<WItem>, e: WItem, m: map<string, Dyn>)
    requires SimpleKey(ks.Root()) && KeysFrom(m, pre) && e.key.Code() == ks.Code()
    requires forall i | 0 <= i < |pre| :: pre[i].key.Code() == ks.Code() && pre[i].key != e.key
    ensures TextOfItem(e).Some? && TextOfItem(e).value !in m
  {
    if TextOfItem(e).value in m {
      var i :| 0 <= i < |pre| && TextOfItem(pre[i]) == TextOfItem(e);
      KeyTextInjective(pre[i].key, e.key, ks);
    }
  }

  lemma PlusOne(pre: seq<WItem>, e: WItem)
    ensures Plus(Done(multiset{AbsItem(e)}), Done(AbsEntries(pre))) == Done(AbsEntries(pre + [e]))
  {
    hide AbsItem, Abs;
    assert (pre + [e])[..|pre|] == pre;
    assert multiset{AbsItem(e)} + AbsEntries(pre) == AbsEntries(pre) + multiset{AbsItem(e)};
  }

  lemma MapTripsEmpty(env: Env, ks: Spec, vs: Spec, depth: nat)
    ensures DecodeEntries(env, ks, vs, []) == Some(map[])
    ensures KeysFrom(map[], [])
    ensures EncodeEntries(env, depth, ks, vs, Rekeyed(map[])) == Done(AbsEntries([]))
  {
    assert Rekeyed(map[]) == map[];
  }

  lemma KeysFromStep(m: map<string, Dyn>, pre: seq<WItem>, e: WItem, s: string, v: Dyn)
    requires KeysFrom(m, pre) && TextOfItem(e) == Some(s)
    ensures KeysFrom(m[s := v], pre + [e])
  {
    var es := pre + [e];
    forall t | t in m[s := v] ensures exists i :: 0 <= i < |es| && TextOfItem(es[i]) == Some(t) {
      if t == s {
        assert TextOfItem(es[|pre|]) == Some(t);
      } else {
        var i :| 0 <= i < |pre| && TextOfItem(pre[i]) == Some(t);
        assert es[i] == pre[i];
      }
    }
  }

  lemma SameKind(env: Env, spec: Spec, w: Wire)
    requires Conforms(env, spec, w)
    ensures spec.Code() == w.Code()
    ensures w.WStruct? ==> spec.Root().StructSpec?
    ensures w.WList? ==> spec.Root().ListSpec?
    ensures w.WSet? ==> spec.Root().SetSpec?
    ensures w.WMap? ==> spec.Root().MapSpec?
  {
  }

  lemma ListRoundTrip(env: Env, spec: Spec, w: Wire, depth: nat)
    requires w.WList? || w.WSet?
    requires Conforms(env, spec, w)
    requires forall i | 0 <= i < |w.items| :: Trips(env, spec.Root().elem, w.items[i], depth)
    ensures Trips(env, spec, w, depth + 1)
  {
    hide Decode, Encode;
    SameKind(env, spec, w);
    ListTrips(env, spec.Root().elem, w.items, depth);
    DecodeOfList(env, spec, w);
    EncodeOfList(env, depth + 1, spec, Decode(env, spec, w).value);
  }

  lemma MapRoundTrip(env: Env, spec: Spec, w: Wire, depth: nat)
    requires w.WMap? && Conforms(env, spec, w) && ReadableEnv(env) && depth >= 1
    requires Readable(env.lib, spec.Root()) && DistinctKeys(w) && spec.Root().MapSpec?
    requires forall i | 0 <= i < |w.entries| :: Trips(env, spec.Root().value, w.entries[i].value, depth)
    ensures Trips(env, spec, w, depth + 1)
  {
    hide Decode, DecodeEntries, Encode, SimpleKey, LibOk, Trips;
    SameKind(env, spec, w);
    hide ReadableEnv, Conforms;
    ConformingKeys(env, spec, w);
    ReadableMap(env, spec.Root());
    MapTrips(env, spec.Root().key, spec.Root().value, w.entries, depth);
    MapTripsWhole(env, spec, w, depth, DecodeEntries(env, spec.Root().key, spec.Root().value, w.entries).value);
  }

  lemma MapTripsWhole(env: Env, spec: Spec, w: Wire, depth: nat, m: map<string, Dyn>)
    requires w.WMap? && spec.Root().MapSpec? && spec.Code() == w.Code()
    requires w.keyType == spec.Root().key.Code() && w.valueType == spec.Root().value.Code()
    requires DecodeEntries(env, spec.Root().key, spec.Root().value, w.entries) == Some(m)
    requires EncodeEntries(env, depth, spec.Root().key, spec.Root().value, Rekeyed(m)) == Done(AbsEntries(w.entries))
    ensures Trips(env, spec, w, depth + 1)
  {
    hide Decode, DecodeEntries, Encode, EncodeEntries, Trips;
    DecodeOfMap(env, spec, w);
    EncodeOfMap(env, depth + 1, spec, StrMap(m));
    TripsIn(env, spec, w, depth + 1);
  }

  lemma ReadableMap(env: Env, root: Spec)
    requires ReadableEnv(env) && Readable(env.lib, root) && root.MapSpec?
    ensures LibOk(env.lib) && SimpleKey(root.key.Root())
  {
  }

  lemma ConformingKeys(env: Env, spec: Spec, w: Wire)
    requires w.WMap? && Conforms(env, spec, w)
    ensures w.keyType == spec.Root().key.Code() && w.valueType == spec.Root().value.Code()
    ensures forall i | 0 <= i < |w.entries| :: w.entries[i].key.Code() == spec.Root().key.Code()
  {
  }

  lemma ReadableField(env: Env, name: string, id: I16)
    requires ReadableEnv(env) && FieldByID(env.Def(name).fields, id).Some?
    ensures Readable(env.lib, FieldByID(env.Def(name).fields, id).value.ty)
  {
  }

  lemma HeightPositive(w: Wire)
    ensures Height(w) >= 1
    ensures w.WMap? ==> Height(w) >= 2
  {
    if w.WMap? { HeightItemsBound(w.entries); }
  }

  /** A canonical value of height at most depth makes the round trip. */
  lemma {:induction false} CanonicalTrips(env: Env, spec: Spec, w: Wire, depth: nat)
    requires ReadableEnv(env) && Readable(env.lib, spec)
    requires Conforms(env, spec, w) && DistinctKeys(w) && Height(w) <= depth
    ensures Trips(env, spec, w, depth)
    decreases w, 1
  {
    hide Trips, ReadableEnv, Readable, Conforms, DistinctKeys, Height, Spec.Code, Wire.Code;
    ReadableRoot(env.lib, spec);
    HeightPositive(w);
    SameKind(env, spec, w);
    if w.WStruct? {
      FieldsTrip(env, spec, w, depth);
      StructRoundTrip(env, spec, w.fields, depth - 1);
    } else if w.WList? || w.WSet? {
      ItemsTrip(env, spec, w, depth);
      ListRoundTrip(env, spec, w, depth - 1);
    } else if w.WMap? {
      EntriesTrip(env, spec, w, depth);
      MapRoundTrip(env, spec, w, depth - 1);
    } else {
      ScalarTrips(env, spec, w, depth);
    }
  }

  lemma ScalarTrips(env: Env, spec: Spec, w: Wire, depth: nat)
    requires w.Scalar() && spec.Code() == w.Code() && depth >= 1
    requires ReadableEnv(env) && Readable(env.lib, spec.Root())
    ensures Trips(env, spec, w, depth)
  {
    hide Decode, Encode, DecodeScalar, EncodeScalar;
    ScalarRoundTrip(env.lib, spec.Root(), w);
    DecodeOfScalar(env, spec, w);
    EncodeOfScalar(env, depth, spec, DecodeScalar(spec.Root(), w));
  }

  lemma CanonicalFields(env: Env, spec: Spec, w: Wire)
    requires w.WStruct? && spec.Root().StructSpec? && Conforms(env, spec, w) && DistinctKeys(w)
    ensures var g := env.Def(spec.Root().structName).fields;
            AllDeclared(g, w.fields) && forall i | 0 <= i < |w.fields| ::
              && Conforms(env, FieldByID(g, w.fields[i].id).value.ty, w.fields[i].value)
              && DistinctKeys(w.fields[i].value) && Height(w.fields[i].value) < Height(w)
  {
    hide FieldByID;
    HeightFieldsBound(w.fields);
  }

  lemma {:induction false} FieldsTrip(env: Env, spec: Spec, w: Wire, depth: nat)
    requires ReadableEnv(env) && w.WStruct? && spec.Root().StructSpec?
    requires Conforms(env, spec, w) && DistinctKeys(w) && Height(w) <= depth
    ensures var g := env.Def(spec.Root().structName).fields;
            AllDeclared(g, w.fields) && forall i | 0 <= i < |w.fields| :: FieldTrips(env, g, w.fields[i], depth - 1)
    decreases w, 0
  {
    hide Trips, ReadableEnv, Readable, FieldByID, Conforms, DistinctKeys, Height, Encode, Decode;
    var name := spec.Root().structName;
    var g := env.Def(name).fields;
    CanonicalFields(env, spec, w);
    forall i | 0 <= i < |w.fields|
      ensures FieldTrips(env, g, w.fields[i], depth - 1)
    {
      ReadableField(env, name, w.fields[i].id);
      CanonicalTrips(env, FieldByID(g, w.fields[i].id).value.ty, w.fields[i].value, depth - 1);
    }
  }

  lemma {:induction false} ItemsTrip(env: Env, spec: Spec, w: Wire, depth: nat)
    requires ReadableEnv(env) && Readable(env.lib, spec.Root())
    requires (w.WList? && spec.Root().ListSpec?) || (w.WSet? && spec.Root().SetSpec?)
    requires Conforms(env, spec, w) && DistinctKeys(w) && Height(w) <= depth
    ensures forall i | 0 <= i < |w.items| :: Trips(env, spec.Root().elem, w.items[i], depth - 1)
    decreases w, 0
  {
    hide Trips, ReadableEnv, SimpleKey, Spec.Code, Wire.Code;
    HeightListBound(w.items);
    forall i | 0 <= i < |w.items| ensures Trips(env, spec.Root().elem, w.items[i], depth - 1) {
      CanonicalTrips(env, spec.Root().elem, w.items[i], depth - 1);
    }
  }

  lemma {:induction false} EntriesTrip(env: Env, spec: Spec, w: Wire, depth: nat)
    requires ReadableEnv(env) && Readable(env.lib, spec.Root())
    requires w.WMap? && spec.Root().MapSpec?
    requires Conforms(env, spec, w) && DistinctKeys(w) && Height(w) <= depth
    ensures forall i | 0 <= i < |w.entries| :: Trips(env, spec.Root().value, w.entries[i].value, depth - 1)
    decreases w, 0
  {
    hide Trips, ReadableEnv, SimpleKey, Spec.Code, Wire.Code;
    HeightItemsBound(w.entries);
    forall i | 0 <= i < |w.entries| ensures Trips(env, spec.Root().value, w.entries[i].value, depth - 1) {
      CanonicalTrips(env, spec.Root().value, w.entries[i].value, depth - 1);
    }
  }

  /** Round trip: a canonical value decodes, and what it decodes to encodes, in every run, to the
      same value up to the order of map items; a call depth of the value's height is enough. */
  lemma RoundTrip(env: Env, spec: Spec, w: Wire, depth: nat)
    requires ReadableEnv(env) && Readable(env.lib, spec)
    requires Canonical(env, spec, w) && Height(w) <= depth
    ensures Decode(env, spec, w).Some?
    ensures Encode(env, depth, spec, Decode(env, spec, w).value) == Done(Abs(w))
  {
    CanonicalTrips(env, spec, w, depth);
  }
}

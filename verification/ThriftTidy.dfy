/** Request values that leave nothing to Go's iteration order: structs are given by the declared names
    of their fields, and no two keys of a map have the same wire form. Default constants that have the
    shape of their field's type, as they do once the Thrift compiler has linked them, are turned into
    such values; so is whatever a wire value is decoded to. */
module ThriftTidy {
  import opened Option
  import opened Values
  import opened ThriftSpec
  import opened ThriftFields
  import opened ThriftScalars
  import opened ThriftEncode
  import opened ThriftDecode
  import opened ThriftStructs
  import opened ThriftRoundTrip

  /** The wire form of a map key, if it has one. */
  function KeyWire(lib: Lib, ks: Spec, k: Key): Option<Wire>
    requires ScalarSpec(ks.Root())
  {
    EncodeScalar(lib, ks.Root(), ConvertMapKey(lib, ks, k))
  }

  /** Different keys have different wire forms. */
  ghost predicate KeysApart(lib: Lib, ks: Spec, keys: set<Key>) {
    SimpleKey(ks.Root()) &&
    forall j, k | j in keys && k in keys && KeyWire(lib, ks, j).Some?
        && KeyWire(lib, ks, j) == KeyWire(lib, ks, k) :: j == k
  }

  /** A request value that leaves nothing to Go's iteration order: structs are given by declared
      names, and no two keys of a map have the same wire form. */
  ghost predicate Tidy(env: Env, spec: Spec, v: Dyn)
    decreases v
  {
    match spec.Root()
    case StructSpec(name) =>
      var g := env.Def(name).fields;
      v.StrMap? && Exact(g, v.fields) && forall n | n in v.fields :: Tidy(env, FieldOf(g, n).ty, v.fields[n])
    case ListSpec(e) => v.List? ==> forall i | 0 <= i < |v.items| :: Tidy(env, e, v.items[i])
    case SetSpec(e) => v.List? ==> forall i | 0 <= i < |v.items| :: Tidy(env, e, v.items[i])
    case MapSpec(k, t) =>
      && AsEntries(v).Some? && KeysApart(env.lib, k, AsEntries(v).value.Keys)
      && (v.StrMap? ==> forall s | s in v.fields :: Tidy(env, t, v.fields[s]))
      && (v.AnyMap? ==> forall s | s in v.entries :: Tidy(env, t, v.entries[s]))
    case _ => true
  }

  lemma TidyEntries(env: Env, spec: Spec, v: Dyn)
    requires spec.Root().MapSpec? && Tidy(env, spec, v)
    ensures AsEntries(v).Some? && KeysApart(env.lib, spec.Root().key, AsEntries(v).value.Keys)
    ensures forall k | k in AsEntries(v).value :: Tidy(env, spec.Root().value, AsEntries(v).value[k])
  {
  }

  // ---- Defaults

  predicate KeyFits(root: Spec, c: Const) {
    match c
    case ConstReference(t) => KeyFits(root, t)
    case ConstBool(_) => root.BoolSpec?
    case ConstString(_) => root.StringSpec?
    case ConstInt(_) => root in {I8Spec, I16Spec, I32Spec, I64Spec}
    case _ => false
  }

  /** The constant has the shape of the type, as it does once the Thrift compiler has linked it. */
  ghost predicate Fits(env: Env, spec: Spec, c: Const)
    decreases c
  {
    if c.ConstReference? then Fits(env, spec, c.target)
    else
      match spec.Root()
      case StructSpec(name) =>
        var g := env.Def(name).fields;
        c.ConstStruct? && forall n | n in c.fields :: n in Names(g) && Fits(env, FieldOf(g, n).ty, c.fields[n])
      case ListSpec(e) => c.ConstList? && forall i | 0 <= i < |c.items| :: Fits(env, e, c.items[i])
      case SetSpec(e) => c.ConstSet? && forall i | 0 <= i < |c.items| :: Fits(env, e, c.items[i])
      case MapSpec(k, t) =>
        c.ConstMap? && forall i | 0 <= i < |c.entries| ::
            KeyFits(k.Root(), c.entries[i].key) && Fits(env, t, c.entries[i].value)
      case _ => true
  }

  /** A readable environment whose default constants have the shape of their field's type. */
  ghost predicate LinkedEnv(env: Env) {
    && ReadableEnv(env)
    && forall name, i | name in env.structs && 0 <= i < |env.structs[name].fields| ::
         DefaultFits(env, env.structs[name].fields[i])
  }

  ghost predicate DefaultFits(env: Env, f: FieldSpec) {
    f.default.Some? ==> Fits(env, f.ty, f.default.value)
  }

  lemma LinkedField(env: Env, name: string, f: FieldSpec)
    requires LinkedEnv(env) && f in env.Def(name).fields
    ensures DefaultFits(env, f) && Readable(env.lib, f.ty)
  {
  }

  lemma {:induction false} RequestListAt(cs: seq<Const>, i: nat)
    requires RequestList(cs).Some? && i < |cs|
    ensures RequestOf(cs[i]) == Some(RequestList(cs).value[i])
  {
    if i < |cs| - 1 { RequestListAt(cs[..|cs| - 1], i); }
  }

  lemma {:induction false} RequestMapAt(es: seq<ConstEntry>, k: Key) returns (i: nat)
    requires RequestMap(es).Some? && k in RequestMap(es).value
    ensures i < |es| && RequestEntry(es[i]) == Some((k, RequestMap(es).value[k]))
  {
    var n := |es| - 1;
    if RequestEntry(es[n]).value.0 == k {
      i := n;
    } else {
      i := RequestMapAt(es[..n], k);
    }
  }

  predicate TypedKey(root: Spec, k: Key) {
    match k
    case KBool(_) => root.BoolSpec?
    case KStr(_) => root.StringSpec?
    case KInt(kind, _) => kind == GoInt64 && root in {I8Spec, I16Spec, I32Spec, I64Spec}
    case _ => false
  }

  lemma {:induction false} FittingKey(root: Spec, c: Const)
    requires KeyFits(root, c)
    ensures RequestOf(c).Some? && HashKey(RequestOf(c).value).Some? && TypedKey(root, HashKey(RequestOf(c).value).value)
  {
    if c.ConstReference? { FittingKey(root, c.target); }
  }

  lemma TypedKeysApart(lib: Lib, ks: Spec, keys: set<Key>)
    requires SimpleKey(ks.Root()) && forall k | k in keys :: TypedKey(ks.Root(), k)
    ensures KeysApart(lib, ks, keys)
  {
    forall j, k | j in keys && k in keys && KeyWire(lib, ks, j).Some? && KeyWire(lib, ks, j) == KeyWire(lib, ks, k)
      ensures j == k
    {
      TypedKeyWire(lib, ks, j);
      TypedKeyWire(lib, ks, k);
    }
    hide KeyWire;
  }

  /** A typed key is determined by its wire form. */
  lemma TypedKeyWire(lib: Lib, ks: Spec, k: Key)
    requires SimpleKey(ks.Root()) && TypedKey(ks.Root(), k) && KeyWire(lib, ks, k).Some?
    ensures k == match KeyWire(lib, ks, k).value
                 case WBool(b) => KBool(b)
                 case WI8(n) => KInt(GoInt64, n)
                 case WI16(n) => KInt(GoInt64, n)
                 case WI32(n) => KInt(GoInt64, n)
                 case WI64(n) => KInt(GoInt64, n)
                 case WBinary(s) => KStr(s)
                 case _ => KNil
  {
    var v := ConvertMapKey(lib, ks, k);
    assert v == k.Value();
    if v.Int? { IntegerEncodingLosesNothing(lib, ks.Root(), v); }
  }

  /** A default of the right shape is tidy. */
  lemma {:induction false} FitsTidy(env: Env, spec: Spec, c: Const)
    requires Readable(env.lib, spec) && ReadableEnv(env)
    requires Fits(env, spec, c) && RequestOf(c).Some?
    ensures Tidy(env, spec, RequestOf(c).value)
    decreases c
  {
    hide ReadableEnv, SimpleKey;
    if c.ConstReference? {
      FitsTidy(env, spec, c.target);
    } else {
      ReadableRoot(env.lib, spec);
      match spec.Root()
      case StructSpec(name) => FitsTidyStruct(env, spec, c);
      case ListSpec(e) => FitsTidyList(env, spec, c);
      case SetSpec(e) => FitsTidyList(env, spec, c);
      case MapSpec(k, t) => FitsTidyMap(env, spec, c);
      case _ =>
    }
  }

  lemma {:induction false} FitsTidyStruct(env: Env, spec: Spec, c: Const)
    requires ReadableEnv(env) && spec.Root().StructSpec? && !c.ConstReference?
    requires Fits(env, spec, c) && RequestOf(c).Some?
    ensures Tidy(env, spec, RequestOf(c).value)
    decreases c, 0
  {
    hide ReadableEnv;
    var g := env.Def(spec.Root().structName).fields;
    forall n | n in c.fields ensures Tidy(env, FieldOf(g, n).ty, RequestOf(c.fields[n]).value) {
      ReadableMember(env, spec.Root().structName, FieldOf(g, n));
      FitsTidy(env, FieldOf(g, n).ty, c.fields[n]);
    }
  }

  lemma ReadableMember(env: Env, name: string, f: FieldSpec)
    requires ReadableEnv(env) && f in env.Def(name).fields
    ensures Readable(env.lib, f.ty)
  {
  }

  lemma {:induction false} FitsTidyList(env: Env, spec: Spec, c: Const)
    requires ReadableEnv(env) && Readable(env.lib, spec.Root()) && !c.ConstReference?
    requires spec.Root().ListSpec? || spec.Root().SetSpec?
    requires Fits(env, spec, c) && RequestOf(c).Some?
    ensures Tidy(env, spec, RequestOf(c).value)
    decreases c, 0
  {
    hide ReadableEnv;
    forall i | 0 <= i < |c.items| ensures Tidy(env, spec.Root().elem, RequestList(c.items).value[i]) {
      RequestListAt(c.items, i);
      FitsTidy(env, spec.Root().elem, c.items[i]);
    }
  }

  lemma {:induction false} FitsTidyMap(env: Env, spec: Spec, c: Const)
    requires ReadableEnv(env) && Readable(env.lib, spec.Root()) && !c.ConstReference? && spec.Root().MapSpec?
    requires Fits(env, spec, c) && RequestOf(c).Some?
    ensures Tidy(env, spec, RequestOf(c).value)
    decreases c, 0
  {
    hide ReadableEnv, SimpleKey, KeysApart, KeyFits, TypedKey;
    var m := RequestMap(c.entries).value;
    forall k | k in m
      ensures TypedKey(spec.Root().key.Root(), k) && Tidy(env, spec.Root().value, m[k])
    {
      var i := RequestMapAt(c.entries, k);
      FittingKey(spec.Root().key.Root(), c.entries[i].key);
      FitsTidy(env, spec.Root().value, c.entries[i].value);
    }
    TypedKeysApart(env.lib, spec.Root().key, m.Keys);
  }

  // ---- Decoded values are tidy

  ghost predicate TidyFields(env: Env, g: seq<FieldSpec>, m: map<string, Dyn>) {
    forall n | n in m :: n in Names(g) && m[n] != Nil && Tidy(env, FieldOf(g, n).ty, m[n])
  }

  lemma TidyFieldsPut(env: Env, g: seq<FieldSpec>, m: map<string, Dyn>, f: FieldSpec, v: Dyn)
    requires DistinctFields(g) && TidyFields(env, g, m)
    requires f in g && v != Nil && Tidy(env, f.ty, v)
    ensures TidyFields(env, g, m[f.name := v])
  {
    hide Tidy;
    var i :| 0 <= i < |g| && g[i] == f;
    assert g[i].name in Names(g);
    NameInjective(g, f, FieldOf(g, f.name));
  }

  lemma {:induction false} DefaultsTidy(env: Env, name: string, pre: seq<FieldSpec>, m: map<string, Dyn>)
    requires LinkedEnv(env) && forall i | 0 <= i < |pre| :: pre[i] in env.Def(name).fields
    requires TidyFields(env, env.Def(name).fields, m) && WithDefaults(pre, m).Some?
    ensures TidyFields(env, env.Def(name).fields, WithDefaults(pre, m).value)
  {
    hide LinkedEnv, Tidy, TidyFields, Env.Def;
    if pre != [] {
      var f := pre[|pre| - 1];
      DefaultsTidy(env, name, pre[..|pre| - 1], m);
      var m' := WithDefaults(pre[..|pre| - 1], m).value;
      if f.name !in m' && f.default.Some? {
        DefaultTidy(env, name, f);
        TidyFieldsPut(env, env.Def(name).fields, m', f, RequestOf(f.default.value).value);
      }
    }
  }

  lemma DefaultTidy(env: Env, name: string, f: FieldSpec)
    requires LinkedEnv(env) && f in env.Def(name).fields && f.default.Some? && RequestOf(f.default.value).Some?
    ensures Tidy(env, f.ty, RequestOf(f.default.value).value)
  {
    LinkedField(env, name, f);
    FitsTidy(env, f.ty, f.default.value);
  }

  lemma TidyStruct(env: Env, spec: Spec, m: map<string, Dyn>)
    requires spec.Root().StructSpec? && TidyFields(env, env.Def(spec.Root().structName).fields, m)
    ensures Tidy(env, spec, StrMap(m))
  {
  }

  lemma {:induction false} DecodeEntriesAt(env: Env, ks: Spec, vs: Spec, es: seq<WItem>, s: string) returns (i: nat)
    requires DecodeEntries(env, ks, vs, es).Some? && s in DecodeEntries(env, ks, vs, es).value
    ensures i < |es| && DecodeItem(env, ks, vs, es[i]) == Some((s, DecodeEntries(env, ks, vs, es).value[s]))
  {
    hide Decode, DecodeItem;
    var n := |es| - 1;
    if DecodeItem(env, ks, vs, es[n]).value.0 == s {
      i := n;
    } else {
      i := DecodeEntriesAt(env, ks, vs, es[..n], s);
    }
  }

  lemma {:induction false} DecodeListAt(env: Env, elem: Spec, ws: seq<Wire>, i: nat)
    requires DecodeList(env, elem, ws).Some? && i < |ws|
    ensures Decode(env, elem, ws[i]) == Some(DecodeList(env, elem, ws).value[i])
  {
    hide Decode;
    if i < |ws| - 1 { DecodeListAt(env, elem, ws[..|ws| - 1], i); }
  }

  /** What a decoded item tells about its key text. */
  lemma DecodedKey(env: Env, ks: Spec, vs: Spec, e: WItem, s: string, v: Dyn)
    requires ReadableEnv(env) && SimpleKey(ks.Root())
    requires DecodeItem(env, ks, vs, e) == Some((s, v))
    ensures Decode(env, vs, e.value) == Some(v)
    ensures e.key.Code() == ks.Code() && KeyWire(env.lib, ks, KStr(s)) == Some(e.key) && TextOfItem(e) == Some(s)
  {
    hide DecodeFields, DecodeField, DecodeList, DecodeEntries, LibOk;
    assert Decode(env, ks, e.key).Some?;
    hide Decode;
    KeyRoundTrip(env, ks, e.key, 1);
    KeyEncodes(env, ks, e.key);
  }

  lemma TextsApart(env: Env, ks: Spec, vs: Spec, es: seq<WItem>)
    requires ReadableEnv(env) && SimpleKey(ks.Root()) && DecodeEntries(env, ks, vs, es).Some?
    ensures KeysApart(env.lib, ks, Rekeyed(DecodeEntries(env, ks, vs, es).value).Keys)
  {
    SimpleKeyScalar(ks.Root());
    hide Decode, DecodeEntries, Encode, ReadableEnv, SimpleKey, ScalarSpec, KeyWire, TextOfItem;
    var m := DecodeEntries(env, ks, vs, es).value;
    forall j, k | j in Rekeyed(m).Keys && k in Rekeyed(m).Keys && KeyWire(env.lib, ks, j) == KeyWire(env.lib, ks, k)
      ensures j == k
    {
      var a := DecodeEntriesAt(env, ks, vs, es, j.s);
      var b := DecodeEntriesAt(env, ks, vs, es, k.s);
      DecodedKey(env, ks, vs, es[a], j.s, m[j.s]);
      DecodedKey(env, ks, vs, es[b], k.s, m[k.s]);
      SameKeySameText(es[a], es[b]);
    }
  }

  lemma SimpleKeyScalar(root: Spec)
    requires SimpleKey(root)
    ensures ScalarSpec(root)
  {
  }

  lemma SameKeySameText(a: WItem, b: WItem)
    requires a.key == b.key
    ensures TextOfItem(a) == TextOfItem(b)
  {
  }

  lemma {:induction false} DecodeTidy(env: Env, spec: Spec, w: Wire)
    requires LinkedEnv(env) && Readable(env.lib, spec) && Decode(env, spec, w).Some?
    ensures Tidy(env, spec, Decode(env, spec, w).value)
    decreases w, 2
  {
    ReadableRoot(env.lib, spec);
    DecodedKind(env, spec, w);
    hide Decode, LinkedEnv, Readable, Spec.Code, Wire.Code;
    if w.WStruct? {
      DecodeStructTidy(env, spec, w);
    } else if w.WList? || w.WSet? {
      DecodeListTidy(env, spec, w);
    } else if w.WMap? {
      DecodeMapTidy(env, spec, w);
    }
  }

  lemma DecodedKind(env: Env, spec: Spec, w: Wire)
    requires Decode(env, spec, w).Some?
    ensures spec.Code() == w.Code()
    ensures w.WStruct? <==> spec.Root().StructSpec?
    ensures w.WList? <==> spec.Root().ListSpec?
    ensures w.WSet? <==> spec.Root().SetSpec?
    ensures w.WMap? <==> spec.Root().MapSpec?
  {
    assert spec.Code() == w.Code();
    hide Decode;
  }

  lemma {:induction false} DecodeStructTidy(env: Env, spec: Spec, w: Wire)
    requires LinkedEnv(env) && w.WStruct? && spec.Root().StructSpec? && Decode(env, spec, w).Some?
    ensures Tidy(env, spec, Decode(env, spec, w).value)
    decreases w, 1
  {
    DecodedKind(env, spec, w);
    DecodeOfStruct(env, spec, w);
    hide Decode, DecodeFields, LinkedEnv, Tidy, TidyFields, Spec.Code, Wire.Code;
    var name := spec.Root().structName;
    var g := env.Def(name).fields;
    assert w.fields[..|w.fields|] == w.fields;
    DecodeFieldsTidy(env, name, w, |w.fields|);
    var m := DecodeFields(env, g, w.fields).value;
    DefaultsTidy(env, name, g, m);
    TidyStruct(env, spec, WithDefaults(g, m).value);
  }

  lemma {:induction false} DecodeFieldsTidy(env: Env, name: string, w: Wire, k: nat)
    requires LinkedEnv(env) && w.WStruct? && k <= |w.fields|
    requires DecodeFields(env, env.Def(name).fields, w.fields[..k]).Some?
    ensures TidyFields(env, env.Def(name).fields, DecodeFields(env, env.Def(name).fields, w.fields[..k]).value)
    decreases w, 0, k
  {
    var g := env.Def(name).fields;
    if k == 0 {
      NoFieldsDecode(env, g);
    } else {
      var pre, f := w.fields[..k - 1], w.fields[k - 1];
      assert pre + [f] == w.fields[..k];
      DecodeFieldsStep(env, g, pre, f);
      DecodeFieldsTidy(env, name, w, k - 1);
      if FieldByID(g, f.id).Some? {
        var fs := FieldByID(g, f.id).value;
        LinkedField(env, name, fs);
        DecodeTidy(env, fs.ty, f.value);
        TidyFieldsPut(env, g, DecodeFields(env, g, pre).value, fs, Decode(env, fs.ty, f.value).value);
      }
    }
    hide Decode, DecodeFields, LinkedEnv, Tidy, TidyFields, FieldByID;
  }

  lemma NoFieldsDecode(env: Env, g: seq<FieldSpec>)
    ensures DecodeFields(env, g, []) == Some(map[]) && TidyFields(env, g, map[])
  {
  }

  lemma {:induction false} DecodeListTidy(env: Env, spec: Spec, w: Wire)
    requires LinkedEnv(env) && Readable(env.lib, spec.Root()) && Decode(env, spec, w).Some?
    requires (w.WList? && spec.Root().ListSpec?) || (w.WSet? && spec.Root().SetSpec?)
    ensures Tidy(env, spec, Decode(env, spec, w).value)
    decreases w, 1
  {
    DecodedKind(env, spec, w);
    DecodeOfList(env, spec, w);
    hide Decode, DecodeList, LinkedEnv, Spec.Code, Wire.Code;
    forall i | 0 <= i < |w.items|
      ensures Tidy(env, spec.Root().elem, DecodeList(env, spec.Root().elem, w.items).value[i])
    {
      DecodeListAt(env, spec.Root().elem, w.items, i);
      DecodeTidy(env, spec.Root().elem, w.items[i]);
    }
  }

  lemma {:induction false} DecodeMapTidy(env: Env, spec: Spec, w: Wire)
    requires LinkedEnv(env) && Readable(env.lib, spec.Root()) && Decode(env, spec, w).Some?
    requires w.WMap? && spec.Root().MapSpec?
    ensures Tidy(env, spec, Decode(env, spec, w).value)
    decreases w, 1
  {
    DecodedKind(env, spec, w);
    DecodeOfMap(env, spec, w);
    assert ReadableEnv(env);
    hide Decode, DecodeEntries, LinkedEnv, Spec.Code, Wire.Code, ReadableEnv, KeysApart, SimpleKey;
    var ks, vs := spec.Root().key, spec.Root().value;
    var m := DecodeEntries(env, ks, vs, w.entries).value;
    TextsApart(env, ks, vs, w.entries);
    forall s | s in m ensures Tidy(env, vs, m[s]) {
      var i := DecodeEntriesAt(env, ks, vs, w.entries, s);
      DecodedKey(env, ks, vs, w.entries[i], s, m[s]);
      DecodeTidy(env, vs, w.entries[i].value);
    }
  }
}

/** What default constants mean. */
module ThriftDefaults {
  // The meaning of a constant at a type, stated on the constant itself, and that this is what is sent and shown
  // of a field that is not set. Constants are linked: each has the shape of its type, as the Thrift compiler
  // makes sure.

  import opened Option
  import opened Values
  import opened ThriftSpec
  import opened ThriftFields
  import opened ThriftScalars
  import opened ThriftEncode
  import opened ThriftDecode
  import opened ThriftRuns
  import opened ThriftResults
  import opened ThriftAgreement
  import opened ThriftClash
  import opened ThriftContents
  import opened ThriftReadings
  import ThriftShown
  import ThriftTidy
  import ThriftFieldLoops
  import ThriftStructs

  // ---- Linked constants

  predicate ScalarLinked(root: Spec, c: Const) {
    match root
    case BoolSpec => c.ConstBool?
    case DoubleSpec => c.ConstDouble? || c.ConstInt?
    case StringSpec => c.ConstString?
    case BinarySpec => c.ConstString?
    case EnumSpec(_, _) => c.ConstEnumItem? || c.ConstInt?
    case I8Spec => c.ConstInt?
    case I16Spec => c.ConstInt?
    case I32Spec => c.ConstInt?
    case I64Spec => c.ConstInt?
    case _ => false
  }

  /** A key is a boolean, an integer, an enum item or a string. */
  predicate KeyLinked(root: Spec, c: Const)
    decreases c
  {
    if c.ConstReference? then KeyLinked(root, c.target)
    else ScalarLinked(root, c) && !root.DoubleSpec? && (root.EnumSpec? ==> c.ConstEnumItem?)
  }

  /** The constant has the shape of the type. */
  ghost predicate Linked(env: Env, spec: Spec, c: Const)
    decreases c
  {
    if c.ConstReference? then Linked(env, spec, c.target)
    else
      match spec.Root()
      case StructSpec(name) =>
        var g := env.Def(name).fields;
        c.ConstStruct? && forall n | n in c.fields :: n in Names(g) && Linked(env, FieldOf(g, n).ty, c.fields[n])
      case ListSpec(e) => c.ConstList? && forall i | 0 <= i < |c.items| :: Linked(env, e, c.items[i])
      case SetSpec(e) => c.ConstSet? && forall i | 0 <= i < |c.items| :: Linked(env, e, c.items[i])
      case MapSpec(k, t) =>
        c.ConstMap? && forall i | 0 <= i < |c.entries| ::
            KeyLinked(k.Root(), c.entries[i].key) && Linked(env, t, c.entries[i].value)
      case _ => ScalarLinked(spec.Root(), c)
  }

  ghost predicate DefaultsLinked(env: Env) {
    forall name, f | f in env.Def(name).fields && f.default.Some? :: Linked(env, f.ty, f.default.value)
  }

  // ---- Their meaning

  predicate ScalarMeans(lib: Lib, root: Spec, c: Const, w: Wire) {
    match (root, c)
    case (BoolSpec, ConstBool(b)) => w == WBool(b)
    case (I8Spec, ConstInt(n)) => -0x80 <= n < 0x80 && w == WI8(n)
    case (I16Spec, ConstInt(n)) => -0x8000 <= n < 0x8000 && w == WI16(n)
    case (I32Spec, ConstInt(n)) => -0x8000_0000 <= n < 0x8000_0000 && w == WI32(n)
    case (I64Spec, ConstInt(n)) => w == WI64(n)
    case (DoubleSpec, ConstDouble(d)) => w == WDouble(d)
    case (DoubleSpec, ConstInt(n)) => w == WDouble(lib.toDouble(n))
    case (StringSpec, ConstString(s)) => w == WBinary(s)
    case (BinarySpec, ConstString(s)) => w == WBinary(s)
    case (EnumSpec(_, _), ConstEnumItem(n)) => w == WI32(n)
    case (EnumSpec(_, _), ConstInt(n)) => -0x8000_0000 <= n < 0x8000_0000 && w == WI32(n)
    case _ => false
  }

  /** No later entry has the key of entry i. */
  predicate LastOfKey(keys: seq<Meaning>, i: nat) {
    i < |keys| && forall j | i < j < |keys| :: keys[j] != keys[i]
  }

  /** The constant means m at this type; depth bounds the nesting of what it and defaults contain. */
  ghost predicate Means(env: Env, depth: nat, spec: Spec, c: Const, m: Meaning)
    decreases depth, 1, c
  {
    if c.ConstReference? then Means(env, depth, spec, c.target, m)
    else if depth == 0 then false
    else
      match spec.Root()
      case StructSpec(name) =>
        && c.ConstStruct? && m.MStruct?
        && (forall f | f in env.Def(name).fields :: FieldMeans(env, depth - 1, f, c.fields, m.fields))
        && (forall id | id in m.fields :: exists f :: f in env.Def(name).fields && f.id == id)
        && (env.Def(name).isUnion ==> |m.fields| == 1)
      case ListSpec(e) =>
        && c.ConstList? && m.MList? && m.elemType == e.Code()
        && ItemsMean(env, depth - 1, e, c.items, m.items)
      case SetSpec(e) =>
        && c.ConstSet? && m.MSet? && m.elemType == e.Code()
        && ItemsMean(env, depth - 1, e, c.items, m.items)
      case MapSpec(k, t) =>
        && c.ConstMap? && m.MMap? && m.keyType == k.Code() && m.valueType == t.Code()
        && MapMeans(env, depth - 1, k, t, c.entries, m.entries)
      case _ => m.MScalar? && ScalarMeans(env.lib, spec.Root(), c, m.w)
  }

  /** A field that the constant does not give has its default. */
  ghost predicate FieldMeans(env: Env, depth: nat, f: FieldSpec, given: map<string, Const>, fs: map<I16, Meaning>)
    decreases depth, 2
  {
    if f.name in given then f.id in fs && Means(env, depth, f.ty, given[f.name], fs[f.id])
    else if f.default.Some? then f.id in fs && Means(env, depth, f.ty, f.default.value, fs[f.id])
    else !f.required && f.id !in fs
  }

  ghost predicate ItemsMean(env: Env, depth: nat, elem: Spec, cs: seq<Const>, ms: seq<Meaning>)
    decreases depth, 2
  {
    |ms| == |cs| && forall i | 0 <= i < |cs| :: Means(env, depth, elem, cs[i], ms[i])
  }

  ghost predicate MapMeans(env: Env, depth: nat, ks: Spec, vs: Spec, es: seq<ConstEntry>, items: Items)
    decreases depth, 3
  {
    exists keys, values :: EntriesMean(env, depth, ks, vs, es, keys, values, items)
  }

  /** One item for each key, with the value of its last entry. */
  ghost predicate EntriesMean(env: Env, depth: nat, ks: Spec, vs: Spec, es: seq<ConstEntry>, keys: seq<Meaning>,
                              values: seq<Meaning>, items: Items)
    decreases depth, 2
  {
    && |keys| == |values| == |es|
    && (forall i | 0 <= i < |es| :: Means(env, depth, ks, es[i].key, keys[i]))
    && (forall i: nat | LastOfKey(keys, i) :: Means(env, depth, vs, es[i].value, values[i]))
    && forall p :: items[p] == if exists i: nat :: LastOfKey(keys, i) && p == (keys[i], values[i]) then 1 else 0
  }

  // ---- Unfolding

  lemma MeansNothing(env: Env, spec: Spec, c: Const, m: Meaning)
    requires !c.ConstReference?
    ensures !Means(env, 0, spec, c, m)
  {
  }

  lemma MeansOfStruct(env: Env, depth: nat, spec: Spec, c: Const, m: Meaning)
    requires depth > 0 && spec.Root().StructSpec? && c.ConstStruct?
    ensures var def := env.Def(spec.Root().structName);
            Means(env, depth, spec, c, m) <==>
              && m.MStruct?
              && (forall f | f in def.fields :: FieldMeans(env, depth - 1, f, c.fields, m.fields))
              && (forall id | id in m.fields :: exists f :: f in def.fields && f.id == id)
              && (def.isUnion ==> |m.fields| == 1)
  {
    hide FieldMeans, ItemsMean, MapMeans, ScalarMeans;
  }

  lemma MeansOfList(env: Env, depth: nat, spec: Spec, c: Const, m: Meaning)
    requires depth > 0 && ((spec.Root().ListSpec? && c.ConstList?) || (spec.Root().SetSpec? && c.ConstSet?))
    ensures Means(env, depth, spec, c, m) <==>
            && (if spec.Root().SetSpec? then m.MSet? else m.MList?) && m.elemType == spec.Root().elem.Code()
            && ItemsMean(env, depth - 1, spec.Root().elem, c.items, m.items)
  {
    hide FieldMeans, ItemsMean, MapMeans, ScalarMeans, Spec.Code;
  }

  lemma MeansOfMap(env: Env, depth: nat, spec: Spec, c: Const, m: Meaning)
    requires depth > 0 && spec.Root().MapSpec? && c.ConstMap?
    ensures Means(env, depth, spec, c, m) <==>
            && m.MMap? && m.keyType == spec.Root().key.Code() && m.valueType == spec.Root().value.Code()
            && MapMeans(env, depth - 1, spec.Root().key, spec.Root().value, c.entries, m.entries)
  {
    hide FieldMeans, ItemsMean, MapMeans, ScalarMeans, Spec.Code;
  }

  lemma MeansOfScalar(env: Env, depth: nat, spec: Spec, c: Const, m: Meaning)
    requires depth > 0 && ScalarSpec(spec.Root()) && !c.ConstReference?
    ensures Means(env, depth, spec, c, m) <==> m.MScalar? && ScalarMeans(env.lib, spec.Root(), c, m.w)
  {
    hide FieldMeans, ItemsMean, MapMeans, ScalarMeans;
  }

  // ---- The request value of a linked constant

  lemma {:induction false} RequestItem(cs: seq<Const>)
    requires forall i | 0 <= i < |cs| :: RequestOf(cs[i]).Some?
    ensures RequestList(cs).Some?
    ensures forall i | 0 <= i < |cs| :: RequestList(cs).value[i] == RequestOf(cs[i]).value
  {
    hide RequestOf;
    if cs != [] {
      var n := |cs| - 1;
      assert forall i | 0 <= i < n :: cs[..n][i] == cs[i];
      RequestItem(cs[..n]);
    }
  }

  /** The Go map key of a constant. */
  function KeyOf(c: Const): Key {
    match RequestOf(c)
    case Some(v) => (match HashKey(v) case Some(k) => k case None => KNil)
    case None => KNil
  }

  lemma {:induction false} KeyHashes(root: Spec, c: Const)
    requires KeyLinked(root, c)
    ensures RequestOf(c).Some? && HashKey(RequestOf(c).value) == Some(KeyOf(c))
  {
    if c.ConstReference? { KeyHashes(root, c.target); }
  }

  predicate HasKeyLater(es: seq<ConstEntry>, i: nat) {
    exists j :: i < j < |es| && i < |es| && KeyOf(es[j].key) == KeyOf(es[i].key)
  }

  /** The map has the keys of all entries, each with the value of its last one. */
  ghost predicate Fills(es: seq<ConstEntry>, m: map<Key, Dyn>) {
    && (forall k :: k in m <==> exists i :: 0 <= i < |es| && KeyOf(es[i].key) == k)
    && (forall i: nat | i < |es| && !HasKeyLater(es, i) ::
         KeyOf(es[i].key) in m && RequestOf(es[i].value) == Some(m[KeyOf(es[i].key)]))
  }

  lemma FillsStep(es: seq<ConstEntry>, e: ConstEntry, m: map<Key, Dyn>, v: Dyn)
    requires Fills(es, m) && RequestOf(e.value) == Some(v)
    ensures Fills(es + [e], m[KeyOf(e.key) := v])
  {
    hide KeyOf, RequestOf;
    var all, m' := es + [e], m[KeyOf(e.key) := v];
    assert all[|es|] == e && forall i | 0 <= i < |es| :: all[i] == es[i];
    forall k ensures k in m' <==> exists i :: 0 <= i < |all| && KeyOf(all[i].key) == k {
      if k in m {
        var i :| 0 <= i < |es| && KeyOf(es[i].key) == k;
        assert KeyOf(all[i].key) == k;
      }
      if k == KeyOf(e.key) { assert KeyOf(all[|es|].key) == k; }
    }
    forall i: nat | i < |all| && !HasKeyLater(all, i)
      ensures KeyOf(all[i].key) in m' && RequestOf(all[i].value) == Some(m'[KeyOf(all[i].key)])
    {
      if i < |es| {
        assert KeyOf(all[|es|].key) != KeyOf(all[i].key);
      }
    }
  }

  lemma {:induction false} RequestFills(es: seq<ConstEntry>)
    requires forall i | 0 <= i < |es| :: RequestOf(es[i].value).Some?
    requires forall i | 0 <= i < |es| ::
               RequestOf(es[i].key).Some? && HashKey(RequestOf(es[i].key).value) == Some(KeyOf(es[i].key))
    ensures RequestMap(es).Some? && Fills(es, RequestMap(es).value)
  {
    hide *;
    if es == [] {
      NothingFilled();
    } else {
      var n := |es| - 1;
      var pre, e := es[..n], es[n];
      assert forall i | 0 <= i < n :: pre[i] == es[i];
      RequestFills(pre);
      assert pre + [e] == es;
      RequestMapStep(pre, e);
      FillsStep(pre, e, RequestMap(pre).value, RequestOf(e.value).value);
    }
  }

  lemma NothingFilled()
    ensures RequestMap([]) == Some(map[]) && Fills([], map[])
  {
  }

  lemma RequestMapStep(es: seq<ConstEntry>, e: ConstEntry)
    requires RequestMap(es).Some? && RequestOf(e.value).Some? && RequestOf(e.key).Some?
    requires HashKey(RequestOf(e.key).value) == Some(KeyOf(e.key))
    ensures RequestMap(es + [e]) == Some(RequestMap(es).value[KeyOf(e.key) := RequestOf(e.value).value])
  {
    hide RequestOf, HashKey, KeyOf;
    assert (es + [e])[..|es|] == es;
  }

  lemma {:induction false} LinkedRequest(env: Env, spec: Spec, c: Const)
    requires Linked(env, spec, c)
    ensures RequestOf(c).Some?
    decreases c
  {
    hide ScalarLinked, KeyLinked;
    if c.ConstReference? {
      LinkedRequest(env, spec, c.target);
    } else {
      match spec.Root()
      case StructSpec(name) =>
        forall n | n in c.fields ensures RequestOf(c.fields[n]).Some? {
          LinkedRequest(env, FieldOf(env.Def(name).fields, n).ty, c.fields[n]);
        }
      case ListSpec(e) =>
        forall i | 0 <= i < |c.items| ensures RequestOf(c.items[i]).Some? { LinkedRequest(env, e, c.items[i]); }
        RequestItem(c.items);
      case SetSpec(e) =>
        forall i | 0 <= i < |c.items| ensures RequestOf(c.items[i]).Some? { LinkedRequest(env, e, c.items[i]); }
        RequestItem(c.items);
      case MapSpec(k, t) =>
        forall i | 0 <= i < |c.entries|
          ensures RequestOf(c.entries[i].value).Some? && RequestOf(c.entries[i].key).Some?
          ensures HashKey(RequestOf(c.entries[i].key).value) == Some(KeyOf(c.entries[i].key))
        {
          LinkedRequest(env, t, c.entries[i].value);
          KeyHashes(k.Root(), c.entries[i].key);
        }
        RequestFills(c.entries);
      case _ => ScalarRequest(spec.Root(), c);
    }
  }

  lemma ScalarRequest(root: Spec, c: Const)
    requires ScalarLinked(root, c)
    ensures RequestOf(c).Some?
  {
  }

  // ---- What is sent of a linked constant is what it means

  lemma ScalarSaysConst(lib: Lib, root: Spec, c: Const, w: Wire)
    requires ScalarLinked(root, c)
    ensures RequestOf(c).Some? && (Says(lib, root, RequestOf(c).value, w) <==> ScalarMeans(lib, root, c, w))
  {
    hide SaysEnum, SaysBytes, AnyCase, TrueText, FalseText;
    if c.ConstString? && w.WBinary? { TextSays(lib, c.s, w.bytes); }
    if root.EnumSpec? && w.WI32? { NumberForEnum(lib.fold, root.enumName, root.items, RequestOf(c).value, w.i32); }
  }

  lemma TextSays(lib: Lib, s: string, bytes: string)
    ensures SaysBytes(lib, Str(s), bytes) <==> bytes == s
  {
  }

  lemma NumberForEnum(fold: string -> string, enumName: string, items: seq<EnumItem>, v: Dyn, n: I32)
    requires v.Int?
    ensures SaysEnum(fold, enumName, items, v, n) <==> SaysInt(v, 32, n)
  {
  }

  lemma LinkedIsScalar(root: Spec, c: Const)
    requires ScalarLinked(root, c)
    ensures ScalarSpec(root) || root.TypedefSpec?
  {
  }

  lemma ScalarGives(env: Env, depth: nat, spec: Spec, c: Const, m: Meaning)
    requires depth > 0 && ScalarLinked(spec.Root(), c) && !c.ConstReference?
    ensures RequestOf(c).Some?
    ensures Gives(env, depth, spec, RequestOf(c).value, m) <==> Means(env, depth, spec, c, m)
  {
    hide Gives, Means, Says, ScalarMeans, ScalarLinked, EncodeScalar, RequestOf;
    LinkedIsScalar(spec.Root(), c);
    MeansOfScalar(env, depth, spec, c, m);
    ScalarSaysConst(env.lib, spec.Root(), c, WBool(true));
    var v := RequestOf(c).value;
    GivesOfScalar(env, depth, spec, v, m);
    if m.MScalar? {
      ScalarSaysConst(env.lib, spec.Root(), c, m.w);
      ScalarSays(env.lib, spec.Root(), v, m.w);
    }
  }

  lemma OwnKey(g: seq<FieldSpec>, r: map<string, Dyn>, f: FieldSpec, k: string)
    requires DistinctFields(g) && f in g && (forall n | n in r :: n in Names(g) && !r[n].Nil?)
    ensures GivesField(g, r, f, k) <==> k == f.name && k in r
  {
    hide SameLetters, SpelledApart, Names;
    if k in r { assert FieldOf(g, k) in g && FieldOf(g, k).name == k; }
  }

  lemma OwnKeys(g: seq<FieldSpec>, r: map<string, Dyn>)
    requires forall n | n in r :: n in Names(g)
    ensures forall k | k in r :: exists f :: IsNamedBy(g, f, k)
  {
    hide SameLetters, SpelledApart, Names;
    forall k | k in r ensures exists f :: IsNamedBy(g, f, k) { assert IsNamedBy(g, FieldOf(g, k), k); }
  }

  lemma FieldOfConst(env: Env, depth: nat, g: seq<FieldSpec>, r: map<string, Dyn>, f: FieldSpec,
                     given: map<string, Const>, fs: map<I16, Meaning>)
    requires DistinctFields(g) && f in g && (forall n | n in r :: n in Names(g) && !r[n].Nil?)
    requires r.Keys == given.Keys
    requires f.name in given && f.id in fs ==>
               (Gives(env, depth, f.ty, r[f.name], fs[f.id]) <==> Means(env, depth, f.ty, given[f.name], fs[f.id]))
    requires f.name !in given && f.default.Some? ==> RequestOf(f.default.value).Some?
    requires f.name !in given && f.default.Some? && f.id in fs ==>
               (Gives(env, depth, f.ty, RequestOf(f.default.value).value, fs[f.id]) <==>
                Means(env, depth, f.ty, f.default.value, fs[f.id]))
    ensures FieldSent(env, depth, g, r, f, fs) <==> FieldMeans(env, depth, f, given, fs)
  {
    hide Gives, Means, RequestOf, IsNamedBy, Names;
    assert f.name in given <==> f.name in r;
    forall k ensures GivesField(g, r, f, k) <==> k == f.name && k in r { OwnKey(g, r, f, k); }
    hide GivesField;
    if f.name in r { assert IsGiven(g, r, f); }
  }

  lemma {:induction false} FieldConst(env: Env, depth: nat, spec: Spec, c: Const, r: map<string, Dyn>, f: FieldSpec,
                                      fs: map<I16, Meaning>)
    requires DefaultsLinked(env) && Linked(env, spec, c) && !c.ConstReference? && spec.Root().StructSpec? && depth > 0
    requires RequestOf(c) == Some(StrMap(r)) && f in env.Def(spec.Root().structName).fields
    ensures c.ConstStruct?
    ensures FieldSent(env, depth - 1, env.Def(spec.Root().structName).fields, r, f, fs) <==>
            FieldMeans(env, depth - 1, f, c.fields, fs)
    decreases depth, 0, c
  {
    hide *;
    LinkedStruct(env, spec, c);
    if f.name in c.fields {
      LinkedMember(env, spec, c, f);
      if f.id in fs { ConstGives(env, depth - 1, f.ty, c.fields[f.name], fs[f.id]); }
    } else if f.default.Some? {
      LinkedDefault(env, spec.Root().structName, f);
      if f.id in fs { ConstGives(env, depth - 1, f.ty, f.default.value, fs[f.id]); }
    }
    DistinctInDef(env, spec.Root().structName);
    FieldOfConst(env, depth - 1, env.Def(spec.Root().structName).fields, r, f, c.fields, fs);
  }

  lemma DistinctInDef(env: Env, name: string)
    ensures DistinctFields(env.Def(name).fields)
  {
  }

  lemma {:induction false} StructConst(env: Env, depth: nat, spec: Spec, c: Const, m: Meaning)
    requires DefaultsLinked(env) && Linked(env, spec, c) && !c.ConstReference? && spec.Root().StructSpec? && depth > 0
    ensures RequestOf(c).Some?
    ensures Gives(env, depth, spec, RequestOf(c).value, m) <==> Means(env, depth, spec, c, m)
    decreases depth, 1, c
  {
    LinkedRequest(env, spec, c);
    LinkedStruct(env, spec, c);
    hide *;
    var def := env.Def(spec.Root().structName);
    var r := RequestOf(c).value.fields;
    if m.MStruct? {
      forall f | f in def.fields
        ensures FieldSent(env, depth - 1, def.fields, r, f, m.fields) <==>
                FieldMeans(env, depth - 1, f, c.fields, m.fields)
      {
        FieldConst(env, depth, spec, c, r, f, m.fields);
      }
    }
    StructAgrees(env, depth, spec, c, r, m);
  }

  lemma StructAgrees(env: Env, depth: nat, spec: Spec, c: Const, r: map<string, Dyn>, m: Meaning)
    requires depth > 0 && spec.Root().StructSpec? && c.ConstStruct? && RequestOf(c) == Some(StrMap(r))
    requires forall n | n in r :: n in Names(env.Def(spec.Root().structName).fields)
    requires m.MStruct? ==> forall f | f in env.Def(spec.Root().structName).fields ::
               FieldSent(env, depth - 1, env.Def(spec.Root().structName).fields, r, f, m.fields) <==>
               FieldMeans(env, depth - 1, f, c.fields, m.fields)
    ensures Gives(env, depth, spec, RequestOf(c).value, m) <==> Means(env, depth, spec, c, m)
  {
    hide Gives, Means, StructSent, FieldSent, FieldMeans, RequestOf, Names, IsNamedBy;
    var def := env.Def(spec.Root().structName);
    GivesOfStruct(env, depth, spec, StrMap(r), m);
    StructIs(env, depth - 1, def, r, m);
    MeansOfStruct(env, depth, spec, c, m);
    OwnKeys(def.fields, r);
    if m.MStruct? { SentIs(env, depth - 1, def, r, m.fields); }
  }

  lemma SentIs(env: Env, depth: nat, def: StructDef, request: map<string, Dyn>, fs: map<I16, Meaning>)
    ensures StructSent(env, depth, def, request, fs) <==>
            && (forall k | k in request :: exists f :: IsNamedBy(def.fields, f, k))
            && (forall f | f in def.fields :: FieldSent(env, depth, def.fields, request, f, fs))
            && (forall id | id in fs :: exists f :: f in def.fields && f.id == id)
            && (def.isUnion ==> |fs| == 1)
  {
    hide FieldSent, IsNamedBy;
  }

  lemma LinkedStruct(env: Env, spec: Spec, c: Const)
    requires Linked(env, spec, c) && !c.ConstReference? && spec.Root().StructSpec? && RequestOf(c).Some?
    ensures c.ConstStruct? && RequestOf(c).value.StrMap? && RequestOf(c).value.fields.Keys == c.fields.Keys
    ensures forall n | n in c.fields ::
              && n in Names(env.Def(spec.Root().structName).fields) && RequestOf(c.fields[n]).Some?
              && n in RequestOf(c).value.fields && RequestOf(c).value.fields[n] == RequestOf(c.fields[n]).value
              && !RequestOf(c).value.fields[n].Nil?
  {
  }

  lemma LinkedMember(env: Env, spec: Spec, c: Const, f: FieldSpec)
    requires Linked(env, spec, c) && c.ConstStruct? && spec.Root().StructSpec?
    requires f in env.Def(spec.Root().structName).fields && f.name in c.fields
    ensures Linked(env, f.ty, c.fields[f.name])
  {
    NameInjective(env.Def(spec.Root().structName).fields, f, FieldOf(env.Def(spec.Root().structName).fields, f.name));
  }

  lemma LinkedDefault(env: Env, name: string, f: FieldSpec)
    requires DefaultsLinked(env) && f in env.Def(name).fields && f.default.Some?
    ensures Linked(env, f.ty, f.default.value) && RequestOf(f.default.value).Some?
  {
    hide Linked, RequestOf;
    LinkedRequest(env, f.ty, f.default.value);
  }

  lemma {:induction false} ListConst(env: Env, depth: nat, spec: Spec, c: Const, m: Meaning)
    requires DefaultsLinked(env) && Linked(env, spec, c) && !c.ConstReference? && depth > 0
    requires spec.Root().ListSpec? || spec.Root().SetSpec?
    ensures RequestOf(c).Some?
    ensures Gives(env, depth, spec, RequestOf(c).value, m) <==> Means(env, depth, spec, c, m)
    decreases depth, 0, c
  {
    hide Gives, Means, ItemsSent, ItemsMean;
    LinkedRequest(env, spec, c);
    LinkedList(env, spec, c);
    var elem := spec.Root().elem;
    var vs := RequestOf(c).value.items;
    ListIsSent(env, depth, spec, List(vs), m);
    MeansOfList(env, depth, spec, c, m);
    if (m.MList? || m.MSet?) && |m.items| == |c.items| {
      forall i | 0 <= i < |c.items|
        ensures Gives(env, depth - 1, elem, vs[i], m.items[i]) <==> Means(env, depth - 1, elem, c.items[i], m.items[i])
      {
        LinkedItem(env, spec, c, i);
        ConstGives(env, depth - 1, elem, c.items[i], m.items[i]);
      }
    }
    if m.MList? || m.MSet? { ItemsAlike(env, depth - 1, elem, c.items, vs, m.items); }
  }

  lemma ItemsAlike(env: Env, depth: nat, elem: Spec, cs: seq<Const>, vs: seq<Dyn>, ms: seq<Meaning>)
    requires |vs| == |cs|
    requires |ms| == |cs| ==> forall i | 0 <= i < |cs| ::
               Gives(env, depth, elem, vs[i], ms[i]) <==> Means(env, depth, elem, cs[i], ms[i])
    ensures ItemsSent(env, depth, elem, vs, ms) <==> ItemsMean(env, depth, elem, cs, ms)
  {
    hide Gives, Means;
  }

  lemma LinkedList(env: Env, spec: Spec, c: Const)
    requires Linked(env, spec, c) && !c.ConstReference? && (spec.Root().ListSpec? || spec.Root().SetSpec?)
    requires RequestOf(c).Some?
    ensures if spec.Root().ListSpec? then c.ConstList? else c.ConstSet?
    ensures RequestOf(c).value.List? && RequestList(c.items) == Some(RequestOf(c).value.items)
  {
  }

  lemma LinkedItem(env: Env, spec: Spec, c: Const, i: nat)
    requires Linked(env, spec, c) && (c.ConstList? || c.ConstSet?) && (spec.Root().ListSpec? || spec.Root().SetSpec?)
    requires RequestList(c.items).Some? && i < |c.items|
    ensures Linked(env, spec.Root().elem, c.items[i])
    ensures RequestOf(c.items[i]) == Some(RequestList(c.items).value[i])
  {
    hide RequestOf, RequestList;
    ThriftTidy.RequestListAt(c.items, i);
  }

  lemma {:induction false} ConstGives(env: Env, depth: nat, spec: Spec, c: Const, m: Meaning)
    requires DefaultsLinked(env) && Linked(env, spec, c)
    ensures RequestOf(c).Some?
    ensures Gives(env, depth, spec, RequestOf(c).value, m) <==> Means(env, depth, spec, c, m)
    decreases depth, 2, c
  {
    hide Gives, DefaultsLinked;
    LinkedRequest(env, spec, c);
    if c.ConstReference? {
      ConstGives(env, depth, spec, c.target, m);
    } else if depth == 0 {
      GivesNothing(env, spec, RequestOf(c).value, m);
      MeansNothing(env, spec, c, m);
    } else {
      hide Means;
      match spec.Root()
      case StructSpec(_) => StructConst(env, depth, spec, c, m);
      case ListSpec(_) => ListConst(env, depth, spec, c, m);
      case SetSpec(_) => ListConst(env, depth, spec, c, m);
      case MapSpec(_, _) => MapConst(env, depth, spec, c, m);
      case _ => ScalarGives(env, depth, spec, c, m);
    }
  }

  // ---- Map constants

  /** A key constant and the key of the request have one meaning. */
  lemma {:induction false} KeyConst(env: Env, depth: nat, ks: Spec, c: Const, a: Meaning)
    requires KeyLinked(ks.Root(), c)
    ensures Means(env, depth, ks, c, a) <==>
            exists d :: KeyReadsAs(env.lib, ks, KeyOf(c), d) && Gives(env, depth, ks, d, a)
    decreases c
  {
    hide Gives;
    if c.ConstReference? {
      KeyConst(env, depth, ks, c.target, a);
    } else {
      hide Means;
      KeyHashes(ks.Root(), c);
      KeyIsItself(env.lib, ks, c);
      var v := RequestOf(c).value;
      if depth == 0 {
        MeansNothing(env, ks, c, a);
        GivesNothing(env, ks, v, a);
      } else {
        ScalarGives(env, depth, ks, c, a);
      }
      forall d | KeyReadsAs(env.lib, ks, KeyOf(c), d) ensures d == v { }
    }
  }

  lemma KeyIsItself(lib: Lib, ks: Spec, c: Const)
    requires KeyLinked(ks.Root(), c) && !c.ConstReference?
    ensures RequestOf(c).Some?
    ensures forall d :: KeyReadsAs(lib, ks, KeyOf(c), d) <==> d == RequestOf(c).value
  {
  }

  /** Different keys have different meanings. */
  lemma {:induction false} KeysDiffer(env: Env, depth: nat, ks: Spec, a: Const, b: Const, m: Meaning, n: Meaning)
    requires KeyLinked(ks.Root(), a) && KeyLinked(ks.Root(), b)
    requires Means(env, depth, ks, a, m) && Means(env, depth, ks, b, n)
    ensures m == n <==> KeyOf(a) == KeyOf(b)
    decreases a, b
  {
    if a.ConstReference? {
      KeysDiffer(env, depth, ks, a.target, b, m, n);
    } else if b.ConstReference? {
      KeysDiffer(env, depth, ks, a, b.target, m, n);
    } else {
      hide Means;
      if depth == 0 {
        MeansNothing(env, ks, a, m);
      } else {
        LinkedIsScalar(ks.Root(), a);
        MeansOfScalar(env, depth, ks, a, m);
        MeansOfScalar(env, depth, ks, b, n);
      }
    }
  }

  /** The meanings tell the keys of the entries apart. */
  predicate TellApart(es: seq<ConstEntry>, keys: seq<Meaning>) {
    && |keys| == |es|
    && forall i, j | 0 <= i < |es| && 0 <= j < |es| :: keys[i] == keys[j] <==> KeyOf(es[i].key) == KeyOf(es[j].key)
  }

  lemma LastIff(es: seq<ConstEntry>, keys: seq<Meaning>, i: nat)
    requires TellApart(es, keys) && i < |es|
    ensures LastOfKey(keys, i) <==> !HasKeyLater(es, i)
  {
    hide KeyOf;
    if HasKeyLater(es, i) {
      var j :| i < j < |es| && KeyOf(es[j].key) == KeyOf(es[i].key);
      assert keys[j] == keys[i];
    }
  }

  lemma {:induction false} LastEntry(es: seq<ConstEntry>, n: nat, k: Key) returns (i: nat)
    requires n <= |es| && exists j :: 0 <= j < n && KeyOf(es[j].key) == k
    ensures i < n && KeyOf(es[i].key) == k && forall j | i < j < n :: KeyOf(es[j].key) != k
  {
    hide KeyOf;
    i := n - 1;
    if KeyOf(es[i].key) != k { i := LastEntry(es, n - 1, k); }
  }

  lemma LastOfAll(es: seq<ConstEntry>, k: Key) returns (i: nat)
    requires exists j :: 0 <= j < |es| && KeyOf(es[j].key) == k
    ensures i < |es| && KeyOf(es[i].key) == k && !HasKeyLater(es, i)
  {
    hide KeyOf;
    i := LastEntry(es, |es|, k);
  }

  /** The pairs that the request map has are those of the last entries. */
  ghost predicate PairsOf(es: seq<ConstEntry>, keys: seq<Meaning>, values: seq<Meaning>,
                          pairs: map<Key, (Meaning, Meaning)>)
  {
    && |keys| == |values| == |es|
    && (forall k :: k in pairs <==> exists i :: 0 <= i < |es| && KeyOf(es[i].key) == k)
    && forall i: nat | i < |es| && !HasKeyLater(es, i) ::
         KeyOf(es[i].key) in pairs && pairs[KeyOf(es[i].key)] == (keys[i], values[i])
  }

  lemma PairOf(es: seq<ConstEntry>, keys: seq<Meaning>, values: seq<Meaning>, pairs: map<Key, (Meaning, Meaning)>,
               k: Key) returns (i: nat)
    requires PairsOf(es, keys, values, pairs) && k in pairs
    ensures i < |es| && KeyOf(es[i].key) == k && !HasKeyLater(es, i) && pairs[k] == (keys[i], values[i])
  {
    hide KeyOf, HasKeyLater;
    i := LastOfAll(es, k);
  }

  lemma OneOfEach(es: seq<ConstEntry>, keys: seq<Meaning>, values: seq<Meaning>, pairs: map<Key, (Meaning, Meaning)>,
                  p: (Meaning, Meaning))
    requires TellApart(es, keys) && PairsOf(es, keys, values, pairs)
    ensures |KeysOf(pairs, p)| == if exists i: nat :: LastOfKey(keys, i) && p == (keys[i], values[i]) then 1 else 0
  {
    assert |keys| == |values| == |es|;
    hide KeyOf, HasKeyLater, PairsOf, TellApart;
    if i: nat :| LastOfKey(keys, i) && p == (keys[i], values[i]) {
      ItsKey(es, keys, values, pairs, i);
      assert KeysOf(pairs, p) == {KeyOf(es[i].key)} by {
        forall k | k in KeysOf(pairs, p) ensures k == KeyOf(es[i].key) {
          var j := PairOf(es, keys, values, pairs, k);
          SameKey(es, keys, i, j);
        }
      }
    } else {
      forall k | k in pairs ensures pairs[k] != p {
        var j := PairOf(es, keys, values, pairs, k);
        LastIff2(es, keys, j);
      }
      assert KeysOf(pairs, p) == {};
    }
  }

  lemma LastIff2(es: seq<ConstEntry>, keys: seq<Meaning>, i: nat)
    requires TellApart(es, keys) && i < |es| && !HasKeyLater(es, i)
    ensures LastOfKey(keys, i)
  {
    hide KeyOf;
    LastIff(es, keys, i);
  }

  lemma ItsKey(es: seq<ConstEntry>, keys: seq<Meaning>, values: seq<Meaning>, pairs: map<Key, (Meaning, Meaning)>,
               i: nat)
    requires TellApart(es, keys) && PairsOf(es, keys, values, pairs) && LastOfKey(keys, i)
    ensures i < |es| && KeyOf(es[i].key) in pairs && pairs[KeyOf(es[i].key)] == (keys[i], values[i])
  {
    hide KeyOf, HasKeyLater;
    LastIff(es, keys, i);
  }

  lemma SameKey(es: seq<ConstEntry>, keys: seq<Meaning>, i: nat, j: nat)
    requires TellApart(es, keys) && i < |es| && j < |es| && keys[i] == keys[j]
    ensures KeyOf(es[i].key) == KeyOf(es[j].key)
  {
    hide KeyOf;
  }

  /** Every entry is linked. */
  ghost predicate EntriesLinked(env: Env, ks: Spec, vs: Spec, es: seq<ConstEntry>) {
    forall i | 0 <= i < |es| :: KeyLinked(ks.Root(), es[i].key) && Linked(env, vs, es[i].value)
  }

  /** The value of each entry is sent as what it means. */
  ghost predicate ValuesAgree(env: Env, depth: nat, vs: Spec, es: seq<ConstEntry>) {
    forall i, b | 0 <= i < |es| :: Agrees(env, depth, vs, es[i].value, b)
  }

  ghost predicate Agrees(env: Env, depth: nat, spec: Spec, c: Const, m: Meaning) {
    RequestOf(c).Some? && (Gives(env, depth, spec, RequestOf(c).value, m) <==> Means(env, depth, spec, c, m))
  }

  lemma MeaningsTellApart(env: Env, depth: nat, ks: Spec, vs: Spec, es: seq<ConstEntry>, keys: seq<Meaning>)
    requires EntriesLinked(env, ks, vs, es) && |keys| == |es|
    requires forall i | 0 <= i < |es| :: Means(env, depth, ks, es[i].key, keys[i])
    ensures TellApart(es, keys)
  {
    hide Means, KeyOf, Linked, KeyLinked;
    forall i, j | 0 <= i < |es| && 0 <= j < |es|
      ensures keys[i] == keys[j] <==> KeyOf(es[i].key) == KeyOf(es[j].key)
    {
      KeysDiffer(env, depth, ks, es[i].key, es[j].key, keys[i], keys[j]);
    }
  }

  lemma SentMeans(env: Env, depth: nat, ks: Spec, vs: Spec, es: seq<ConstEntry>, rm: map<Key, Dyn>, items: Items)
    requires EntriesLinked(env, ks, vs, es) && ValuesAgree(env, depth, vs, es) && Fills(es, rm)
    requires EntriesSent(env, depth, ks, vs, rm, items)
    ensures MapMeans(env, depth, ks, vs, es, items)
  {
    hide Means, Gives, KeyOf, Linked, KeyLinked, AllPairs, PairSent, KeyReadsAs, HasKeyLater, LastOfKey, RequestOf,
         Fills, IsBag, KeysOf;
    var pairs: map<Key, (Meaning, Meaning)> :| AllPairs(env, depth, ks, vs, rm, pairs) && IsBag(pairs, items);
    forall i: nat | i < |es| ensures KeyOf(es[i].key) in pairs { EntryPair(env, depth, ks, vs, es, rm, pairs, i); }
    var keys := seq(|es|, i requires 0 <= i < |es| => pairs[KeyOf(es[i].key)].0);
    var values := seq(|es|, i requires 0 <= i < |es| => pairs[KeyOf(es[i].key)].1);
    forall i: nat | i < |es|
      ensures Means(env, depth, ks, es[i].key, keys[i])
      ensures !HasKeyLater(es, i) ==> Means(env, depth, vs, es[i].value, values[i])
    {
      EntryPair(env, depth, ks, vs, es, rm, pairs, i);
    }
    MeaningsTellApart(env, depth, ks, vs, es, keys);
    AllAreEntries(env, depth, ks, vs, es, rm, pairs);
    assert PairsOf(es, keys, values, pairs);
    EntriesMeanFrom(env, depth, ks, vs, es, keys, values, pairs, items);
  }

  lemma EntriesMeanFrom(env: Env, depth: nat, ks: Spec, vs: Spec, es: seq<ConstEntry>, keys: seq<Meaning>,
                        values: seq<Meaning>, pairs: map<Key, (Meaning, Meaning)>, items: Items)
    requires TellApart(es, keys) && PairsOf(es, keys, values, pairs) && IsBag(pairs, items)
    requires forall i: nat | i < |es| :: Means(env, depth, ks, es[i].key, keys[i])
    requires forall i: nat | i < |es| && !HasKeyLater(es, i) :: Means(env, depth, vs, es[i].value, values[i])
    ensures EntriesMean(env, depth, ks, vs, es, keys, values, items)
  {
    hide Means, KeyOf, HasKeyLater, LastOfKey, TellApart, KeysOf;
    assert |keys| == |values| == |es|;
    forall i: nat | LastOfKey(keys, i) ensures i < |es| && !HasKeyLater(es, i) { LastMeans(es, keys, i); }
    forall p ensures items[p] == if exists i: nat :: LastOfKey(keys, i) && p == (keys[i], values[i]) then 1 else 0 {
      OneOfEach(es, keys, values, pairs, p);
      assert items[p] == |KeysOf(pairs, p)|;
    }
  }

  lemma LastMeans(es: seq<ConstEntry>, keys: seq<Meaning>, i: nat)
    requires TellApart(es, keys) && LastOfKey(keys, i)
    ensures i < |es| && !HasKeyLater(es, i)
  {
    hide KeyOf;
    LastIff(es, keys, i);
  }

  lemma EntryPair(env: Env, depth: nat, ks: Spec, vs: Spec, es: seq<ConstEntry>, rm: map<Key, Dyn>,
                  pairs: map<Key, (Meaning, Meaning)>, i: nat)
    requires EntriesLinked(env, ks, vs, es) && ValuesAgree(env, depth, vs, es) && Fills(es, rm)
    requires AllPairs(env, depth, ks, vs, rm, pairs) && i < |es|
    ensures KeyOf(es[i].key) in pairs
    ensures Means(env, depth, ks, es[i].key, pairs[KeyOf(es[i].key)].0)
    ensures !HasKeyLater(es, i) ==> Means(env, depth, vs, es[i].value, pairs[KeyOf(es[i].key)].1)
  {
    hide Means, Gives, KeyOf, Linked, KeyLinked, KeyReadsAs, HasKeyLater, RequestOf;
    var k := KeyOf(es[i].key);
    var j := LastOfAll(es, k);
    NotNil(es, rm, j);
    assert PairSent(env, depth, ks, vs, rm, k, pairs[k]);
    KeyConst(env, depth, ks, es[i].key, pairs[k].0);
    if !HasKeyLater(es, i) {
      NotNil(es, rm, i);
      assert Agrees(env, depth, vs, es[i].value, pairs[k].1);
    }
  }

  lemma NotNil(es: seq<ConstEntry>, rm: map<Key, Dyn>, j: nat)
    requires Fills(es, rm) && j < |es| && !HasKeyLater(es, j)
    ensures KeyOf(es[j].key) in rm && !rm[KeyOf(es[j].key)].Nil?
    ensures RequestOf(es[j].value) == Some(rm[KeyOf(es[j].key)])
  {
    hide KeyOf, HasKeyLater;
  }

  lemma AllAreEntries(env: Env, depth: nat, ks: Spec, vs: Spec, es: seq<ConstEntry>, rm: map<Key, Dyn>,
                      pairs: map<Key, (Meaning, Meaning)>)
    requires Fills(es, rm) && AllPairs(env, depth, ks, vs, rm, pairs)
    requires forall i: nat | i < |es| :: KeyOf(es[i].key) in pairs
    ensures forall k :: k in pairs <==> exists i :: 0 <= i < |es| && KeyOf(es[i].key) == k
  {
    hide KeyOf, HasKeyLater, RequestOf, PairSent;
    forall k ensures k in pairs <==> exists i :: 0 <= i < |es| && KeyOf(es[i].key) == k {
      if k in pairs { assert k in rm; }
      if i :| 0 <= i < |es| && KeyOf(es[i].key) == k { assert k in pairs; }
    }
  }

  ghost function LastPairs(es: seq<ConstEntry>, rm: map<Key, Dyn>, keys: seq<Meaning>, values: seq<Meaning>)
    : map<Key, (Meaning, Meaning)>
    requires Fills(es, rm) && |keys| == |values| == |es|
  {
    map k | k in rm :: (keys[Last(es, k)], values[Last(es, k)])
  }

  lemma LastPairsAre(es: seq<ConstEntry>, rm: map<Key, Dyn>, keys: seq<Meaning>, values: seq<Meaning>)
    requires Fills(es, rm) && |keys| == |values| == |es|
    ensures PairsOf(es, keys, values, LastPairs(es, rm, keys, values))
  {
    hide KeyOf, HasKeyLater, RequestOf;
    var pairs := LastPairs(es, rm, keys, values);
    assert pairs.Keys == rm.Keys;
    assert forall k :: k in pairs <==> k in rm;
    forall i: nat | i < |es| && !HasKeyLater(es, i)
      ensures KeyOf(es[i].key) in pairs && pairs[KeyOf(es[i].key)] == (keys[i], values[i])
    {
      OnlyLast(es, i, Last(es, KeyOf(es[i].key)));
    }
  }

  lemma LastPairSent(env: Env, depth: nat, ks: Spec, vs: Spec, es: seq<ConstEntry>, rm: map<Key, Dyn>,
                     keys: seq<Meaning>, values: seq<Meaning>, items: Items, k: Key)
    requires EntriesLinked(env, ks, vs, es) && ValuesAgree(env, depth, vs, es) && Fills(es, rm) && TellApart(es, keys)
    requires EntriesMean(env, depth, ks, vs, es, keys, values, items) && k in rm
    ensures !rm[k].Nil?
    ensures PairSent(env, depth, ks, vs, rm, k, (keys[Last(es, k)], values[Last(es, k)]))
  {
    hide Means, Gives, KeyOf, Linked, KeyLinked, PairSent, KeyReadsAs, HasKeyLater, LastOfKey, RequestOf, KeysOf,
         TellApart;
    var i := Last(es, k);
    NotNil(es, rm, i);
    LastIff2(es, keys, i);
    KeyConst(env, depth, ks, es[i].key, keys[i]);
    assert Agrees(env, depth, vs, es[i].value, values[i]);
    PairFrom(env, depth, ks, vs, rm, k, (keys[i], values[i]));
  }

  lemma MeansSent(env: Env, depth: nat, ks: Spec, vs: Spec, es: seq<ConstEntry>, rm: map<Key, Dyn>, items: Items)
    requires EntriesLinked(env, ks, vs, es) && ValuesAgree(env, depth, vs, es) && Fills(es, rm)
    requires MapMeans(env, depth, ks, vs, es, items)
    ensures EntriesSent(env, depth, ks, vs, rm, items)
  {
    var keys, values :| EntriesMean(env, depth, ks, vs, es, keys, values, items);
    MeaningsOf(env, depth, ks, vs, es, keys, values, items);
    hide *;
    MeaningsTellApart(env, depth, ks, vs, es, keys);
    var pairs := LastPairs(es, rm, keys, values);
    LastPairsAre(es, rm, keys, values);
    LastPairsAll(env, depth, ks, vs, es, rm, keys, values, items);
    BagOfMeanings(env, depth, ks, vs, es, keys, values, pairs, items);
    PairsAreSent(env, depth, ks, vs, rm, pairs, items);
  }

  lemma PairsAreSent(env: Env, depth: nat, ks: Spec, vs: Spec, rm: map<Key, Dyn>, pairs: map<Key, (Meaning, Meaning)>,
                     items: Items)
    requires AllPairs(env, depth, ks, vs, rm, pairs) && IsBag(pairs, items)
    ensures EntriesSent(env, depth, ks, vs, rm, items)
  {
    hide AllPairs, IsBag;
  }

  lemma MeaningsOf(env: Env, depth: nat, ks: Spec, vs: Spec, es: seq<ConstEntry>, keys: seq<Meaning>,
                   values: seq<Meaning>, items: Items)
    requires EntriesMean(env, depth, ks, vs, es, keys, values, items)
    ensures |keys| == |values| == |es| && forall i | 0 <= i < |es| :: Means(env, depth, ks, es[i].key, keys[i])
  {
    hide Means, LastOfKey;
  }

  lemma LastPairsAll(env: Env, depth: nat, ks: Spec, vs: Spec, es: seq<ConstEntry>, rm: map<Key, Dyn>,
                     keys: seq<Meaning>, values: seq<Meaning>, items: Items)
    requires EntriesLinked(env, ks, vs, es) && ValuesAgree(env, depth, vs, es) && Fills(es, rm) && TellApart(es, keys)
    requires EntriesMean(env, depth, ks, vs, es, keys, values, items) && |keys| == |values| == |es|
    ensures AllPairs(env, depth, ks, vs, rm, LastPairs(es, rm, keys, values))
  {
    hide EntriesLinked, ValuesAgree, TellApart, EntriesMean, PairSent, KeyOf, HasKeyLater, RequestOf;
    forall k | k in rm
      ensures !rm[k].Nil? && PairSent(env, depth, ks, vs, rm, k, LastPairs(es, rm, keys, values)[k])
    {
      LastPairSent(env, depth, ks, vs, es, rm, keys, values, items, k);
    }
  }

  lemma BagOfMeanings(env: Env, depth: nat, ks: Spec, vs: Spec, es: seq<ConstEntry>, keys: seq<Meaning>,
                      values: seq<Meaning>, pairs: map<Key, (Meaning, Meaning)>, items: Items)
    requires TellApart(es, keys) && PairsOf(es, keys, values, pairs)
    requires EntriesMean(env, depth, ks, vs, es, keys, values, items)
    ensures IsBag(pairs, items)
  {
    hide Means, KeyOf, KeysOf, TellApart, PairsOf, LastOfKey;
    forall p ensures items[p] == |KeysOf(pairs, p)| { OneOfEach(es, keys, values, pairs, p); }
  }

  lemma PairFrom(env: Env, depth: nat, ks: Spec, vs: Spec, rm: map<Key, Dyn>, k: Key, p: (Meaning, Meaning))
    requires k in rm && !rm[k].Nil? && Gives(env, depth, vs, rm[k], p.1)
    requires exists d :: KeyReadsAs(env.lib, ks, k, d) && Gives(env, depth, ks, d, p.0)
    ensures PairSent(env, depth, ks, vs, rm, k, p)
  {
    hide Gives, KeyReadsAs;
  }

  lemma OnlyLast(es: seq<ConstEntry>, i: nat, j: nat)
    requires i < |es| && j < |es| && KeyOf(es[i].key) == KeyOf(es[j].key) && !HasKeyLater(es, i) && !HasKeyLater(es, j)
    ensures i == j
  {
    hide KeyOf;
  }

  /** The last entry with the key. */
  ghost function Last(es: seq<ConstEntry>, k: Key): (i: nat)
    requires exists j :: 0 <= j < |es| && KeyOf(es[j].key) == k
    ensures i < |es| && KeyOf(es[i].key) == k && !HasKeyLater(es, i)
  {
    HasLast(es, k);
    var i: nat :| i < |es| && KeyOf(es[i].key) == k && !HasKeyLater(es, i);
    i
  }

  lemma HasLast(es: seq<ConstEntry>, k: Key)
    requires exists j :: 0 <= j < |es| && KeyOf(es[j].key) == k
    ensures exists i: nat :: i < |es| && KeyOf(es[i].key) == k && !HasKeyLater(es, i)
  {
    hide KeyOf, HasKeyLater;
    var i := LastOfAll(es, k);
  }

  lemma LinkedMap(env: Env, spec: Spec, c: Const)
    requires Linked(env, spec, c) && !c.ConstReference? && spec.Root().MapSpec? && RequestOf(c).Some?
    ensures c.ConstMap? && EntriesLinked(env, spec.Root().key, spec.Root().value, c.entries)
    ensures RequestOf(c).value.AnyMap? && RequestMap(c.entries) == Some(RequestOf(c).value.entries)
  {
    hide KeyLinked;
  }

  lemma EntriesFill(env: Env, ks: Spec, vs: Spec, es: seq<ConstEntry>)
    requires EntriesLinked(env, ks, vs, es)
    ensures RequestMap(es).Some? && Fills(es, RequestMap(es).value)
  {
    hide Linked, KeyLinked, RequestOf, Fills, KeyOf;
    forall i | 0 <= i < |es|
      ensures RequestOf(es[i].value).Some? && RequestOf(es[i].key).Some?
      ensures HashKey(RequestOf(es[i].key).value) == Some(KeyOf(es[i].key))
    {
      LinkedRequest(env, vs, es[i].value);
      KeyHashes(ks.Root(), es[i].key);
    }
    RequestFills(es);
  }

  lemma {:induction false} MapConst(env: Env, depth: nat, spec: Spec, c: Const, m: Meaning)
    requires DefaultsLinked(env) && Linked(env, spec, c) && !c.ConstReference? && spec.Root().MapSpec? && depth > 0
    ensures RequestOf(c).Some?
    ensures Gives(env, depth, spec, RequestOf(c).value, m) <==> Means(env, depth, spec, c, m)
    decreases depth, 0, c
  {
    hide Gives, Means, Linked, EntriesLinked, EntriesSent, MapMeans, Fills, RequestOf, Spec.Code, KeyLinked;
    LinkedRequest(env, spec, c);
    LinkedMap(env, spec, c);
    var ks, vs, es := spec.Root().key, spec.Root().value, c.entries;
    var rm := RequestOf(c).value.entries;
    EntriesFill(env, ks, vs, es);
    var d: nat := depth - 1;
    forall i, b | 0 <= i < |es| ensures Agrees(env, d, vs, es[i].value, b) {
      ValueLinked(env, ks, vs, es, i);
      ConstGives(env, d, vs, es[i].value, b);
    }
    MapIsSent(env, depth, spec, AnyMap(rm), m);
    MeansOfMap(env, depth, spec, c, m);
    if m.MMap? {
      if EntriesSent(env, d, ks, vs, rm, m.entries) { SentMeans(env, d, ks, vs, es, rm, m.entries); }
      if MapMeans(env, d, ks, vs, es, m.entries) { MeansSent(env, d, ks, vs, es, rm, m.entries); }
    }
  }

  lemma ValueLinked(env: Env, ks: Spec, vs: Spec, es: seq<ConstEntry>, i: nat)
    requires EntriesLinked(env, ks, vs, es) && i < |es|
    ensures Linked(env, vs, es[i].value)
  {
    hide Linked, KeyLinked;
  }

  // ---- Main results

  /** A constant has no keys that clash. */
  lemma {:induction false} ConstDoesNotClash(env: Env, depth: nat, spec: Spec, c: Const)
    requires DefaultsLinked(env) && Linked(env, spec, c) && RequestOf(c).Some?
    ensures !Clashes(env, depth, spec, RequestOf(c).value)
    decreases depth, 1, c
  {
    hide Clashes, ClashesInStruct, ClashesInItem, ClashesInEntry, DefaultsLinked;
    if c.ConstReference? {
      ConstDoesNotClash(env, depth, spec, c.target);
    } else if Clashes(env, depth, spec, RequestOf(c).value) {
      ClashesWhere(env, depth, spec, RequestOf(c).value);
      match spec.Root()
      case StructSpec(_) => StructDoesNotClash(env, depth, spec, c);
      case ListSpec(_) => ListDoesNotClash(env, depth, spec, c);
      case SetSpec(_) => ListDoesNotClash(env, depth, spec, c);
      case MapSpec(_, _) => MapDoesNotClash(env, depth, spec, c);
    }
  }

  lemma ClashesWhere(env: Env, depth: nat, spec: Spec, v: Dyn)
    requires Clashes(env, depth, spec, v)
    ensures depth > 0
    ensures spec.Root().StructSpec? || spec.Root().ListSpec? || spec.Root().SetSpec? || spec.Root().MapSpec?
    ensures spec.Root().StructSpec? ==>
      && AsStrings(v).Some?
      && ClashesInStruct(env, depth - 1, env.Def(spec.Root().structName).fields, AsStrings(v).value)
    ensures spec.Root().ListSpec? || spec.Root().SetSpec? ==>
      v.List? && ClashesInItem(env, depth - 1, spec.Root().elem, v.items)
    ensures spec.Root().MapSpec? ==>
      && AsEntries(v).Some?
      && ClashesInEntry(env, depth - 1, spec.Root().key, spec.Root().value, AsEntries(v).value)
  {
    hide ClashesInStruct, ClashesInItem, ClashesInEntry, AsStrings, AsEntries;
  }

  lemma {:induction false} ListDoesNotClash(env: Env, depth: nat, spec: Spec, c: Const)
    requires DefaultsLinked(env) && Linked(env, spec, c) && !c.ConstReference? && RequestOf(c).Some? && depth > 0
    requires spec.Root().ListSpec? || spec.Root().SetSpec?
    ensures RequestOf(c).value.List? && !ClashesInItem(env, depth - 1, spec.Root().elem, RequestOf(c).value.items)
    decreases depth, 0, c
  {
    hide Clashes, Linked, RequestOf, RequestList;
    LinkedList(env, spec, c);
    forall i | 0 <= i < |c.items| ensures !Clashes(env, depth - 1, spec.Root().elem, RequestOf(c).value.items[i]) {
      LinkedItem(env, spec, c, i);
      ConstDoesNotClash(env, depth - 1, spec.Root().elem, c.items[i]);
    }
  }

  lemma {:induction false} MapDoesNotClash(env: Env, depth: nat, spec: Spec, c: Const)
    requires DefaultsLinked(env) && Linked(env, spec, c) && !c.ConstReference? && RequestOf(c).Some? && depth > 0
    requires spec.Root().MapSpec?
    ensures RequestOf(c).value.AnyMap?
    ensures !ClashesInEntry(env, depth - 1, spec.Root().key, spec.Root().value, RequestOf(c).value.entries)
    decreases depth, 0, c
  {
    hide Clashes, Linked, RequestOf, Fills, EntriesLinked, KeyOf, ConvertMapKey;
    LinkedMap(env, spec, c);
    var ks, vs, es, rm := spec.Root().key, spec.Root().value, c.entries, RequestOf(c).value.entries;
    EntriesFill(env, ks, vs, es);
    forall k | k in rm
      ensures !Clashes(env, depth - 1, ks, ConvertMapKey(env.lib, ks, k)) && !Clashes(env, depth - 1, vs, rm[k])
    {
      var i := EntryOf(es, rm, k);
      ValueLinked(env, ks, vs, es, i);
      ConstDoesNotClash(env, depth - 1, vs, es[i].value);
      KeyLinkedAt(env, ks, vs, es, i);
      ScalarsDoNotClash(env, depth - 1, ks, es[i].key, ConvertMapKey(env.lib, ks, k));
    }
  }

  lemma EntryOf(es: seq<ConstEntry>, rm: map<Key, Dyn>, k: Key) returns (i: nat)
    requires Fills(es, rm) && k in rm
    ensures i < |es| && KeyOf(es[i].key) == k && RequestOf(es[i].value) == Some(rm[k])
  {
    hide KeyOf, HasKeyLater, RequestOf;
    i := LastOfAll(es, k);
  }

  lemma KeyLinkedAt(env: Env, ks: Spec, vs: Spec, es: seq<ConstEntry>, i: nat)
    requires EntriesLinked(env, ks, vs, es) && i < |es|
    ensures KeyLinked(ks.Root(), es[i].key)
  {
    hide Linked, KeyLinked;
  }

  lemma {:induction false} ScalarsDoNotClash(env: Env, depth: nat, spec: Spec, c: Const, v: Dyn)
    requires KeyLinked(spec.Root(), c)
    ensures !Clashes(env, depth, spec, v)
    decreases c
  {
    hide ClashesInStruct, ClashesInItem, ClashesInEntry;
    if c.ConstReference? { ScalarsDoNotClash(env, depth, spec, c.target, v); }
  }

  lemma {:induction false} StructDoesNotClash(env: Env, depth: nat, spec: Spec, c: Const)
    requires DefaultsLinked(env) && Linked(env, spec, c) && !c.ConstReference? && RequestOf(c).Some? && depth > 0
    requires spec.Root().StructSpec?
    ensures RequestOf(c).value.StrMap?
    ensures !ClashesInStruct(env, depth - 1, env.Def(spec.Root().structName).fields, RequestOf(c).value.fields)
    decreases depth, 0, c
  {
    hide Clashes, Linked, RequestOf, WithDefaults, Clash, Given, Unknown, Missing, DefaultsLinked;
    LinkedStruct(env, spec, c);
    var name := spec.Root().structName;
    var g, r := env.Def(name).fields, RequestOf(c).value.fields;
    ConstIsExact(g, r);
    if Accepted(g, r) {
      var uf := WithDefaults(g, r).value;
      forall f | f in g && f.name in uf ensures !Clashes(env, depth - 1, f.ty, uf[f.name]) {
        ThriftFieldLoops.WithDefaultsLookup(g, r);
        if f.name in r {
          LinkedMember(env, spec, c, f);
          ConstDoesNotClash(env, depth - 1, f.ty, c.fields[f.name]);
        } else {
          var h :| h in g && h.name == f.name && h.default.Some?;
          NameInjective(g, f, h);
          LinkedDefault(env, name, f);
          ConstDoesNotClash(env, depth - 1, f.ty, f.default.value);
        }
      }
    }
  }

  lemma ConstIsExact(g: seq<FieldSpec>, r: map<string, Dyn>)
    requires DistinctFields(g) && forall n | n in r :: n in Names(g) && !r[n].Nil?
    ensures !Clash(g, r) && Given(g, r) == r
  {
    hide Clash, Given, Unknown;
    ThriftStructs.ExactGiven(g, r);
  }

  /** What is sent of a linked constant is what it means: for every type and every depth. */
  lemma ConstIsSent(env: Env, depth: nat, spec: Spec, c: Const, m: Meaning)
    requires DefaultsLinked(env) && Linked(env, spec, c)
    ensures RequestOf(c).Some?
    ensures Encode(env, depth, spec, RequestOf(c).value) == Done(m) <==> Means(env, depth, spec, c, m)
  {
    hide *;
    ConstGives(env, depth, spec, c, m);
    var v := RequestOf(c).value;
    ConstDoesNotClash(env, depth, spec, c);
    DoneIffRunsAgree(env, depth, spec, v, m);
    OneResultOnly(env, depth, spec, v, m);
  }

  lemma OneResultOnly(env: Env, depth: nat, spec: Spec, v: Dyn, m: Meaning)
    requires !Clashes(env, depth, spec, v)
    ensures RunsAgree(env, depth, spec, v, m) <==> Gives(env, depth, spec, v, m)
  {
    hide Encode, Gives, May, Clashes;
    AmbiguousIffRunsDiffer(env, depth, spec, v);
    if Encode(env, depth, spec, v).Ambiguous? { AmbiguousMeansClash(env, depth, spec, v); }
  }

  /** A field that no key gives a value is sent, in every run, as its default constant. */
  lemma DefaultIsSent(env: Env, depth: nat, spec: Spec, v: Dyn, f: FieldSpec, m: Meaning)
    requires DefaultsLinked(env) && depth > 0 && spec.Root().StructSpec? && Gives(env, depth, spec, v, m)
    requires f in env.Def(spec.Root().structName).fields && f.default.Some? && AsStrings(v).Some?
    requires !IsGiven(env.Def(spec.Root().structName).fields, AsStrings(v).value, f)
    ensures m.MStruct? && f.id in m.fields && Means(env, depth - 1, f.ty, f.default.value, m.fields[f.id])
  {
    hide Gives, Means, IsGiven, RequestOf, Linked, AsStrings, StringKeyed, DefaultsLinked, IsNamedBy;
    var name := spec.Root().structName;
    StructIsSent(env, depth, spec, v, m);
    assert FieldSent(env, depth - 1, env.Def(name).fields, AsStrings(v).value, f, m.fields);
    LinkedDefault(env, name, f);
    ConstGives(env, depth - 1, f.ty, f.default.value, m.fields[f.id]);
  }

  /** A field that is not on the wire is shown as a value that would be sent as its default constant. */
  lemma DefaultIsShown(env: Env, spec: Spec, w: Wire, v: Dyn, f: FieldSpec)
    requires DefaultsLinked(env) && w.WStruct? && spec.Root().StructSpec? && Decode(env, spec, w) == Some(v)
    requires f in env.Def(spec.Root().structName).fields && f.default.Some? && !HasID(w.fields, f.id)
    ensures v.StrMap? && f.name in v.fields && SameKind(f.default.value, v.fields[f.name])
    ensures forall depth: nat, m ::
              Encode(env, depth, f.ty, v.fields[f.name]) == Done(m) <==> Means(env, depth, f.ty, f.default.value, m)
  {
    hide Decode, Encode, Means, RequestOf, Linked, DefaultsLinked, HasID;
    var name := spec.Root().structName;
    ThriftShown.StructIsShown(env, spec, w, v);
    assert ThriftShown.FieldShown(env, f, w.fields, v.fields);
    LinkedDefault(env, name, f);
    KindOfRequest(f.default.value);
    forall depth: nat, m
      ensures Encode(env, depth, f.ty, v.fields[f.name]) == Done(m) <==> Means(env, depth, f.ty, f.default.value, m)
    {
      ConstIsSent(env, depth, f.ty, f.default.value, m);
    }
  }

  /** The Go type of the value. */
  predicate SameKind(c: Const, v: Dyn) {
    match c
    case ConstBool(_) => v.Bool?
    case ConstInt(_) => v.Int?
    case ConstDouble(_) => v.Float?
    case ConstString(_) => v.Str?
    case ConstReference(t) => SameKind(t, v)
    case ConstEnumItem(_) => v.Int?
    case ConstSet(_) => v.List?
    case ConstList(_) => v.List?
    case ConstMap(_) => v.AnyMap?
    case ConstStruct(_) => v.StrMap?
  }

  lemma {:induction false} KindOfRequest(c: Const)
    requires RequestOf(c).Some?
    ensures SameKind(c, RequestOf(c).value)
  {
    if c.ConstReference? { KindOfRequest(c.target); }
  }
}

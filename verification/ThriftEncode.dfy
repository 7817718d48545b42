/** What thrift/to_wire.go computes, as a function. */
module ThriftEncode {
  // The result is a Meaning, because the order of map items is left to Go's map iteration.

  import opened Option
  import opened Values
  import opened ThriftSpec
  import opened ThriftFields
  import opened ThriftScalars

  /** What runs give that differ in the order in which they visit maps. Done: every run returns this value.
      Failed: every run returns an error. NoValue: no run returns a value, but some may exhaust the call
      depth. Ambiguous: some run returns a value, and another one does not return the same. */
  datatype Outcome<+T> = Done(value: T) | Failed | Ambiguous | NoValue
  {
    predicate Settled() { Done? || Failed? }

    /** No run returns a value. */
    predicate Barred() { Failed? || NoValue? }
  }

  function Both<A, B>(a: Outcome<A>, b: Outcome<B>): Outcome<(A, B)> {
    if a.Barred() || b.Barred() then if a.Settled() && b.Settled() then Failed else NoValue
    else if a.Ambiguous? || b.Ambiguous? then Ambiguous
    else Done((a.value, b.value))
  }

  function StringKeys(m: map<Key, Dyn>): set<string> { set k | k in m && k.KStr? :: k.s }

  /** structValueMap */
  function AsStrings(v: Dyn): Option<map<string, Dyn>> {
    match v
    case StrMap(m) => Some(m)
    case AnyMap(m) =>
      if forall k | k in m :: k.KStr? then Some(map s | s in StringKeys(m) :: m[KStr(s)]) else None
    case _ => None
  }

  /** The two map types mapToValue accepts; convertStringMap turns one into the other. */
  function AsEntries(v: Dyn): Option<map<Key, Dyn>> {
    match v
    case StrMap(m) => Some(Rekeyed(m))
    case AnyMap(m) => Some(m)
    case _ => None
  }

  function Rekeyed(m: map<string, Dyn>): map<Key, Dyn> { map s | s in m :: KStr(s) := m[s] }

  /** convertMapKey: text used as the key of a map whose keys are not strings is parsed as YAML. */
  function ConvertMapKey(lib: Lib, keySpec: Spec, k: Key): Dyn {
    if k.KStr? && keySpec.Code() != TBinary then
      match lib.yaml(k.s)
      case Some(v) => v
      case None => Str(k.s)
    else k.Value()
  }

  /** Map items in no particular order. */
  type Items = multiset<(Meaning, Meaning)>

  /** How many fields are set is the same in every run. */
  ghost predicate WrongUnion(def: StructDef, request: map<string, Dyn>) {
    && def.isUnion && WithDefaults(def.fields, Given(def.fields, request)).Some?
    && |WithDefaults(def.fields, Given(def.fields, request)).value| != 1
  }

  /** checkStructValue; wrong says that it refuses the struct in every run. */
  function AsStruct(def: StructDef, wrong: bool, o: Outcome<map<I16, Meaning>>): Outcome<Meaning> {
    match o
    case Done(fs) => if def.isUnion && |fs| != 1 then Failed else Done(MStruct(fs))
    case Failed => Failed
    case Ambiguous => if wrong then NoValue else Ambiguous
    case NoValue => NoValue
  }

  function AsList(isSet: bool, elem: Spec, o: Outcome<seq<Meaning>>): Outcome<Meaning> {
    match o
    case Done(ms) => Done(if isSet then MSet(elem.Code(), ms) else MList(elem.Code(), ms))
    case Failed => Failed case Ambiguous => Ambiguous case NoValue => NoValue
  }

  function AsMap(ks: Spec, vs: Spec, o: Outcome<Items>): Outcome<Meaning> {
    match o
    case Done(es) => Done(MMap(ks.Code(), vs.Code(), es))
    case Failed => Failed case Ambiguous => Ambiguous case NoValue => NoValue
  }

  function AddField(o: Outcome<map<I16, Meaning>>, id: I16, v: Outcome<Meaning>): Outcome<map<I16, Meaning>> {
    match Both(o, v)
    case Done((fs, m)) => Done(fs[id := m])
    case Failed => Failed case Ambiguous => Ambiguous case NoValue => NoValue
  }

  function Append(o: Outcome<seq<Meaning>>, v: Outcome<Meaning>): Outcome<seq<Meaning>> {
    match Both(o, v)
    case Done((ms, m)) => Done(ms + [m])
    case Failed => Failed case Ambiguous => Ambiguous case NoValue => NoValue
  }

  function Item(k: Outcome<Meaning>, v: Outcome<Meaning>): Outcome<Items> {
    match Both(k, v)
    case Done(item) => Done(multiset{item})
    case Failed => Failed case Ambiguous => Ambiguous case NoValue => NoValue
  }

  function Plus(a: Outcome<Items>, b: Outcome<Items>): Outcome<Items> {
    match Both(a, b)
    case Done((x, y)) => Done(x + y)
    case Failed => Failed case Ambiguous => Ambiguous case NoValue => NoValue
  }

  ghost function Encode(env: Env, depth: nat, spec: Spec, v: Dyn): Outcome<Meaning>
    decreases depth, 0
  {
    var root := spec.Root();
    if depth == 0 then NoValue
    else if root.StructSpec? then
      match AsStrings(v)
      case None => Failed
      case Some(request) => EncodeStruct(env, depth - 1, env.Def(root.structName), request)
    else if root.ListSpec? || root.SetSpec? then
      if v.List? then AsList(root.SetSpec?, root.elem, EncodeList(env, depth - 1, root.elem, v.items)) else Failed
    else if root.MapSpec? then
      match AsEntries(v)
      case None => Failed
      case Some(m) => AsMap(root.key, root.value, EncodeEntries(env, depth - 1, root.key, root.value, m))
    else
      match EncodeScalar(env.lib, root, v)
      case Some(w) => Done(MScalar(w))
      case None => Failed
  }

  /** fieldGroupToValue followed by checkStructValue. */
  ghost function EncodeStruct(env: Env, depth: nat, def: StructDef, request: map<string, Dyn>): Outcome<Meaning>
    decreases depth, |def.fields| + 3
  {
    AsStruct(def, WrongUnion(def, request), EncodeGroup(env, depth, def.fields, request))
  }

  /** Whichever values are collected, or the difference that it makes. */
  ghost function EncodeGroup(env: Env, depth: nat, g: seq<FieldSpec>, request: map<string, Dyn>)
    : Outcome<map<I16, Meaning>>
    decreases depth, |g| + 2
  {
    if Unknown(g, request) != {} || Missing(g, Given(g, request)) != {} then Failed
    else
      var o := EncodeFilled(env, depth, g, Given(g, request));
      if forall given | Collected(g, request, given) :: EncodeFilled(env, depth, g, given) == o then o
      else if forall given | Collected(g, request, given) :: EncodeFilled(env, depth, g, given).Barred() then NoValue
      else Ambiguous
  }

  ghost function EncodeFilled(env: Env, depth: nat, g: seq<FieldSpec>, given: map<string, Dyn>)
    : Outcome<map<I16, Meaning>>
    decreases depth, |g| + 1
  {
    match WithDefaults(g, given)
    case None => Failed
    case Some(uf) => EncodeFields(env, depth, g, uf)
  }

  ghost function EncodeFields(env: Env, depth: nat, g: seq<FieldSpec>, uf: map<string, Dyn>): Outcome<map<I16, Meaning>>
    decreases depth, |g|
  {
    if g == [] then Done(map[])
    else
      var f := g[|g| - 1];
      var rest := EncodeFields(env, depth, g[..|g| - 1], uf);
      if f.name in uf then AddField(rest, f.id, Encode(env, depth, f.ty, uf[f.name])) else rest
  }

  ghost function EncodeList(env: Env, depth: nat, elem: Spec, vs: seq<Dyn>): Outcome<seq<Meaning>>
    decreases depth, |vs|
  {
    if vs == [] then Done([])
    else Append(EncodeList(env, depth, elem, vs[..|vs| - 1]), Encode(env, depth, elem, vs[|vs| - 1]))
  }

  /** A nil value drops the item. */
  ghost function EncodeItem(env: Env, depth: nat, ks: Spec, vs: Spec, k: Key, v: Dyn): Outcome<Items>
    decreases depth, 1
  {
    if v.Nil? then Done(multiset{})
    else Item(Encode(env, depth, ks, ConvertMapKey(env.lib, ks, k)), Encode(env, depth, vs, v))
  }

  ghost function Pick(m: map<Key, Dyn>): (k: Key)
    requires m != map[]
    ensures k in m
  {
    var k :| k in m; k
  }

  /** The items of all entries, visited in some order. */
  ghost function EncodeEntries(env: Env, depth: nat, ks: Spec, vs: Spec, m: map<Key, Dyn>): Outcome<Items>
    decreases depth, 2 + |m|
  {
    if m == map[] then Done(multiset{})
    else
      var k := Pick(m);
      Plus(EncodeItem(env, depth, ks, vs, k, m[k]), EncodeEntries(env, depth, ks, vs, m - {k}))
  }

  lemma PlusSwaps(a: Outcome<Items>, b: Outcome<Items>, c: Outcome<Items>)
    ensures Plus(a, Plus(b, c)) == Plus(b, Plus(a, c))
  {
    PlusIs(b, c);
    PlusIs(a, c);
    PlusIs(a, Plus(b, c));
    PlusIs(b, Plus(a, c));
    hide Plus;
    if a.Done? && b.Done? && c.Done? {
      assert a.value + (b.value + c.value) == b.value + (a.value + c.value);
    }
  }

  lemma PlusIs(a: Outcome<Items>, b: Outcome<Items>)
    ensures Plus(a, b) ==
            if a.Barred() || b.Barred() then if a.Settled() && b.Settled() then Failed else NoValue
            else if a.Ambiguous? || b.Ambiguous? then Ambiguous
            else Done(a.value + b.value)
  {
  }

  lemma EntriesStep(env: Env, depth: nat, ks: Spec, vs: Spec, m: map<Key, Dyn>)
    requires m != map[]
    ensures EncodeEntries(env, depth, ks, vs, m) ==
            Plus(EncodeItem(env, depth, ks, vs, Pick(m), m[Pick(m)]), EncodeEntries(env, depth, ks, vs, m - {Pick(m)}))
  {
    hide Encode, EncodeItem, Plus;
  }

  /** Any entry may be visited first. */
  lemma {:induction false} EncodeEntriesFirst(env: Env, depth: nat, ks: Spec, vs: Spec, m: map<Key, Dyn>, k: Key)
    requires k in m
    ensures EncodeEntries(env, depth, ks, vs, m) ==
            Plus(EncodeItem(env, depth, ks, vs, k, m[k]), EncodeEntries(env, depth, ks, vs, m - {k}))
    decreases |m|
  {
    hide *;
    EntriesStep(env, depth, ks, vs, m);
    var first := Pick(m);
    if first != k {
      EncodeEntriesFirst(env, depth, ks, vs, m - {first}, k);
      EncodeEntriesFirst(env, depth, ks, vs, m - {k}, first);
      assert m - {first} - {k} == m - {k} - {first};
      PlusSwaps(EncodeItem(env, depth, ks, vs, first, m[first]), EncodeItem(env, depth, ks, vs, k, m[k]),
                EncodeEntries(env, depth, ks, vs, m - {first} - {k}));
    }
  }

  /** Where no two keys disagree, one map of values is collected. */
  lemma GroupWithoutClash(env: Env, depth: nat, g: seq<FieldSpec>, request: map<string, Dyn>)
    requires !Clash(g, request)
    ensures EncodeGroup(env, depth, g, request) ==
            if Unknown(g, request) != {} || Missing(g, Given(g, request)) != {} then Failed
            else EncodeFilled(env, depth, g, Given(g, request))
  {
    hide Encode, EncodeFilled, Clash, Collected, Given, Unknown, Missing;
    GivenIsCollected(g, request);
    forall given | Collected(g, request, given)
      ensures EncodeFilled(env, depth, g, given) == EncodeFilled(env, depth, g, Given(g, request))
    {
      CollectedAgree(g, request, given, Given(g, request));
    }
  }

  // ---- One step of each loop

  lemma EncodeFieldsStep(env: Env, depth: nat, g: seq<FieldSpec>, f: FieldSpec, uf: map<string, Dyn>)
    ensures EncodeFields(env, depth, g + [f], uf) ==
            if f.name in uf
            then AddField(EncodeFields(env, depth, g, uf), f.id, Encode(env, depth, f.ty, uf[f.name]))
            else EncodeFields(env, depth, g, uf)
  {
    hide Encode, AddField;
    assert (g + [f])[..|g|] == g;
  }

  lemma EncodeListStep(env: Env, depth: nat, elem: Spec, vs: seq<Dyn>, v: Dyn)
    ensures EncodeList(env, depth, elem, vs + [v]) ==
            Append(EncodeList(env, depth, elem, vs), Encode(env, depth, elem, v))
  {
    hide Encode, Append;
    assert (vs + [v])[..|vs|] == vs;
  }

  lemma ItemIs(env: Env, depth: nat, ks: Spec, vs: Spec, k: Key, v: Dyn)
    ensures EncodeItem(env, depth, ks, vs, k, v) ==
            if v.Nil? then Done(multiset{})
            else Item(Encode(env, depth, ks, ConvertMapKey(env.lib, ks, k)), Encode(env, depth, vs, v))
  {
    hide Encode, ConvertMapKey;
  }

  lemma EncodeOfStruct(env: Env, depth: nat, spec: Spec, v: Dyn)
    requires depth > 0 && spec.Root().StructSpec?
    ensures Encode(env, depth, spec, v) ==
            match AsStrings(v)
            case None => Failed
            case Some(m) => EncodeStruct(env, depth - 1, env.Def(spec.Root().structName), m)
  {
    hide EncodeStruct, EncodeGroup, EncodeFields, EncodeList, EncodeItem, EncodeEntries, EncodeScalar, AsStrings,
         AsEntries, AsList, AsMap;
  }

  lemma EncodeOfList(env: Env, depth: nat, spec: Spec, v: Dyn)
    requires depth > 0 && (spec.Root().ListSpec? || spec.Root().SetSpec?) && v.List?
    ensures Encode(env, depth, spec, v) ==
            AsList(spec.Root().SetSpec?, spec.Root().elem, EncodeList(env, depth - 1, spec.Root().elem, v.items))
  {
    hide EncodeStruct, EncodeGroup, EncodeFields, EncodeList, EncodeItem, EncodeEntries, EncodeScalar, AsStrings,
         AsEntries, AsList, AsMap;
  }

  lemma EncodeOfMap(env: Env, depth: nat, spec: Spec, v: Dyn)
    requires depth > 0 && spec.Root().MapSpec?
    ensures Encode(env, depth, spec, v) ==
            match AsEntries(v)
            case None => Failed
            case Some(m) => AsMap(spec.Root().key, spec.Root().value,
                                  EncodeEntries(env, depth - 1, spec.Root().key, spec.Root().value, m))
  {
    hide EncodeStruct, EncodeGroup, EncodeFields, EncodeList, EncodeItem, EncodeEntries, EncodeScalar, AsStrings,
         AsEntries, AsList, AsMap;
  }

  lemma EncodeOfScalar(env: Env, depth: nat, spec: Spec, v: Dyn)
    requires depth > 0 && ScalarSpec(spec.Root())
    ensures Encode(env, depth, spec, v) ==
            match EncodeScalar(env.lib, spec.Root(), v) case Some(w) => Done(MScalar(w)) case None => Failed
  {
    hide EncodeStruct, EncodeGroup, EncodeFields, EncodeList, EncodeItem, EncodeEntries, EncodeScalar, AsStrings,
         AsEntries, AsList, AsMap;
  }

  lemma NotAList(env: Env, depth: nat, spec: Spec, v: Dyn)
    requires depth > 0 && (spec.Root().ListSpec? || spec.Root().SetSpec?)
    ensures !v.List? ==> Encode(env, depth, spec, v).Failed?
  {
    hide EncodeStruct, EncodeList, EncodeEntries, EncodeScalar, AsStrings, AsEntries;
  }
}

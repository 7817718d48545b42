/** thrift/to_wire.go and the loops of thrift/fields.go as methods. */
module ThriftToWire {
  // Go visits a map in any order, so every loop over a map takes an arbitrary remaining key; what is
  // proved holds for every run.

  import opened Option
  import opened Values
  import opened ThriftSpec
  import opened ThriftFields
  import opened ThriftScalars
  import opened ThriftEncode
  import opened ThriftStructs
  import opened ThriftFieldLoops
  import opened ThriftRoundTrip
  import opened ThriftResults
  import opened ThriftRuns
  import ThriftConst

  /** Exhausted: the call depth allowed to the run did not suffice. */
  datatype Result<+T> = Ok(value: T) | Err | Exhausted

  /** A settled outcome is what every run returns, and no run returns a value where there is none. */
  ghost predicate Implements(r: Result<Wire>, o: Outcome<Meaning>) {
    && (o.Done? ==> r.Ok? && Abs(r.value) == o.value)
    && (o.Failed? ==> r.Err?)
    && (o.NoValue? ==> !r.Ok?)
  }

  ghost predicate ImplementsFields(r: Result<seq<WField>>, o: Outcome<map<I16, Meaning>>) {
    && (o.Done? ==> r.Ok? && AbsFields(r.value) == o.value)
    && (o.Failed? ==> r.Err?)
    && (o.NoValue? ==> !r.Ok?)
  }

  ghost predicate ImplementsList(r: Result<seq<Wire>>, o: Outcome<seq<Meaning>>) {
    && (o.Done? ==> r.Ok? && AbsList(r.value) == o.value)
    && (o.Failed? ==> r.Err?)
    && (o.NoValue? ==> !r.Ok?)
  }

  ghost predicate ImplementsItems(r: Result<seq<WItem>>, o: Outcome<Items>) {
    && (o.Done? ==> r.Ok? && AbsEntries(r.value) == o.value)
    && (o.Failed? ==> r.Err?)
    && (o.NoValue? ==> !r.Ok?)
  }

  function EndOf<T>(r: Result<T>): End {
    match r
    case Ok(_) => Good
    case Err => Bad
    case Exhausted => Out
  }

  // ---- What a run may do

  /** It ends as runs may end, with a value that runs may return. */
  ghost predicate Run(env: Env, depth: nat, spec: Spec, v: Dyn, r: Result<Wire>) {
    May(env, depth, spec, v, EndOf(r)) && (r.Ok? ==> Gives(env, depth, spec, v, Abs(r.value)))
  }

  ghost predicate ListRun(env: Env, depth: nat, elem: Spec, vs: seq<Dyn>, r: Result<seq<Wire>>) {
    MayList(env, depth, elem, vs, EndOf(r)) && (r.Ok? ==> GivesList(env, depth, elem, vs, AbsList(r.value)))
  }

  ghost predicate EntriesRun(env: Env, depth: nat, ks: Spec, vs: Spec, m: map<Key, Dyn>, r: Result<seq<WItem>>) {
    MayEntries(env, depth, ks, vs, m, EndOf(r)) && (r.Ok? ==> GivesEntries(env, depth, ks, vs, m, AbsEntries(r.value)))
  }

  ghost predicate FieldsRun(env: Env, depth: nat, g: seq<FieldSpec>, uf: map<string, Dyn>, r: Result<seq<WField>>) {
    && MayFields(env, depth, g, uf, EndOf(r))
    && (r.Ok? ==> GivesFields(env, depth, g, uf, AbsFields(r.value)) && |r.value| == |uf|)
  }

  /** The number of fields is the same in every run. */
  ghost predicate GroupRun(env: Env, depth: nat, g: seq<FieldSpec>, request: map<string, Dyn>, r: Result<seq<WField>>) {
    if !Accepted(g, request) then r == Err
    else
      && MayGroup(env, depth, g, request, EndOf(r))
      && (r.Ok? ==> GivesGroup(env, depth, g, request, AbsFields(r.value))
                    && |r.value| == |WithDefaults(g, Given(g, request)).value|)
  }

  ghost predicate StructRun(env: Env, depth: nat, g: seq<FieldSpec>, v: Dyn, r: Result<seq<WField>>) {
    match AsStrings(v)
    case None => r == Err
    case Some(request) => GroupRun(env, depth, g, request, r)
  }

  // ---- Requests as maps

  method StructValueMap(value: Dyn) returns (r: Option<map<string, Dyn>>)
    ensures r == AsStrings(value)
  {
    if value.StrMap? { return Some(value.fields); }
    if !value.AnyMap? { return None; }
    var m := value.entries;
    var result: map<string, Dyn> := map[];
    var left := m.Keys;
    while left != {}
      invariant left <= m.Keys
      invariant forall k | k in m.Keys - left :: k.KStr? && k.s in result && result[k.s] == m[k]
      invariant forall s | s in result :: KStr(s) in m.Keys - left
      decreases left
    {
      var k :| k in left;
      if !k.KStr? { return None; }
      result := result[k.s := m[k]];
      left := left - {k};
    }
    StringsAre(m, result);
    return Some(result);
  }

  lemma StringsAre(m: map<Key, Dyn>, r: map<string, Dyn>)
    requires forall k | k in m :: k.KStr? && k.s in r && r[k.s] == m[k]
    requires forall s | s in r :: KStr(s) in m
    ensures AsStrings(AnyMap(m)) == Some(r)
  {
    var a := AsStrings(AnyMap(m)).value;
    forall s ensures s in a <==> s in r {
      if s in r { assert KStr(s) in m && KStr(s).s == s; }
    }
    forall s | s in a ensures a[s] == r[s] {
      assert r[KStr(s).s] == m[KStr(s)];
    }
    assert a == r;
  }

  method ConvertStringMap(m: map<string, Dyn>) returns (res: map<Key, Dyn>)
    ensures res == Rekeyed(m)
  {
    res := map[];
    var left := m.Keys;
    while left != {}
      invariant left <= m.Keys
      invariant res == map s | s in m && s !in left :: KStr(s) := m[s]
      decreases left
    {
      var s :| s in left;
      res := res[KStr(s) := m[s]];
      left := left - {s};
    }
  }

  // ---- Sorting fields

  ghost predicate SameFields(a: seq<WField>, b: seq<WField>) { forall f :: f in a <==> f in b }

  method SortByID(fs: seq<WField>) returns (r: seq<WField>)
    requires DistinctIDs(fs)
    ensures Ascending(r) && SameFields(fs, r) && |r| == |fs|
  {
    r := [];
    for i := 0 to |fs|
      invariant |r| == i && Ascending(r) && SameFields(fs[..i], r)
    {
      var j := 0;
      while j < |r| && r[j].id < fs[i].id
        invariant 0 <= j <= |r|
        invariant forall k | 0 <= k < j :: r[k].id < fs[i].id
      {
        j := j + 1;
      }
      if j < |r| {
        assert r[j] in fs[..i];
        var p :| 0 <= p < i && fs[..i][p] == r[j];
        assert fs[p].id != fs[i].id;
      }
      InsertKeepsOrder(r, j, fs[i]);
      assert fs[..i + 1] == fs[..i] + [fs[i]];
      r := r[..j] + [fs[i]] + r[j..];
    }
    assert fs[..|fs|] == fs;
  }

  lemma InsertKeepsOrder(r: seq<WField>, j: nat, f: WField)
    requires Ascending(r) && j <= |r|
    requires forall k | 0 <= k < j :: r[k].id < f.id
    requires j < |r| ==> f.id < r[j].id
    ensures Ascending(r[..j] + [f] + r[j..])
    ensures forall x :: x in r[..j] + [f] + r[j..] <==> x in r || x == f
  {
    assert r == r[..j] + r[j..];
  }

  lemma SortedMeaning(fs: seq<WField>, r: seq<WField>)
    requires DistinctIDs(fs) && Ascending(r) && SameFields(fs, r)
    ensures AbsFields(r) == AbsFields(fs)
  {
    AbsFieldsLookup(fs);
    AbsFieldsLookup(r);
    forall i | 0 <= i < |fs| ensures fs[i].id in AbsFields(r) && AbsFields(r)[fs[i].id] == Abs(fs[i].value) {
      assert fs[i] in r;
      var j :| 0 <= j < |r| && r[j] == fs[i];
    }
    forall id | id in AbsFields(r) ensures HasID(fs, id) {
      var j :| 0 <= j < |r| && r[j].id == id;
      assert r[j] in fs;
    }
    SameLookups(AbsFields(r), fs);
  }

  // ---- toWireValue

  method ToWireValue(env: Env, depth: nat, spec: Spec, value: Dyn) returns (r: Result<Wire>)
    ensures Implements(r, Encode(env, depth, spec, value))
    ensures r.Ok? ==> Conforms(env, spec, r.value)
    ensures Run(env, depth, spec, value, r)
    decreases depth, 0
  {
    hide Encode, EncodeScalar, Conforms, Implements, ImplementsFields, ImplementsList, ImplementsItems, FieldsConform,
         StructOutcome, ListOutcome, MapOutcome, ItemsConform, CheckStructValue, Run, ListRun, EntriesRun, StructRun;
    if depth == 0 {
      NoDepth(env, spec, value);
      return Exhausted;
    }
    var root := spec.Root();
    if root.StructSpec? {
      var def := env.Def(root.structName);
      var fs := StructToValue(env, depth - 1, def.fields, value);
      r := CheckStructValue(def, fs);
      StructResult(env, depth, spec, value, fs, r);
      StructEnds(env, depth, spec, value, fs, r);
    } else if root.ListSpec? || root.SetSpec? {
      var ws := ListToValue(env, depth - 1, root.elem, value);
      r := match ws
        case Ok(vs) => Ok(if root.SetSpec? then WSet(root.elem.Code(), vs) else WList(root.elem.Code(), vs))
        case Err => Err
        case Exhausted => Exhausted;
      ListResult(env, depth, spec, value, ws, r);
      ListEnds(env, depth, spec, value, ws, r);
    } else if root.MapSpec? {
      var es := MapToValue(env, depth - 1, root.key, root.value, value);
      r := match es
        case Ok(items) => Ok(WMap(root.key.Code(), root.value.Code(), items))
        case Err => Err
        case Exhausted => Exhausted;
      MapResult(env, depth, spec, value, es, r);
      MapEnds(env, depth, spec, value, es, r);
    } else {
      var w := ScalarToWire(env.lib, root, value);
      r := match w case Some(x) => Ok(x) case None => Err;
      ScalarResult(env, depth, spec, value);
      ScalarEnds(env, depth, spec, value, r);
    }
  }

  lemma NoDepth(env: Env, spec: Spec, v: Dyn)
    ensures Implements(Exhausted, Encode(env, 0, spec, v)) && Run(env, 0, spec, v, Exhausted)
  {
  }

  lemma ScalarEnds(env: Env, depth: nat, spec: Spec, v: Dyn, r: Result<Wire>)
    requires depth > 0 && ScalarSpec(spec.Root())
    requires r == match EncodeScalar(env.lib, spec.Root(), v) case Some(x) => Ok(x) case None => Err
    ensures Run(env, depth, spec, v, r)
  {
    hide May, Gives, EncodeScalar;
    MayOfScalar(env, depth, spec, v, EndOf(r));
    if r.Ok? { GivesOfScalar(env, depth, spec, v, Abs(r.value)); }
  }

  lemma ScalarResult(env: Env, depth: nat, spec: Spec, v: Dyn)
    requires depth > 0 && ScalarSpec(spec.Root())
    ensures var w := EncodeScalar(env.lib, spec.Root(), v);
            var r := match w case Some(x) => Ok(x) case None => Err;
            Implements(r, Encode(env, depth, spec, v)) && (r.Ok? ==> Conforms(env, spec, r.value))
  {
    hide Encode, EncodeScalar;
    EncodeOfScalar(env, depth, spec, v);
    RootTwice(spec);
  }

  lemma {:induction false} RootTwice(spec: Spec)
    ensures spec.Root().Root() == spec.Root() && spec.Root().Code() == spec.Code()
  {
    if spec.TypedefSpec? { RootTwice(spec.target); }
  }

  function CheckStructValue(def: StructDef, fs: Result<seq<WField>>): Result<Wire> {
    match fs
    case Ok(f) => if def.isUnion && |f| != 1 then Err else Ok(WStruct(f))
    case Err => Err
    case Exhausted => Exhausted
  }

  /** What structToValue computes. */
  ghost function StructOutcome(env: Env, depth: nat, g: seq<FieldSpec>, v: Dyn): Outcome<map<I16, Meaning>> {
    match AsStrings(v) case None => Failed case Some(m) => EncodeGroup(env, depth, g, m)
  }

  /** The fields of a well-formed struct, but for the union rule. */
  ghost predicate FieldsConform(env: Env, g: seq<FieldSpec>, fs: seq<WField>) {
    && Ascending(fs)
    && (forall i | 0 <= i < |fs| ::
          FieldByID(g, fs[i].id).Some? && Conforms(env, FieldByID(g, fs[i].id).value.ty, fs[i].value))
    && (forall i | 0 <= i < |g| :: g[i].required || g[i].default.Some? ==> HasID(fs, g[i].id))
  }

  lemma StructResult(env: Env, depth: nat, spec: Spec, v: Dyn, fs: Result<seq<WField>>, r: Result<Wire>)
    requires depth > 0 && spec.Root().StructSpec?
    requires var def := env.Def(spec.Root().structName);
             && ImplementsFields(fs, StructOutcome(env, depth - 1, def.fields, v))
             && (fs.Ok? ==> FieldsConform(env, def.fields, fs.value))
             && StructRun(env, depth - 1, def.fields, v, fs)
             && r == CheckStructValue(def, fs)
    ensures Implements(r, Encode(env, depth, spec, v))
    ensures r.Ok? ==> Conforms(env, spec, r.value)
  {
    hide Encode, FieldByID, EncodeGroup, EncodeStruct, StructRun, WrongUnion, Implements, ImplementsFields, AsStruct;
    var def := env.Def(spec.Root().structName);
    EncodeOfStruct(env, depth, spec, v);
    if AsStrings(v).Some? {
      var request := AsStrings(v).value;
      UnionRefuses(env, depth - 1, def, v, request, fs, r);
      UnionImplements(def, WrongUnion(def, request), EncodeGroup(env, depth - 1, def.fields, request), fs, r);
    } else {
      NothingImplements(fs);
    }
  }

  lemma NothingImplements(fs: Result<seq<WField>>)
    requires ImplementsFields(fs, Failed)
    ensures fs.Err? && Implements(Err, Failed)
  {
  }

  lemma UnionImplements(def: StructDef, wrong: bool, o: Outcome<map<I16, Meaning>>, fs: Result<seq<WField>>,
                        r: Result<Wire>)
    requires ImplementsFields(fs, o) && (fs.Ok? ==> Ascending(fs.value)) && r == CheckStructValue(def, fs)
    requires wrong ==> !r.Ok?
    ensures Implements(r, AsStruct(def, wrong, o))
  {
    if fs.Ok? {
      AbsFieldsSize(fs.value);
      assert Abs(WStruct(fs.value)) == MStruct(AbsFields(fs.value));
    }
  }

  /** With the wrong number of fields no run returns a union. */
  lemma UnionRefuses(env: Env, depth: nat, def: StructDef, v: Dyn, request: map<string, Dyn>, fs: Result<seq<WField>>,
                     r: Result<Wire>)
    requires AsStrings(v) == Some(request) && StructRun(env, depth, def.fields, v, fs) && r == CheckStructValue(def, fs)
    ensures EncodeStruct(env, depth, def, request) ==
            AsStruct(def, WrongUnion(def, request), EncodeGroup(env, depth, def.fields, request))
    ensures WrongUnion(def, request) ==> !r.Ok?
  {
    hide Encode, EncodeGroup, MayGroup, GivesGroup, Unknown, Missing, Given, WithDefaults;
  }

  lemma StructEnds(env: Env, depth: nat, spec: Spec, v: Dyn, fs: Result<seq<WField>>, r: Result<Wire>)
    requires depth > 0 && spec.Root().StructSpec?
    requires StructRun(env, depth - 1, env.Def(spec.Root().structName).fields, v, fs)
    requires r == CheckStructValue(env.Def(spec.Root().structName), fs)
    ensures Run(env, depth, spec, v, r)
  {
    hide May, MayGroup, Gives, GivesGroup, Unknown, Missing, AsStrings, WithDefaults, Given, AbsFields;
    MayOfStruct(env, depth, spec, v, EndOf(r));
    if r.Ok? {
      GivesOfStruct(env, depth, spec, v, Abs(r.value));
      assert Abs(r.value) == MStruct(AbsFields(fs.value));
    }
  }

  method StructToValue(env: Env, depth: nat, g: FieldGroup, value: Dyn) returns (r: Result<seq<WField>>)
    ensures ImplementsFields(r, StructOutcome(env, depth, g, value))
    ensures r.Ok? ==> FieldsConform(env, g, r.value)
    ensures StructRun(env, depth, g, value, r)
    decreases depth, 5
  {
    hide GroupRun, EncodeGroup, FieldsConform;
    var m := StructValueMap(value);
    if m.None? { return Err; }
    r := FieldGroupToValue(env, depth, g, m.value);
  }

  // ---- Lists and sets

  /** What listToValue computes. */
  ghost function ListOutcome(env: Env, depth: nat, elem: Spec, v: Dyn): Outcome<seq<Meaning>> {
    if v.List? then EncodeList(env, depth, elem, v.items) else Failed
  }

  lemma ListResult(env: Env, depth: nat, spec: Spec, v: Dyn, ws: Result<seq<Wire>>, r: Result<Wire>)
    requires depth > 0 && (spec.Root().ListSpec? || spec.Root().SetSpec?)
    requires ImplementsList(ws, ListOutcome(env, depth - 1, spec.Root().elem, v))
    requires ws.Ok? ==> forall i | 0 <= i < |ws.value| :: Conforms(env, spec.Root().elem, ws.value[i])
    requires r == match ws
                  case Ok(vs) =>
                    var elem := spec.Root().elem;
                    Ok(if spec.Root().SetSpec? then WSet(elem.Code(), vs) else WList(elem.Code(), vs))
                  case Err => Err
                  case Exhausted => Exhausted
    ensures Implements(r, Encode(env, depth, spec, v))
    ensures r.Ok? ==> Conforms(env, spec, r.value)
  {
    hide Encode, EncodeList, Implements, ImplementsList, Conforms, AsList;
    var isSet, elem := spec.Root().SetSpec?, spec.Root().elem;
    if v.List? {
      EncodeOfList(env, depth, spec, v);
      ListImplements(isSet, elem, EncodeList(env, depth - 1, elem, v.items), ws, r);
    } else {
      NotAList(env, depth, spec, v);
      NoListImplements(ws, Encode(env, depth, spec, v));
    }
    if ws.Ok? { ListConforms(env, spec, ws.value); }
  }

  lemma NoListImplements(ws: Result<seq<Wire>>, o: Outcome<Meaning>)
    requires ImplementsList(ws, Failed) && o.Failed?
    ensures ws.Err? && Implements(Err, o)
  {
  }

  lemma ListImplements(isSet: bool, elem: Spec, o: Outcome<seq<Meaning>>, ws: Result<seq<Wire>>, r: Result<Wire>)
    requires ImplementsList(ws, o)
    requires r == match ws
                  case Ok(vs) => Ok(if isSet then WSet(elem.Code(), vs) else WList(elem.Code(), vs))
                  case Err => Err
                  case Exhausted => Exhausted
    ensures Implements(r, AsList(isSet, elem, o))
  {
    hide AbsList;
  }

  lemma ListConforms(env: Env, spec: Spec, ws: seq<Wire>)
    requires spec.Root().ListSpec? || spec.Root().SetSpec?
    requires forall i | 0 <= i < |ws| :: Conforms(env, spec.Root().elem, ws[i])
    ensures var elem := spec.Root().elem;
            Conforms(env, spec, if spec.Root().SetSpec? then WSet(elem.Code(), ws) else WList(elem.Code(), ws))
  {
    hide FieldByID;
    RootTwice(spec);
  }

  lemma {:induction false} ListOutcomeAt(env: Env, depth: nat, elem: Spec, vs: seq<Dyn>, i: nat)
    requires i < |vs|
    ensures EncodeList(env, depth, elem, vs).Done? ==> Encode(env, depth, elem, vs[i]).Done?
    ensures EncodeList(env, depth, elem, vs).Failed? ==> Encode(env, depth, elem, vs[i]).Settled()
  {
    hide Encode, EncodeList;
    var n := |vs| - 1;
    assert vs[..n] + [vs[n]] == vs;
    EncodeListStep(env, depth, elem, vs[..n], vs[n]);
    if i < n { ListOutcomeAt(env, depth, elem, vs[..n], i); }
  }

  /** The values converted so far agree with the outcome for the items seen so far. */
  ghost predicate Listed(ws: seq<Wire>, o: Outcome<seq<Meaning>>) {
    !o.Failed? && !o.NoValue? && (o.Done? ==> AbsList(ws) == o.value)
  }

  lemma ListedStep(ws: seq<Wire>, o: Outcome<seq<Meaning>>, w: Wire, e: Outcome<Meaning>)
    requires Listed(ws, o) && Implements(Ok(w), e)
    ensures Listed(ws + [w], Append(o, e))
  {
    assert AbsList(ws + [w]) == AbsList(ws) + [Abs(w)];
  }

  lemma ListEnds(env: Env, depth: nat, spec: Spec, v: Dyn, ws: Result<seq<Wire>>, r: Result<Wire>)
    requires depth > 0 && (spec.Root().ListSpec? || spec.Root().SetSpec?)
    requires if v.List? then ListRun(env, depth - 1, spec.Root().elem, v.items, ws) else ws == Err
    requires r == match ws
                  case Ok(vs) =>
                    var elem := spec.Root().elem;
                    Ok(if spec.Root().SetSpec? then WSet(elem.Code(), vs) else WList(elem.Code(), vs))
                  case Err => Err
                  case Exhausted => Exhausted
    ensures Run(env, depth, spec, v, r)
  {
    hide May, MayList, Gives, GivesList;
    MayOfList(env, depth, spec, v, EndOf(r));
    if r.Ok? {
      GivesOfList(env, depth, spec, v, Abs(r.value));
      assert Abs(r.value) == ListMeaning(spec.Root().SetSpec?, spec.Root().elem, AbsList(ws.value));
    }
  }

  lemma ItemGiven(env: Env, depth: nat, elem: Spec, vs: seq<Dyn>, v: Dyn, ws: seq<Wire>, w: Wire)
    requires ListRun(env, depth, elem, vs, Ok(ws)) && Run(env, depth, elem, v, Ok(w))
    ensures ListRun(env, depth, elem, vs + [v], Ok(ws + [w]))
  {
    hide May, MayList, Gives, GivesList;
    ItemSucceeds(env, depth, elem, vs, v);
    assert AbsList(ws + [w]) == AbsList(ws) + [Abs(w)];
    assert AbsList(ws + [w])[..|ws|] == AbsList(ws);
    GivesListStep(env, depth, elem, vs, v, AbsList(ws + [w]));
  }

  lemma ItemStops(env: Env, depth: nat, elem: Spec, vs: seq<Dyn>, i: nat, ws: seq<Wire>, w: Result<Wire>)
    requires i < |vs| && ListRun(env, depth, elem, vs[..i], Ok(ws)) && Run(env, depth, elem, vs[i], w) && !w.Ok?
    ensures ListRun(env, depth, elem, vs, if w.Err? then Err else Exhausted)
  {
    hide May, MayList, Gives, GivesList;
    ItemDecides(env, depth, elem, vs, i, EndOf(w));
  }

  /** What holds of the values converted so far. */
  ghost predicate ListSoFar(env: Env, depth: nat, elem: Spec, vs: seq<Dyn>, ws: seq<Wire>) {
    && |ws| == |vs| && (forall j | 0 <= j < |ws| :: Conforms(env, elem, ws[j]))
    && Listed(ws, EncodeList(env, depth, elem, vs)) && ListRun(env, depth, elem, vs, Ok(ws))
  }

  lemma ListSoFarStep(env: Env, depth: nat, elem: Spec, vs: seq<Dyn>, v: Dyn, ws: seq<Wire>, w: Wire)
    requires ListSoFar(env, depth, elem, vs, ws) && Implements(Ok(w), Encode(env, depth, elem, v))
    requires Conforms(env, elem, w) && Run(env, depth, elem, v, Ok(w))
    ensures ListSoFar(env, depth, elem, vs + [v], ws + [w])
  {
    hide Encode, EncodeList, Implements, Listed, Conforms, Append, Run, ListRun;
    ItemGiven(env, depth, elem, vs, v, ws, w);
    ListedStep(ws, EncodeList(env, depth, elem, vs), w, Encode(env, depth, elem, v));
    EncodeListStep(env, depth, elem, vs, v);
  }

  lemma ListSoFarEnd(env: Env, depth: nat, elem: Spec, vs: seq<Dyn>, ws: seq<Wire>)
    requires ListSoFar(env, depth, elem, vs, ws)
    ensures ImplementsList(Ok(ws), EncodeList(env, depth, elem, vs)) && ListRun(env, depth, elem, vs, Ok(ws))
    ensures forall j | 0 <= j < |ws| :: Conforms(env, elem, ws[j])
  {
    hide EncodeList, Listed, ImplementsList, Conforms, ListRun;
    AllListed(ws, EncodeList(env, depth, elem, vs));
  }

  /** An item that does not succeed decides. */
  lemma ListSoFarStops(env: Env, depth: nat, elem: Spec, vs: seq<Dyn>, i: nat, ws: seq<Wire>, w: Result<Wire>,
                       r: Result<seq<Wire>>)
    requires i < |vs| && ListSoFar(env, depth, elem, vs[..i], ws) && Run(env, depth, elem, vs[i], w) && !w.Ok?
    requires Implements(w, Encode(env, depth, elem, vs[i])) && r == if w.Err? then Err else Exhausted
    ensures ImplementsList(r, EncodeList(env, depth, elem, vs)) && ListRun(env, depth, elem, vs, r)
  {
    hide Encode, EncodeList, Implements, Listed, ImplementsList, Conforms, Run, ListRun;
    ListStops(env, depth, elem, vs, i, w);
    ItemStops(env, depth, elem, vs, i, ws, w);
  }

  method ListToValue(env: Env, depth: nat, elem: Spec, value: Dyn) returns (r: Result<seq<Wire>>)
    ensures ImplementsList(r, ListOutcome(env, depth, elem, value))
    ensures r.Ok? ==> forall i | 0 <= i < |r.value| :: Conforms(env, elem, r.value[i])
    ensures if value.List? then ListRun(env, depth, elem, value.items, r) else r == Err
    decreases depth, 5
  {
    ListOutcomeIs(env, depth, elem, value);
    hide *;
    if !value.List? { return Err; }
    var vs := value.items;
    var ws: seq<Wire> := [];
    NoneListed(env, depth, elem);
    for i := 0 to |vs|
      invariant ListSoFar(env, depth, elem, vs[..i], ws)
    {
      var w := ToWireValue(env, depth, elem, vs[i]);
      if !w.Ok? {
        r := if w.Err? then Err else Exhausted;
        ListSoFarStops(env, depth, elem, vs, i, ws, w, r);
        return r;
      }
      ListSoFarStep(env, depth, elem, vs[..i], vs[i], ws, w.value);
      assert vs[..i] + [vs[i]] == vs[..i + 1];
      ws := ws + [w.value];
    }
    assert vs[..|vs|] == vs;
    ListSoFarEnd(env, depth, elem, vs, ws);
    return Ok(ws);
  }

  lemma ListOutcomeIs(env: Env, depth: nat, elem: Spec, v: Dyn)
    ensures if v.List? then ListOutcome(env, depth, elem, v) == EncodeList(env, depth, elem, v.items)
            else ImplementsList(Err, ListOutcome(env, depth, elem, v))
  {
    hide EncodeList;
  }

  lemma NoneListed(env: Env, depth: nat, elem: Spec)
    ensures ListSoFar(env, depth, elem, [], [])
  {
    hide Encode, May, Gives;
  }

  lemma AllListed(ws: seq<Wire>, o: Outcome<seq<Meaning>>)
    requires Listed(ws, o)
    ensures ImplementsList(Ok(ws), o)
  {
  }

  /** An item that cannot be converted decides the outcome. */
  lemma ListStops(env: Env, depth: nat, elem: Spec, vs: seq<Dyn>, i: nat, w: Result<Wire>)
    requires i < |vs| && Implements(w, Encode(env, depth, elem, vs[i])) && !w.Ok?
    ensures ImplementsList(if w.Err? then Err else Exhausted, EncodeList(env, depth, elem, vs))
  {
    hide Encode, EncodeList;
    ListOutcomeAt(env, depth, elem, vs, i);
  }

  // ---- Maps

  /** What mapToValue computes. */
  ghost function MapOutcome(env: Env, depth: nat, ks: Spec, vs: Spec, v: Dyn): Outcome<Items> {
    match AsEntries(v) case None => Failed case Some(m) => EncodeEntries(env, depth, ks, vs, m)
  }

  ghost predicate ItemsConform(env: Env, ks: Spec, vs: Spec, es: seq<WItem>) {
    forall i | 0 <= i < |es| :: Conforms(env, ks, es[i].key) && Conforms(env, vs, es[i].value)
  }

  lemma MapResult(env: Env, depth: nat, spec: Spec, v: Dyn, es: Result<seq<WItem>>, r: Result<Wire>)
    requires depth > 0 && spec.Root().MapSpec?
    requires ImplementsItems(es, MapOutcome(env, depth - 1, spec.Root().key, spec.Root().value, v))
    requires es.Ok? ==> ItemsConform(env, spec.Root().key, spec.Root().value, es.value)
    requires r == match es
                  case Ok(items) => Ok(WMap(spec.Root().key.Code(), spec.Root().value.Code(), items))
                  case Err => Err
                  case Exhausted => Exhausted
    ensures Implements(r, Encode(env, depth, spec, v))
    ensures r.Ok? ==> Conforms(env, spec, r.value)
  {
    hide Encode, EncodeEntries, Implements, ImplementsItems, Conforms, AsMap, AsEntries, ItemsConform;
    var ks, vs := spec.Root().key, spec.Root().value;
    EncodeOfMap(env, depth, spec, v);
    if AsEntries(v).Some? {
      MapImplements(ks, vs, EncodeEntries(env, depth - 1, ks, vs, AsEntries(v).value), es, r);
    } else {
      NoItemsImplement(es);
    }
    if es.Ok? { MapConforms(env, spec, es.value); }
  }

  lemma NoItemsImplement(es: Result<seq<WItem>>)
    requires ImplementsItems(es, Failed)
    ensures es.Err? && Implements(Err, Failed)
  {
  }

  lemma MapImplements(ks: Spec, vs: Spec, o: Outcome<Items>, es: Result<seq<WItem>>, r: Result<Wire>)
    requires ImplementsItems(es, o)
    requires r == match es
                  case Ok(items) => Ok(WMap(ks.Code(), vs.Code(), items))
                  case Err => Err
                  case Exhausted => Exhausted
    ensures Implements(r, AsMap(ks, vs, o))
  {
    hide AbsEntries;
  }

  lemma MapConforms(env: Env, spec: Spec, es: seq<WItem>)
    requires spec.Root().MapSpec? && ItemsConform(env, spec.Root().key, spec.Root().value, es)
    ensures Conforms(env, spec, WMap(spec.Root().key.Code(), spec.Root().value.Code(), es))
  {
    hide FieldByID;
    RootTwice(spec);
  }

  /** The items converted so far agree with the outcome for the entries seen so far. */
  ghost predicate Gathered(es: seq<WItem>, o: Outcome<Items>) {
    !o.Failed? && !o.NoValue? && (o.Done? ==> AbsEntries(es) == o.value)
  }

  lemma GatheredStep(es: seq<WItem>, o: Outcome<Items>, k: Wire, ko: Outcome<Meaning>, v: Wire, vo: Outcome<Meaning>)
    requires Gathered(es, o) && Implements(Ok(k), ko) && Implements(Ok(v), vo)
    ensures Gathered(es + [WItem(k, v)], Plus(Item(ko, vo), o))
  {
    hide AbsEntries, Abs, Plus, Item;
    LiveItem(ko, vo);
    LivePlus(Item(ko, vo), o);
    OneMerged(es, WItem(k, v));
    hide *;
  }

  lemma LiveItem(k: Outcome<Meaning>, v: Outcome<Meaning>)
    requires !k.Barred() && !v.Barred()
    ensures !Item(k, v).Barred()
    ensures Item(k, v).Done? ==> k.Done? && v.Done? && Item(k, v).value == Pair(k.value, v.value)
  {
  }

  lemma LivePlus(a: Outcome<Items>, b: Outcome<Items>)
    requires !a.Barred() && !b.Barred()
    ensures !Plus(a, b).Barred()
    ensures Plus(a, b).Done? ==> a.Done? && b.Done? && Plus(a, b).value == Merge(a.value, b.value)
  {
  }

  lemma GatheredSkip(es: seq<WItem>, o: Outcome<Items>)
    requires Gathered(es, o)
    ensures Gathered(es, Plus(Done(multiset{}), o))
  {
    hide AbsEntries;
    if o.Done? { assert multiset{} + o.value == o.value; }
  }

  lemma EntryOutcome(env: Env, depth: nat, ks: Spec, vs: Spec, m: map<Key, Dyn>, k: Key)
    requires k in m && m[k] != Nil
    ensures var key := Encode(env, depth, ks, ConvertMapKey(env.lib, ks, k));
            var o := EncodeEntries(env, depth, ks, vs, m);
            && (o.Done? ==> key.Done? && Encode(env, depth, vs, m[k]).Done?)
            && (o.Failed? ==> key.Settled() && Encode(env, depth, vs, m[k]).Settled())
  {
    hide Encode, EncodeEntries, ConvertMapKey, Plus, Item;
    EncodeEntriesFirst(env, depth, ks, vs, m, k);
    ItemIs(env, depth, ks, vs, k, m[k]);
    PlusItem(Encode(env, depth, ks, ConvertMapKey(env.lib, ks, k)), Encode(env, depth, vs, m[k]),
             EncodeEntries(env, depth, ks, vs, m - {k}));
  }

  lemma PlusItem(k: Outcome<Meaning>, v: Outcome<Meaning>, rest: Outcome<Items>)
    ensures Plus(Item(k, v), rest).Done? ==> k.Done? && v.Done?
    ensures Plus(Item(k, v), rest).Failed? ==> k.Settled() && v.Settled()
  {
  }

  /** One more entry seen. */
  lemma EntriesStep(env: Env, depth: nat, ks: Spec, vs: Spec, m: map<Key, Dyn>, left: set<Key>, k: Key)
    requires k in left && left <= m.Keys
    ensures EncodeEntries(env, depth, ks, vs, Seen(m, left - {k})) ==
            Plus(EncodeItem(env, depth, ks, vs, k, m[k]), EncodeEntries(env, depth, ks, vs, Seen(m, left)))
  {
    SeenStep(m, left, k);
    EncodeEntriesFirst(env, depth, ks, vs, Seen(m, left - {k}), k);
    hide Encode, EncodeItem, EncodeEntries, Seen, Plus;
  }

  lemma NothingSeen(env: Env, depth: nat, ks: Spec, vs: Spec, m: map<Key, Dyn>)
    ensures Gathered([], EncodeEntries(env, depth, ks, vs, Seen(m, m.Keys)))
  {
    SeenAll(m);
    assert EncodeEntries(env, depth, ks, vs, map[]) == Done(multiset{});
  }

  lemma MapOutcomeIs(env: Env, depth: nat, ks: Spec, vs: Spec, v: Dyn)
    ensures MapOutcome(env, depth, ks, vs, v) ==
            if v.AnyMap? then EncodeEntries(env, depth, ks, vs, v.entries)
            else if v.StrMap? then EncodeEntries(env, depth, ks, vs, Rekeyed(v.fields))
            else Failed
    ensures ImplementsItems(Err, Failed)
  {
    hide EncodeEntries, Rekeyed;
  }

  lemma MapEnds(env: Env, depth: nat, spec: Spec, v: Dyn, es: Result<seq<WItem>>, r: Result<Wire>)
    requires depth > 0 && spec.Root().MapSpec?
    requires if AsEntries(v).Some?
             then EntriesRun(env, depth - 1, spec.Root().key, spec.Root().value, AsEntries(v).value, es) else es == Err
    requires r == match es
                  case Ok(items) => Ok(WMap(spec.Root().key.Code(), spec.Root().value.Code(), items))
                  case Err => Err
                  case Exhausted => Exhausted
    ensures Run(env, depth, spec, v, r)
  {
    hide May, MayEntries, Gives, GivesEntries, AsEntries, AbsEntries;
    MayOfMap(env, depth, spec, v, EndOf(r));
    if r.Ok? {
      GivesOfMap(env, depth, spec, v, Abs(r.value));
      assert Abs(r.value) == MapMeaning(spec.Root().key, spec.Root().value, AbsEntries(es.value));
    }
  }

  method MapToValue(env: Env, depth: nat, ks: Spec, vs: Spec, value: Dyn) returns (r: Result<seq<WItem>>)
    ensures ImplementsItems(r, MapOutcome(env, depth, ks, vs, value))
    ensures r.Ok? ==> ItemsConform(env, ks, vs, r.value)
    ensures if AsEntries(value).Some? then EntriesRun(env, depth, ks, vs, AsEntries(value).value, r) else r == Err
    decreases depth, 5
  {
    hide Rekeyed, ImplementsItems, MapOutcome, ItemsConform, EncodeEntries, EntriesRun;
    MapOutcomeIs(env, depth, ks, vs, value);
    var m: map<Key, Dyn>;
    if value.AnyMap? {
      m := value.entries;
    } else if value.StrMap? {
      m := ConvertStringMap(value.fields);
    } else {
      return Err;
    }
    r := EntriesToItems(env, depth, ks, vs, m);
  }

  ghost predicate EntryRun(env: Env, depth: nat, ks: Spec, vs: Spec, k: Key, v: Dyn, r: Result<WItem>) {
    && MayEntry(env, depth, ks, vs, k, v, EndOf(r))
    && (r.Ok? ==> GivesEntry(env, depth, ks, vs, k, v, Pair(Abs(r.value.key), Abs(r.value.value))))
  }

  lemma KeyStops(env: Env, depth: nat, ks: Spec, vs: Spec, k: Key, v: Dyn, w: Result<Wire>)
    requires Run(env, depth, ks, ConvertMapKey(env.lib, ks, k), w) && !w.Ok?
    ensures EntryRun(env, depth, ks, vs, k, v, if w.Err? then Err else Exhausted)
  {
    hide May, MayEntry, Gives, GivesEntry, ConvertMapKey;
    KeyDecides(env, depth, ks, vs, k, v, EndOf(w));
  }

  lemma ValueStops(env: Env, depth: nat, ks: Spec, vs: Spec, k: Key, v: Dyn, key: Wire, w: Result<Wire>)
    requires Run(env, depth, ks, ConvertMapKey(env.lib, ks, k), Ok(key)) && Run(env, depth, vs, v, w) && !w.Ok?
    ensures EntryRun(env, depth, ks, vs, k, v, if w.Err? then Err else Exhausted)
  {
    hide May, MayEntry, Gives, GivesEntry, ConvertMapKey, Abs, Pair;
    ValueDecides(env, depth, ks, vs, k, v, EndOf(w));
  }

  lemma ValueGiven(env: Env, depth: nat, ks: Spec, vs: Spec, k: Key, v: Dyn, key: Wire, w: Wire)
    requires !v.Nil? && Run(env, depth, ks, ConvertMapKey(env.lib, ks, k), Ok(key)) && Run(env, depth, vs, v, Ok(w))
    ensures EntryRun(env, depth, ks, vs, k, v, Ok(WItem(key, w)))
  {
    hide Run, MayEntry, GivesEntry, ConvertMapKey, Abs, Pair;
    ValueSucceeds(env, depth, ks, vs, k, v, key, w);
    PairOfRuns(env, depth, ks, vs, k, v, key, w);
  }

  lemma ValueSucceeds(env: Env, depth: nat, ks: Spec, vs: Spec, k: Key, v: Dyn, key: Wire, w: Wire)
    requires Run(env, depth, ks, ConvertMapKey(env.lib, ks, k), Ok(key)) && Run(env, depth, vs, v, Ok(w))
    ensures MayEntry(env, depth, ks, vs, k, v, Good)
  {
    hide May, MayEntry, Gives, ConvertMapKey, Abs;
    ValueDecides(env, depth, ks, vs, k, v, Good);
  }

  lemma PairOfRuns(env: Env, depth: nat, ks: Spec, vs: Spec, k: Key, v: Dyn, key: Wire, w: Wire)
    requires !v.Nil? && Run(env, depth, ks, ConvertMapKey(env.lib, ks, k), Ok(key)) && Run(env, depth, vs, v, Ok(w))
    ensures GivesEntry(env, depth, ks, vs, k, v, Pair(Abs(key), Abs(w)))
  {
    hide May, Gives, GivesEntry, ConvertMapKey, Abs, Pair;
    PairGiven(env, depth, ks, vs, k, v, Abs(key), Abs(w));
  }

  /** One entry, whose value is not nil. */
  method EntryToItem(env: Env, depth: nat, ks: Spec, vs: Spec, k: Key, v: Dyn, ghost m: map<Key, Dyn>)
    returns (r: Result<WItem>)
    requires k in m && m[k] == v && !v.Nil?
    ensures r.Ok? ==>
              && Conforms(env, ks, r.value.key) && Conforms(env, vs, r.value.value)
              && Implements(Ok(r.value.key), Encode(env, depth, ks, ConvertMapKey(env.lib, ks, k)))
              && Implements(Ok(r.value.value), Encode(env, depth, vs, v))
    ensures !r.Ok? ==> !EncodeEntries(env, depth, ks, vs, m).Done?
    ensures r.Exhausted? ==> !EncodeEntries(env, depth, ks, vs, m).Failed?
    ensures EntryRun(env, depth, ks, vs, k, v, r)
    decreases depth, 3
  {
    hide Encode, EncodeEntries, Conforms, ConvertMapKey, Run, EntryRun;
    EntryOutcome(env, depth, ks, vs, m, k);
    var kw := ToWireValue(env, depth, ks, ConvertMapKey(env.lib, ks, k));
    if !kw.Ok? { KeyStops(env, depth, ks, vs, k, v, kw); }
    if kw.Err? { return Err; }
    if kw.Exhausted? { return Exhausted; }
    var vw := ToWireValue(env, depth, vs, v);
    if vw.Ok? {
      ValueGiven(env, depth, ks, vs, k, v, kw.value, vw.value);
    } else {
      ValueStops(env, depth, ks, vs, k, v, kw.value, vw);
    }
    if vw.Err? { return Err; }
    if vw.Exhausted? { return Exhausted; }
    return Ok(WItem(kw.value, vw.value));
  }

  lemma NoEntriesRun(env: Env, depth: nat, ks: Spec, vs: Spec)
    ensures EntriesRun(env, depth, ks, vs, map[], Ok([]))
  {
    hide MayEntries, GivesEntries;
    NoEntries(env, depth, ks, vs);
    NoEntriesGiven(env, depth, ks, vs, multiset{});
  }

  /** One more entry, of which nothing or one item comes. */
  lemma MoreRuns(env: Env, depth: nat, ks: Spec, vs: Spec, m: map<Key, Dyn>, k: Key, rest: map<Key, Dyn>, one: Items,
                 es: seq<WItem>, all: seq<WItem>)
    requires k in m && rest == m - {k} && EntriesRun(env, depth, ks, vs, rest, Ok(es))
    requires GivesEntry(env, depth, ks, vs, k, m[k], one) && AbsEntries(all) == Merge(one, AbsEntries(es))
    requires MayEntries(env, depth, ks, vs, m, Good)
    ensures EntriesRun(env, depth, ks, vs, m, Ok(all))
  {
    hide MayEntries, GivesEntry, GivesEntries, AbsEntries, Merge;
    PutEntry(env, depth, ks, vs, m, k, one, AbsEntries(es));
  }

  lemma NilRuns(env: Env, depth: nat, ks: Spec, vs: Spec, m: map<Key, Dyn>, left: set<Key>, k: Key, es: seq<WItem>)
    requires k in left && left <= m.Keys && m[k].Nil? && EntriesRun(env, depth, ks, vs, Seen(m, left), Ok(es))
    ensures EntriesRun(env, depth, ks, vs, Seen(m, left - {k}), Ok(es))
  {
    hide MayEntries, GivesEntry, GivesEntries, AbsEntries, Merge, Seen;
    EntrySucceeds(env, depth, ks, vs, m, left, k);
    SeenStep(m, left, k);
    NilGives(env, depth, ks, vs, k, multiset{});
    NothingMerged(AbsEntries(es));
    MoreRuns(env, depth, ks, vs, Seen(m, left - {k}), k, Seen(m, left), multiset{}, es, es);
  }

  lemma NothingMerged(es: Items)
    ensures Merge(multiset{}, es) == es
  {
    assert multiset{} + es == es;
  }

  lemma EntryRuns(env: Env, depth: nat, ks: Spec, vs: Spec, m: map<Key, Dyn>, left: set<Key>, k: Key, es: seq<WItem>,
                  e: WItem)
    requires k in left && left <= m.Keys && EntriesRun(env, depth, ks, vs, Seen(m, left), Ok(es))
    requires EntryRun(env, depth, ks, vs, k, m[k], Ok(e))
    ensures EntriesRun(env, depth, ks, vs, Seen(m, left - {k}), Ok(es + [e]))
  {
    hide *;
    EntryRunGives(env, depth, ks, vs, k, m[k], e);
    EntriesRunGood(env, depth, ks, vs, Seen(m, left), es);
    EntrySucceeds(env, depth, ks, vs, m, left, k);
    SeenStep(m, left, k);
    OneMerged(es, e);
    MoreRuns(env, depth, ks, vs, Seen(m, left - {k}), k, Seen(m, left), Pair(Abs(e.key), Abs(e.value)), es, es + [e]);
  }

  lemma EntryRunGives(env: Env, depth: nat, ks: Spec, vs: Spec, k: Key, v: Dyn, e: WItem)
    requires EntryRun(env, depth, ks, vs, k, v, Ok(e))
    ensures v.Nil? || MayEntry(env, depth, ks, vs, k, v, Good)
    ensures GivesEntry(env, depth, ks, vs, k, v, Pair(Abs(e.key), Abs(e.value)))
  {
    hide MayEntry, GivesEntry, Pair, Abs;
  }

  lemma EntriesRunGood(env: Env, depth: nat, ks: Spec, vs: Spec, m: map<Key, Dyn>, es: seq<WItem>)
    requires EntriesRun(env, depth, ks, vs, m, Ok(es))
    ensures MayEntries(env, depth, ks, vs, m, Good)
  {
    hide MayEntries, GivesEntries, AbsEntries;
  }

  lemma OneMerged(es: seq<WItem>, e: WItem)
    ensures AbsEntries(es + [e]) == Merge(Pair(Abs(e.key), Abs(e.value)), AbsEntries(es))
  {
    PlusOne(es, e);
    hide Abs;
  }

  lemma EntryStops(env: Env, depth: nat, ks: Spec, vs: Spec, m: map<Key, Dyn>, k: Key, e: Result<WItem>)
    requires k in m && !m[k].Nil? && EntryRun(env, depth, ks, vs, k, m[k], e) && !e.Ok?
    ensures EntriesRun(env, depth, ks, vs, m, if e.Err? then Err else Exhausted)
  {
    hide MayEntry, MayEntries, GivesEntry, GivesEntries;
    EntryDecides(env, depth, ks, vs, m, k, EndOf(e));
  }

  method EntriesToItems(env: Env, depth: nat, ks: Spec, vs: Spec, m: map<Key, Dyn>) returns (r: Result<seq<WItem>>)
    ensures ImplementsItems(r, EncodeEntries(env, depth, ks, vs, m))
    ensures r.Ok? ==> ItemsConform(env, ks, vs, r.value)
    ensures EntriesRun(env, depth, ks, vs, m, r)
    decreases depth, 4
  {
    hide EntryRun, EntriesRun;
    hide Encode, EncodeEntries, Conforms, Plus, Item, Gathered, Seen, Implements, ConvertMapKey, ItemsConform,
         ImplementsItems;
    var items: seq<WItem> := [];
    var left := m.Keys;
    NothingSeen(env, depth, ks, vs, m);
    NoItemsConform(env, ks, vs);
    SeenAll(m);
    NoEntriesRun(env, depth, ks, vs);
    while left != {}
      invariant left <= m.Keys && ItemsConform(env, ks, vs, items)
      invariant EntriesRun(env, depth, ks, vs, Seen(m, left), Ok(items))
      invariant Gathered(items, EncodeEntries(env, depth, ks, vs, Seen(m, left)))
      decreases left
    {
      var k :| k in left;
      EntriesStep(env, depth, ks, vs, m, left, k);
      ItemIs(env, depth, ks, vs, k, m[k]);
      ghost var before, was := EncodeEntries(env, depth, ks, vs, Seen(m, left)), left;
      left := left - {k};
      if m[k].Nil? {
        GatheredSkip(items, before);
        NilRuns(env, depth, ks, vs, m, was, k, items);
        continue;
      }
      var item := EntryToItem(env, depth, ks, vs, k, m[k], m);
      if item.Ok? {
        EntryRuns(env, depth, ks, vs, m, was, k, items, item.value);
      } else {
        EntryStops(env, depth, ks, vs, m, k, item);
      }
      if !item.Ok? {
        NotGathered(EncodeEntries(env, depth, ks, vs, m), item.Exhausted?);
        return if item.Err? then Err else Exhausted;
      }
      GatheredStep(items, before, item.value.key, Encode(env, depth, ks, ConvertMapKey(env.lib, ks, k)),
                   item.value.value, Encode(env, depth, vs, m[k]));
      ItemsConformStep(env, ks, vs, items, item.value);
      assert item.value == WItem(item.value.key, item.value.value);
      items := items + [item.value];
    }
    SeenAll(m);
    AllGathered(items, EncodeEntries(env, depth, ks, vs, m));
    return Ok(items);
  }

  lemma NoItemsConform(env: Env, ks: Spec, vs: Spec)
    ensures ItemsConform(env, ks, vs, [])
  {
  }

  lemma ItemsConformStep(env: Env, ks: Spec, vs: Spec, es: seq<WItem>, e: WItem)
    requires ItemsConform(env, ks, vs, es) && Conforms(env, ks, e.key) && Conforms(env, vs, e.value)
    ensures ItemsConform(env, ks, vs, es + [e])
  {
    hide Conforms;
  }

  lemma NotGathered(o: Outcome<Items>, exhausted: bool)
    requires !o.Done? && (exhausted ==> !o.Failed?)
    ensures ImplementsItems(if exhausted then Exhausted else Err, o)
  {
  }

  lemma AllGathered(items: seq<WItem>, o: Outcome<Items>)
    requires Gathered(items, o)
    ensures ImplementsItems(Ok(items), o)
  {
  }

  // ---- Structs

  method FieldGroupToValue(env: Env, depth: nat, g: FieldGroup, request: map<string, Dyn>)
    returns (r: Result<seq<WField>>)
    ensures ImplementsFields(r, EncodeGroup(env, depth, g, request))
    ensures r.Ok? ==> FieldsConform(env, g, r.value)
    ensures GroupRun(env, depth, g, request, r)
    decreases depth, 4
  {
    hide FieldsRun, GroupRun, Accepted, WithDefaults, Given, FieldsConform, RequestOf;
    hide Encode, EncodeGroup, Conforms, Collected, Unknown, Names, DefaultsFilled, GetField, Seen;
    var ix := GetFields(g);
    var userFields, notFound := CollectUserFields(ix, g, request);
    ghost var given := userFields;
    var missing;
    var ok;
    ok, userFields, missing := FillDefaults(ix, g, userFields);
    if !ok {
      GroupPanics(env, depth, g, request, given);
      RefusedRun(env, depth, g, request, given);
      return Err;
    }
    if notFound != {} || missing != {} {
      GroupRejects(env, depth, g, request, given, missing);
      RefusedRun(env, depth, g, request, given);
      return Err;
    }
    GroupFields(env, depth, g, request, given, userFields);
    r := FieldsMapToValue(env, depth, g, ix.exact, userFields);
    GroupRuns(env, depth, g, request, given, userFields, r);
  }

  lemma RefusedRun(env: Env, depth: nat, g: seq<FieldSpec>, request: map<string, Dyn>, given: map<string, Dyn>)
    requires DistinctFields(g) && Collected(g, request, given)
    requires Unknown(g, request) != {} || Missing(g, given) != {} || WithDefaults(g, given).None?
    ensures GroupRun(env, depth, g, request, Err)
  {
    hide MayGroup, GivesGroup, Collected, Unknown, Missing, WithDefaults, Given;
    AcceptedAny(g, request, given);
  }

  lemma GroupRuns(env: Env, depth: nat, g: seq<FieldSpec>, request: map<string, Dyn>, given: map<string, Dyn>,
                  uf: map<string, Dyn>, r: Result<seq<WField>>)
    requires DistinctFields(g) && Collected(g, request, given) && WithDefaults(g, given) == Some(uf)
    requires Unknown(g, request) == {} && Missing(g, given) == {} && FieldsRun(env, depth, g, uf, r)
    ensures GroupRun(env, depth, g, request, r)
  {
    hide MayFields, MayGroup, GivesFields, GivesGroup, Collected, Unknown, Missing, WithDefaults, Given, AbsFields;
    AcceptedAny(g, request, given);
    GroupDecides(env, depth, g, request, given, EndOf(r));
    if r.Ok? {
      GroupGives(env, depth, g, request, given, AbsFields(r.value));
      assert |uf| == |uf.Keys|;
      assert |WithDefaults(g, Given(g, request)).value| == |WithDefaults(g, Given(g, request)).value.Keys|;
    }
  }

  /** The loop over the request: the value of each field, and the keys that name no field. */
  method CollectUserFields(ix: FieldIndex, g: FieldGroup, request: map<string, Dyn>)
    returns (userFields: map<string, Dyn>, notFound: set<string>)
    requires Indexes(ix, g)
    ensures Collected(g, request, userFields) && notFound == Unknown(g, request)
  {
    hide GetField, Collected, Unknown, Indexes, Seen;
    userFields, notFound := map[], {};
    var left := request.Keys;
    CollectedNone(g);
    SeenAll(request);
    while left != {}
      invariant left <= request.Keys
      invariant Collected(g, Seen(request, left), userFields) && notFound == Unknown(g, Seen(request, left))
      decreases left
    {
      var k :| k in left;
      SeenStep(request, left, k);
      NotSeen(request, left, k);
      Visit(g, Seen(request, left), k, request[k], userFields);
      left := left - {k};
      var field := Lookup(ix, k, g);
      if field.None? {
        notFound := notFound + {k};
        continue;
      }
      if request[k].Nil? { continue; }
      userFields := userFields[field.value.name := request[k]];
    }
    SeenAll(request);
  }

  lemma NotSeen<K, V>(m: map<K, V>, left: set<K>, k: K)
    requires k in left
    ensures k !in Seen(m, left)
  {
  }

  /** The loop over the declared fields: defaults are added, missing required fields recorded.
      It fails if building a default panics. */
  method FillDefaults(ix: FieldIndex, g: FieldGroup, given: map<string, Dyn>)
    returns (ok: bool, userFields: map<string, Dyn>, missing: set<string>)
    requires Indexes(ix, g)
    ensures !ok ==> WithDefaults(g, given).None?
    ensures ok ==> WithDefaults(g, given) == Some(userFields) && missing == Missing(g, given)
  {
    userFields, missing := given, {};
    var left := ix.exact.Keys;
    assert left == Names(g);
    hide WithDefaults, Missing, Names, Indexes, DefaultsFilled, RequestOf;
    NothingFilled(g, given);
    assert Names(g) - left == {};
    while left != {}
      invariant left <= Names(g) && DefaultsFilled(g, given, Names(g) - left, userFields, missing)
      decreases left
    {
      var k :| k in left;
      ExactIsFieldOf(ix, g, k);
      var arg := ix.exact[k];
      FilledMore(g, given, Names(g) - left, userFields, missing, k);
      assert Names(g) - left + {k} == Names(g) - (left - {k});
      left := left - {k};
      if k in userFields { continue; }
      if arg.default.Some? {
        var v := ThriftConst.ConstToRequest(arg.default.value);
        if v.None? {
          DefaultPanics(g, given, arg);
          return false, userFields, missing;
        }
        userFields := userFields[k := v.value];
        continue;
      }
      if arg.required { missing := missing + {k}; }
    }
    assert Names(g) - left == Names(g);
    WithDefaultsIs(g, given, userFields, missing);
    return true, userFields, missing;
  }

  lemma {:induction false} FieldsOutcomeAt(env: Env, depth: nat, g: seq<FieldSpec>, uf: map<string, Dyn>, i: nat)
    requires i < |g| && g[i].name in uf
    ensures EncodeFields(env, depth, g, uf).Done? ==> Encode(env, depth, g[i].ty, uf[g[i].name]).Done?
    ensures EncodeFields(env, depth, g, uf).Failed? ==> Encode(env, depth, g[i].ty, uf[g[i].name]).Settled()
  {
    hide Encode, EncodeFields;
    var n := |g| - 1;
    assert g[..n] + [g[n]] == g;
    EncodeFieldsStep(env, depth, g[..n], g[n], uf);
    if i < n { FieldsOutcomeAt(env, depth, g[..n], uf, i); }
  }

  lemma {:induction false} BarredField(env: Env, depth: nat, g: seq<FieldSpec>, uf: map<string, Dyn>)
    returns (i: nat)
    requires EncodeFields(env, depth, g, uf).Barred()
    ensures i < |g| && g[i].name in uf && Encode(env, depth, g[i].ty, uf[g[i].name]).Barred()
  {
    if g == [] { NoFieldsEncode(env, depth, uf); }
    hide Encode, EncodeFields;
    var n := |g| - 1;
    assert g[..n] + [g[n]] == g;
    EncodeFieldsStep(env, depth, g[..n], g[n], uf);
    if EncodeFields(env, depth, g[..n], uf).Barred() {
      i := BarredField(env, depth, g[..n], uf);
    } else {
      i := n;
    }
  }

  /** The wire field is the conversion of one of the fields named in done. */
  ghost predicate ConvertedField(env: Env, depth: nat, g: seq<FieldSpec>, uf: map<string, Dyn>, done: set<string>,
                                 wf: WField)
  {
    && FieldByID(g, wf.id).Some?
    && var f := FieldByID(g, wf.id).value;
       && f.name in done && f.name in uf && Conforms(env, f.ty, wf.value)
       && Implements(Ok(wf.value), Encode(env, depth, f.ty, uf[f.name]))
       && Gives(env, depth, f.ty, uf[f.name], Abs(wf.value))
  }

  ghost predicate Converted(env: Env, depth: nat, g: seq<FieldSpec>, uf: map<string, Dyn>, done: set<string>,
                            fs: seq<WField>)
    requires done <= Names(g)
  {
    && DistinctIDs(fs)
    && (forall i | 0 <= i < |fs| :: ConvertedField(env, depth, g, uf, done, fs[i]))
    && (forall n | n in done :: HasID(fs, FieldOf(g, n).id))
  }

  lemma ConvertedStep(env: Env, depth: nat, g: seq<FieldSpec>, uf: map<string, Dyn>, done: set<string>,
                      fs: seq<WField>, f: FieldSpec, w: Wire)
    requires DistinctFields(g) && done <= Names(g) && Converted(env, depth, g, uf, done, fs)
    requires f in g && f.name in Names(g) && f.name !in done && f.name in uf
    requires Conforms(env, f.ty, w) && Implements(Ok(w), Encode(env, depth, f.ty, uf[f.name]))
    requires Gives(env, depth, f.ty, uf[f.name], Abs(w))
    ensures Converted(env, depth, g, uf, done + {f.name}, fs + [WField(f.id, w)])
  {
    hide Encode, Conforms, Implements, FieldByID, Names, Gives, Abs;
    FieldByIDIs(g, f);
    NameInjective(g, f, FieldOf(g, f.name));
    var fs' := fs + [WField(f.id, w)];
    forall i | 0 <= i < |fs| ensures fs[i].id != f.id && ConvertedField(env, depth, g, uf, done + {f.name}, fs[i]) {
      assert ConvertedField(env, depth, g, uf, done, fs[i]);
    }
    forall n | n in done + {f.name} ensures HasID(fs', FieldOf(g, n).id) {
      if n in done {
        var i :| 0 <= i < |fs| && fs[i].id == FieldOf(g, n).id;
        assert fs'[i].id == FieldOf(g, n).id;
      } else {
        assert fs'[|fs|].id == f.id;
      }
    }
  }

  lemma ConvertedNone(env: Env, depth: nat, g: seq<FieldSpec>, uf: map<string, Dyn>)
    ensures Converted(env, depth, g, uf, {}, [])
  {
  }

  /** All fields converted: their meaning is the outcome. */
  lemma ConvertedFirst(env: Env, depth: nat, g: seq<FieldSpec>, uf: map<string, Dyn>, fs: seq<WField>, j: nat)
    requires DistinctFields(g) && uf.Keys <= Names(g) && Converted(env, depth, g, uf, uf.Keys, fs)
    requires j < |g| && g[j].name in uf
    ensures !Encode(env, depth, g[j].ty, uf[g[j].name]).Barred()
  {
    hide Encode, Conforms, Names, Abs;
    NameInjective(g, g[j], FieldOf(g, g[j].name));
    var i :| 0 <= i < |fs| && fs[i].id == g[j].id;
    FieldByIDIs(g, g[j]);
    assert ConvertedField(env, depth, g, uf, uf.Keys, fs[i]);
  }

  lemma ConvertedAll(env: Env, depth: nat, g: seq<FieldSpec>, uf: map<string, Dyn>, fs: seq<WField>)
    requires DistinctFields(g) && uf.Keys <= Names(g) && Converted(env, depth, g, uf, uf.Keys, fs)
    ensures ImplementsFields(Ok(fs), EncodeFields(env, depth, g, uf))
  {
    hide Encode, EncodeFields, Conforms, Names, Abs, AbsFields, Converted;
    var o := EncodeFields(env, depth, g, uf);
    if o.Barred() {
      var j := BarredField(env, depth, g, uf);
      ConvertedFirst(env, depth, g, uf, fs, j);
    }
    if o.Done? {
      forall j | 0 <= j < |g| && g[j].name in uf ensures Encode(env, depth, g[j].ty, uf[g[j].name]).Done? {
        FieldsOutcomeAt(env, depth, g, uf, j);
        ConvertedFirst(env, depth, g, uf, fs, j);
      }
      ConvertedDone(env, depth, g, uf, fs);
    }
  }

  lemma ConvertedDone(env: Env, depth: nat, g: seq<FieldSpec>, uf: map<string, Dyn>, fs: seq<WField>)
    requires DistinctFields(g) && uf.Keys <= Names(g) && Converted(env, depth, g, uf, uf.Keys, fs)
    requires EncodeFields(env, depth, g, uf).Done?
    requires forall j | 0 <= j < |g| && g[j].name in uf :: Encode(env, depth, g[j].ty, uf[g[j].name]).Done?
    ensures AbsFields(fs) == EncodeFields(env, depth, g, uf).value
  {
    hide Encode, EncodeFields, Conforms, Names, Abs, AbsFields;
    EncodedFields(env, depth, g, uf);
    var r := EncodeFields(env, depth, g, uf).value;
    forall i | 0 <= i < |fs| ensures fs[i].id in r && r[fs[i].id] == Abs(fs[i].value) {
      assert ConvertedField(env, depth, g, uf, uf.Keys, fs[i]);
      var j :| 0 <= j < |g| && g[j] == FieldByID(g, fs[i].id).value;
    }
    forall id | id in r ensures HasID(fs, id) {
      var j :| 0 <= j < |g| && g[j].id == id && g[j].name in uf;
      NameInjective(g, g[j], FieldOf(g, g[j].name));
    }
    SameLookups(r, fs);
  }

  method FieldsMapToValue(env: Env, depth: nat, ghost g: FieldGroup, fields: map<string, FieldSpec>,
                          userFields: map<string, Dyn>)
    returns (r: Result<seq<WField>>)
    requires fields.Keys == Names(g) && userFields.Keys <= Names(g)
    requires forall n :: Agrees(fields, n, ByName(g, n))
    requires forall i | 0 <= i < |g| :: g[i].required || g[i].default.Some? ==> g[i].name in userFields
    ensures ImplementsFields(r, EncodeFields(env, depth, g, userFields))
    ensures r.Ok? ==> FieldsConform(env, g, r.value)
    ensures FieldsRun(env, depth, g, userFields, r)
    decreases depth, 3
  {
    hide Run, FieldsRun, FieldsSucceed, FieldsConform, Implements, Encode, EncodeFields, Conforms, Converted;
    var wireFields: seq<WField> := [];
    var left := userFields.Keys;
    ConvertedNone(env, depth, g, userFields);
    assert userFields.Keys - left == {};
    NoneSucceed(env, depth, g, userFields);
    while left != {}
      invariant left <= userFields.Keys && Converted(env, depth, g, userFields, userFields.Keys - left, wireFields)
      invariant FieldsSucceed(env, depth, g, userFields, userFields.Keys - left)
      invariant |wireFields| == |userFields.Keys - left|
      decreases left
    {
      var k :| k in left;
      assert Agrees(fields, k, ByName(g, k));
      ByNameFinds(g, k);
      var spec := fields[k];
      var value := ToWireValue(env, depth, spec.ty, userFields[k]);
      FieldConverted(env, depth, g, userFields, left, spec, wireFields, value);
      if value.Err? { return Err; }
      if value.Exhausted? { return Exhausted; }
      wireFields := wireFields + [WField(spec.id, value.value)];
      left := left - {k};
    }
    assert userFields.Keys - left == userFields.Keys;
    ConvertedIsDistinct(env, depth, g, userFields, wireFields);
    var sorted := SortByID(wireFields);
    SortedResult(env, depth, g, userFields, wireFields, sorted);
    SortedRun(env, depth, g, userFields, wireFields, sorted);
    return Ok(sorted);
  }

  lemma SortedRun(env: Env, depth: nat, g: seq<FieldSpec>, uf: map<string, Dyn>, fs: seq<WField>, r: seq<WField>)
    requires DistinctFields(g) && uf.Keys <= Names(g) && Converted(env, depth, g, uf, uf.Keys, fs)
    requires Ascending(r) && SameFields(fs, r) && |r| == |uf.Keys| && FieldsSucceed(env, depth, g, uf, uf.Keys)
    ensures FieldsRun(env, depth, g, uf, Ok(r))
  {
    hide MayFields, GivesFields, Converted, FieldsSucceed, AbsFields, SameFields, Ascending;
    ConvertedIsDistinct(env, depth, g, uf, fs);
    AllSucceed(env, depth, g, uf);
    SortedMeaning(fs, r);
    ConvertedGives(env, depth, g, uf, fs);
    assert |uf| == |uf.Keys|;
  }

  lemma ConvertedGives(env: Env, depth: nat, g: seq<FieldSpec>, uf: map<string, Dyn>, fs: seq<WField>)
    requires DistinctFields(g) && uf.Keys <= Names(g) && Converted(env, depth, g, uf, uf.Keys, fs)
    ensures GivesFields(env, depth, g, uf, AbsFields(fs))
  {
    hide Encode, Conforms, Names, Abs, AbsFields, Implements, Gives, FieldByID;
    AbsFieldsLookup(fs);
    forall f | f in g && f.name in uf
      ensures f.id in AbsFields(fs) && Gives(env, depth, f.ty, uf[f.name], AbsFields(fs)[f.id])
    {
      NameInjective(g, f, FieldOf(g, f.name));
      var i :| 0 <= i < |fs| && fs[i].id == f.id;
      FieldByIDIs(g, f);
      assert ConvertedField(env, depth, g, uf, uf.Keys, fs[i]);
    }
    forall id | id in AbsFields(fs) ensures exists f :: f in g && f.name in uf && f.id == id {
      var i :| 0 <= i < |fs| && fs[i].id == id;
      assert ConvertedField(env, depth, g, uf, uf.Keys, fs[i]);
      assert FieldByID(g, id).value in g;
    }
  }

  lemma SortedResult(env: Env, depth: nat, g: seq<FieldSpec>, uf: map<string, Dyn>, fs: seq<WField>, r: seq<WField>)
    requires DistinctFields(g) && uf.Keys <= Names(g) && Converted(env, depth, g, uf, uf.Keys, fs)
    requires Ascending(r) && SameFields(fs, r)
    requires forall i | 0 <= i < |g| :: g[i].required || g[i].default.Some? ==> g[i].name in uf
    ensures ImplementsFields(Ok(r), EncodeFields(env, depth, g, uf)) && FieldsConform(env, g, r)
  {
    hide EncodeFields, Converted, FieldsConform, AbsFields, SameFields, Ascending;
    ConvertedIsDistinct(env, depth, g, uf, fs);
    ConvertedAll(env, depth, g, uf, fs);
    SortedMeaning(fs, r);
    SortedConforms(env, depth, g, uf, fs, r);
  }

  /** What one conversion tells about the run and the outcome. */
  lemma FieldConverted(env: Env, depth: nat, g: seq<FieldSpec>, uf: map<string, Dyn>, left: set<string>, f: FieldSpec,
                       fs: seq<WField>, w: Result<Wire>)
    requires DistinctFields(g) && uf.Keys <= Names(g) && left <= uf.Keys && f in g && f.name in left
    requires Converted(env, depth, g, uf, uf.Keys - left, fs) && |fs| == |uf.Keys - left|
    requires FieldsSucceed(env, depth, g, uf, uf.Keys - left)
    requires Implements(w, Encode(env, depth, f.ty, uf[f.name])) && Run(env, depth, f.ty, uf[f.name], w)
    requires w.Ok? ==> Conforms(env, f.ty, w.value)
    ensures w.Ok? ==>
      && Converted(env, depth, g, uf, uf.Keys - (left - {f.name}), fs + [WField(f.id, w.value)])
      && FieldsSucceed(env, depth, g, uf, uf.Keys - (left - {f.name}))
      && |fs + [WField(f.id, w.value)]| == |uf.Keys - (left - {f.name})|
    ensures w.Err? ==> FieldsRun(env, depth, g, uf, Err)
    ensures w.Exhausted? ==> FieldsRun(env, depth, g, uf, Exhausted)
    ensures !w.Ok? ==> !EncodeFields(env, depth, g, uf).Done?
    ensures w.Exhausted? ==> !EncodeFields(env, depth, g, uf).Failed?
  {
    hide Encode, EncodeFields, Converted, FieldsSucceed, May, MayFields, Gives, GivesFields, Conforms, Abs;
    var i :| 0 <= i < |g| && g[i] == f;
    FieldsOutcomeAt(env, depth, g, uf, i);
    if w.Ok? {
      FieldSucceeds(env, depth, g, uf, uf.Keys - left, f);
      ConvertedStep(env, depth, g, uf, uf.Keys - left, fs, f, w.value);
      assert uf.Keys - (left - {f.name}) == uf.Keys - left + {f.name};
    } else {
      FieldDecides(env, depth, g, uf, f, EndOf(w));
    }
  }

  lemma NoneSucceed(env: Env, depth: nat, g: seq<FieldSpec>, uf: map<string, Dyn>)
    ensures FieldsSucceed(env, depth, g, uf, {})
  {
  }

  lemma ConvertedIsDistinct(env: Env, depth: nat, g: seq<FieldSpec>, uf: map<string, Dyn>, fs: seq<WField>)
    requires uf.Keys <= Names(g) && Converted(env, depth, g, uf, uf.Keys, fs)
    ensures DistinctIDs(fs)
  {
  }

  lemma SortedConforms(env: Env, depth: nat, g: seq<FieldSpec>, uf: map<string, Dyn>, fs: seq<WField>, r: seq<WField>)
    requires DistinctFields(g) && uf.Keys <= Names(g) && Converted(env, depth, g, uf, uf.Keys, fs)
    requires Ascending(r) && SameFields(fs, r)
    requires forall i | 0 <= i < |g| :: g[i].required || g[i].default.Some? ==> g[i].name in uf
    ensures FieldsConform(env, g, r)
  {
    hide Encode, Conforms, Names, Implements;
    forall i | 0 <= i < |r|
      ensures FieldByID(g, r[i].id).Some? && Conforms(env, FieldByID(g, r[i].id).value.ty, r[i].value)
    {
      assert r[i] in fs;
      var j :| 0 <= j < |fs| && fs[j] == r[i];
      assert ConvertedField(env, depth, g, uf, uf.Keys, fs[j]);
    }
    forall i | 0 <= i < |g| && (g[i].required || g[i].default.Some?) ensures HasID(r, g[i].id) {
      NameInjective(g, g[i], FieldOf(g, g[i].name));
      var j :| 0 <= j < |fs| && fs[j].id == g[i].id;
      assert fs[j] in r;
      var k :| 0 <= k < |r| && r[k] == fs[j];
    }
  }
}

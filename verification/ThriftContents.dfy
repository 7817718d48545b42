/** What a request sends. */
module ThriftContents {
  // Which values runs of the encoder return, stated field by field and item by item: which key names which
  // field, where defaults come in, what is left out and what is refused.

  import opened Option
  import opened Values
  import opened ThriftSpec
  import opened ThriftFields
  import opened ThriftScalars
  import opened ThriftEncode
  import opened ThriftFieldLoops
  import opened ThriftRuns
  import opened ThriftResults
  import opened ThriftAgreement
  import opened ThriftClash

  // ---- Both kinds of map

  /** The value v is a map, of either Go type, with this entry. */
  predicate HasEntry(v: Dyn, k: Key, x: Dyn) {
    match v
    case StrMap(m) => k.KStr? && k.s in m && m[k.s] == x
    case AnyMap(m) => k in m && m[k] == x
    case _ => false
  }

  predicate IsMap(v: Dyn) { v.StrMap? || v.AnyMap? }

  predicate StringKeyed(v: Dyn) { IsMap(v) && (v.AnyMap? ==> forall k | k in v.entries :: k.KStr?) }

  lemma StringsOf(v: Dyn)
    ensures AsStrings(v).Some? <==> StringKeyed(v)
    ensures AsStrings(v).Some? ==>
              forall s, x :: (s in AsStrings(v).value && AsStrings(v).value[s] == x) <==> HasEntry(v, KStr(s), x)
  {
    if v.AnyMap? && AsStrings(v).Some? {
      forall s: string ensures s in AsStrings(v).value <==> KStr(s) in v.entries {
        if KStr(s) in v.entries { assert KStr(s).s in StringKeys(v.entries); }
      }
    }
  }

  lemma EntriesOf(v: Dyn)
    ensures AsEntries(v).Some? <==> IsMap(v)
    ensures AsEntries(v).Some? ==>
              forall k, x :: (k in AsEntries(v).value && AsEntries(v).value[k] == x) <==> HasEntry(v, k, x)
  {
  }

  // ---- Structs

  /** The key gives field f the value x. */
  ghost predicate GivesField(g: seq<FieldSpec>, request: map<string, Dyn>, f: FieldSpec, k: string) {
    k in request && !request[k].Nil? && IsNamedBy(g, f, k)
  }

  ghost predicate IsGiven(g: seq<FieldSpec>, request: map<string, Dyn>, f: FieldSpec) {
    exists k :: GivesField(g, request, f, k)
  }

  /** What is sent of a field: a value that a key gives it, or else its default, or else nothing, unless it is
      required. */
  ghost predicate FieldSent(env: Env, depth: nat, g: seq<FieldSpec>, request: map<string, Dyn>, f: FieldSpec,
                            fs: map<I16, Meaning>)
  {
    if IsGiven(g, request, f) then
      f.id in fs && exists k :: GivesField(g, request, f, k) && Gives(env, depth, f.ty, request[k], fs[f.id])
    else if f.default.Some? then
      && f.id in fs && RequestOf(f.default.value).Some?
      && Gives(env, depth, f.ty, RequestOf(f.default.value).value, fs[f.id])
    else !f.required && f.id !in fs
  }

  /** Every key names a field, every field is sent as it should be, nothing else is sent, and of a union
      exactly one field. */
  ghost predicate StructSent(env: Env, depth: nat, def: StructDef, request: map<string, Dyn>, fs: map<I16, Meaning>) {
    && (forall k | k in request :: exists f :: IsNamedBy(def.fields, f, k))
    && (forall f | f in def.fields :: FieldSent(env, depth, def.fields, request, f, fs))
    && (forall id | id in fs :: exists f :: f in def.fields && f.id == id)
    && (def.isUnion ==> |fs| == 1)
  }

  lemma GiversAre(g: seq<FieldSpec>, request: map<string, Dyn>, f: FieldSpec, k: string)
    requires DistinctFields(g) && f in g
    ensures k in Givers(g, request, f.name) <==> GivesField(g, request, f, k)
  {
    hide GetField, IsNamedBy;
    FieldNamed(g, f, k);
    if k in request && GetField(g, k).Some? {
      GetFieldFinds(g, k);
      if GetField(g, k).value.name == f.name { NameInjective(g, f, GetField(g, k).value); }
    }
  }

  lemma GivenIff(g: seq<FieldSpec>, request: map<string, Dyn>, f: FieldSpec)
    requires DistinctFields(g) && f in g
    ensures IsGiven(g, request, f) <==> Givers(g, request, f.name) != {}
    ensures f.name in Given(g, request) <==> Givers(g, request, f.name) != {}
  {
    hide GivesField, Givers;
    forall k ensures k in Givers(g, request, f.name) <==> GivesField(g, request, f, k) { GiversAre(g, request, f, k); }
    var i :| 0 <= i < |g| && g[i] == f;
    assert g[i].name in Names(g);
    if Givers(g, request, f.name) != {} { var k :| k in Givers(g, request, f.name); }
  }

  /** The default can be used, or there is none and none is needed. */
  ghost predicate DefaultWorks(f: FieldSpec) {
    if f.default.Some? then RequestOf(f.default.value).Some? else !f.required
  }

  lemma UnknownIff(g: seq<FieldSpec>, request: map<string, Dyn>)
    requires DistinctFields(g)
    ensures Unknown(g, request) == {} <==> forall k | k in request :: exists f :: IsNamedBy(g, f, k)
  {
    hide GetField, IsNamedBy;
    forall k | k in request ensures GetField(g, k).None? <==> forall f :: !IsNamedBy(g, f, k) { NoFieldNamed(g, k); }
    if Unknown(g, request) == {} {
      forall k | k in request ensures exists f :: IsNamedBy(g, f, k) { assert k !in Unknown(g, request); }
    }
  }

  lemma MissingIff(g: seq<FieldSpec>, given: map<string, Dyn>)
    ensures Missing(g, given) == {} <==> forall f | f in g && f.name !in given && f.default.None? :: !f.required
  {
    if Missing(g, given) == {} {
      forall f | f in g && f.name !in given && f.default.None? ensures !f.required {
        var i :| 0 <= i < |g| && g[i] == f;
        assert g[i].name !in Missing(g, given);
      }
    }
  }

  lemma DefaultsIff(g: seq<FieldSpec>, given: map<string, Dyn>)
    requires DistinctFields(g)
    ensures WithDefaults(g, given).Some? <==>
            forall f | f in g && f.name !in given && f.default.Some? :: RequestOf(f.default.value).Some?
  {
    hide RequestOf, WithDefaults;
    WithDefaultsLookup(g, given);
  }

  lemma AcceptedIff(g: seq<FieldSpec>, request: map<string, Dyn>)
    requires DistinctFields(g)
    ensures Accepted(g, request) <==>
            && (forall k | k in request :: exists f :: IsNamedBy(g, f, k))
            && (forall f | f in g && !IsGiven(g, request, f) :: DefaultWorks(f))
  {
    hide IsNamedBy, Given, Unknown, Missing, WithDefaults, IsGiven, RequestOf, Givers;
    UnknownIff(g, request);
    MissingIff(g, Given(g, request));
    DefaultsIff(g, Given(g, request));
    forall f | f in g ensures IsGiven(g, request, f) <==> f.name in Given(g, request) { GivenIff(g, request, f); }
  }

  lemma CandidateGiver(g: seq<FieldSpec>, request: map<string, Dyn>, f: FieldSpec, x: Dyn) returns (k: string)
    requires DistinctFields(g) && f in g && IsGiven(g, request, f) && x in Candidates(g, request, f)
    ensures GivesField(g, request, f, k) && k in request && request[k] == x
  {
    hide IsGiven, GetField, GivesField;
    GivenIff(g, request, f);
    k :| k in Givers(g, request, f.name) && request[k] == x;
    GiversAre(g, request, f, k);
  }

  lemma CandidateDefault(g: seq<FieldSpec>, request: map<string, Dyn>, f: FieldSpec, x: Dyn)
    requires DistinctFields(g) && f in g && !IsGiven(g, request, f) && x in Candidates(g, request, f)
    ensures f.default.Some? && RequestOf(f.default.value) == Some(x)
  {
    hide IsGiven, Givers, RequestOf;
    GivenIff(g, request, f);
  }

  lemma CandidateNone(g: seq<FieldSpec>, request: map<string, Dyn>, f: FieldSpec)
    requires DistinctFields(g) && f in g && !IsGiven(g, request, f) && f.default.None?
    ensures Candidates(g, request, f) == {}
  {
    hide IsGiven, Givers, RequestOf;
    GivenIff(g, request, f);
  }

  lemma CandidateSome(g: seq<FieldSpec>, request: map<string, Dyn>, f: FieldSpec)
    requires DistinctFields(g) && f in g && Accepted(g, request)
    requires IsGiven(g, request, f) || f.default.Some?
    ensures Candidates(g, request, f) != {}
  {
    hide IsGiven, RequestOf, GetField, Accepted, IsNamedBy;
    GivenIff(g, request, f);
    AcceptedIff(g, request);
    if IsGiven(g, request, f) {
      var k :| k in Givers(g, request, f.name);
      assert request[k] in Candidates(g, request, f);
    } else {
      assert DefaultWorks(f);
    }
  }

  /** From a run to what is sent. */
  lemma RunSends(env: Env, depth: nat, g: seq<FieldSpec>, request: map<string, Dyn>, given: map<string, Dyn>,
                 fs: map<I16, Meaning>, f: FieldSpec)
    requires DistinctFields(g) && Accepted(g, request) && Collected(g, request, given) && f in g
    requires GivesFields(env, depth, g, SetFields(g, given), fs)
    ensures FieldSent(env, depth, g, request, f, fs)
  {
    hide Gives, Accepted, Collected, SetFields, RequestOf, IsNamedBy, IsGiven, Candidates;
    FilledValue(g, request, given, f);
    AcceptedIff(g, request);
    if IsGiven(g, request, f) || f.default.Some? { CandidateSome(g, request, f); }
    hide DefaultWorks;
    if IsGiven(g, request, f) {
      var k := CandidateGiver(g, request, f, SetFields(g, given)[f.name]);
    } else if f.default.Some? {
      CandidateDefault(g, request, f, SetFields(g, given)[f.name]);
    } else if f.id in fs {
      CandidateNone(g, request, f);
      var h :| h in g && h.name in SetFields(g, given) && h.id == f.id;
      NameInjective(g, f, h);
    }
  }

  /** The value of a key that makes the field what was sent. */
  ghost function Chosen(env: Env, depth: nat, g: seq<FieldSpec>, request: map<string, Dyn>, f: FieldSpec, m: Meaning)
    : (v: Dyn)
  {
    if exists k :: GivesField(g, request, f, k) && Gives(env, depth, f.ty, request[k], m) then
      var k :| GivesField(g, request, f, k) && Gives(env, depth, f.ty, request[k], m);
      request[k]
    else Nil
  }

  ghost function Choice(env: Env, depth: nat, g: seq<FieldSpec>, request: map<string, Dyn>, fs: map<I16, Meaning>)
    : map<string, Dyn>
  {
    map n | n in Names(g) && Givers(g, request, n) != {} && FieldOf(g, n).id in fs ::
      Chosen(env, depth, g, request, FieldOf(g, n), fs[FieldOf(g, n).id])
  }

  lemma ChosenIs(env: Env, depth: nat, g: seq<FieldSpec>, request: map<string, Dyn>, f: FieldSpec, m: Meaning)
    returns (k: string)
    requires exists k :: GivesField(g, request, f, k) && Gives(env, depth, f.ty, request[k], m)
    ensures GivesField(g, request, f, k) && Gives(env, depth, f.ty, request[k], m)
    ensures Chosen(env, depth, g, request, f, m) == request[k]
  {
    hide Gives, IsNamedBy;
    k :| GivesField(g, request, f, k) && Gives(env, depth, f.ty, request[k], m)
         && Chosen(env, depth, g, request, f, m) == request[k];
  }

  lemma ChoiceAt(env: Env, depth: nat, g: seq<FieldSpec>, request: map<string, Dyn>, fs: map<I16, Meaning>,
                 f: FieldSpec)
    requires DistinctFields(g) && f in g && FieldSent(env, depth, g, request, f, fs)
    ensures f.name in Choice(env, depth, g, request, fs) <==> IsGiven(g, request, f)
    ensures f.name in Choice(env, depth, g, request, fs) ==>
              && f.id in fs && Gives(env, depth, f.ty, Choice(env, depth, g, request, fs)[f.name], fs[f.id])
              && exists k :: k in Givers(g, request, f.name) && k in request
                            && request[k] == Choice(env, depth, g, request, fs)[f.name]
  {
    hide Gives, IsNamedBy, Givers, Names, Chosen, RequestOf, IsGiven;
    MemberIsFieldOf(g, f);
    GivenIff(g, request, f);
    if IsGiven(g, request, f) {
      var k := ChosenIs(env, depth, g, request, f, fs[f.id]);
      GiversAre(g, request, f, k);
    }
  }

  lemma ChoiceIsCollected(env: Env, depth: nat, g: seq<FieldSpec>, request: map<string, Dyn>, fs: map<I16, Meaning>)
    requires DistinctFields(g) && forall f | f in g :: FieldSent(env, depth, g, request, f, fs)
    ensures Collected(g, request, Choice(env, depth, g, request, fs))
  {
    hide Gives, GivesField, Givers, FieldSent, Choice, Names, IsGiven;
    var c := Choice(env, depth, g, request, fs);
    forall f | f in g
      ensures f.name in c <==> Givers(g, request, f.name) != {}
      ensures f.name in c ==> exists k :: k in Givers(g, request, f.name) && k in request && request[k] == c[f.name]
    {
      ChoiceAt(env, depth, g, request, fs, f);
      GivenIff(g, request, f);
    }
    ChoiceNames(env, depth, g, request, fs);
    forall n ensures n in c <==> Givers(g, request, n) != {} {
      if Givers(g, request, n) != {} { GiversAreNamed(g, request, n); }
      if n in Names(g) { assert FieldOf(g, n) in g; }
    }
    forall n | n in c ensures exists k :: k in Givers(g, request, n) && k in request && request[k] == c[n] {
      assert FieldOf(g, n) in g;
    }
  }

  lemma ChoiceNames(env: Env, depth: nat, g: seq<FieldSpec>, request: map<string, Dyn>, fs: map<I16, Meaning>)
    ensures Choice(env, depth, g, request, fs).Keys <= Names(g)
  {
    hide Givers, Names, Chosen;
  }

  /** From what is sent to a run. */
  lemma SentByRun(env: Env, depth: nat, g: seq<FieldSpec>, request: map<string, Dyn>, fs: map<I16, Meaning>)
    requires DistinctFields(g) && Accepted(g, request)
    requires forall f | f in g :: FieldSent(env, depth, g, request, f, fs)
    requires forall id | id in fs :: exists f :: f in g && f.id == id
    ensures GivesGroup(env, depth, g, request, fs)
  {
    hide Gives, GivesGroup, Accepted, Collected, Choice, RequestOf, IsGiven, FieldSent, WithDefaults;
    var c := Choice(env, depth, g, request, fs);
    ChoiceIsCollected(env, depth, g, request, fs);
    AcceptedFills(g, request, c);
    var uf := WithDefaults(g, c).value;
    forall f | f in g
      ensures f.name in uf ==> f.id in fs && Gives(env, depth, f.ty, uf[f.name], fs[f.id])
      ensures f.id in fs ==> f.name in uf
    {
      FieldFilled(env, depth, g, request, fs, c, uf, f);
    }
    GroupGives(env, depth, g, request, c, fs);
  }

  lemma AcceptedFills(g: seq<FieldSpec>, request: map<string, Dyn>, given: map<string, Dyn>)
    requires DistinctFields(g) && Accepted(g, request) && Collected(g, request, given)
    ensures WithDefaults(g, given).Some?
  {
    hide WithDefaults, Unknown, Missing, Given, Collected;
    AcceptedAny(g, request, given);
  }

  lemma FieldFilled(env: Env, depth: nat, g: seq<FieldSpec>, request: map<string, Dyn>, fs: map<I16, Meaning>,
                    c: map<string, Dyn>, uf: map<string, Dyn>, f: FieldSpec)
    requires DistinctFields(g) && f in g && FieldSent(env, depth, g, request, f, fs)
    requires c == Choice(env, depth, g, request, fs) && WithDefaults(g, c) == Some(uf)
    ensures f.name in uf ==> f.id in fs && Gives(env, depth, f.ty, uf[f.name], fs[f.id])
    ensures f.id in fs ==> f.name in uf
  {
    hide Gives, Choice, RequestOf, IsGiven, WithDefaults, GivesField;
    ChoiceAt(env, depth, g, request, fs, f);
    WithDefaultsLookup(g, c);
    if f.name !in c && f.name in uf {
      var h :| h in g && h.name == f.name && h.default.Some?;
      NameInjective(g, f, h);
    }
  }

  lemma GroupSent(env: Env, depth: nat, g: seq<FieldSpec>, request: map<string, Dyn>, fs: map<I16, Meaning>)
    requires DistinctFields(g) && Accepted(g, request)
    ensures GivesGroup(env, depth, g, request, fs) <==>
            && (forall f | f in g :: FieldSent(env, depth, g, request, f, fs))
            && (forall id | id in fs :: exists f :: f in g && f.id == id)
  {
    hide Gives, GivesGroup, Accepted, FieldSent, GivesFields, Collected;
    if GivesGroup(env, depth, g, request, fs) {
      var given := GroupGivenBy(env, depth, g, request, fs);
      forall f | f in g ensures FieldSent(env, depth, g, request, f, fs) {
        RunSends(env, depth, g, request, given, fs, f);
      }
      OnlyFields(env, depth, g, SetFields(g, given), fs);
    }
    if && (forall f | f in g :: FieldSent(env, depth, g, request, f, fs))
       && (forall id | id in fs :: exists f :: f in g && f.id == id)
    {
      SentByRun(env, depth, g, request, fs);
    }
  }

  lemma OnlyFields(env: Env, depth: nat, g: seq<FieldSpec>, uf: map<string, Dyn>, fs: map<I16, Meaning>)
    requires GivesFields(env, depth, g, uf, fs)
    ensures forall id | id in fs :: exists f :: f in g && f.id == id
  {
    hide Gives;
  }

  lemma SentIsAccepted(env: Env, depth: nat, def: StructDef, request: map<string, Dyn>, fs: map<I16, Meaning>)
    requires StructSent(env, depth, def, request, fs)
    ensures Accepted(def.fields, request)
  {
    hide Gives, Accepted, IsGiven, RequestOf, IsNamedBy, GivesField;
    AcceptedIff(def.fields, request);
    forall f | f in def.fields && !IsGiven(def.fields, request, f) ensures DefaultWorks(f) {
      assert FieldSent(env, depth, def.fields, request, f, fs);
    }
  }

  lemma UnionCount(env: Env, depth: nat, def: StructDef, request: map<string, Dyn>, fs: map<I16, Meaning>)
    requires Accepted(def.fields, request) && GivesGroup(env, depth, def.fields, request, fs)
    ensures WrongUnion(def, request) <==> def.isUnion && |fs| != 1
  {
    hide GivesGroup, Given, WithDefaults, Unknown, Missing;
    GroupCount(env, depth, def.fields, request, fs);
  }

  lemma StructIs(env: Env, depth: nat, def: StructDef, request: map<string, Dyn>, m: Meaning)
    ensures GivesStruct(env, depth, def, request, m) <==> m.MStruct? && StructSent(env, depth, def, request, m.fields)
  {
    hide Gives, GivesGroup, Accepted, WrongUnion, FieldSent, IsNamedBy;
    var g := def.fields;
    AcceptedIff(g, request);
    if m.MStruct? && StructSent(env, depth, def, request, m.fields) {
      SentIsAccepted(env, depth, def, request, m.fields);
      GroupSent(env, depth, g, request, m.fields);
      UnionCount(env, depth, def, request, m.fields);
    }
    if GivesStruct(env, depth, def, request, m) {
      GroupSent(env, depth, g, request, m.fields);
      UnionCount(env, depth, def, request, m.fields);
    }
  }

  /** What runs may send of a struct. */
  lemma StructIsSent(env: Env, depth: nat, spec: Spec, v: Dyn, m: Meaning)
    requires depth > 0 && spec.Root().StructSpec?
    ensures Gives(env, depth, spec, v, m) <==>
            && StringKeyed(v) && m.MStruct?
            && StructSent(env, depth - 1, env.Def(spec.Root().structName), AsStrings(v).value, m.fields)
  {
    hide Gives, GivesStruct, StructSent, AsStrings, StringKeyed;
    GivesOfStruct(env, depth, spec, v, m);
    StringsOf(v);
    if AsStrings(v).Some? {
      StructIs(env, depth - 1, env.Def(spec.Root().structName), AsStrings(v).value, m);
    }
  }

  // ---- Lists and sets

  lemma ListMeaningIs(isSet: bool, elem: Spec, ms: seq<Meaning>, m: Meaning)
    ensures m == ListMeaning(isSet, elem, ms) <==>
            (if isSet then m.MSet? else m.MList?) && m.elemType == elem.Code() && m.items == ms
  {
    hide Spec.Code;
  }

  ghost predicate ItemsSent(env: Env, depth: nat, elem: Spec, vs: seq<Dyn>, ms: seq<Meaning>) {
    |ms| == |vs| && forall i | 0 <= i < |vs| :: Gives(env, depth, elem, vs[i], ms[i])
  }

  lemma ItemsAre(env: Env, depth: nat, elem: Spec, vs: seq<Dyn>, ms: seq<Meaning>)
    ensures GivesList(env, depth, elem, vs, ms) <==> ItemsSent(env, depth, elem, vs, ms)
  {
    hide Gives;
  }

  /** What runs may send of a list: its items in order. */
  lemma ListIsSent(env: Env, depth: nat, spec: Spec, v: Dyn, m: Meaning)
    requires depth > 0 && (spec.Root().ListSpec? || spec.Root().SetSpec?)
    ensures Gives(env, depth, spec, v, m) <==>
            && v.List? && (if spec.Root().SetSpec? then m.MSet? else m.MList?)
            && m.elemType == spec.Root().elem.Code()
            && ItemsSent(env, depth - 1, spec.Root().elem, v.items, m.items)
  {
    hide *;
    GivesOfList(env, depth, spec, v, m);
    var isSet, elem := spec.Root().SetSpec?, spec.Root().elem;
    if Gives(env, depth, spec, v, m) {
      var ms: seq<Meaning> :| GivesList(env, depth - 1, elem, v.items, ms) && m == ListMeaning(isSet, elem, ms);
      ListMeaningIs(isSet, elem, ms, m);
      ItemsAre(env, depth - 1, elem, v.items, ms);
    } else if v.List? && (m.MSet? || m.MList?) {
      ListMeaningIs(isSet, elem, m.items, m);
      ItemsAre(env, depth - 1, elem, v.items, m.items);
    }
  }

  // ---- Maps

  /** What a map key stands for: itself, or, if it is a string and the key type is not, what YAML makes of it,
      or itself all the same if that is nothing. */
  predicate KeyReadsAs(lib: Lib, ks: Spec, k: Key, d: Dyn) {
    match k
    case KNil => d == Nil
    case KBool(b) => d == Bool(b)
    case KInt(kind, n) => d == Int(kind, n)
    case KDouble(x) => d == Float(x)
    case KStr(s) =>
      if ks.Root().StringSpec? || ks.Root().BinarySpec? || lib.yaml(s).None? then d == Str(s)
      else lib.yaml(s) == Some(d)
  }

  lemma KeyReads(lib: Lib, ks: Spec, k: Key, d: Dyn)
    ensures ConvertMapKey(lib, ks, k) == d <==> KeyReadsAs(lib, ks, k, d)
  {
  }

  /** The item that the entry k is sent as. */
  ghost predicate PairSent(env: Env, depth: nat, ks: Spec, vs: Spec, m: map<Key, Dyn>, k: Key, p: (Meaning, Meaning)) {
    && k in m && !m[k].Nil? && Gives(env, depth, vs, m[k], p.1)
    && exists d :: KeyReadsAs(env.lib, ks, k, d) && Gives(env, depth, ks, d, p.0)
  }

  function KeysOf(pairs: map<Key, (Meaning, Meaning)>, p: (Meaning, Meaning)): set<Key> {
    set k | k in pairs && pairs[k] == p
  }

  /** As often as it is the item of a key. */
  ghost predicate IsBag(pairs: map<Key, (Meaning, Meaning)>, es: Items) { forall p :: es[p] == |KeysOf(pairs, p)| }

  ghost predicate AllPairs(env: Env, depth: nat, ks: Spec, vs: Spec, m: map<Key, Dyn>,
                           pairs: map<Key, (Meaning, Meaning)>)
  {
    && (forall k :: k in pairs <==> k in m && !m[k].Nil?)
    && (forall k | k in pairs :: PairSent(env, depth, ks, vs, m, k, pairs[k]))
  }

  /** One item for every entry that is not nil. */
  ghost predicate EntriesSent(env: Env, depth: nat, ks: Spec, vs: Spec, m: map<Key, Dyn>, es: Items) {
    exists pairs :: AllPairs(env, depth, ks, vs, m, pairs) && IsBag(pairs, es)
  }

  lemma PairIs(env: Env, depth: nat, ks: Spec, vs: Spec, m: map<Key, Dyn>, k: Key, p: (Meaning, Meaning))
    requires k in m && !m[k].Nil?
    ensures PairSent(env, depth, ks, vs, m, k, p) <==>
            Gives(env, depth, ks, ConvertMapKey(env.lib, ks, k), p.0) && Gives(env, depth, vs, m[k], p.1)
  {
    hide Gives, ConvertMapKey, KeyReadsAs;
    forall d ensures ConvertMapKey(env.lib, ks, k) == d <==> KeyReadsAs(env.lib, ks, k, d) {
      KeyReads(env.lib, ks, k, d);
    }
  }

  lemma KeysPut(pairs: map<Key, (Meaning, Meaning)>, k: Key, p: (Meaning, Meaning), q: (Meaning, Meaning))
    requires k !in pairs
    ensures KeysOf(pairs[k := p], q) == KeysOf(pairs, q) + if q == p then {k} else {}
    ensures k !in KeysOf(pairs, q)
  {
  }

  lemma KeysTake(pairs: map<Key, (Meaning, Meaning)>, k: Key, q: (Meaning, Meaning))
    requires k in pairs
    ensures KeysOf(pairs - {k}, q) == KeysOf(pairs, q) - if q == pairs[k] then {k} else {}
    ensures k in KeysOf(pairs, q) <==> q == pairs[k]
  {
  }

  lemma BagPut(pairs: map<Key, (Meaning, Meaning)>, es: Items, k: Key, p: (Meaning, Meaning))
    requires IsBag(pairs, es) && k !in pairs
    ensures IsBag(pairs[k := p], multiset{p} + es)
  {
    hide KeysOf;
    forall q ensures (multiset{p} + es)[q] == |KeysOf(pairs[k := p], q)| {
      KeysPut(pairs, k, p, q);
      assert es[q] == |KeysOf(pairs, q)|;
    }
  }

  lemma BagTake(pairs: map<Key, (Meaning, Meaning)>, es: Items, k: Key) returns (rest: Items)
    requires IsBag(pairs, es) && k in pairs
    ensures es == multiset{pairs[k]} + rest && IsBag(pairs - {k}, rest)
  {
    hide KeysOf;
    var p := pairs[k];
    KeysTake(pairs, k, p);
    assert k in KeysOf(pairs, p) && es[p] == |KeysOf(pairs, p)|;
    rest := es - multiset{p};
    forall q ensures rest[q] == |KeysOf(pairs - {k}, q)| {
      KeysTake(pairs, k, q);
      assert es[q] == |KeysOf(pairs, q)|;
    }
  }

  lemma NoBag(es: Items)
    ensures IsBag(map[], es) <==> es == multiset{}
  {
    forall p ensures KeysOf(map[], p) == {} { }
    hide KeysOf;
    if IsBag(map[], es) {
      forall p ensures es[p] == 0 { assert es[p] == |KeysOf(map[], p)|; }
    }
  }

  lemma PairKept(env: Env, depth: nat, ks: Spec, vs: Spec, m: map<Key, Dyn>, k: Key, j: Key, p: (Meaning, Meaning))
    requires j != k
    ensures PairSent(env, depth, ks, vs, m - {k}, j, p) <==> PairSent(env, depth, ks, vs, m, j, p)
  {
    hide Gives, KeyReadsAs;
    if j in m { assert (m - {k})[j] == m[j]; }
  }

  lemma PairsPut(env: Env, depth: nat, ks: Spec, vs: Spec, m: map<Key, Dyn>, rest: map<Key, Dyn>, k: Key,
                 pairs: map<Key, (Meaning, Meaning)>, p: (Meaning, Meaning))
    requires k in m && rest == m - {k} && AllPairs(env, depth, ks, vs, rest, pairs)
    requires !m[k].Nil? && PairSent(env, depth, ks, vs, m, k, p)
    ensures k !in pairs && AllPairs(env, depth, ks, vs, m, pairs[k := p])
  {
    hide PairSent;
    assert k !in rest;
    var more := pairs[k := p];
    forall j ensures j in more <==> j in m && !m[j].Nil? { assert j != k ==> (j in rest <==> j in m); }
    forall j | j in more ensures PairSent(env, depth, ks, vs, m, j, more[j]) {
      if j != k { PairKept(env, depth, ks, vs, m, k, j, pairs[j]); }
    }
  }

  lemma PairsSkip(env: Env, depth: nat, ks: Spec, vs: Spec, m: map<Key, Dyn>, k: Key,
                  pairs: map<Key, (Meaning, Meaning)>)
    requires k in m && AllPairs(env, depth, ks, vs, m - {k}, pairs) && m[k].Nil?
    ensures AllPairs(env, depth, ks, vs, m, pairs)
  {
    hide PairSent;
    forall j | j in pairs ensures PairSent(env, depth, ks, vs, m, j, pairs[j]) {
      PairKept(env, depth, ks, vs, m, k, j, pairs[j]);
    }
  }

  lemma PairsTake(env: Env, depth: nat, ks: Spec, vs: Spec, m: map<Key, Dyn>, k: Key,
                  pairs: map<Key, (Meaning, Meaning)>)
    requires k in m && AllPairs(env, depth, ks, vs, m, pairs)
    ensures AllPairs(env, depth, ks, vs, m - {k}, pairs - {k})
    ensures k in pairs <==> !m[k].Nil?
    ensures k in pairs ==> PairSent(env, depth, ks, vs, m, k, pairs[k])
  {
    hide PairSent;
    forall j | j in pairs - {k} ensures PairSent(env, depth, ks, vs, m - {k}, j, pairs[j]) {
      PairKept(env, depth, ks, vs, m, k, j, pairs[j]);
    }
  }

  lemma PairOfEntry(env: Env, depth: nat, ks: Spec, vs: Spec, m: map<Key, Dyn>, k: Key, one: Items)
    returns (p: (Meaning, Meaning))
    requires k in m && !m[k].Nil? && GivesEntry(env, depth, ks, vs, k, m[k], one)
    ensures one == multiset{p} && PairSent(env, depth, ks, vs, m, k, p)
  {
    hide Gives, ConvertMapKey, PairSent;
    var a, b :| Gives(env, depth, ks, ConvertMapKey(env.lib, ks, k), a) && Gives(env, depth, vs, m[k], b)
                && one == Pair(a, b);
    p := (a, b);
    PairIs(env, depth, ks, vs, m, k, p);
  }

  lemma OneSent(env: Env, depth: nat, ks: Spec, vs: Spec, m: map<Key, Dyn>, k: Key, one: Items, rest: Items)
    requires k in m && GivesEntry(env, depth, ks, vs, k, m[k], one) && EntriesSent(env, depth, ks, vs, m - {k}, rest)
    ensures EntriesSent(env, depth, ks, vs, m, one + rest)
  {
    hide Gives, AllPairs, IsBag, PairSent, ConvertMapKey, GivesEntry;
    var pairs: map<Key, (Meaning, Meaning)> :| AllPairs(env, depth, ks, vs, m - {k}, pairs) && IsBag(pairs, rest);
    if m[k].Nil? {
      NilGives(env, depth, ks, vs, k, one);
      assert one + rest == rest;
      PairsSkip(env, depth, ks, vs, m, k, pairs);
    } else {
      var p := PairOfEntry(env, depth, ks, vs, m, k, one);
      PairsPut(env, depth, ks, vs, m, m - {k}, k, pairs, p);
      BagPut(pairs, rest, k, p);
    }
  }

  lemma SentOne(env: Env, depth: nat, ks: Spec, vs: Spec, m: map<Key, Dyn>, k: Key, es: Items)
    returns (one: Items, rest: Items)
    requires k in m && EntriesSent(env, depth, ks, vs, m, es)
    ensures GivesEntry(env, depth, ks, vs, k, m[k], one) && EntriesSent(env, depth, ks, vs, m - {k}, rest)
    ensures es == one + rest
  {
    hide Gives, AllPairs, IsBag, PairSent, ConvertMapKey, GivesEntry;
    var pairs: map<Key, (Meaning, Meaning)> :| AllPairs(env, depth, ks, vs, m, pairs) && IsBag(pairs, es);
    PairsTake(env, depth, ks, vs, m, k, pairs);
    if m[k].Nil? {
      one, rest := multiset{}, es;
      assert pairs - {k} == pairs && es == one + rest;
      NilGives(env, depth, ks, vs, k, one);
    } else {
      rest := BagTake(pairs, es, k);
      one := Pair(pairs[k].0, pairs[k].1);
      assert one == multiset{pairs[k]};
      PairIs(env, depth, ks, vs, m, k, pairs[k]);
      PairGiven(env, depth, ks, vs, k, m[k], pairs[k].0, pairs[k].1);
    }
  }

  lemma NothingSent(env: Env, depth: nat, ks: Spec, vs: Spec, es: Items)
    ensures EntriesSent(env, depth, ks, vs, map[], es) <==> es == multiset{}
  {
    hide Gives, IsBag, PairSent;
    NoBag(es);
    assert AllPairs(env, depth, ks, vs, map[], map[]);
    forall pairs | AllPairs(env, depth, ks, vs, map[], pairs) ensures pairs == map[] {
      assert pairs.Keys == {};
    }
  }

  lemma {:induction false} EntriesAre(env: Env, depth: nat, ks: Spec, vs: Spec, m: map<Key, Dyn>, es: Items)
    ensures GivesEntries(env, depth, ks, vs, m, es) <==> EntriesSent(env, depth, ks, vs, m, es)
    decreases |m|
  {
    hide GivesEntries, GivesEntry, EntriesSent;
    if m == map[] {
      NothingSent(env, depth, ks, vs, es);
      NoEntriesGiven(env, depth, ks, vs, es);
    } else {
      var k := Pick(m);
      if GivesEntries(env, depth, ks, vs, m, es) {
        var one, rest := FirstTaken(env, depth, ks, vs, m, es);
        EntriesAre(env, depth, ks, vs, m - {k}, rest);
        OneSent(env, depth, ks, vs, m, k, one, rest);
      }
      if EntriesSent(env, depth, ks, vs, m, es) {
        var one, rest := SentOne(env, depth, ks, vs, m, k, es);
        EntriesAre(env, depth, ks, vs, m - {k}, rest);
        FirstPut(env, depth, ks, vs, m, one, rest);
      }
    }
  }

  lemma MapMeaningIs(ks: Spec, vs: Spec, es: Items, m: Meaning)
    ensures m == MapMeaning(ks, vs, es) <==>
            m.MMap? && m.keyType == ks.Code() && m.valueType == vs.Code() && m.entries == es
  {
    hide Spec.Code;
  }

  /** What runs may send of a map. */
  lemma MapIsSent(env: Env, depth: nat, spec: Spec, v: Dyn, m: Meaning)
    requires depth > 0 && spec.Root().MapSpec?
    ensures Gives(env, depth, spec, v, m) <==>
            && IsMap(v) && m.MMap?
            && m.keyType == spec.Root().key.Code() && m.valueType == spec.Root().value.Code()
            && EntriesSent(env, depth - 1, spec.Root().key, spec.Root().value, AsEntries(v).value, m.entries)
  {
    hide *;
    GivesOfMap(env, depth, spec, v, m);
    EntriesOf(v);
    var ks, vs := spec.Root().key, spec.Root().value;
    if Gives(env, depth, spec, v, m) {
      var es: Items :| GivesEntries(env, depth - 1, ks, vs, AsEntries(v).value, es) && m == MapMeaning(ks, vs, es);
      MapMeaningIs(ks, vs, es, m);
      EntriesAre(env, depth - 1, ks, vs, AsEntries(v).value, es);
    } else if IsMap(v) && m.MMap? {
      MapMeaningIs(ks, vs, m.entries, m);
      EntriesAre(env, depth - 1, ks, vs, AsEntries(v).value, m.entries);
    }
  }
}

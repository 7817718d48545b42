/** What the loops over the fields of a struct amount to, on the way in and on the way out: the fields
    of a wire struct are found in the decoded map under their names, each once; a request that names
    declared fields exactly leaves nothing to Go's iteration order; and the fields it gives are found
    in the encoded struct under their identifiers, each once. */
module ThriftStructs {
  import opened Option
  import opened Values
  import opened ThriftSpec
  import opened ThriftFields
  import opened ThriftEncode
  import opened ThriftDecode

  /** The name under which a decoded field is stored. */
  ghost function NameOf(g: seq<FieldSpec>, f: WField): string
    requires FieldByID(g, f.id).Some?
  {
    FieldByID(g, f.id).value.name
  }

  ghost predicate AllDeclared(g: seq<FieldSpec>, fs: seq<WField>) {
    forall i | 0 <= i < |fs| :: FieldByID(g, fs[i].id).Some?
  }

  ghost predicate AllDecode(env: Env, g: seq<FieldSpec>, fs: seq<WField>) {
    AllDeclared(g, fs) && forall i | 0 <= i < |fs| :: DecodeAs(env, g, fs[i]).Some?
  }

  lemma NamesOfDistinctFields(g: seq<FieldSpec>, a: WField, b: WField)
    requires DistinctFields(g) && FieldByID(g, a.id).Some? && FieldByID(g, b.id).Some? && a.id != b.id
    ensures NameOf(g, a) != NameOf(g, b)
  {
  }

  /** The map holds exactly the decoded fields of the list, under their names. */
  ghost predicate Holds(env: Env, g: seq<FieldSpec>, fs: seq<WField>, m: map<string, Dyn>)
    requires AllDecode(env, g, fs)
  {
    && (forall n | n in m :: exists i :: 0 <= i < |fs| && n == NameOf(g, fs[i]))
    && (forall i | 0 <= i < |fs| :: NameOf(g, fs[i]) in m && Some(m[NameOf(g, fs[i])]) == DecodeAs(env, g, fs[i]))
  }

  ghost function DecodeAs(env: Env, g: seq<FieldSpec>, f: WField): Option<Dyn>
    requires FieldByID(g, f.id).Some?
  {
    Decode(env, FieldByID(g, f.id).value.ty, f.value)
  }

  lemma {:induction false} DecodedFields(env: Env, g: seq<FieldSpec>, fs: seq<WField>)
    requires DistinctFields(g) && DistinctIDs(fs) && AllDecode(env, g, fs)
    ensures DecodeFields(env, g, fs).Some? && Holds(env, g, fs, DecodeFields(env, g, fs).value)
  {
    if fs != [] {
      var n := |fs| - 1;
      var pre := fs[..n];
      assert pre + [fs[n]] == fs;
      assert AllDecode(env, g, pre);
      DecodedFields(env, g, pre);
      DecodeFieldsStep(env, g, pre, fs[n]);
      HoldsStep(env, g, pre, fs[n], DecodeFields(env, g, pre).value);
    } else {
      assert DecodeFields(env, g, []) == Some(map[]);
    }
    hide Decode, DecodeFields, FieldByID, AllDeclared, NameOf, Holds;
  }

  lemma HoldsStep(env: Env, g: seq<FieldSpec>, pre: seq<WField>, f: WField, m: map<string, Dyn>)
    requires DistinctFields(g) && DistinctIDs(pre + [f]) && AllDecode(env, g, pre + [f])
    requires AllDecode(env, g, pre) && Holds(env, g, pre, m)
    ensures FieldByID(g, f.id).Some? && DecodeAs(env, g, f).Some?
    ensures Holds(env, g, pre + [f], m[NameOf(g, f) := DecodeAs(env, g, f).value])
  {
    hide Decode, FieldByID;
    var fs := pre + [f];
    assert fs[|pre|] == f;
    forall i | 0 <= i < |pre| ensures NameOf(g, pre[i]) != NameOf(g, f) && pre[i] == fs[i] {
      assert fs[i].id != fs[|pre|].id;
      NamesOfDistinctFields(g, pre[i], f);
    }
    var m' := m[NameOf(g, f) := DecodeAs(env, g, f).value];
    forall k | k in m' ensures exists i :: 0 <= i < |fs| && k == NameOf(g, fs[i]) {
      if k == NameOf(g, f) {
        assert k == NameOf(g, fs[|pre|]);
      } else {
        var i :| 0 <= i < |pre| && k == NameOf(g, pre[i]);
        assert k == NameOf(g, fs[i]);
      }
    }
    hide NameOf, AllDeclared;
  }

  lemma {:induction false} DefaultsPresent(g: seq<FieldSpec>, m: map<string, Dyn>)
    requires forall i | 0 <= i < |g| :: g[i].default.Some? ==> g[i].name in m
    ensures WithDefaults(g, m) == Some(m)
  {
    if g != [] { DefaultsPresent(g[..|g| - 1], m); }
  }

  /** All keys are declared names and no value is nil: nothing is left to Go's iteration order. */
  ghost predicate Exact(g: seq<FieldSpec>, m: map<string, Dyn>) {
    forall n | n in m :: n in Names(g) && m[n] != Nil
  }

  lemma ExactGivers(g: seq<FieldSpec>, m: map<string, Dyn>, n: string)
    requires DistinctFields(g) && Exact(g, m)
    ensures Givers(g, m, n) == if n in m then {n} else {}
  {
    forall k | k in m
      ensures GetField(g, k).Some? && GetField(g, k).value.name == k
    {
      var i :| 0 <= i < |g| && g[i].name == k;
      DeclaredNameResolves(g, g[i]);
    }
  }

  lemma ExactUnknown(g: seq<FieldSpec>, m: map<string, Dyn>)
    requires DistinctFields(g) && Exact(g, m)
    ensures Unknown(g, m) == {}
  {
    forall k | k in m ensures GetField(g, k).Some? {
      var i :| 0 <= i < |g| && g[i].name == k;
      DeclaredNameResolves(g, g[i]);
    }
  }

  lemma ExactGiven(g: seq<FieldSpec>, m: map<string, Dyn>)
    requires DistinctFields(g) && Exact(g, m)
    ensures Unknown(g, m) == {} && !Clash(g, m) && Given(g, m) == m
  {
    hide Unknown, GetField, Givers, Given, Clash;
    ExactUnknown(g, m);
    forall n ensures Givers(g, m, n) == if n in m then {n} else {} { ExactGivers(g, m, n); }
    OwnGivers(g, m);
  }

  /** Where every key is the only one that gives its field a value. */
  lemma OwnGivers(g: seq<FieldSpec>, m: map<string, Dyn>)
    requires forall n :: Givers(g, m, n) == if n in m then {n} else {}
    requires forall n | n in m :: n in Names(g)
    ensures !Clash(g, m) && Given(g, m) == m
  {
    hide GetField, Givers, Names;
    forall n | n in Given(g, m) ensures n in m && Given(g, m)[n] == m[n] {
    }
    assert Given(g, m).Keys == m.Keys;
  }

  ghost predicate FieldsDone(env: Env, depth: nat, g: seq<FieldSpec>, uf: map<string, Dyn>) {
    forall i | 0 <= i < |g| && g[i].name in uf :: Encode(env, depth, g[i].ty, uf[g[i].name]).Done?
  }

  /** The map holds exactly the encodings of the fields that have a value, under their identifiers. */
  ghost predicate HoldsIDs(env: Env, depth: nat, g: seq<FieldSpec>, uf: map<string, Dyn>, r: map<I16, Meaning>) {
    && (forall i | 0 <= i < |g| && g[i].name in uf ::
          g[i].id in r && Encode(env, depth, g[i].ty, uf[g[i].name]) == Done(r[g[i].id]))
    && (forall id | id in r :: exists i :: 0 <= i < |g| && g[i].id == id && g[i].name in uf)
  }

  lemma HoldsIDsStep(env: Env, depth: nat, pre: seq<FieldSpec>, f: FieldSpec, uf: map<string, Dyn>,
                     r: map<I16, Meaning>, m: Meaning)
    requires DistinctFields(pre + [f]) && HoldsIDs(env, depth, pre, uf, r)
    requires f.name in uf && Encode(env, depth, f.ty, uf[f.name]) == Done(m)
    ensures HoldsIDs(env, depth, pre + [f], uf, r[f.id := m])
  {
    hide Encode;
    var g := pre + [f];
    assert g[|pre|] == f;
    forall i | 0 <= i < |pre| ensures g[i] == pre[i] && g[i].id != f.id {
      assert g[i].id != g[|pre|].id;
    }
    var r' := r[f.id := m];
    forall id | id in r' ensures exists i :: 0 <= i < |g| && g[i].id == id && g[i].name in uf {
      if id != f.id {
        var i :| 0 <= i < |pre| && pre[i].id == id && pre[i].name in uf;
        assert g[i].id == id;
      }
    }
  }

  lemma HoldsIDsSkip(env: Env, depth: nat, pre: seq<FieldSpec>, f: FieldSpec, uf: map<string, Dyn>,
                     r: map<I16, Meaning>)
    requires HoldsIDs(env, depth, pre, uf, r) && f.name !in uf
    ensures HoldsIDs(env, depth, pre + [f], uf, r)
  {
    hide Encode;
    var g := pre + [f];
    forall i | 0 <= i < |pre| ensures g[i] == pre[i] { }
    forall id | id in r ensures exists i :: 0 <= i < |g| && g[i].id == id && g[i].name in uf {
      var i :| 0 <= i < |pre| && pre[i].id == id && pre[i].name in uf;
      assert g[i].id == id;
    }
  }

  lemma NoFieldsEncode(env: Env, depth: nat, uf: map<string, Dyn>)
    ensures EncodeFields(env, depth, [], uf) == Done(map[]) && HoldsIDs(env, depth, [], uf, map[])
  {
  }

  lemma {:induction false} EncodedFields(env: Env, depth: nat, g: seq<FieldSpec>, uf: map<string, Dyn>)
    requires DistinctFields(g) && FieldsDone(env, depth, g, uf)
    ensures EncodeFields(env, depth, g, uf).Done? && HoldsIDs(env, depth, g, uf, EncodeFields(env, depth, g, uf).value)
  {
    hide Encode, EncodeFields, HoldsIDs;
    if g == [] {
      NoFieldsEncode(env, depth, uf);
    } else {
      var n := |g| - 1;
      var pre, f := g[..n], g[n];
      assert pre + [f] == g;
      assert forall i | 0 <= i < n :: pre[i] == g[i];
      EncodedFields(env, depth, pre, uf);
      EncodeFieldsStep(env, depth, pre, f, uf);
      var r := EncodeFields(env, depth, pre, uf).value;
      if f.name in uf {
        HoldsIDsStep(env, depth, pre, f, uf, r, Encode(env, depth, f.ty, uf[f.name]).value);
      } else {
        HoldsIDsSkip(env, depth, pre, f, uf, r);
      }
    }
  }

  lemma ExactStruct(env: Env, depth: nat, def: StructDef, m: map<string, Dyn>)
    requires Exact(def.fields, m)
    requires forall i | 0 <= i < |def.fields| ::
               def.fields[i].required || def.fields[i].default.Some? ==> def.fields[i].name in m
    ensures EncodeStruct(env, depth, def, m) ==
            AsStruct(def, WrongUnion(def, m), EncodeFields(env, depth, def.fields, m))
  {
    hide Encode, EncodeFields, EncodeGroup, Unknown, Clash, Given, Missing, WithDefaults, WrongUnion, Exact;
    ExactGiven(def.fields, m);
    DefaultsPresent(def.fields, m);
    NothingMissing(def.fields, m);
    GroupWithoutClash(env, depth, def.fields, m);
  }

  lemma NothingMissing(g: seq<FieldSpec>, m: map<string, Dyn>)
    requires forall i | 0 <= i < |g| :: g[i].required || g[i].default.Some? ==> g[i].name in m
    ensures Missing(g, m) == {}
  {
  }

  lemma DecodedIsExact(env: Env, g: seq<FieldSpec>, fs: seq<WField>, m: map<string, Dyn>)
    requires AllDecode(env, g, fs) && Holds(env, g, fs, m)
    ensures Exact(g, m)
  {
    forall n | n in m ensures n in Names(g) && m[n] != Nil {
      var i :| 0 <= i < |fs| && n == NameOf(g, fs[i]);
      var j :| 0 <= j < |g| && g[j] == FieldByID(g, fs[i].id).value;
      assert g[j].name in Names(g);
      assert Some(m[n]) == DecodeAs(env, g, fs[i]);
    }
    hide Decode;
  }

  lemma {:induction false} AbsFieldsSize(fs: seq<WField>)
    requires DistinctIDs(fs)
    ensures |AbsFields(fs)| == |fs|
  {
    if fs != [] {
      var n := |fs| - 1;
      AbsFieldsSize(fs[..n]);
      AbsFieldsLookup(fs[..n]);
      assert !HasID(fs[..n], fs[n].id);
    }
  }

  lemma StructFieldsPresent(env: Env, g: seq<FieldSpec>, fs: seq<WField>, m: map<string, Dyn>)
    requires DistinctFields(g) && AllDecode(env, g, fs) && Holds(env, g, fs, m)
    ensures forall j | 0 <= j < |g| :: g[j].name in m <==> HasID(fs, g[j].id)
  {
    forall j | 0 <= j < |g|
      ensures g[j].name in m <==> HasID(fs, g[j].id)
    {
      FieldByIDIs(g, g[j]);
      if g[j].name in m {
        var i :| 0 <= i < |fs| && g[j].name == NameOf(g, fs[i]);
        NameInjective(g, g[j], FieldByID(g, fs[i].id).value);
      }
      if HasID(fs, g[j].id) {
        var i :| 0 <= i < |fs| && fs[i].id == g[j].id;
        assert NameOf(g, fs[i]) == g[j].name;
      }
    }
    hide Decode, FieldByID;
  }

  lemma DeclaredAt(env: Env, g: seq<FieldSpec>, fs: seq<WField>, i: nat)
    requires AllDecode(env, g, fs) && i < |fs|
    ensures FieldByID(g, fs[i].id).Some?
  {
  }

  lemma SameLookups(r: map<I16, Meaning>, fs: seq<WField>)
    requires DistinctIDs(fs)
    requires forall i | 0 <= i < |fs| :: fs[i].id in r && r[fs[i].id] == Abs(fs[i].value)
    requires forall id | id in r :: HasID(fs, id)
    ensures r == AbsFields(fs)
  {
    AbsFieldsLookup(fs);
  }
}

/** thrift/from_wire.go as methods, and the round trips of the encoder and decoder as code. */
module ThriftFromWire {
  import opened Option
  import opened Values
  import opened ThriftSpec
  import opened ThriftFields
  import opened ThriftScalars
  import opened ThriftEncode
  import opened ThriftDecode
  import opened ThriftStructs
  import opened ThriftFieldLoops
  import opened ThriftRoundTrip
  import opened ThriftTidy
  import opened ThriftNormalise
  import opened ThriftToWire
  import ThriftConst

  ghost predicate IndexedByID(specs: map<I16, FieldSpec>, g: seq<FieldSpec>) {
    && (forall f | f in g :: f.id in specs && specs[f.id] == f)
    && (forall id | id in specs :: specs[id] in g && specs[id].id == id)
  }

  method GetFieldMap(g: FieldGroup) returns (specs: map<I16, FieldSpec>)
    ensures IndexedByID(specs, g)
  {
    specs := map[];
    for i := 0 to |g|
      invariant IndexedByID(specs, g[..i])
    {
      forall f | f in g[..i] ensures f.id != g[i].id {
        var j :| 0 <= j < i && g[j] == f;
      }
      specs := specs[g[i].id := g[i]];
      assert g[..i + 1] == g[..i] + [g[i]];
    }
    assert g[..|g|] == g;
  }

  lemma IndexedLookup(specs: map<I16, FieldSpec>, g: seq<FieldSpec>, id: I16)
    requires IndexedByID(specs, g)
    ensures FieldByID(g, id) == if id in specs then Some(specs[id]) else None
  {
    if id in specs {
      var i :| 0 <= i < |g| && g[i] == specs[id];
      assert Declares(g, id);
    }
  }

  method ValueFromWire(env: Env, spec: Spec, w: Wire) returns (r: Option<Dyn>)
    ensures r == Decode(env, spec, w)
    decreases w, 2
  {
    hide Decode, DecodeScalar, WithDefaults;
    if spec.Code() != w.Code() {
      Mismatch(env, spec, w);
      return None;
    }
    match w
    case WStruct(fs) =>
      DecodeOfStruct(env, spec, w);
      r := ValueFromWireStruct(env, env.Def(spec.Root().structName).fields, w);
    case WList(_, ws) =>
      DecodeOfList(env, spec, w);
      var vs := ValueFromWireList(env, spec.Root().elem, ws);
      return match vs case None => None case Some(l) => Some(List(l));
    case WSet(_, ws) =>
      DecodeOfList(env, spec, w);
      var vs := ValueFromWireList(env, spec.Root().elem, ws);
      return match vs case None => None case Some(l) => Some(List(l));
    case WMap(_, _, es) =>
      DecodeOfMap(env, spec, w);
      var m := ValueFromWireMap(env, spec.Root().key, spec.Root().value, es);
      return match m case None => None case Some(l) => Some(StrMap(l));
    case _ =>
      DecodeOfScalar(env, spec, w);
      var v := ScalarFromWire(spec.Root(), w);
      return Some(v);
  }

  lemma Mismatch(env: Env, spec: Spec, w: Wire)
    requires spec.Code() != w.Code()
    ensures Decode(env, spec, w).None?
  {
  }

  method ValueFromWireList(env: Env, elem: Spec, ws: seq<Wire>) returns (r: Option<seq<Dyn>>)
    ensures r == DecodeList(env, elem, ws)
    decreases ws, 1
  {
    hide DecodeList, Decode;
    var result: seq<Dyn> := [];
    ListTripsEmpty(env, elem, 0);
    for i := 0 to |ws|
      invariant DecodeList(env, elem, ws[..i]) == Some(result)
    {
      assert ws[..i + 1] == ws[..i] + [ws[i]];
      DecodeListStep(env, elem, ws[..i], ws[i]);
      var v := ValueFromWire(env, elem, ws[i]);
      if v.None? {
        ListPrefixFails(env, elem, ws, i + 1);
        return None;
      }
      result := result + [v.value];
    }
    assert ws[..|ws|] == ws;
    return Some(result);
  }

  lemma {:induction false} ListPrefixFails(env: Env, elem: Spec, ws: seq<Wire>, k: nat)
    requires k <= |ws| && DecodeList(env, elem, ws[..k]).None?
    ensures DecodeList(env, elem, ws).None?
  {
    hide DecodeList, Decode;
    if k == |ws| {
      assert ws[..k] == ws;
    } else {
      var n := |ws| - 1;
      assert ws[..n][..k] == ws[..k];
      ListPrefixFails(env, elem, ws[..n], k);
      assert ws[..n] + [ws[n]] == ws;
      DecodeListStep(env, elem, ws[..n], ws[n]);
    }
  }

  method ItemFromWire(env: Env, ks: Spec, vs: Spec, e: WItem) returns (r: Option<(string, Dyn)>)
    ensures r == DecodeItem(env, ks, vs, e)
    decreases e
  {
    hide DecodeItem, Decode, KeyText;
    ItemDecodes(env, ks, vs, e);
    var key := ValueFromWire(env, ks, e.key);
    if key.None? { return None; }
    var value := ValueFromWire(env, vs, e.value);
    if value.None? { return None; }
    var text := KeyText(env.lib, key.value);
    if text.None? { return None; }
    return Some((text.value, value.value));
  }

  method ValueFromWireMap(env: Env, ks: Spec, vs: Spec, es: seq<WItem>) returns (r: Option<map<string, Dyn>>)
    ensures r == DecodeEntries(env, ks, vs, es)
    decreases es
  {
    hide DecodeEntries, Decode;
    var result: map<string, Dyn> := map[];
    NothingDecoded(env, ks, vs);
    for i := 0 to |es|
      invariant DecodeEntries(env, ks, vs, es[..i]) == Some(result)
    {
      assert es[..i + 1] == es[..i] + [es[i]];
      DecodeEntriesStep(env, ks, vs, es[..i], es[i]);
      var item := ItemFromWire(env, ks, vs, es[i]);
      if item.None? {
        EntriesPrefixFails(env, ks, vs, es, i + 1);
        return None;
      }
      result := result[item.value.0 := item.value.1];
    }
    assert es[..|es|] == es;
    return Some(result);
  }

  lemma NothingDecoded(env: Env, ks: Spec, vs: Spec)
    ensures DecodeEntries(env, ks, vs, []) == Some(map[])
  {
  }

  lemma ItemDecodes(env: Env, ks: Spec, vs: Spec, e: WItem)
    ensures DecodeItem(env, ks, vs, e) ==
            if Decode(env, ks, e.key).None? || Decode(env, vs, e.value).None? then None
            else
              var text := KeyText(env.lib, Decode(env, ks, e.key).value);
              if text.None? then None else Some((text.value, Decode(env, vs, e.value).value))
  {
    hide Decode, KeyText;
  }

  lemma {:induction false} EntriesPrefixFails(env: Env, ks: Spec, vs: Spec, es: seq<WItem>, k: nat)
    requires k <= |es| && DecodeEntries(env, ks, vs, es[..k]).None?
    ensures DecodeEntries(env, ks, vs, es).None?
  {
    hide DecodeEntries, Decode;
    if k == |es| {
      assert es[..k] == es;
    } else {
      var n := |es| - 1;
      assert es[..n][..k] == es[..k];
      EntriesPrefixFails(env, ks, vs, es[..n], k);
      assert es[..n] + [es[n]] == es;
      DecodeEntriesStep(env, ks, vs, es[..n], es[n]);
    }
  }

  lemma {:induction false} FieldsPrefixFails(env: Env, g: seq<FieldSpec>, fs: seq<WField>, k: nat)
    requires k <= |fs| && DecodeFields(env, g, fs[..k]).None?
    ensures DecodeFields(env, g, fs).None?
  {
    hide DecodeFields, Decode, FieldByID;
    if k == |fs| {
      assert fs[..k] == fs;
    } else {
      var n := |fs| - 1;
      assert fs[..n][..k] == fs[..k];
      FieldsPrefixFails(env, g, fs[..n], k);
      assert fs[..n] + [fs[n]] == fs;
      DecodeFieldsStep(env, g, fs[..n], fs[n]);
    }
  }

  /** What valueFromWireStruct computes. */
  ghost function StructValue(env: Env, g: seq<FieldSpec>, fs: seq<WField>): Option<Dyn> {
    match DecodeFields(env, g, fs)
    case None => None
    case Some(m) => match WithDefaults(g, m) case None => None case Some(r) => Some(StrMap(r))
  }

  method ValueFromWireStruct(env: Env, g: FieldGroup, w: Wire) returns (r: Option<Dyn>)
    requires w.WStruct?
    ensures r == StructValue(env, g, w.fields)
    decreases w, 1
  {
    hide Decode, FieldByID, WithDefaults;
    var fs := w.fields;
    var result: map<string, Dyn> := map[];
    var specs := GetFieldMap(g);
    for i := 0 to |fs|
      invariant DecodeFields(env, g, fs[..i]) == Some(result)
    {
      hide DecodeFields, DecodeField, IndexedByID;
      assert fs[..i + 1] == fs[..i] + [fs[i]];
      DecodeFieldsStep(env, g, fs[..i], fs[i]);
      IndexedLookup(specs, g, fs[i].id);
      if fs[i].id !in specs { continue; }
      var fSpec := specs[fs[i].id];
      var v := ValueFromWire(env, fSpec.ty, fs[i].value);
      if v.None? {
        FieldsPrefixFails(env, g, fs, i + 1);
        return None;
      }
      result := result[fSpec.name := v.value];
    }
    assert fs[..|fs|] == fs;
    var ok, full := AddDefaults(g, specs, result);
    return if ok then Some(StrMap(full)) else None;
  }

  /** The loop over the declared fields, in any order. */
  method AddDefaults(g: FieldGroup, specs: map<I16, FieldSpec>, given: map<string, Dyn>)
    returns (ok: bool, result: map<string, Dyn>)
    requires IndexedByID(specs, g)
    ensures if ok then WithDefaults(g, given) == Some(result) else WithDefaults(g, given).None?
  {
    hide WithDefaults, RequestOf, DefaultsFilled, Names;
    result := given;
    var left := specs.Keys;
    ghost var done, missing: set<string> := {}, {};
    NothingFilled(g, given);
    while left != {}
      invariant left <= specs.Keys && done <= Names(g)
      invariant forall f | f in g :: f.name in done <==> f.id !in left
      invariant DefaultsFilled(g, given, done, result, missing)
      decreases left
    {
      var id :| id in left;
      var fSpec := specs[id];
      MemberIsFieldOf(g, fSpec);
      FilledMore(g, given, done, result, missing, fSpec.name);
      OthersDiffer(g, fSpec);
      left, done := left - {id}, done + {fSpec.name};
      if fSpec.name in result { continue; }
      if fSpec.default.Some? {
        var v := ThriftConst.ConstToRequest(fSpec.default.value);
        if v.None? {
          DefaultPanics(g, given, fSpec);
          return false, result;
        }
        result := result[fSpec.name := v.value];
      } else if fSpec.required {
        missing := missing + {fSpec.name};
      }
    }
    AllNamesDone(g, done);
    WithDefaultsIs(g, given, result, missing);
    return true, result;
  }

  lemma OthersDiffer(g: seq<FieldSpec>, f: FieldSpec)
    requires DistinctFields(g) && f in g
    ensures forall h | h in g && h != f :: h.name != f.name && h.id != f.id
  {
  }

  lemma AllNamesDone(g: seq<FieldSpec>, done: set<string>)
    requires done <= Names(g) && forall f | f in g :: f.name in done
    ensures done == Names(g)
  {
  }

  // ---- Decode, then encode

  /** valueFromWire followed by toWireValue, as the converter's own test does. Whatever it is given,
      what a run returns is canonical; given a canonical value, every run returns it, up to the
      order of map items. */
  method Reencode(env: Env, depth: nat, spec: Spec, w: Wire) returns (r: Result<Wire>)
    requires LinkedEnv(env) && Readable(env.lib, spec)
    ensures r.Ok? ==> Canonical(env, spec, r.value)
    ensures Canonical(env, spec, w) && Height(w) <= depth ==> r.Ok? && Abs(r.value) == Abs(w)
  {
    hide Decode, Encode, Conforms, Readable, LinkedEnv, DistinctKeys, Height, Canonical;
    var v := ValueFromWire(env, spec, w);
    if v.None? {
      NotCanonical(env, depth, spec, w);
      return Err;
    }
    r := ToWireValue(env, depth, spec, v.value);
    ReencodeMeaning(env, depth, spec, w, v.value, r);
  }

  lemma NotCanonical(env: Env, depth: nat, spec: Spec, w: Wire)
    requires LinkedEnv(env) && Readable(env.lib, spec) && Decode(env, spec, w).None?
    ensures !(Canonical(env, spec, w) && Height(w) <= depth)
  {
    hide Decode, Encode, Conforms, Readable, DistinctKeys, Height;
    if Canonical(env, spec, w) && Height(w) <= depth { RoundTrip(env, spec, w, depth); }
  }

  lemma ReencodeMeaning(env: Env, depth: nat, spec: Spec, w: Wire, v: Dyn, r: Result<Wire>)
    requires LinkedEnv(env) && Readable(env.lib, spec) && Decode(env, spec, w) == Some(v)
    requires Implements(r, Encode(env, depth, spec, v)) && (r.Ok? ==> Conforms(env, spec, r.value))
    ensures r.Ok? ==> Canonical(env, spec, r.value) && Encode(env, depth, spec, v) == Done(Abs(r.value))
    ensures Canonical(env, spec, w) && Height(w) <= depth ==> r.Ok? && Abs(r.value) == Abs(w)
  {
    hide Decode, Encode, Conforms, Readable, DistinctKeys, Height, Abs;
    DecodedIsSettled(env, spec, w, depth);
    if r.Ok? {
      Normalises(env, spec, w, depth, r.value, Height(r.value));
    }
    if Canonical(env, spec, w) && Height(w) <= depth {
      RoundTrip(env, spec, w, depth);
    }
  }

  /** Normalising twice is normalising once, in any pair of runs: the second run succeeds and
      changes nothing but the order of map items. */
  method Normalise(env: Env, depth: nat, spec: Spec, w: Wire, depth2: nat)
    returns (r: Result<Wire>, again: Result<Wire>)
    requires LinkedEnv(env) && Readable(env.lib, spec)
    ensures r.Ok? && Height(r.value) <= depth2 ==> again.Ok? && Abs(again.value) == Abs(r.value)
  {
    r := Reencode(env, depth, spec, w);
    again := Err;
    if r.Ok? { again := Reencode(env, depth2, spec, r.value); }
  }
}

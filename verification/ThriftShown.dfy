/** What a response shows. */
module ThriftShown {
  // What each wire value is decoded to, stated item by item and field by field: which occurrence of a field
  // or key counts, where defaults come in, and what is refused.

  import opened Option
  import opened Values
  import opened ThriftSpec
  import opened ThriftFields
  import opened ThriftScalars
  import opened ThriftDecode
  import opened ThriftStructs
  import opened ThriftFieldLoops
  import Decimal

  // ---- Scalars

  /** The name of the first item of this value, or else the number in parentheses. */
  ghost predicate ShowsEnum(enumName: string, items: seq<EnumItem>, n: I32, s: string) {
    || (exists i: nat :: FirstWith(items, n, i) && s == items[i].name)
    || ((forall i: nat :: !FirstWith(items, n, i)) && s == enumName + "(" + Decimal.Format(n) + ")")
  }

  predicate FirstWith(items: seq<EnumItem>, n: I32, i: nat) {
    i < |items| && items[i].value == n && forall k | 0 <= k < i :: items[k].value != n
  }

  ghost predicate Shows(root: Spec, w: Wire, v: Dyn) {
    match w
    case WBool(b) => v == Bool(b)
    case WI8(n) => v == Int(GoInt8, n)
    case WI16(n) => v == Int(GoInt16, n)
    case WI32(n) =>
      if root.EnumSpec? then v.Str? && ShowsEnum(root.enumName, root.items, n, v.s) else v == Int(GoInt32, n)
    case WI64(n) => v == Int(GoInt64, n)
    case WDouble(d) => v == Float(d)
    case WBinary(b) => v == if root.StringSpec? then Str(b) else Bytes(b)
    case _ => false
  }

  lemma FirstWithIsUnique(items: seq<EnumItem>, n: I32, i: nat, j: nat)
    requires FirstWith(items, n, i) && FirstWith(items, n, j)
    ensures i == j
  {
  }

  lemma EnumIsShown(enumName: string, items: seq<EnumItem>, n: I32, s: string)
    ensures EnumText(enumName, items, n) == s <==> ShowsEnum(enumName, items, n, s)
  {
    hide EnumText, Decimal.Format;
    var j := EnumTextFirst(enumName, items, n);
    if j < |items| {
      assert FirstWith(items, n, j);
      forall i: nat | FirstWith(items, n, i) ensures i == j { FirstWithIsUnique(items, n, i, j); }
    }
  }

  /** A scalar is shown as a value of its kind, an enum by name, a binary as bytes; one of another type than
      the specification has is refused. */
  lemma ScalarIsShown(env: Env, spec: Spec, w: Wire, v: Dyn)
    requires w.Scalar()
    ensures Decode(env, spec, w) == Some(v) <==> spec.Code() == w.Code() && Shows(spec.Root(), w, v)
  {
    hide Decode, ShowsEnum, EnumText;
    if spec.Code() == w.Code() {
      DecodeOfScalar(env, spec, w);
      var root := spec.Root();
      if w.WI32? && root.EnumSpec? && v.Str? { EnumIsShown(root.enumName, root.items, w.i32, v.s); }
    } else {
      OtherType(env, spec, w);
    }
  }

  lemma OtherType(env: Env, spec: Spec, w: Wire)
    requires spec.Code() != w.Code()
    ensures Decode(env, spec, w) == None
  {
  }

  // ---- Lists and sets

  ghost predicate ListShown(env: Env, elem: Spec, ws: seq<Wire>, vs: seq<Dyn>) {
    |vs| == |ws| && forall i | 0 <= i < |ws| :: Decode(env, elem, ws[i]) == Some(vs[i])
  }

  lemma {:induction false} ItemsShown(env: Env, elem: Spec, ws: seq<Wire>, vs: seq<Dyn>)
    ensures DecodeList(env, elem, ws) == Some(vs) <==> ListShown(env, elem, ws, vs)
  {
    hide Decode;
    if ws != [] {
      var n := |ws| - 1;
      assert ws[..n] + [ws[n]] == ws;
      DecodeListStep(env, elem, ws[..n], ws[n]);
      hide DecodeList;
      if |vs| == |ws| {
        ItemsShown(env, elem, ws[..n], vs[..n]);
        assert vs[..n] + [vs[n]] == vs;
      }
      if DecodeList(env, elem, ws) == Some(vs) {
        var pre := DecodeList(env, elem, ws[..n]).value;
        ItemsShown(env, elem, ws[..n], pre);
        assert vs[..n] == pre;
      }
    }
  }

  /** A list is shown item by item, in order. */
  lemma ListIsShown(env: Env, spec: Spec, w: Wire, v: Dyn)
    requires (w.WList? && spec.Root().ListSpec?) || (w.WSet? && spec.Root().SetSpec?)
    ensures Decode(env, spec, w) == Some(v) <==> v.List? && ListShown(env, spec.Root().elem, w.items, v.items)
  {
    DecodeOfList(env, spec, w);
    hide Decode, DecodeList, ListShown;
    if v.List? { ItemsShown(env, spec.Root().elem, w.items, v.items); }
  }

  // ---- Maps

  /** An item is stored under its key if that is shown as a string, or else under its JSON text. */
  ghost predicate ItemShown(env: Env, ks: Spec, vs: Spec, e: WItem, s: string, x: Dyn) {
    && Decode(env, ks, e.key).Some?
    && (var k := Decode(env, ks, e.key).value; if k.Str? then s == k.s else env.lib.json(k) == Some(s))
    && Decode(env, vs, e.value) == Some(x)
  }

  /** The last of several values stored under one text is kept. */
  ghost predicate LastKept(texts: seq<string>, xs: seq<Dyn>, m: map<string, Dyn>) {
    && |texts| == |xs|
    && (forall s :: s in m <==> s in texts)
    && forall i | 0 <= i < |texts| && (forall j | i < j < |texts| :: texts[j] != texts[i]) ::
         texts[i] in m && m[texts[i]] == xs[i]
  }

  ghost predicate AllShown(env: Env, ks: Spec, vs: Spec, es: seq<WItem>, texts: seq<string>, xs: seq<Dyn>) {
    && |texts| == |es| == |xs|
    && forall i | 0 <= i < |es| :: ItemShown(env, ks, vs, es[i], texts[i], xs[i])
  }

  ghost predicate MapShown(env: Env, ks: Spec, vs: Spec, es: seq<WItem>, m: map<string, Dyn>) {
    exists texts, xs :: AllShown(env, ks, vs, es, texts, xs) && LastKept(texts, xs, m)
  }

  lemma ItemIsShown(env: Env, ks: Spec, vs: Spec, e: WItem, s: string, x: Dyn)
    ensures DecodeItem(env, ks, vs, e) == Some((s, x)) <==> ItemShown(env, ks, vs, e, s, x)
  {
    hide Decode;
  }

  lemma LastKeptStep(texts: seq<string>, xs: seq<Dyn>, m: map<string, Dyn>, s: string, x: Dyn)
    requires LastKept(texts, xs, m)
    ensures LastKept(texts + [s], xs + [x], m[s := x])
  {
    var texts', xs', m' := texts + [s], xs + [x], m[s := x];
    assert texts'[|texts|] == s && xs'[|texts|] == x;
    assert forall i | 0 <= i < |texts| :: texts'[i] == texts[i] && xs'[i] == xs[i];
    forall i | 0 <= i < |texts'| && (forall j | i < j < |texts'| :: texts'[j] != texts'[i])
      ensures texts'[i] in m' && m'[texts'[i]] == xs'[i]
    {
      if i < |texts| {
        assert texts'[|texts|] != texts'[i];
        forall j | i < j < |texts| ensures texts[j] != texts[i] { assert texts'[j] != texts'[i]; }
      }
    }
  }

  lemma {:induction false} LastIndex(texts: seq<string>, s: string) returns (i: nat)
    requires s in texts
    ensures i < |texts| && texts[i] == s && forall j | i < j < |texts| :: texts[j] != s
  {
    i := |texts| - 1;
    if texts[i] != s {
      assert s in texts[..i];
      i := LastIndex(texts[..i], s);
    }
  }

  lemma LastKeptOnce(texts: seq<string>, xs: seq<Dyn>, m: map<string, Dyn>, m': map<string, Dyn>)
    requires LastKept(texts, xs, m) && LastKept(texts, xs, m')
    ensures m == m'
  {
    assert m.Keys == m'.Keys;
    forall s | s in m ensures m[s] == m'[s] { var i := LastIndex(texts, s); }
  }

  lemma AllShownOnce(env: Env, ks: Spec, vs: Spec, es: seq<WItem>, texts: seq<string>, xs: seq<Dyn>,
                     texts': seq<string>, xs': seq<Dyn>)
    requires AllShown(env, ks, vs, es, texts, xs) && AllShown(env, ks, vs, es, texts', xs')
    ensures texts == texts' && xs == xs'
  {
    hide Decode;
    forall i | 0 <= i < |es| ensures texts[i] == texts'[i] && xs[i] == xs'[i] {
      assert ItemShown(env, ks, vs, es[i], texts[i], xs[i]) && ItemShown(env, ks, vs, es[i], texts'[i], xs'[i]);
    }
  }

  lemma {:induction false} EntriesShown(env: Env, ks: Spec, vs: Spec, es: seq<WItem>)
    ensures DecodeEntries(env, ks, vs, es).None? ==> forall texts, xs :: !AllShown(env, ks, vs, es, texts, xs)
    ensures DecodeEntries(env, ks, vs, es).Some? ==> MapShown(env, ks, vs, es, DecodeEntries(env, ks, vs, es).value)
  {
    hide *;
    if es == [] {
      NoneShown(env, ks, vs);
    } else {
      var n := |es| - 1;
      var pre, e := es[..n], es[n];
      assert pre + [e] == es;
      EntriesShown(env, ks, vs, pre);
      DecodeEntriesStep(env, ks, vs, pre, e);
      if DecodeEntries(env, ks, vs, es).Some? {
        OneMoreShown(env, ks, vs, pre, e, DecodeEntries(env, ks, vs, pre).value, DecodeItem(env, ks, vs, e).value);
      } else {
        forall texts, xs ensures !AllShown(env, ks, vs, es, texts, xs) {
          if AllShown(env, ks, vs, es, texts, xs) {
            AllShownFewer(env, ks, vs, es, texts, xs);
            ItemIsShown(env, ks, vs, e, texts[n], xs[n]);
          }
        }
      }
    }
  }

  lemma OneMoreShown(env: Env, ks: Spec, vs: Spec, pre: seq<WItem>, e: WItem, m: map<string, Dyn>, kv: (string, Dyn))
    requires MapShown(env, ks, vs, pre, m) && DecodeItem(env, ks, vs, e) == Some(kv)
    ensures MapShown(env, ks, vs, pre + [e], m[kv.0 := kv.1])
  {
    hide Decode, DecodeItem, AllShown, LastKept;
    var texts, xs :| AllShown(env, ks, vs, pre, texts, xs) && LastKept(texts, xs, m);
    ItemIsShown(env, ks, vs, e, kv.0, kv.1);
    LastKeptStep(texts, xs, m, kv.0, kv.1);
    AllShownStep(env, ks, vs, pre, e, texts, xs, kv.0, kv.1);
  }

  lemma AllShownStep(env: Env, ks: Spec, vs: Spec, pre: seq<WItem>, e: WItem, texts: seq<string>, xs: seq<Dyn>,
                     s: string, x: Dyn)
    requires AllShown(env, ks, vs, pre, texts, xs) && ItemShown(env, ks, vs, e, s, x)
    ensures AllShown(env, ks, vs, pre + [e], texts + [s], xs + [x])
  {
    hide ItemShown;
  }

  lemma AllShownFewer(env: Env, ks: Spec, vs: Spec, es: seq<WItem>, texts: seq<string>, xs: seq<Dyn>)
    requires es != [] && AllShown(env, ks, vs, es, texts, xs)
    ensures |texts| == |es| == |xs|
    ensures AllShown(env, ks, vs, es[..|es| - 1], texts[..|es| - 1], xs[..|es| - 1])
    ensures ItemShown(env, ks, vs, es[|es| - 1], texts[|es| - 1], xs[|es| - 1])
  {
    hide ItemShown;
  }

  lemma NoneShown(env: Env, ks: Spec, vs: Spec)
    ensures DecodeEntries(env, ks, vs, []) == Some(map[]) && MapShown(env, ks, vs, [], map[])
  {
    assert AllShown(env, ks, vs, [], [], []) && LastKept([], [], map[]);
  }

  /** A map is shown item by item; of items with one key text the last counts. */
  lemma MapIsShown(env: Env, spec: Spec, w: Wire, v: Dyn)
    requires w.WMap? && spec.Root().MapSpec?
    ensures Decode(env, spec, w) == Some(v) <==>
            v.StrMap? && MapShown(env, spec.Root().key, spec.Root().value, w.entries, v.fields)
  {
    DecodeOfMap(env, spec, w);
    hide Decode, DecodeEntries, AllShown, LastKept;
    var ks, vs := spec.Root().key, spec.Root().value;
    EntriesShown(env, ks, vs, w.entries);
    if v.StrMap? && MapShown(env, ks, vs, w.entries, v.fields) {
      var texts, xs :| AllShown(env, ks, vs, w.entries, texts, xs) && LastKept(texts, xs, v.fields);
      var m := DecodeEntries(env, ks, vs, w.entries).value;
      var texts', xs' :| AllShown(env, ks, vs, w.entries, texts', xs') && LastKept(texts', xs', m);
      AllShownOnce(env, ks, vs, w.entries, texts, xs, texts', xs');
      LastKeptOnce(texts, xs, v.fields, m);
    }
  }

  // ---- Structs

  /** Field i is the last on the wire with this identifier. */
  predicate LastWith(fs: seq<WField>, id: I16, i: nat) {
    i < |fs| && fs[i].id == id && forall j | i < j < |fs| :: fs[j].id != id
  }

  /** Every field that is declared can be decoded. */
  ghost predicate KnownDecode(env: Env, g: seq<FieldSpec>, fs: seq<WField>) {
    forall i, f | 0 <= i < |fs| && f in g && f.id == fs[i].id :: Decode(env, f.ty, fs[i].value).Some?
  }

  /** What a field is shown as: its last value on the wire, or else its default, or not at all. */
  ghost predicate FieldShown(env: Env, f: FieldSpec, fs: seq<WField>, m: map<string, Dyn>) {
    if HasID(fs, f.id) then
      f.name in m && forall i: nat | LastWith(fs, f.id, i) :: Decode(env, f.ty, fs[i].value) == Some(m[f.name])
    else if f.default.Some? then f.name in m && RequestOf(f.default.value) == Some(m[f.name])
    else f.name !in m
  }

  ghost predicate StructShown(env: Env, g: seq<FieldSpec>, fs: seq<WField>, m: map<string, Dyn>) {
    && KnownDecode(env, g, fs)
    && (forall n | n in m :: exists f :: f in g && f.name == n)
    && (forall f | f in g :: FieldShown(env, f, fs, m))
  }

  lemma {:induction false} LastOnWire(fs: seq<WField>, id: I16) returns (i: nat)
    requires HasID(fs, id)
    ensures LastWith(fs, id, i)
  {
    i := |fs| - 1;
    if fs[i].id != id {
      var k :| 0 <= k < |fs| && fs[k].id == id;
      assert fs[..i][k].id == id;
      i := LastOnWire(fs[..i], id);
    }
  }

  /** What the fields on the wire leave in the map. */
  ghost predicate WireFieldsShown(env: Env, g: seq<FieldSpec>, fs: seq<WField>, m: map<string, Dyn>) {
    && (forall n | n in m :: exists f :: f in g && f.name == n && HasID(fs, f.id))
    && (forall f | f in g && HasID(fs, f.id) ::
         f.name in m && forall i: nat | LastWith(fs, f.id, i) :: Decode(env, f.ty, fs[i].value) == Some(m[f.name]))
  }

  lemma HasIDStep(fs: seq<WField>, wf: WField, id: I16)
    ensures HasID(fs + [wf], id) <==> HasID(fs, id) || wf.id == id
  {
    var all := fs + [wf];
    assert all[|fs|] == wf && forall i | 0 <= i < |fs| :: all[i] == fs[i];
    if HasID(fs, id) {
      var i :| 0 <= i < |fs| && fs[i].id == id;
      assert all[i].id == id;
    }
  }

  lemma LastWithStep(fs: seq<WField>, wf: WField, id: I16, i: nat)
    requires LastWith(fs + [wf], id, i)
    ensures if wf.id == id then i == |fs| else LastWith(fs, id, i) && (fs + [wf])[i] == fs[i]
  {
    var all := fs + [wf];
    assert all[|fs|] == wf;
    if wf.id != id {
      assert forall j | i < j < |fs| :: all[j] == fs[j];
    }
  }

  lemma ShownPut(env: Env, g: seq<FieldSpec>, fs: seq<WField>, wf: WField, f: FieldSpec, m: map<string, Dyn>, v: Dyn)
    requires DistinctFields(g) && WireFieldsShown(env, g, fs, m)
    requires f in g && f.id == wf.id && Decode(env, f.ty, wf.value) == Some(v)
    ensures WireFieldsShown(env, g, fs + [wf], m[f.name := v])
  {
    hide Decode, HasID;
    var all, m' := fs + [wf], m[f.name := v];
    forall id ensures HasID(all, id) <==> HasID(fs, id) || wf.id == id { HasIDStep(fs, wf, id); }
    forall h | h in g && HasID(all, h.id)
      ensures h.name in m'
      ensures forall i: nat | LastWith(all, h.id, i) :: Decode(env, h.ty, all[i].value) == Some(m'[h.name])
    {
      if h.id == f.id || h.name == f.name { NameInjective(g, h, f); }
      forall i: nat | LastWith(all, h.id, i) ensures Decode(env, h.ty, all[i].value) == Some(m'[h.name]) {
        LastWithStep(fs, wf, h.id, i);
      }
    }
  }

  lemma ShownSkip(env: Env, g: seq<FieldSpec>, fs: seq<WField>, wf: WField, m: map<string, Dyn>)
    requires WireFieldsShown(env, g, fs, m) && forall f | f in g :: f.id != wf.id
    ensures WireFieldsShown(env, g, fs + [wf], m)
  {
    hide Decode, HasID;
    var all := fs + [wf];
    forall id ensures HasID(all, id) <==> HasID(fs, id) || wf.id == id { HasIDStep(fs, wf, id); }
    forall h, i: nat | h in g && LastWith(all, h.id, i) ensures LastWith(fs, h.id, i) && all[i] == fs[i] {
      LastWithStep(fs, wf, h.id, i);
    }
  }

  lemma {:induction false} FieldsShown(env: Env, g: seq<FieldSpec>, fs: seq<WField>)
    requires DistinctFields(g)
    ensures DecodeFields(env, g, fs).Some? <==> KnownDecode(env, g, fs)
    ensures DecodeFields(env, g, fs).Some? ==> WireFieldsShown(env, g, fs, DecodeFields(env, g, fs).value)
  {
    hide Decode, WireFieldsShown, FieldByID;
    if fs == [] {
      NoFieldsShown(env, g);
    } else {
      var n := |fs| - 1;
      var pre, wf := fs[..n], fs[n];
      assert pre + [wf] == fs;
      FieldsShown(env, g, pre);
      DecodeFieldsStep(env, g, pre, wf);
      hide DecodeFields;
      KnownStep(env, g, pre, wf);
      var known := FieldByID(g, wf.id);
      FoundByID(g, wf.id);
      if DecodeFields(env, g, fs).Some? {
        var m := DecodeFields(env, g, pre).value;
        if known.Some? {
          ShownPut(env, g, pre, wf, known.value, m, Decode(env, known.value.ty, wf.value).value);
        } else {
          ShownSkip(env, g, pre, wf, m);
        }
      }
    }
  }

  lemma NoFieldsShown(env: Env, g: seq<FieldSpec>)
    ensures DecodeFields(env, g, []) == Some(map[]) && WireFieldsShown(env, g, [], map[])
  {
  }

  lemma FoundByID(g: seq<FieldSpec>, id: I16)
    requires DistinctFields(g)
    ensures FieldByID(g, id).None? ==> forall f | f in g :: f.id != id
    ensures FieldByID(g, id).Some? ==> FieldByID(g, id).value in g && FieldByID(g, id).value.id == id
    ensures forall f | f in g && f.id == id :: FieldByID(g, id) == Some(f)
  {
    hide FieldByID;
    forall f | f in g && f.id == id ensures FieldByID(g, id) == Some(f) { FieldByIDIs(g, f); }
  }

  lemma KnownStep(env: Env, g: seq<FieldSpec>, pre: seq<WField>, wf: WField)
    ensures KnownDecode(env, g, pre + [wf]) <==>
            KnownDecode(env, g, pre) && forall f | f in g && f.id == wf.id :: Decode(env, f.ty, wf.value).Some?
  {
    hide Decode;
    var all := pre + [wf];
    assert all[|pre|] == wf && forall i | 0 <= i < |pre| :: all[i] == pre[i];
    if KnownDecode(env, g, all) {
      forall i, f | 0 <= i < |pre| && f in g && f.id == pre[i].id ensures Decode(env, f.ty, pre[i].value).Some? {
        assert f.id == all[i].id;
      }
    }
  }

  lemma DefaultsShown(env: Env, g: seq<FieldSpec>, fs: seq<WField>, m: map<string, Dyn>, r: map<string, Dyn>)
    requires DistinctFields(g) && KnownDecode(env, g, fs) && WireFieldsShown(env, g, fs, m)
    requires WithDefaults(g, m) == Some(r)
    ensures StructShown(env, g, fs, r)
  {
    hide Decode, HasID, LastWith, WithDefaults, RequestOf;
    WithDefaultsLookup(g, m);
    forall f | f in g ensures FieldShown(env, f, fs, r) {
      if f.name in m {
        var h :| h in g && h.name == f.name && HasID(fs, h.id);
        NameInjective(g, f, h);
      } else if f.name in r {
        var h :| h in g && h.name == f.name && h.default.Some?;
        NameInjective(g, f, h);
      }
    }
    forall n | n in r ensures exists f :: f in g && f.name == n {
      if n in m { var f :| f in g && f.name == n && HasID(fs, f.id); }
    }
  }

  lemma ShownOnce(env: Env, g: seq<FieldSpec>, fs: seq<WField>, m: map<string, Dyn>, m': map<string, Dyn>)
    requires StructShown(env, g, fs, m) && StructShown(env, g, fs, m')
    ensures m == m'
  {
    hide Decode, HasID, LastWith, RequestOf;
    forall f | f in g ensures f.name in m <==> f.name in m' {
      assert FieldShown(env, f, fs, m) && FieldShown(env, f, fs, m');
    }
    assert m.Keys == m'.Keys;
    forall n | n in m ensures m[n] == m'[n] {
      var f :| f in g && f.name == n;
      assert FieldShown(env, f, fs, m) && FieldShown(env, f, fs, m');
      if HasID(fs, f.id) { var i := LastOnWire(fs, f.id); }
    }
  }

  lemma NothingPanics(env: Env, g: seq<FieldSpec>, fs: seq<WField>, m: map<string, Dyn>, r: map<string, Dyn>)
    requires DistinctFields(g) && WireFieldsShown(env, g, fs, m) && StructShown(env, g, fs, r)
    ensures WithDefaults(g, m).Some?
  {
    hide Decode, HasID, LastWith, RequestOf, WithDefaults;
    forall f | f in g && f.name !in m && f.default.Some? ensures RequestOf(f.default.value).Some? {
      assert FieldShown(env, f, fs, r);
    }
    WithDefaultsLookup(g, m);
  }

  /** A struct is shown field by field: unknown ones are skipped, of repeated ones the last counts, and those
      that are not on the wire have their default, if any. */
  lemma StructIsShown(env: Env, spec: Spec, w: Wire, v: Dyn)
    requires w.WStruct? && spec.Root().StructSpec?
    ensures Decode(env, spec, w) == Some(v) <==>
            v.StrMap? && StructShown(env, env.Def(spec.Root().structName).fields, w.fields, v.fields)
  {
    DecodeOfStruct(env, spec, w);
    hide Decode, DecodeFields, WithDefaults, StructShown, WireFieldsShown;
    var g, fs := env.Def(spec.Root().structName).fields, w.fields;
    FieldsShown(env, g, fs);
    if KnownDecode(env, g, fs) {
      var m := DecodeFields(env, g, fs).value;
      if WithDefaults(g, m).Some? { DefaultsShown(env, g, fs, m, WithDefaults(g, m).value); }
      if v.StrMap? && StructShown(env, g, fs, v.fields) {
        NothingPanics(env, g, fs, m, v.fields);
        ShownOnce(env, g, fs, v.fields, WithDefaults(g, m).value);
      }
    } else if v.StrMap? && StructShown(env, g, fs, v.fields) {
      ShownKnown(env, g, fs, v.fields);
    }
  }

  lemma ShownKnown(env: Env, g: seq<FieldSpec>, fs: seq<WField>, m: map<string, Dyn>)
    requires StructShown(env, g, fs, m)
    ensures KnownDecode(env, g, fs)
  {
    hide Decode;
  }
}

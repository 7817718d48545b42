/** What thrift/from_wire.go computes (without the base64 envelope), as a function; None is an error. */
module ThriftDecode {
  import opened Option
  import opened Values
  import opened ThriftSpec
  import opened ThriftFields
  import opened ThriftScalars

  ghost function Decode(env: Env, spec: Spec, w: Wire): (r: Option<Dyn>)
    ensures r.Some? ==> !r.value.Nil?
    decreases w, 0
  {
    if spec.Code() != w.Code() then None
    else
      match w
      case WStruct(fs) =>
        var g := env.Def(spec.Root().structName).fields;
        (match DecodeFields(env, g, fs)
         case None => None
         case Some(m) => match WithDefaults(g, m) case None => None case Some(r) => Some(StrMap(r)))
      case WList(_, ws) =>
        (match DecodeList(env, spec.Root().elem, ws) case None => None case Some(vs) => Some(List(vs)))
      case WSet(_, ws) =>
        (match DecodeList(env, spec.Root().elem, ws) case None => None case Some(vs) => Some(List(vs)))
      case WMap(_, _, es) =>
        (match DecodeEntries(env, spec.Root().key, spec.Root().value, es)
         case None => None
         case Some(m) => Some(StrMap(m)))
      case _ => Some(DecodeScalar(spec.Root(), w))
  }

  /** Unknown identifiers are skipped; of two fields with one identifier the later wins. */
  ghost function DecodeFields(env: Env, g: seq<FieldSpec>, fs: seq<WField>): Option<map<string, Dyn>>
    decreases fs
  {
    if fs == [] then Some(map[])
    else
      match DecodeFields(env, g, fs[..|fs| - 1])
      case None => None
      case Some(m) =>
        match FieldByID(g, fs[|fs| - 1].id)
        case None => Some(m)
        case Some(f) => match DecodeField(env, f, fs[|fs| - 1]) case None => None case Some(v) => Some(m[f.name := v])
  }

  ghost function DecodeField(env: Env, f: FieldSpec, wf: WField): Option<Dyn>
    decreases wf
  {
    Decode(env, f.ty, wf.value)
  }

  ghost function DecodeList(env: Env, elem: Spec, ws: seq<Wire>): (r: Option<seq<Dyn>>)
    ensures r.Some? ==> |r.value| == |ws|
    decreases ws, 1
  {
    if ws == [] then Some([])
    else
      match (DecodeList(env, elem, ws[..|ws| - 1]), Decode(env, elem, ws[|ws| - 1]))
      case (Some(vs), Some(v)) => Some(vs + [v])
      case _ => None
  }

  /** A key that did not decode to a string is replaced by its JSON text. */
  function KeyText(lib: Lib, key: Dyn): Option<string> {
    if key.Str? then Some(key.s) else lib.json(key)
  }

  ghost function DecodeEntries(env: Env, ks: Spec, vs: Spec, es: seq<WItem>): Option<map<string, Dyn>>
    decreases es
  {
    if es == [] then Some(map[])
    else
      match (DecodeEntries(env, ks, vs, es[..|es| - 1]), DecodeItem(env, ks, vs, es[|es| - 1]))
      case (Some(m), Some(e)) => Some(m[e.0 := e.1])
      case _ => None
  }

  ghost function DecodeItem(env: Env, ks: Spec, vs: Spec, e: WItem): Option<(string, Dyn)>
    decreases e
  {
    match (Decode(env, ks, e.key), Decode(env, vs, e.value))
    case (Some(k), Some(v)) => (match KeyText(env.lib, k) case None => None case Some(s) => Some((s, v)))
    case _ => None
  }

  // ---- One step of each loop

  lemma DecodeFieldsStep(env: Env, g: seq<FieldSpec>, fs: seq<WField>, wf: WField)
    ensures DecodeFields(env, g, fs + [wf]) ==
            if DecodeFields(env, g, fs).None? then None
            else if FieldByID(g, wf.id).None? then DecodeFields(env, g, fs)
            else
              var f := FieldByID(g, wf.id).value;
              match Decode(env, f.ty, wf.value)
              case None => None
              case Some(v) => Some(DecodeFields(env, g, fs).value[f.name := v])
  {
    hide Decode, FieldByID;
    assert (fs + [wf])[..|fs|] == fs;
    if FieldByID(g, wf.id).Some? {
      var f := FieldByID(g, wf.id).value;
      assert DecodeField(env, f, wf) == Decode(env, f.ty, wf.value);
    }
  }

  lemma DecodeListStep(env: Env, elem: Spec, ws: seq<Wire>, w: Wire)
    ensures DecodeList(env, elem, ws + [w]) ==
            match (DecodeList(env, elem, ws), Decode(env, elem, w))
            case (Some(vs), Some(v)) => Some(vs + [v])
            case _ => None
  {
    hide Decode;
    assert (ws + [w])[..|ws|] == ws;
  }

  lemma DecodeEntriesStep(env: Env, ks: Spec, vs: Spec, es: seq<WItem>, e: WItem)
    ensures DecodeEntries(env, ks, vs, es + [e]) ==
            match (DecodeEntries(env, ks, vs, es), DecodeItem(env, ks, vs, e))
            case (Some(m), Some(kv)) => Some(m[kv.0 := kv.1])
            case _ => None
  {
    hide Decode, DecodeItem;
    assert (es + [e])[..|es|] == es;
  }

  lemma DecodeOfStruct(env: Env, spec: Spec, w: Wire)
    requires w.WStruct? && spec.Code() == w.Code()
    ensures Decode(env, spec, w) ==
            var g := env.Def(spec.Root().structName).fields;
            match DecodeFields(env, g, w.fields)
            case None => None
            case Some(m) => match WithDefaults(g, m) case None => None case Some(r) => Some(StrMap(r))
  {
    hide DecodeList, DecodeFields, DecodeEntries, DecodeItem, DecodeScalar, WithDefaults;
  }

  lemma DecodeOfList(env: Env, spec: Spec, w: Wire)
    requires (w.WList? || w.WSet?) && spec.Code() == w.Code()
    ensures Decode(env, spec, w) ==
            match DecodeList(env, spec.Root().elem, w.items) case None => None case Some(vs) => Some(List(vs))
  {
    hide DecodeList, DecodeFields, DecodeEntries, DecodeItem, DecodeScalar, WithDefaults;
  }

  lemma DecodeOfMap(env: Env, spec: Spec, w: Wire)
    requires w.WMap? && spec.Code() == w.Code()
    ensures Decode(env, spec, w) ==
            match DecodeEntries(env, spec.Root().key, spec.Root().value, w.entries)
            case None => None
            case Some(m) => Some(StrMap(m))
  {
    hide DecodeList, DecodeFields, DecodeEntries, DecodeItem, DecodeScalar, WithDefaults;
  }

  lemma DecodeOfScalar(env: Env, spec: Spec, w: Wire)
    requires w.Scalar() && spec.Code() == w.Code()
    ensures Decode(env, spec, w) == Some(DecodeScalar(spec.Root(), w))
  {
    hide DecodeList, DecodeFields, DecodeEntries, DecodeItem, DecodeScalar, WithDefaults;
  }
}

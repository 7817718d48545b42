/** Linked Thrift specifications and wire values. */
module ThriftSpec {
  // A struct is named, and its definition looked up in an environment, so specifications may be recursive.

  import opened Option
  import opened Values

  type I8 = n: int | -0x80 <= n < 0x80
  type I16 = n: int | -0x8000 <= n < 0x8000
  type I32 = n: int | -0x8000_0000 <= n < 0x8000_0000
  type I64 = n: int | -0x8000_0000_0000_0000 <= n < 0x8000_0000_0000_0000

  datatype TypeCode =
    TBool | TI8 | TI16 | TI32 | TI64 | TDouble | TBinary | TStruct | TList | TSet | TMap

  datatype EnumItem = EnumItem(name: string, value: I32)

  datatype Spec =
    | BoolSpec | I8Spec | I16Spec | I32Spec | I64Spec | DoubleSpec | StringSpec | BinarySpec
    | EnumSpec(enumName: string, items: seq<EnumItem>)
    | StructSpec(structName: string)
    | ListSpec(elem: Spec)
    | SetSpec(elem: Spec)
    | MapSpec(key: Spec, value: Spec)
    | TypedefSpec(target: Spec)
  {
    /** compile.RootTypeSpec */
    function Root(): (r: Spec)
      ensures !r.TypedefSpec?
    {
      if TypedefSpec? then target.Root() else this
    }

    function Code(): TypeCode {
      match Root()
      case BoolSpec => TBool
      case I8Spec => TI8
      case I16Spec => TI16
      case I32Spec => TI32
      case I64Spec => TI64
      case DoubleSpec => TDouble
      case StringSpec => TBinary
      case BinarySpec => TBinary
      case EnumSpec(_, _) => TI32
      case StructSpec(_) => TStruct
      case ListSpec(_) => TList
      case SetSpec(_) => TSet
      case MapSpec(_, _) => TMap
    }
  }

  datatype Const =
    | ConstBool(b: bool)
    | ConstInt(n: I64)
    | ConstDouble(d: Double)
    | ConstString(s: string)
    | ConstReference(target: Const)
    | ConstEnumItem(value: I32)
    | ConstSet(items: seq<Const>)
    | ConstList(items: seq<Const>)
    | ConstMap(entries: seq<ConstEntry>)
    | ConstStruct(fields: map<string, Const>)

  datatype ConstEntry = ConstEntry(key: Const, value: Const)

  datatype FieldSpec = FieldSpec(id: I16, name: string, ty: Spec, required: bool, default: Option<Const>)

  /** The Thrift compiler rejects a struct in which two fields share a name or an identifier. */
  predicate DistinctFields(g: seq<FieldSpec>) {
    forall i, j | 0 <= i < j < |g| :: g[i].name != g[j].name && g[i].id != g[j].id
  }

  type FieldGroup = g: seq<FieldSpec> | DistinctFields(g) witness []

  datatype StructDef = StructDef(fields: FieldGroup, isUnion: bool)

  /** The libraries the converter calls: YAML text to value (None on a syntax error), value to JSON
      text, a representative of a string up to strings.EqualFold, the float64 conversions, and the
      {base64: ...} and {file: ...} objects accepted for binary fields. */
  datatype Lib = Lib(
    yaml: string -> Option<Dyn>,
    json: Dyn -> Option<string>,
    fold: string -> string,
    toDouble: int -> Double,
    printDouble: Double -> string,
    binaryObject: map<Key, Dyn> -> Option<string>)

  datatype Env = Env(structs: map<string, StructDef>, lib: Lib)
  {
    /** A name that is not declared stands for the struct without fields; linked specifications have none. */
    function Def(name: string): StructDef {
      if name in structs then structs[name] else StructDef([], false)
    }
  }

  datatype Wire =
    | WBool(b: bool)
    | WI8(i8: I8)
    | WI16(i16: I16)
    | WI32(i32: I32)
    | WI64(i64: I64)
    | WDouble(d: Double)
    | WBinary(bytes: string)
    | WStruct(fields: seq<WField>)
    | WList(elemType: TypeCode, items: seq<Wire>)
    | WSet(elemType: TypeCode, items: seq<Wire>)
    | WMap(keyType: TypeCode, valueType: TypeCode, entries: seq<WItem>)
  {
    function Code(): TypeCode {
      match this
      case WBool(_) => TBool
      case WI8(_) => TI8
      case WI16(_) => TI16
      case WI32(_) => TI32
      case WI64(_) => TI64
      case WDouble(_) => TDouble
      case WBinary(_) => TBinary
      case WStruct(_) => TStruct
      case WList(_, _) => TList
      case WSet(_, _) => TSet
      case WMap(_, _, _) => TMap
    }

    predicate Scalar() { !WStruct? && !WList? && !WSet? && !WMap? }
  }

  datatype WField = WField(id: I16, value: Wire)
  datatype WItem = WItem(key: Wire, value: Wire)

  /** A wire value up to the order of map items, which Go's map iteration leaves open: items form a
      multiset, and struct fields are found by identifier. */
  datatype Meaning =
    | MScalar(w: Wire)
    | MStruct(fields: map<I16, Meaning>)
    | MList(elemType: TypeCode, items: seq<Meaning>)
    | MSet(elemType: TypeCode, items: seq<Meaning>)
    | MMap(keyType: TypeCode, valueType: TypeCode, entries: multiset<(Meaning, Meaning)>)

  ghost function Abs(w: Wire): Meaning
    decreases w, 0
  {
    match w
    case WStruct(fs) => MStruct(AbsFields(fs))
    case WList(t, ws) => MList(t, AbsList(ws))
    case WSet(t, ws) => MSet(t, AbsList(ws))
    case WMap(k, v, es) => MMap(k, v, AbsEntries(es))
    case _ => MScalar(w)
  }

  ghost function AbsList(ws: seq<Wire>): (ms: seq<Meaning>)
    ensures |ms| == |ws| && forall i | 0 <= i < |ws| :: ms[i] == Abs(ws[i])
    decreases ws, 1
  {
    seq(|ws|, i requires 0 <= i < |ws| => Abs(ws[i]))
  }

  ghost function AbsFields(fs: seq<WField>): map<I16, Meaning>
    decreases fs
  {
    if fs == [] then map[]
    else
      AbsFields(fs[..|fs| - 1])[fs[|fs| - 1].id := AbsField(fs[|fs| - 1])]
  }

  ghost function AbsField(f: WField): Meaning
    decreases f
  {
    Abs(f.value)
  }

  ghost function AbsEntries(es: seq<WItem>): multiset<(Meaning, Meaning)>
    decreases es
  {
    if es == [] then multiset{}
    else
      AbsEntries(es[..|es| - 1]) + multiset{AbsItem(es[|es| - 1])}
  }

  ghost function AbsItem(e: WItem): (Meaning, Meaning)
    decreases e
  {
    (Abs(e.key), Abs(e.value))
  }

  predicate DistinctIDs(fs: seq<WField>) {
    forall i, j | 0 <= i < j < |fs| :: fs[i].id != fs[j].id
  }

  predicate Ascending(fs: seq<WField>) {
    forall i, j | 0 <= i < j < |fs| :: fs[i].id < fs[j].id
  }

  predicate HasID(fs: seq<WField>, id: I16) {
    exists i | 0 <= i < |fs| :: fs[i].id == id
  }

  lemma {:induction false} AbsFieldsLookup(fs: seq<WField>)
    requires DistinctIDs(fs)
    ensures forall id: I16 :: id in AbsFields(fs) <==> HasID(fs, id)
    ensures forall i | 0 <= i < |fs| :: fs[i].id in AbsFields(fs) && AbsFields(fs)[fs[i].id] == Abs(fs[i].value)
  {
    if fs != [] {
      var n := |fs| - 1;
      AbsFieldsLookup(fs[..n]);
      forall id: I16
        ensures id in AbsFields(fs) <==> HasID(fs, id)
      {
        assert HasID(fs, id) <==> HasID(fs[..n], id) || id == fs[n].id;
      }
    }
  }

  ghost predicate Declares(g: seq<FieldSpec>, id: I16) {
    exists i :: 0 <= i < |g| && g[i].id == id
  }

  /** The field declared with this identifier. */
  ghost function FieldByID(g: seq<FieldSpec>, id: I16): (f: Option<FieldSpec>)
    ensures f.Some? <==> Declares(g, id)
    ensures f.Some? ==> f.value in g && f.value.id == id
  {
    if Declares(g, id) then
      var i :| 0 <= i < |g| && g[i].id == id;
      Some(g[i])
    else None
  }

  lemma FieldByIDIs(g: seq<FieldSpec>, f: FieldSpec)
    requires DistinctFields(g) && f in g
    ensures FieldByID(g, f.id) == Some(f)
  {
    var i :| 0 <= i < |g| && g[i] == f;
    assert Declares(g, f.id);
  }

  /** What a well-formed encoding looks like: type codes match throughout; a struct lists declared
      fields in strictly increasing identifier order, omits none that is required or has a default,
      and has exactly one field if it is a union. */
  ghost predicate Conforms(env: Env, spec: Spec, w: Wire)
    decreases w
  {
    && spec.Code() == w.Code()
    && match w
       case WStruct(fs) =>
         var def := env.Def(spec.Root().structName);
         && Ascending(fs)
         && (forall i | 0 <= i < |fs| ::
               FieldByID(def.fields, fs[i].id).Some?
               && Conforms(env, FieldByID(def.fields, fs[i].id).value.ty, fs[i].value))
         && (forall i | 0 <= i < |def.fields| ::
               def.fields[i].required || def.fields[i].default.Some? ==> HasID(fs, def.fields[i].id))
         && (def.isUnion ==> |fs| == 1)
       case WList(t, ws) =>
         t == spec.Root().elem.Code() && forall i | 0 <= i < |ws| :: Conforms(env, spec.Root().elem, ws[i])
       case WSet(t, ws) =>
         t == spec.Root().elem.Code() && forall i | 0 <= i < |ws| :: Conforms(env, spec.Root().elem, ws[i])
       case WMap(k, v, es) =>
         && k == spec.Root().key.Code() && v == spec.Root().value.Code()
         && (forall i | 0 <= i < |es| :: Conforms(env, spec.Root().key, es[i].key))
         && (forall i | 0 <= i < |es| :: Conforms(env, spec.Root().value, es[i].value))
       case _ => true
  }

  /** No map, at any depth, has two items with the same key. */
  ghost predicate DistinctKeys(w: Wire)
    decreases w
  {
    match w
    case WStruct(fs) => forall i | 0 <= i < |fs| :: DistinctKeys(fs[i].value)
    case WList(_, ws) => forall i | 0 <= i < |ws| :: DistinctKeys(ws[i])
    case WSet(_, ws) => forall i | 0 <= i < |ws| :: DistinctKeys(ws[i])
    case WMap(_, _, es) =>
      && (forall i, j | 0 <= i < j < |es| :: es[i].key != es[j].key)
      && (forall i | 0 <= i < |es| :: DistinctKeys(es[i].key))
      && (forall i | 0 <= i < |es| :: DistinctKeys(es[i].value))
    case _ => true
  }

  ghost predicate Canonical(env: Env, spec: Spec, w: Wire) {
    Conforms(env, spec, w) && DistinctKeys(w)
  }
}

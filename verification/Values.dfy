/** The untyped values that Go code passes around as interface{}: what a YAML or JSON document
    decodes to, and what a Thrift response is turned into. Go strings and byte slices are
    sequences of bytes; a char stands for one byte. */
module Values {
  import opened Option

  /** The Go type an integer was boxed with; the conversions below tell them apart. */
  datatype IntKind = GoInt | GoInt8 | GoInt16 | GoInt32 | GoInt64 | GoUint64

  /** An IEEE 754 double, kept as its bit pattern. */
  datatype Double = Bits(bits: nat)

  /** What may be a key of a map[interface{}]interface{}. */
  datatype Key =
    | KNil
    | KBool(b: bool)
    | KInt(kind: IntKind, n: int)
    | KDouble(d: Double)
    | KStr(s: string)
  {
    function Value(): Dyn {
      match this
      case KNil => Nil
      case KBool(b) => Bool(b)
      case KInt(k, n) => Int(k, n)
      case KDouble(d) => Float(d)
      case KStr(s) => Str(s)
    }
  }

  datatype Dyn =
    | Nil
    | Bool(b: bool)
    | Int(kind: IntKind, n: int)
    | Float(d: Double)
    | Str(s: string)
    | Bytes(bytes: string)
    | List(items: seq<Dyn>)
    | AnyMap(entries: map<Key, Dyn>)    // map[interface{}]interface{}
    | StrMap(fields: map<string, Dyn>)  // map[string]interface{}

  /** The map key a value makes; using an unhashable one makes Go panic. */
  function HashKey(v: Dyn): Option<Key> {
    match v
    case Nil => Some(KNil)
    case Bool(b) => Some(KBool(b))
    case Int(k, n) => Some(KInt(k, n))
    case Float(d) => Some(KDouble(d))
    case Str(s) => Some(KStr(s))
    case _ => None
  }

  /** Each value makes its own key, and no two make one. */
  lemma HashKeyIff(v: Dyn, k: Key)
    ensures HashKey(v) == Some(k) <==> v == match k
              case KNil => Nil
              case KBool(b) => Bool(b)
              case KInt(kind, n) => Int(kind, n)
              case KDouble(d) => Float(d)
              case KStr(s) => Str(s)
  {
  }
}

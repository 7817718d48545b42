/** thrift/types.go and scalars. */
module ThriftScalars {
  // The scalar branches of the encoder and decoder: a request value read as a boolean, an integer of a given
  // width, an enum item, a double or a byte string.

  import opened Option
  import opened Values
  import opened ThriftSpec
  import Decimal

  // ---- Integers

  /** Reduction of an int64 computation to 64 bits, two's complement. */
  function Wrap64(n: int): I64
    decreases if n < 0 then -2 * n else 2 * n + 1
  {
    if n >= 0x8000_0000_0000_0000 then Wrap64(n - 0x1_0000_0000_0000_0000)
    else if n < -0x8000_0000_0000_0000 then Wrap64(n + 0x1_0000_0000_0000_0000)
    else n
  }

  function Narrow8(n: int): I8 { (n + 0x80) % 0x100 - 0x80 }
  function Narrow16(n: int): I16 { (n + 0x8000) % 0x1_0000 - 0x8000 }
  function Narrow32(n: int): I32 { (n + 0x8000_0000) % 0x1_0000_0000 - 0x8000_0000 }

  type Width = bits: nat | bits == 8 || bits == 16 || bits == 32 || bits == 64 witness 8

  /** 2 to the power bits-1. */
  function Half(bits: Width): int {
    if bits == 8 then 0x80
    else if bits == 16 then 0x8000
    else if bits == 32 then 0x8000_0000
    else 0x8000_0000_0000_0000
  }

  /** parseInt: the bounds are computed in int64, so at 64 bits the shift wraps, and wraps back. */
  function ParseInt(v: Dyn, bits: Width): Option<int> {
    if v.Int? && v.kind != GoUint64 && MinVal(bits) <= v.n <= MaxVal(bits) then Some(v.n) else None
  }

  function MaxVal(bits: Width): I64 { Wrap64(Wrap64(Half(bits)) - 1) }

  function MinVal(bits: Width): I64 { Wrap64(Wrap64(-MaxVal(bits)) - 1) }

  /** One step outside the range of int64, on either side, wraps to the other end. */
  lemma Wrap64Edges()
    ensures Wrap64(0x8000_0000_0000_0000) == -0x8000_0000_0000_0000
    ensures Wrap64(-0x8000_0000_0000_0001) == 0x7fff_ffff_ffff_ffff
  {
  }

  lemma Bounds(bits: Width)
    ensures MaxVal(bits) == Half(bits) - 1
    ensures MinVal(bits) == -Half(bits)
  {
    Wrap64Edges();
  }

  lemma NarrowFixes(n: int)
    ensures -0x80 <= n < 0x80 ==> Narrow8(n) == n
    ensures -0x8000 <= n < 0x8000 ==> Narrow16(n) == n
    ensures -0x8000_0000 <= n < 0x8000_0000 ==> Narrow32(n) == n
  {
  }

  /** Exactly the integers of the given width are accepted, unless boxed as uint64, and the
      narrowing conversions that follow keep them unchanged. */
  lemma ParseIntExact(v: Dyn, bits: Width)
    ensures ParseInt(v, bits) ==
            if v.Int? && v.kind != GoUint64 && -Half(bits) <= v.n < Half(bits) then Some(v.n) else None
    ensures ParseInt(v, bits).Some? && bits == 8 ==> Narrow8(v.n) == v.n
    ensures ParseInt(v, bits).Some? && bits == 16 ==> Narrow16(v.n) == v.n
    ensures ParseInt(v, bits).Some? && bits == 32 ==> Narrow32(v.n) == v.n
    ensures ParseInt(v, bits).Some? && bits == 64 ==> Wrap64(v.n) == v.n
  {
    Bounds(bits);
    if v.Int? { NarrowFixes(v.n); }
  }

  // ---- Booleans

  function Lower(s: string): (r: string)
    ensures |r| == |s|
  {
    seq(|s|, i requires 0 <= i < |s| => if 'A' <= s[i] <= 'Z' then s[i] + ('a' - 'A') else s[i])
  }

  /** strconv.ParseBool on a lower-cased string. */
  function ParseBoolText(s: string): Option<bool> {
    if s == "1" || s == "t" || s == "true" then Some(true)
    else if s == "0" || s == "f" || s == "false" then Some(false)
    else None
  }

  function ParseBool(v: Dyn): Option<bool> {
    match v
    case Bool(b) => Some(b)
    case Int(GoInt, n) => if n == 0 then Some(false) else if n == 1 then Some(true) else None
    case Str(s) => ParseBoolText(Lower(s))
    case _ => None
  }

  // ---- Enums

  /** The first item whose name equals s under case folding. */
  function ItemNamed(fold: string -> string, items: seq<EnumItem>, s: string): Option<EnumItem> {
    if items == [] then None
    else if fold(items[0].name) == fold(s) then Some(items[0])
    else ItemNamed(fold, items[1..], s)
  }

  function PrintUnknown(enumName: string, n: int): string { enumName + "(" + Decimal.Format(n) + ")" }

  function ParseEnumString(fold: string -> string, enumName: string, items: seq<EnumItem>, s: string): Option<int> {
    var item := ItemNamed(fold, items, s);
    if item.Some? then Some(item.value.value)
    else if enumName + "(" <= s && s[|s| - 1] == ')' then
      Decimal.ParseInt(s[|enumName| + 1..|s| - 1], 0x8000_0000)
    else None
  }

  function ParseEnum(fold: string -> string, enumName: string, items: seq<EnumItem>, v: Dyn): Option<int> {
    if v.Str? then ParseEnumString(fold, enumName, items, v.s) else ParseInt(v, 32)
  }

  /** mapEnumValueToName: the first item of that value, or Name(n). */
  function EnumText(enumName: string, items: seq<EnumItem>, n: I32): string
    decreases items
  {
    if items == [] then PrintUnknown(enumName, n)
    else if items[0].value == n then items[0].name
    else EnumText(enumName, items[1..], n)
  }

  method MapEnumValueToName(enumName: string, items: seq<EnumItem>, n: I32) returns (r: string)
    ensures r == EnumText(enumName, items, n)
  {
    for i := 0 to |items|
      invariant EnumText(enumName, items, n) == EnumText(enumName, items[i..], n)
    {
      if items[i].value == n { return items[i].name; }
    }
    return PrintUnknown(enumName, n);
  }

  method FindItem(fold: string -> string, items: seq<EnumItem>, s: string) returns (r: Option<EnumItem>)
    ensures r == ItemNamed(fold, items, s)
  {
    for i := 0 to |items|
      invariant ItemNamed(fold, items, s) == ItemNamed(fold, items[i..], s)
    {
      if fold(items[i].name) == fold(s) { return Some(items[i]); }
    }
    return None;
  }

  /** Case folding treats parentheses as themselves, and identifiers contain none. */
  ghost predicate FoldKeepsParens(fold: string -> string) {
    forall a, b {:trigger fold(a), fold(b)} :: fold(a) == fold(b) && '(' in a ==> '(' in b
  }

  predicate NoParens(items: seq<EnumItem>) { forall i | 0 <= i < |items| :: '(' !in items[i].name }

  /** No item before i has the value of item i. */
  predicate FirstOfValue(items: seq<EnumItem>, i: nat)
    requires i < |items|
  {
    forall k | 0 <= k < i :: items[k].value != items[i].value
  }

  /** No item that gives its value a name shares that name, up to case, with an item before it. */
  predicate Unshadowed(fold: string -> string, items: seq<EnumItem>) {
    forall j, i | 0 <= j < i < |items| && fold(items[j].name) == fold(items[i].name) :: !FirstOfValue(items, i)
  }

  ghost predicate EnumReadable(fold: string -> string, items: seq<EnumItem>) {
    NoParens(items) && Unshadowed(fold, items)
  }

  /** The index at which the search by name stops. */
  lemma {:induction false} ItemNamedFirst(fold: string -> string, items: seq<EnumItem>, s: string) returns (i: nat)
    ensures i <= |items| && forall k | 0 <= k < i :: fold(items[k].name) != fold(s)
    ensures i < |items| ==> fold(items[i].name) == fold(s) && ItemNamed(fold, items, s) == Some(items[i])
    ensures i == |items| ==> ItemNamed(fold, items, s).None?
  {
    i := 0;
    if items != [] && fold(items[0].name) != fold(s) {
      i := ItemNamedFirst(fold, items[1..], s);
      i := i + 1;
    }
  }

  /** The index at which the search by value stops. */
  lemma {:induction false} EnumTextFirst(enumName: string, items: seq<EnumItem>, n: I32) returns (i: nat)
    ensures i <= |items| && forall k | 0 <= k < i :: items[k].value != n
    ensures i < |items| ==> items[i].value == n && EnumText(enumName, items, n) == items[i].name
    ensures i == |items| ==> EnumText(enumName, items, n) == PrintUnknown(enumName, n)
  {
    i := 0;
    if items != [] && items[0].value != n {
      i := EnumTextFirst(enumName, items[1..], n);
      i := i + 1;
    }
  }

  lemma ParsePrintedUnknown(fold: string -> string, enumName: string, items: seq<EnumItem>, n: I32)
    requires FoldKeepsParens(fold) && NoParens(items)
    ensures ParseEnumString(fold, enumName, items, PrintUnknown(enumName, n)) == Some(n)
  {
    var s := PrintUnknown(enumName, n);
    assert s[|enumName|] == '(';
    var i := ItemNamedFirst(fold, items, s);
    assert enumName + "(" <= s;
    assert s[|enumName| + 1..|s| - 1] == Decimal.Format(n);
    Decimal.ParseIntFormat(n, 0x8000_0000);
  }

  /** Printing any int32 as an enum and parsing the text gives it back, declared or not. */
  lemma EnumTextRoundTrip(fold: string -> string, enumName: string, items: seq<EnumItem>, n: I32)
    requires FoldKeepsParens(fold) && EnumReadable(fold, items)
    ensures ParseEnumString(fold, enumName, items, EnumText(enumName, items, n)) == Some(n)
  {
    var i := EnumTextFirst(enumName, items, n);
    if i < |items| {
      var j := ItemNamedFirst(fold, items, items[i].name);
    } else {
      ParsePrintedUnknown(fold, enumName, items, n);
    }
  }

  ghost predicate EveryValueSurvives(fold: string -> string, enumName: string, items: seq<EnumItem>) {
    forall n: I32 :: ParseEnumString(fold, enumName, items, EnumText(enumName, items, n)) == Some(n)
  }

  /** The enum round trip holds of every int32 exactly when no item that names its value is shadowed by
      an earlier one. */
  lemma EnumRoundTripIffUnshadowed(fold: string -> string, enumName: string, items: seq<EnumItem>)
    requires FoldKeepsParens(fold) && NoParens(items)
    ensures EveryValueSurvives(fold, enumName, items) <==> Unshadowed(fold, items)
  {
    if Unshadowed(fold, items) {
      forall n: I32 ensures ParseEnumString(fold, enumName, items, EnumText(enumName, items, n)) == Some(n) {
        EnumTextRoundTrip(fold, enumName, items, n);
      }
    } else {
      var j, i :| 0 <= j < i < |items| && fold(items[j].name) == fold(items[i].name) && FirstOfValue(items, i);
      ShadowedIsLost(fold, enumName, items, j, i);
    }
  }

  /** A shadowed item comes back as another value. */
  lemma ShadowedIsLost(fold: string -> string, enumName: string, items: seq<EnumItem>, j: nat, i: nat)
    requires j < i < |items| && fold(items[j].name) == fold(items[i].name) && FirstOfValue(items, i)
    ensures var n := items[i].value; ParseEnumString(fold, enumName, items, EnumText(enumName, items, n)) != Some(n)
  {
    var p := EnumTextFirst(enumName, items, items[i].value);
    var q := ItemNamedFirst(fold, items, items[i].name);
  }

  /** Two items that differ only in case: the second comes back as the first. */
  lemma EnumCaseClash(fold: string -> string)
    requires fold("On") == fold("ON")
    ensures var items := [EnumItem("On", 1), EnumItem("ON", 2)];
            ParseEnumString(fold, "E", items, EnumText("E", items, 2)) == Some(1)
  {
    var items := [EnumItem("On", 1), EnumItem("ON", 2)];
    assert items[1..][0] == items[1];
  }

  /** What a text that is read as an enum stands for: the value of an item of that name, or the number in
      parentheses. */
  lemma EnumTextMeans(fold: string -> string, enumName: string, items: seq<EnumItem>, s: string)
    ensures match ParseEnumString(fold, enumName, items, s)
            case None => true
            case Some(n) =>
              && -0x8000_0000 <= n < 0x8000_0000
              && ((exists i :: 0 <= i < |items| && items[i].value == n && fold(items[i].name) == fold(s))
                  || exists t :: s == enumName + "(" + t + ")" && Decimal.ParseInt(t, 0x8000_0000) == Some(n))
  {
    hide Decimal.ParseInt;
    var i := ItemNamedFirst(fold, items, s);
    if i == |items| && enumName + "(" <= s && s[|s| - 1] == ')' {
      var t := s[|enumName| + 1..|s| - 1];
      assert s == enumName + "(" + t + ")" by { assert s[..|enumName| + 1] == enumName + "("; }
      InRange(t);
    }
  }

  lemma InRange(t: string)
    ensures match Decimal.ParseInt(t, 0x8000_0000) case None => true case Some(n) => -0x8000_0000 <= n < 0x8000_0000
  {
  }

  method ParseEnumText(fold: string -> string, enumName: string, items: seq<EnumItem>, s: string)
    returns (r: Option<int>)
    ensures r == ParseEnumString(fold, enumName, items, s)
  {
    var item := FindItem(fold, items, s);
    if item.Some? { return Some(item.value.value); }
    if enumName + "(" <= s && s[|s| - 1] == ')' {
      return Decimal.ParseInt(s[|enumName| + 1..|s| - 1], 0x8000_0000);
    }
    return None;
  }

  // ---- Binary

  function ByteOf(n: int): char { (n % 0x100) as char }

  function ParseBinaryItem(v: Dyn): Option<string> {
    match v
    case Int(GoInt, n) => if -0x80 <= n <= 0xFF then Some([ByteOf(n)]) else None
    case Str(s) => Some(s)
    case _ => None
  }

  function BinaryOf(vl: seq<Dyn>): Option<string> {
    if vl == [] then Some("")
    else match (BinaryOf(vl[..|vl| - 1]), ParseBinaryItem(vl[|vl| - 1]))
      case (Some(bs), Some(b)) => Some(bs + b)
      case _ => None
  }

  method ParseBinaryList(vl: seq<Dyn>) returns (r: Option<string>)
    ensures r == BinaryOf(vl)
  {
    var bs := "";
    for i := 0 to |vl|
      invariant BinaryOf(vl[..i]) == Some(bs)
    {
      assert vl[..i + 1][..i] == vl[..i];
      var b := ParseBinaryItem(vl[i]);
      if b.None? {
        BinaryPrefixFails(vl, i + 1);
        return None;
      }
      bs := bs + b.value;
    }
    assert vl[..|vl|] == vl;
    return Some(bs);
  }

  lemma {:induction false} BinaryPrefixFails(vl: seq<Dyn>, k: nat)
    requires k <= |vl| && BinaryOf(vl[..k]).None?
    ensures BinaryOf(vl).None?
  {
    if k == |vl| {
      assert vl[..k] == vl;
    } else {
      assert vl[..|vl| - 1][..k] == vl[..k];
      BinaryPrefixFails(vl[..|vl| - 1], k);
    }
  }

  function ParseBinary(lib: Lib, v: Dyn): Option<string> {
    match v
    case Str(s) => Some(s)
    case Bytes(b) => Some(b)
    case List(vs) => BinaryOf(vs)
    case AnyMap(m) => lib.binaryObject(m)
    case Bool(b) => Some(if b then "true" else "false")
    case Int(_, n) => Some(Decimal.Format(n))
    case Float(d) => Some(lib.printDouble(d))
    case _ => None
  }

  function ParseDouble(lib: Lib, v: Dyn): Option<Double> {
    match v
    case Int(k, n) => if k in {GoInt, GoInt64, GoUint64} then Some(lib.toDouble(n)) else None
    case Float(d) => Some(d)
    case _ => None
  }

  predicate ScalarSpec(root: Spec) {
    !root.TypedefSpec? && !root.StructSpec? && !root.ListSpec? && !root.SetSpec? && !root.MapSpec?
  }

  /** The scalar branches of toWireValue. */
  function EncodeScalar(lib: Lib, root: Spec, v: Dyn): (r: Option<Wire>)
    requires ScalarSpec(root)
    ensures r.Some? ==> r.value.Scalar() && r.value.Code() == root.Code()
  {
    match root
    case BoolSpec => (match ParseBool(v) case None => None case Some(b) => Some(WBool(b)))
    case I8Spec => (match ParseInt(v, 8) case None => None case Some(n) => Some(WI8(Narrow8(n))))
    case I16Spec => (match ParseInt(v, 16) case None => None case Some(n) => Some(WI16(Narrow16(n))))
    case I32Spec => (match ParseInt(v, 32) case None => None case Some(n) => Some(WI32(Narrow32(n))))
    case I64Spec => (match ParseInt(v, 64) case None => None case Some(n) => Some(WI64(Wrap64(n))))
    case EnumSpec(name, items) =>
      (match ParseEnum(lib.fold, name, items, v) case None => None case Some(n) => Some(WI32(Narrow32(n))))
    case DoubleSpec => (match ParseDouble(lib, v) case None => None case Some(d) => Some(WDouble(d)))
    case StringSpec => (match ParseBinary(lib, v) case None => None case Some(b) => Some(WBinary(b)))
    case BinarySpec => (match ParseBinary(lib, v) case None => None case Some(b) => Some(WBinary(b)))
  }

  /** The scalar branches of valueFromWire. */
  function DecodeScalar(root: Spec, w: Wire): (v: Dyn)
    requires w.Scalar() && root.Code() == w.Code() && !root.TypedefSpec?
    ensures !v.Nil?
  {
    match w
    case WBool(b) => Bool(b)
    case WI8(n) => Int(GoInt8, n)
    case WI16(n) => Int(GoInt16, n)
    case WI32(n) => if root.EnumSpec? then Str(EnumText(root.enumName, root.items, n)) else Int(GoInt32, n)
    case WI64(n) => Int(GoInt64, n)
    case WDouble(d) => Float(d)
    case WBinary(b) => if root.StringSpec? then Str(b) else Bytes(b)
  }

  method BinaryValue(lib: Lib, v: Dyn) returns (r: Option<string>)
    ensures r == ParseBinary(lib, v)
  {
    if v.List? {
      r := ParseBinaryList(v.items);
    } else {
      r := ParseBinary(lib, v);
    }
  }

  /** The scalar branches of toWireValue, with the loops they call. */
  method ScalarToWire(lib: Lib, root: Spec, v: Dyn) returns (r: Option<Wire>)
    requires ScalarSpec(root)
    ensures r == EncodeScalar(lib, root, v)
  {
    if root.EnumSpec? && v.Str? {
      var n := ParseEnumText(lib.fold, root.enumName, root.items, v.s);
      return match n case None => None case Some(k) => Some(WI32(Narrow32(k)));
    }
    if root.StringSpec? || root.BinarySpec? {
      var b := BinaryValue(lib, v);
      return match b case None => None case Some(bytes) => Some(WBinary(bytes));
    }
    return EncodeScalar(lib, root, v);
  }

  /** The scalar branches of valueFromWire, likewise. */
  method ScalarFromWire(root: Spec, w: Wire) returns (v: Dyn)
    requires w.Scalar() && root.Code() == w.Code() && !root.TypedefSpec?
    ensures v == DecodeScalar(root, w)
  {
    if w.WI32? && root.EnumSpec? {
      var text := MapEnumValueToName(root.enumName, root.items, w.i32);
      return Str(text);
    }
    return DecodeScalar(root, w);
  }

  /** Decoding then encoding is the identity on every scalar wire value. */
  lemma ScalarRoundTrip(lib: Lib, root: Spec, w: Wire)
    requires w.Scalar() && root.Code() == w.Code() && !root.TypedefSpec?
    requires root.EnumSpec? ==> FoldKeepsParens(lib.fold) && EnumReadable(lib.fold, root.items)
    ensures ScalarSpec(root) && EncodeScalar(lib, root, DecodeScalar(root, w)) == Some(w)
  {
    hide ParseEnumString, EnumReadable, Wrap64;
    var v := DecodeScalar(root, w);
    match w
    case WI8(n) => ParseIntExact(v, 8);
    case WI16(n) => ParseIntExact(v, 16);
    case WI32(n) =>
      ParseIntExact(v, 32);
      if root.EnumSpec? {
        EnumTextRoundTrip(lib.fold, root.enumName, root.items, n);
        NarrowFixes(n);
      }
    case WI64(n) => ParseIntExact(v, 64);
    case _ =>
  }

  /** What a successful integer encoding tells about the request value. */
  lemma IntegerEncodingLosesNothing(lib: Lib, root: Spec, v: Dyn)
    requires root in {I8Spec, I16Spec, I32Spec, I64Spec} && EncodeScalar(lib, root, v).Some?
    ensures v.Int? && v.kind != GoUint64
    ensures match EncodeScalar(lib, root, v).value
            case WI8(n) => n == v.n
            case WI16(n) => n == v.n
            case WI32(n) => n == v.n
            case WI64(n) => n == v.n
            case _ => false
  {
    ParseIntExact(v, 8);
    ParseIntExact(v, 16);
    ParseIntExact(v, 32);
    ParseIntExact(v, 64);
  }

  /** What a successful enum encoding tells: narrowing to 32 bits keeps the number that was read. */
  lemma EnumEncodingLosesNothing(lib: Lib, root: Spec, v: Dyn)
    requires root.EnumSpec? && EncodeScalar(lib, root, v).Some?
    ensures EncodeScalar(lib, root, v).value.WI32?
    ensures var n := EncodeScalar(lib, root, v).value.i32;
            && ParseEnum(lib.fold, root.enumName, root.items, v) == Some(n)
            && (v.Str? || (v.Int? && v.kind != GoUint64 && n == v.n))
  {
    hide ParseEnumString;
    if v.Str? {
      EnumTextMeans(lib.fold, root.enumName, root.items, v.s);
      NarrowFixes(ParseEnumString(lib.fold, root.enumName, root.items, v.s).value);
    } else {
      ParseIntExact(v, 32);
    }
  }
}

/** What scalars mean in requests. */
module ThriftReadings {
  // For each scalar type, which request values stand for which value on the wire, stated without the
  // conversions; every other value is refused.

  import opened Option
  import opened Values
  import opened ThriftSpec
  import opened ThriftScalars
  import opened ThriftEncode
  import Decimal

  // ---- Booleans

  /** The word, letters in either case. */
  predicate AnyCase(s: string, word: string) {
    && |s| == |word|
    && forall i | 0 <= i < |word| :: s[i] == word[i] || ('a' <= word[i] <= 'z' && s[i] == word[i] - 'a' + 'A')
  }

  predicate TrueText(s: string) { s == "1" || AnyCase(s, "t") || AnyCase(s, "true") }
  predicate FalseText(s: string) { s == "0" || AnyCase(s, "f") || AnyCase(s, "false") }

  predicate SaysBool(v: Dyn, b: bool) {
    match v
    case Bool(c) => c == b
    case Int(GoInt, n) => n == if b then 1 else 0
    case Str(s) => if b then TrueText(s) else FalseText(s)
    case _ => false
  }

  lemma LowerIs(s: string, word: string)
    requires forall i | 0 <= i < |word| :: !('A' <= word[i] <= 'Z')
    ensures Lower(s) == word <==> AnyCase(s, word)
  {
    if AnyCase(s, word) {
      assert forall i | 0 <= i < |s| :: Lower(s)[i] == word[i];
    }
    if Lower(s) == word {
      forall i | 0 <= i < |word| ensures s[i] == word[i] || ('a' <= word[i] <= 'z' && s[i] == word[i] - 'a' + 'A') {
        assert Lower(s)[i] == word[i];
      }
    }
  }

  lemma BoolSays(v: Dyn, b: bool)
    ensures ParseBool(v) == Some(b) <==> SaysBool(v, b)
  {
    hide Lower, AnyCase;
    if v.Str? {
      LowerIs(v.s, "1");
      LowerIs(v.s, "0");
      OneCharacter(v.s, "1");
      OneCharacter(v.s, "0");
      LowerIs(v.s, "t");
      LowerIs(v.s, "f");
      LowerIs(v.s, "true");
      LowerIs(v.s, "false");
    }
  }

  lemma OneCharacter(s: string, digit: string)
    requires |digit| == 1 && '0' <= digit[0] <= '9'
    ensures AnyCase(s, digit) <==> s == digit
  {
  }

  // ---- Numbers and enums

  predicate SaysInt(v: Dyn, bits: Width, n: int) {
    v.Int? && v.kind != GoUint64 && v.n == n && -Half(bits) <= n < Half(bits)
  }

  predicate SaysDouble(lib: Lib, v: Dyn, d: Double) {
    match v
    case Int(k, n) => k in {GoInt, GoInt64, GoUint64} && d == lib.toDouble(n)
    case Float(e) => d == e
    case _ => false
  }

  /** Item i is the first whose name this is, up to case. */
  ghost predicate FirstNamed(fold: string -> string, items: seq<EnumItem>, s: string, i: nat) {
    && i < |items| && fold(items[i].name) == fold(s)
    && forall k | 0 <= k < i :: fold(items[k].name) != fold(s)
  }

  ghost predicate InParentheses(enumName: string, s: string, t: string, n: int) {
    s == enumName + "(" + t + ")" && Decimal.Denotes(t, n)
  }

  /** The name of an item, or else a number in parentheses; or an integer. */
  ghost predicate SaysEnum(fold: string -> string, enumName: string, items: seq<EnumItem>, v: Dyn, n: I32) {
    if v.Str? then
      || (exists i: nat :: FirstNamed(fold, items, v.s, i) && items[i].value == n)
      || ((forall i: nat :: !FirstNamed(fold, items, v.s, i)) && exists t :: InParentheses(enumName, v.s, t, n))
    else SaysInt(v, 32, n)
  }

  lemma FirstIsUnique(fold: string -> string, items: seq<EnumItem>, s: string, i: nat, j: nat)
    requires FirstNamed(fold, items, s, i) && FirstNamed(fold, items, s, j)
    ensures i == j
  {
  }

  lemma EnumSays(fold: string -> string, enumName: string, items: seq<EnumItem>, v: Dyn, n: I32)
    ensures ParseEnum(fold, enumName, items, v) == Some(n) <==> SaysEnum(fold, enumName, items, v, n)
  {
    hide Decimal.ParseInt, Decimal.Denotes;
    ParseIntExact(v, 32);
    if v.Str? {
      var s := v.s;
      var j := ItemNamedFirst(fold, items, s);
      if j < |items| {
        assert FirstNamed(fold, items, s, j);
        forall i: nat | FirstNamed(fold, items, s, i) ensures i == j {
          FirstIsUnique(fold, items, s, i, j);
        }
      } else {
        NumberSays(fold, enumName, items, s, n);
      }
    }
  }

  lemma NumberSays(fold: string -> string, enumName: string, items: seq<EnumItem>, s: string, n: I32)
    requires ItemNamed(fold, items, s).None?
    ensures ParseEnumString(fold, enumName, items, s) == Some(n) <==> exists t :: InParentheses(enumName, s, t, n)
  {
    hide Decimal.ParseInt, Decimal.Denotes, ItemNamed;
    if ParseEnumString(fold, enumName, items, s) == Some(n) {
      assert s[|enumName|] == '(';
      var t := s[|enumName| + 1..|s| - 1];
      assert s == enumName + "(" + t + ")" by { assert s[..|enumName| + 1] == enumName + "("; }
      Decimal.ParseIntIff(t, 0x8000_0000, n);
      assert InParentheses(enumName, s, t, n);
    }
    if t :| InParentheses(enumName, s, t, n) {
      assert enumName + "(" <= s && s[|enumName| + 1..|s| - 1] == t;
      Decimal.ParseIntIff(t, 0x8000_0000, n);
    }
  }

  // ---- Text and bytes

  /** The bytes of one item of a list: a signed or unsigned byte, or those of a string. */
  predicate SaysPart(v: Dyn, p: string) {
    match v
    case Int(GoInt, n) => -0x80 <= n <= 0xFF && |p| == 1 && p[0] as int == if n < 0 then n + 0x100 else n
    case Str(s) => p == s
    case _ => false
  }

  function Joined(parts: seq<string>): string {
    if parts == [] then "" else parts[0] + Joined(parts[1..])
  }

  /** A string, or what is printed for a number or a boolean; bytes; or a list of bytes and strings in order. */
  ghost predicate SaysBytes(lib: Lib, v: Dyn, bytes: string) {
    match v
    case Str(s) => bytes == s
    case Bytes(b) => bytes == b
    case List(vs) =>
      exists parts: seq<string> ::
        |parts| == |vs| && (forall i | 0 <= i < |vs| :: SaysPart(vs[i], parts[i])) && bytes == Joined(parts)
    case AnyMap(m) => lib.binaryObject(m) == Some(bytes)
    case Bool(b) => bytes == if b then "true" else "false"
    case Int(_, n) => bytes == Decimal.Format(n)
    case Float(d) => bytes == lib.printDouble(d)
    case _ => false
  }

  lemma PartSays(v: Dyn, p: string)
    ensures ParseBinaryItem(v) == Some(p) <==> SaysPart(v, p)
  {
    if v.Int? && |p| == 1 { assert p == [p[0]]; }
  }

  lemma {:induction false} JoinedLast(parts: seq<string>, p: string)
    ensures Joined(parts + [p]) == Joined(parts) + p
  {
    if parts == [] {
      assert [p][1..] == [];
    } else {
      assert (parts + [p])[1..] == parts[1..] + [p];
      JoinedLast(parts[1..], p);
    }
  }

  lemma {:induction false} ListSays(vs: seq<Dyn>)
    ensures BinaryOf(vs).Some? <==> forall i | 0 <= i < |vs| :: ParseBinaryItem(vs[i]).Some?
    ensures forall parts: seq<string> ::
              |parts| == |vs| && (forall i | 0 <= i < |vs| :: ParseBinaryItem(vs[i]) == Some(parts[i])) ==>
                BinaryOf(vs) == Some(Joined(parts))
  {
    hide ParseBinaryItem;
    if vs != [] {
      var n := |vs| - 1;
      ListSays(vs[..n]);
      BinaryLast(vs);
      hide BinaryOf, Joined;
      assert forall i | 0 <= i < n :: vs[..n][i] == vs[i];
      forall parts: seq<string> |
        |parts| == |vs| && (forall i | 0 <= i < |vs| :: ParseBinaryItem(vs[i]) == Some(parts[i]))
        ensures BinaryOf(vs) == Some(Joined(parts))
      {
        JoinedLast(parts[..n], parts[n]);
        assert parts[..n] + [parts[n]] == parts;
        assert BinaryOf(vs[..n]) == Some(Joined(parts[..n]));
      }
    }
  }

  lemma BinaryLast(vs: seq<Dyn>)
    requires vs != []
    ensures BinaryOf(vs) == match (BinaryOf(vs[..|vs| - 1]), ParseBinaryItem(vs[|vs| - 1]))
                            case (Some(bs), Some(b)) => Some(bs + b)
                            case _ => None
  {
    hide ParseBinaryItem;
  }

  lemma BytesSay(lib: Lib, v: Dyn, bytes: string)
    ensures ParseBinary(lib, v) == Some(bytes) <==> SaysBytes(lib, v, bytes)
  {
    hide ParseBinaryItem, SaysPart, BinaryOf, Joined, Decimal.Format;
    if v.List? {
      var vs := v.items;
      ListSays(vs);
      forall i, p | 0 <= i < |vs| ensures ParseBinaryItem(vs[i]) == Some(p) <==> SaysPart(vs[i], p) {
        PartSays(vs[i], p);
      }
      if BinaryOf(vs) == Some(bytes) {
        var parts := seq(|vs|, i requires 0 <= i < |vs| => ParseBinaryItem(vs[i]).value);
        assert forall i | 0 <= i < |vs| :: ParseBinaryItem(vs[i]) == Some(parts[i]);
        assert bytes == Joined(parts);
      }
    }
  }

  // ---- All of them

  /** The request value stands for this wire value of the type. */
  ghost predicate Says(lib: Lib, root: Spec, v: Dyn, w: Wire) {
    match root
    case BoolSpec => w.WBool? && SaysBool(v, w.b)
    case I8Spec => w.WI8? && SaysInt(v, 8, w.i8)
    case I16Spec => w.WI16? && SaysInt(v, 16, w.i16)
    case I32Spec => w.WI32? && SaysInt(v, 32, w.i32)
    case I64Spec => w.WI64? && SaysInt(v, 64, w.i64)
    case EnumSpec(name, items) => w.WI32? && SaysEnum(lib.fold, name, items, v, w.i32)
    case DoubleSpec => w.WDouble? && SaysDouble(lib, v, w.d)
    case StringSpec => w.WBinary? && SaysBytes(lib, v, w.bytes)
    case BinarySpec => w.WBinary? && SaysBytes(lib, v, w.bytes)
    case _ => false
  }

  lemma IntegerSays(lib: Lib, root: Spec, v: Dyn, w: Wire)
    requires root in {I8Spec, I16Spec, I32Spec, I64Spec}
    ensures EncodeScalar(lib, root, v) == Some(w) <==> Says(lib, root, v, w)
  {
    match root
    case I8Spec => ParseIntExact(v, 8);
    case I16Spec => ParseIntExact(v, 16);
    case I32Spec => ParseIntExact(v, 32);
    case I64Spec => ParseIntExact(v, 64);
    hide ParseInt, Narrow8, Narrow16, Narrow32, Wrap64;
  }

  lemma EnumItemSays(lib: Lib, root: Spec, v: Dyn, w: Wire)
    requires root.EnumSpec?
    ensures EncodeScalar(lib, root, v) == Some(w) <==> Says(lib, root, v, w)
  {
    hide ParseEnum, SaysEnum, Narrow32;
    if w.WI32? { EnumSays(lib.fold, root.enumName, root.items, v, w.i32); }
    var p := ParseEnum(lib.fold, root.enumName, root.items, v);
    if p.Some? {
      EnumInRange(lib.fold, root.enumName, root.items, v);
      NarrowFixes(p.value);
    }
  }

  lemma EnumInRange(fold: string -> string, enumName: string, items: seq<EnumItem>, v: Dyn)
    requires ParseEnum(fold, enumName, items, v).Some?
    ensures -0x8000_0000 <= ParseEnum(fold, enumName, items, v).value < 0x8000_0000
  {
    hide ParseEnumString;
    if v.Str? { EnumTextMeans(fold, enumName, items, v.s); } else { ParseIntExact(v, 32); }
  }

  lemma ScalarSays(lib: Lib, root: Spec, v: Dyn, w: Wire)
    requires ScalarSpec(root)
    ensures EncodeScalar(lib, root, v) == Some(w) <==> Says(lib, root, v, w)
  {
    hide ParseBool, ParseEnum, ParseDouble, ParseBinary, SaysBool, SaysEnum, SaysBytes;
    if root in {I8Spec, I16Spec, I32Spec, I64Spec} {
      IntegerSays(lib, root, v, w);
    } else if root.EnumSpec? {
      EnumItemSays(lib, root, v, w);
    } else if root.BoolSpec? {
      if w.WBool? { BoolSays(v, w.b); }
    } else if root.DoubleSpec? {
      if w.WDouble? { DoubleSays(lib, v, w.d); }
    } else if w.WBinary? {
      BytesSay(lib, v, w.bytes);
    }
  }

  lemma DoubleSays(lib: Lib, v: Dyn, d: Double)
    ensures ParseDouble(lib, v) == Some(d) <==> SaysDouble(lib, v, d)
  {
  }

  /** The encoder sends what the request value stands for, and refuses one that stands for nothing. */
  lemma ScalarIsSent(env: Env, depth: nat, spec: Spec, v: Dyn)
    requires depth > 0 && ScalarSpec(spec.Root())
    ensures forall w :: Encode(env, depth, spec, v) == Done(MScalar(w)) <==> Says(env.lib, spec.Root(), v, w)
    ensures Encode(env, depth, spec, v).Failed? <==> forall w :: !Says(env.lib, spec.Root(), v, w)
  {
    hide Encode, EncodeScalar, Says;
    EncodeOfScalar(env, depth, spec, v);
    forall w ensures EncodeScalar(env.lib, spec.Root(), v) == Some(w) <==> Says(env.lib, spec.Root(), v, w) {
      ScalarSays(env.lib, spec.Root(), v, w);
    }
  }

  /** For booleans: true, "true" in any case, "t", 1 and "1" are sent as true, their opposites as false, and
      nothing else is accepted. */
  lemma BooleanIsSent(env: Env, depth: nat, spec: Spec, v: Dyn, b: bool)
    requires depth > 0 && spec.Root().BoolSpec?
    ensures Encode(env, depth, spec, v) == Done(MScalar(WBool(b))) <==> SaysBool(v, b)
    ensures Encode(env, depth, spec, v).Failed? <==> !SaysBool(v, true) && !SaysBool(v, false)
  {
    hide Encode, SaysBool;
    ScalarIsSent(env, depth, spec, v);
    assert forall w :: Says(env.lib, spec.Root(), v, w) <==> w.WBool? && SaysBool(v, w.b);
    if SaysBool(v, b) { assert Says(env.lib, spec.Root(), v, WBool(b)); }
    if !Encode(env, depth, spec, v).Failed? {
      var w :| Says(env.lib, spec.Root(), v, w);
      assert SaysBool(v, true) || SaysBool(v, false);
    } else {
      assert !Says(env.lib, spec.Root(), v, WBool(true)) && !Says(env.lib, spec.Root(), v, WBool(false));
    }
  }
}

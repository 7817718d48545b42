/** thrift/fields.go and thrift/const.go. */
module ThriftFields {
  // Which field a request key names, which value each field gets, and default constants turned back into
  // request values.

  import opened Option
  import opened Values
  import opened ThriftSpec
  import Decimal

  // ---- Fuzzy names

  predicate IsUpper(c: char) { 'A' <= c <= 'Z' }
  predicate IsLowerOrDigit(c: char) { 'a' <= c <= 'z' || '0' <= c <= '9' }

  /** Lower-cases ASCII letters and drops everything that is neither a letter nor a digit. */
  function Fuzz(s: string): string {
    if s == "" then ""
    else
      var c := s[|s| - 1];
      Fuzz(s[..|s| - 1]) + (if IsUpper(c) then [c + ('a' - 'A')] else if IsLowerOrDigit(c) then [c] else [])
  }

  method FuzzName(fieldName: string) returns (newField: string)
    ensures newField == Fuzz(fieldName)
  {
    newField := "";
    for i := 0 to |fieldName|
      invariant newField == Fuzz(fieldName[..i])
    {
      var c := fieldName[i];
      assert fieldName[..i + 1][..i] == fieldName[..i];
      if IsUpper(c) {
        newField := newField + [c + ('a' - 'A')];
      } else if IsLowerOrDigit(c) {
        newField := newField + [c];
      }
    }
    assert fieldName[..|fieldName|] == fieldName;
  }

  predicate Fuzzed(s: string) { forall i | 0 <= i < |s| :: IsLowerOrDigit(s[i]) }

  lemma {:induction false} FuzzFixesFuzzed(s: string)
    requires Fuzzed(s)
    ensures Fuzz(s) == s
  {
    if s != "" {
      FuzzFixesFuzzed(s[..|s| - 1]);
    }
  }

  lemma {:induction false} FuzzIsFuzzed(s: string)
    ensures Fuzzed(Fuzz(s))
  {
    if s != "" {
      FuzzIsFuzzed(s[..|s| - 1]);
    }
  }

  lemma FuzzIdempotent(s: string)
    ensures Fuzz(Fuzz(s)) == Fuzz(s)
  {
    FuzzIsFuzzed(s);
    FuzzFixesFuzzed(Fuzz(s));
  }

  // ---- Field lookup

  function Names(g: seq<FieldSpec>): set<string> { set i | 0 <= i < |g| :: g[i].name }

  function FuzzyNames(g: seq<FieldSpec>): set<string> { set i | 0 <= i < |g| :: Fuzz(g[i].name) }

  /** The last field of that name, as when a map is filled in declaration order; likewise below. */
  function ByName(g: seq<FieldSpec>, name: string): Option<FieldSpec> {
    if g == [] then None
    else if g[|g| - 1].name == name then Some(g[|g| - 1])
    else ByName(g[..|g| - 1], name)
  }

  function ByIDText(g: seq<FieldSpec>, text: string): Option<FieldSpec> {
    if g == [] then None
    else if Decimal.Format(g[|g| - 1].id) == text then Some(g[|g| - 1])
    else ByIDText(g[..|g| - 1], text)
  }

  function ByFuzz(g: seq<FieldSpec>, fuzzed: string): Option<FieldSpec> {
    if g == [] then None
    else if Fuzz(g[|g| - 1].name) == fuzzed then Some(g[|g| - 1])
    else ByFuzz(g[..|g| - 1], fuzzed)
  }

  /** Fuzzy matching is on when there are as many fuzzy names as names. */
  predicate FuzzyOn(g: seq<FieldSpec>) { |Names(g)| == |FuzzyNames(g)| }

  /** The field a request key names: exact name first, then decimal identifier, then fuzzy name. */
  function GetField(g: seq<FieldSpec>, name: string): Option<FieldSpec> {
    if ByName(g, name).Some? then ByName(g, name)
    else if ByIDText(g, name).Some? then ByIDText(g, name)
    else if FuzzyOn(g) then ByFuzz(g, Fuzz(name))
    else None
  }

  /** The three maps built by getFields; fuzzy is empty when names clash. */
  datatype FieldIndex = FieldIndex(
    exact: map<string, FieldSpec>, fieldIDs: map<string, FieldSpec>, fuzzy: map<string, FieldSpec>)

  predicate Agrees(m: map<string, FieldSpec>, name: string, f: Option<FieldSpec>) {
    if name in m then f == Some(m[name]) else f == None
  }

  /** The maps hold what filling them from g in order leaves: for each key the last field. */
  ghost predicate Filled(exact: map<string, FieldSpec>, fieldIDs: map<string, FieldSpec>,
                         fuzzy: map<string, FieldSpec>, g: seq<FieldSpec>)
  {
    && (forall n :: Agrees(exact, n, ByName(g, n)))
    && (forall n :: Agrees(fieldIDs, n, ByIDText(g, n)))
    && (forall n :: Agrees(fuzzy, n, ByFuzz(g, n)))
    && exact.Keys == Names(g) && fuzzy.Keys == FuzzyNames(g)
  }

  lemma FilledStep(exact: map<string, FieldSpec>, fieldIDs: map<string, FieldSpec>,
                   fuzzy: map<string, FieldSpec>, g: seq<FieldSpec>, f: FieldSpec)
    requires Filled(exact, fieldIDs, fuzzy, g)
    ensures Filled(exact[f.name := f], fieldIDs[Decimal.Format(f.id) := f], fuzzy[Fuzz(f.name) := f], g + [f])
  {
    hide Fuzz, Decimal.Format, Names, FuzzyNames;
    var h := g + [f];
    assert h[..|g|] == g;
    NamesAppend(g, f);
    ByNameAppend(exact, g, f);
    ByIDTextAppend(fieldIDs, g, f);
    ByFuzzAppend(fuzzy, g, f);
  }

  lemma ByNameAppend(m: map<string, FieldSpec>, g: seq<FieldSpec>, f: FieldSpec)
    requires forall n :: Agrees(m, n, ByName(g, n))
    ensures forall n :: Agrees(m[f.name := f], n, ByName(g + [f], n))
  {
    var h := g + [f];
    assert h[..|g|] == g;
    forall n ensures Agrees(m[f.name := f], n, ByName(h, n)) {
      assert Agrees(m, n, ByName(g, n));
    }
  }

  lemma ByIDTextAppend(m: map<string, FieldSpec>, g: seq<FieldSpec>, f: FieldSpec)
    requires forall n :: Agrees(m, n, ByIDText(g, n))
    ensures forall n :: Agrees(m[Decimal.Format(f.id) := f], n, ByIDText(g + [f], n))
  {
    hide Decimal.Format;
    var h := g + [f];
    assert h[..|g|] == g;
    forall n ensures Agrees(m[Decimal.Format(f.id) := f], n, ByIDText(h, n)) {
      assert Agrees(m, n, ByIDText(g, n));
    }
  }

  lemma ByFuzzAppend(m: map<string, FieldSpec>, g: seq<FieldSpec>, f: FieldSpec)
    requires forall n :: Agrees(m, n, ByFuzz(g, n))
    ensures forall n :: Agrees(m[Fuzz(f.name) := f], n, ByFuzz(g + [f], n))
  {
    hide Fuzz;
    var h := g + [f];
    assert h[..|g|] == g;
    forall n ensures Agrees(m[Fuzz(f.name) := f], n, ByFuzz(h, n)) {
      assert Agrees(m, n, ByFuzz(g, n));
    }
  }

  ghost predicate Indexes(ix: FieldIndex, g: seq<FieldSpec>) {
    && ix.exact.Keys == Names(g)
    && (forall n :: Agrees(ix.exact, n, ByName(g, n)))
    && (forall n :: Agrees(ix.fieldIDs, n, ByIDText(g, n)))
    && (FuzzyOn(g) ==> forall n :: Agrees(ix.fuzzy, n, ByFuzz(g, n)))
    && (!FuzzyOn(g) ==> ix.fuzzy == map[])
  }

  method GetFields(spec: seq<FieldSpec>) returns (ix: FieldIndex)
    ensures Indexes(ix, spec)
  {
    var exact, fieldIDs, fuzzy: map<string, FieldSpec> := map[], map[], map[];
    for i := 0 to |spec|
      invariant Filled(exact, fieldIDs, fuzzy, spec[..i])
    {
      var f := spec[i];
      FilledStep(exact, fieldIDs, fuzzy, spec[..i], f);
      assert spec[..i + 1] == spec[..i] + [f];
      exact := exact[f.name := f];
      fieldIDs := fieldIDs[Decimal.Format(f.id) := f];
      var fuzzed := FuzzName(f.name);
      fuzzy := fuzzy[fuzzed := f];
    }
    assert spec[..|spec|] == spec;
    assert |exact| == |exact.Keys| && |fuzzy| == |fuzzy.Keys|;
    if |exact| != |fuzzy| {
      fuzzy := map[];
    }
    ix := FieldIndex(exact, fieldIDs, fuzzy);
  }

  /** fields.getField */
  method Lookup(ix: FieldIndex, name: string, ghost g: seq<FieldSpec>) returns (f: Option<FieldSpec>)
    requires Indexes(ix, g)
    ensures f == GetField(g, name)
  {
    assert Agrees(ix.exact, name, ByName(g, name));
    assert Agrees(ix.fieldIDs, name, ByIDText(g, name));
    if name in ix.exact { return Some(ix.exact[name]); }
    if name in ix.fieldIDs { return Some(ix.fieldIDs[name]); }
    var fuzzed := FuzzName(name);
    assert FuzzyOn(g) ==> Agrees(ix.fuzzy, fuzzed, ByFuzz(g, fuzzed));
    if fuzzed in ix.fuzzy { return Some(ix.fuzzy[fuzzed]); }
    return None;
  }

  lemma {:induction false} ByNameFinds(g: seq<FieldSpec>, name: string)
    ensures ByName(g, name).Some? <==> name in Names(g)
    ensures ByName(g, name).Some? ==> ByName(g, name).value in g && ByName(g, name).value.name == name
  {
    if g != [] {
      var n := |g| - 1;
      ByNameFinds(g[..n], name);
      NamesAppend(g[..n], g[n]);
      assert g[..n] + [g[n]] == g;
    }
  }

  ghost function FieldOf(g: seq<FieldSpec>, name: string): (f: FieldSpec)
    requires name in Names(g)
    ensures f in g && f.name == name
  {
    ByNameFinds(g, name);
    ByName(g, name).value
  }

  lemma {:induction false} ByIDTextFinds(g: seq<FieldSpec>, text: string)
    ensures ByIDText(g, text).None? ==> forall f | f in g :: Decimal.Format(f.id) != text
    ensures ByIDText(g, text).Some? ==>
            ByIDText(g, text).value in g && Decimal.Format(ByIDText(g, text).value.id) == text
  {
    if g != [] {
      ByIDTextFinds(g[..|g| - 1], text);
    }
  }

  lemma {:induction false} ByFuzzFinds(g: seq<FieldSpec>, fuzzed: string)
    ensures ByFuzz(g, fuzzed).None? ==> forall f | f in g :: Fuzz(f.name) != fuzzed
    ensures ByFuzz(g, fuzzed).Some? ==> ByFuzz(g, fuzzed).value in g && Fuzz(ByFuzz(g, fuzzed).value.name) == fuzzed
  {
    if g != [] {
      ByFuzzFinds(g[..|g| - 1], fuzzed);
    }
  }

  lemma GetFieldFinds(g: seq<FieldSpec>, name: string)
    ensures GetField(g, name).Some? ==> GetField(g, name).value in g
  {
    ByNameFinds(g, name);
    ByIDTextFinds(g, name);
    ByFuzzFinds(g, Fuzz(name));
  }

  /** Every declared name resolves to its own field, whatever the other fields are called. */
  lemma DeclaredNameResolves(g: seq<FieldSpec>, f: FieldSpec)
    requires DistinctFields(g) && f in g
    ensures GetField(g, f.name) == Some(f)
  {
    ByNameFinds(g, f.name);
    var i :| 0 <= i < |g| && g[i] == f;
    assert g[i].name in Names(g);
  }

  lemma NameInjective(g: seq<FieldSpec>, a: FieldSpec, b: FieldSpec)
    requires DistinctFields(g) && a in g && b in g && (a.name == b.name || a.id == b.id)
    ensures a == b
  {
  }

  predicate FuzzInjective(g: seq<FieldSpec>) {
    forall i, j | 0 <= i < j < |g| :: Fuzz(g[i].name) != Fuzz(g[j].name)
  }

  lemma NewName(pre: seq<FieldSpec>, f: FieldSpec)
    requires DistinctFields(pre + [f])
    ensures f.name !in Names(pre)
  {
    forall i | 0 <= i < |pre| ensures pre[i].name != f.name {
      assert (pre + [f])[i].name != (pre + [f])[|pre|].name;
    }
  }

  lemma FuzzInjectiveStep(pre: seq<FieldSpec>, f: FieldSpec)
    ensures FuzzInjective(pre + [f]) <==> FuzzInjective(pre) && Fuzz(f.name) !in FuzzyNames(pre)
  {
    hide Fuzz;
    var g := pre + [f];
    assert g[|pre|] == f;
    if FuzzInjective(g) {
      forall i, j | 0 <= i < j < |pre| ensures Fuzz(pre[i].name) != Fuzz(pre[j].name) {
        assert Fuzz(g[i].name) != Fuzz(g[j].name);
      }
      forall i | 0 <= i < |pre| ensures Fuzz(pre[i].name) != Fuzz(f.name) {
        assert Fuzz(g[i].name) != Fuzz(g[|pre|].name);
      }
    }
    if FuzzInjective(pre) && Fuzz(f.name) !in FuzzyNames(pre) {
      forall i, j | 0 <= i < j < |g| ensures Fuzz(g[i].name) != Fuzz(g[j].name) {
        if j == |pre| { assert Fuzz(pre[i].name) in FuzzyNames(pre); }
      }
    }
  }

  lemma NamesAppend(pre: seq<FieldSpec>, f: FieldSpec)
    ensures Names(pre + [f]) == Names(pre) + {f.name}
    ensures FuzzyNames(pre + [f]) == FuzzyNames(pre) + {Fuzz(f.name)}
  {
    hide Fuzz;
    var g := pre + [f];
    assert g[|pre|] == f;
    assert forall i | 0 <= i < |pre| :: g[i] == pre[i];
  }

  /** Comparing the sizes of the two maps detects exactly the groups in which two names clash. */
  lemma {:induction false} FuzzyOnIffInjective(g: seq<FieldSpec>)
    requires DistinctFields(g)
    ensures |Names(g)| == |g|
    ensures |FuzzyNames(g)| <= |g|
    ensures FuzzyOn(g) <==> FuzzInjective(g)
  {
    if g != [] {
      var pre, f := g[..|g| - 1], g[|g| - 1];
      assert pre + [f] == g;
      FuzzyOnIffInjective(pre);
      NewName(pre, f);
      FuzzInjectiveStep(pre, f);
      NamesAppend(pre, f);
    }
    hide Fuzz, FuzzInjective, Names, FuzzyNames;
  }

  lemma InjectiveByMembers(g: seq<FieldSpec>, h: seq<FieldSpec>)
    requires DistinctFields(g) && DistinctFields(h)
    requires SameMembers(g, h)
    requires FuzzInjective(g)
    ensures FuzzInjective(h)
  {
    forall i, j | 0 <= i < j < |h| ensures Fuzz(h[i].name) != Fuzz(h[j].name) {
      assert h[i] in g && h[j] in g;
    }
  }

  ghost predicate SameMembers(g: seq<FieldSpec>, h: seq<FieldSpec>) { forall f :: f in g <==> f in h }

  lemma ByNameIgnoresOrder(g: seq<FieldSpec>, h: seq<FieldSpec>, name: string)
    requires DistinctFields(g) && DistinctFields(h) && SameMembers(g, h)
    ensures ByName(g, name) == ByName(h, name)
  {
    ByNameFinds(g, name);
    ByNameFinds(h, name);
    if ByName(g, name).Some? {
      DeclaredNameResolves(h, ByName(g, name).value);
    } else if ByName(h, name).Some? {
      DeclaredNameResolves(g, ByName(h, name).value);
    }
  }

  lemma ByIDTextIgnoresOrder(g: seq<FieldSpec>, h: seq<FieldSpec>, text: string)
    requires DistinctFields(g) && DistinctFields(h) && SameMembers(g, h)
    ensures ByIDText(g, text) == ByIDText(h, text)
  {
    hide Decimal.Format, ByIDText;
    ByIDTextFinds(g, text);
    ByIDTextFinds(h, text);
    if ByIDText(g, text).Some? && ByIDText(h, text).Some? {
      Decimal.FormatInjective(ByIDText(g, text).value.id, ByIDText(h, text).value.id);
    }
  }

  /** Lookup does not depend on the order in which the fields are declared. */
  lemma LookupIgnoresDeclarationOrder(g: seq<FieldSpec>, h: seq<FieldSpec>, name: string)
    requires DistinctFields(g) && DistinctFields(h) && SameMembers(g, h)
    ensures GetField(g, name) == GetField(h, name)
  {
    ByNameIgnoresOrder(g, h, name);
    ByIDTextIgnoresOrder(g, h, name);
    FuzzyOnIffInjective(g);
    FuzzyOnIffInjective(h);
    if FuzzInjective(g) {
      InjectiveByMembers(g, h);
      ByFuzzFinds(g, Fuzz(name));
      ByFuzzFinds(h, Fuzz(name));
    } else if FuzzInjective(h) {
      InjectiveByMembers(h, g);
    }
  }

  // ---- Which field a key names, in terms of spellings

  /** The letters and digits of a name. */
  function Alnum(s: string): string {
    if s == "" then "" else Kept(s[0]) + Alnum(s[1..])
  }

  function Kept(c: char): string { if IsUpper(c) || IsLowerOrDigit(c) then [c] else "" }

  /** The same letter in either case, or the same character. */
  predicate Alike(c: char, d: char) {
    c == d || (IsUpper(c) && d == c + ('a' - 'A')) || (IsUpper(d) && c == d + ('a' - 'A'))
  }

  /** Two spellings of one name, such as some_field and someField. */
  predicate SameLetters(a: string, b: string) {
    |Alnum(a)| == |Alnum(b)| && forall i | 0 <= i < |Alnum(a)| :: Alike(Alnum(a)[i], Alnum(b)[i])
  }

  function SmallLetter(c: char): char { if IsUpper(c) then c + ('a' - 'A') else c }

  lemma {:induction false} FuzzFirst(c: char, t: string)
    ensures Fuzz([c] + t) == Fuzz([c]) + Fuzz(t)
  {
    if t == "" {
      assert [c] + t == [c];
    } else {
      var n := |t| - 1;
      assert ([c] + t)[..n + 1] == [c] + t[..n];
      FuzzFirst(c, t[..n]);
    }
  }

  lemma {:induction false} AlnumIsAlnum(s: string)
    ensures forall i | 0 <= i < |Alnum(s)| :: IsUpper(Alnum(s)[i]) || IsLowerOrDigit(Alnum(s)[i])
  {
    if s != "" { AlnumIsAlnum(s[1..]); }
  }

  lemma {:induction false} FuzzIs(s: string)
    ensures Fuzz(s) == seq(|Alnum(s)|, i requires 0 <= i < |Alnum(s)| => SmallLetter(Alnum(s)[i]))
  {
    if s != "" {
      assert s == [s[0]] + s[1..];
      FuzzFirst(s[0], s[1..]);
      FuzzIs(s[1..]);
      assert [s[0]][..0] == "";
    }
  }

  /** Fuzzy names are equal exactly for two spellings of one name. */
  lemma FuzzEqualIff(a: string, b: string)
    ensures Fuzz(a) == Fuzz(b) <==> SameLetters(a, b)
  {
    hide Fuzz, Alnum;
    FuzzIs(a);
    FuzzIs(b);
    AlnumIsAlnum(a);
    AlnumIsAlnum(b);
    if Fuzz(a) == Fuzz(b) {
      forall i | 0 <= i < |Alnum(a)| ensures Alike(Alnum(a)[i], Alnum(b)[i]) {
        assert Fuzz(a)[i] == SmallLetter(Alnum(a)[i]) && Fuzz(b)[i] == SmallLetter(Alnum(b)[i]);
      }
    }
  }

  /** No two fields have names that are spellings of one. */
  ghost predicate SpelledApart(g: seq<FieldSpec>) {
    forall i, j | 0 <= i < j < |g| :: !SameLetters(g[i].name, g[j].name)
  }

  /** A key names the field of that name, or else the one of that identifier, or else, where no two field
      names are spelled alike, the one whose name it spells. */
  ghost predicate IsNamedBy(g: seq<FieldSpec>, f: FieldSpec, key: string) {
    && f in g
    && (|| f.name == key
        || (&& (forall h | h in g :: h.name != key)
            && (|| Decimal.Format(f.id) == key
                || (&& (forall h | h in g :: Decimal.Format(h.id) != key)
                    && SpelledApart(g) && SameLetters(f.name, key)))))
  }

  lemma FuzzInjectiveIff(g: seq<FieldSpec>)
    ensures FuzzInjective(g) <==> SpelledApart(g)
  {
    hide Fuzz, SameLetters;
    forall i, j | 0 <= i < j < |g| ensures Fuzz(g[i].name) == Fuzz(g[j].name) <==> SameLetters(g[i].name, g[j].name) {
      FuzzEqualIff(g[i].name, g[j].name);
    }
  }

  lemma NoneNamed(g: seq<FieldSpec>, key: string)
    ensures ByName(g, key).None? <==> forall h | h in g :: h.name != key
  {
    ByNameFinds(g, key);
    if h :| h in g && h.name == key {
      var i :| 0 <= i < |g| && g[i] == h;
      assert g[i].name in Names(g);
    }
  }

  lemma SameSpelling(g: seq<FieldSpec>, f: FieldSpec, h: FieldSpec)
    requires FuzzInjective(g) && f in g && h in g && Fuzz(f.name) == Fuzz(h.name)
    ensures f == h
  {
    hide Fuzz;
    var i :| 0 <= i < |g| && g[i] == f;
    var j :| 0 <= j < |g| && g[j] == h;
    if i < j {
      assert Fuzz(g[i].name) == Fuzz(g[j].name);
    } else if j < i {
      assert Fuzz(g[j].name) == Fuzz(g[i].name);
    }
  }

  /** The field that a request key names. */
  lemma FieldNamed(g: seq<FieldSpec>, f: FieldSpec, key: string)
    requires DistinctFields(g)
    ensures GetField(g, key) == Some(f) <==> IsNamedBy(g, f, key)
  {
    hide Fuzz, SameLetters, FuzzyOn, SpelledApart, ByName, ByIDText, ByFuzz, Decimal.Format, FuzzInjective;
    NoneNamed(g, key);
    ByNameFinds(g, key);
    ByIDTextFinds(g, key);
    FuzzyOnIffInjective(g);
    FuzzInjectiveIff(g);
    ByFuzzFinds(g, Fuzz(key));
    FuzzEqualIff(f.name, key);
    if f in g {
      if f.name == key { DeclaredNameResolves(g, f); }
      if ByIDText(g, key).Some? && Decimal.Format(f.id) == key {
        Decimal.FormatInjective(f.id, ByIDText(g, key).value.id);
        NameInjective(g, f, ByIDText(g, key).value);
      }
      if FuzzInjective(g) && ByFuzz(g, Fuzz(key)).Some? && Fuzz(f.name) == Fuzz(key) {
        SameSpelling(g, f, ByFuzz(g, Fuzz(key)).value);
      }
    }
  }

  /** And a key that names none is unknown. */
  lemma NoFieldNamed(g: seq<FieldSpec>, key: string)
    requires DistinctFields(g)
    ensures GetField(g, key).None? <==> forall f :: !IsNamedBy(g, f, key)
  {
    hide GetField, IsNamedBy;
    forall f ensures GetField(g, key) == Some(f) <==> IsNamedBy(g, f, key) { FieldNamed(g, f, key); }
  }

  lemma {:induction false} AlnumParts(a: string, b: string)
    ensures Alnum(a + b) == Alnum(a) + Alnum(b)
  {
    if a == "" {
      assert a + b == b;
    } else {
      hide Kept;
      assert (a + b)[1..] == a[1..] + b && (a + b)[0] == a[0];
      AlnumParts(a[1..], b);
      Associates(Kept(a[0]), Alnum(a[1..]), Alnum(b));
    }
  }

  lemma Associates(a: string, b: string, c: string)
    ensures a + b + c == a + (b + c)
  {
  }

  lemma {:induction false} AlnumWord(w: string)
    requires forall i | 0 <= i < |w| :: IsUpper(w[i]) || IsLowerOrDigit(w[i])
    ensures Alnum(w) == w
  {
    if w != "" { AlnumWord(w[1..]); }
  }

  /** For example. */
  lemma SpellingExample()
    ensures SameLetters("some_field", "someField")
  {
    hide Alnum;
    assert "some_field" == "some" + "_" + "field";
    AlnumParts("some" + "_", "field");
    AlnumParts("some", "_");
    assert Alnum("_") == "" by { NoLetters('_'); }
    AlnumWord("some");
    AlnumWord("field");
    AlnumWord("someField");
    assert "some" + "" + "field" == "somefield";
  }

  lemma NoLetters(c: char)
    requires !IsUpper(c) && !IsLowerOrDigit(c)
    ensures Alnum([c]) == ""
  {
  }

  // ---- Default constants

  /** The request value of a constant; None if building it panics on an unhashable map key. */
  function RequestOf(c: Const): (r: Option<Dyn>)
    ensures r.Some? ==> !r.value.Nil?
  {
    match c
    case ConstBool(b) => Some(Bool(b))
    case ConstInt(n) => Some(Int(GoInt64, n))
    case ConstDouble(d) => Some(Float(d))
    case ConstString(s) => Some(Str(s))
    case ConstReference(t) => RequestOf(t)
    case ConstEnumItem(n) => Some(Int(GoInt32, n))
    case ConstSet(cs) => (match RequestList(cs) case None => None case Some(vs) => Some(List(vs)))
    case ConstList(cs) => (match RequestList(cs) case None => None case Some(vs) => Some(List(vs)))
    case ConstMap(es) => (match RequestMap(es) case None => None case Some(m) => Some(AnyMap(m)))
    case ConstStruct(fs) =>
      if forall n | n in fs :: RequestOf(fs[n]).Some?
      then Some(StrMap(map n | n in fs :: RequestOf(fs[n]).value))
      else None
  }

  function RequestList(cs: seq<Const>): (r: Option<seq<Dyn>>)
    ensures r.Some? ==> |r.value| == |cs|
  {
    if cs == [] then Some([])
    else match (RequestList(cs[..|cs| - 1]), RequestOf(cs[|cs| - 1]))
      case (Some(vs), Some(v)) => Some(vs + [v])
      case _ => None
  }

  function RequestMap(es: seq<ConstEntry>): Option<map<Key, Dyn>>
  {
    if es == [] then Some(map[])
    else match (RequestMap(es[..|es| - 1]), RequestEntry(es[|es| - 1]))
      case (Some(m), Some(e)) => Some(m[e.0 := e.1])
      case _ => None
  }

  function RequestEntry(e: ConstEntry): Option<(Key, Dyn)>
  {
    match (RequestOf(e.key), RequestOf(e.value))
    case (Some(k), Some(v)) =>
      (match HashKey(k) case None => None case Some(h) => Some((h, v)))
    case _ => None
  }

  // ---- The value of each field

  function Unknown(g: seq<FieldSpec>, request: map<string, Dyn>): set<string> {
    set k | k in request && GetField(g, k).None?
  }

  /** The request keys that give the field called name a value. */
  function Givers(g: seq<FieldSpec>, request: map<string, Dyn>, name: string): set<string> {
    set k | k in request && request[k] != Nil && GetField(g, k).Some? && GetField(g, k).value.name == name
  }

  /** What the first loop of fieldGroupToValue may leave in userFields: for each field, the value
      of some key that gives one. */
  ghost predicate Collected(g: seq<FieldSpec>, request: map<string, Dyn>, uf: map<string, Dyn>) {
    && (forall n :: n in uf <==> Givers(g, request, n) != {})
    && (forall n | n in uf :: exists k :: k in Givers(g, request, n) && request[k] == uf[n])
  }

  /** Two request keys give one field different values. */
  ghost predicate Clash(g: seq<FieldSpec>, request: map<string, Dyn>) {
    exists n, j, k :: j in Givers(g, request, n) && k in Givers(g, request, n) && request[j] != request[k]
  }

  ghost function Given(g: seq<FieldSpec>, request: map<string, Dyn>): map<string, Dyn> {
    map n | n in Names(g) && Givers(g, request, n) != {} ::
      var k :| k in Givers(g, request, n); request[k]
  }

  lemma GiversAreNamed(g: seq<FieldSpec>, request: map<string, Dyn>, n: string)
    requires Givers(g, request, n) != {}
    ensures n in Names(g)
  {
    var k :| k in Givers(g, request, n);
    GetFieldFinds(g, k);
    var i :| 0 <= i < |g| && g[i] == GetField(g, k).value;
    assert g[i].name in Names(g);
  }

  lemma GivenIsCollected(g: seq<FieldSpec>, request: map<string, Dyn>)
    ensures Collected(g, request, Given(g, request))
  {
    forall n
      ensures n in Given(g, request) <==> Givers(g, request, n) != {}
    {
      if Givers(g, request, n) != {} { GiversAreNamed(g, request, n); }
    }
  }

  lemma CollectedPick(g: seq<FieldSpec>, request: map<string, Dyn>, n: string, k: string)
    requires k in Givers(g, request, n)
    ensures Collected(g, request, Given(g, request)[n := request[k]])
  {
    GivenIsCollected(g, request);
    var uf := Given(g, request)[n := request[k]];
    forall m | m in uf ensures exists j :: j in Givers(g, request, m) && request[j] == uf[m] {
      if m != n { assert uf[m] == Given(g, request)[m]; }
    }
  }

  lemma CollectedAt(g: seq<FieldSpec>, request: map<string, Dyn>, uf: map<string, Dyn>, n: string) returns (k: string)
    requires Collected(g, request, uf) && n in uf
    ensures k in Givers(g, request, n) && request[k] == uf[n]
  {
    k :| k in Givers(g, request, n) && request[k] == uf[n];
  }

  lemma NoClashAt(g: seq<FieldSpec>, request: map<string, Dyn>, n: string, j: string, k: string)
    requires !Clash(g, request) && j in Givers(g, request, n) && k in Givers(g, request, n)
    ensures request[j] == request[k]
  {
  }

  lemma SameKeys(g: seq<FieldSpec>, request: map<string, Dyn>, uf: map<string, Dyn>, uf': map<string, Dyn>)
    requires Collected(g, request, uf) && Collected(g, request, uf')
    ensures uf.Keys == uf'.Keys
  {
  }

  lemma CollectedAgree(g: seq<FieldSpec>, request: map<string, Dyn>, uf: map<string, Dyn>, uf': map<string, Dyn>)
    requires !Clash(g, request)
    requires Collected(g, request, uf) && Collected(g, request, uf')
    ensures uf == uf'
  {
    hide Givers, Clash, Collected;
    SameKeys(g, request, uf, uf');
    forall n | n in uf.Keys ensures uf[n] == uf'[n] {
      var j := CollectedAt(g, request, uf, n);
      var k := CollectedAt(g, request, uf', n);
      NoClashAt(g, request, n, j, k);
    }
  }

  /** The collected values do not depend on the order in which Go visits the request exactly when
      keys that name the same field carry the same value. */
  lemma CollectedIsUniqueIffNoClash(g: seq<FieldSpec>, request: map<string, Dyn>)
    ensures !Clash(g, request) <==>
            (forall uf, uf' :: Collected(g, request, uf) && Collected(g, request, uf') ==> uf == uf')
  {
    hide Clash, Collected, Givers;
    if Clash(g, request) {
      var uf, uf' := ClashMakesTwo(g, request);
    } else {
      forall uf, uf' | Collected(g, request, uf) && Collected(g, request, uf')
        ensures uf == uf'
      {
        CollectedAgree(g, request, uf, uf');
      }
    }
  }

  lemma ClashMakesTwo(g: seq<FieldSpec>, request: map<string, Dyn>)
    returns (uf: map<string, Dyn>, uf': map<string, Dyn>)
    requires Clash(g, request)
    ensures Collected(g, request, uf) && Collected(g, request, uf') && uf != uf'
  {
    var n, j, k :| j in Givers(g, request, n) && k in Givers(g, request, n) && request[j] != request[k];
    uf, uf' := Given(g, request)[n := request[j]], Given(g, request)[n := request[k]];
    hide Given, Collected;
    CollectedPick(g, request, n, j);
    CollectedPick(g, request, n, k);
    assert uf[n] != uf'[n];
  }

  /** Required fields without a default for which no value was given. */
  function Missing(g: seq<FieldSpec>, given: map<string, Dyn>): set<string> {
    set i | 0 <= i < |g| && g[i].required && g[i].default.None? && g[i].name !in given :: g[i].name
  }

  /** In whatever order Go visits the request, the same fields are set, and the same required fields
      are missing. */
  lemma MissingIgnoresOrder(g: seq<FieldSpec>, request: map<string, Dyn>, uf: map<string, Dyn>, uf': map<string, Dyn>)
    requires Collected(g, request, uf) && Collected(g, request, uf')
    ensures uf.Keys == uf'.Keys && Missing(g, uf) == Missing(g, uf')
  {
    hide Collected;
    SameKeys(g, request, uf, uf');
    assert forall n :: n in uf <==> n in uf.Keys;
    assert forall n :: n in uf' <==> n in uf'.Keys;
  }

  /** Unset fields get their default, if they have one. */
  function WithDefaults(g: seq<FieldSpec>, given: map<string, Dyn>): Option<map<string, Dyn>>
  {
    if g == [] then Some(given)
    else
      var f := g[|g| - 1];
      match WithDefaults(g[..|g| - 1], given)
      case None => None
      case Some(m) =>
        if f.name in m || f.default.None? then Some(m)
        else match RequestOf(f.default.value)
          case None => None
          case Some(v) => Some(m[f.name := v])
  }
}

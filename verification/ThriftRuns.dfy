/** How a run of thrift/to_wire.go may end. */
module ThriftRuns {
  // A run visits maps in any order, and when several request keys name one field, any of their values
  // may be the one that is kept. List items are encoded in order, the key of an entry before its value,
  // and the first call that does not succeed ends the run.

  import opened Option
  import opened Values
  import opened ThriftSpec
  import opened ThriftFields
  import opened ThriftScalars
  import opened ThriftEncode
  import opened ThriftFieldLoops

  /** With a value, with an error, or by exhausting the call depth allowed to it. */
  datatype End = Good | Bad | Out

  /** No key is unknown, no required field is missing, and no default panics: the same in every run. */
  ghost predicate Accepted(g: seq<FieldSpec>, request: map<string, Dyn>) {
    && Unknown(g, request) == {} && Missing(g, Given(g, request)) == {}
    && WithDefaults(g, Given(g, request)).Some?
  }

  /** Some run of toWireValue ends like this. */
  ghost predicate May(env: Env, depth: nat, spec: Spec, v: Dyn, e: End)
    decreases depth, 0
  {
    var root := spec.Root();
    if depth == 0 then e == Out
    else if root.StructSpec? then
      match AsStrings(v)
      case None => e == Bad
      case Some(request) => MayStruct(env, depth - 1, env.Def(root.structName), request, e)
    else if root.ListSpec? || root.SetSpec? then
      if v.List? then MayList(env, depth - 1, root.elem, v.items, e) else e == Bad
    else if root.MapSpec? then
      match AsEntries(v)
      case None => e == Bad
      case Some(m) => MayEntries(env, depth - 1, root.key, root.value, m, e)
    else e == if EncodeScalar(env.lib, root, v).Some? then Good else Bad
  }

  /** fieldGroupToValue followed by checkStructValue. */
  ghost predicate MayStruct(env: Env, depth: nat, def: StructDef, request: map<string, Dyn>, e: End)
    decreases depth, 4
  {
    if !Accepted(def.fields, request) then e == Bad
    else
      match e
      case Good => MayGroup(env, depth, def.fields, request, Good) && !WrongUnion(def, request)
      case Bad =>
        || MayGroup(env, depth, def.fields, request, Bad)
        || (MayGroup(env, depth, def.fields, request, Good) && WrongUnion(def, request))
      case Out => MayGroup(env, depth, def.fields, request, Out)
  }

  /** The fields of an accepted request, whichever values were collected. */
  ghost predicate MayGroup(env: Env, depth: nat, g: seq<FieldSpec>, request: map<string, Dyn>, e: End)
    decreases depth, 3
  {
    exists given :: Collected(g, request, given) && MayFill(env, depth, g, given, e)
  }

  ghost predicate MayFill(env: Env, depth: nat, g: seq<FieldSpec>, given: map<string, Dyn>, e: End)
    decreases depth, 2
  {
    WithDefaults(g, given).Some? && MayFields(env, depth, g, WithDefaults(g, given).value, e)
  }

  /** Fields in any order: any of them may be the first. */
  ghost predicate MayFields(env: Env, depth: nat, g: seq<FieldSpec>, uf: map<string, Dyn>, e: End)
    decreases depth, 1
  {
    if e == Good then forall f | f in g && f.name in uf :: May(env, depth, f.ty, uf[f.name], Good)
    else exists f :: f in g && f.name in uf && May(env, depth, f.ty, uf[f.name], e)
  }

  /** Items in order. */
  ghost predicate MayList(env: Env, depth: nat, elem: Spec, vs: seq<Dyn>, e: End)
    decreases depth, 1, |vs|
  {
    if e == Good then forall i | 0 <= i < |vs| :: May(env, depth, elem, vs[i], Good)
    else exists i :: 0 <= i < |vs| && May(env, depth, elem, vs[i], e) && MayList(env, depth, elem, vs[..i], Good)
  }

  /** Entries in any order. */
  ghost predicate MayEntries(env: Env, depth: nat, ks: Spec, vs: Spec, m: map<Key, Dyn>, e: End)
    decreases depth, 3
  {
    if e == Good then forall k | k in m && !m[k].Nil? :: MayEntry(env, depth, ks, vs, k, m[k], Good)
    else exists k :: k in m && !m[k].Nil? && MayEntry(env, depth, ks, vs, k, m[k], e)
  }

  /** The key before the value. */
  ghost predicate MayEntry(env: Env, depth: nat, ks: Spec, vs: Spec, k: Key, v: Dyn, e: End)
    decreases depth, 2
  {
    || (e != Good && May(env, depth, ks, ConvertMapKey(env.lib, ks, k), e))
    || (May(env, depth, ks, ConvertMapKey(env.lib, ks, k), Good) && May(env, depth, vs, v, e))
  }

  // ---- Unfolding

  lemma MayNothing(env: Env, spec: Spec, v: Dyn, e: End)
    ensures May(env, 0, spec, v, e) <==> e == Out
  {
  }

  lemma MayOfStruct(env: Env, depth: nat, spec: Spec, v: Dyn, e: End)
    requires depth > 0 && spec.Root().StructSpec?
    ensures May(env, depth, spec, v, e) ==
            match AsStrings(v)
            case None => e == Bad
            case Some(m) => MayStruct(env, depth - 1, env.Def(spec.Root().structName), m, e)
  {
    hide MayStruct, MayList, MayEntries, EncodeScalar, AsStrings, AsEntries;
  }

  lemma MayOfList(env: Env, depth: nat, spec: Spec, v: Dyn, e: End)
    requires depth > 0 && (spec.Root().ListSpec? || spec.Root().SetSpec?)
    ensures May(env, depth, spec, v, e) ==
            if v.List? then MayList(env, depth - 1, spec.Root().elem, v.items, e) else e == Bad
  {
    hide MayStruct, MayList, MayEntries, EncodeScalar, AsStrings, AsEntries;
  }

  lemma MayOfMap(env: Env, depth: nat, spec: Spec, v: Dyn, e: End)
    requires depth > 0 && spec.Root().MapSpec?
    ensures May(env, depth, spec, v, e) ==
            match AsEntries(v)
            case None => e == Bad
            case Some(m) => MayEntries(env, depth - 1, spec.Root().key, spec.Root().value, m, e)
  {
    hide MayStruct, MayList, MayEntries, EncodeScalar, AsStrings, AsEntries;
  }

  lemma MayOfScalar(env: Env, depth: nat, spec: Spec, v: Dyn, e: End)
    requires depth > 0 && ScalarSpec(spec.Root())
    ensures May(env, depth, spec, v, e) <==> e == if EncodeScalar(env.lib, spec.Root(), v).Some? then Good else Bad
  {
    hide MayStruct, MayList, MayEntries, EncodeScalar, AsStrings, AsEntries;
  }

  /** Which values were collected makes no difference to the fields that are set. */
  lemma AcceptedAny(g: seq<FieldSpec>, request: map<string, Dyn>, given: map<string, Dyn>)
    requires DistinctFields(g) && Collected(g, request, given)
    ensures Missing(g, given) == Missing(g, Given(g, request))
    ensures WithDefaults(g, given).Some? <==> WithDefaults(g, Given(g, request)).Some?
    ensures WithDefaults(g, given).Some? ==>
              WithDefaults(g, given).value.Keys == WithDefaults(g, Given(g, request)).value.Keys
  {
    hide Collected, Given, WithDefaults, RequestOf;
    GivenIsCollected(g, request);
    MissingIgnoresOrder(g, request, given, Given(g, request));
    WithDefaultsKeys(g, given, Given(g, request));
  }

  // ---- Steps of a run

  lemma NoItems(env: Env, depth: nat, elem: Spec)
    ensures MayList(env, depth, elem, [], Good)
  {
    hide May;
  }

  lemma ItemSucceeds(env: Env, depth: nat, elem: Spec, vs: seq<Dyn>, v: Dyn)
    requires MayList(env, depth, elem, vs, Good) && May(env, depth, elem, v, Good)
    ensures MayList(env, depth, elem, vs + [v], Good)
  {
    hide May;
  }

  /** The first item that does not succeed decides how the list ends. */
  lemma ItemDecides(env: Env, depth: nat, elem: Spec, vs: seq<Dyn>, i: nat, e: End)
    requires i < |vs| && e != Good && MayList(env, depth, elem, vs[..i], Good) && May(env, depth, elem, vs[i], e)
    ensures MayList(env, depth, elem, vs, e)
  {
    hide May;
  }

  /** The first failure decides: what follows an item that cannot succeed makes no difference. */
  lemma FirstFailureDecides(env: Env, depth: nat, elem: Spec, vs: seq<Dyn>, i: nat, e: End)
    requires i < |vs| && !May(env, depth, elem, vs[i], Good)
    ensures MayList(env, depth, elem, vs, e) <==> MayList(env, depth, elem, vs[..i + 1], e)
  {
    hide May;
    hide MayList;
    var pre := vs[..i + 1];
    assert pre[i] == vs[i];
    NotAllSucceed(env, depth, elem, vs, i);
    NotAllSucceed(env, depth, elem, pre, i);
    if e != Good && MayList(env, depth, elem, vs, e) {
      var j := ListEndsAt(env, depth, elem, vs, e);
      if j > i { NotAllSucceed(env, depth, elem, vs[..j], i); }
      assert pre[..j] == vs[..j];
      ItemDecides(env, depth, elem, pre, j, e);
    }
    if e != Good && MayList(env, depth, elem, pre, e) {
      var j := ListEndsAt(env, depth, elem, pre, e);
      assert pre[..j] == vs[..j];
      ItemDecides(env, depth, elem, vs, j, e);
    }
  }

  lemma NotAllSucceed(env: Env, depth: nat, elem: Spec, vs: seq<Dyn>, i: nat)
    requires i < |vs| && !May(env, depth, elem, vs[i], Good)
    ensures !MayList(env, depth, elem, vs, Good)
  {
    hide May;
  }

  lemma ListEndsAt(env: Env, depth: nat, elem: Spec, vs: seq<Dyn>, e: End) returns (i: nat)
    requires e != Good && MayList(env, depth, elem, vs, e)
    ensures i < |vs| && May(env, depth, elem, vs[i], e) && MayList(env, depth, elem, vs[..i], Good)
  {
    hide May;
    i :| 0 <= i < |vs| && May(env, depth, elem, vs[i], e) && MayList(env, depth, elem, vs[..i], Good);
  }

  lemma NoEntries(env: Env, depth: nat, ks: Spec, vs: Spec)
    ensures MayEntries(env, depth, ks, vs, map[], Good)
  {
    hide MayEntry;
  }

  lemma AllGood(env: Env, depth: nat, ks: Spec, vs: Spec, m: map<Key, Dyn>, k: Key, rest: map<Key, Dyn>)
    requires k in m && rest == m - {k} && (m[k].Nil? || MayEntry(env, depth, ks, vs, k, m[k], Good))
    requires MayEntries(env, depth, ks, vs, rest, Good)
    ensures MayEntries(env, depth, ks, vs, m, Good)
  {
    hide MayEntry;
    assert forall j | j in m && j != k :: j in rest && rest[j] == m[j];
  }

  lemma EntrySucceeds(env: Env, depth: nat, ks: Spec, vs: Spec, m: map<Key, Dyn>, left: set<Key>, k: Key)
    requires k in left && left <= m.Keys && MayEntries(env, depth, ks, vs, Seen(m, left), Good)
    requires m[k].Nil? || MayEntry(env, depth, ks, vs, k, m[k], Good)
    ensures MayEntries(env, depth, ks, vs, Seen(m, left - {k}), Good)
  {
    hide MayEntry, MayEntries, Seen;
    SeenStep(m, left, k);
    AllGood(env, depth, ks, vs, Seen(m, left - {k}), k, Seen(m, left));
  }

  lemma FieldDecides(env: Env, depth: nat, g: seq<FieldSpec>, uf: map<string, Dyn>, f: FieldSpec, e: End)
    requires f in g && f.name in uf && e != Good && May(env, depth, f.ty, uf[f.name], e)
    ensures MayFields(env, depth, g, uf, e)
  {
    hide May;
  }

  /** Every field named in done has been encoded. */
  ghost predicate FieldsSucceed(env: Env, depth: nat, g: seq<FieldSpec>, uf: map<string, Dyn>, done: set<string>) {
    forall f | f in g && f.name in done && f.name in uf :: May(env, depth, f.ty, uf[f.name], Good)
  }

  lemma FieldSucceeds(env: Env, depth: nat, g: seq<FieldSpec>, uf: map<string, Dyn>, done: set<string>, f: FieldSpec)
    requires DistinctFields(g) && f in g && f.name in uf && FieldsSucceed(env, depth, g, uf, done)
    requires May(env, depth, f.ty, uf[f.name], Good)
    ensures FieldsSucceed(env, depth, g, uf, done + {f.name})
  {
    hide May;
    forall h | h in g && h.name == f.name ensures h == f { NameInjective(g, f, h); }
  }

  lemma AllSucceed(env: Env, depth: nat, g: seq<FieldSpec>, uf: map<string, Dyn>)
    requires FieldsSucceed(env, depth, g, uf, uf.Keys)
    ensures MayFields(env, depth, g, uf, Good)
  {
    hide May;
  }

  lemma GroupDecides(env: Env, depth: nat, g: seq<FieldSpec>, request: map<string, Dyn>, given: map<string, Dyn>,
                     e: End)
    requires Collected(g, request, given) && WithDefaults(g, given).Some?
    requires MayFields(env, depth, g, WithDefaults(g, given).value, e)
    ensures MayGroup(env, depth, g, request, e)
  {
    hide MayFields, Collected, WithDefaults;
    assert MayFill(env, depth, g, given, e);
  }

  // ---- Less depth

  /** A run given less depth ends as before, or exhausts it. */
  lemma {:induction false} Shrink(env: Env, depth: nat, spec: Spec, v: Dyn, e: End) returns (r: End)
    requires May(env, depth + 1, spec, v, e)
    ensures (r == e || r == Out) && May(env, depth, spec, v, r)
    decreases depth, 0
  {
    hide May, MayStruct, MayList, MayEntries, AsStrings, AsEntries, EncodeScalar;
    if depth == 0 {
      r := Out;
      MayNothing(env, spec, v, Out);
      return;
    }
    r := e;
    if spec.Root().StructSpec? {
      MayOfStruct(env, depth + 1, spec, v, e);
      if AsStrings(v).Some? {
        r := ShrinkStruct(env, depth - 1, env.Def(spec.Root().structName), AsStrings(v).value, e);
      }
      MayOfStruct(env, depth, spec, v, r);
    } else if spec.Root().ListSpec? || spec.Root().SetSpec? {
      MayOfList(env, depth + 1, spec, v, e);
      if v.List? { r := ShrinkList(env, depth - 1, spec.Root().elem, v.items, e); }
      MayOfList(env, depth, spec, v, r);
    } else if spec.Root().MapSpec? {
      MayOfMap(env, depth + 1, spec, v, e);
      if AsEntries(v).Some? {
        r := ShrinkEntries(env, depth - 1, spec.Root().key, spec.Root().value, AsEntries(v).value, e);
      }
      MayOfMap(env, depth, spec, v, r);
    } else {
      MayOfScalar(env, depth + 1, spec, v, e);
      MayOfScalar(env, depth, spec, v, e);
    }
  }

  lemma {:induction false} ShrinkStruct(env: Env, depth: nat, def: StructDef, request: map<string, Dyn>, e: End)
    returns (r: End)
    requires MayStruct(env, depth + 1, def, request, e)
    ensures (r == e || r == Out) && MayStruct(env, depth, def, request, r)
    decreases depth, 3
  {
    hide May, MayGroup, Accepted, WrongUnion;
    r := e;
    if Accepted(def.fields, request) {
      var inner := if MayGroup(env, depth + 1, def.fields, request, e) then e else Good;
      var q := ShrinkGroup(env, depth, def.fields, request, inner);
      if q == Out { r := Out; }
    }
  }

  lemma {:induction false} ShrinkGroup(env: Env, depth: nat, g: seq<FieldSpec>, request: map<string, Dyn>, e: End)
    returns (r: End)
    requires MayGroup(env, depth + 1, g, request, e)
    ensures (r == e || r == Out) && MayGroup(env, depth, g, request, r)
    decreases depth, 2
  {
    hide MayFields, Collected, WithDefaults;
    var given :| Collected(g, request, given) && MayFill(env, depth + 1, g, given, e);
    r := ShrinkFields(env, depth, g, WithDefaults(g, given).value, e);
    assert MayFill(env, depth, g, given, r);
  }

  lemma {:induction false} ShrinkFields(env: Env, depth: nat, g: seq<FieldSpec>, uf: map<string, Dyn>, e: End)
    returns (r: End)
    requires MayFields(env, depth + 1, g, uf, e)
    ensures (r == e || r == Out) && MayFields(env, depth, g, uf, r)
    decreases depth, 1
  {
    hide May;
    r := e;
    if e == Good {
      if f :| f in g && f.name in uf && !May(env, depth, f.ty, uf[f.name], Good) {
        r := Shrink(env, depth, f.ty, uf[f.name], Good);
      }
    } else {
      var f :| f in g && f.name in uf && May(env, depth + 1, f.ty, uf[f.name], e);
      r := Shrink(env, depth, f.ty, uf[f.name], e);
    }
  }

  lemma {:induction false} ShrinkList(env: Env, depth: nat, elem: Spec, vs: seq<Dyn>, e: End) returns (r: End)
    requires MayList(env, depth + 1, elem, vs, e)
    ensures (r == e || r == Out) && MayList(env, depth, elem, vs, r)
    decreases depth, |vs| + 1
  {
    hide May;
    if e == Good {
      r := ShrinkGood(env, depth, elem, vs, vs);
    } else {
      var i :| 0 <= i < |vs| && May(env, depth + 1, elem, vs[i], e) && MayList(env, depth + 1, elem, vs[..i], Good);
      r := ShrinkGood(env, depth, elem, vs[..i], vs);
      if r == Good { r := Shrink(env, depth, elem, vs[i], e); }
    }
  }

  /** Items that may all succeed still may, or the whole list may exhaust the depth at one of them. */
  lemma {:induction false} ShrinkGood(env: Env, depth: nat, elem: Spec, pre: seq<Dyn>, vs: seq<Dyn>) returns (r: End)
    requires pre <= vs && MayList(env, depth + 1, elem, pre, Good)
    ensures r == Good || r == Out
    ensures MayList(env, depth, elem, if r == Good then pre else vs, r)
    decreases depth, |pre|
  {
    hide May;
    r := Good;
    if pre != [] {
      var n := |pre| - 1;
      r := ShrinkGood(env, depth, elem, pre[..n], vs);
      if r == Good {
        r := Shrink(env, depth, elem, pre[n], Good);
        assert vs[..n] == pre[..n] && vs[n] == pre[n];
      }
    }
  }

  lemma {:induction false} ShrinkEntries(env: Env, depth: nat, ks: Spec, vs: Spec, m: map<Key, Dyn>, e: End)
    returns (r: End)
    requires MayEntries(env, depth + 1, ks, vs, m, e)
    ensures (r == e || r == Out) && MayEntries(env, depth, ks, vs, m, r)
    decreases depth, 2
  {
    hide MayEntries, MayEntry;
    r := e;
    if e == Good && MayEntries(env, depth, ks, vs, m, Good) { return; }
    var k := ChosenEntry(env, depth, ks, vs, m, e);
    r := ShrinkEntry(env, depth, ks, vs, k, m[k], e);
    EntryDecides(env, depth, ks, vs, m, k, r);
  }

  /** An entry that ends like the whole; if all may succeed, but not with less depth, one that may not. */
  lemma ChosenEntry(env: Env, depth: nat, ks: Spec, vs: Spec, m: map<Key, Dyn>, e: End) returns (k: Key)
    requires MayEntries(env, depth + 1, ks, vs, m, e)
    requires e == Good ==> !MayEntries(env, depth, ks, vs, m, Good)
    ensures k in m && !m[k].Nil? && MayEntry(env, depth + 1, ks, vs, k, m[k], e)
    ensures e == Good ==> !MayEntry(env, depth, ks, vs, k, m[k], Good)
  {
    hide MayEntry;
    if e == Good {
      k :| k in m && !m[k].Nil? && !MayEntry(env, depth, ks, vs, k, m[k], Good);
    } else {
      k :| k in m && !m[k].Nil? && MayEntry(env, depth + 1, ks, vs, k, m[k], e);
    }
  }

  lemma EntryDecides(env: Env, depth: nat, ks: Spec, vs: Spec, m: map<Key, Dyn>, k: Key, e: End)
    requires k in m && !m[k].Nil? && e != Good && MayEntry(env, depth, ks, vs, k, m[k], e)
    ensures MayEntries(env, depth, ks, vs, m, e)
  {
    hide MayEntry;
  }

  lemma {:induction false} ShrinkEntry(env: Env, depth: nat, ks: Spec, vs: Spec, k: Key, v: Dyn, e: End)
    returns (r: End)
    requires MayEntry(env, depth + 1, ks, vs, k, v, e)
    ensures (r == e || r == Out) && MayEntry(env, depth, ks, vs, k, v, r)
    decreases depth, 1
  {
    hide May, MayEntry, ConvertMapKey;
    var early := EntryParts(env, depth + 1, ks, vs, k, v, e);
    r := Shrink(env, depth, ks, ConvertMapKey(env.lib, ks, k), if early then e else Good);
    if early || r == Out {
      KeyDecides(env, depth, ks, vs, k, v, r);
    } else {
      r := Shrink(env, depth, vs, v, e);
      ValueDecides(env, depth, ks, vs, k, v, r);
    }
  }

  lemma EntryParts(env: Env, depth: nat, ks: Spec, vs: Spec, k: Key, v: Dyn, e: End) returns (early: bool)
    requires MayEntry(env, depth, ks, vs, k, v, e)
    ensures early ==> e != Good
    ensures May(env, depth, ks, ConvertMapKey(env.lib, ks, k), if early then e else Good)
    ensures !early ==> May(env, depth, vs, v, e)
  {
    hide May, ConvertMapKey;
    early := e != Good && May(env, depth, ks, ConvertMapKey(env.lib, ks, k), e);
  }

  lemma KeyDecides(env: Env, depth: nat, ks: Spec, vs: Spec, k: Key, v: Dyn, e: End)
    requires e != Good && May(env, depth, ks, ConvertMapKey(env.lib, ks, k), e)
    ensures MayEntry(env, depth, ks, vs, k, v, e)
  {
    hide May, ConvertMapKey;
  }

  lemma ValueDecides(env: Env, depth: nat, ks: Spec, vs: Spec, k: Key, v: Dyn, e: End)
    requires May(env, depth, ks, ConvertMapKey(env.lib, ks, k), Good) && May(env, depth, vs, v, e)
    ensures MayEntry(env, depth, ks, vs, k, v, e)
  {
    hide May, ConvertMapKey;
  }

  lemma {:induction false} ShrinkTo(env: Env, small: nat, large: nat, spec: Spec, v: Dyn, e: End) returns (r: End)
    requires small <= large && May(env, large, spec, v, e)
    ensures (r == e || r == Out) && May(env, small, spec, v, r)
    decreases large - small
  {
    hide May;
    r := e;
    if small < large {
      r := Shrink(env, large - 1, spec, v, e);
      r := ShrinkTo(env, small, large - 1, spec, v, r);
    }
  }

  /** From depth n on, no run exhausts the depth. */
  ghost predicate NeverOut(env: Env, spec: Spec, v: Dyn, n: nat) {
    forall d: nat | d >= n :: !May(env, d, spec, v, Out)
  }

  /** One depth that no run exhausts is enough: then no run exhausts a greater one. */
  lemma NotOutStays(env: Env, spec: Spec, v: Dyn, n: nat)
    requires !May(env, n, spec, v, Out)
    ensures NeverOut(env, spec, v, n)
  {
    hide May;
    forall d: nat | d >= n ensures !May(env, d, spec, v, Out) {
      if May(env, d, spec, v, Out) { var r := ShrinkTo(env, n, d, spec, v, Out); }
    }
  }

  // ---- More depth

  /** A run that ended with a value or an error may end so with more depth, too. */
  lemma {:induction false} Grow(env: Env, depth: nat, spec: Spec, v: Dyn, e: End)
    requires e != Out && May(env, depth, spec, v, e)
    ensures May(env, depth + 1, spec, v, e)
    decreases depth, 0
  {
    hide May, MayStruct, MayList, MayEntries, AsStrings, AsEntries, EncodeScalar;
    if depth == 0 {
      MayNothing(env, spec, v, e);
    } else if spec.Root().StructSpec? {
      MayOfStruct(env, depth, spec, v, e);
      if AsStrings(v).Some? {
        GrowStruct(env, depth - 1, env.Def(spec.Root().structName), AsStrings(v).value, e);
      }
      MayOfStruct(env, depth + 1, spec, v, e);
    } else if spec.Root().ListSpec? || spec.Root().SetSpec? {
      MayOfList(env, depth, spec, v, e);
      if v.List? { GrowList(env, depth - 1, spec.Root().elem, v.items, e); }
      MayOfList(env, depth + 1, spec, v, e);
    } else if spec.Root().MapSpec? {
      MayOfMap(env, depth, spec, v, e);
      if AsEntries(v).Some? {
        GrowEntries(env, depth - 1, spec.Root().key, spec.Root().value, AsEntries(v).value, e);
      }
      MayOfMap(env, depth + 1, spec, v, e);
    } else {
      MayOfScalar(env, depth, spec, v, e);
      MayOfScalar(env, depth + 1, spec, v, e);
    }
  }

  lemma {:induction false} GrowStruct(env: Env, depth: nat, def: StructDef, request: map<string, Dyn>, e: End)
    requires e != Out && MayStruct(env, depth, def, request, e)
    ensures MayStruct(env, depth + 1, def, request, e)
    decreases depth, 4
  {
    hide May, MayGroup, Accepted, WrongUnion;
    if Accepted(def.fields, request) {
      var inner := if MayGroup(env, depth, def.fields, request, e) then e else Good;
      GrowGroup(env, depth, def.fields, request, inner);
    }
  }

  lemma {:induction false} GrowGroup(env: Env, depth: nat, g: seq<FieldSpec>, request: map<string, Dyn>, e: End)
    requires e != Out && MayGroup(env, depth, g, request, e)
    ensures MayGroup(env, depth + 1, g, request, e)
    decreases depth, 3
  {
    hide MayFields, Collected, WithDefaults;
    var given :| Collected(g, request, given) && MayFill(env, depth, g, given, e);
    GrowFields(env, depth, g, WithDefaults(g, given).value, e);
    assert MayFill(env, depth + 1, g, given, e);
  }

  lemma {:induction false} GrowFields(env: Env, depth: nat, g: seq<FieldSpec>, uf: map<string, Dyn>, e: End)
    requires e != Out && MayFields(env, depth, g, uf, e)
    ensures MayFields(env, depth + 1, g, uf, e)
    decreases depth, 2
  {
    hide May;
    forall f | f in g && f.name in uf && May(env, depth, f.ty, uf[f.name], e)
      ensures May(env, depth + 1, f.ty, uf[f.name], e)
    {
      Grow(env, depth, f.ty, uf[f.name], e);
    }
  }

  lemma {:induction false} GrowList(env: Env, depth: nat, elem: Spec, vs: seq<Dyn>, e: End)
    requires e != Out && MayList(env, depth, elem, vs, e)
    ensures MayList(env, depth + 1, elem, vs, e)
    decreases depth, |vs| + 2
  {
    hide May;
    if e == Good {
      forall i | 0 <= i < |vs| ensures May(env, depth + 1, elem, vs[i], Good) { Grow(env, depth, elem, vs[i], Good); }
    } else {
      var i :| 0 <= i < |vs| && May(env, depth, elem, vs[i], e) && MayList(env, depth, elem, vs[..i], Good);
      GrowList(env, depth, elem, vs[..i], Good);
      Grow(env, depth, elem, vs[i], e);
    }
  }

  lemma {:induction false} GrowEntries(env: Env, depth: nat, ks: Spec, vs: Spec, m: map<Key, Dyn>, e: End)
    requires e != Out && MayEntries(env, depth, ks, vs, m, e)
    ensures MayEntries(env, depth + 1, ks, vs, m, e)
    decreases depth, 3
  {
    hide MayEntry;
    forall k | k in m && !m[k].Nil? && MayEntry(env, depth, ks, vs, k, m[k], e)
      ensures MayEntry(env, depth + 1, ks, vs, k, m[k], e)
    {
      GrowEntry(env, depth, ks, vs, k, m[k], e);
    }
  }

  lemma {:induction false} GrowEntry(env: Env, depth: nat, ks: Spec, vs: Spec, k: Key, v: Dyn, e: End)
    requires e != Out && MayEntry(env, depth, ks, vs, k, v, e)
    ensures MayEntry(env, depth + 1, ks, vs, k, v, e)
    decreases depth, 2
  {
    hide May, MayEntry, ConvertMapKey;
    var early := EntryParts(env, depth, ks, vs, k, v, e);
    Grow(env, depth, ks, ConvertMapKey(env.lib, ks, k), if early then e else Good);
    if early {
      KeyDecides(env, depth + 1, ks, vs, k, v, e);
    } else {
      Grow(env, depth, vs, v, e);
      ValueDecides(env, depth + 1, ks, vs, k, v, e);
    }
  }

  lemma {:induction false} GrowTo(env: Env, small: nat, large: nat, spec: Spec, v: Dyn, e: End)
    requires small <= large && e != Out && May(env, small, spec, v, e)
    ensures May(env, large, spec, v, e)
    decreases large - small
  {
    hide May;
    if small < large {
      Grow(env, small, spec, v, e);
      GrowTo(env, small + 1, large, spec, v, e);
    }
  }

  /** Given depth enough, some run succeeds. */
  ghost predicate CanSucceed(env: Env, spec: Spec, v: Dyn) {
    exists d: nat :: May(env, d, spec, v, Good)
  }

  /** At any depth, then, some run succeeds or exhausts it. */
  lemma SucceedsOrOut(env: Env, depth: nat, spec: Spec, v: Dyn) returns (r: End)
    requires CanSucceed(env, spec, v)
    ensures (r == Good || r == Out) && May(env, depth, spec, v, r)
  {
    hide May;
    var d: nat :| May(env, d, spec, v, Good);
    if d <= depth {
      GrowTo(env, d, depth, spec, v, Good);
      r := Good;
    } else {
      r := ShrinkTo(env, depth, d, spec, v, Good);
    }
  }

  /** Every item before this one can succeed. */
  ghost predicate Visited(env: Env, elem: Spec, vs: seq<Dyn>, i: nat)
    requires i <= |vs|
  {
    forall j | 0 <= j < i :: CanSucceed(env, elem, vs[j])
  }

  lemma SuccessMeansVisited(env: Env, depth: nat, elem: Spec, vs: seq<Dyn>, i: nat)
    requires i <= |vs| && MayList(env, depth, elem, vs[..i], Good)
    ensures Visited(env, elem, vs, i)
  {
    hide May;
    forall j | 0 <= j < i ensures CanSucceed(env, elem, vs[j]) { assert vs[..i][j] == vs[j]; }
  }

  /** Up to an item that is visited the list gets, or exhausts the depth before. */
  lemma {:induction false} GetsTo(env: Env, depth: nat, elem: Spec, vs: seq<Dyn>, i: nat) returns (r: End)
    requires i <= |vs| && Visited(env, elem, vs, i)
    ensures r == Good || r == Out
    ensures MayList(env, depth, elem, if r == Good then vs[..i] else vs, r)
  {
    hide May, CanSucceed, MayList;
    if i == 0 {
      r := Good;
      NoItems(env, depth, elem);
    } else {
      r := GetsTo(env, depth, elem, vs, i - 1);
      if r == Good {
        r := SucceedsOrOut(env, depth, elem, vs[i - 1]);
        if r == Good {
          ItemSucceeds(env, depth, elem, vs[..i - 1], vs[i - 1]);
          assert vs[..i - 1] + [vs[i - 1]] == vs[..i];
        } else {
          ItemDecides(env, depth, elem, vs, i - 1, Out);
        }
      }
    }
  }
}

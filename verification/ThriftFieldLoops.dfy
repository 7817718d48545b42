/** What the two loops of fieldGroupToValue leave behind, whichever keys they have visited so far: the
    first collects the value of each field and the keys that name none, the second fills in defaults
    and records the required fields that are missing. When all keys are visited, what is left is what
    the specification says, in every order of visits. */
module ThriftFieldLoops {
  import opened Option
  import opened Values
  import opened ThriftSpec
  import opened ThriftFields
  import opened ThriftEncode
  import opened ThriftStructs

  /** Submaps: what has been seen of m when the keys in left remain. */
  function Seen<K, V>(m: map<K, V>, left: set<K>): map<K, V> { map k | k in m && k !in left :: m[k] }

  lemma SeenStep<K, V>(m: map<K, V>, left: set<K>, k: K)
    requires k in left && left <= m.Keys
    ensures Seen(m, left - {k}) - {k} == Seen(m, left)
    ensures k in Seen(m, left - {k}) && Seen(m, left - {k})[k] == m[k]
    ensures Seen(m, left - {k}) == Seen(m, left)[k := m[k]]
  {
  }

  lemma SeenAll<K, V>(m: map<K, V>)
    ensures Seen(m, {}) == m && Seen(m, m.Keys) == map[]
  {
  }

  lemma CollectedNone(g: seq<FieldSpec>)
    ensures Collected(g, map[], map[]) && Unknown(g, map[]) == {}
  {
    hide GetField;
  }

  lemma GiversStep(g: seq<FieldSpec>, seen: map<string, Dyn>, k: string, v: Dyn, n: string)
    requires k !in seen
    ensures Givers(g, seen[k := v], n) ==
            Givers(g, seen, n) + if !v.Nil? && GetField(g, k).Some? && GetField(g, k).value.name == n then {k} else {}
  {
    hide GetField;
  }

  lemma UnknownStep(g: seq<FieldSpec>, seen: map<string, Dyn>, k: string, v: Dyn)
    requires k !in seen
    ensures Unknown(g, seen[k := v]) == Unknown(g, seen) + if GetField(g, k).None? then {k} else {}
  {
    hide GetField;
  }

  lemma GiversSeen(g: seq<FieldSpec>, seen: map<string, Dyn>)
    ensures forall n, j | j in Givers(g, seen, n) :: j in seen
  {
  }

  /** Visiting one more request key. */
  lemma Visit(g: seq<FieldSpec>, seen: map<string, Dyn>, k: string, v: Dyn, uf: map<string, Dyn>)
    requires k !in seen && Collected(g, seen, uf)
    ensures GetField(g, k).None? ==>
            Unknown(g, seen[k := v]) == Unknown(g, seen) + {k} && Collected(g, seen[k := v], uf)
    ensures GetField(g, k).Some? ==> Unknown(g, seen[k := v]) == Unknown(g, seen)
    ensures v.Nil? ==> Collected(g, seen[k := v], uf)
    ensures GetField(g, k).Some? && !v.Nil? ==> Collected(g, seen[k := v], uf[GetField(g, k).value.name := v])
  {
    hide GetField, Givers, Unknown;
    var seen' := seen[k := v];
    var gives := GetField(g, k).Some? && !v.Nil?;
    UnknownStep(g, seen, k, v);
    GiversSeen(g, seen);
    GiversSeen(g, seen');
    forall n
      ensures Givers(g, seen', n) == Givers(g, seen, n) + if gives && GetField(g, k).value.name == n then {k} else {}
    {
      GiversStep(g, seen, k, v, n);
    }
    var uf' := if gives then uf[GetField(g, k).value.name := v] else uf;
    forall n | n in uf' ensures exists j :: j in Givers(g, seen', n) && seen'[j] == uf'[n] {
      if gives && GetField(g, k).value.name == n {
        assert k in Givers(g, seen', n);
      } else {
        var j :| j in Givers(g, seen, n) && seen[j] == uf[n];
        assert j in Givers(g, seen', n);
      }
    }
  }

  /** What the loop over the declared fields has done once it has visited the names in done. */
  ghost predicate DefaultsFilled(g: seq<FieldSpec>, given: map<string, Dyn>, done: set<string>, uf: map<string, Dyn>,
                                 missing: set<string>)
    requires done <= Names(g)
  {
    && (forall n :: n in uf <==> n in given || (n in done && FieldOf(g, n).default.Some?))
    && (forall n | n in given :: n in uf && uf[n] == given[n])
    && (forall n | n in done && n !in given && FieldOf(g, n).default.Some? ::
          n in uf && RequestOf(FieldOf(g, n).default.value) == Some(uf[n]))
    && missing == set n | n in done && n !in given && FieldOf(g, n).default.None? && FieldOf(g, n).required
  }

  lemma {:induction false} WithDefaultsLookup(g: seq<FieldSpec>, m: map<string, Dyn>)
    requires DistinctFields(g)
    ensures WithDefaults(g, m).None? ==>
            exists f :: f in g && f.name !in m && f.default.Some? && RequestOf(f.default.value).None?
    ensures WithDefaults(g, m).Some? ==>
              var r := WithDefaults(g, m).value;
              && (forall n | n in m :: n in r && r[n] == m[n])
              && (forall n | n in r && n !in m :: exists f :: f in g && f.name == n && f.default.Some?)
              && (forall f | f in g && f.name !in m && f.default.Some? ::
                    f.name in r && RequestOf(f.default.value) == Some(r[f.name]))
  {
    if g != [] {
      var pre, last := g[..|g| - 1], g[|g| - 1];
      WithDefaultsLookup(pre, m);
      assert forall f :: f in g <==> f in pre || f == last;
      assert forall f | f in pre :: f.name != last.name;
    }
  }

  lemma MemberIsFieldOf(g: seq<FieldSpec>, f: FieldSpec)
    requires DistinctFields(g) && f in g
    ensures f.name in Names(g) && FieldOf(g, f.name) == f
  {
    var i :| 0 <= i < |g| && g[i] == f;
    assert g[i].name in Names(g);
    NameInjective(g, f, FieldOf(g, f.name));
  }

  lemma MissingIs(g: seq<FieldSpec>, given: map<string, Dyn>, uf: map<string, Dyn>, missing: set<string>)
    requires DistinctFields(g) && DefaultsFilled(g, given, Names(g), uf, missing)
    ensures missing == Missing(g, given)
  {
    forall n ensures n in missing <==> n in Missing(g, given) {
      if n in missing {
        var f := FieldOf(g, n);
        var i :| 0 <= i < |g| && g[i] == f;
      }
      if n in Missing(g, given) {
        var i :| 0 <= i < |g| && g[i].required && g[i].default.None? && g[i].name !in given && g[i].name == n;
        MemberIsFieldOf(g, g[i]);
      }
    }
  }

  lemma WithDefaultsIs(g: seq<FieldSpec>, given: map<string, Dyn>, uf: map<string, Dyn>, missing: set<string>)
    requires DistinctFields(g) && DefaultsFilled(g, given, Names(g), uf, missing)
    ensures WithDefaults(g, given) == Some(uf) && missing == Missing(g, given)
  {
    hide WithDefaults, RequestOf, Names, Missing;
    MissingIs(g, given, uf, missing);
    WithDefaultsLookup(g, given);
    if WithDefaults(g, given).None? {
      var f :| f in g && f.name !in given && f.default.Some? && RequestOf(f.default.value).None?;
      MemberIsFieldOf(g, f);
    } else {
      var r := WithDefaults(g, given).value;
      forall n ensures n in r <==> n in uf {
        if n in uf && n !in given { assert FieldOf(g, n) in g; }
        if n in r && n !in given {
          var f :| f in g && f.name == n && f.default.Some?;
          MemberIsFieldOf(g, f);
        }
      }
      forall n | n in uf ensures r[n] == uf[n] {
        if n !in given { assert FieldOf(g, n) in g; }
      }
      assert r == uf;
    }
  }

  lemma ExactIsFieldOf(ix: FieldIndex, g: seq<FieldSpec>, k: string)
    requires DistinctFields(g) && Indexes(ix, g) && k in Names(g)
    ensures k in ix.exact && ix.exact[k] == FieldOf(g, k)
  {
    assert Agrees(ix.exact, k, ByName(g, k));
    ByNameFinds(g, k);
    NameInjective(g, ix.exact[k], FieldOf(g, k));
  }

  lemma NothingFilled(g: seq<FieldSpec>, given: map<string, Dyn>)
    ensures DefaultsFilled(g, given, {}, given, {})
  {
  }

  lemma FilledMore(g: seq<FieldSpec>, given: map<string, Dyn>, done: set<string>, uf: map<string, Dyn>,
                   missing: set<string>, k: string)
    requires done <= Names(g) && k in Names(g) && k !in done && DefaultsFilled(g, given, done, uf, missing)
    ensures k in uf <==> k in given
    ensures k in uf ==> DefaultsFilled(g, given, done + {k}, uf, missing)
    ensures k !in uf && FieldOf(g, k).default.Some? ==>
              forall v :: RequestOf(FieldOf(g, k).default.value) == Some(v) ==>
                  DefaultsFilled(g, given, done + {k}, uf[k := v], missing)
    ensures k !in uf && FieldOf(g, k).default.None? ==>
              DefaultsFilled(g, given, done + {k}, uf, if FieldOf(g, k).required then missing + {k} else missing)
  {
    hide RequestOf, Names;
  }

  lemma DefaultPanics(g: seq<FieldSpec>, given: map<string, Dyn>, f: FieldSpec)
    requires DistinctFields(g) && f in g && f.name !in given && f.default.Some? && RequestOf(f.default.value).None?
    ensures WithDefaults(g, given).None?
  {
    WithDefaultsLookup(g, given);
  }

  /** Which fields are set does not depend on the order of visits. */
  lemma SameDomain(g: seq<FieldSpec>, request: map<string, Dyn>, uf: map<string, Dyn>)
    requires Collected(g, request, uf)
    ensures uf.Keys == Given(g, request).Keys
  {
    GivenIsCollected(g, request);
    SameKeys(g, request, uf, Given(g, request));
  }

  lemma WithDefaultsKeys(g: seq<FieldSpec>, a: map<string, Dyn>, b: map<string, Dyn>)
    requires DistinctFields(g) && a.Keys == b.Keys
    ensures WithDefaults(g, a).Some? <==> WithDefaults(g, b).Some?
    ensures WithDefaults(g, a).Some? ==> WithDefaults(g, a).value.Keys == WithDefaults(g, b).value.Keys
  {
    hide WithDefaults, RequestOf;
    assert forall n :: n in a <==> n in b;
    WithDefaultsLookup(g, a);
    WithDefaultsLookup(g, b);
    if WithDefaults(g, a).Some? && WithDefaults(g, b).Some? {
      var r, s := WithDefaults(g, a).value, WithDefaults(g, b).value;
      assert forall n :: n in r <==> n in s;
    }
  }

  lemma GroupPanics(env: Env, depth: nat, g: seq<FieldSpec>, request: map<string, Dyn>, uf: map<string, Dyn>)
    requires Collected(g, request, uf) && DistinctFields(g) && WithDefaults(g, uf).None?
    ensures EncodeGroup(env, depth, g, request).Failed?
  {
    hide Encode, EncodeFields, Unknown, Missing, Given, Collected, WithDefaults;
    GivenIsCollected(g, request);
    forall given | Collected(g, request, given) ensures WithDefaults(g, given).None? {
      SameKeys(g, request, uf, given);
      WithDefaultsKeys(g, uf, given);
    }
  }

  lemma GroupRejects(env: Env, depth: nat, g: seq<FieldSpec>, request: map<string, Dyn>, uf: map<string, Dyn>,
                     missing: set<string>)
    requires Collected(g, request, uf) && missing == Missing(g, uf)
    requires Unknown(g, request) != {} || missing != {}
    ensures EncodeGroup(env, depth, g, request).Failed?
  {
    SameDomain(g, request, uf);
    assert Missing(g, uf) == Missing(g, Given(g, request));
    hide Encode, Unknown, Missing, Clash, Given, Collected, WithDefaults;
  }

  /** The outcome for the group leaves open what one collected map gives, or is that. */
  ghost predicate GroupOutcome<T>(o: Outcome<T>, one: Outcome<T>) {
    o == one || o.Ambiguous? || (o.NoValue? && one.Barred())
  }

  lemma GroupFields(env: Env, depth: nat, g: seq<FieldSpec>, request: map<string, Dyn>, given: map<string, Dyn>,
                    uf: map<string, Dyn>)
    requires DistinctFields(g) && Collected(g, request, given) && WithDefaults(g, given) == Some(uf)
    requires Unknown(g, request) == {} && Missing(g, given) == {}
    ensures GroupOutcome(EncodeGroup(env, depth, g, request), EncodeFields(env, depth, g, uf))
    ensures uf.Keys <= Names(g)
    ensures forall i | 0 <= i < |g| :: g[i].required || g[i].default.Some? ==> g[i].name in uf
  {
    SameDomain(g, request, given);
    assert Missing(g, given) == Missing(g, Given(g, request));
    GroupKeys(g, request, given, uf);
    hide Encode, EncodeFields, Unknown, Missing, Given, Collected, WithDefaults;
    assert EncodeFilled(env, depth, g, given) == EncodeFields(env, depth, g, uf);
  }

  lemma GroupKeys(g: seq<FieldSpec>, request: map<string, Dyn>, given: map<string, Dyn>, uf: map<string, Dyn>)
    requires DistinctFields(g) && Collected(g, request, given) && WithDefaults(g, given) == Some(uf)
    requires Missing(g, given) == {}
    ensures uf.Keys <= Names(g)
    ensures forall i | 0 <= i < |g| :: g[i].required || g[i].default.Some? ==> g[i].name in uf
  {
    WithDefaultsLookup(g, given);
    forall n | n in uf ensures n in Names(g) {
      if n in given { GiversAreNamed(g, request, n); }
    }
    forall i | 0 <= i < |g| && g[i].required && g[i].default.None? ensures g[i].name in uf {
      assert g[i].name !in Missing(g, given);
    }
  }
}

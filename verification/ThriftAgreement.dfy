/** When all runs of thrift/to_wire.go give the same. */
module ThriftAgreement {
  // A run that does not return a value counts as None here, however it ends. Encode is then shown to sum
  // up the set of all results exactly: it is Ambiguous if and only if two runs differ.

  import opened Option
  import opened Values
  import opened ThriftSpec
  import opened ThriftFields
  import opened ThriftScalars
  import opened ThriftEncode
  import opened ThriftFieldLoops
  import opened ThriftRuns
  import opened ThriftResults
  import opened ThriftSums

  // ---- The results

  ghost function FateOf(env: Env, depth: nat, spec: Spec, v: Dyn): Fate {
    Fate(May(env, depth, spec, v, Good), May(env, depth, spec, v, Bad), May(env, depth, spec, v, Out))
  }

  ghost function ResultsOf(env: Env, depth: nat, spec: Spec, v: Dyn): Results<Meaning> {
    iset r: Option<Meaning> |
      if r.None? then FateOf(env, depth, spec, v).Fails() else Gives(env, depth, spec, v, r.value)
  }

  /** The outcome sums up the results. */
  ghost predicate Exact(env: Env, depth: nat, spec: Spec, v: Dyn) {
    Tells(Encode(env, depth, spec, v), FateOf(env, depth, spec, v), ResultsOf(env, depth, spec, v))
  }

  lemma ResultsAre(env: Env, depth: nat, spec: Spec, v: Dyn)
    ensures None in ResultsOf(env, depth, spec, v) <==> FateOf(env, depth, spec, v).Fails()
    ensures forall m :: Some(m) in ResultsOf(env, depth, spec, v) <==> Gives(env, depth, spec, v, m)
  {
    hide FateOf, Gives;
  }

  lemma FateAt(env: Env, depth: nat, spec: Spec, v: Dyn, f: Fate, e: End)
    requires f == FateOf(env, depth, spec, v)
    ensures f.May(e) <==> May(env, depth, spec, v, e)
  {
    hide May;
  }

  lemma ResultGives(env: Env, depth: nat, spec: Spec, v: Dyn, m: Meaning)
    requires Some(m) in ResultsOf(env, depth, spec, v)
    ensures Gives(env, depth, spec, v, m)
  {
    hide FateOf, Gives;
  }

  lemma IsResult(env: Env, depth: nat, spec: Spec, v: Dyn, m: Meaning)
    requires Gives(env, depth, spec, v, m)
    ensures Some(m) in ResultsOf(env, depth, spec, v)
  {
    hide FateOf, Gives;
  }

  // ---- Lists

  ghost function ListFate(env: Env, depth: nat, elem: Spec, vs: seq<Dyn>): Fate {
    Fate(MayList(env, depth, elem, vs, Good), MayList(env, depth, elem, vs, Bad), MayList(env, depth, elem, vs, Out))
  }

  ghost function ListResults(env: Env, depth: nat, elem: Spec, vs: seq<Dyn>): Results<seq<Meaning>> {
    iset r: Option<seq<Meaning>> |
      if r.None? then ListFate(env, depth, elem, vs).Fails() else GivesList(env, depth, elem, vs, r.value)
  }

  ghost predicate ExactList(env: Env, depth: nat, elem: Spec, vs: seq<Dyn>) {
    Tells(EncodeList(env, depth, elem, vs), ListFate(env, depth, elem, vs), ListResults(env, depth, elem, vs))
  }

  lemma ListResultsAre(env: Env, depth: nat, elem: Spec, vs: seq<Dyn>)
    ensures None in ListResults(env, depth, elem, vs) <==> ListFate(env, depth, elem, vs).Fails()
    ensures forall ms :: Some(ms) in ListResults(env, depth, elem, vs) <==> GivesList(env, depth, elem, vs, ms)
  {
    hide ListFate, GivesList;
  }

  lemma ListFateStep(env: Env, depth: nat, elem: Spec, vs: seq<Dyn>, v: Dyn)
    ensures ListFate(env, depth, elem, vs + [v]) == Chain(ListFate(env, depth, elem, vs), FateOf(env, depth, elem, v))
  {
    hide May, MayList;
    MayListGood(env, depth, elem, vs, v);
    MayListStep(env, depth, elem, vs, v, Bad);
    MayListStep(env, depth, elem, vs, v, Out);
  }

  lemma MayListStep(env: Env, depth: nat, elem: Spec, vs: seq<Dyn>, v: Dyn, e: End)
    requires e != Good
    ensures MayList(env, depth, elem, vs + [v], e) <==>
            MayList(env, depth, elem, vs, e) || (MayList(env, depth, elem, vs, Good) && May(env, depth, elem, v, e))
  {
    hide May, MayList;
    var all := vs + [v];
    assert all[..|vs|] == vs && all[|vs|] == v;
    if MayList(env, depth, elem, all, e) {
      var i := ListEndsAt(env, depth, elem, all, e);
      if i < |vs| {
        assert all[..i] == vs[..i];
        ItemDecides(env, depth, elem, vs, i, e);
      }
    }
    if MayList(env, depth, elem, vs, e) {
      var i := ListEndsAt(env, depth, elem, vs, e);
      assert all[..i] == vs[..i];
      ItemDecides(env, depth, elem, all, i, e);
    }
    if MayList(env, depth, elem, vs, Good) && May(env, depth, elem, v, e) {
      ItemDecides(env, depth, elem, all, |vs|, e);
    }
  }

  lemma MayListGood(env: Env, depth: nat, elem: Spec, vs: seq<Dyn>, v: Dyn)
    ensures MayList(env, depth, elem, vs + [v], Good) <==>
            MayList(env, depth, elem, vs, Good) && May(env, depth, elem, v, Good)
  {
    hide May;
    var all := vs + [v];
    assert all[|vs|] == v && forall i | 0 <= i < |vs| :: all[i] == vs[i];
  }

  function Snoc(ms: seq<Meaning>, m: Meaning): seq<Meaning> { ms + [m] }

  lemma SnocParts(x: seq<Meaning>, y: Meaning)
    ensures Snoc(x, y) != [] && Snoc(x, y)[..|Snoc(x, y)| - 1] == x && Snoc(x, y)[|Snoc(x, y)| - 1] == y
  {
  }

  lemma SnocInjective(p: Results<seq<Meaning>>, q: Results<Meaning>)
    ensures Injective(p, q, Snoc)
  {
    hide Snoc;
    forall x, y, x', y' | Snoc(x, y) == Snoc(x', y') ensures x == x' && y == y' {
      SnocParts(x, y);
      SnocParts(x', y');
    }
  }

  lemma ListCombines(env: Env, depth: nat, elem: Spec, vs: seq<Dyn>, v: Dyn)
    ensures Combines(ListResults(env, depth, elem, vs), ResultsOf(env, depth, elem, v),
                     ListResults(env, depth, elem, vs + [v]), Snoc)
  {
    hide Gives, GivesList, FateOf, ListFate, ResultsOf, ListResults, Combines, Snoc;
    ListResultsAre(env, depth, elem, vs);
    ListResultsAre(env, depth, elem, vs + [v]);
    ResultsAre(env, depth, elem, v);
    var p, q := ListResults(env, depth, elem, vs), ResultsOf(env, depth, elem, v);
    var r := ListResults(env, depth, elem, vs + [v]);
    forall x, y | Some(x) in p && Some(y) in q ensures Some(Snoc(x, y)) in r {
      SnocParts(x, y);
      GivesListStep(env, depth, elem, vs, v, Snoc(x, y));
    }
    forall z | Some(z) in r ensures exists x, y :: Some(x) in p && Some(y) in q && z == Snoc(x, y) {
      var x, y := SnocSplits(env, depth, elem, vs, v, z);
      assert Some(x) in p && Some(y) in q;
    }
    CombinesFrom(p, q, r, Snoc);
  }

  lemma SnocSplits(env: Env, depth: nat, elem: Spec, vs: seq<Dyn>, v: Dyn, z: seq<Meaning>)
    returns (x: seq<Meaning>, y: Meaning)
    requires GivesList(env, depth, elem, vs + [v], z)
    ensures GivesList(env, depth, elem, vs, x) && Gives(env, depth, elem, v, y) && z == Snoc(x, y)
  {
    hide Gives, GivesList;
    GivesListStep(env, depth, elem, vs, v, z);
    x, y := z[..|z| - 1], z[|z| - 1];
  }

  lemma AppendIsJoined(a: Outcome<seq<Meaning>>, b: Outcome<Meaning>)
    ensures Append(a, b) == Joined(a, b, Snoc)
  {
  }

  lemma ExactListStep(env: Env, depth: nat, elem: Spec, vs: seq<Dyn>, v: Dyn)
    requires ExactList(env, depth, elem, vs) && Exact(env, depth, elem, v)
    ensures ExactList(env, depth, elem, vs + [v])
  {
    hide Encode, EncodeList, FateOf, ListFate, ResultsOf, ListResults, Combines, Injective, Tells, Snoc, Append, Joined,
         GivesList;
    EncodeListStep(env, depth, elem, vs, v);
    ListFateStep(env, depth, elem, vs, v);
    ListResultsAre(env, depth, elem, vs + [v]);
    ListCombines(env, depth, elem, vs, v);
    var a, p := EncodeList(env, depth, elem, vs), ListResults(env, depth, elem, vs);
    var b, q := Encode(env, depth, elem, v), ResultsOf(env, depth, elem, v);
    AppendIsJoined(a, b);
    SnocInjective(p, q);
    TellsJoin(a, ListFate(env, depth, elem, vs), p, b, FateOf(env, depth, elem, v), q,
              ListFate(env, depth, elem, vs + [v]), ListResults(env, depth, elem, vs + [v]), Snoc);
  }

  lemma NoListFate(env: Env, depth: nat, elem: Spec)
    ensures ListFate(env, depth, elem, []) == Fate(true, false, false)
  {
    hide May;
  }

  lemma ExactNoItems(env: Env, depth: nat, elem: Spec)
    ensures ExactList(env, depth, elem, [])
  {
    hide ListFate, GivesList, ListResults;
    NoListFate(env, depth, elem);
    ListResultsAre(env, depth, elem, []);
    forall ms ensures GivesList(env, depth, elem, [], ms) <==> ms == [] { NoItemsGiven(env, depth, elem, ms); }
    SameResults(ListResults(env, depth, elem, []), iset{Some([])});
  }

  // ---- Maps

  ghost function EntryFate(env: Env, depth: nat, ks: Spec, vs: Spec, k: Key, v: Dyn): Fate {
    if v.Nil? then Fate(true, false, false)
    else
      Fate(MayEntry(env, depth, ks, vs, k, v, Good), MayEntry(env, depth, ks, vs, k, v, Bad),
           MayEntry(env, depth, ks, vs, k, v, Out))
  }

  ghost function EntryResults(env: Env, depth: nat, ks: Spec, vs: Spec, k: Key, v: Dyn): Results<Items> {
    iset r: Option<Items> |
      if r.None? then EntryFate(env, depth, ks, vs, k, v).Fails() else GivesEntry(env, depth, ks, vs, k, v, r.value)
  }

  ghost predicate ExactEntry(env: Env, depth: nat, ks: Spec, vs: Spec, k: Key, v: Dyn) {
    Tells(EncodeItem(env, depth, ks, vs, k, v), EntryFate(env, depth, ks, vs, k, v),
          EntryResults(env, depth, ks, vs, k, v))
  }

  lemma EntryResultsAre(env: Env, depth: nat, ks: Spec, vs: Spec, k: Key, v: Dyn)
    ensures None in EntryResults(env, depth, ks, vs, k, v) <==> EntryFate(env, depth, ks, vs, k, v).Fails()
    ensures forall z :: Some(z) in EntryResults(env, depth, ks, vs, k, v) <==> GivesEntry(env, depth, ks, vs, k, v, z)
  {
    hide EntryFate, GivesEntry;
  }

  lemma EntryEnd(env: Env, depth: nat, ks: Spec, vs: Spec, k: Key, v: Dyn, e: End, a: bool, b: bool, c: bool, r: bool)
    requires a == May(env, depth, ks, ConvertMapKey(env.lib, ks, k), e)
    requires b == May(env, depth, ks, ConvertMapKey(env.lib, ks, k), Good)
    requires c == May(env, depth, vs, v, e)
    requires r == MayEntry(env, depth, ks, vs, k, v, e)
    ensures r <==> (e != Good && a) || (b && c)
  {
    hide May, ConvertMapKey;
  }

  lemma EntryFateAt(env: Env, depth: nat, ks: Spec, vs: Spec, k: Key, v: Dyn, c: Fate, e: End)
    requires !v.Nil? && c == EntryFate(env, depth, ks, vs, k, v)
    ensures c.May(e) <==> MayEntry(env, depth, ks, vs, k, v, e)
  {
    hide MayEntry;
  }

  lemma EntryEndOf(env: Env, depth: nat, ks: Spec, vs: Spec, k: Key, v: Dyn, e: End, a: Fate, b: Fate, c: Fate)
    requires !v.Nil? && a == FateOf(env, depth, ks, ConvertMapKey(env.lib, ks, k)) && b == FateOf(env, depth, vs, v)
    requires c == EntryFate(env, depth, ks, vs, k, v)
    ensures c.May(e) <==> (e != Good && a.May(e)) || (a.good && b.May(e))
  {
    hide May, MayEntry, ConvertMapKey, FateOf, EntryFate;
    var key := ConvertMapKey(env.lib, ks, k);
    FateAt(env, depth, ks, key, a, e);
    FateAt(env, depth, ks, key, a, Good);
    FateAt(env, depth, vs, v, b, e);
    EntryFateAt(env, depth, ks, vs, k, v, c, e);
    EntryEnd(env, depth, ks, vs, k, v, e, a.May(e), a.good, b.May(e), c.May(e));
  }

  lemma EntryFateIs(env: Env, depth: nat, ks: Spec, vs: Spec, k: Key, v: Dyn, a: Fate, b: Fate, c: Fate)
    requires !v.Nil? && a == FateOf(env, depth, ks, ConvertMapKey(env.lib, ks, k)) && b == FateOf(env, depth, vs, v)
    requires c == EntryFate(env, depth, ks, vs, k, v)
    ensures c == Chain(a, b)
  {
    hide FateOf, EntryFate, ConvertMapKey;
    EntryEndOf(env, depth, ks, vs, k, v, Good, a, b, c);
    EntryEndOf(env, depth, ks, vs, k, v, Bad, a, b, c);
    EntryEndOf(env, depth, ks, vs, k, v, Out, a, b, c);
  }

  lemma PairInjective(p: Results<Meaning>, q: Results<Meaning>)
    ensures Injective(p, q, Pair)
  {
    hide Pair;
    forall a, b, a', b' | Pair(a, b) == Pair(a', b') ensures a == a' && b == b' { PairParts(a, b, a', b'); }
  }

  lemma PairParts(a: Meaning, b: Meaning, a': Meaning, b': Meaning)
    requires Pair(a, b) == Pair(a', b')
    ensures a == a' && b == b'
  {
    assert (a, b) in Pair(a', b');
  }

  lemma MergeInjective(p: Results<Items>, q: Results<Items>)
    ensures Injective(p, q, Merge)
  {
    hide Merge;
    forall x, y, x' | Merge(x, y) == Merge(x', y) ensures x == x' { MergeCancels(x, y, x', y); }
    forall x, y, y' | Merge(x, y) == Merge(x, y') ensures y == y' { MergeCancels(x, y, x, y'); }
  }

  lemma MergeCancels(x: Items, y: Items, x': Items, y': Items)
    requires Merge(x, y) == Merge(x', y')
    ensures y == y' ==> x == x'
    ensures x == x' ==> y == y'
  {
    assert x == Merge(x, y) - y && x' == Merge(x', y') - y';
    assert y == Merge(x, y) - x && y' == Merge(x', y') - x';
  }

  lemma ItemIsJoined(a: Outcome<Meaning>, b: Outcome<Meaning>)
    ensures Item(a, b) == Joined(a, b, Pair)
  {
  }

  lemma PlusIsJoined(a: Outcome<Items>, b: Outcome<Items>)
    ensures Plus(a, b) == Joined(a, b, Merge)
  {
  }

  lemma EntryCombines(env: Env, depth: nat, ks: Spec, vs: Spec, k: Key, v: Dyn, key: Dyn)
    requires !v.Nil? && key == ConvertMapKey(env.lib, ks, k)
    ensures Combines(ResultsOf(env, depth, ks, key), ResultsOf(env, depth, vs, v),
                     EntryResults(env, depth, ks, vs, k, v),
                     Pair)
  {
    hide ConvertMapKey, Pair, Combines, ResultsOf, EntryResults;
    var p, q, r := ResultsOf(env, depth, ks, key), ResultsOf(env, depth, vs, v), EntryResults(env, depth, ks, vs, k, v);
    forall x, y | Some(x) in p && Some(y) in q ensures Some(Pair(x, y)) in r {
      PairIn(env, depth, ks, vs, k, v, key, x, y);
    }
    forall z | Some(z) in r ensures exists x, y :: Some(x) in p && Some(y) in q && z == Pair(x, y) {
      var x, y := PairFrom(env, depth, ks, vs, k, v, key, z);
    }
    CombinesFrom(p, q, r, Pair);
  }

  lemma GivenEntry(env: Env, depth: nat, ks: Spec, vs: Spec, k: Key, v: Dyn, z: Items)
    requires Some(z) in EntryResults(env, depth, ks, vs, k, v)
    ensures GivesEntry(env, depth, ks, vs, k, v, z)
  {
    hide EntryFate, GivesEntry;
  }

  lemma IsEntryResult(env: Env, depth: nat, ks: Spec, vs: Spec, k: Key, v: Dyn, z: Items)
    requires GivesEntry(env, depth, ks, vs, k, v, z)
    ensures Some(z) in EntryResults(env, depth, ks, vs, k, v)
  {
    hide EntryFate, GivesEntry;
  }

  lemma PairIn(env: Env, depth: nat, ks: Spec, vs: Spec, k: Key, v: Dyn, key: Dyn, x: Meaning, y: Meaning)
    requires !v.Nil? && key == ConvertMapKey(env.lib, ks, k)
    requires Some(x) in ResultsOf(env, depth, ks, key) && Some(y) in ResultsOf(env, depth, vs, v)
    ensures Some(Pair(x, y)) in EntryResults(env, depth, ks, vs, k, v)
  {
    hide ResultsOf, EntryResults, Gives, GivesEntry, ConvertMapKey, Pair;
    ResultGives(env, depth, ks, key, x);
    ResultGives(env, depth, vs, v, y);
    PairGiven(env, depth, ks, vs, k, v, x, y);
    IsEntryResult(env, depth, ks, vs, k, v, Pair(x, y));
  }

  lemma PairFrom(env: Env, depth: nat, ks: Spec, vs: Spec, k: Key, v: Dyn, key: Dyn, z: Items)
    returns (x: Meaning, y: Meaning)
    requires !v.Nil? && key == ConvertMapKey(env.lib, ks, k) && Some(z) in EntryResults(env, depth, ks, vs, k, v)
    ensures Some(x) in ResultsOf(env, depth, ks, key) && Some(y) in ResultsOf(env, depth, vs, v) && z == Pair(x, y)
  {
    hide ResultsOf, EntryResults, Gives, GivesEntry, ConvertMapKey, Pair;
    GivenEntry(env, depth, ks, vs, k, v, z);
    x, y := PairOf(env, depth, ks, vs, k, v, z);
    IsResult(env, depth, ks, key, x);
    IsResult(env, depth, vs, v, y);
  }

  lemma PairOf(env: Env, depth: nat, ks: Spec, vs: Spec, k: Key, v: Dyn, z: Items) returns (a: Meaning, b: Meaning)
    requires !v.Nil? && GivesEntry(env, depth, ks, vs, k, v, z)
    ensures Gives(env, depth, ks, ConvertMapKey(env.lib, ks, k), a) && Gives(env, depth, vs, v, b) && z == Pair(a, b)
  {
    hide Gives, ConvertMapKey, Pair;
    a, b :| Gives(env, depth, ks, ConvertMapKey(env.lib, ks, k), a) && Gives(env, depth, vs, v, b) && z == Pair(a, b);
  }

  lemma ExactEntryOf(env: Env, depth: nat, ks: Spec, vs: Spec, k: Key, v: Dyn, key: Dyn)
    requires !v.Nil? && key == ConvertMapKey(env.lib, ks, k)
    requires Exact(env, depth, ks, key) && Exact(env, depth, vs, v)
    ensures ExactEntry(env, depth, ks, vs, k, v)
  {
    hide FateOf, EntryFate, GivesEntry, ConvertMapKey, ResultsOf, EntryResults, Encode, EncodeItem, Tells, Combines,
         Injective, Item, Joined, Pair;
    var f, h, c := FateOf(env, depth, ks, key), FateOf(env, depth, vs, v), EntryFate(env, depth, ks, vs, k, v);
    EntryFateIs(env, depth, ks, vs, k, v, f, h, c);
    EntryResultsAre(env, depth, ks, vs, k, v);
    EntryCombines(env, depth, ks, vs, k, v, key);
    ItemIs(env, depth, ks, vs, k, v);
    var a, p := Encode(env, depth, ks, key), ResultsOf(env, depth, ks, key);
    var b, q := Encode(env, depth, vs, v), ResultsOf(env, depth, vs, v);
    ItemIsJoined(a, b);
    PairInjective(p, q);
    TellsJoin(a, f, p, b, h, q, c, EntryResults(env, depth, ks, vs, k, v), Pair);
  }

  lemma ExactNil(env: Env, depth: nat, ks: Spec, vs: Spec, k: Key)
    ensures ExactEntry(env, depth, ks, vs, k, Nil)
  {
    hide GivesEntry, EntryResults, EncodeItem;
    ItemIs(env, depth, ks, vs, k, Nil);
    EntryResultsAre(env, depth, ks, vs, k, Nil);
    forall z ensures GivesEntry(env, depth, ks, vs, k, Nil, z) <==> z == multiset{} {
      NilGives(env, depth, ks, vs, k, z);
    }
    SameResults(EntryResults(env, depth, ks, vs, k, Nil), iset{Some(multiset{})});
  }

  ghost function EntriesFate(env: Env, depth: nat, ks: Spec, vs: Spec, m: map<Key, Dyn>): Fate {
    Fate(MayEntries(env, depth, ks, vs, m, Good), MayEntries(env, depth, ks, vs, m, Bad),
         MayEntries(env, depth, ks, vs, m, Out))
  }

  ghost function EntriesResults(env: Env, depth: nat, ks: Spec, vs: Spec, m: map<Key, Dyn>): Results<Items> {
    iset r: Option<Items> |
      if r.None? then EntriesFate(env, depth, ks, vs, m).Fails() else GivesEntries(env, depth, ks, vs, m, r.value)
  }

  ghost predicate ExactEntries(env: Env, depth: nat, ks: Spec, vs: Spec, m: map<Key, Dyn>) {
    Tells(EncodeEntries(env, depth, ks, vs, m), EntriesFate(env, depth, ks, vs, m),
          EntriesResults(env, depth, ks, vs, m))
  }

  lemma EntriesResultsAre(env: Env, depth: nat, ks: Spec, vs: Spec, m: map<Key, Dyn>)
    ensures None in EntriesResults(env, depth, ks, vs, m) <==> EntriesFate(env, depth, ks, vs, m).Fails()
    ensures forall es :: Some(es) in EntriesResults(env, depth, ks, vs, m) <==> GivesEntries(env, depth, ks, vs, m, es)
  {
    hide EntriesFate, GivesEntries;
  }

  lemma EntriesEnd(env: Env, depth: nat, ks: Spec, vs: Spec, m: map<Key, Dyn>, k: Key, rest: map<Key, Dyn>, e: End,
                   a: bool, b: bool, r: bool)
    requires k in m && rest == m - {k} && e != Good
    requires a == (!m[k].Nil? && MayEntry(env, depth, ks, vs, k, m[k], e))
    requires b == MayEntries(env, depth, ks, vs, rest, e) && r == MayEntries(env, depth, ks, vs, m, e)
    ensures r <==> a || b
  {
    hide MayEntry, MayEntries;
    if r {
      var j := EndingEntry(env, depth, ks, vs, m, e);
      if j != k { EntryDecides(env, depth, ks, vs, rest, j, e); }
    }
    if a { EntryDecides(env, depth, ks, vs, m, k, e); }
    if b {
      var j := EndingEntry(env, depth, ks, vs, rest, e);
      EntryDecides(env, depth, ks, vs, m, j, e);
    }
  }

  lemma EndingEntry(env: Env, depth: nat, ks: Spec, vs: Spec, m: map<Key, Dyn>, e: End) returns (k: Key)
    requires e != Good && MayEntries(env, depth, ks, vs, m, e)
    ensures k in m && !m[k].Nil? && MayEntry(env, depth, ks, vs, k, m[k], e)
  {
    hide MayEntry;
    k :| k in m && !m[k].Nil? && MayEntry(env, depth, ks, vs, k, m[k], e);
  }

  lemma EntriesGood(env: Env, depth: nat, ks: Spec, vs: Spec, m: map<Key, Dyn>, k: Key, rest: map<Key, Dyn>, a: bool,
                    b: bool, r: bool)
    requires k in m && rest == m - {k} && a == (m[k].Nil? || MayEntry(env, depth, ks, vs, k, m[k], Good))
    requires b == MayEntries(env, depth, ks, vs, rest, Good) && r == MayEntries(env, depth, ks, vs, m, Good)
    ensures r <==> a && b
  {
    hide MayEntry, MayEntries;
    if r {
      GoodEntry(env, depth, ks, vs, m, k);
      GoodRest(env, depth, ks, vs, m, k, rest);
    }
    if a && b { AllGood(env, depth, ks, vs, m, k, rest); }
  }

  lemma GoodEntry(env: Env, depth: nat, ks: Spec, vs: Spec, m: map<Key, Dyn>, k: Key)
    requires k in m && MayEntries(env, depth, ks, vs, m, Good)
    ensures m[k].Nil? || MayEntry(env, depth, ks, vs, k, m[k], Good)
  {
    hide MayEntry;
  }

  lemma GoodRest(env: Env, depth: nat, ks: Spec, vs: Spec, m: map<Key, Dyn>, k: Key, rest: map<Key, Dyn>)
    requires k in m && rest == m - {k} && MayEntries(env, depth, ks, vs, m, Good)
    ensures MayEntries(env, depth, ks, vs, rest, Good)
  {
    hide MayEntry;
    forall j | j in rest ensures rest[j].Nil? || MayEntry(env, depth, ks, vs, j, rest[j], Good) {
      GoodEntry(env, depth, ks, vs, m, j);
    }
  }

  lemma NilFate(env: Env, depth: nat, ks: Spec, vs: Spec, k: Key)
    ensures EntryFate(env, depth, ks, vs, k, Nil) == Fate(true, false, false)
  {
    hide MayEntry;
  }

  lemma EntriesFateAt(env: Env, depth: nat, ks: Spec, vs: Spec, m: map<Key, Dyn>, c: Fate, e: End)
    requires c == EntriesFate(env, depth, ks, vs, m)
    ensures c.May(e) <==> MayEntries(env, depth, ks, vs, m, e)
  {
    hide MayEntries;
  }

  lemma EntriesEndOf(env: Env, depth: nat, ks: Spec, vs: Spec, m: map<Key, Dyn>, k: Key, rest: map<Key, Dyn>, e: End,
                     a: Fate, b: Fate, c: Fate)
    requires k in m && rest == m - {k} && a == EntryFate(env, depth, ks, vs, k, m[k])
    requires b == EntriesFate(env, depth, ks, vs, rest) && c == EntriesFate(env, depth, ks, vs, m)
    ensures c.May(e) <==> if e == Good then a.good && b.good else a.May(e) || b.May(e)
  {
    hide MayEntry, MayEntries, EntryFate, EntriesFate;
    EntriesFateAt(env, depth, ks, vs, rest, b, e);
    EntriesFateAt(env, depth, ks, vs, m, c, e);
    if m[k].Nil? { NilFate(env, depth, ks, vs, k); } else { EntryFateAt(env, depth, ks, vs, k, m[k], a, e); }
    if e == Good {
      EntriesGood(env, depth, ks, vs, m, k, rest, a.good, b.good, c.good);
    } else {
      EntriesEnd(env, depth, ks, vs, m, k, rest, e, a.May(e), b.May(e), c.May(e));
    }
  }

  lemma EntriesFateIs(env: Env, depth: nat, ks: Spec, vs: Spec, m: map<Key, Dyn>, k: Key, rest: map<Key, Dyn>, a: Fate,
                      b: Fate, c: Fate)
    requires k in m && rest == m - {k} && a == EntryFate(env, depth, ks, vs, k, m[k])
    requires b == EntriesFate(env, depth, ks, vs, rest) && c == EntriesFate(env, depth, ks, vs, m)
    ensures c == Either(a, b)
  {
    hide EntryFate, EntriesFate;
    EntriesEndOf(env, depth, ks, vs, m, k, rest, Good, a, b, c);
    EntriesEndOf(env, depth, ks, vs, m, k, rest, Bad, a, b, c);
    EntriesEndOf(env, depth, ks, vs, m, k, rest, Out, a, b, c);
  }

  lemma EntriesCombine(env: Env, depth: nat, ks: Spec, vs: Spec, m: map<Key, Dyn>, k: Key, rest: map<Key, Dyn>)
    requires m != map[] && k == Pick(m) && rest == m - {k}
    ensures Combines(EntryResults(env, depth, ks, vs, k, m[k]), EntriesResults(env, depth, ks, vs, rest),
                     EntriesResults(env, depth, ks, vs, m), Merge)
  {
    hide Merge, Combines, EntryResults, EntriesResults;
    var p, q := EntryResults(env, depth, ks, vs, k, m[k]), EntriesResults(env, depth, ks, vs, rest);
    var r := EntriesResults(env, depth, ks, vs, m);
    forall z | Some(z) in r ensures exists x, y :: Some(x) in p && Some(y) in q && z == Merge(x, y) {
      var x, y := MergeFrom(env, depth, ks, vs, m, k, rest, z);
    }
    forall x, y | Some(x) in p && Some(y) in q ensures Some(Merge(x, y)) in r {
      MergeIn(env, depth, ks, vs, m, k, rest, x, y);
    }
    CombinesFrom(p, q, r, Merge);
  }

  lemma MergeIn(env: Env, depth: nat, ks: Spec, vs: Spec, m: map<Key, Dyn>, k: Key, rest: map<Key, Dyn>, x: Items,
                y: Items)
    requires m != map[] && k == Pick(m) && rest == m - {k}
    requires Some(x) in EntryResults(env, depth, ks, vs, k, m[k]) && Some(y) in EntriesResults(env, depth, ks, vs, rest)
    ensures Some(Merge(x, y)) in EntriesResults(env, depth, ks, vs, m)
  {
    hide EntryFate, EntriesFate, GivesEntry, GivesEntries, Merge;
    FirstPut(env, depth, ks, vs, m, x, y);
  }

  lemma MergeFrom(env: Env, depth: nat, ks: Spec, vs: Spec, m: map<Key, Dyn>, k: Key, rest: map<Key, Dyn>, z: Items)
    returns (x: Items, y: Items)
    requires m != map[] && k == Pick(m) && rest == m - {k} && Some(z) in EntriesResults(env, depth, ks, vs, m)
    ensures Some(x) in EntryResults(env, depth, ks, vs, k, m[k]) && Some(y) in EntriesResults(env, depth, ks, vs, rest)
    ensures z == Merge(x, y)
  {
    hide EntryFate, EntriesFate, GivesEntry, GivesEntries, Merge;
    x, y := FirstTaken(env, depth, ks, vs, m, z);
  }

  lemma ExactEntriesStep(env: Env, depth: nat, ks: Spec, vs: Spec, m: map<Key, Dyn>, k: Key, rest: map<Key, Dyn>)
    requires m != map[] && k == Pick(m) && rest == m - {k}
    requires ExactEntry(env, depth, ks, vs, k, m[k]) && ExactEntries(env, depth, ks, vs, rest)
    ensures ExactEntries(env, depth, ks, vs, m)
  {
    hide EntryFate, EntriesFate, EntryResults, EntriesResults, EncodeItem, EncodeEntries, GivesEntries, Tells,
         Injective, Combines, Plus, Joined, Merge;
    var f, h := EntryFate(env, depth, ks, vs, k, m[k]), EntriesFate(env, depth, ks, vs, rest);
    var c := EntriesFate(env, depth, ks, vs, m);
    EntriesFateIs(env, depth, ks, vs, m, k, rest, f, h, c);
    EntriesResultsAre(env, depth, ks, vs, m);
    EntriesCombine(env, depth, ks, vs, m, k, rest);
    EncodeEntriesFirst(env, depth, ks, vs, m, k);
    var a, p := EncodeItem(env, depth, ks, vs, k, m[k]), EntryResults(env, depth, ks, vs, k, m[k]);
    var b, q := EncodeEntries(env, depth, ks, vs, rest), EntriesResults(env, depth, ks, vs, rest);
    PlusIsJoined(a, b);
    MergeInjective(p, q);
    TellsJoin(a, f, p, b, h, q, c, EntriesResults(env, depth, ks, vs, m), Merge);
  }

  lemma ExactNoEntries(env: Env, depth: nat, ks: Spec, vs: Spec)
    ensures ExactEntries(env, depth, ks, vs, map[])
  {
    hide EntriesFate, GivesEntries, EntriesResults, EncodeEntries;
    NoEntriesFate(env, depth, ks, vs);
    forall es ensures GivesEntries(env, depth, ks, vs, map[], es) <==> es == multiset{} {
      NoEntriesGiven(env, depth, ks, vs, es);
    }
    EntriesResultsAre(env, depth, ks, vs, map[]);
    SameResults(EntriesResults(env, depth, ks, vs, map[]), iset{Some(multiset{})});
  }

  lemma NoEntriesFate(env: Env, depth: nat, ks: Spec, vs: Spec)
    ensures EntriesFate(env, depth, ks, vs, map[]) == Fate(true, false, false)
    ensures EncodeEntries(env, depth, ks, vs, map[]) == Done(multiset{})
  {
    hide MayEntry, EncodeItem;
  }

  // ---- Fields

  ghost function FieldsFate(env: Env, depth: nat, g: seq<FieldSpec>, uf: map<string, Dyn>): Fate {
    Fate(MayFields(env, depth, g, uf, Good), MayFields(env, depth, g, uf, Bad), MayFields(env, depth, g, uf, Out))
  }

  ghost function FieldsResults(env: Env, depth: nat, g: seq<FieldSpec>, uf: map<string, Dyn>)
    : Results<map<I16, Meaning>>
  {
    iset r: Option<map<I16, Meaning>> |
      if r.None? then FieldsFate(env, depth, g, uf).Fails() else GivesFields(env, depth, g, uf, r.value)
  }

  ghost predicate ExactFields(env: Env, depth: nat, g: seq<FieldSpec>, uf: map<string, Dyn>) {
    Tells(EncodeFields(env, depth, g, uf), FieldsFate(env, depth, g, uf), FieldsResults(env, depth, g, uf))
  }

  lemma FieldsResultsAre(env: Env, depth: nat, g: seq<FieldSpec>, uf: map<string, Dyn>)
    ensures None in FieldsResults(env, depth, g, uf) <==> FieldsFate(env, depth, g, uf).Fails()
    ensures forall fs :: Some(fs) in FieldsResults(env, depth, g, uf) <==> GivesFields(env, depth, g, uf, fs)
  {
    hide FieldsFate, GivesFields;
  }

  lemma FieldsEnd(env: Env, depth: nat, g: seq<FieldSpec>, f: FieldSpec, uf: map<string, Dyn>, e: End, a: bool, b: bool,
                  r: bool)
    requires e != Good && a == MayFields(env, depth, g, uf, e)
    requires b == (f.name in uf && May(env, depth, f.ty, uf[f.name], e)) && r == MayFields(env, depth, g + [f], uf, e)
    ensures r <==> a || b
  {
    hide May, MayFields;
    assert forall h :: h in g + [f] <==> h in g || h == f;
    if r {
      var h := EndingField(env, depth, g + [f], uf, e);
      if h in g { FieldDecides(env, depth, g, uf, h, e); }
    }
    if a {
      var h := EndingField(env, depth, g, uf, e);
      FieldDecides(env, depth, g + [f], uf, h, e);
    }
    if b { FieldDecides(env, depth, g + [f], uf, f, e); }
  }

  lemma EndingField(env: Env, depth: nat, g: seq<FieldSpec>, uf: map<string, Dyn>, e: End) returns (f: FieldSpec)
    requires e != Good && MayFields(env, depth, g, uf, e)
    ensures f in g && f.name in uf && May(env, depth, f.ty, uf[f.name], e)
  {
    hide May;
    f :| f in g && f.name in uf && May(env, depth, f.ty, uf[f.name], e);
  }

  lemma FieldsGood(env: Env, depth: nat, g: seq<FieldSpec>, f: FieldSpec, uf: map<string, Dyn>, a: bool, b: bool,
                   r: bool)
    requires a == MayFields(env, depth, g, uf, Good) && b == (f.name in uf ==> May(env, depth, f.ty, uf[f.name], Good))
    requires r == MayFields(env, depth, g + [f], uf, Good)
    ensures r <==> a && b
  {
    hide May;
    assert forall h :: h in g + [f] <==> h in g || h == f;
    assert f in g + [f];
  }

  /** A field that is set counts, another one does not. */
  ghost function FieldFate(env: Env, depth: nat, f: FieldSpec, uf: map<string, Dyn>): Fate {
    if f.name in uf then FateOf(env, depth, f.ty, uf[f.name]) else Fate(true, false, false)
  }

  lemma FieldsFateIs(env: Env, depth: nat, g: seq<FieldSpec>, f: FieldSpec, uf: map<string, Dyn>, a: Fate, b: Fate,
                     c: Fate)
    requires a == FieldsFate(env, depth, g, uf) && b == FieldFate(env, depth, f, uf)
    requires c == FieldsFate(env, depth, g + [f], uf)
    ensures c == Either(a, b)
  {
    hide May, MayFields;
    FieldsGood(env, depth, g, f, uf, a.good, b.good, c.good);
    FieldsEnd(env, depth, g, f, uf, Bad, a.bad, b.bad, c.bad);
    FieldsEnd(env, depth, g, f, uf, Out, a.out, b.out, c.out);
  }

  function Put(id: I16): (map<I16, Meaning>, Meaning) -> map<I16, Meaning> { (fs, m) => fs[id := m] }

  lemma PutParts(id: I16, x: map<I16, Meaning>, y: Meaning)
    requires id !in x
    ensures Put(id)(x, y) - {id} == x && id in Put(id)(x, y) && Put(id)(x, y)[id] == y
  {
  }

  lemma PutInjective(p: Results<map<I16, Meaning>>, q: Results<Meaning>, id: I16)
    requires forall fs | Some(fs) in p :: id !in fs
    ensures Injective(p, q, Put(id))
  {
    hide Put;
    forall x, x', y | Some(x) in p && Some(x') in p && Some(y) in q && Put(id)(x, y) == Put(id)(x', y) ensures x == x' {
      PutParts(id, x, y);
      PutParts(id, x', y);
    }
    forall x, y, y' | Some(x) in p && Some(y) in q && Some(y') in q && Put(id)(x, y) == Put(id)(x, y') ensures y == y' {
      PutParts(id, x, y);
      PutParts(id, x, y');
    }
  }

  /** What the fields before the last, and the last, contribute. */
  lemma FieldsSplit(env: Env, depth: nat, g: seq<FieldSpec>, f: FieldSpec, uf: map<string, Dyn>, fs: map<I16, Meaning>)
    requires DistinctFields(g + [f]) && GivesFields(env, depth, g + [f], uf, fs) && f.name in uf
    ensures f.id in fs && fs == Put(f.id)(fs - {f.id}, fs[f.id])
    ensures GivesFields(env, depth, g, uf, fs - {f.id}) && Gives(env, depth, f.ty, uf[f.name], fs[f.id])
  {
    hide Gives;
    LastFieldDiffers(g, f);
    assert f in g + [f] && forall h | h in g :: h in g + [f];
    forall id | id in fs - {f.id} ensures exists h :: h in g && h.name in uf && h.id == id {
      var h :| h in g + [f] && h.name in uf && h.id == id;
      assert h in g;
    }
  }

  lemma FieldsPut(env: Env, depth: nat, g: seq<FieldSpec>, f: FieldSpec, uf: map<string, Dyn>, fs: map<I16, Meaning>,
                  m: Meaning)
    requires DistinctFields(g + [f]) && f.name in uf
    requires GivesFields(env, depth, g, uf, fs) && Gives(env, depth, f.ty, uf[f.name], m)
    ensures GivesFields(env, depth, g + [f], uf, Put(f.id)(fs, m))
  {
    hide Gives;
    LastFieldDiffers(g, f);
    var all := fs[f.id := m];
    forall h | h in g + [f] && h.name in uf ensures h.id in all && Gives(env, depth, h.ty, uf[h.name], all[h.id]) {
    }
    forall id | id in all ensures exists h :: h in g + [f] && h.name in uf && h.id == id {
      if id == f.id {
        assert f in g + [f];
      } else {
        var h :| h in g && h.name in uf && h.id == id;
        assert h in g + [f];
      }
    }
  }

  lemma FieldsGiveTheirs(env: Env, depth: nat, g: seq<FieldSpec>, f: FieldSpec, uf: map<string, Dyn>,
                         fs: map<I16, Meaning>)
    requires DistinctFields(g + [f]) && GivesFields(env, depth, g, uf, fs)
    ensures f.id !in fs
  {
    hide Gives;
    LastFieldDiffers(g, f);
  }

  lemma FieldsSkip(env: Env, depth: nat, g: seq<FieldSpec>, f: FieldSpec, uf: map<string, Dyn>, fs: map<I16, Meaning>)
    requires f.name !in uf
    ensures GivesFields(env, depth, g + [f], uf, fs) <==> GivesFields(env, depth, g, uf, fs)
  {
    hide Gives;
    assert forall h :: h in g + [f] <==> h in g || h == f;
  }

  lemma LastFieldDiffers(g: seq<FieldSpec>, f: FieldSpec)
    requires DistinctFields(g + [f])
    ensures forall h | h in g :: h.id != f.id && h.name != f.name
  {
    forall h | h in g ensures h.id != f.id && h.name != f.name {
      var i :| 0 <= i < |g| && g[i] == h;
      assert (g + [f])[i].id != (g + [f])[|g|].id && (g + [f])[i].name != (g + [f])[|g|].name;
    }
  }

  lemma FieldsCombine(env: Env, depth: nat, g: seq<FieldSpec>, f: FieldSpec, uf: map<string, Dyn>)
    requires DistinctFields(g + [f]) && f.name in uf
    ensures Combines(FieldsResults(env, depth, g, uf), ResultsOf(env, depth, f.ty, uf[f.name]),
                     FieldsResults(env, depth, g + [f], uf), Put(f.id))
    ensures forall fs | Some(fs) in FieldsResults(env, depth, g, uf) :: f.id !in fs
  {
    hide FateOf, FieldsFate, Gives, GivesFields, Put, Combines, ResultsOf, FieldsResults, DistinctFields;
    FieldsResultsAre(env, depth, g, uf);
    FieldsResultsAre(env, depth, g + [f], uf);
    ResultsAre(env, depth, f.ty, uf[f.name]);
    var p, q := FieldsResults(env, depth, g, uf), ResultsOf(env, depth, f.ty, uf[f.name]);
    var r := FieldsResults(env, depth, g + [f], uf);
    forall x, y | Some(x) in p && Some(y) in q ensures Some(Put(f.id)(x, y)) in r {
      FieldsPut(env, depth, g, f, uf, x, y);
    }
    forall z | Some(z) in r ensures exists x, y :: Some(x) in p && Some(y) in q && z == Put(f.id)(x, y) {
      FieldsSplit(env, depth, g, f, uf, z);
      var x, y := z - {f.id}, z[f.id];
      assert Some(x) in p && Some(y) in q && z == Put(f.id)(x, y);
    }
    forall fs | Some(fs) in p ensures f.id !in fs { FieldsGiveTheirs(env, depth, g, f, uf, fs); }
    CombinesFrom(p, q, r, Put(f.id));
  }

  lemma AddFieldIsJoined(a: Outcome<map<I16, Meaning>>, id: I16, b: Outcome<Meaning>)
    ensures AddField(a, id, b) == Joined(a, b, Put(id))
  {
  }

  lemma ExactFieldsStep(env: Env, depth: nat, g: seq<FieldSpec>, f: FieldSpec, uf: map<string, Dyn>)
    requires DistinctFields(g + [f]) && ExactFields(env, depth, g, uf)
    requires f.name in uf ==> Exact(env, depth, f.ty, uf[f.name])
    ensures ExactFields(env, depth, g + [f], uf)
  {
    hide FateOf, FieldsFate, GivesFields, FieldsResults, ResultsOf, Encode, EncodeFields, Tells, Combines, Injective,
         AddField, Joined, Put, DistinctFields;
    var a, p := EncodeFields(env, depth, g, uf), FieldsResults(env, depth, g, uf);
    var r := FieldsResults(env, depth, g + [f], uf);
    var h, i, c := FieldsFate(env, depth, g, uf), FieldFate(env, depth, f, uf), FieldsFate(env, depth, g + [f], uf);
    FieldsFateIs(env, depth, g, f, uf, h, i, c);
    EncodeFieldsStep(env, depth, g, f, uf);
    FieldsResultsAre(env, depth, g + [f], uf);
    if f.name in uf {
      FieldsCombine(env, depth, g, f, uf);
      var b, q := Encode(env, depth, f.ty, uf[f.name]), ResultsOf(env, depth, f.ty, uf[f.name]);
      AddFieldIsJoined(a, f.id, b);
      PutInjective(p, q, f.id);
      TellsJoin(a, h, p, b, i, q, c, r, Put(f.id));
    } else {
      FieldsResultsAre(env, depth, g, uf);
      forall fs ensures GivesFields(env, depth, g + [f], uf, fs) <==> GivesFields(env, depth, g, uf, fs) {
        FieldsSkip(env, depth, g, f, uf, fs);
      }
      SameResults(p, r);
    }
  }

  lemma ExactNoFields(env: Env, depth: nat, uf: map<string, Dyn>)
    ensures ExactFields(env, depth, [], uf)
  {
    hide FieldsFate, GivesFields, FieldsResults, EncodeFields;
    NoFieldsFate(env, depth, uf);
    FieldsResultsAre(env, depth, [], uf);
    forall fs ensures GivesFields(env, depth, [], uf, fs) <==> fs == map[] { NoFieldsGiven(env, depth, uf, fs); }
    SameResults(FieldsResults(env, depth, [], uf), iset{Some(map[])});
  }

  lemma NoFieldsFate(env: Env, depth: nat, uf: map<string, Dyn>)
    ensures FieldsFate(env, depth, [], uf) == Fate(true, false, false)
    ensures EncodeFields(env, depth, [], uf) == Done(map[])
  {
    hide May, Encode;
  }

  lemma NoFieldsGiven(env: Env, depth: nat, uf: map<string, Dyn>, fs: map<I16, Meaning>)
    ensures GivesFields(env, depth, [], uf, fs) <==> fs == map[]
  {
    hide Gives;
  }

  lemma {:induction false} FieldsCount(env: Env, depth: nat, g: seq<FieldSpec>, uf: map<string, Dyn>,
                                       fs: map<I16, Meaning>)
    requires DistinctFields(g) && GivesFields(env, depth, g, uf, fs)
    ensures |fs| == |Names(g) * uf.Keys|
    decreases |g|
  {
    hide GivesFields, Names, DistinctFields;
    if g == [] {
      NoFieldsGiven(env, depth, uf, fs);
      assert Names([]) == {} by { NoNames(); }
    } else {
      var n := |g| - 1;
      var pre, f := g[..n], g[n];
      assert pre + [f] == g;
      PrefixDistinct(pre, f);
      NamesAppend(pre, f);
      NewName(pre, f);
      if f.name in uf {
        FieldsSplit(env, depth, pre, f, uf, fs);
        FieldsCount(env, depth, pre, uf, fs - {f.id});
        OneFewer(fs, f.id);
        OneName(Names(pre), uf.Keys, f.name);
      } else {
        FieldsSkip(env, depth, pre, f, uf, fs);
        FieldsCount(env, depth, pre, uf, fs);
        assert Names(g) * uf.Keys == Names(pre) * uf.Keys;
      }
    }
  }

  lemma OneFewer(fs: map<I16, Meaning>, id: I16)
    requires id in fs
    ensures |fs| == |fs - {id}| + 1
  {
    assert fs.Keys == (fs - {id}).Keys + {id};
    assert |fs| == |fs.Keys| && |fs - {id}| == |(fs - {id}).Keys|;
  }

  lemma OneName(names: set<string>, set': set<string>, n: string)
    requires n !in names && n in set'
    ensures |(names + {n}) * set'| == |names * set'| + 1
  {
    assert (names + {n}) * set' == names * set' + {n};
  }

  lemma NoNames()
    ensures Names([]) == {}
  {
  }

  lemma PrefixDistinct(pre: seq<FieldSpec>, f: FieldSpec)
    requires DistinctFields(pre + [f])
    ensures DistinctFields(pre)
  {
    forall i, j | 0 <= i < j < |pre| ensures pre[i].name != pre[j].name && pre[i].id != pre[j].id {
      assert (pre + [f])[i] == pre[i] && (pre + [f])[j] == pre[j];
    }
  }

  // ---- Groups

  ghost function GroupFate(env: Env, depth: nat, g: seq<FieldSpec>, request: map<string, Dyn>): Fate {
    Fate(MayGroup(env, depth, g, request, Good), MayGroup(env, depth, g, request, Bad),
         MayGroup(env, depth, g, request, Out))
  }

  ghost function GroupResults(env: Env, depth: nat, g: seq<FieldSpec>, request: map<string, Dyn>)
    : Results<map<I16, Meaning>>
  {
    iset r: Option<map<I16, Meaning>> |
      if r.None? then GroupFate(env, depth, g, request).Fails() else GivesGroup(env, depth, g, request, r.value)
  }

  ghost predicate ExactGroup(env: Env, depth: nat, g: seq<FieldSpec>, request: map<string, Dyn>) {
    Tells(EncodeGroup(env, depth, g, request), GroupFate(env, depth, g, request), GroupResults(env, depth, g, request))
  }

  /** The set fields when these values are collected. */
  ghost function SetFields(g: seq<FieldSpec>, given: map<string, Dyn>): map<string, Dyn> {
    match WithDefaults(g, given) case None => map[] case Some(uf) => uf
  }

  lemma GroupResultsAre(env: Env, depth: nat, g: seq<FieldSpec>, request: map<string, Dyn>)
    ensures None in GroupResults(env, depth, g, request) <==> GroupFate(env, depth, g, request).Fails()
    ensures forall fs :: Some(fs) in GroupResults(env, depth, g, request) <==> GivesGroup(env, depth, g, request, fs)
  {
    hide GroupFate, GivesGroup;
  }

  lemma GroupFateAt(env: Env, depth: nat, g: seq<FieldSpec>, request: map<string, Dyn>, c: Fate, e: End)
    requires c == GroupFate(env, depth, g, request)
    ensures c.May(e) <==> MayGroup(env, depth, g, request, e)
  {
    hide MayGroup;
  }

  lemma FieldsFateAt(env: Env, depth: nat, g: seq<FieldSpec>, uf: map<string, Dyn>, c: Fate, e: End)
    requires c == FieldsFate(env, depth, g, uf)
    ensures c.May(e) <==> MayFields(env, depth, g, uf, e)
  {
    hide MayFields;
  }

  /** What one collected map allows, the group allows. */
  lemma GroupAllows(env: Env, depth: nat, g: seq<FieldSpec>, request: map<string, Dyn>, given: map<string, Dyn>,
                    a: Fate, c: Fate, e: End)
    requires Collected(g, request, given) && WithDefaults(g, given).Some?
    requires a == FieldsFate(env, depth, g, SetFields(g, given)) && c == GroupFate(env, depth, g, request)
    ensures a.May(e) ==> c.May(e)
  {
    hide MayFields, MayGroup, FieldsFate, GroupFate, Collected, WithDefaults;
    GroupFateAt(env, depth, g, request, c, e);
    FieldsFateAt(env, depth, g, SetFields(g, given), a, e);
    if a.May(e) { GroupDecides(env, depth, g, request, given, e); }
  }

  /** And the other way round. */
  lemma GroupAllowedBy(env: Env, depth: nat, g: seq<FieldSpec>, request: map<string, Dyn>, c: Fate, e: End)
    returns (given: map<string, Dyn>)
    requires c == GroupFate(env, depth, g, request) && c.May(e)
    ensures Collected(g, request, given) && WithDefaults(g, given).Some?
    ensures FieldsFate(env, depth, g, SetFields(g, given)).May(e)
  {
    hide MayFields, MayGroup, FieldsFate, GroupFate, Collected, WithDefaults;
    GroupFateAt(env, depth, g, request, c, e);
    given := GroupChoice(env, depth, g, request, e);
    FieldsFateAt(env, depth, g, SetFields(g, given), FieldsFate(env, depth, g, SetFields(g, given)), e);
  }

  lemma GroupChoice(env: Env, depth: nat, g: seq<FieldSpec>, request: map<string, Dyn>, e: End)
    returns (given: map<string, Dyn>)
    requires MayGroup(env, depth, g, request, e)
    ensures Collected(g, request, given) && WithDefaults(g, given).Some?
    ensures MayFields(env, depth, g, SetFields(g, given), e)
  {
    hide MayFields, Collected, WithDefaults;
    given :| Collected(g, request, given) && MayFill(env, depth, g, given, e);
  }

  lemma GroupIncludes(env: Env, depth: nat, g: seq<FieldSpec>, request: map<string, Dyn>, given: map<string, Dyn>)
    requires Collected(g, request, given) && WithDefaults(g, given).Some?
    ensures FieldsResults(env, depth, g, SetFields(g, given)) <= GroupResults(env, depth, g, request)
  {
    hide FieldsFate, GroupFate, GivesFields, GivesGroup, FieldsResults, GroupResults, Collected, WithDefaults;
    FieldsResultsAre(env, depth, g, SetFields(g, given));
    GroupResultsAre(env, depth, g, request);
    var a, c := FieldsFate(env, depth, g, SetFields(g, given)), GroupFate(env, depth, g, request);
    GroupAllows(env, depth, g, request, given, a, c, Bad);
    GroupAllows(env, depth, g, request, given, a, c, Out);
    forall z | z in FieldsResults(env, depth, g, SetFields(g, given))
      ensures z in GroupResults(env, depth, g, request)
    {
      if z.Some? {
        assert z == Some(z.value);
        GroupGives(env, depth, g, request, given, z.value);
      }
    }
  }

  lemma GroupFrom(env: Env, depth: nat, g: seq<FieldSpec>, request: map<string, Dyn>, z: Option<map<I16, Meaning>>)
    returns (given: map<string, Dyn>)
    requires z in GroupResults(env, depth, g, request)
    ensures Collected(g, request, given) && WithDefaults(g, given).Some?
    ensures z in FieldsResults(env, depth, g, SetFields(g, given))
  {
    hide FieldsFate, GroupFate, GivesFields, GivesGroup, FieldsResults, GroupResults, Collected, WithDefaults;
    GroupResultsAre(env, depth, g, request);
    var c := GroupFate(env, depth, g, request);
    if z.None? {
      given := GroupAllowedBy(env, depth, g, request, c, if c.bad then Bad else Out);
    } else {
      assert z == Some(z.value);
      given := GroupGivenBy(env, depth, g, request, z.value);
    }
    FieldsResultsAre(env, depth, g, SetFields(g, given));
  }

  lemma GroupGivenBy(env: Env, depth: nat, g: seq<FieldSpec>, request: map<string, Dyn>, fs: map<I16, Meaning>)
    returns (given: map<string, Dyn>)
    requires GivesGroup(env, depth, g, request, fs)
    ensures Collected(g, request, given) && WithDefaults(g, given).Some?
    ensures GivesFields(env, depth, g, SetFields(g, given), fs)
  {
    hide GivesFields, Collected, WithDefaults;
    given :| Collected(g, request, given) && GivesFilled(env, depth, g, given, fs);
  }

  /** Every collected map has been treated. */
  ghost predicate EachExact(env: Env, depth: nat, g: seq<FieldSpec>, request: map<string, Dyn>) {
    forall given | Collected(g, request, given) ::
      WithDefaults(g, given).Some? && ExactFields(env, depth, g, SetFields(g, given))
  }

  lemma FilledIs(env: Env, depth: nat, g: seq<FieldSpec>, request: map<string, Dyn>, given: map<string, Dyn>)
    requires EachExact(env, depth, g, request) && Collected(g, request, given)
    ensures WithDefaults(g, given).Some?
    ensures EncodeFilled(env, depth, g, given) == EncodeFields(env, depth, g, SetFields(g, given))
    ensures Tells(EncodeFilled(env, depth, g, given), FieldsFate(env, depth, g, SetFields(g, given)),
                  FieldsResults(env, depth, g, SetFields(g, given)))
  {
    hide Encode, EncodeFields, FieldsFate, FieldsResults, Tells, Collected, WithDefaults;
  }

  /** All collected maps lead to one outcome. */
  lemma SameOutcome(env: Env, depth: nat, g: seq<FieldSpec>, request: map<string, Dyn>, o: Outcome<map<I16, Meaning>>)
    requires EachExact(env, depth, g, request)
    requires forall given | Collected(g, request, given) :: EncodeFilled(env, depth, g, given) == o
    ensures Sums(o, GroupResults(env, depth, g, request))
  {
    hide EachExact, FieldsFate, FieldsResults, GroupResults, Collected, WithDefaults, EncodeFilled;
    var r := GroupResults(env, depth, g, request);
    GivenIsCollected(g, request);
    var given := Given(g, request);
    FilledIs(env, depth, g, request, given);
    GroupIncludes(env, depth, g, request, given);
    if !o.Ambiguous? {
      forall z | z in r ensures z in FieldsResults(env, depth, g, SetFields(g, given)) {
        var other := GroupFrom(env, depth, g, request, z);
        FilledIs(env, depth, g, request, other);
      }
    }
  }

  lemma AllBarred(env: Env, depth: nat, g: seq<FieldSpec>, request: map<string, Dyn>)
    requires EachExact(env, depth, g, request)
    requires forall given | Collected(g, request, given) :: EncodeFilled(env, depth, g, given).Barred()
    ensures GroupResults(env, depth, g, request) == iset{None}
  {
    hide EachExact, FieldsFate, FieldsResults, GroupResults, Collected, WithDefaults, EncodeFilled;
    var r := GroupResults(env, depth, g, request);
    GivenIsCollected(g, request);
    var given := Given(g, request);
    FilledIs(env, depth, g, request, given);
    GroupIncludes(env, depth, g, request, given);
    forall z | z in r ensures z == None {
      var other := GroupFrom(env, depth, g, request, z);
      FilledIs(env, depth, g, request, other);
    }
  }

  /** Two collected maps lead to different outcomes, one of which may be a value. */
  lemma DifferentOutcomes(env: Env, depth: nat, g: seq<FieldSpec>, request: map<string, Dyn>, live: map<string, Dyn>,
                          other: map<string, Dyn>)
    requires EachExact(env, depth, g, request) && Collected(g, request, live) && Collected(g, request, other)
    requires !EncodeFilled(env, depth, g, live).Barred()
    requires EncodeFilled(env, depth, g, live) != EncodeFilled(env, depth, g, other)
    ensures Differ(GroupResults(env, depth, g, request))
  {
    hide EachExact, FieldsFate, FieldsResults, GroupResults, Collected, WithDefaults, EncodeFilled, Differ, Sums;
    FilledIs(env, depth, g, request, live);
    FilledIs(env, depth, g, request, other);
    GroupIncludes(env, depth, g, request, live);
    GroupIncludes(env, depth, g, request, other);
    TwoOutcomes(EncodeFilled(env, depth, g, live), FieldsResults(env, depth, g, SetFields(g, live)),
                EncodeFilled(env, depth, g, other), FieldsResults(env, depth, g, SetFields(g, other)),
                GroupResults(env, depth, g, request));
  }

  lemma GroupOutcomeIs(env: Env, depth: nat, g: seq<FieldSpec>, request: map<string, Dyn>)
    requires Unknown(g, request) == {} && Missing(g, Given(g, request)) == {}
    ensures var o := EncodeFilled(env, depth, g, Given(g, request));
            EncodeGroup(env, depth, g, request) ==
              if forall given | Collected(g, request, given) :: EncodeFilled(env, depth, g, given) == o then o
              else if (forall given | Collected(g, request, given) :: EncodeFilled(env, depth, g, given).Barred())
              then NoValue
              else Ambiguous
  {
    hide EncodeFilled, Collected, Given, Unknown, Missing;
  }

  lemma GroupSums(env: Env, depth: nat, g: seq<FieldSpec>, request: map<string, Dyn>)
    requires EachExact(env, depth, g, request) && Accepted(g, request)
    ensures Sums(EncodeGroup(env, depth, g, request), GroupResults(env, depth, g, request))
  {
    hide EachExact, GroupResults, Collected, WithDefaults, EncodeFilled, EncodeGroup, Unknown, Missing, Given;
    GroupOutcomeIs(env, depth, g, request);
    var first := Given(g, request);
    GivenIsCollected(g, request);
    var o := EncodeFilled(env, depth, g, first);
    if forall given | Collected(g, request, given) :: EncodeFilled(env, depth, g, given) == o {
      SameOutcome(env, depth, g, request, o);
    } else if forall given | Collected(g, request, given) :: EncodeFilled(env, depth, g, given).Barred() {
      AllBarred(env, depth, g, request);
    } else {
      var other :| Collected(g, request, other) && EncodeFilled(env, depth, g, other) != o;
      var live :| Collected(g, request, live) && !EncodeFilled(env, depth, g, live).Barred();
      if o.Barred() {
        DifferentOutcomes(env, depth, g, request, live, first);
      } else {
        DifferentOutcomes(env, depth, g, request, first, other);
      }
    }
  }

  lemma ExactGroupOf(env: Env, depth: nat, g: seq<FieldSpec>, request: map<string, Dyn>)
    requires EachExact(env, depth, g, request) && Accepted(g, request)
    ensures ExactGroup(env, depth, g, request)
  {
    hide EachExact, FieldsFate, GroupFate, FieldsResults, GroupResults, Collected, WithDefaults, EncodeFilled,
         EncodeGroup, Accepted, Sums, GivesGroup;
    GroupSums(env, depth, g, request);
    GroupResultsAre(env, depth, g, request);
    var o, c := EncodeGroup(env, depth, g, request), GroupFate(env, depth, g, request);
    var r := GroupResults(env, depth, g, request);
    Live(o, r);
    if c.good {
      var given := GroupAllowedBy(env, depth, g, request, c, Good);
      FilledIs(env, depth, g, request, given);
      GroupIncludes(env, depth, g, request, given);
      Live(EncodeFilled(env, depth, g, given), FieldsResults(env, depth, g, SetFields(g, given)));
    }
    if !o.Barred() {
      var fs :| Some(fs) in r;
      var given := GroupFrom(env, depth, g, request, Some(fs));
      FilledIs(env, depth, g, request, given);
      Live(EncodeFilled(env, depth, g, given), FieldsResults(env, depth, g, SetFields(g, given)));
      GroupAllows(env, depth, g, request, given, FieldsFate(env, depth, g, SetFields(g, given)), c, Good);
    }
  }

  // ---- Structs

  ghost function StructFate(env: Env, depth: nat, def: StructDef, request: map<string, Dyn>): Fate {
    Fate(MayStruct(env, depth, def, request, Good), MayStruct(env, depth, def, request, Bad),
         MayStruct(env, depth, def, request, Out))
  }

  ghost function StructResults(env: Env, depth: nat, def: StructDef, request: map<string, Dyn>): Results<Meaning> {
    iset r: Option<Meaning> |
      if r.None? then StructFate(env, depth, def, request).Fails() else GivesStruct(env, depth, def, request, r.value)
  }

  ghost predicate ExactStruct(env: Env, depth: nat, def: StructDef, request: map<string, Dyn>) {
    Tells(EncodeStruct(env, depth, def, request), StructFate(env, depth, def, request),
          StructResults(env, depth, def, request))
  }

  lemma StructResultsAre(env: Env, depth: nat, def: StructDef, request: map<string, Dyn>)
    ensures None in StructResults(env, depth, def, request) <==> StructFate(env, depth, def, request).Fails()
    ensures forall m :: Some(m) in StructResults(env, depth, def, request) <==> GivesStruct(env, depth, def, request, m)
  {
    hide StructFate, GivesStruct;
  }

  lemma StructFateIs(env: Env, depth: nat, def: StructDef, request: map<string, Dyn>, a: Fate, c: Fate)
    requires a == GroupFate(env, depth, def.fields, request) && c == StructFate(env, depth, def, request)
    ensures c == if !Accepted(def.fields, request) then Fate(false, true, false)
                 else if WrongUnion(def, request) then Fate(false, a.bad || a.good, a.out)
                 else a
  {
    hide MayGroup, Accepted, WrongUnion;
  }

  lemma StructGives(env: Env, depth: nat, def: StructDef, request: map<string, Dyn>, m: Meaning)
    ensures GivesStruct(env, depth, def, request, m) <==>
            && Accepted(def.fields, request) && !WrongUnion(def, request)
            && exists fs :: GivesGroup(env, depth, def.fields, request, fs) && m == MStruct(fs)
  {
    hide GivesGroup, Accepted, WrongUnion;
  }

  /** How many fields are given is how many are set. */
  lemma GroupCount(env: Env, depth: nat, g: FieldGroup, request: map<string, Dyn>, fs: map<I16, Meaning>)
    requires Accepted(g, request) && GivesGroup(env, depth, g, request, fs)
    ensures |fs| == |WithDefaults(g, Given(g, request)).value|
  {
    hide GivesFields, GivesGroup, Collected, WithDefaults, Given, Unknown, Missing;
    var given := GroupGivenBy(env, depth, g, request, fs);
    var uf := SetFields(g, given);
    FieldsCount(env, depth, g, uf, fs);
    AcceptedAny(g, request, given);
    GroupKeys(g, request, given, uf);
    assert Names(g) * uf.Keys == uf.Keys;
    assert |uf| == |uf.Keys|;
    assert |WithDefaults(g, Given(g, request)).value| == |WithDefaults(g, Given(g, request)).value.Keys|;
  }

  lemma RefusedOutcome(env: Env, depth: nat, def: StructDef, request: map<string, Dyn>)
    requires !Accepted(def.fields, request)
    ensures EncodeStruct(env, depth, def, request) == Failed
  {
    hide Encode, EncodeGroup, Collected, WithDefaults, Given, Unknown, Missing;
    var g := def.fields;
    GivenIsCollected(g, request);
    if Unknown(g, request) != {} || Missing(g, Given(g, request)) != {} {
      GroupRejects(env, depth, g, request, Given(g, request), Missing(g, Given(g, request)));
    } else {
      GroupPanics(env, depth, g, request, Given(g, request));
    }
  }

  lemma ExactStructOf(env: Env, depth: nat, def: StructDef, request: map<string, Dyn>)
    requires Accepted(def.fields, request) ==> ExactGroup(env, depth, def.fields, request)
    ensures ExactStruct(env, depth, def, request)
  {
    hide Encode, EncodeStruct, Accepted, WrongUnion, GroupFate, StructFate, StructResults, GroupResults, GivesGroup,
         GivesStruct, Tells, Image, EncodeGroup;
    var g := def.fields;
    var c, r := StructFate(env, depth, def, request), StructResults(env, depth, def, request);
    StructFateIs(env, depth, def, request, GroupFate(env, depth, g, request), c);
    StructResultsAre(env, depth, def, request);
    forall m
      ensures GivesStruct(env, depth, def, request, m) <==>
              && Accepted(g, request) && !WrongUnion(def, request)
              && exists fs :: GivesGroup(env, depth, g, request, fs) && m == MStruct(fs)
    {
      StructGives(env, depth, def, request, m);
    }
    if !Accepted(g, request) {
      RefusedOutcome(env, depth, def, request);
      NothingGiven(EncodeStruct(env, depth, def, request), c, r);
    } else {
      UnionOutcome(env, depth, def, request);
      GroupResultsAre(env, depth, g, request);
      if WrongUnion(def, request) {
        SomeEnd(env, depth, g, request);
        NothingGiven(EncodeStruct(env, depth, def, request), c, r);
      } else {
        StructImage(GroupResults(env, depth, g, request), r);
        TellsMap(EncodeGroup(env, depth, g, request), c, GroupResults(env, depth, g, request), r, fs => MStruct(fs));
      }
    }
  }

  lemma NothingGiven<T(!new)>(o: Outcome<T>, c: Fate, r: Results<T>)
    requires o.Barred() && !c.good && c.Fails() && None in r && forall x :: Some(x) !in r
    ensures Tells(o, c, r)
  {
    SameResults(r, iset{None});
  }

  lemma StructImage(p: Results<map<I16, Meaning>>, r: Results<Meaning>)
    requires None in r <==> None in p
    requires forall m :: Some(m) in r <==> exists fs :: Some(fs) in p && m == MStruct(fs)
    ensures Image(p, r, fs => MStruct(fs))
  {
  }

  lemma SomeEnd(env: Env, depth: nat, g: seq<FieldSpec>, request: map<string, Dyn>)
    requires ExactGroup(env, depth, g, request)
    ensures GroupFate(env, depth, g, request).good || GroupFate(env, depth, g, request).Fails()
  {
    hide EncodeGroup, GroupFate, GroupResults;
    Live(EncodeGroup(env, depth, g, request), GroupResults(env, depth, g, request));
  }

  /** The union rule refuses a struct in every run or in none. */
  lemma UnionOutcome(env: Env, depth: nat, def: StructDef, request: map<string, Dyn>)
    requires Accepted(def.fields, request) && ExactGroup(env, depth, def.fields, request)
    ensures if WrongUnion(def, request) then EncodeStruct(env, depth, def, request).Barred()
            else EncodeStruct(env, depth, def, request) ==
                 Mapped(EncodeGroup(env, depth, def.fields, request), (fs: map<I16, Meaning>) => MStruct(fs))
  {
    hide Encode, EncodeGroup, GroupFate, GroupResults, GivesGroup, WithDefaults, Given, Unknown, Missing;
    var o := EncodeGroup(env, depth, def.fields, request);
    GroupResultsAre(env, depth, def.fields, request);
    if o.Done? {
      assert Some(o.value) in GroupResults(env, depth, def.fields, request);
      GroupCount(env, depth, def.fields, request, o.value);
    }
  }

  // ---- Values

  lemma StructFateAt(env: Env, depth: nat, def: StructDef, request: map<string, Dyn>, c: Fate, e: End)
    requires c == StructFate(env, depth, def, request)
    ensures c.May(e) <==> MayStruct(env, depth, def, request, e)
  {
    hide MayStruct;
  }

  lemma ListFateAt(env: Env, depth: nat, elem: Spec, vs: seq<Dyn>, c: Fate, e: End)
    requires c == ListFate(env, depth, elem, vs)
    ensures c.May(e) <==> MayList(env, depth, elem, vs, e)
  {
    hide MayList;
  }

  lemma SameFate(a: Fate, b: Fate)
    requires forall e: End :: a.May(e) <==> b.May(e)
    ensures a == b
  {
    assert a.May(Good) <==> b.May(Good);
    assert a.May(Bad) <==> b.May(Bad);
    assert a.May(Out) <==> b.May(Out);
  }

  /** What is refused is refused in every run. */
  lemma ExactRefusal(env: Env, depth: nat, spec: Spec, v: Dyn)
    requires Encode(env, depth, spec, v).Barred()
    requires forall e: End :: May(env, depth, spec, v, e) <==> e == if depth == 0 then Out else Bad
    requires forall m :: !Gives(env, depth, spec, v, m)
    ensures Exact(env, depth, spec, v)
  {
    hide Encode, May, Gives, FateOf, ResultsOf;
    var c := FateOf(env, depth, spec, v);
    forall e: End ensures c.May(e) <==> May(env, depth, spec, v, e) { FateAt(env, depth, spec, v, c, e); }
    SameFate(c, if depth == 0 then Fate(false, false, true) else Fate(false, true, false));
    ResultsAre(env, depth, spec, v);
    NothingGiven(Encode(env, depth, spec, v), c, ResultsOf(env, depth, spec, v));
  }

  lemma ExactAtZero(env: Env, spec: Spec, v: Dyn)
    ensures Exact(env, 0, spec, v)
  {
    hide May, Gives, Exact;
    forall e: End ensures May(env, 0, spec, v, e) <==> e == Out { MayNothing(env, spec, v, e); }
    forall m ensures !Gives(env, 0, spec, v, m) { GivesNothing(env, spec, v, m); }
    ExactRefusal(env, 0, spec, v);
  }

  lemma ExactScalar(env: Env, depth: nat, spec: Spec, v: Dyn)
    requires depth > 0 && ScalarSpec(spec.Root())
    ensures Exact(env, depth, spec, v)
  {
    hide Encode, May, Gives, FateOf, ResultsOf, EncodeScalar;
    var w := EncodeScalar(env.lib, spec.Root(), v);
    EncodeOfScalar(env, depth, spec, v);
    forall e: End ensures May(env, depth, spec, v, e) <==> e == if w.Some? then Good else Bad {
      MayOfScalar(env, depth, spec, v, e);
    }
    forall m ensures Gives(env, depth, spec, v, m) <==> w.Some? && m == MScalar(w.value) {
      GivesOfScalar(env, depth, spec, v, m);
    }
    if w.None? {
      ExactRefusal(env, depth, spec, v);
    } else {
      var c := FateOf(env, depth, spec, v);
      forall e: End ensures c.May(e) <==> May(env, depth, spec, v, e) { FateAt(env, depth, spec, v, c, e); }
      SameFate(c, Fate(true, false, false));
      ResultsAre(env, depth, spec, v);
      SameResults(ResultsOf(env, depth, spec, v), iset{Some(MScalar(w.value))});
    }
  }

  lemma ExactOfStruct(env: Env, depth: nat, spec: Spec, v: Dyn)
    requires depth > 0 && spec.Root().StructSpec?
    requires AsStrings(v).Some? ==> ExactStruct(env, depth - 1, env.Def(spec.Root().structName), AsStrings(v).value)
    ensures Exact(env, depth, spec, v)
  {
    hide Encode, EncodeStruct, May, MayStruct, Gives, GivesStruct, FateOf, StructFate, ResultsOf, StructResults,
         AsStrings, Tells;
    EncodeOfStruct(env, depth, spec, v);
    var def := env.Def(spec.Root().structName);
    if AsStrings(v).None? {
      forall e: End ensures May(env, depth, spec, v, e) <==> e == Bad { MayOfStruct(env, depth, spec, v, e); }
      forall m ensures !Gives(env, depth, spec, v, m) { GivesOfStruct(env, depth, spec, v, m); }
      ExactRefusal(env, depth, spec, v);
    } else {
      var request := AsStrings(v).value;
      var a, c := StructFate(env, depth - 1, def, request), FateOf(env, depth, spec, v);
      forall e: End ensures a.May(e) <==> c.May(e) {
        MayOfStruct(env, depth, spec, v, e);
        FateAt(env, depth, spec, v, c, e);
        StructFateAt(env, depth - 1, def, request, a, e);
      }
      SameFate(a, c);
      ResultsAre(env, depth, spec, v);
      StructResultsAre(env, depth - 1, def, request);
      forall m ensures Gives(env, depth, spec, v, m) <==> GivesStruct(env, depth - 1, def, request, m) {
        GivesOfStruct(env, depth, spec, v, m);
      }
      SameResults(ResultsOf(env, depth, spec, v), StructResults(env, depth - 1, def, request));
    }
  }

  lemma ExactOfList(env: Env, depth: nat, spec: Spec, v: Dyn)
    requires depth > 0 && (spec.Root().ListSpec? || spec.Root().SetSpec?)
    requires v.List? ==> ExactList(env, depth - 1, spec.Root().elem, v.items)
    ensures Exact(env, depth, spec, v)
  {
    hide Encode, EncodeList, May, MayList, Gives, GivesList, FateOf, ListFate, ResultsOf, ListResults, Tells, Image;
    var root := spec.Root();
    if !v.List? {
      NotAList(env, depth, spec, v);
      forall e: End ensures May(env, depth, spec, v, e) <==> e == Bad { MayOfList(env, depth, spec, v, e); }
      forall m ensures !Gives(env, depth, spec, v, m) { GivesOfList(env, depth, spec, v, m); }
      ExactRefusal(env, depth, spec, v);
    } else {
      EncodeOfList(env, depth, spec, v);
      var a, c := ListFate(env, depth - 1, root.elem, v.items), FateOf(env, depth, spec, v);
      forall e: End ensures a.May(e) <==> c.May(e) {
        MayOfList(env, depth, spec, v, e);
        FateAt(env, depth, spec, v, c, e);
        ListFateAt(env, depth - 1, root.elem, v.items, a, e);
      }
      SameFate(a, c);
      var p, r := ListResults(env, depth - 1, root.elem, v.items), ResultsOf(env, depth, spec, v);
      ListImage(env, depth, spec, v, p, r);
      AsListIsMapped(root.SetSpec?, root.elem, EncodeList(env, depth - 1, root.elem, v.items));
      TellsMap(EncodeList(env, depth - 1, root.elem, v.items), c, p, r, ListOf(root.SetSpec?, root.elem));
    }
  }

  function ListOf(isSet: bool, elem: Spec): seq<Meaning> -> Meaning { ms => ListMeaning(isSet, elem, ms) }

  function MapOf(ks: Spec, vs: Spec): Items -> Meaning { es => MapMeaning(ks, vs, es) }

  lemma AsListIsMapped(isSet: bool, elem: Spec, o: Outcome<seq<Meaning>>)
    ensures AsList(isSet, elem, o) == Mapped(o, ListOf(isSet, elem))
  {
  }

  lemma AsMapIsMapped(ks: Spec, vs: Spec, o: Outcome<Items>)
    ensures AsMap(ks, vs, o) == Mapped(o, MapOf(ks, vs))
  {
  }

  lemma ImageOf<A(!new), B(!new)>(p: Results<A>, r: Results<B>, fn: A -> B)
    requires None in r <==> None in p
    requires forall z :: Some(z) in r <==> exists x :: Some(x) in p && z == fn(x)
    requires forall x, y :: fn(x) == fn(y) ==> x == y
    ensures Image(p, r, fn)
  {
  }

  lemma ListImage(env: Env, depth: nat, spec: Spec, v: Dyn, p: Results<seq<Meaning>>, r: Results<Meaning>)
    requires depth > 0 && (spec.Root().ListSpec? || spec.Root().SetSpec?) && v.List?
    requires p == ListResults(env, depth - 1, spec.Root().elem, v.items) && r == ResultsOf(env, depth, spec, v)
    requires ListFate(env, depth - 1, spec.Root().elem, v.items) == FateOf(env, depth, spec, v)
    ensures Image(p, r, ListOf(spec.Root().SetSpec?, spec.Root().elem))
  {
    hide Gives, GivesList, FateOf, ListFate, ResultsOf, ListResults, Image;
    ListResultsAre(env, depth - 1, spec.Root().elem, v.items);
    ResultsAre(env, depth, spec, v);
    forall z
      ensures Some(z) in r <==> exists ms :: Some(ms) in p && z == ListOf(spec.Root().SetSpec?, spec.Root().elem)(ms)
    {
      GivesOfList(env, depth, spec, v, z);
    }
    ImageOf(p, r, ListOf(spec.Root().SetSpec?, spec.Root().elem));
  }

  lemma EntriesImage(env: Env, depth: nat, spec: Spec, v: Dyn, p: Results<Items>, r: Results<Meaning>)
    requires depth > 0 && spec.Root().MapSpec? && AsEntries(v).Some?
    requires p == EntriesResults(env, depth - 1, spec.Root().key, spec.Root().value, AsEntries(v).value)
    requires r == ResultsOf(env, depth, spec, v)
    requires FateOf(env, depth, spec, v) ==
             EntriesFate(env, depth - 1, spec.Root().key, spec.Root().value, AsEntries(v).value)
    ensures Image(p, r, MapOf(spec.Root().key, spec.Root().value))
  {
    hide Gives, GivesEntries, FateOf, EntriesFate, ResultsOf, EntriesResults, Image, AsEntries;
    EntriesResultsAre(env, depth - 1, spec.Root().key, spec.Root().value, AsEntries(v).value);
    ResultsAre(env, depth, spec, v);
    forall z
      ensures Some(z) in r <==> exists es :: Some(es) in p && z == MapOf(spec.Root().key, spec.Root().value)(es)
    {
      GivesOfMap(env, depth, spec, v, z);
    }
    ImageOf(p, r, MapOf(spec.Root().key, spec.Root().value));
  }

  lemma ExactOfMap(env: Env, depth: nat, spec: Spec, v: Dyn)
    requires depth > 0 && spec.Root().MapSpec?
    requires AsEntries(v).Some? ==>
               ExactEntries(env, depth - 1, spec.Root().key, spec.Root().value, AsEntries(v).value)
    ensures Exact(env, depth, spec, v)
  {
    hide Encode, EncodeEntries, May, MayEntries, Gives, GivesEntries, FateOf, EntriesFate, ResultsOf, EntriesResults,
         Tells, Image, AsEntries;
    var ks, vs := spec.Root().key, spec.Root().value;
    EncodeOfMap(env, depth, spec, v);
    if AsEntries(v).None? {
      forall e: End ensures May(env, depth, spec, v, e) <==> e == Bad { MayOfMap(env, depth, spec, v, e); }
      forall m ensures !Gives(env, depth, spec, v, m) { GivesOfMap(env, depth, spec, v, m); }
      ExactRefusal(env, depth, spec, v);
    } else {
      var es := AsEntries(v).value;
      var a, c := EntriesFate(env, depth - 1, ks, vs, es), FateOf(env, depth, spec, v);
      forall e: End ensures a.May(e) <==> c.May(e) {
        MayOfMap(env, depth, spec, v, e);
        FateAt(env, depth, spec, v, c, e);
        EntriesFateAt(env, depth - 1, ks, vs, es, a, e);
      }
      SameFate(a, c);
      var p, r := EntriesResults(env, depth - 1, ks, vs, es), ResultsOf(env, depth, spec, v);
      EntriesImage(env, depth, spec, v, p, r);
      AsMapIsMapped(ks, vs, EncodeEntries(env, depth - 1, ks, vs, es));
      TellsMap(EncodeEntries(env, depth - 1, ks, vs, es), c, p, r, MapOf(ks, vs));
    }
  }

  // ---- Any depth

  lemma {:induction false} ExactAlways(env: Env, depth: nat, spec: Spec, v: Dyn)
    ensures Exact(env, depth, spec, v)
    decreases depth, 0
  {
    hide Exact, ExactStruct, ExactList, ExactEntries, AsStrings, AsEntries;
    var root := spec.Root();
    if depth == 0 {
      ExactAtZero(env, spec, v);
    } else if root.StructSpec? {
      if AsStrings(v).Some? { StructAlways(env, depth - 1, env.Def(root.structName), AsStrings(v).value); }
      ExactOfStruct(env, depth, spec, v);
    } else if root.ListSpec? || root.SetSpec? {
      if v.List? {
        assert v.items[..|v.items|] == v.items;
        ItemsAlways(env, depth - 1, root.elem, v.items, |v.items|);
      }
      ExactOfList(env, depth, spec, v);
    } else if root.MapSpec? {
      if AsEntries(v).Some? { EntriesAlways(env, depth - 1, root.key, root.value, AsEntries(v).value); }
      ExactOfMap(env, depth, spec, v);
    } else {
      ExactScalar(env, depth, spec, v);
    }
  }

  lemma {:induction false} ItemsAlways(env: Env, depth: nat, elem: Spec, vs: seq<Dyn>, k: nat)
    requires k <= |vs|
    ensures ExactList(env, depth, elem, vs[..k])
    decreases depth, 1, k
  {
    hide Exact, ExactList;
    if k == 0 {
      ExactNoItems(env, depth, elem);
    } else {
      assert vs[..k - 1] + [vs[k - 1]] == vs[..k];
      ItemsAlways(env, depth, elem, vs, k - 1);
      ExactAlways(env, depth, elem, vs[k - 1]);
      ExactListStep(env, depth, elem, vs[..k - 1], vs[k - 1]);
    }
  }

  lemma {:induction false} EntriesAlways(env: Env, depth: nat, ks: Spec, vs: Spec, m: map<Key, Dyn>)
    ensures ExactEntries(env, depth, ks, vs, m)
    decreases depth, 1, |m|
  {
    hide Exact, ExactEntry, ExactEntries, ConvertMapKey;
    if m == map[] {
      ExactNoEntries(env, depth, ks, vs);
    } else {
      var k := Pick(m);
      EntriesAlways(env, depth, ks, vs, m - {k});
      if m[k].Nil? {
        ExactNil(env, depth, ks, vs, k);
      } else {
        var key := ConvertMapKey(env.lib, ks, k);
        ExactAlways(env, depth, ks, key);
        ExactAlways(env, depth, vs, m[k]);
        ExactEntryOf(env, depth, ks, vs, k, m[k], key);
      }
      ExactEntriesStep(env, depth, ks, vs, m, k, m - {k});
    }
  }

  lemma {:induction false} StructAlways(env: Env, depth: nat, def: StructDef, request: map<string, Dyn>)
    ensures ExactStruct(env, depth, def, request)
    decreases depth, 2
  {
    hide ExactFields, ExactGroup, ExactStruct, Collected, WithDefaults, Given;
    var g := def.fields;
    if Accepted(g, request) {
      forall given | Collected(g, request, given)
        ensures WithDefaults(g, given).Some? && ExactFields(env, depth, g, SetFields(g, given))
      {
        AcceptedAny(g, request, given);
        assert g[..|g|] == g;
        FieldsAlways(env, depth, g, SetFields(g, given), |g|);
      }
      assert EachExact(env, depth, g, request);
      ExactGroupOf(env, depth, g, request);
    }
    ExactStructOf(env, depth, def, request);
  }

  lemma {:induction false} FieldsAlways(env: Env, depth: nat, g: seq<FieldSpec>, uf: map<string, Dyn>, k: nat)
    requires DistinctFields(g) && k <= |g|
    ensures ExactFields(env, depth, g[..k], uf)
    decreases depth, 1, k
  {
    hide Exact, ExactFields;
    if k == 0 {
      ExactNoFields(env, depth, uf);
    } else {
      var pre, f := g[..k - 1], g[k - 1];
      assert pre + [f] == g[..k];
      FieldsAlways(env, depth, g, uf, k - 1);
      if f.name in uf { ExactAlways(env, depth, f.ty, uf[f.name]); }
      ExactFieldsStep(env, depth, pre, f, uf);
    }
  }

  /** Some run returns a value, and another run does not return the same. */
  ghost predicate RunsDiffer(env: Env, depth: nat, spec: Spec, v: Dyn) {
    exists m ::
      && Gives(env, depth, spec, v, m)
      && (May(env, depth, spec, v, Bad) || May(env, depth, spec, v, Out)
          || exists n :: n != m && Gives(env, depth, spec, v, n))
  }

  /** Every run returns a value of this meaning. */
  ghost predicate RunsAgree(env: Env, depth: nat, spec: Spec, v: Dyn, m: Meaning) {
    && Gives(env, depth, spec, v, m) && (forall n :: Gives(env, depth, spec, v, n) ==> n == m)
    && !May(env, depth, spec, v, Bad) && !May(env, depth, spec, v, Out)
  }

  lemma ResultsAgree<T(!new)>(o: Outcome<T>, rs: Results<T>, m: T)
    requires Sums(o, rs)
    ensures o == Done(m) <==> Some(m) in rs && None !in rs && forall n :: Some(n) in rs ==> n == m
  {
    if Some(m) in rs && None !in rs && forall n :: Some(n) in rs ==> n == m { SameResults(rs, iset{Some(m)}); }
  }

  lemma NoneMeans(env: Env, depth: nat, spec: Spec, v: Dyn)
    ensures None in ResultsOf(env, depth, spec, v) <==> May(env, depth, spec, v, Bad) || May(env, depth, spec, v, Out)
  {
    hide May, Gives, FateOf, ResultsOf;
    ResultsAre(env, depth, spec, v);
    var c := FateOf(env, depth, spec, v);
    FateAt(env, depth, spec, v, c, Bad);
    FateAt(env, depth, spec, v, c, Out);
  }

  /** The outcome is open exactly when two runs differ, one of which returns a value. */
  lemma AmbiguousIffRunsDiffer(env: Env, depth: nat, spec: Spec, v: Dyn)
    ensures Encode(env, depth, spec, v).Ambiguous? <==> RunsDiffer(env, depth, spec, v)
  {
    hide Encode, May, Gives, FateOf, ResultsOf, Sums, RunsDiffer;
    ExactAlways(env, depth, spec, v);
    var o, rs := Encode(env, depth, spec, v), ResultsOf(env, depth, spec, v);
    if o.Ambiguous? {
      OpenMeansDiffer(env, depth, spec, v, rs);
    }
    if RunsDiffer(env, depth, spec, v) {
      DifferMeansOpen(env, depth, spec, v, o, rs);
    }
  }

  lemma OpenMeansDiffer(env: Env, depth: nat, spec: Spec, v: Dyn, rs: Results<Meaning>)
    requires rs == ResultsOf(env, depth, spec, v) && Sums<Meaning>(Ambiguous, rs)
    ensures RunsDiffer(env, depth, spec, v)
  {
    hide May, Gives, ResultsOf;
    var a, b :| Some(a) in rs && b in rs && b != Some(a);
    ResultGives(env, depth, spec, v, a);
    if b.Some? {
      assert b == Some(b.value);
      ResultGives(env, depth, spec, v, b.value);
    } else {
      NoneMeans(env, depth, spec, v);
    }
  }

  lemma DifferMeansOpen(env: Env, depth: nat, spec: Spec, v: Dyn, o: Outcome<Meaning>, rs: Results<Meaning>)
    requires rs == ResultsOf(env, depth, spec, v) && Sums(o, rs) && RunsDiffer(env, depth, spec, v)
    ensures o.Ambiguous?
  {
    hide May, Gives, ResultsOf;
    NoneMeans(env, depth, spec, v);
    var m :| Gives(env, depth, spec, v, m) && (None in rs || exists n :: n != m && Gives(env, depth, spec, v, n));
    IsResult(env, depth, spec, v, m);
    if None !in rs {
      var n :| n != m && Gives(env, depth, spec, v, n);
      IsResult(env, depth, spec, v, n);
    }
  }

  /** It is a value exactly when every run returns that value. */
  lemma DoneIffRunsAgree(env: Env, depth: nat, spec: Spec, v: Dyn, m: Meaning)
    ensures Encode(env, depth, spec, v) == Done(m) <==> RunsAgree(env, depth, spec, v, m)
  {
    hide Encode, May, Gives, FateOf, ResultsOf, Sums, RunsAgree;
    ExactAlways(env, depth, spec, v);
    var o, rs := Encode(env, depth, spec, v), ResultsOf(env, depth, spec, v);
    ResultsAgree(o, rs, m);
    if o == Done(m) { OneResult(env, depth, spec, v, m, rs); }
    if RunsAgree(env, depth, spec, v, m) { AgreedResult(env, depth, spec, v, m, rs); }
  }

  lemma OneResult(env: Env, depth: nat, spec: Spec, v: Dyn, m: Meaning, rs: Results<Meaning>)
    requires rs == ResultsOf(env, depth, spec, v)
    requires Some(m) in rs && None !in rs && forall n :: Some(n) in rs ==> n == m
    ensures RunsAgree(env, depth, spec, v, m)
  {
    hide May, Gives, ResultsOf;
    NoneMeans(env, depth, spec, v);
    ResultGives(env, depth, spec, v, m);
    forall n | Gives(env, depth, spec, v, n) ensures n == m { IsResult(env, depth, spec, v, n); }
  }

  lemma AgreedResult(env: Env, depth: nat, spec: Spec, v: Dyn, m: Meaning, rs: Results<Meaning>)
    requires rs == ResultsOf(env, depth, spec, v) && RunsAgree(env, depth, spec, v, m)
    ensures Some(m) in rs && None !in rs && forall n :: Some(n) in rs ==> n == m
  {
    hide May, Gives, ResultsOf;
    NoneMeans(env, depth, spec, v);
    IsResult(env, depth, spec, v, m);
    forall n | Some(n) in rs ensures n == m { ResultGives(env, depth, spec, v, n); }
  }

  /** And there is no value exactly when no run returns one. */
  lemma BarredIffNoRunReturns(env: Env, depth: nat, spec: Spec, v: Dyn)
    ensures Encode(env, depth, spec, v).Barred() <==> !May(env, depth, spec, v, Good)
    ensures Encode(env, depth, spec, v).Barred() <==> forall m :: !Gives(env, depth, spec, v, m)
  {
    hide Encode, May, Gives, FateOf, ResultsOf, Sums;
    ExactAlways(env, depth, spec, v);
    ResultsAre(env, depth, spec, v);
    FateAt(env, depth, spec, v, FateOf(env, depth, spec, v), Good);
    var o, rs := Encode(env, depth, spec, v), ResultsOf(env, depth, spec, v);
    Live(o, rs);
    if o.Barred() {
      forall m ensures !Gives(env, depth, spec, v, m) { assert Some(m) !in rs; }
    } else {
      var m :| Some(m) in rs;
      assert Gives(env, depth, spec, v, m);
    }
  }
}

/** templateargs/process.go: interpolation lifted over a YAML document. */
module Process {
  // Go visits a map in any order; when two keys are replaced by the same key, any of their values may
  // remain.

  import opened Option
  import opened Values
  import opened Interpolate

  function Resolver(args: map<string, string>): string -> Option<string> {
    name => if name in args then Some(args[name]) else None
  }

  /** strconv.ParseBool succeeds. */
  predicate StrictBool(s: string) {
    s in {"1", "t", "T", "TRUE", "true", "True", "0", "f", "F", "FALSE", "false", "False"}
  }

  /** What a string whose references have been replaced stands for. */
  function Reinterpret(yaml: string -> Option<Dyn>, v: string, rendered: string): Option<Dyn> {
    if rendered == "" then Some(Str(""))
    else if rendered == v then Some(Str(v))
    else
      match yaml(rendered)
      case None => None
      case Some(d) => if d.Bool? && !StrictBool(rendered) then Some(Str(rendered)) else Some(d)
  }

  function StringOf(yaml: string -> Option<Dyn>, args: map<string, string>, v: string): Option<Dyn> {
    var (ps, ok) := Scan(v, []);
    if !ok then None
    else
      match RenderOf(Threaded(ps), Resolver(args))
      case None => None
      case Some(s) => Reinterpret(yaml, v, s)
  }

  method ProcessString(yaml: string -> Option<Dyn>, args: map<string, string>, v: string) returns (r: Option<Dyn>)
    ensures r == StringOf(yaml, args, v)
  {
    hide Scan, Threaded, RenderOf;
    var terms, ok := Parse(v);
    if !ok { return None; }
    var rendered := Render(terms, Resolver(args));
    if rendered.None? { return None; }
    return Reinterpret(yaml, v, rendered.value);
  }

  // ---- What a string becomes

  function Capital(c: char): char { if 'a' <= c <= 'z' then c - 'a' + 'A' else c }

  function Capitals(w: string): string { seq(|w|, i requires 0 <= i < |w| => Capital(w[i])) }

  /** In small letters, in capitals, or with one capital. */
  predicate Spells(s: string, w: string)
    requires w != ""
  {
    s == w || s == Capitals(w) || s == [Capital(w[0])] + w[1..]
  }

  /** How Go spells a boolean. */
  predicate GoBoolean(s: string) {
    s in {"0", "1"} || Spells(s, "t") || Spells(s, "true") || Spells(s, "f") || Spells(s, "false")
  }

  lemma GoBooleans(s: string)
    ensures StrictBool(s) <==> GoBoolean(s)
  {
    assert Capitals("t") == "T" && Capitals("f") == "F" && Capitals("true") == "TRUE" && Capitals("false") == "FALSE";
    assert "t"[1..] == "" && "f"[1..] == "" && "true"[1..] == "rue" && "false"[1..] == "alse";
    assert ['T'] + "" == "T" && ['F'] + "" == "F" && ['T'] + "rue" == "True" && ['F'] + "alse" == "False";
  }

  /** What a string v with this reading becomes: nothing if a variable has no value; itself if that is what
      it renders to; or else what YAML makes of the text, but for booleans that Go would not call so. */
  ghost predicate Substituted(yaml: string -> Option<Dyn>, args: map<string, string>, v: string, ps: seq<Piece>,
                              r: Option<Dyn>)
  {
    if !AllKnown(ps, Resolver(args)) then r == None
    else exists text :: RendersTo(ps, Resolver(args), text) && Reread(yaml, v, text, r)
  }

  predicate Reread(yaml: string -> Option<Dyn>, v: string, text: string, r: Option<Dyn>) {
    if text == "" || text == v then r == Some(Str(text))
    else if yaml(text).None? then r == None
    else if yaml(text).value.Bool? && !GoBoolean(text) then r == Some(Str(text))
    else r == yaml(text)
  }

  /** From the reading of a string to what it becomes; a string without a reading is refused. */
  lemma StringBecomes(yaml: string -> Option<Dyn>, args: map<string, string>, v: string)
    ensures forall ps :: Reads(v, ps) ==> Substituted(yaml, args, v, ps, StringOf(yaml, args, v))
    ensures (forall ps :: !Reads(v, ps)) ==> StringOf(yaml, args, v) == None
  {
    hide Scan, Threaded, RenderOf, Reads, AllKnown, RendersTo, GoBoolean;
    var (read, ok) := Scan(v, []);
    AcceptsTheLanguage(v, Threaded(read), ok);
    forall ps | Reads(v, ps) ensures Substituted(yaml, args, v, ps, StringOf(yaml, args, v)) {
      RenderedReading(v, Threaded(read), ok, ps, Resolver(args));
      if RenderOf(Threaded(read), Resolver(args)).Some? {
        GoBooleans(RenderOf(Threaded(read), Resolver(args)).value);
      }
    }
  }

  /** A reference on its own becomes what YAML makes of the argument: with n given as 5, "${n}" becomes a
      number. */
  lemma ReferenceBecomes(yaml: string -> Option<Dyn>, args: map<string, string>, p: Piece)
    requires p.Reference? && ValidPiece(p)
    ensures var v := PieceText(p);
            if p.name in args then Reread(yaml, v, args[p.name], StringOf(yaml, args, v))
            else if p.colon then Reread(yaml, v, p.default, StringOf(yaml, args, v))
            else StringOf(yaml, args, v) == None
  {
    hide Scan, Threaded, RenderOf, GoBoolean, PieceText, ValidPiece;
    var (read, ok) := Scan(PieceText(p), []);
    ReferenceAlone(p, Threaded(read), ok, Resolver(args));
    if RenderOf(Threaded(read), Resolver(args)).Some? {
      GoBooleans(RenderOf(Threaded(read), Resolver(args)).value);
    }
  }

  /** The key that replaces k; None if processing it fails, or panics on an unhashable result. */
  function NewKey(yaml: string -> Option<Dyn>, args: map<string, string>, k: Key): Option<Key> {
    if k.KStr? then
      match StringOf(yaml, args, k.s)
      case None => None
      case Some(v) => HashKey(v)
    else Some(k)
  }

  /** The value r is a possible result of processing v. */
  ghost predicate Replaces(yaml: string -> Option<Dyn>, args: map<string, string>, v: Dyn, r: Dyn)
    decreases v
  {
    match v
    case Str(s) => StringOf(yaml, args, s) == Some(r)
    case List(vs) => r.List? && |r.items| == |vs| && forall i | 0 <= i < |vs| :: Replaces(yaml, args, vs[i], r.items[i])
    case AnyMap(m) =>
      && r.AnyMap?
      && (forall k | k in m :: NewKey(yaml, args, k).Some? && NewKey(yaml, args, k).value in r.entries)
      && (forall k' | k' in r.entries ::
            exists k :: k in m && NewKey(yaml, args, k) == Some(k') && Replaces(yaml, args, m[k], r.entries[k']))
      && (forall k | k in m :: !Fails(yaml, args, m[k]))
    case _ => r == v
  }

  /** Some part of v cannot be processed. */
  ghost predicate Fails(yaml: string -> Option<Dyn>, args: map<string, string>, v: Dyn)
    decreases v
  {
    match v
    case Str(s) => StringOf(yaml, args, s).None?
    case List(vs) => exists i :: 0 <= i < |vs| && Fails(yaml, args, vs[i])
    case AnyMap(m) => exists k :: k in m && (NewKey(yaml, args, k).None? || Fails(yaml, args, m[k]))
    case _ => false
  }

  method ProcessValue(yaml: string -> Option<Dyn>, args: map<string, string>, v: Dyn) returns (r: Option<Dyn>)
    ensures r.Some? ==> Replaces(yaml, args, v, r.value) && !Fails(yaml, args, v)
    ensures r.None? ==> Fails(yaml, args, v)
    decreases v, 1
  {
    hide StringOf, NewKey;
    match v
    case Str(s) => r := ProcessString(yaml, args, s);
    case AnyMap(m) => r := ProcessMap(yaml, args, v);
    case List(vs) => r := ProcessList(yaml, args, v);
    case _ => return Some(v);
  }

  method ProcessList(yaml: string -> Option<Dyn>, args: map<string, string>, l: Dyn) returns (r: Option<Dyn>)
    requires l.List?
    ensures r.Some? ==> Replaces(yaml, args, l, r.value) && !Fails(yaml, args, l)
    ensures r.None? ==> Fails(yaml, args, l)
    decreases l, 0
  {
    hide StringOf, NewKey;
    var vs := l.items;
    var replacement: seq<Dyn> := [];
    for i := 0 to |vs|
      invariant |replacement| == i
      invariant forall j | 0 <= j < i :: Replaces(yaml, args, vs[j], replacement[j]) && !Fails(yaml, args, vs[j])
    {
      var v := ProcessValue(yaml, args, vs[i]);
      if v.None? { return None; }
      replacement := replacement + [v.value];
    }
    return Some(List(replacement));
  }

  /** What the loop has put into the replacement once the keys in done are processed. */
  ghost predicate Partly(yaml: string -> Option<Dyn>, args: map<string, string>, m: map<Key, Dyn>, done: set<Key>,
                         r: map<Key, Dyn>)
  {
    && done <= m.Keys
    && (forall k | k in done ::
         NewKey(yaml, args, k).Some? && NewKey(yaml, args, k).value in r && !Fails(yaml, args, m[k]))
    && (forall k' | k' in r ::
         exists k :: k in done && NewKey(yaml, args, k) == Some(k') && Replaces(yaml, args, m[k], r[k']))
  }

  lemma PartlyStep(yaml: string -> Option<Dyn>, args: map<string, string>, m: map<Key, Dyn>, done: set<Key>,
                   r: map<Key, Dyn>, k: Key, k': Key, v: Dyn)
    requires Partly(yaml, args, m, done, r) && k in m
    requires NewKey(yaml, args, k) == Some(k') && Replaces(yaml, args, m[k], v) && !Fails(yaml, args, m[k])
    ensures Partly(yaml, args, m, done + {k}, r[k' := v])
  {
    hide NewKey, Replaces, Fails;
    var r', done' := r[k' := v], done + {k};
    forall x | x in r'
      ensures exists j :: j in done' && NewKey(yaml, args, j) == Some(x) && Replaces(yaml, args, m[j], r'[x])
    {
      if x == k' {
        assert k in done';
      } else {
        var j :| j in done && NewKey(yaml, args, j) == Some(x) && Replaces(yaml, args, m[j], r[x]);
        assert j in done';
      }
    }
  }

  method ProcessMap(yaml: string -> Option<Dyn>, args: map<string, string>, req: Dyn) returns (r: Option<Dyn>)
    requires req.AnyMap?
    ensures r.Some? ==> Replaces(yaml, args, req, r.value) && !Fails(yaml, args, req)
    ensures r.None? ==> Fails(yaml, args, req)
    decreases req, 0
  {
    hide StringOf, NewKey;
    var m := req.entries;
    var replacement: map<Key, Dyn> := map[];
    var left := m.Keys;
    while left != {}
      invariant left <= m.Keys && Partly(yaml, args, m, m.Keys - left, replacement)
      decreases left
    {
      hide Partly;
      var k :| k in left;
      var newK := ProcessKey(yaml, args, k);
      if newK.None? { return None; }
      var newV := ProcessValue(yaml, args, m[k]);
      if newV.None? { return None; }
      PartlyStep(yaml, args, m, m.Keys - left, replacement, k, newK.value, newV.value);
      assert m.Keys - (left - {k}) == m.Keys - left + {k};
      replacement := replacement[newK.value := newV.value];
      left := left - {k};
    }
    assert m.Keys - left == m.Keys;
    return Some(AnyMap(replacement));
  }

  method ProcessKey(yaml: string -> Option<Dyn>, args: map<string, string>, k: Key) returns (r: Option<Key>)
    ensures r == NewKey(yaml, args, k)
  {
    hide StringOf;
    if !k.KStr? { return Some(k); }
    var v := ProcessString(yaml, args, k.s);
    return match v case None => None case Some(d) => HashKey(d);
  }

  /** No string of the document, keys included, contains '$' or '\'. */
  ghost predicate PlainTree(v: Dyn)
    decreases v
  {
    match v
    case Str(s) => Ordinary(s)
    case List(vs) => forall i | 0 <= i < |vs| :: PlainTree(vs[i])
    case AnyMap(m) => (forall k | k in m :: k.KStr? ==> Ordinary(k.s)) && forall k | k in m :: PlainTree(m[k])
    case _ => true
  }

  lemma PlainString(yaml: string -> Option<Dyn>, args: map<string, string>, s: string)
    requires Ordinary(s)
    ensures StringOf(yaml, args, s) == Some(Str(s))
  {
    hide Scan, Threaded, RenderOf;
    var (ps, ok) := Scan(s, []);
    OrdinaryRendersItself(s, Threaded(ps), ok, Resolver(args));
  }

  /** Processing a document without '$' and '\' succeeds and changes nothing, whatever the
      arguments, the YAML library and the order of visits. */
  lemma {:induction false} PlainTreeUnchanged(yaml: string -> Option<Dyn>, args: map<string, string>, v: Dyn)
    requires PlainTree(v)
    ensures !Fails(yaml, args, v)
    ensures forall r :: Replaces(yaml, args, v, r) <==> r == v
    decreases v
  {
    hide StringOf;
    match v
    case Str(s) => PlainString(yaml, args, s);
    case List(vs) =>
      forall i | 0 <= i < |vs|
        ensures !Fails(yaml, args, vs[i]) && forall r :: Replaces(yaml, args, vs[i], r) <==> r == vs[i]
      {
        PlainTreeUnchanged(yaml, args, vs[i]);
      }
      forall r | Replaces(yaml, args, v, r) ensures r == v {
        forall i | 0 <= i < |vs| ensures r.items[i] == vs[i] { assert Replaces(yaml, args, vs[i], r.items[i]); }
        assert r.items == vs;
      }
      assert forall i | 0 <= i < |vs| :: Replaces(yaml, args, vs[i], vs[i]);
    case AnyMap(m) =>
      forall k | k in m
        ensures NewKey(yaml, args, k) == Some(k) && !Fails(yaml, args, m[k])
        ensures forall r :: Replaces(yaml, args, m[k], r) <==> r == m[k]
      {
        if k.KStr? { PlainString(yaml, args, k.s); }
        PlainTreeUnchanged(yaml, args, m[k]);
      }
      PlainMap(yaml, args, v);
    case _ =>
  }

  lemma PlainMap(yaml: string -> Option<Dyn>, args: map<string, string>, v: Dyn)
    requires v.AnyMap?
    requires forall k | k in v.entries :: NewKey(yaml, args, k) == Some(k) && !Fails(yaml, args, v.entries[k])
    requires forall k | k in v.entries :: forall r :: Replaces(yaml, args, v.entries[k], r) <==> r == v.entries[k]
    ensures forall r :: Replaces(yaml, args, v, r) <==> r == v
  {
    hide NewKey, Fails;
    var m := v.entries;
    forall r ensures Replaces(yaml, args, v, r) <==> r == v {
      if Replaces(yaml, args, v, r) {
        forall k | k in m ensures k in r.entries && r.entries[k] == m[k] {
          assert NewKey(yaml, args, k).value == k;
          var j :| j in m && NewKey(yaml, args, j) == Some(k) && Replaces(yaml, args, m[j], r.entries[k]);
        }
        assert r.entries == m;
      }
      if r == v {
        forall k | k in m
          ensures exists j :: j in m && NewKey(yaml, args, j) == Some(k) && Replaces(yaml, args, m[j], m[k])
        {
          assert NewKey(yaml, args, k) == Some(k) && Replaces(yaml, args, m[k], m[k]);
        }
      }
    }
  }

  lemma ExampleString(yaml: string -> Option<Dyn>, args: map<string, string>, name: string)
    requires IsName(name) && name in args && args[name] != "" && args[name] != "${" + name + "}"
    requires yaml(args[name]).Some? && !yaml(args[name]).value.Bool?
    ensures StringOf(yaml, args, "${" + name + "}") == yaml(args[name])
  {
    hide StringOf, IsName;
    var p := Reference(name, false, "");
    TextShort(name);
    assert "${" + (name + "}") == "${" + name + "}";
    NoText();
    ReferenceBecomes(yaml, args, p);
  }

  /** With k given as name and n as 5, {"${k}": ["${n}", nil]} becomes {"name": [5, nil]}, and nothing else:
      keys are replaced as values are, at any depth, and what is no string stays. */
  lemma DocumentExample(yaml: string -> Option<Dyn>, args: map<string, string>, r: Dyn)
    requires args == map["k" := "name", "n" := "5"]
    requires yaml("name") == Some(Str("name")) && yaml("5") == Some(Int(GoInt, 5))
    ensures var v := AnyMap(map[KStr("${k}") := List([Str("${n}"), Nil])]);
            Replaces(yaml, args, v, r) <==> r == AnyMap(map[KStr("name") := List([Int(GoInt, 5), Nil])])
  {
    hide StringOf, Replaces, Fails;
    assert "${" + "k" + "}" == "${k}" && "${" + "n" + "}" == "${n}" && "name"[0] != "${k}"[0];
    ExampleString(yaml, args, "k");
    ExampleString(yaml, args, "n");
    StringReplaced(yaml, args, "${n}", Int(GoInt, 5));
    var l, l' := List([Str("${n}"), Nil]), List([Int(GoInt, 5), Nil]);
    ExampleList(yaml, args, Str("${n}"), Int(GoInt, 5), l, l');
    ExampleMap(yaml, args, KStr("${k}"), KStr("name"), l, l', r);
  }

  lemma StringReplaced(yaml: string -> Option<Dyn>, args: map<string, string>, s: string, d: Dyn)
    requires StringOf(yaml, args, s) == Some(d)
    ensures (forall r :: Replaces(yaml, args, Str(s), r) <==> r == d) && !Fails(yaml, args, Str(s))
  {
    hide StringOf;
  }

  lemma ListReplaced(yaml: string -> Option<Dyn>, args: map<string, string>, vs: seq<Dyn>, r: Dyn)
    ensures Replaces(yaml, args, List(vs), r) <==>
            r.List? && |r.items| == |vs| && forall i | 0 <= i < |vs| :: Replaces(yaml, args, vs[i], r.items[i])
    ensures Fails(yaml, args, List(vs)) <==> exists i :: 0 <= i < |vs| && Fails(yaml, args, vs[i])
  {
    hide StringOf, NewKey;
  }

  lemma NilStays(yaml: string -> Option<Dyn>, args: map<string, string>)
    ensures (forall r :: Replaces(yaml, args, Nil, r) <==> r == Nil) && !Fails(yaml, args, Nil)
  {
  }

  lemma ExampleList(yaml: string -> Option<Dyn>, args: map<string, string>, x: Dyn, x': Dyn, l: Dyn, l': Dyn)
    requires l == List([x, Nil]) && l' == List([x', Nil])
    requires (forall r :: Replaces(yaml, args, x, r) <==> r == x') && !Fails(yaml, args, x)
    ensures (forall r :: Replaces(yaml, args, l, r) <==> r == l') && !Fails(yaml, args, l)
  {
    hide Replaces, Fails;
    NilStays(yaml, args);
    assert l.items[0] == x && l.items[1] == Nil;
    forall r ensures Replaces(yaml, args, l, r) <==> r == l' {
      ListReplaced(yaml, args, l.items, r);
      if Replaces(yaml, args, l, r) { assert r.items == [r.items[0], r.items[1]]; }
    }
    ListReplaced(yaml, args, l.items, l');
  }

  lemma ExampleMap(yaml: string -> Option<Dyn>, args: map<string, string>, k: Key, k': Key, x: Dyn, x': Dyn, r: Dyn)
    requires NewKey(yaml, args, k) == Some(k')
    requires (forall r :: Replaces(yaml, args, x, r) <==> r == x') && !Fails(yaml, args, x)
    ensures Replaces(yaml, args, AnyMap(map[k := x]), r) <==> r == AnyMap(map[k' := x'])
  {
    hide NewKey, Fails;
    var m := map[k := x];
    if Replaces(yaml, args, AnyMap(m), r) {
      assert k in m && k' in r.entries;
      forall j | j in r.entries ensures j == k' && r.entries[j] == x' {
        var i :| i in m && NewKey(yaml, args, i) == Some(j) && Replaces(yaml, args, m[i], r.entries[j]);
      }
      assert r.entries == map[k' := x'];
    }
    if r == AnyMap(map[k' := x']) {
      assert k in m && Replaces(yaml, args, m[k], x');
    }
  }
}

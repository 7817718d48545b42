/** templateargs/interpolate: the grammar of interpolated strings, the generated state machine that
    parses them, and rendering. The machine is shown to accept the grammar and to return the terms of
    the one reading a string has, but for the defaults that leak from one reference into the next. A char
    stands for one byte. */
module Interpolate {

  import opened Option

  datatype Variable = Variable(name: string, default: string, hasDefault: bool)

  datatype Term = Literal(text: string) | Var(v: Variable)

  // ---- The grammar

  /** One term as written: a run of ordinary characters, '$' and a character, '\' and a character,
      or a reference ${name} or ${name:default}. */
  datatype Piece =
    | Simple(text: string)
    | Dollar(c: char)
    | Escaped(c: char)
    | Reference(name: string, colon: bool, default: string)

  predicate Special(c: char) { c == '$' || c == '\\' }
  predicate IsStart(c: char) { 'a' <= c <= 'z' || 'A' <= c <= 'Z' || c == '_' }
  predicate IsWord(c: char) { IsStart(c) || '0' <= c <= '9' }
  predicate IsSeparator(c: char) { c == '.' || c == '-' }

  /** A letter or underscore, then word characters, each possibly preceded by one '.' or '-'. */
  predicate IsName(s: string) {
    && s != "" && IsStart(s[0])
    && forall i | 1 <= i < |s| :: IsWord(s[i]) || (IsSeparator(s[i]) && i + 1 < |s| && IsWord(s[i + 1]))
  }

  predicate Ordinary(s: string) { forall i | 0 <= i < |s| :: !Special(s[i]) }

  /** The length of the longest prefix of ordinary characters. */
  function Run(s: string): (n: nat)
    ensures n <= |s| && Ordinary(s[..n]) && (n < |s| ==> Special(s[n]))
  {
    if s == "" || Special(s[0]) then 0 else 1 + Run(s[1..])
  }

  predicate Free(s: string, stops: string) { forall i | 0 <= i < |s| :: s[i] !in stops }

  /** The index of the first character among stops, or the length. */
  function Find(s: string, stops: string): (n: nat)
    ensures n <= |s| && Free(s[..n], stops) && (n < |s| ==> s[n] in stops)
  {
    if s == "" || s[0] in stops then 0 else 1 + Find(s[1..], stops)
  }

  /** A reference, given the text after "${", and how much of it was used. */
  function ScanReference(r: string): (p: Option<(Piece, nat)>)
    ensures p.Some? ==> p.value.1 <= |r|
  {
    var e := Find(r, ":}");
    if e == |r| || !IsName(r[..e]) then None
    else if r[e] == '}' then Some((Reference(r[..e], false, ""), e + 1))
    else
      var d := Find(r[e + 1..], "}");
      if e + 1 + d == |r| then None
      else Some((Reference(r[..e], true, r[e + 1..e + 1 + d]), e + d + 2))
  }

  /** The pieces of a string after those already read, and whether all of it is well formed. */
  function Scan(s: string, read: seq<Piece>): (r: (seq<Piece>, bool))
    decreases |s|
  {
    if s == "" then (read, true)
    else if s[0] == '\\' then
      if |s| == 1 then (read, false) else Scan(s[2..], read + [Escaped(s[1])])
    else if s[0] == '$' then
      if |s| == 1 then (read, false)
      else if s[1] != '{' then Scan(s[2..], read + [Dollar(s[1])])
      else
        match ScanReference(s[2..])
        case None => (read, false)
        case Some(r) => Scan(s[2 + r.1..], read + [r.0])
    else
      Scan(s[Run(s)..], read + [Simple(s[..Run(s)])])
  }

  // ---- Terms

  /** The parser's variable register after the pieces. It is never reset: a reference without a
      default leaves the default of an earlier one in place. */
  function Register(ps: seq<Piece>): Variable {
    if ps == [] then Variable("", "", false)
    else Put(Register(ps[..|ps| - 1]), ps[|ps| - 1])
  }

  function Put(v: Variable, p: Piece): Variable {
    match p
    case Reference(name, colon, default) =>
      Variable(name, if default != "" then default else v.default, v.hasDefault || colon)
    case _ => v
  }

  function TermOf(v: Variable, p: Piece): Term {
    match p
    case Simple(t) => Literal(t)
    case Dollar(c) => Literal(['$', c])
    case Escaped(c) => Literal([c])
    case Reference(_, _, _) => Var(Put(v, p))
  }

  /** The terms the parser produces. */
  function Threaded(ps: seq<Piece>): (ts: seq<Term>)
    ensures |ts| == |ps|
  {
    if ps == [] then []
    else Threaded(ps[..|ps| - 1]) + [TermOf(Register(ps[..|ps| - 1]), ps[|ps| - 1])]
  }

  /** The terms the grammar promises: every reference has its own default only. */
  function Plain(ps: seq<Piece>): (ts: seq<Term>)
    ensures |ts| == |ps|
  {
    seq(|ps|, i requires 0 <= i < |ps| => TermOf(Variable("", "", false), ps[i]))
  }

  lemma ThreadedStep(ps: seq<Piece>, p: Piece)
    ensures Threaded(ps + [p]) == Threaded(ps) + [TermOf(Register(ps), p)]
    ensures Register(ps + [p]) == Put(Register(ps), p)
  {
    assert (ps + [p])[..|ps|] == ps;
  }

  // ---- The generated machine

  /** Where the machine stands: start is where the current term began, and read lists the pieces
      before it. In state 9 and 10 the term t is pending, in state 9 it may still grow. */
  ghost predicate Invariant(cs: int, data: string, p: int, idx: int, v: Variable, t: Term, out: seq<Term>,
                            read: seq<Piece>, start: int)
  {
    && 0 <= start <= p <= |data|
    && Scan(data, []) == Scan(data[start..], read)
    && (cs != 10 ==> out == Threaded(read))
    && match cs
       case 8 => start == p && v == Register(read)
       case 10 =>
         start == p && |read| > 0 && v == Register(read) && out + [t] == Threaded(read)
       case 9 => start == idx < p && v == Register(read) && t == Literal(data[idx..p]) && Ordinary(data[idx..p])
       case 1 => start == p - 1 && data[start] == '$' && v == Register(read)
       case 2 => start == p - 1 && data[start] == '\\' && v == Register(read)
       case 3 => Opened(data, start) && p == start + 2 && v == Register(read)
       case 4 => Opened(data, start) && idx == start + 2 < p && NameSoFar(data[idx..p]) && IsWord(data[p - 1])
                 && v == Register(read).(name := data[idx..p])
       case 5 => Opened(data, start) && idx == start + 2 < p - 1 && NameSoFar(data[idx..p]) && IsSeparator(data[p - 1])
                 && v == Register(read).(name := data[idx..p - 1])
       case 6 => Opened(data, start) && idx == start + 2 < p - 1 && IsName(data[idx..p - 1]) && data[p - 1] == ':'
                 && v == Register(read).(name := data[idx..p - 1], hasDefault := true)
       case 7 =>
         && Opened(data, start) && start + 3 < idx < p && IsName(data[start + 2..idx - 1]) && data[idx - 1] == ':'
         && Free(data[idx..p], "}")
         && v == Variable(data[start + 2..idx - 1], data[idx..p], true)
       case _ => cs == 0 && Scan(data, []) == (read, false)
  }

  ghost predicate Opened(data: string, start: int) {
    0 <= start && start + 2 <= |data| && data[start] == '$' && data[start + 1] == '{'
  }

  /** A name, except that the last character may be a separator. */
  predicate NameSoFar(s: string) {
    && s != "" && IsStart(s[0])
    && (forall i | 1 <= i < |s| :: IsWord(s[i]) || (IsSeparator(s[i]) && (i + 1 < |s| ==> IsWord(s[i + 1]))))
  }

  // ---- What Scan does with one more piece

  lemma {:induction false} RunIs(s: string, n: nat)
    requires n <= |s| && Ordinary(s[..n]) && (n < |s| ==> Special(s[n]))
    ensures Run(s) == n
  {
    if n > 0 {
      assert s[..n][0] == s[0];
      assert s[1..][..n - 1] == s[..n][1..];
      RunIs(s[1..], n - 1);
    }
  }

  lemma {:induction false} FindIs(s: string, stops: string, n: nat)
    requires n <= |s| && Free(s[..n], stops) && (n < |s| ==> s[n] in stops)
    ensures Find(s, stops) == n
  {
    if n > 0 {
      assert s[..n][0] == s[0];
      assert s[1..][..n - 1] == s[..n][1..];
      FindIs(s[1..], stops, n - 1);
    }
  }

  lemma ScanSimple(data: string, start: nat, p: nat, read: seq<Piece>)
    requires start < p <= |data| && Ordinary(data[start..p]) && (p < |data| ==> Special(data[p]))
    ensures Scan(data[start..], read) == Scan(data[p..], read + [Simple(data[start..p])])
  {
    var s := data[start..];
    assert s[..p - start] == data[start..p] && s[p - start..] == data[p..];
    assert s[0] == data[start..p][0];
    RunIs(s, p - start);
  }

  lemma ScanDollar(data: string, start: nat, read: seq<Piece>)
    requires start + 2 <= |data| && data[start] == '$' && data[start + 1] != '{'
    ensures Scan(data[start..], read) == Scan(data[start + 2..], read + [Dollar(data[start + 1])])
  {
    assert data[start..][2..] == data[start + 2..];
  }

  lemma ScanEscaped(data: string, start: nat, read: seq<Piece>)
    requires start + 2 <= |data| && data[start] == '\\'
    ensures Scan(data[start..], read) == Scan(data[start + 2..], read + [Escaped(data[start + 1])])
  {
    assert data[start..][2..] == data[start + 2..];
  }

  lemma ScanOpened(data: string, start: nat, read: seq<Piece>)
    requires Opened(data, start)
    ensures Scan(data[start..], read) ==
            var r := ScanReference(data[start + 2..]);
            if r.None? then (read, false) else Scan(data[start + 2 + r.value.1..], read + [r.value.0])
  {
    hide ScanReference, Run;
    assert data[start..][2..] == data[start + 2..];
    if ScanReference(data[start + 2..]).Some? {
      var n := ScanReference(data[start + 2..]).value.1;
      assert data[start..][2 + n..] == data[start + 2 + n..];
    }
  }

  /** ${name} */
  lemma ScanReferenceShort(data: string, start: nat, e: nat, read: seq<Piece>)
    requires Opened(data, start) && start + 2 <= e < |data| && data[e] == '}'
    requires Free(data[start + 2..e], ":}") && IsName(data[start + 2..e])
    ensures Scan(data[start..], read) == Scan(data[e + 1..], read + [Reference(data[start + 2..e], false, "")])
  {
    hide Scan, ScanReference, IsName;
    var r, n := data[start + 2..], e - start - 2;
    assert r[..n] == data[start + 2..e] && r[n] == '}';
    ReferenceWithoutDefault(r, n);
    ScanOpened(data, start, read);
    assert start + 2 + (n + 1) == e + 1;
  }

  lemma ReferenceWithoutDefault(r: string, n: nat)
    requires n < |r| && r[n] == '}' && Free(r[..n], ":}") && IsName(r[..n])
    ensures ScanReference(r) == Some((Reference(r[..n], false, ""), n + 1))
  {
    hide IsName, Find;
    FindIs(r, ":}", n);
  }

  /** ${name:default} */
  lemma ScanReferenceLong(data: string, start: nat, e: nat, d: nat, read: seq<Piece>)
    requires Opened(data, start) && start + 2 <= e < d < |data| && data[e] == ':' && data[d] == '}'
    requires Free(data[start + 2..e], ":}") && IsName(data[start + 2..e]) && Free(data[e + 1..d], "}")
    ensures Scan(data[start..], read) ==
            Scan(data[d + 1..], read + [Reference(data[start + 2..e], true, data[e + 1..d])])
  {
    hide Scan, ScanReference, IsName;
    var r := data[start + 2..];
    var n, k := e - start - 2, d - e - 1;
    assert r[..n] == data[start + 2..e] && r[n] == ':';
    assert r[n + 1..n + 1 + k] == data[e + 1..d];
    ReferenceWithDefault(r, n, k);
    ScanOpened(data, start, read);
    assert start + 2 + (n + k + 2) == d + 1;
  }

  lemma ReferenceWithDefault(r: string, n: nat, k: nat)
    requires n + 1 + k < |r| && r[n] == ':' && r[n + 1 + k] == '}'
    requires Free(r[..n], ":}") && IsName(r[..n]) && Free(r[n + 1..n + 1 + k], "}")
    ensures ScanReference(r) == Some((Reference(r[..n], true, r[n + 1..n + 1 + k]), n + k + 2))
  {
    hide IsName;
    FindIs(r, ":}", n);
    assert r[n + 1..][..k] == r[n + 1..n + 1 + k];
    FindIs(r[n + 1..], "}", k);
    hide Find;
  }

  ghost predicate NoName(data: string, a: nat, p: nat)
    requires a <= p
  {
    forall e | p <= e < |data| :: !IsName(data[a..e])
  }

  /** No name fits: there is no stop before p, and no continuation from p makes a name. */
  lemma ScanBadName(data: string, start: nat, p: nat, read: seq<Piece>)
    requires Opened(data, start) && start + 2 <= p <= |data| && Free(data[start + 2..p], ":}")
    requires NoName(data, start + 2, p)
    ensures Scan(data[start..], read) == (read, false)
  {
    hide Scan, IsName, Free, Find;
    ScanOpened(data, start, read);
    var r, n := data[start + 2..], p - start - 2;
    assert r[..n] == data[start + 2..p];
    FindBeyond(r, ":}", n);
    var e := Find(r, ":}");
    if e < |r| {
      assert r[..e] == data[start + 2..start + 2 + e];
      NoNameAt(data, start + 2, p, start + 2 + e);
    }
  }

  lemma FindBeyond(s: string, stops: string, n: nat)
    requires n <= |s| && Free(s[..n], stops)
    ensures n <= Find(s, stops) <= |s|
  {
    assert forall i | 0 <= i < n :: s[i] == s[..n][i];
  }

  lemma NoNameAt(data: string, a: nat, p: nat, e: nat)
    requires a <= p <= e < |data| && NoName(data, a, p)
    ensures !IsName(data[a..e])
  {
    hide IsName;
  }

  /** The default is never closed. */
  lemma ScanOpenDefault(data: string, start: nat, e: nat, read: seq<Piece>)
    requires Opened(data, start) && start + 2 <= e < |data| && data[e] == ':'
    requires Free(data[start + 2..e], ":}") && Free(data[e + 1..], "}")
    ensures Scan(data[start..], read) == (read, false)
  {
    ScanOpened(data, start, read);
    hide Scan, IsName;
    var r := data[start + 2..];
    var n := e - start - 2;
    assert r[..n] == data[start + 2..e] && r[n] == ':';
    FindIs(r, ":}", n);
    assert r[n + 1..] == data[e + 1..];
    FindIs(r[n + 1..], "}", |r| - n - 1);
  }

  lemma NameIsFree(s: string)
    requires NameSoFar(s)
    ensures Free(s, ":}") && (IsWord(s[|s| - 1]) ==> IsName(s))
  {
    forall i | 0 <= i < |s| ensures s[i] !in ":}" {
      assert i == 0 || IsWord(s[i]) || IsSeparator(s[i]);
    }
  }

  // ---- One step of the machine in each state

  lemma StepSimple(data: string, p: nat, idx: nat, v: Variable, t: Term, out: seq<Term>, read: seq<Piece>, start: nat)
    requires p < |data| && Invariant(9, data, p, idx, v, t, out, read, start)
    ensures !Special(data[p]) ==> Invariant(9, data, p + 1, idx, v, Literal(data[idx..p + 1]), out, read, start)
    ensures data[p] == '$' ==> Invariant(1, data, p + 1, idx, v, t, out + [t], read + [Simple(data[idx..p])], p)
    ensures data[p] == '\\' ==> Invariant(2, data, p + 1, idx, v, t, out + [t], read + [Simple(data[idx..p])], p)
  {
    hide Scan, Threaded, Register;
    assert data[idx..p + 1] == data[idx..p] + [data[p]];
    if Special(data[p]) {
      ScanSimple(data, start, p, read);
      ThreadedStep(read, Simple(data[idx..p]));
    }
  }

  lemma StepPending(data: string, p: nat, idx: nat, v: Variable, t: Term, out: seq<Term>, read: seq<Piece>, start: nat)
    requires p < |data| && Invariant(10, data, p, idx, v, t, out, read, start)
    ensures !Special(data[p]) ==> Invariant(9, data, p + 1, p, v, Literal(data[p..p + 1]), out + [t], read, start)
    ensures data[p] == '$' ==> Invariant(1, data, p + 1, idx, v, t, out + [t], read, start)
    ensures data[p] == '\\' ==> Invariant(2, data, p + 1, idx, v, t, out + [t], read, start)
  {
    hide Scan, Threaded, Register;
  }

  lemma StepStart(data: string, p: nat, idx: nat, v: Variable, t: Term, out: seq<Term>, read: seq<Piece>, start: nat)
    requires p < |data| && Invariant(8, data, p, idx, v, t, out, read, start)
    ensures !Special(data[p]) ==> Invariant(9, data, p + 1, p, v, Literal(data[p..p + 1]), out, read, start)
    ensures data[p] == '$' ==> Invariant(1, data, p + 1, idx, v, t, out, read, start)
    ensures data[p] == '\\' ==> Invariant(2, data, p + 1, idx, v, t, out, read, start)
  {
    hide Scan, Threaded, Register;
  }

  lemma StepDollar(data: string, p: nat, idx: nat, v: Variable, t: Term, out: seq<Term>, read: seq<Piece>, start: nat)
    requires p < |data| && Invariant(1, data, p, idx, v, t, out, read, start)
    ensures data[p] == '{' ==> Invariant(3, data, p + 1, idx, v, t, out, read, start)
    ensures data[p] != '{' ==>
              Invariant(10, data, p + 1, idx, v, Literal(data[p - 1..p + 1]), out, read + [Dollar(data[p])], p + 1)
  {
    hide Scan, Threaded, Register;
    if data[p] != '{' {
      ScanDollar(data, start, read);
      ThreadedStep(read, Dollar(data[p]));
      assert data[p - 1..p + 1] == ['$', data[p]];
    }
  }

  lemma StepEscape(data: string, p: nat, idx: nat, v: Variable, t: Term, out: seq<Term>, read: seq<Piece>, start: nat)
    requires p < |data| && Invariant(2, data, p, idx, v, t, out, read, start)
    ensures Invariant(10, data, p + 1, idx, v, Literal(data[p..p + 1]), out, read + [Escaped(data[p])], p + 1)
  {
    hide Scan, Threaded, Register;
    ScanEscaped(data, start, read);
    ThreadedStep(read, Escaped(data[p]));
    assert data[p..p + 1] == [data[p]];
  }

  lemma StepOpen(data: string, p: nat, idx: nat, v: Variable, t: Term, out: seq<Term>, read: seq<Piece>, start: nat)
    requires p < |data| && Invariant(3, data, p, idx, v, t, out, read, start)
    ensures IsStart(data[p]) ==> Invariant(4, data, p + 1, p, v.(name := data[p..p + 1]), t, out, read, start)
    ensures !IsStart(data[p]) ==> Invariant(0, data, p, idx, v, t, out, read, start)
  {
    hide Scan, Threaded, Register;
    assert data[p..p + 1] == [data[p]];
    if !IsStart(data[p]) {
      var a := start + 2;
      forall e | p <= e < |data| ensures !IsName(data[a..e]) {
        if e > p { assert data[a..e][0] == data[p]; }
      }
      ScanBadName(data, start, p, read);
    }
  }

  lemma NameGrows(data: string, idx: nat, p: nat)
    requires idx < p < |data| && NameSoFar(data[idx..p])
    requires IsWord(data[p]) || (IsSeparator(data[p]) && IsWord(data[p - 1]))
    ensures NameSoFar(data[idx..p + 1])
  {
    var s, s' := data[idx..p], data[idx..p + 1];
    assert s' == s + [data[p]];
    forall i | 1 <= i < |s'| ensures IsWord(s'[i]) || (IsSeparator(s'[i]) && (i + 1 < |s'| ==> IsWord(s'[i + 1]))) {
      if i < |s| { assert s'[i] == s[i]; }
    }
  }

  /** After a name so far, a character that cannot continue it, and does not close it, ruins it. */
  lemma NameRuined(data: string, idx: nat, p: nat, e: nat)
    requires idx < p <= e < |data| && p < |data| && NameSoFar(data[idx..p]) && !IsWord(data[p])
    requires IsWord(data[p - 1]) ==> !IsSeparator(data[p]) && e > p
    ensures !IsName(data[idx..e])
  {
    var s := data[idx..e];
    if IsWord(data[p - 1]) {
      assert s[p - idx] == data[p];
    } else {
      assert s[p - idx - 1] == data[p - 1];
      if e > p { assert s[p - idx] == data[p]; }
    }
  }

  lemma StepName(data: string, p: nat, idx: nat, v: Variable, t: Term, out: seq<Term>, read: seq<Piece>, start: nat)
    requires p < |data| && Invariant(4, data, p, idx, v, t, out, read, start)
    ensures IsWord(data[p]) ==> Invariant(4, data, p + 1, idx, v.(name := data[idx..p + 1]), t, out, read, start)
    ensures IsSeparator(data[p]) ==> Invariant(5, data, p + 1, idx, v, t, out, read, start)
    ensures data[p] == ':' ==> Invariant(6, data, p + 1, idx, v.(hasDefault := true), t, out, read, start)
    ensures data[p] == '}' ==>
              Invariant(10, data, p + 1, idx, v, Var(v), out, read + [Reference(data[idx..p], false, "")], p + 1)
    ensures !IsWord(data[p]) && !IsSeparator(data[p]) && data[p] != ':' && data[p] != '}' ==>
              Invariant(0, data, p, idx, v, t, out, read, start)
  {
    hide Scan, Threaded, Register;
    NameIsFree(data[idx..p]);
    if IsWord(data[p]) || IsSeparator(data[p]) {
      NameGrows(data, idx, p);
    } else if data[p] == '}' {
      ScanReferenceShort(data, start, p, read);
      ThreadedStep(read, Reference(data[idx..p], false, ""));
    } else if data[p] != ':' {
      NameStops(data, start, p, read);
    }
    hide NameSoFar, IsName;
  }

  lemma NameStops(data: string, start: nat, p: nat, read: seq<Piece>)
    requires Opened(data, start) && start + 2 < p < |data| && NameSoFar(data[start + 2..p])
    requires !IsWord(data[p]) && (IsWord(data[p - 1]) ==> !IsSeparator(data[p]) && data[p] != ':' && data[p] != '}')
    ensures Scan(data[start..], read) == (read, false)
  {
    hide Scan;
    var idx := start + 2;
    NameIsFree(data[idx..p]);
    var q := if IsWord(data[p - 1]) then p + 1 else p;
    if q == p + 1 { assert data[idx..q] == data[idx..p] + [data[p]]; }
    forall e | q <= e < |data| ensures !IsName(data[idx..e]) { NameRuined(data, idx, p, e); }
    hide NameSoFar, IsName;
    ScanBadName(data, start, q, read);
  }

  lemma StepSeparator(data: string, p: nat, idx: nat, v: Variable, t: Term, out: seq<Term>, read: seq<Piece>,
                      start: nat)
    requires p < |data| && Invariant(5, data, p, idx, v, t, out, read, start)
    ensures IsWord(data[p]) ==> Invariant(4, data, p + 1, idx, v.(name := data[idx..p + 1]), t, out, read, start)
    ensures !IsWord(data[p]) ==> Invariant(0, data, p, idx, v, t, out, read, start)
  {
    hide Scan, Threaded, Register;
    if IsWord(data[p]) {
      NameGrows(data, idx, p);
    } else {
      NameStops(data, start, p, read);
    }
    hide NameSoFar;
  }

  lemma StepColon(data: string, p: nat, idx: nat, v: Variable, t: Term, out: seq<Term>, read: seq<Piece>, start: nat)
    requires p < |data| && Invariant(6, data, p, idx, v, t, out, read, start)
    ensures idx < p
    ensures data[p] == '}' ==>
              Invariant(10, data, p + 1, p, v, Var(v), out, read + [Reference(data[idx..p - 1], true, "")], p + 1)
    ensures data[p] != '}' ==> Invariant(7, data, p + 1, p, v.(default := data[p..p + 1]), t, out, read, start)
  {
    hide Scan, Threaded, Register, IsName;
    assert data[p..p] == "" && data[p..p + 1] == [data[p]];
    if data[p] == '}' {
      NameHasNoStops(data[idx..p - 1]);
      ScanReferenceLong(data, start, p - 1, p, read);
      ThreadedStep(read, Reference(data[idx..p - 1], true, ""));
    }
  }

  lemma NameHasNoStops(s: string)
    requires IsName(s)
    ensures Free(s, ":}")
  {
    forall i | 0 <= i < |s| ensures s[i] !in ":}" {
      assert i == 0 || IsWord(s[i]) || IsSeparator(s[i]);
    }
  }

  lemma StepDefault(data: string, p: nat, idx: nat, v: Variable, t: Term, out: seq<Term>, read: seq<Piece>, start: nat)
    requires p < |data| && Invariant(7, data, p, idx, v, t, out, read, start)
    ensures start + 3 < idx
    ensures data[p] == '}' ==>
              Invariant(10, data, p + 1, idx, v, Var(v), out,
                        read + [Reference(data[start + 2..idx - 1], true, data[idx..p])], p + 1)
    ensures data[p] != '}' ==> Invariant(7, data, p + 1, idx, v.(default := data[idx..p + 1]), t, out, read, start)
  {
    hide Scan, Threaded, Register, IsName;
    assert data[idx..p + 1] == data[idx..p] + [data[p]];
    if data[p] == '}' {
      NameHasNoStops(data[start + 2..idx - 1]);
      ScanReferenceLong(data, start, idx - 1, p, read);
      ThreadedStep(read, Reference(data[start + 2..idx - 1], true, data[idx..p]));
    }
  }

  // ---- The end of the string

  /** What parsing must return. */
  ghost predicate Parses(data: string, out: seq<Term>, ok: bool) {
    out == Threaded(Scan(data, []).0) && ok == Scan(data, []).1
  }

  lemma EndFinal(cs: int, data: string, idx: int, v: Variable, t: Term, out: seq<Term>, read: seq<Piece>, start: int)
    requires cs >= 8 && Invariant(cs, data, |data|, idx, v, t, out, read, start)
    ensures cs == 8 ==> Parses(data, out, true)
    ensures cs != 8 ==> (cs == 9 || cs == 10) && Parses(data, out + [t], true)
  {
    hide Threaded, Register;
    assert data[|data|..] == "";
    if cs == 9 {
      ScanSimple(data, start, |data|, read);
      ThreadedStep(read, Simple(data[idx..]));
      assert data[idx..|data|] == data[idx..];
    }
  }

  lemma EndAfterSpecial(data: string, read: seq<Piece>)
    requires |data| >= 1 && Special(data[|data| - 1])
    ensures Scan(data[|data| - 1..], read) == (read, false)
  {
    assert data[|data| - 1..] == [data[|data| - 1]];
  }

  lemma EndInName(data: string, start: nat, read: seq<Piece>)
    requires Opened(data, start) && (start + 2 == |data| || NameSoFar(data[start + 2..]))
    ensures Scan(data[start..], read) == (read, false)
  {
    hide Scan;
    assert data[start + 2..|data|] == data[start + 2..];
    if start + 2 < |data| { NameIsFree(data[start + 2..]); }
    ScanBadName(data, start, |data|, read);
  }

  lemma EndInDefault(data: string, start: nat, e: nat, read: seq<Piece>)
    requires Opened(data, start) && start + 2 <= e < |data| && data[e] == ':' && IsName(data[start + 2..e])
    requires Free(data[e + 1..], "}")
    ensures Scan(data[start..], read) == (read, false)
  {
    hide Scan;
    NameHasNoStops(data[start + 2..e]);
    ScanOpenDefault(data, start, e, read);
  }

  lemma EndOpen(cs: int, data: string, idx: int, v: Variable, t: Term, out: seq<Term>, read: seq<Piece>, start: int)
    requires 1 <= cs < 8 && Invariant(cs, data, |data|, idx, v, t, out, read, start)
    ensures Parses(data, out, false)
  {
    hide Scan, Threaded, Register, NameSoFar, IsName;
    if cs == 1 || cs == 2 {
      EndAfterSpecial(data, read);
    } else if cs == 3 || cs == 4 || cs == 5 {
      assert cs != 3 ==> data[idx..|data|] == data[idx..];
      EndInName(data, start, read);
    } else if cs == 6 {
      assert data[|data|..] == "";
      EndInDefault(data, start, |data| - 1, read);
    } else {
      assert data[idx..|data|] == data[idx..];
      EndInDefault(data, start, idx - 1, read);
    }
  }

  lemma EndError(data: string, p: int, idx: int, v: Variable, t: Term, out: seq<Term>, read: seq<Piece>, start: int)
    requires Invariant(0, data, p, idx, v, t, out, read, start)
    ensures Parses(data, out, false)
  {
    hide Scan, Threaded, Register;
  }

  lemma Begin(data: string, t: Term)
    ensures Invariant(8, data, 0, 0, Variable("", "", false), t, [], [], 0)
  {
    hide Scan;
    assert data[0..] == data;
  }

  /** The machine as generated: state cs reads one character, acts and moves on. On a malformed
      string the terms before the offending one are returned with the error. */
  method Parse(data: string) returns (out: seq<Term>, ok: bool)
    ensures Parses(data, out, ok)
  {
    hide Invariant, Parses, Scan, Threaded, Register;
    var cs, p, idx := 8, 0, 0;
    var v := Variable("", "", false);
    var t := Literal("");
    out := [];
    ghost var read, start: int := [], 0;
    Begin(data, t);
    while p < |data|
      invariant 0 <= p <= |data| && 1 <= cs <= 10 && 0 <= idx <= p && 0 <= start <= p
      invariant (cs == 1 || cs == 2) ==> p >= 1
      invariant Invariant(cs, data, p, idx, v, t, out, read, start)
    {
      var c := data[p];
      if cs == 8 {
        StepStart(data, p, idx, v, t, out, read, start);
        if c == '$' { cs := 1; }
        else if c == '\\' { cs := 2; }
        else { idx := p; t := Literal(data[idx..p + 1]); cs := 9; }
      } else if cs == 9 {
        StepSimple(data, p, idx, v, t, out, read, start);
        if c == '$' || c == '\\' {
          out := out + [t];
          read, start := read + [Simple(data[idx..p])], p;
          cs := if c == '$' then 1 else 2;
        } else {
          t := Literal(data[idx..p + 1]);
        }
      } else if cs == 1 {
        StepDollar(data, p, idx, v, t, out, read, start);
        if c == '{' {
          cs := 3;
        } else {
          t := Literal(data[p - 1..p + 1]);
          read, start := read + [Dollar(c)], p + 1;
          cs := 10;
        }
      } else if cs == 10 {
        StepPending(data, p, idx, v, t, out, read, start);
        out := out + [t];
        if c == '$' { cs := 1; }
        else if c == '\\' { cs := 2; }
        else { idx := p; t := Literal(data[idx..p + 1]); cs := 9; }
      } else if cs == 2 {
        StepEscape(data, p, idx, v, t, out, read, start);
        t := Literal(data[p..p + 1]);
        read, start := read + [Escaped(c)], p + 1;
        cs := 10;
      } else if cs == 3 {
        StepOpen(data, p, idx, v, t, out, read, start);
        if c == '_' || 'a' <= c <= 'z' || 'A' <= c <= 'Z' {
          idx := p;
          v := v.(name := data[idx..p + 1]);
          cs := 4;
        } else {
          EndError(data, p, idx, v, t, out, read, start);
          return out, false;
        }
      } else if cs == 4 {
        StepName(data, p, idx, v, t, out, read, start);
        if c == ':' {
          v := v.(hasDefault := true);
          cs := 6;
        } else if c == '}' {
          t := Var(v);
          read, start := read + [Reference(data[idx..p], false, "")], p + 1;
          cs := 10;
        } else if c == '-' || c == '.' {
          cs := 5;
        } else if c == '_' || '0' <= c <= '9' || 'a' <= c <= 'z' || 'A' <= c <= 'Z' {
          v := v.(name := data[idx..p + 1]);
        } else {
          EndError(data, p, idx, v, t, out, read, start);
          return out, false;
        }
      } else if cs == 5 {
        StepSeparator(data, p, idx, v, t, out, read, start);
        if c == '_' || '0' <= c <= '9' || 'a' <= c <= 'z' || 'A' <= c <= 'Z' {
          v := v.(name := data[idx..p + 1]);
          cs := 4;
        } else {
          EndError(data, p, idx, v, t, out, read, start);
          return out, false;
        }
      } else if cs == 6 {
        StepColon(data, p, idx, v, t, out, read, start);
        if c == '}' {
          read, start := read + [Reference(data[idx..p - 1], true, "")], p + 1;
          idx := p;
          t := Var(v);
          cs := 10;
        } else {
          idx := p;
          v := v.(default := data[idx..p + 1]);
          cs := 7;
        }
      } else {
        StepDefault(data, p, idx, v, t, out, read, start);
        if c == '}' {
          t := Var(v);
          read, start := read + [Reference(data[start + 2..idx - 1], true, data[idx..p])], p + 1;
          cs := 10;
        } else {
          v := v.(default := data[idx..p + 1]);
        }
      }
      p := p + 1;
    }
    if cs >= 8 {
      EndFinal(cs, data, idx, v, t, out, read, start);
      if cs == 9 || cs == 10 { out := out + [t]; }
      return out, true;
    }
    EndOpen(cs, data, idx, v, t, out, read, start);
    return out, false;
  }

  // ---- The language, and how a parsed string is written

  function PieceText(p: Piece): string {
    match p
    case Simple(t) => t
    case Dollar(c) => ['$', c]
    case Escaped(c) => ['\\', c]
    case Reference(name, colon, default) => "${" + name + (if colon then ":" + default else "") + "}"
  }

  function Source(ps: seq<Piece>): string {
    if ps == [] then "" else PieceText(ps[0]) + Source(ps[1..])
  }

  predicate ValidPiece(p: Piece) {
    match p
    case Simple(t) => t != "" && Ordinary(t)
    case Dollar(c) => c != '{'
    case Escaped(_) => true
    case Reference(name, colon, default) => IsName(name) && Free(default, "}") && (!colon ==> default == "")
  }

  /** The pieces are as the grammar has them, and runs of ordinary characters are as long as possible. */
  predicate WellFormed(ps: seq<Piece>) {
    && (forall i | 0 <= i < |ps| :: ValidPiece(ps[i]))
    && (forall i | 0 <= i < |ps| - 1 :: ps[i].Simple? ==> !ps[i + 1].Simple?)
  }

  lemma WellFormedTail(ps: seq<Piece>)
    requires WellFormed(ps) && ps != []
    ensures WellFormed(ps[1..])
  {
    hide ValidPiece;
    var qs := ps[1..];
    forall i | 0 <= i < |qs| - 1 ensures qs[i].Simple? ==> !qs[i + 1].Simple? {
      assert qs[i] == ps[i + 1] && qs[i + 1] == ps[i + 2];
    }
  }

  lemma SpecialStart(ps: seq<Piece>)
    requires WellFormed(ps) && ps != [] && !ps[0].Simple?
    ensures |Source(ps)| > 0 && Special(Source(ps)[0])
  {
  }

  lemma ScanReferencePiece(p: Piece, rest: string, read: seq<Piece>)
    requires p.Reference? && ValidPiece(p)
    ensures Scan(PieceText(p) + rest, read) == Scan(rest, read + [p])
  {
    hide Scan, IsName;
    var data := PieceText(p) + rest;
    var n, e := |PieceText(p)|, 2 + |p.name|;
    NameHasNoStops(p.name);
    assert data[0..] == data && data[n..] == rest;
    assert data[2..e] == p.name;
    if p.colon {
      assert data[e + 1..n - 1] == p.default;
      ScanReferenceLong(data, 0, e, n - 1, read);
    } else {
      ScanReferenceShort(data, 0, e, read);
    }
    hide Free;
  }

  /** Reading one valid piece at the front of a text. */
  lemma ScanPiece(p: Piece, rest: string, read: seq<Piece>)
    requires ValidPiece(p) && (p.Simple? && rest != "" ==> Special(rest[0]))
    ensures Scan(PieceText(p) + rest, read) == Scan(rest, read + [p])
  {
    hide Scan;
    if p.Reference? {
      ScanReferencePiece(p, rest, read);
    } else {
      var data := PieceText(p) + rest;
      var n := |PieceText(p)|;
      assert data[0..] == data && data[n..] == rest && data[0..n] == PieceText(p);
      if p.Simple? {
        assert n < |data| ==> data[n] == rest[0];
        ScanSimple(data, 0, n, read);
      } else if p.Dollar? {
        ScanDollar(data, 0, read);
      } else {
        ScanEscaped(data, 0, read);
      }
    }
  }

  /** Every well-formed list of pieces is what its text is parsed into: the grammar is unambiguous. */
  lemma {:induction false} ScanSource(ps: seq<Piece>, read: seq<Piece>)
    requires WellFormed(ps)
    ensures Scan(Source(ps), read) == (read + ps, true)
    decreases |ps|
  {
    if ps == [] {
      assert read + ps == read;
    } else {
      hide Scan, PieceText, ValidPiece;
      WellFormedTail(ps);
      if |ps| > 1 && ps[0].Simple? { SpecialStart(ps[1..]); }
      ScanPiece(ps[0], Source(ps[1..]), read);
      ScanSource(ps[1..], read + [ps[0]]);
      assert read + [ps[0]] + ps[1..] == read + ps;
    }
  }

  lemma WellFormedCons(p: Piece, ps: seq<Piece>)
    requires ValidPiece(p) && WellFormed(ps) && (p.Simple? && ps != [] ==> !ps[0].Simple?)
    ensures WellFormed([p] + ps) && Source([p] + ps) == PieceText(p) + Source(ps)
  {
    hide ValidPiece;
    var qs := [p] + ps;
    assert qs[1..] == ps;
    forall i | 0 <= i < |qs| - 1 ensures qs[i].Simple? ==> !qs[i + 1].Simple? {
      if i > 0 { assert qs[i] == ps[i - 1] && qs[i + 1] == ps[i]; }
    }
  }

  lemma SplitShort(r: string, e: nat)
    requires e < |r|
    ensures r[..e + 1] == r[..e] + [r[e]]
  {
  }

  lemma SplitLong(r: string, e: nat, f: nat)
    requires e < f < |r|
    ensures r[..f + 1] == r[..e] + ([r[e]] + r[e + 1..f]) + [r[f]]
  {
    SplitShort(r, f);
    SplitShort(r, e);
    assert r[..f] == r[..e + 1] + r[e + 1..f];
  }

  lemma TextShort(name: string)
    ensures PieceText(Reference(name, false, "")) == "${" + (name + ['}'])
  {
    assert name + "" == name;
  }

  lemma TextLong(name: string, default: string)
    ensures PieceText(Reference(name, true, default)) == "${" + (name + ([':'] + default) + ['}'])
  {
  }

  /** The reference read is valid and its text is what was used. */
  lemma ReferenceSound(r: string)
    requires ScanReference(r).Some?
    ensures ScanReference(r).value.0.Reference? && ValidPiece(ScanReference(r).value.0)
    ensures PieceText(ScanReference(r).value.0) == "${" + r[..ScanReference(r).value.1]
  {
    hide IsName, Free, PieceText;
    var e := Find(r, ":}");
    if r[e] == '}' {
      SplitShort(r, e);
      TextShort(r[..e]);
      NoText();
    } else {
      var d := Find(r[e + 1..], "}");
      var f := e + 1 + d;
      assert r[e + 1..][..d] == r[e + 1..f] && r[f] == '}' && r[e] == ':';
      SplitLong(r, e, f);
      TextLong(r[..e], r[e + 1..f]);
    }
    hide Find;
  }

  lemma NoText()
    ensures Free("", "}")
  {
  }

  lemma FirstTwo(s: string, read: seq<Piece>)
    requires s != "" && Special(s[0]) && Scan(s, read).1 && (s[0] == '$' && |s| >= 2 ==> s[1] != '{')
    ensures |s| >= 2
    ensures var p := if s[0] == '$' then Dollar(s[1]) else Escaped(s[1]);
            ValidPiece(p) && PieceText(p) == s[..2] && Scan(s, read) == Scan(s[2..], read + [p])
  {
    hide ScanReference, Run, IsName;
    assert |s| >= 2;
    assert s[..2] == [s[0], s[1]];
  }

  lemma FirstReference(s: string, read: seq<Piece>) returns (p: Piece, n: nat)
    requires |s| >= 2 && s[0] == '$' && s[1] == '{' && Scan(s, read).1
    ensures 0 < n <= |s| && p.Reference? && ValidPiece(p) && PieceText(p) == s[..n]
    ensures Scan(s, read) == Scan(s[n..], read + [p])
  {
    hide ScanReference, Run, IsName, PieceText, ValidPiece;
    var r := ScanReference(s[2..]).value;
    ReferenceSound(s[2..]);
    p, n := r.0, 2 + r.1;
    assert s[..n] == "${" + s[2..][..r.1];
  }

  /** The first piece of an accepted string. */
  lemma FirstPiece(s: string, read: seq<Piece>) returns (p: Piece, n: nat)
    requires s != "" && Scan(s, read).1
    ensures 0 < n <= |s| && ValidPiece(p) && PieceText(p) == s[..n]
    ensures Scan(s, read) == Scan(s[n..], read + [p])
    ensures p.Simple? ==> !Special(s[0]) && (n < |s| ==> Special(s[n]))
    ensures Special(s[0]) ==> !p.Simple?
  {
    if |s| >= 2 && s[0] == '$' && s[1] == '{' {
      hide Scan, PieceText, ValidPiece;
      p, n := FirstReference(s, read);
    } else if Special(s[0]) {
      hide Scan, PieceText, ValidPiece;
      FirstTwo(s, read);
      p, n := if s[0] == '$' then Dollar(s[1]) else Escaped(s[1]), 2;
    } else {
      hide ScanReference, IsName, Run;
      RunPositive(s);
      p, n := Simple(s[..Run(s)]), Run(s);
    }
  }

  lemma RunPositive(s: string)
    requires s != "" && !Special(s[0])
    ensures Run(s) > 0
  {
  }

  /** What is accepted is the text of well-formed pieces. */
  lemma {:induction false} ScanSound(s: string, read: seq<Piece>) returns (ps: seq<Piece>)
    requires Scan(s, read).1
    ensures Scan(s, read).0 == read + ps && WellFormed(ps) && Source(ps) == s
    ensures s != "" && Special(s[0]) ==> ps != [] && !ps[0].Simple?
    decreases |s|
  {
    if s == "" {
      ps := [];
    } else {
      hide Scan, PieceText, ValidPiece, WellFormed, Source;
      var p, n := FirstPiece(s, read);
      var rest := ScanSound(s[n..], read + [p]);
      ps := [p] + rest;
      if p.Simple? && rest != [] {
        NotAtEnd(s, n, rest);
        assert s[n..][0] == s[n];
      }
      WellFormedCons(p, rest);
      Reassociate(read, p, rest);
      assert s == s[..n] + s[n..];
    }
  }

  lemma Reassociate(read: seq<Piece>, p: Piece, rest: seq<Piece>)
    ensures read + [p] + rest == read + ([p] + rest)
  {
  }

  lemma NotAtEnd(s: string, n: nat, rest: seq<Piece>)
    requires n <= |s| && Source(rest) == s[n..] && WellFormed(rest) && rest != []
    ensures n < |s|
  {
    assert ValidPiece(rest[0]);
    assert |PieceText(rest[0])| > 0;
  }

  /** The string has a reading in the grammar. */
  ghost predicate Reads(data: string, ps: seq<Piece>) { WellFormed(ps) && Source(ps) == data }

  /** The machine accepts exactly the strings of the grammar, and returns the terms of the one
      reading the string has. */
  lemma AcceptsTheLanguage(data: string, out: seq<Term>, ok: bool)
    requires Parses(data, out, ok)
    ensures ok <==> exists ps :: Reads(data, ps)
    ensures forall ps :: Reads(data, ps) ==> out == Threaded(ps)
  {
    hide Scan, Threaded, WellFormed, Source;
    if ok {
      var ps := ScanSound(data, []);
      assert Reads(data, ps);
    }
    forall ps | Reads(data, ps) ensures ok && out == Threaded(ps) {
      ScanSource(ps, []);
      assert [] + ps == ps;
    }
  }

  // ---- The register that is not reset

  /** No reference with a default, or with a non-empty one, comes before a reference without. */
  predicate NoLeak(ps: seq<Piece>) {
    forall i, j | 0 <= i < j < |ps| && ps[i].Reference? && ps[j].Reference? ::
      (ps[i].colon ==> ps[j].colon) && (ps[i].default != "" ==> ps[j].default != "")
  }

  lemma {:induction false} RegisterIs(ps: seq<Piece>)
    ensures Register(ps).hasDefault <==> exists i :: 0 <= i < |ps| && ps[i].Reference? && ps[i].colon
    ensures Register(ps).default != "" <==> exists i :: 0 <= i < |ps| && ps[i].Reference? && ps[i].default != ""
  {
    if ps != [] {
      var n := |ps| - 1;
      RegisterIs(ps[..n]);
      assert forall i | 0 <= i < n :: ps[..n][i] == ps[i];
    }
  }

  lemma PlainStep(ps: seq<Piece>, p: Piece)
    ensures Plain(ps + [p]) == Plain(ps) + [TermOf(Variable("", "", false), p)]
  {
  }

  lemma NoLeakStep(ps: seq<Piece>, p: Piece)
    ensures NoLeak(ps + [p]) <==>
            NoLeak(ps) && (p.Reference? ==>
              (Register(ps).hasDefault ==> p.colon) && (Register(ps).default != "" ==> p.default != ""))
  {
    hide Register;
    RegisterIs(ps);
    var qs := ps + [p];
    if NoLeak(qs) {
      forall i, j | 0 <= i < j < |ps| && ps[i].Reference? && ps[j].Reference?
        ensures (ps[i].colon ==> ps[j].colon) && (ps[i].default != "" ==> ps[j].default != "")
      {
        assert qs[i] == ps[i] && qs[j] == ps[j];
      }
      forall i | 0 <= i < |ps| && ps[i].Reference? && p.Reference?
        ensures (ps[i].colon ==> p.colon) && (ps[i].default != "" ==> p.default != "")
      {
        assert qs[i] == ps[i] && qs[|ps|] == p;
      }
    }
  }

  /** The parser gives every reference its own default exactly when no default leaks. */
  lemma {:induction false} ThreadedIsPlainIffNoLeak(ps: seq<Piece>)
    ensures Threaded(ps) == Plain(ps) <==> NoLeak(ps)
  {
    if ps != [] {
      var n := |ps| - 1;
      var pre, p := ps[..n], ps[n];
      assert pre + [p] == ps;
      ThreadedIsPlainIffNoLeak(pre);
      ThreadedStep(pre, p);
      PlainStep(pre, p);
      NoLeakStep(pre, p);
      assert Threaded(ps) == Plain(ps) <==>
        Threaded(pre) == Plain(pre) && TermOf(Register(pre), p) == TermOf(Variable("", "", false), p) by {
        assert Threaded(ps)[..n] == Threaded(pre) && Plain(ps)[..n] == Plain(pre);
        assert Threaded(ps)[n] == TermOf(Register(pre), p) && Plain(ps)[n] == TermOf(Variable("", "", false), p);
      }
    }
    hide Threaded, Plain, Register, NoLeak;
  }

  predicate AtMostOneReference(ps: seq<Piece>) {
    forall i, j | 0 <= i < j < |ps| :: !(ps[i].Reference? && ps[j].Reference?)
  }

  /** A string with at most one reference is parsed as the grammar promises; one with more is,
      exactly when no default leaks. */
  lemma ParsesPlainly(data: string, out: seq<Term>, ok: bool, ps: seq<Piece>)
    requires Parses(data, out, ok) && Reads(data, ps)
    ensures out == Plain(ps) <==> NoLeak(ps)
    ensures AtMostOneReference(ps) ==> out == Plain(ps)
  {
    hide Parses, Reads, Threaded, Plain;
    AcceptsTheLanguage(data, out, ok);
    ThreadedIsPlainIffNoLeak(ps);
  }

  /** ${a:x}${b}: the second reference gets the default of the first. */
  lemma LeakExample(out: seq<Term>, ok: bool)
    requires Parses("${a:x}${b}", out, ok)
    ensures ok && |out| == 2 && out[1] == Var(Variable("b", "x", true))
  {
    hide Parses, Reads, Threaded;
    var a, b := Reference("a", true, "x"), Reference("b", false, "");
    LeakReads();
    AcceptsTheLanguage("${a:x}${b}", out, ok);
    ThreadedStep([], a);
    ThreadedStep([a], b);
    assert [] + [a] == [a] && [a] + [b] == [a, b];
  }

  lemma LeakReads()
    ensures Reads("${a:x}${b}", [Reference("a", true, "x"), Reference("b", false, "")])
  {
  }

  // ---- Rendering

  function TermValue(t: Term, resolve: string -> Option<string>): Option<string> {
    match t
    case Literal(s) => Some(s)
    case Var(v) =>
      if resolve(v.name).Some? then resolve(v.name)
      else if v.hasDefault then Some(v.default)
      else None
  }

  function RenderOf(ts: seq<Term>, resolve: string -> Option<string>): Option<string> {
    if ts == [] then Some("")
    else match (RenderOf(ts[..|ts| - 1], resolve), TermValue(ts[|ts| - 1], resolve))
      case (Some(s), Some(v)) => Some(s + v)
      case _ => None
  }

  lemma RenderStep(ts: seq<Term>, t: Term, resolve: string -> Option<string>)
    ensures RenderOf(ts + [t], resolve) ==
            match (RenderOf(ts, resolve), TermValue(t, resolve)) case (Some(s), Some(v)) => Some(s + v) case _ => None
  {
    assert (ts + [t])[..|ts|] == ts;
  }

  lemma {:induction false} RenderPrefixFails(ts: seq<Term>, k: nat, resolve: string -> Option<string>)
    requires k <= |ts| && RenderOf(ts[..k], resolve).None?
    ensures RenderOf(ts, resolve).None?
  {
    if k == |ts| {
      assert ts[..k] == ts;
    } else {
      assert ts[..|ts| - 1][..k] == ts[..k];
      RenderPrefixFails(ts[..|ts| - 1], k, resolve);
    }
  }

  method Render(ts: seq<Term>, resolve: string -> Option<string>) returns (r: Option<string>)
    ensures r == RenderOf(ts, resolve)
  {
    var buff := "";
    for i := 0 to |ts|
      invariant RenderOf(ts[..i], resolve) == Some(buff)
    {
      assert ts[..i + 1] == ts[..i] + [ts[i]];
      RenderStep(ts[..i], ts[i], resolve);
      var value := "";
      match ts[i] {
        case Literal(s) => value := s;
        case Var(v) =>
          var val := resolve(v.name);
          if val.Some? {
            value := val.value;
          } else if v.hasDefault {
            value := v.default;
          } else {
            RenderPrefixFails(ts, i + 1, resolve);
            return None;
          }
      }
      buff := buff + value;
    }
    assert ts[..|ts|] == ts;
    return Some(buff);
  }

  // ---- From a reading to its text

  /** The default that counts after these pieces: the last one that is not empty. */
  ghost predicate CountingDefault(ps: seq<Piece>, d: string) {
    || (d == "" && forall k | 0 <= k < |ps| && ps[k].Reference? :: ps[k].default == "")
    || (d != "" && exists j :: 0 <= j < |ps| && LastDefault(ps, j, d))
  }

  predicate LastDefault(ps: seq<Piece>, j: nat, d: string)
    requires j < |ps|
  {
    && ps[j].Reference? && ps[j].default == d
    && forall k | j < k < |ps| && ps[k].Reference? :: ps[k].default == ""
  }

  /** Some reference has a colon. */
  predicate HasColon(ps: seq<Piece>) { exists j :: 0 <= j < |ps| && ps[j].Reference? && ps[j].colon }

  /** What piece i of a reading becomes: its literal text, or the value of the variable, and only if it has
      none the default that counts by then. */
  ghost predicate Becomes(ps: seq<Piece>, i: nat, resolve: string -> Option<string>, s: string)
    requires i < |ps|
  {
    match ps[i]
    case Simple(t) => s == t
    case Dollar(c) => s == ['$', c]
    case Escaped(c) => s == [c]
    case Reference(name, _, _) =>
      if resolve(name).Some? then s == resolve(name).value
      else HasColon(ps[..i + 1]) && CountingDefault(ps[..i + 1], s)
  }

  function Concat(texts: seq<string>): string {
    if texts == [] then "" else texts[0] + Concat(texts[1..])
  }

  ghost predicate RendersTo(ps: seq<Piece>, resolve: string -> Option<string>, text: string) {
    exists texts: seq<string> ::
      && |texts| == |ps| && (forall i | 0 <= i < |ps| :: Becomes(ps, i, resolve, texts[i]))
      && text == Concat(texts)
  }

  /** Every reference has a value, or comes with or after a default. */
  ghost predicate AllKnown(ps: seq<Piece>, resolve: string -> Option<string>) {
    forall i | 0 <= i < |ps| && ps[i].Reference? :: resolve(ps[i].name).Some? || HasColon(ps[..i + 1])
  }

  lemma {:induction false} RegisterDefault(ps: seq<Piece>)
    ensures CountingDefault(ps, Register(ps).default)
  {
    if ps != [] {
      var n := |ps| - 1;
      var pre, d := ps[..n], Register(ps[..n]).default;
      RegisterDefault(pre);
      hide Register;
      assert forall k | 0 <= k < n :: pre[k] == ps[k];
      assert Register(ps) == Put(Register(pre), ps[n]) by { RegisterLast(ps); }
      if ps[n].Reference? && ps[n].default != "" {
        assert LastDefault(ps, n, ps[n].default);
      } else if d != "" {
        var j :| 0 <= j < n && LastDefault(pre, j, d);
        assert LastDefault(ps, j, d);
      }
    }
  }

  lemma RegisterLast(ps: seq<Piece>)
    requires ps != []
    ensures Register(ps) == Put(Register(ps[..|ps| - 1]), ps[|ps| - 1])
  {
  }

  lemma {:induction false} ThreadedAt(ps: seq<Piece>, i: nat)
    requires i < |ps|
    ensures Threaded(ps)[i] == TermOf(Register(ps[..i]), ps[i])
  {
    var n := |ps| - 1;
    if i < n {
      ThreadedAt(ps[..n], i);
      assert ps[..n][..i] == ps[..i];
    }
    hide Register;
  }

  lemma ConcatAppend(texts: seq<string>, t: string)
    ensures Concat(texts + [t]) == Concat(texts) + t
  {
    if texts != [] { assert (texts + [t])[1..] == texts[1..] + [t]; }
  }

  lemma {:induction false} RenderAll(ts: seq<Term>, resolve: string -> Option<string>)
    ensures RenderOf(ts, resolve).Some? <==> forall i | 0 <= i < |ts| :: TermValue(ts[i], resolve).Some?
    ensures forall texts: seq<string> ::
              |texts| == |ts| && (forall i | 0 <= i < |ts| :: TermValue(ts[i], resolve) == Some(texts[i])) ==>
                RenderOf(ts, resolve) == Some(Concat(texts))
  {
    hide TermValue;
    if ts != [] {
      var n := |ts| - 1;
      var pre, t := ts[..n], ts[n];
      assert pre + [t] == ts;
      RenderAll(pre, resolve);
      RenderStep(pre, t, resolve);
      hide RenderOf;
      assert forall i | 0 <= i < n :: pre[i] == ts[i];
      forall texts: seq<string> |
        |texts| == |ts| && (forall i | 0 <= i < |ts| :: TermValue(ts[i], resolve) == Some(texts[i]))
        ensures RenderOf(ts, resolve) == Some(Concat(texts))
      {
        ConcatAppend(texts[..n], texts[n]);
        assert texts[..n] + [texts[n]] == texts;
      }
    }
  }

  /** The value of the term that a piece is turned into. */
  lemma TermBecomes(ps: seq<Piece>, i: nat, resolve: string -> Option<string>)
    requires i < |ps|
    ensures var v := TermValue(Threaded(ps)[i], resolve);
            && (v.None? <==> ps[i].Reference? && resolve(ps[i].name).None? && !HasColon(ps[..i + 1]))
            && (v.Some? ==> Becomes(ps, i, resolve, v.value))
  {
    hide Threaded, Register, CountingDefault;
    ThreadedAt(ps, i);
    var qs := ps[..i + 1];
    assert qs[..i] == ps[..i] && qs[i] == ps[i];
    RegisterLast(qs);
    RegisterDefault(qs);
    RegisterIs(qs);
  }

  /** What a string that has a reading is rendered to. */
  lemma RenderedReading(data: string, out: seq<Term>, ok: bool, ps: seq<Piece>, resolve: string -> Option<string>)
    requires Parses(data, out, ok) && Reads(data, ps)
    ensures ok
    ensures RenderOf(out, resolve).Some? <==> AllKnown(ps, resolve)
    ensures RenderOf(out, resolve).Some? ==> RendersTo(ps, resolve, RenderOf(out, resolve).value)
  {
    hide Parses, Reads, Threaded, RenderOf, TermValue, Becomes, HasColon, Concat;
    AcceptsTheLanguage(data, out, ok);
    RenderAll(out, resolve);
    forall i: nat | i < |ps|
      ensures TermValue(out[i], resolve).None? <==>
              ps[i].Reference? && resolve(ps[i].name).None? && !HasColon(ps[..i + 1])
      ensures TermValue(out[i], resolve).Some? ==> Becomes(ps, i, resolve, TermValue(out[i], resolve).value)
    {
      TermBecomes(ps, i, resolve);
    }
    if RenderOf(out, resolve).Some? {
      var texts := seq(|ps|, i requires 0 <= i < |ps| && TermValue(out[i], resolve).Some? =>
                         TermValue(out[i], resolve).value);
      assert RenderOf(out, resolve) == Some(Concat(texts));
    }
  }

  /** The same but for the defaults. */
  predicate SameReferences(ps: seq<Piece>, qs: seq<Piece>) {
    && |ps| == |qs|
    && forall i | 0 <= i < |ps| ::
         if ps[i].Reference? then qs[i].Reference? && qs[i].name == ps[i].name else qs[i] == ps[i]
  }

  /** Where every variable has a value, defaults make no difference. */
  lemma DefaultsDoNotMatter(ps: seq<Piece>, qs: seq<Piece>, resolve: string -> Option<string>, text: string)
    requires SameReferences(ps, qs) && forall i | 0 <= i < |ps| && ps[i].Reference? :: resolve(ps[i].name).Some?
    ensures RendersTo(ps, resolve, text) <==> RendersTo(qs, resolve, text)
  {
    hide CountingDefault, HasColon, Concat;
    assert forall i, s | 0 <= i < |ps| :: Becomes(ps, i, resolve, s) <==> Becomes(qs, i, resolve, s);
  }

  /** A reference on its own: the value of the variable, or else its default, or else an error. */
  lemma ReferenceAlone(p: Piece, out: seq<Term>, ok: bool, resolve: string -> Option<string>)
    requires p.Reference? && ValidPiece(p) && Parses(PieceText(p), out, ok)
    ensures ok && RenderOf(out, resolve) == if resolve(p.name).Some? then resolve(p.name)
                                            else if p.colon then Some(p.default) else None
  {
    hide Parses, RenderOf, PieceText, HasColon, CountingDefault, RendersTo, Reads;
    OneReads(p);
    RenderedReading(PieceText(p), out, ok, [p], resolve);
    assert [p][..1] == [p] && [p][0] == p;
    OneReference(p);
    if RenderOf(out, resolve).Some? {
      OneText(p, resolve, RenderOf(out, resolve).value);
    }
  }

  lemma OneText(p: Piece, resolve: string -> Option<string>, text: string)
    requires RendersTo([p], resolve, text)
    ensures Becomes([p], 0, resolve, text)
  {
    hide Becomes;
    var texts: seq<string> :| |texts| == 1 && (forall i | 0 <= i < 1 :: Becomes([p], i, resolve, texts[i]))
                              && text == Concat(texts);
    assert texts[1..] == [] && Concat([]) == "" && texts[0] + "" == texts[0];
    assert Becomes([p], 0, resolve, texts[0]);
  }

  lemma OneReference(p: Piece)
    requires p.Reference? && ValidPiece(p)
    ensures HasColon([p]) <==> p.colon
    ensures forall s :: CountingDefault([p], s) ==> s == p.default
  {
    hide ValidPiece;
    assert [p][0] == p;
  }

  lemma OneReads(p: Piece)
    requires ValidPiece(p)
    ensures Reads(PieceText(p), [p])
  {
    hide ValidPiece, PieceText;
    assert [p][0] == p && [p][1..] == [] && Source([]) == "";
    assert PieceText(p) + "" == PieceText(p);
  }

  // ---- Escaping

  function Escape(s: string): string {
    if s == "" then "" else (if Special(s[0]) then ['\\', s[0]] else [s[0]]) + Escape(s[1..])
  }

  lemma {:induction false} EscapeOrdinary(s: string, n: nat)
    requires n <= |s| && Ordinary(s[..n])
    ensures Escape(s) == s[..n] + Escape(s[n..])
  {
    if n == 0 {
      assert s[0..] == s;
    } else {
      assert s[..n][0] == s[0];
      assert s[1..][..n - 1] == s[..n][1..] && s[1..][n - 1..] == s[n..];
      EscapeOrdinary(s[1..], n - 1);
      assert s[..n] == [s[0]] + s[1..][..n - 1];
    }
  }

  /** What pieces without references render to. */
  function LiteralText(ps: seq<Piece>): string
    requires forall i | 0 <= i < |ps| :: !ps[i].Reference?
  {
    if ps == [] then "" else TermOf(Variable("", "", false), ps[0]).text + LiteralText(ps[1..])
  }

  lemma LiteralTextCons(p: Piece, ps: seq<Piece>)
    requires !p.Reference? && forall i | 0 <= i < |ps| :: !ps[i].Reference?
    ensures LiteralText([p] + ps) == TermOf(Variable("", "", false), p).text + LiteralText(ps)
  {
    assert ([p] + ps)[1..] == ps;
  }

  lemma {:induction false} LiteralTextAppend(ps: seq<Piece>, p: Piece)
    requires !p.Reference? && forall i | 0 <= i < |ps| :: !ps[i].Reference?
    ensures LiteralText(ps + [p]) == LiteralText(ps) + TermOf(Variable("", "", false), p).text
  {
    if ps == [] {
      assert [] + [p] == [p] && [p][1..] == [];
    } else {
      assert (ps + [p])[1..] == ps[1..] + [p];
      LiteralTextAppend(ps[1..], p);
    }
  }

  lemma {:induction false} RenderLiterals(ps: seq<Piece>, resolve: string -> Option<string>)
    requires forall i | 0 <= i < |ps| :: !ps[i].Reference?
    ensures RenderOf(Threaded(ps), resolve) == Some(LiteralText(ps))
  {
    if ps != [] {
      var n := |ps| - 1;
      assert ps[..n] + [ps[n]] == ps;
      RenderLiterals(ps[..n], resolve);
      ThreadedStep(ps[..n], ps[n]);
      RenderStep(Threaded(ps[..n]), TermOf(Register(ps[..n]), ps[n]), resolve);
      LiteralTextAppend(ps[..n], ps[n]);
    }
    hide Threaded, LiteralText, RenderOf, Register;
  }

  /** How an escaped string begins. */
  lemma EscapeFirst(s: string) returns (p: Piece, n: nat)
    requires s != ""
    ensures 0 < n <= |s| && ValidPiece(p) && !p.Reference? && PieceText(p) + Escape(s[n..]) == Escape(s)
    ensures TermOf(Variable("", "", false), p) == Literal(s[..n])
    ensures p.Simple? ==> !Special(s[0]) && (n < |s| ==> Special(s[n]))
    ensures Special(s[0]) ==> !p.Simple?
  {
    if Special(s[0]) {
      p, n := Escaped(s[0]), 1;
      assert s[..1] == [s[0]];
    } else {
      RunPositive(s);
      p, n := Simple(s[..Run(s)]), Run(s);
      EscapeOrdinary(s, n);
      hide Escape, Run;
    }
  }

  /** The reading of an escaped string: no references, and literally the string. */
  lemma {:induction false} EscapeReads(s: string) returns (ps: seq<Piece>)
    ensures forall i | 0 <= i < |ps| :: !ps[i].Reference?
    ensures WellFormed(ps) && Source(ps) == Escape(s) && LiteralText(ps) == s
    ensures ps != [] ==> s != "" && (Special(s[0]) ==> !ps[0].Simple?)
    decreases |s|
  {
    if s == "" {
      ps := [];
    } else {
      hide Escape, PieceText, ValidPiece, WellFormed, Source, LiteralText;
      var p, n := EscapeFirst(s);
      var rest := EscapeReads(s[n..]);
      ps := [p] + rest;
      LiteralTextCons(p, rest);
      WellFormedCons(p, rest);
      assert s == s[..n] + s[n..];
    }
  }

  /** Prefixing every '$' and '\' with '\' makes any string parse, and render back to itself
      whatever the variables are. */
  lemma EscapeRoundTrip(s: string, out: seq<Term>, ok: bool, resolve: string -> Option<string>)
    requires Parses(Escape(s), out, ok)
    ensures ok && RenderOf(out, resolve) == Some(s)
  {
    hide Scan, Threaded, WellFormed, Source;
    var ps := EscapeReads(s);
    assert Reads(Escape(s), ps);
    AcceptsTheLanguage(Escape(s), out, ok);
    RenderLiterals(ps, resolve);
  }

  /** A string of ordinary characters is its own text. */
  lemma OrdinaryRendersItself(s: string, out: seq<Term>, ok: bool, resolve: string -> Option<string>)
    requires Ordinary(s) && Parses(s, out, ok)
    ensures ok && RenderOf(out, resolve) == Some(s)
  {
    EscapeOrdinary(s, |s|);
    assert s[..|s|] == s && s[|s|..] == "" && s + Escape("") == s;
    EscapeRoundTrip(s, out, ok, resolve);
  }
}

/** thrift/const.go as methods. */
module ThriftConst {
  import opened Option
  import opened Values
  import opened ThriftSpec
  import opened ThriftFields

  /** None: an unhashable map key makes the call panic. */
  method ConstToRequest(c: Const) returns (r: Option<Dyn>)
    ensures r == RequestOf(c)
    decreases c, 0
  {
    match c
    case ConstBool(b) => return Some(Bool(b));
    case ConstInt(n) => return Some(Int(GoInt64, n));
    case ConstDouble(d) => return Some(Float(d));
    case ConstString(s) => return Some(Str(s));
    case ConstReference(t) => r := ConstToRequest(t);
    case ConstEnumItem(n) => return Some(Int(GoInt32, n));
    case ConstSet(cs) =>
      var vs := ConstValueListToRequest(cs);
      return match vs case None => None case Some(l) => Some(List(l));
    case ConstList(cs) =>
      var vs := ConstValueListToRequest(cs);
      return match vs case None => None case Some(l) => Some(List(l));
    case ConstMap(es) =>
      var result: map<Key, Dyn> := map[];
      for i := 0 to |es|
        invariant RequestMap(es[..i]) == Some(result)
      {
        assert es[..i + 1][..i] == es[..i];
        assert es[i] < c && es[i].key < es[i] && es[i].value < es[i];
        var k := ConstToRequest(es[i].key);
        var v := ConstToRequest(es[i].value);
        if k.None? || v.None? || HashKey(k.value).None? {
          MapPrefixFails(es, i + 1);
          return None;
        }
        result := result[HashKey(k.value).value := v.value];
      }
      assert es[..|es|] == es;
      return Some(AnyMap(result));
    case ConstStruct(fields) =>
      var result: map<string, Dyn> := map[];
      var left := fields.Keys;
      while left != {}
        invariant left <= fields.Keys && result.Keys == fields.Keys - left
        invariant forall n | n in result :: RequestOf(fields[n]) == Some(result[n])
        decreases left
      {
        var n :| n in left;
        var v := ConstToRequest(fields[n]);
        if v.None? { return None; }
        result := result[n := v.value];
        left := left - {n};
      }
      StructRequest(fields, result);
      return Some(StrMap(result));
  }

  method ConstValueListToRequest(cs: seq<Const>) returns (r: Option<seq<Dyn>>)
    ensures r == RequestList(cs)
    decreases cs, 1
  {
    var result: seq<Dyn> := [];
    for i := 0 to |cs|
      invariant RequestList(cs[..i]) == Some(result)
    {
      assert cs[..i + 1][..i] == cs[..i];
      var v := ConstToRequest(cs[i]);
      if v.None? {
        ListPrefixFails(cs, i + 1);
        return None;
      }
      result := result + [v.value];
    }
    assert cs[..|cs|] == cs;
    return Some(result);
  }

  lemma StructRequest(fields: map<string, Const>, r: map<string, Dyn>)
    requires r.Keys == fields.Keys && forall n | n in r :: RequestOf(fields[n]) == Some(r[n])
    ensures RequestOf(ConstStruct(fields)) == Some(StrMap(r))
  {
    var c := ConstStruct(fields);
    assert forall n | n in c.fields :: RequestOf(c.fields[n]).Some?;
    assert RequestOf(c).Some? && RequestOf(c).value.StrMap?;
    assert RequestOf(c).value.fields == r;
  }

  lemma {:induction false} ListPrefixFails(cs: seq<Const>, k: nat)
    requires k <= |cs| && RequestList(cs[..k]).None?
    ensures RequestList(cs).None?
  {
    if k == |cs| {
      assert cs[..k] == cs;
    } else {
      assert cs[..|cs| - 1][..k] == cs[..k];
      ListPrefixFails(cs[..|cs| - 1], k);
    }
  }

  lemma {:induction false} MapPrefixFails(es: seq<ConstEntry>, k: nat)
    requires k <= |es| && RequestMap(es[..k]).None?
    ensures RequestMap(es).None?
  {
    if k == |es| {
      assert es[..k] == es;
    } else {
      assert es[..|es| - 1][..k] == es[..k];
      MapPrefixFails(es[..|es| - 1], k);
    }
  }
}

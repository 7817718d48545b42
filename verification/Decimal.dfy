/** Decimal text of integers: what strconv.Itoa, fmt.Sprint and json.Marshal print, and what
    strconv.ParseInt reads back. */
module Decimal {
  import opened Option

  predicate IsDigit(c: char) { '0' <= c <= '9' }

  function FormatNat(n: nat): (s: string)
    ensures |s| > 0 && IsDigit(s[0])
  {
    if n < 10 then ['0' + n as char] else FormatNat(n / 10) + ['0' + (n % 10) as char]
  }

  function Format(n: int): (s: string)
  {
    if n < 0 then "-" + FormatNat(-n) else FormatNat(n)
  }

  /** A non-empty run of decimal digits; leading zeros are allowed. */
  function ParseNat(s: string): Option<nat>
  {
    if |s| == 0 || !IsDigit(s[|s| - 1]) then None
    else
      var d := (s[|s| - 1] - '0') as nat;
      if |s| == 1 then Some(d)
      else match ParseNat(s[..|s| - 1])
        case None => None
        case Some(n) => Some(10 * n + d)
  }

  /** strconv.ParseInt(s, 10, bits) where limit is 2 to the power bits-1: an optional sign, digits, a range check. */
  function ParseInt(s: string, limit: int): Option<int>
  {
    var negative := |s| > 0 && s[0] == '-';
    var digits := if |s| > 0 && (s[0] == '-' || s[0] == '+') then s[1..] else s;
    match ParseNat(digits)
    case None => None
    case Some(n) =>
      if negative then (if n <= limit then Some(-(n as int)) else None)
      else if n < limit then Some(n) else None
  }

  lemma {:induction false} ParseNatFormat(n: nat)
    ensures ParseNat(FormatNat(n)) == Some(n)
  {
    if n >= 10 {
      ParseNatFormat(n / 10);
      var s := FormatNat(n);
      assert s[..|s| - 1] == FormatNat(n / 10);
    }
  }

  /** Printing then parsing is the identity on every integer in range, negatives included. */
  lemma ParseIntFormat(n: int, limit: int)
    requires -limit <= n < limit
    ensures ParseInt(Format(n), limit) == Some(n)
  {
    var digits := FormatNat(if n < 0 then -n else n);
    ParseNatFormat(if n < 0 then -n else n);
    assert IsDigit(digits[0]);
    assert n < 0 ==> Format(n)[1..] == digits;
    hide ParseNat, FormatNat;
  }

  lemma FormatInjective(a: int, b: int)
    requires Format(a) == Format(b)
    ensures a == b
  {
    var limit := (if a < 0 then -a else a) + (if b < 0 then -b else b) + 1;
    ParseIntFormat(a, limit);
    ParseIntFormat(b, limit);
  }

  // ---- What decimal text stands for

  predicate Digits(s: string) { s != "" && forall i | 0 <= i < |s| :: IsDigit(s[i]) }

  /** The number that digits stand for when read from the left, after those that gave acc. */
  function Value(s: string, acc: nat): nat
    requires forall i | 0 <= i < |s| :: IsDigit(s[i])
  {
    if s == "" then acc else Value(s[1..], 10 * acc + Digit(s[0]))
  }

  function Digit(c: char): nat
    requires IsDigit(c)
  {
    (c - '0') as nat
  }

  /** An optional sign, then digits. */
  predicate Denotes(s: string, n: int) {
    if s != "" && s[0] == '-' then Digits(s[1..]) && n == -(Value(s[1..], 0) as int)
    else if s != "" && s[0] == '+' then Digits(s[1..]) && n == Value(s[1..], 0)
    else Digits(s) && n == Value(s, 0)
  }

  lemma {:induction false} ValueLast(s: string, c: char, acc: nat)
    requires IsDigit(c) && forall i | 0 <= i < |s| :: IsDigit(s[i])
    ensures Value(s + [c], acc) == 10 * Value(s, acc) + Digit(c)
  {
    if s == "" {
      assert [c][1..] == "";
    } else {
      assert (s + [c])[1..] == s[1..] + [c];
      ValueLast(s[1..], c, 10 * acc + Digit(s[0]));
    }
  }

  lemma {:induction false} ParseNatIs(s: string)
    ensures ParseNat(s).Some? <==> Digits(s)
    ensures Digits(s) ==> ParseNat(s) == Some(Value(s, 0))
  {
    if s != "" {
      var n := |s| - 1;
      var pre := s[..n];
      assert pre + [s[n]] == s;
      ParseNatIs(pre);
      if Digits(s) {
        ValueLast(pre, s[n], 0);
        assert forall i | 0 <= i < n :: pre[i] == s[i];
      }
      if ParseNat(s).Some? && n > 0 {
        assert forall i | 0 <= i < n :: s[i] == pre[i];
      }
    }
  }

  /** Exactly the decimal texts of integers in range are read, each as the integer that it stands for. */
  lemma ParseIntIff(s: string, limit: int, n: int)
    requires limit > 0
    ensures ParseInt(s, limit) == Some(n) <==> Denotes(s, n) && -limit <= n < limit
  {
    hide ParseNat, Value;
    ParseNatIs(s);
    if s != "" { ParseNatIs(s[1..]); }
  }

  lemma {:induction false} NoLeadingZero(n: nat)
    requires n > 0
    ensures FormatNat(n)[0] != '0'
  {
    if n >= 10 { NoLeadingZero(n / 10); }
  }

  /** Printing gives the shortest text of an integer. */
  lemma FormatText(n: int)
    ensures Denotes(Format(n), n)
    ensures n == 0 ==> Format(n) == "0"
    ensures n > 0 ==> IsDigit(Format(n)[0]) && Format(n)[0] != '0'
    ensures n < 0 ==> |Format(n)| >= 2 && Format(n)[0] == '-' && IsDigit(Format(n)[1]) && Format(n)[1] != '0'
  {
    var limit := (if n < 0 then -n else n) + 1;
    ParseIntFormat(n, limit);
    ParseIntIff(Format(n), limit, n);
    if n != 0 { NoLeadingZero(if n < 0 then -n else n); }
    hide ParseInt, Denotes;
  }
}

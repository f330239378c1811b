/** Base-10 integer text as Go's fmt and strconv read and write it:
    `%d` / strconv.Itoa formatting, and strconv.ParseInt(s, 10, bits) / strconv.Atoi parsing. */
module Decimal {
  import opened Common

  const Minus: byte := 45
  const Plus: byte := 43

  predicate IsDigit(b: byte) { 48 <= b <= 57 }

  predicate AllDigits(s: Bytes)
  {
    forall i | 0 <= i < |s| :: IsDigit(s[i])
  }

  /** The number a run of decimal digits denotes, most significant digit first. */
  function DigitsValue(s: Bytes): nat
    requires AllDigits(s)
  {
    if s == [] then 0 else DigitsValue(s[..|s| - 1]) * 10 + (s[|s| - 1] as int - 48)
  }

  /** The shortest decimal digits of a natural number. */
  function FormatNat(n: nat): (r: Bytes)
    ensures r != [] && AllDigits(r)
    ensures DigitsValue(r) == n
    ensures |r| == 1 || r[0] != 48
  {
    if n < 10 then [(48 + n) as byte]
    else
      var r := FormatNat(n / 10) + [(48 + n % 10) as byte];
      assert r[..|r| - 1] == FormatNat(n / 10);
      r
  }

  /** fmt.Sprintf("%d", n): a minus sign for negative numbers, then the digits. */
  function FormatInt(n: int): (r: Bytes)
    ensures n >= 0 ==> r != [] && AllDigits(r) && DigitsValue(r) == n && (|r| == 1 || r[0] != 48)
    ensures n < 0 ==> |r| >= 2 && r[0] == Minus && AllDigits(r[1..]) && DigitsValue(r[1..]) == -n && r[1] != 48
  {
    if n < 0 then [Minus] + FormatNat(-n) else FormatNat(n)
  }

  /** strconv.ParseInt(s, 10, bits) with the range of the bit size given as
      [lo, hi]: an optional sign, then one or more decimal digits, whose value
      must lie in range. None stands for Go's syntax and range errors alike. */
  function ParseInt(s: Bytes, lo: int, hi: int): (r: Option<int>)
    ensures r.Some? ==> lo <= r.value <= hi
    ensures r.Some? ==> s != [] && AllDigits(if s[0] == Minus || s[0] == Plus then s[1..] else s)
  {
    if s == [] then None
    else
      var body := if s[0] == Minus || s[0] == Plus then s[1..] else s;
      if body == [] || !AllDigits(body) then None
      else
        var v: int := if s[0] == Minus then 0 - DigitsValue(body) as int else DigitsValue(body);
        if lo <= v <= hi then Some(v) else None
  }

  /** ParseInt accepts every run of digits, bare or after either sign,
      exactly when the value it denotes lies in range. */
  lemma ParseIntDigits(d: Bytes, lo: int, hi: int)
    requires d != [] && AllDigits(d)
    ensures ParseInt(d, lo, hi) == if lo <= DigitsValue(d) <= hi then Some(DigitsValue(d) as int) else None
    ensures ParseInt([Plus] + d, lo, hi) == if lo <= DigitsValue(d) <= hi then Some(DigitsValue(d) as int) else None
    ensures ParseInt([Minus] + d, lo, hi) == if lo <= 0 - DigitsValue(d) as int <= hi then Some(0 - DigitsValue(d) as int) else None
  {
    assert IsDigit(d[0]);
    assert ([Plus] + d)[1..] == d && ([Minus] + d)[1..] == d;
  }

  /** Formatting then parsing gives back every in-range integer. */
  lemma FormatParseRoundTrip(n: int, lo: int, hi: int)
    requires lo <= n <= hi
    ensures ParseInt(FormatInt(n), lo, hi) == Some(n)
  {
    var s := FormatInt(n);
    if n < 0 {
      assert s[1..] == FormatNat(-n);
    } else {
      assert s == FormatNat(n) && IsDigit(s[0]);
    }
  }

  /** Formatted integers contain no byte other than digits and a leading minus. */
  lemma FormatIntBytes(n: int)
    ensures forall i | 0 <= i < |FormatInt(n)| :: IsDigit(FormatInt(n)[i]) || (i == 0 && FormatInt(n)[i] == Minus)
  {
    if n < 0 {
      var d := FormatNat(-n);
      assert forall i | 1 <= i < |FormatInt(n)| :: FormatInt(n)[i] == d[i - 1];
    }
  }
}

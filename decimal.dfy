/** Decimal integers as Go's strconv writes them (`strconv.FormatInt(n, 10)`, which
    json.Marshal uses for an int64 and fmt's `%d` verb prints the same way), with a
    reader that recovers the value. */
module Decimal {
  import opened Types

  predicate IsDigit(c: byte) {
    '0' <= c <= '9'
  }

  function DigitChar(d: int): (c: byte)
    requires 0 <= d < 10
    ensures IsDigit(c)
  {
    ('0' as int + d) as char
  }

  /** The decimal digits of `n`, most significant first, without leading zeros. */
  function Digits(n: nat): (r: Bytes)
    ensures |r| >= 1 && forall i :: 0 <= i < |r| ==> IsDigit(r[i])
    ensures r[0] == '0' ==> n == 0
    decreases n
  {
    if n < 10 then [DigitChar(n)] else Digits(n / 10) + [DigitChar(n % 10)]
  }

  /** `strconv.FormatInt(n, 10)`: a minus sign for negatives, then the digits. */
  function FormatInt(n: int): (r: Bytes)
    ensures |r| >= 1 && (r[0] == '-' <==> n < 0)
    ensures forall i :: 0 <= i < |r| ==> IsDigit(r[i]) || (i == 0 && r[i] == '-')
  {
    if n < 0 then ['-'] + Digits(-n) else Digits(n)
  }

  /** The number of digits at the front of `t`. */
  function DigitSpan(t: Bytes): (k: nat)
    ensures k <= |t|
    ensures forall i :: 0 <= i < k ==> IsDigit(t[i])
    ensures k < |t| ==> !IsDigit(t[k])
    decreases |t|
  {
    if |t| == 0 || !IsDigit(t[0]) then 0 else 1 + DigitSpan(t[1..])
  }

  /** The number a run of decimal digits spells. */
  function DigitsValue(ds: Bytes): nat
    requires forall i :: 0 <= i < |ds| ==> IsDigit(ds[i])
    decreases |ds|
  {
    if ds == [] then 0
    else
      var last := ds[|ds| - 1];
      assert IsDigit(last);
      DigitsValue(ds[..|ds| - 1]) * 10 + (last as int - '0' as int)
  }

  /** Reads an optionally negative decimal integer from the front of `t`. */
  function ReadInt(t: Bytes): (r: Option<(int, Bytes)>)
    ensures r.Some? ==> |r.value.1| < |t|
  {
    var neg := |t| > 0 && t[0] == '-';
    var u := if neg then t[1..] else t;
    var k := DigitSpan(u);
    if k == 0 then None
    else
      var n: int := DigitsValue(u[..k]);
      Some((if neg then -n else n, u[k..]))
  }

  lemma {:induction false} DigitsValueOf(n: nat)
    ensures DigitsValue(Digits(n)) == n
    decreases n
  {
    if n >= 10 {
      var ds := Digits(n);
      DigitsValueOf(n / 10);
      assert ds[..|ds| - 1] == Digits(n / 10);
    }
  }

  lemma {:induction false} DigitSpanOf(ds: Bytes, rest: Bytes)
    requires forall i :: 0 <= i < |ds| ==> IsDigit(ds[i])
    requires rest == [] || !IsDigit(rest[0])
    ensures DigitSpan(ds + rest) == |ds|
    decreases |ds|
  {
    if ds != [] {
      DigitSpanOf(ds[1..], rest);
      assert (ds + rest)[1..] == ds[1..] + rest;
    }
  }

  lemma ReadDigits(n: nat, rest: Bytes)
    requires rest == [] || !IsDigit(rest[0])
    ensures DigitSpan(Digits(n) + rest) == |Digits(n)|
    ensures DigitsValue((Digits(n) + rest)[..|Digits(n)|]) == n
    ensures (Digits(n) + rest)[|Digits(n)|..] == rest
  {
    var ds := Digits(n);
    DigitSpanOf(ds, rest);
    DigitsValueOf(n);
    assert (ds + rest)[..|ds|] == ds;
  }

  lemma ReadNonNegative(n: nat, rest: Bytes)
    requires rest == [] || !IsDigit(rest[0])
    ensures ReadInt(Digits(n) + rest) == Some((n, rest))
  {
    var t := Digits(n) + rest;
    ReadDigits(n, rest);
    assert t[0] != '-';
  }

  lemma ReadNegative(n: nat, rest: Bytes)
    requires n > 0
    requires rest == [] || !IsDigit(rest[0])
    ensures ReadInt(['-'] + Digits(n) + rest) == Some((-(n as int), rest))
  {
    var t := ['-'] + Digits(n) + rest;
    var u := Digits(n) + rest;
    ReadDigits(n, rest);
    assert t[0] == '-' && t[1..] == u;
    var k := DigitSpan(u);
    assert k == |Digits(n)| && DigitsValue(u[..k]) == n && u[k..] == rest;
  }

  /** The reader recovers the written integer, and stops where the digits end. */
  lemma ReadFormatInt(n: int, rest: Bytes)
    requires rest == [] || !IsDigit(rest[0])
    ensures ReadInt(FormatInt(n) + rest) == Some((n, rest))
  {
    if n < 0 {
      ReadNegative(-n, rest);
    } else {
      ReadNonNegative(n, rest);
    }
  }
}

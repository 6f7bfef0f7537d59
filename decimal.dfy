/**
 * Python's decimal conversions between integers and text: `str(n)` and `int(s)`.
 */
module Decimal {
  import opened Wrappers

  predicate IsDigit(c: char) { '0' <= c <= '9' }

  function DigitChar(d: int): (c: char)
    requires 0 <= d < 10
    ensures IsDigit(c)
  {
    ('0' as int + d) as char
  }

  function DigitValue(c: char): (d: int)
    requires IsDigit(c)
    ensures 0 <= d < 10
  {
    c as int - '0' as int
  }

  /** `str(n)` for a non-negative integer: no sign, no leading zero. */
  function NatToString(n: nat): string
    decreases n
  {
    if n < 10 then [DigitChar(n)] else NatToString(n / 10) + [DigitChar(n % 10)]
  }

  /** `str(i)`: a minus sign in front of the digits of a negative number. */
  function IntToString(i: int): string {
    if i < 0 then "-" + NatToString(-i) else NatToString(i)
  }

  function Pow10(k: nat): nat {
    if k == 0 then 1 else 10 * Pow10(k - 1)
  }

  /** `str(n)` has only digits, does not start with `0` unless n is 0, and has `k`
      characters exactly when 10^(k-1) <= n < 10^k. */
  lemma {:induction false} NatToStringShape(n: nat, k: nat)
    requires 1 <= k
    requires (if k == 1 then 0 else Pow10(k - 1)) <= n < Pow10(k)
    ensures |NatToString(n)| == k
    ensures forall i :: 0 <= i < |NatToString(n)| ==> IsDigit(NatToString(n)[i])
    ensures n >= 10 ==> NatToString(n)[0] != '0'
    decreases n
  {
    if n >= 10 {
      assert k >= 2;
      NatToStringShape(n / 10, k - 1);
    }
  }

  // ---------------------------------------------------------------------------
  // `int(s)` for base 10

  /** The six characters `int` skips around the digits of all-ASCII text: space, tab,
      line feed, carriage return, vertical tab and form feed.  (CPython maps other
      whitespace, `\x1c`-`\x1f` included, to a space only when the text holds a
      non-ASCII character.) */
  predicate IsSpace(c: char) {
    c == ' ' || c == '\t' || c == '\n' || c == '\r' || c == '\U{000B}' || c == '\U{000C}'
  }

  function TrimStart(s: string): (r: string)
    ensures |r| <= |s|
  {
    if s != [] && IsSpace(s[0]) then TrimStart(s[1..]) else s
  }

  function TrimEnd(s: string): (r: string)
    ensures |r| <= |s|
  {
    if s != [] && IsSpace(s[|s| - 1]) then TrimEnd(s[..|s| - 1]) else s
  }

  /** Digits with single underscores between them, as Python's integer literals allow. */
  predicate IsDigitRun(s: string) {
    && |s| >= 1
    && IsDigit(s[0]) && IsDigit(s[|s| - 1])
    && (forall i :: 0 <= i < |s| ==> IsDigit(s[i]) || s[i] == '_')
    && (forall i :: 0 <= i < |s| - 1 ==> !(s[i] == '_' && s[i + 1] == '_'))
  }

  /** The value of a digit run, read most significant digit first; underscores are skipped. */
  function RunValue(s: string): nat
    requires forall i :: 0 <= i < |s| ==> IsDigit(s[i]) || s[i] == '_'
  {
    if s == [] then 0
    else if s[|s| - 1] == '_' then RunValue(s[..|s| - 1])
    else 10 * RunValue(s[..|s| - 1]) + DigitValue(s[|s| - 1])
  }

  /** `int(s)` restricted to ASCII: optional ASCII whitespace around an optional sign and
      ASCII digits with single underscores between them.  `None` is the `ValueError`
      Python raises.  Python also accepts the other Unicode decimal digits and Unicode
      whitespace, which this function rejects. */
  function ParseInt(s: string): Option<int> {
    var t := TrimEnd(TrimStart(s));
    if |t| >= 1 && (t[0] == '-' || t[0] == '+') then
      (if IsDigitRun(t[1..])
       then var v: int := RunValue(t[1..]); Some(if t[0] == '-' then -v else v)
       else None)
    else if IsDigitRun(t) then Some(RunValue(t))
    else None
  }

  /** Reading back the digits of `str(n)` gives `n`. */
  lemma {:induction false} RunValueNatToString(n: nat)
    ensures forall i :: 0 <= i < |NatToString(n)| ==> IsDigit(NatToString(n)[i])
    ensures RunValue(NatToString(n)) == n
    decreases n
  {
    if n >= 10 {
      RunValueNatToString(n / 10);
      var s := NatToString(n);
      assert s[..|s| - 1] == NatToString(n / 10);
    }
  }

  /** Text that begins and ends with a digit or a sign is left alone by the trimming. */
  lemma TrimNothing(s: string)
    requires |s| >= 1 && !IsSpace(s[0]) && !IsSpace(s[|s| - 1])
    ensures TrimEnd(TrimStart(s)) == s
  {
  }

  /** `int(str(i)) == i` for every integer. */
  lemma ParseIntToString(i: int)
    ensures ParseInt(IntToString(i)) == Some(i)
  {
    var m: nat := if i < 0 then -i else i;
    var d := NatToString(m);
    RunValueNatToString(m);
    assert IsDigitRun(d);
    var s := IntToString(i);
    TrimNothing(s);
    if i < 0 {
      assert s[1..] == d;
      assert s[0] == '-';
    } else {
      assert s == d;
      assert s[0] != '-' && s[0] != '+';
    }
  }
}

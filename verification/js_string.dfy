/**
 * The JavaScript string operations the upload validator calls, with their
 * JavaScript semantics: `toLowerCase` (on the ASCII range), `lastIndexOf`,
 * one-argument `substring`, `startsWith`, `Array.prototype.join`, and the
 * two-decimal rendering `Number.prototype.toFixed(2)` of a size in MiB.
 */
module JsString {

  /** Lower-cases one character; only 'A'..'Z' change. */
  function LowerChar(c: char): char {
    if 'A' <= c <= 'Z' then (c as int + 32) as char else c
  }

  /** `s.toLowerCase()` restricted to ASCII case mapping. */
  function ToLower(s: string): (r: string)
    ensures |r| == |s|
    ensures forall i :: 0 <= i < |s| ==> r[i] == LowerChar(s[i])
  {
    if s == [] then [] else [LowerChar(s[0])] + ToLower(s[1..])
  }

  /** Lower-casing never creates or removes a '.'. */
  lemma LowerCharKeepsDot(c: char)
    ensures LowerChar(c) == '.' <==> c == '.'
  {
  }

  /** `s.lastIndexOf(c)`: the position of the last occurrence of `c`, or -1. */
  function LastIndexOf(s: string, c: char): (i: int)
    ensures -1 <= i < |s|
    ensures i == -1 <==> c !in s
    ensures 0 <= i ==> s[i] == c && forall j :: i < j < |s| ==> s[j] != c
  {
    if s == [] then -1
    else if s[|s| - 1] == c then |s| - 1
    else LastIndexOf(s[..|s| - 1], c)
  }

  /** `s.substring(start)`: a negative start counts as 0, a start past the end as the end. */
  function Substring(s: string, start: int): string {
    if start <= 0 then s else if start >= |s| then [] else s[start..]
  }

  /** The substring from a start is the suffix of `s` whose length the clamped start leaves. */
  lemma SubstringSuffix(s: string, start: int)
    ensures EndsWith(s, Substring(s, start))
    ensures |Substring(s, start)| == if start <= 0 then |s| else if start >= |s| then 0 else |s| - start
  {
  }

  predicate StartsWith<T(==)>(s: seq<T>, prefix: seq<T>) {
    |prefix| <= |s| && s[..|prefix|] == prefix
  }

  predicate EndsWith<T(==)>(s: seq<T>, suffix: seq<T>) {
    |suffix| <= |s| && s[|s| - |suffix|..] == suffix
  }

  /** The total length of some strings. */
  function TotalLength(parts: seq<string>): nat {
    if parts == [] then 0 else |parts[0]| + TotalLength(parts[1..])
  }

  /** `parts.join(sep)`: every part once, in order, with one separator between neighbours. */
  function Join(parts: seq<string>, sep: string): (r: string)
    ensures parts != [] ==> StartsWith(r, parts[0])
    ensures parts != [] ==> |r| == TotalLength(parts) + (|parts| - 1) * |sep|
  {
    if parts == [] then []
    else if |parts| == 1 then parts[0]
    else parts[0] + sep + Join(parts[1..], sep)
  }

  lemma JoinOne(a: string, sep: string)
    ensures Join([a], sep) == a
  {
  }

  lemma JoinTwo(a: string, b: string, sep: string)
    ensures Join([a, b], sep) == a + sep + b
  {
    assert [a, b][1..] == [b];
  }

  function DigitChar(d: nat): char
    requires d < 10
  {
    ('0' as int + d) as char
  }

  predicate IsDigit(c: char) {
    '0' <= c <= '9'
  }

  /** The decimal digits of `n`, without leading zeros (`String(n)` for a natural number). */
  function NatToDecimal(n: nat): (r: string)
    ensures |r| >= 1 && forall i :: 0 <= i < |r| ==> IsDigit(r[i])
    ensures |r| > 1 ==> r[0] != '0'
  {
    if n < 10 then [DigitChar(n)] else NatToDecimal(n / 10) + [DigitChar(n % 10)]
  }

  /** The number a string of decimal digits denotes: the reference reading of NatToDecimal. */
  function DecimalValue(s: string): nat
    requires forall i :: 0 <= i < |s| ==> IsDigit(s[i])
  {
    if s == [] then 0 else 10 * DecimalValue(s[..|s| - 1]) + DigitValue(s[|s| - 1])
  }

  function DigitValue(c: char): nat
    requires IsDigit(c)
  {
    c as int - '0' as int
  }

  lemma {:induction false} DecimalRoundTrip(n: nat)
    ensures DecimalValue(NatToDecimal(n)) == n
  {
    if n >= 10 {
      DecimalRoundTrip(n / 10);
      var s := NatToDecimal(n);
      assert s[..|s| - 1] == NatToDecimal(n / 10);
    }
  }

  /**
   * `(size / 1024 / 1024).toFixed(2)` in hundredths: dividing an integer below
   * 2^53 by 1024 twice is exact in binary floating point, and `toFixed(2)`
   * picks the integer n nearest to 100 * size / 2^20, the larger one on a tie.
   */
  function MiBHundredths(size: nat): (n: nat)
    ensures -524288 < n * 1048576 - 100 * size <= 524288
  {
    (100 * size + 524288) / 1048576
  }

  /** The text `toFixed(2)` produces for a size in MiB: integer part, '.', two digits. */
  function MiBText(size: nat): (r: string)
    ensures |r| >= 4 && r[|r| - 3] == '.'
  {
    var n := MiBHundredths(size);
    NatToDecimal(n / 100) + "." + [DigitChar(n / 10 % 10), DigitChar(n % 10)]
  }

  /** Reading MiBText back as digits gives the hundredths it was made from. */
  lemma MiBTextValue(size: nat)
    ensures var r := MiBText(size);
      && (forall i :: 0 <= i < |r| && i != |r| - 3 ==> IsDigit(r[i]))
      && DecimalValue(r[..|r| - 3]) * 100 + DecimalValue(r[|r| - 2..]) == MiBHundredths(size)
  {
    var n := MiBHundredths(size);
    var whole, frac := NatToDecimal(n / 100), [DigitChar(n / 10 % 10), DigitChar(n % 10)];
    var r := MiBText(size);
    assert r == whole + "." + frac;
    assert r[..|r| - 3] == whole && r[|r| - 2..] == frac;
    DecimalRoundTrip(n / 100);
    TwoDigits(n / 10 % 10, n % 10);
    HundredsSplit(n);
  }

  lemma TwoDigits(a: nat, b: nat)
    requires a < 10 && b < 10
    ensures DecimalValue([DigitChar(a), DigitChar(b)]) == 10 * a + b
  {
    var s := [DigitChar(a), DigitChar(b)];
    assert s[..1] == [DigitChar(a)] && s[..1][..0] == [];
    assert DigitValue(DigitChar(a)) == a && DigitValue(DigitChar(b)) == b;
    assert DecimalValue(s[..1]) == a;
  }

  lemma HundredsSplit(n: nat)
    ensures n == n / 100 * 100 + 10 * (n / 10 % 10) + n % 10
  {
    var q := n / 10;
    assert n == 10 * q + n % 10;
    assert q == 10 * (q / 10) + q % 10;
    assert n / 100 == q / 10;
  }
}

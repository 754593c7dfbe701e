/** JavaScript's `parseInt(string, 10)` over the `.ifo` values, and the trip
    count of the `for (let i = 0; i < n; i += 1)` loops that read `.idx`
    records. Only the numbers `parseInt` can produce are modelled: an integer
    or NaN. */
module JsNumbers {

  /** A number produced by `parseInt`: NaN, or an integer (`-0` is folded into 0,
      which no comparison `i < n` with a natural `i` can tell apart). */
  datatype Num = NaN | Int(value: int)

  /** ECMAScript WhiteSpace and LineTerminator code points, which `parseInt`
      skips before the number. */
  predicate IsJsSpace(c: char)
  {
    c == '\t' || c == '\n' || c == '\U{B}' || c == '\U{C}' || c == '\r' || c == ' '
    || c == '\U{A0}' || c == '\U{1680}' || ('\U{2000}' <= c <= '\U{200A}')
    || c == '\U{2028}' || c == '\U{2029}' || c == '\U{202F}' || c == '\U{205F}'
    || c == '\U{3000}' || c == '\U{FEFF}'
  }

  predicate IsDigit(c: char)
  {
    '0' <= c <= '9'
  }

  /** The string without its leading whitespace. */
  function TrimStart(s: string): (r: string)
    ensures |r| <= |s| && r == s[|s| - |r|..]
    ensures r == [] || !IsJsSpace(r[0])
  {
    if s != [] && IsJsSpace(s[0]) then TrimStart(s[1..]) else s
  }

  /** Everything `TrimStart` drops is whitespace. */
  lemma {:induction false} TrimStartDropsSpaces(s: string)
    ensures forall i :: 0 <= i < |s| - |TrimStart(s)| ==> IsJsSpace(s[i])
  {
    if s != [] && IsJsSpace(s[0]) {
      TrimStartDropsSpaces(s[1..]);
      forall i | 1 <= i < |s| - |TrimStart(s)| ensures IsJsSpace(s[i]) {
        assert s[i] == s[1..][i - 1];
      }
    }
  }

  /** The longest prefix made of decimal digits. */
  function LeadingDigits(s: string): (r: string)
    ensures |r| <= |s| && r == s[..|r|]
    ensures forall i :: 0 <= i < |r| ==> IsDigit(r[i])
    ensures |r| == |s| || !IsDigit(s[|r|])
  {
    if s != [] && IsDigit(s[0]) then [s[0]] + LeadingDigits(s[1..]) else []
  }

  /** The value of a string of decimal digits, most significant first. */
  function DigitsValue(d: string): nat
    requires forall i :: 0 <= i < |d| ==> IsDigit(d[i])
  {
    if d == [] then 0
    else DigitsValue(d[..|d| - 1]) * 10 + DigitValue(d[|d| - 1])
  }

  function DigitValue(c: char): nat
    requires IsDigit(c)
  {
    c as int - '0' as int
  }

  /** The text after an optional leading sign. */
  function Unsigned(t: string): (u: string)
    ensures |u| <= |t| <= |u| + 1 && u == t[|t| - |u|..]
    ensures |u| < |t| <==> t != [] && (t[0] == '-' || t[0] == '+')
  {
    if t != [] && (t[0] == '-' || t[0] == '+') then t[1..] else t
  }

  /** `parseInt(s, 10)`: skip leading whitespace, take an optional sign, then
      the longest run of decimal digits; NaN when that run is empty. */
  function ParseInt(s: string): (r: Num)
    ensures var u := Unsigned(TrimStart(s));
      r.Int? <==> u != [] && IsDigit(u[0])
    ensures r.Int? && r.value < 0 ==> TrimStart(s)[0] == '-'
  {
    var t := TrimStart(s);
    var z := LeadingDigits(Unsigned(t));
    if z == [] then NaN
    else if t[0] == '-' then Int(-(DigitsValue(z) as int))
    else Int(DigitsValue(z))
  }

  /** The canonical decimal rendering of `n` (JavaScript's `String(n)`). */
  function Decimal(n: nat): (r: string)
    ensures r != [] && forall i :: 0 <= i < |r| ==> IsDigit(r[i])
  {
    if n < 10 then [('0' as int + n) as char]
    else Decimal(n / 10) + [('0' as int + n % 10) as char]
  }

  lemma {:induction false} DigitsValueDecimal(n: nat)
    ensures DigitsValue(Decimal(n)) == n
  {
    var d := Decimal(n);
    if n >= 10 {
      DigitsValueDecimal(n / 10);
      assert d[..|d| - 1] == Decimal(n / 10);
    }
  }

  /** `parseInt` reads back what `String(n)` writes, whatever follows the digits
      (as in "12 words" or "3.5"), and with any leading whitespace. */
  lemma ParseIntDecimal(ws: string, n: nat, rest: string)
    requires forall i :: 0 <= i < |ws| ==> IsJsSpace(ws[i])
    requires rest == [] || !IsDigit(rest[0])
    ensures ParseInt(ws + Decimal(n) + rest) == Int(n)
  {
    var d := Decimal(n);
    var t := d + rest;
    Regroup(ws, d, rest);
    assert t[0] == d[0] && IsDigit(d[0]);
    TrimSpaces(ws, t);
    LeadingDigitsOf(d, rest);
    DigitsValueDecimal(n);
    UnsignedParse(ws + t);
  }

  lemma Regroup(ws: string, d: string, rest: string)
    ensures ws + d + rest == ws + (d + rest)
  {
  }

  lemma SignRegroup(ws: string, d: string, rest: string)
    ensures ws + "-" + d + rest == ws + (['-'] + (d + rest))
    ensures Unsigned(['-'] + (d + rest)) == d + rest
  {
    assert (['-'] + (d + rest))[1..] == d + rest;
  }

  /** In particular `parseInt(String(n), 10)` is `n`. */
  lemma ParseIntOfDecimal(n: nat)
    ensures ParseInt(Decimal(n)) == Int(n)
  {
    DecimalAlone(Decimal(n));
    DigitsValueDecimal(n);
  }

  /** A digit string on its own is kept whole by each step of `parseInt`. */
  lemma DecimalAlone(d: string)
    requires d != [] && forall i :: 0 <= i < |d| ==> IsDigit(d[i])
    ensures TrimStart(d) == d && Unsigned(d) == d && LeadingDigits(d) == d
  {
    DigitFirst(d[0]);
    assert d + [] == d;
    LeadingDigitsOf(d, []);
  }

  lemma DigitFirst(c: char)
    requires IsDigit(c)
    ensures !IsJsSpace(c) && c != '-' && c != '+'
  {
  }

  lemma UnsignedParse(s: string)
    requires TrimStart(s) != [] && IsDigit(TrimStart(s)[0])
    ensures ParseInt(s) == Int(DigitsValue(LeadingDigits(TrimStart(s))))
  {
  }

  /** The same with a minus sign between the whitespace and the digits. */
  lemma ParseIntNegative(ws: string, n: nat, rest: string)
    requires forall i :: 0 <= i < |ws| ==> IsJsSpace(ws[i])
    requires rest == [] || !IsDigit(rest[0])
    ensures ParseInt(ws + "-" + Decimal(n) + rest) == Int(-(n as int))
  {
    var d := Decimal(n);
    var u := d + rest;
    var t := ['-'] + u;
    SignRegroup(ws, d, rest);
    TrimSpaces(ws, t);
    LeadingDigitsOf(d, rest);
    DigitsValueDecimal(n);
    NegativeParse(ws + t);
  }

  lemma NegativeParse(s: string)
    requires TrimStart(s) != [] && TrimStart(s)[0] == '-' && LeadingDigits(Unsigned(TrimStart(s))) != []
    ensures ParseInt(s) == Int(-(DigitsValue(LeadingDigits(Unsigned(TrimStart(s)))) as int))
  {
  }

  /** Without a digit after the whitespace and sign the result is NaN, never 0. */
  lemma ParseIntNoDigits(s: string)
    requires var u := Unsigned(TrimStart(s));
      u == [] || !IsDigit(u[0])
    ensures ParseInt(s) == NaN
  {
  }

  lemma {:induction false} TrimSpaces(ws: string, s: string)
    requires forall i :: 0 <= i < |ws| ==> IsJsSpace(ws[i])
    requires s == [] || !IsJsSpace(s[0])
    ensures TrimStart(ws + s) == s
  {
    if ws != [] {
      assert (ws + s)[1..] == ws[1..] + s;
      TrimSpaces(ws[1..], s);
    }
  }

  lemma {:induction false} LeadingDigitsOf(d: string, rest: string)
    requires forall i :: 0 <= i < |d| ==> IsDigit(d[i])
    requires rest == [] || !IsDigit(rest[0])
    ensures LeadingDigits(d + rest) == d
  {
    if d != [] {
      assert (d + rest)[1..] == d[1..] + rest;
      LeadingDigitsOf(d[1..], rest);
    }
  }

  /** `i < n` for a loop counter `i` and a number `n` (false when `n` is NaN). */
  predicate Below(i: nat, n: Num)
  {
    n.Int? && i < n.value
  }

  /** The number of passes of `for (let i = 0; i < n; i += 1)`. */
  function Trips(n: Num): (t: nat)
    ensures forall i: nat :: i < t <==> Below(i, n)
  {
    if n.Int? && n.value > 0 then n.value else 0
  }
}

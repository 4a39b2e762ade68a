/** The JavaScript value semantics the calculator relies on: nullable numbers,
    truthiness, the `Number(x) || 0` coercion, `s.replace(/,/g, '')` and
    `parseInt(s, 10)`. */
module JsValues {

  datatype Option<T> = None | Some(value: T)

  /** A `number | null` field: null, NaN, or a finite number (kept exact). */
  datatype Num = Null | NaN | Of(value: real)

  /** JavaScript truthiness of a `number | null`: null, NaN and 0 are falsy. */
  predicate Truthy(x: Num) {
    x.Of? && x.value != 0.0
  }

  /** `Number(x) || 0`: a truthy value is kept and a falsy one gives the
      right operand 0, so the result is non-zero exactly when x is truthy. */
  function Coerce(x: Num): (v: real)
    ensures Truthy(x) <==> v != 0.0
    ensures Truthy(x) ==> v == x.value
  {
    if x.Of? then x.value else 0.0
  }

  // ---------------------------------------------------------------------------
  // s.replace(/,/g, '')

  function StripCommas(s: string): (r: string)
    ensures ',' !in r
    ensures |r| <= |s|
    ensures forall c :: c != ',' ==> multiset(r)[c] == multiset(s)[c]
  {
    if s == [] then []
    else
      var rest := StripCommas(s[1..]);
      assert s == [s[0]] + s[1..];
      if s[0] == ',' then rest else [s[0]] + rest
  }

  lemma {:induction false} StripCommasNoComma(s: string)
    requires ',' !in s
    ensures StripCommas(s) == s
  {
    if s != [] {
      assert s[0] in s;
      assert s == [s[0]] + s[1..];
      StripCommasNoComma(s[1..]);
    }
  }

  lemma {:induction false} StripCommasAppend(a: string, b: string)
    ensures StripCommas(a + b) == StripCommas(a) + StripCommas(b)
  {
    if a != [] {
      assert (a + b)[1..] == a[1..] + b;
      StripCommasAppend(a[1..], b);
    } else {
      assert a + b == b;
    }
  }

  // ---------------------------------------------------------------------------
  // parseInt(s, 10)

  /** StrWhiteSpaceChar of ECMAScript (section 7.1.4.1 of ECMA-262): the white
      space and line terminators that parseInt skips before the number. */
  predicate IsSpace(c: char) {
    var u := c as int;
    u == 0x09 || u == 0x0A || u == 0x0B || u == 0x0C || u == 0x0D || u == 0x20
    || u == 0xA0 || u == 0x1680 || (0x2000 <= u <= 0x200A) || u == 0x2028
    || u == 0x2029 || u == 0x202F || u == 0x205F || u == 0x3000 || u == 0xFEFF
  }

  predicate IsDigit(c: char) {
    '0' <= c <= '9'
  }

  function DigitValue(c: char): nat
    requires IsDigit(c)
  {
    c as int - '0' as int
  }

  function DigitChar(d: nat): (c: char)
    requires d < 10
    ensures IsDigit(c) && DigitValue(c) == d
  {
    (d + '0' as int) as char
  }

  predicate AllDigits(s: string) {
    forall i :: 0 <= i < |s| ==> IsDigit(s[i])
  }

  function SkipSpace(s: string): (r: string)
    ensures r == [] || !IsSpace(r[0])
  {
    if s != [] && IsSpace(s[0]) then SkipSpace(s[1..]) else s
  }

  /** The longest prefix of s made of decimal digits. */
  function DigitPrefix(s: string): (r: string)
    ensures AllDigits(r)
  {
    if s != [] && IsDigit(s[0]) then [s[0]] + DigitPrefix(s[1..]) else []
  }

  /** The value of a digit string, read most significant digit first. */
  function DigitsValue(s: string): nat
    requires AllDigits(s)
  {
    if s == [] then 0 else DigitsValue(s[..|s| - 1]) * 10 + DigitValue(s[|s| - 1])
  }

  /** The value of the longest run of leading digits; None when there is none. */
  function ParseDigits(u: string): Option<int> {
    var ds := DigitPrefix(u);
    if ds == [] then None else Some(DigitsValue(ds))
  }

  /** An optional sign, then digits. */
  function ParseSigned(t: string): Option<int> {
    if t != [] && t[0] == '-' then
      match ParseDigits(t[1..])
      case None => None
      case Some(v) => Some(-v)
    else if t != [] && t[0] == '+' then ParseDigits(t[1..])
    else ParseDigits(t)
  }

  /** `parseInt(s, 10)`: skip leading white space, read an optional sign, then
      the longest run of digits; NaN (None) when that run is empty. Whatever
      follows the digits is ignored. */
  function ParseInt(s: string): Option<int> {
    ParseSigned(SkipSpace(s))
  }

  /** parseInt yields NaN exactly when no digit follows the white space and the
      optional sign. */
  lemma ParseIntNaN(s: string)
    ensures var t := SkipSpace(s);
            var u := if t != [] && (t[0] == '-' || t[0] == '+') then t[1..] else t;
            ParseInt(s).None? <==> (u == [] || !IsDigit(u[0]))
  {
  }

  /** Decimal rendering of a natural number, without leading zeros. */
  function Show(k: nat): (r: string)
    ensures r != [] && AllDigits(r)
  {
    if k < 10 then [DigitChar(k)] else Show(k / 10) + [DigitChar(k % 10)]
  }

  /** Decimal rendering of an integer, with a leading '-' when negative. */
  function ShowInt(k: int): string {
    if k < 0 then "-" + Show(-k) else Show(k)
  }

  lemma {:induction false} DigitsValueShow(k: nat)
    ensures DigitsValue(Show(k)) == k
  {
    if k >= 10 {
      var s := Show(k);
      assert s[..|s| - 1] == Show(k / 10);
      DigitsValueShow(k / 10);
    }
  }

  lemma {:induction false} DigitPrefixOf(ds: string, rest: string)
    requires AllDigits(ds)
    requires rest == [] || !IsDigit(rest[0])
    ensures DigitPrefix(ds + rest) == ds
  {
    if ds == [] {
      assert ds + rest == rest;
    } else {
      assert (ds + rest)[1..] == ds[1..] + rest;
      DigitPrefixOf(ds[1..], rest);
    }
  }

  /** Text whose leading digits are ds parses to the value of ds, and to its
      negation after a minus sign. */
  lemma ParseIntDigits(u: string, ds: string)
    requires ds != [] && DigitPrefix(u) == ds
    ensures ParseInt(u) == Some(DigitsValue(ds) as int)
    ensures ParseInt(['-'] + u) == Some(-(DigitsValue(ds) as int))
  {
    assert u != [] && IsDigit(u[0]);
    ParseIntUnsigned(u);
    ParseIntNegative(u);
  }

  /** Text starting with a digit is read as its leading digits. */
  lemma ParseIntUnsigned(u: string)
    requires u != [] && IsDigit(u[0])
    ensures ParseInt(u) == ParseDigits(u)
  {
    SkipSpaceAt(u);
  }

  /** A minus sign followed by a digit negates the digits' value. */
  lemma ParseIntNegative(u: string)
    requires u != [] && IsDigit(u[0])
    ensures ParseDigits(u).Some?
    ensures ParseInt(['-'] + u) == Some(-ParseDigits(u).value)
  {
    var t := ['-'] + u;
    SkipSpaceAt(t);
    assert t[1..] == u;
  }

  lemma SkipSpaceAt(u: string)
    requires u != [] && !IsSpace(u[0])
    ensures SkipSpace(u) == u
  {
  }

  /** parseInt reads back the decimal rendering of any integer, whatever
      non-digit text follows it. */
  lemma ParseIntShowInt(k: int, rest: string)
    requires rest == [] || !IsDigit(rest[0])
    ensures ParseInt(ShowInt(k) + rest) == Some(k)
  {
    var m: nat := if k < 0 then -k else k;
    DigitsValueShow(m);
    DigitPrefixOf(Show(m), rest);
    ParseIntDigits(Show(m) + rest, Show(m));
    if k < 0 {
      assert ShowInt(k) + rest == ['-'] + (Show(m) + rest);
    }
  }

  /** A number box reads back what it shows: if the formatted text is the
      decimal digits of v with grouping commas put in anywhere, stripping the
      commas and parsing gives v again. */
  lemma DisplayReadsBack(v: int, shown: string)
    requires StripCommas(shown) == ShowInt(v)
    ensures StripCommas(shown) != []
    ensures ParseInt(StripCommas(shown)) == Some(v)
  {
    ParseIntShowInt(v, []);
    assert ShowInt(v) + [] == ShowInt(v);
  }
}

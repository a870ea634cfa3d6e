/** The JavaScript string operations the actions rely on: `trim()`, the
    `\s` class, `startsWith` and the relational operators on strings. */
module JsText {
  import opened Types

  /** The characters of `\s`, which are also the ones `trim()` removes. */
  predicate IsSpace(c: char)
  {
    var n := c as int;
    (9 <= n <= 13) || n == 0x20 || n == 0xA0 || n == 0x1680 || (0x2000 <= n <= 0x200A) ||
    n == 0x2028 || n == 0x2029 || n == 0x202F || n == 0x205F || n == 0x3000 || n == 0xFEFF
  }

  function TrimStart(s: string): (r: string)
    ensures |r| <= |s| && r == s[|s| - |r|..]
    ensures r != [] ==> !IsSpace(r[0])
    ensures forall i :: 0 <= i < |s| - |r| ==> IsSpace(s[i])
    decreases |s|
  {
    if s != [] && IsSpace(s[0]) then TrimStart(s[1..]) else s
  }

  function TrimEnd(s: string): (r: string)
    ensures |r| <= |s| && r == s[..|r|]
    ensures r != [] ==> !IsSpace(r[|r| - 1])
    ensures forall i :: |r| <= i < |s| ==> IsSpace(s[i])
    decreases |s|
  {
    if s != [] && IsSpace(s[|s| - 1]) then TrimEnd(s[..|s| - 1]) else s
  }

  /** `s.trim()`. */
  function Trim(s: string): (r: string)
    ensures r != [] ==> !IsSpace(r[0]) && !IsSpace(r[|r| - 1])
  {
    TrimEnd(TrimStart(s))
  }

  /** `!s?.trim()`: the field is missing or only white space. */
  predicate IsBlank(s: string)
  {
    Trim(s) == []
  }

  /** A string is blank exactly when every character is white space. */
  lemma BlankIffAllSpace(s: string)
    ensures IsBlank(s) <==> forall i :: 0 <= i < |s| ==> IsSpace(s[i])
  {
  }

  /** Trimming twice trims nothing more. */
  lemma TrimIdempotent(s: string)
    ensures Trim(Trim(s)) == Trim(s)
  {
  }

  /** `s.startsWith(p)`. */
  predicate StartsWith(s: string, p: string)
  {
    |p| <= |s| && s[..|p|] == p
  }

  /** `a < b` on strings: lexicographic, character by character. */
  predicate LexLess(a: string, b: string)
    decreases |a|
  {
    if a == [] then b != []
    else if b == [] then false
    else if a[0] != b[0] then a[0] < b[0]
    else LexLess(a[1..], b[1..])
  }

  /** String `<` is a strict total order: exactly one of a < b, a == b, b < a. */
  lemma {:induction false} LexTrichotomy(a: string, b: string)
    ensures LexLess(a, b) || a == b || LexLess(b, a)
    ensures !(LexLess(a, b) && LexLess(b, a))
    ensures !LexLess(a, a)
    decreases |a|
  {
    if a != [] && b != [] && a[0] == b[0] {
      LexTrichotomy(a[1..], b[1..]);
      if a[1..] == b[1..] {
        assert a == [a[0]] + a[1..] && b == [b[0]] + b[1..];
      }
    }
    if a != [] {
      LexTrichotomy(a[1..], a[1..]);
    }
  }

  lemma {:induction false} LexTransitive(a: string, b: string, c: string)
    requires LexLess(a, b) && LexLess(b, c)
    ensures LexLess(a, c)
    decreases |a|
  {
    if a != [] && b != [] && c != [] && a[0] == b[0] && b[0] == c[0] {
      LexTransitive(a[1..], b[1..], c[1..]);
    }
  }

  /** `s?.trim() || null` on an optional form field: the trimmed text, or
      null when the field is absent or blank. */
  function TrimOrNull(s: Option<string>): (r: Option<string>)
    ensures r.None? <==> s.None? || IsBlank(s.value)
    ensures r.Some? ==> r.value == Trim(s.value) && r.value != []
  {
    match s
    case None => None
    case Some(text) => if Trim(text) == [] then None else Some(Trim(text))
  }

  // ---------------------------------------------------------------
  // parseInt(s) with no radix argument
  // ---------------------------------------------------------------

  /** The value of a hexadecimal digit (either case); 16 for any other character. */
  function DigitValue(c: char): (v: nat)
    ensures v <= 16
    ensures v < 10 <==> '0' <= c <= '9'
  {
    if '0' <= c <= '9' then c as int - '0' as int
    else if 'a' <= c <= 'f' then c as int - 'a' as int + 10
    else if 'A' <= c <= 'F' then c as int - 'A' as int + 10
    else 16
  }

  /** The longest prefix of `s` made of digits of the given radix. */
  function DigitPrefix(s: string, radix: nat): (r: string)
    ensures |r| <= |s| && r == s[..|r|]
    ensures forall i :: 0 <= i < |r| ==> DigitValue(r[i]) < radix
    ensures |r| < |s| ==> DigitValue(s[|r|]) >= radix
    decreases |s|
  {
    if s != [] && DigitValue(s[0]) < radix then [s[0]] + DigitPrefix(s[1..], radix) else []
  }

  /** The number a digit string denotes in the given radix, most significant digit first. */
  function DigitsValue(ds: string, radix: nat): nat
    decreases |ds|
  {
    if ds == [] then 0
    else
      var high := DigitsValue(ds[..|ds| - 1], radix);
      var low := if DigitValue(ds[|ds| - 1]) < radix then DigitValue(ds[|ds| - 1]) else 0;
      ShiftNonnegative(high, radix);
      high * radix + low
  }

  lemma ShiftNonnegative(high: nat, radix: nat)
    ensures high * radix >= 0
  {
  }

  /** The digits after the sign: an optional `0x`/`0X` prefix switches to
      base 16; None when no digit follows. */
  function ParseUnsigned(u: string): (r: Option<nat>)
    ensures r.Some? ==> exists k :: 0 <= k < |u| && DigitValue(u[k]) < 16
  {
    var hex := |u| >= 2 && u[0] == '0' && (u[1] == 'x' || u[1] == 'X');
    var radix := if hex then 16 else 10;
    var digits := DigitPrefix(if hex then u[2..] else u, radix);
    if digits == [] then None
    else
      assert digits[0] in u;
      Some(DigitsValue(digits, radix))
  }

  /** `parseInt(s)`: leading white space, an optional sign, then
      `ParseUnsigned`; None stands for NaN. */
  function ParseInt(s: string): (r: Option<int>)
    ensures r.Some? ==> exists k :: 0 <= k < |s| && DigitValue(s[k]) < 16
  {
    var t := TrimStart(s);
    var neg := t != [] && t[0] == '-';
    var u := if t != [] && (t[0] == '-' || t[0] == '+') then t[1..] else t;
    match ParseUnsigned(u)
    case None => None
    case Some(v) =>
      assert u == s[|s| - |u|..];
      SuffixDigit(s, u);
      Some(if neg then -(v as int) else v)
  }

  /** A digit of a suffix is a digit of the whole string. */
  lemma SuffixDigit(s: string, u: string)
    requires |u| <= |s| && u == s[|s| - |u|..]
    requires exists k :: 0 <= k < |u| && DigitValue(u[k]) < 16
    ensures exists k :: 0 <= k < |s| && DigitValue(s[k]) < 16
  {
    var k :| 0 <= k < |u| && DigitValue(u[k]) < 16;
    assert s[|s| - |u| + k] == u[k];
  }

  /** `String(n)` for a natural number: its decimal digits, no leading zero. */
  function DecimalString(n: nat): (r: string)
    ensures r != [] && (forall i :: 0 <= i < |r| ==> '0' <= r[i] <= '9')
    ensures r[0] == '0' ==> n == 0
    decreases n
  {
    var d := [(('0' as int) + n % 10) as char];
    if n < 10 then d else DecimalString(n / 10) + d
  }

  lemma {:induction false} DecimalDigitsValue(n: nat)
    ensures DigitsValue(DecimalString(n), 10) == n
    decreases n
  {
    if n >= 10 {
      DecimalDigitsValue(n / 10);
      var r := DecimalString(n);
      assert r[..|r| - 1] == DecimalString(n / 10);
    }
  }

  lemma {:induction false} DigitPrefixAll(s: string, radix: nat)
    requires forall i :: 0 <= i < |s| ==> DigitValue(s[i]) < radix
    ensures DigitPrefix(s, radix) == s
    decreases |s|
  {
    if s != [] {
      DigitPrefixAll(s[1..], radix);
    }
  }

  lemma ParseUnsignedDecimal(n: nat)
    ensures ParseUnsigned(DecimalString(n)) == Some(n)
  {
    var d := DecimalString(n);
    if |d| >= 2 {
      assert '0' <= d[1] <= '9';
    }
    DigitPrefixAll(d, 10);
    DecimalDigitsValue(n);
  }

  /** `parseInt(String(n)) === n`: the number a form renders reads back unchanged. */
  lemma ParseIntDecimal(n: nat)
    ensures ParseInt(DecimalString(n)) == Some(n)
  {
    var s := DecimalString(n);
    assert !IsSpace(s[0]);
    assert TrimStart(s) == s;
    ParseUnsignedDecimal(n);
  }

  /** `parseInt("-" + String(n)) === -n`. */
  lemma ParseIntNegative(n: nat)
    ensures ParseInt("-" + DecimalString(n)) == Some(-(n as int))
  {
    var s := "-" + DecimalString(n);
    assert !IsSpace(s[0]);
    assert TrimStart(s) == s;
    assert s[1..] == DecimalString(n);
    ParseUnsignedDecimal(n);
  }
}

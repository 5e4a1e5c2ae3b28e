/**
 * The string functions of SQL Server that the queries of the core use:
 * decimal digit strings, CAST between strings and integers, SUBSTRING,
 * RIGHT, REPLICATE, LTRIM/RTRIM, UPPER, the ordering MAX uses on strings,
 * and the comparison with N'' that ignores trailing spaces.
 */
module SqlText {
  import opened Wrappers

  predicate IsDigit(c: char) {
    '0' <= c <= '9'
  }

  predicate AllDigits(s: string) {
    forall k :: 0 <= k < |s| ==> IsDigit(s[k])
  }

  function DigitValue(c: char): nat
    requires IsDigit(c)
  {
    (c as int - '0' as int) as nat
  }

  function Pow10(n: nat): (p: nat)
    ensures p >= 1
  {
    if n == 0 then 1 else 10 * Pow10(n - 1)
  }

  /** The number a string of decimal digits denotes, most significant digit first. */
  function DigitsValue(s: string): nat
    requires AllDigits(s)
  {
    if s == [] then 0 else DigitValue(s[0]) * Pow10(|s| - 1) + DigitsValue(s[1..])
  }

  lemma {:induction false} DigitsValueBound(s: string)
    requires AllDigits(s)
    ensures DigitsValue(s) < Pow10(|s|)
  {
    if s != [] {
      DigitsValueBound(s[1..]);
      var p := Pow10(|s| - 1);
      assert DigitsValue(s) == DigitValue(s[0]) * p + DigitsValue(s[1..]);
      assert Pow10(|s|) == 10 * p;
      LeadingDigitBound(DigitValue(s[0]), p, DigitsValue(s[1..]));
    }
  }

  lemma LeadingDigitBound(d: nat, p: nat, r: nat)
    requires d <= 9 && r < p
    ensures d * p + r < 10 * p
  {
    MulStep(d, 10, p);
  }

  /** Appending a digit multiplies the value by ten and adds the digit. */
  lemma {:induction false} DigitsValueSnoc(s: string, c: char)
    requires AllDigits(s) && IsDigit(c)
    ensures AllDigits(s + [c]) && DigitsValue(s + [c]) == DigitsValue(s) * 10 + DigitValue(c)
  {
    var t := s + [c];
    assert AllDigits(t);
    if s != [] {
      assert t[0] == s[0] && t[1..] == s[1..] + [c];
      DigitsValueSnoc(s[1..], c);
      var p := Pow10(|s| - 1);
      assert Pow10(|t| - 1) == 10 * p;
      assert DigitsValue(t) == DigitValue(s[0]) * (10 * p) + DigitsValue(s[1..] + [c]);
      assert DigitsValue(s) == DigitValue(s[0]) * p + DigitsValue(s[1..]);
      ShiftDigit(DigitValue(s[0]), p, DigitsValue(s[1..]), DigitValue(c));
    } else {
      assert t[1..] == [];
    }
  }

  lemma ShiftDigit(d: nat, p: nat, r: nat, c: nat)
    ensures d * (10 * p) + (r * 10 + c) == (d * p + r) * 10 + c
  {
    assert d * (10 * p) == (d * p) * 10;
  }

  /** Leading zeros do not change the value. */
  lemma {:induction false} DigitsValueZeros(z: string, s: string)
    requires forall k :: 0 <= k < |z| ==> z[k] == '0'
    requires AllDigits(s)
    ensures AllDigits(z + s) && DigitsValue(z + s) == DigitsValue(s)
  {
    var t := z + s;
    assert AllDigits(t);
    if z != [] {
      assert t[0] == '0' && t[1..] == z[1..] + s;
      DigitsValueZeros(z[1..], s);
    } else {
      assert t == s;
    }
  }

  function DigitChar(d: nat): (c: char)
    requires d < 10
    ensures IsDigit(c) && DigitValue(c) == d
  {
    ('0' as int + d) as char
  }

  /** The decimal text of a natural number, as CAST(n AS VARCHAR) writes it: no leading zeros. */
  function Decimal(n: nat): (s: string)
    ensures AllDigits(s) && |s| >= 1
    ensures |s| > 1 ==> s[0] != '0'
  {
    if n < 10 then [DigitChar(n)] else Decimal(n / 10) + [DigitChar(n % 10)]
  }

  lemma {:induction false} DecimalValue(n: nat)
    ensures DigitsValue(Decimal(n)) == n
  {
    if n < 10 {
      assert Decimal(n)[1..] == [];
    } else {
      DecimalValue(n / 10);
      DigitsValueSnoc(Decimal(n / 10), DigitChar(n % 10));
    }
  }

  /** The decimal text of n is no longer than w exactly when n < 10^w (for w >= 1). */
  lemma {:induction false} DecimalLength(n: nat, w: nat)
    requires w >= 1
    ensures |Decimal(n)| <= w <==> n < Pow10(w)
  {
    if n < 10 {
      assert Pow10(w) >= 10 by { assert Pow10(w) == 10 * Pow10(w - 1); }
    } else if w == 1 {
      assert Pow10(1) == 10;
    } else {
      DecimalLength(n / 10, w - 1);
      assert Pow10(w) == 10 * Pow10(w - 1);
    }
  }

  /** The text of a signed integer, as CAST(i AS VARCHAR) writes it. */
  function IntText(i: int): (s: string)
    ensures |s| >= 1
  {
    if i < 0 then "-" + Decimal(-i) else Decimal(i)
  }

  /** REPLICATE(c, n). */
  function Replicate(c: char, n: nat): (s: string)
    ensures |s| == n && forall k :: 0 <= k < n ==> s[k] == c
  {
    if n == 0 then [] else [c] + Replicate(c, n - 1)
  }

  function Min(a: int, b: int): int {
    if a < b then a else b
  }

  function Max(a: int, b: int): int {
    if a < b then b else a
  }

  /** RIGHT(s, n): the last n characters, or all of s when it is shorter. */
  function Right(s: string, n: nat): (r: string)
    ensures |r| == if |s| < n then |s| else n
    ensures r == s[|s| - |r|..]
  {
    if |s| <= n then s else s[|s| - n..]
  }

  /** SUBSTRING(s, start, length), 1-based; the part outside s is empty. */
  function Substring(s: string, start: int, length: nat): (r: string)
    ensures |r| <= length
    // from position start on, at most length characters of s
    ensures 1 <= start ==>
              r == s[Min(start - 1, |s|)..Min(start - 1 + length, |s|)]
    // positions before 1 count against length: a prefix of s
    ensures start < 1 ==> r == s[..Min(Max(start - 1 + length, 0), |s|)]
  {
    var lo := if start < 1 then 0 else start - 1;
    var hi := if start + length - 1 < 0 then 0 else start + length - 1;
    if lo >= |s| || hi <= lo then []
    else s[lo..if hi < |s| then hi else |s|]
  }

  lemma SubstringInside(s: string, start: nat, length: nat)
    requires 1 <= start && start - 1 + length <= |s|
    ensures Substring(s, start, length) == s[start - 1..start - 1 + length]
  {
  }

  /** SQL Server's string-to-int conversion: surrounding spaces, an optional sign, digits. */
  datatype ConversionError = ConversionFailed(text: string) | Overflow(text: string)

  function LTrim(s: string): (r: string)
    ensures |r| <= |s| && s == s[..|s| - |r|] + r
    ensures r == [] || r[0] != ' '
    ensures forall k :: 0 <= k < |s| - |r| ==> s[k] == ' '
  {
    if s != [] && s[0] == ' ' then LTrim(s[1..]) else s
  }

  function RTrim(s: string): (r: string)
    ensures |r| <= |s| && s == r + s[|r|..]
    ensures r == [] || r[|r| - 1] != ' '
    ensures forall k :: |r| <= k < |s| ==> s[k] == ' '
  {
    if s != [] && s[|s| - 1] == ' ' then RTrim(s[..|s| - 1]) else s
  }

  function ToInt(s: string): Result<int, ConversionError> {
    var t := RTrim(LTrim(s));
    var sign := if t != [] && (t[0] == '-' || t[0] == '+') then t[..1] else [];
    var digits := t[|sign|..];
    if !AllDigits(digits) then
      Err(ConversionFailed(s))
    else
      var v := if digits == [] then 0 else DigitsValue(digits);
      Ok(if sign == "-" then -v else v)
  }

  /** A digit string converts to the number it denotes, and '' converts to 0. */
  lemma ToIntDigits(s: string)
    requires AllDigits(s)
    ensures ToInt(s) == Ok(if s == [] then 0 else DigitsValue(s))
  {
    if s != [] {
      assert IsDigit(s[0]) && IsDigit(s[|s| - 1]);
      assert LTrim(s) == s;
      assert RTrim(s) == s;
      assert s[0] != '-' && s[0] != '+';
      assert s[0..] == s;
    } else {
      assert RTrim(LTrim(s)) == [];
    }
  }

  /** a = b between strings in SQL Server: the shorter side is padded with spaces, so trailing spaces do not count. */
  predicate SqlEq(a: string, b: string) {
    RTrim(a) == RTrim(b)
  }

  lemma SqlEqPadded(a: string)
    ensures SqlEq(a, a + " ")
  {
    assert (a + " ")[..|a|] == a;
  }

  /** col = :v for a nullable column: NULL matches nothing, and trailing spaces do not count. */
  predicate SqlMatch(col: Option<string>, v: string) {
    col.Some? && SqlEq(col.value, v)
  }

  /** A stored value with a trailing space matches the value without it, and NULL matches no value. */
  lemma SqlMatchPadded(v: string)
    ensures SqlMatch(Some(v + " "), v) && SqlMatch(Some(v), v)
    ensures !SqlMatch(None, v)
  {
    SqlEqPadded(v);
  }

  const IntMin := -2147483648
  const IntMax := 2147483647

  /** CAST(s AS INT): the conversion, which also fails on a value outside the 32-bit range. */
  function CastInt(s: string): (r: Result<int, ConversionError>)
    ensures r.Ok? <==> ToInt(s).Ok? && IntMin <= ToInt(s).value <= IntMax
    ensures r.Ok? ==> r.value == ToInt(s).value
  {
    match ToInt(s)
    case Err(e) => Err(e)
    case Ok(v) => if IntMin <= v <= IntMax then Ok(v) else Err(Overflow(s))
  }

  /** TRY_CONVERT(INT, s): NULL wherever CAST would fail. */
  function TryConvertInt(s: string): (r: Option<int>)
    ensures r.Some? <==> CastInt(s).Ok?
    ensures r.Some? ==> r.value == CastInt(s).value
  {
    match CastInt(s)
    case Err(_) => None
    case Ok(v) => Some(v)
  }

  /** The text of an int converts back to that int. */
  lemma CastIntText(n: nat)
    requires n <= IntMax
    ensures CastInt(IntText(n)) == Ok(n)
  {
    DecimalValue(n);
    ToIntDigits(Decimal(n));
  }

  /** x = N'' in SQL Server, which pads the shorter side with spaces: x holds only spaces. */
  predicate SqlEmpty(x: string) {
    forall k :: 0 <= k < |x| ==> x[k] == ' '
  }

  /** NULLIF(x, N'') IS NOT NULL. */
  predicate SqlPresent(x: Option<string>) {
    x.Some? && !SqlEmpty(x.value)
  }

  function UpperChar(c: char): (u: char)
    ensures 'a' <= c <= 'z' ==> u as int == c as int - 32
    ensures !('a' <= c <= 'z') ==> u == c
  {
    if 'a' <= c <= 'z' then (c as int - 32) as char else c
  }

  /** UPPER(s), on the letters a-z. */
  function Upper(s: string): (r: string)
    ensures |r| == |s| && forall k :: 0 <= k < |s| ==> r[k] == UpperChar(s[k])
  {
    if s == [] then [] else [UpperChar(s[0])] + Upper(s[1..])
  }

  /** UPPER(LTRIM(RTRIM(s))): the key the report matches codes on. */
  function NormCode(s: string): string {
    Upper(LTrim(RTrim(s)))
  }

  lemma {:induction false} UpperIdempotent(s: string)
    ensures Upper(Upper(s)) == Upper(s)
  {
    assert forall k :: 0 <= k < |s| ==> UpperChar(UpperChar(s[k])) == UpperChar(s[k]);
  }

  // ---- uniqueidentifier ----

  predicate IsHexDigit(c: char) {
    IsDigit(c) || 'a' <= c <= 'f' || 'A' <= c <= 'F'
  }

  /** The positions of the hyphens in xxxxxxxx-xxxx-xxxx-xxxx-xxxxxxxxxxxx. */
  predicate HyphenAt(k: int) {
    k == 8 || k == 13 || k == 18 || k == 23
  }

  /** The 36-character form of a uniqueidentifier, its hex digits in either case. */
  predicate GuidForm(s: string) {
    |s| == 36 && forall k :: 0 <= k < 36 ==> if HyphenAt(k) then s[k] == '-' else IsHexDigit(s[k])
  }

  /** The text of a uniqueidentifier as it is read back: the 36-character form in upper case. */
  predicate CanonicalGuid(g: string) {
    GuidForm(g) && Upper(g) == g
  }

  lemma UpperGuid(s: string)
    requires GuidForm(s)
    ensures CanonicalGuid(Upper(s))
  {
    UpperIdempotent(s);
  }

  /**
   * CONVERT(uniqueidentifier, s): the 36-character form, or that form in
   * braces; longer text is cut to its first 36 characters, as a conversion
   * to a 36-character type cuts it. None is the conversion error.
   */
  function GuidOf(s: string): (g: Option<string>)
    ensures g.Some? <==> (|s| == 38 && s[0] == '{' && s[37] == '}' && GuidForm(s[1..37]))
                         || (|s| >= 36 && GuidForm(s[..36]))
    ensures g.Some? ==> CanonicalGuid(g.value)
  {
    if |s| == 38 && s[0] == '{' && s[37] == '}' && GuidForm(s[1..37]) then
      UpperGuid(s[1..37]);
      Some(Upper(s[1..37]))
    else if |s| >= 36 && GuidForm(s[..36]) then
      UpperGuid(s[..36]);
      Some(Upper(s[..36]))
    else None
  }

  /** A stored id converts to itself; any spelling of it, in braces or not, in either case, converts to it. */
  lemma {:induction false} GuidOfSpellings(s: string)
    requires GuidForm(s)
    ensures GuidOf(Upper(s)) == Some(Upper(s))
    ensures GuidOf(s) == Some(Upper(s))
    ensures GuidOf("{" + s + "}") == Some(Upper(s))
  {
    UpperGuid(s);
    assert Upper(s)[..36] == Upper(s);
    assert s[..36] == s;
    var b := "{" + s + "}";
    assert b[1..37] == s;
    UpperIdempotent(s);
  }

  /** Binary string order, as MAX() compares strings: code point by code point, a prefix first. */
  predicate LexLe(a: string, b: string)
    decreases |a|
  {
    a == [] || (b != [] && (a[0] < b[0] || (a[0] == b[0] && LexLe(a[1..], b[1..]))))
  }

  lemma {:induction false} LexLeTotal(a: string, b: string)
    ensures LexLe(a, b) || LexLe(b, a)
    decreases |a|
  {
    if a != [] && b != [] && a[0] == b[0] {
      LexLeTotal(a[1..], b[1..]);
    }
  }

  lemma {:induction false} LexLeTrans(a: string, b: string, c: string)
    requires LexLe(a, b) && LexLe(b, c)
    ensures LexLe(a, c)
    decreases |a|
  {
    if a != [] && a[0] == b[0] && b[0] == c[0] {
      LexLeTrans(a[1..], b[1..], c[1..]);
    }
  }

  lemma {:induction false} LexLeAntisym(a: string, b: string)
    requires LexLe(a, b) && LexLe(b, a)
    ensures a == b
    decreases |a|
  {
    if a != [] {
      LexLeAntisym(a[1..], b[1..]);
      assert a == [a[0]] + a[1..] && b == [b[0]] + b[1..];
    }
  }

  /** Of two digit strings of one length, the one with the smaller first digit is smaller. */
  lemma HeadDigitDominates(a: string, b: string)
    requires AllDigits(a) && AllDigits(b) && |a| == |b| && a != []
    requires a[0] < b[0]
    ensures DigitsValue(a) < DigitsValue(b)
  {
    var p := Pow10(|a| - 1);
    DigitsValueBound(a[1..]);
    var da, db := DigitValue(a[0]), DigitValue(b[0]);
    var ra, rb := DigitsValue(a[1..]), DigitsValue(b[1..]);
    assert DigitsValue(a) == da * p + ra;
    assert DigitsValue(b) == db * p + rb;
    assert ra < p && da < db;
    MulStep(da, db, p);
  }

  lemma MulStep(x: nat, y: nat, p: nat)
    requires x < y
    ensures x * p + p <= y * p
  {
    assert x * p + p == (x + 1) * p;
    assert (x + 1) * p <= y * p;
  }

  /** On digit strings of one length, the string order is the numeric order. */
  lemma {:induction false} LexLeDigits(a: string, b: string)
    requires AllDigits(a) && AllDigits(b) && |a| == |b|
    ensures LexLe(a, b) <==> DigitsValue(a) <= DigitsValue(b)
    decreases |a|
  {
    if a != [] {
      if a[0] < b[0] {
        HeadDigitDominates(a, b);
      } else if b[0] < a[0] {
        HeadDigitDominates(b, a);
      } else {
        LexLeDigits(a[1..], b[1..]);
        assert DigitsValue(a) == DigitValue(a[0]) * Pow10(|a| - 1) + DigitsValue(a[1..]);
        assert DigitsValue(b) == DigitValue(a[0]) * Pow10(|a| - 1) + DigitsValue(b[1..]);
      }
    }
  }

  /** MAX(x) over a column of strings: NULL on no rows. */
  function LexMax(s: seq<string>): (m: Option<string>)
    ensures m.None? <==> s == []
    ensures m.Some? ==> m.value in s && forall x :: x in s ==> LexLe(x, m.value)
  {
    if s == [] then None
    else
      var rest := LexMax(s[1..]);
      if rest.None? then
        assert s == [s[0]];
        LexLeTotal(s[0], s[0]);
        Some(s[0])
      else
        LexLeTotal(s[0], rest.value);
        var m := if LexLe(s[0], rest.value) then rest.value else s[0];
        assert forall x :: x in s ==> x == s[0] || x in s[1..];
        assert forall x :: x in s[1..] ==> LexLe(x, m) by {
          forall x | x in s[1..] ensures LexLe(x, m) {
            if m == s[0] {
              LexLeTrans(x, rest.value, s[0]);
            }
          }
        }
        assert LexLe(s[0], m) by {
          if m == s[0] { LexLeTotal(s[0], s[0]); }
        }
        Some(m)
  }
}

/**
 * Base-10 text as the driver produces and consumes it: the `%lu` and `%d`
 * conversions of `sprintf`/`snprintf`, and the kernel's `kstrtoint(buf, 10, &val)`
 * used by the mode attribute's store handler.
 */
module Decimal {
  import opened Wrappers

  /** Range of the C `int` that `kstrtoint` stores into. */
  const INT_MIN: int := -0x8000_0000
  const INT_MAX: int := 0x7fff_ffff

  predicate IsDigit(c: char) {
    '0' <= c <= '9'
  }

  predicate AllDigits(s: string) {
    forall i :: 0 <= i < |s| ==> IsDigit(s[i])
  }

  function DigitChar(d: nat): (c: char)
    requires d < 10
    ensures IsDigit(c) && c as int - '0' as int == d
  {
    ['0', '1', '2', '3', '4', '5', '6', '7', '8', '9'][d]
  }

  function DigitValue(c: char): nat
    requires IsDigit(c)
  {
    c as int - '0' as int
  }

  /** The value of a run of decimal digits, most significant first. */
  function ValueOf(s: string): nat
    requires AllDigits(s)
  {
    if s == [] then 0 else ValueOf(s[..|s| - 1]) * 10 + DigitValue(s[|s| - 1])
  }

  function Pow10(k: nat): (p: nat)
    ensures p >= 1
  {
    if k == 0 then 1 else 10 * Pow10(k - 1)
  }

  /** `%lu`: the shortest decimal rendering of a natural number. */
  function Digits(n: nat): (r: string)
    ensures r != [] && AllDigits(r)
    ensures r[0] == '0' ==> n == 0
  {
    if n < 10 then [DigitChar(n)] else Digits(n / 10) + [DigitChar(n % 10)]
  }

  /** `%d`: a minus sign for negative values, then the digits of the magnitude. */
  function FormatInt(i: int): (r: string)
    ensures r != []
    ensures (r[0] == '-') <==> i < 0
  {
    if i < 0 then "-" + Digits(-i) else Digits(i)
  }

  predicate NoNul(s: string) {
    forall i :: 0 <= i < |s| ==> s[i] != '\0'
  }

  /** The text a C function sees in a buffer: everything before the first NUL. */
  function CString(s: string): (r: string)
    ensures |r| <= |s| && r == s[..|r|]
    ensures NoNul(r)
    ensures |r| < |s| ==> s[|r|] == '\0'
  {
    if s == [] || s[0] == '\0' then [] else [s[0]] + CString(s[1..])
  }

  /** A buffer without a NUL is seen whole. */
  lemma {:induction false} CStringOfNoNul(s: string)
    requires NoNul(s)
    ensures CString(s) == s
  {
    if s != [] {
      CStringOfNoNul(s[1..]);
    }
  }

  /**
   * `kstrtoint(s, 10, &v)` succeeding with `Some(v)`, failing with `None`.
   * Accepted text: at most one leading `+` or `-`, then at least one decimal
   * digit, then at most one newline, then the end of the string; the value
   * must fit in a C `int`. Anything else (an empty string, white space, a
   * second sign, any other character, an out-of-range value) is rejected.
   */
  function ParseInt(s: string): (r: Option<int>)
    ensures r.Some? ==> INT_MIN <= r.value <= INT_MAX
    ensures r.Some? ==> exists k :: 0 <= k < |s| && IsDigit(s[k])
  {
    var negative := |s| > 0 && s[0] == '-';
    var body := Unsigned(s);
    if body == [] || !AllDigits(body) then None
    else
      var v: int := if negative then -(ValueOf(body) as int) else ValueOf(body);
      assert IsDigit(s[|s| - |StripSign(s)|]) by {
        assert body[0] == StripSign(s)[0];
      }
      if INT_MIN <= v <= INT_MAX then Some(v) else None
  }

  /** The text after an optional leading sign. */
  function StripSign(s: string): (r: string)
    ensures r == s || (|s| > 0 && (s[0] == '-' || s[0] == '+') && r == s[1..])
  {
    if |s| > 0 && (s[0] == '-' || s[0] == '+') then s[1..] else s
  }

  /** The digits `kstrtoint` reads: no sign, and without one final newline. */
  function Unsigned(s: string): (r: string)
    ensures |r| <= |s|
  {
    var t := StripSign(s);
    if |t| > 0 && t[|t| - 1] == '\n' then t[..|t| - 1] else t
  }

  /**
   * A character other than a digit, a sign or a newline anywhere in the text
   * makes `kstrtoint` fail.
   */
  lemma RejectsForeignChar(s: string, k: nat)
    requires k < |s|
    requires !IsDigit(s[k]) && s[k] != '+' && s[k] != '-' && s[k] != '\n'
    ensures ParseInt(s) == None
  {
    var t := StripSign(s);
    var a := |s| - |t|;
    assert t == s[a..];
    var body := Unsigned(s);
    assert body == s[a..a + |body|];
    assert a <= k < a + |body|;
    assert body[k - a] == s[k];
  }

  lemma {:induction false} ValueOfAppend(s: string, c: char)
    requires AllDigits(s) && IsDigit(c)
    ensures AllDigits(s + [c]) && ValueOf(s + [c]) == ValueOf(s) * 10 + DigitValue(c)
  {
    assert (s + [c])[..|s + [c]| - 1] == s;
  }

  /** Reading back what `%lu` wrote gives the number that was written. */
  lemma {:induction false} DigitsRoundTrip(n: nat)
    ensures ValueOf(Digits(n)) == n
  {
    if n < 10 {
      assert Digits(n)[..0] == [];
    } else {
      DigitsRoundTrip(n / 10);
      ValueOfAppend(Digits(n / 10), DigitChar(n % 10));
    }
  }

  /** Distinct numbers render to distinct texts. */
  lemma DigitsInjective(m: nat, n: nat)
    requires Digits(m) == Digits(n)
    ensures m == n
  {
    DigitsRoundTrip(m);
    DigitsRoundTrip(n);
  }

  /** A number below `10^k` takes at most `k` digits (and always at least one). */
  lemma {:induction false} DigitsLength(n: nat, k: nat)
    requires 1 <= k && n < Pow10(k)
    ensures |Digits(n)| <= k
  {
    if n >= 10 {
      assert k >= 2;
      DigitsLength(n / 10, k - 1);
    }
  }

  /**
   * What `%d` renders, with or without the newline `sprintf("%d\n")` adds,
   * is parsed back by `kstrtoint` to the same value, for every C `int`.
   */
  lemma FormatParseRoundTrip(i: int)
    requires INT_MIN <= i <= INT_MAX
    ensures ParseInt(FormatInt(i)) == Some(i)
    ensures ParseInt(FormatInt(i) + "\n") == Some(i)
  {
    var mag: nat := if i < 0 then -i else i;
    DigitsRoundTrip(mag);
    var d := Digits(mag);
    UnsignedOf(FormatInt(i), d);
  }

  /** The digits of `%d`'s output are the magnitude's, newline or not. */
  lemma UnsignedOf(f: string, d: string)
    requires d != [] && AllDigits(d)
    requires f == d || f == "-" + d
    ensures Unsigned(f) == d && Unsigned(f + "\n") == d
  {
    assert !IsDigit('-') && !IsDigit('+') && !IsDigit('\n');
    if f == d {
      assert StripSign(f) == f;
      assert StripSign(f + "\n") == f + "\n";
      assert (f + "\n")[..|f|] == f;
    } else {
      assert StripSign(f) == d;
      assert StripSign(f + "\n") == d + "\n";
      assert (d + "\n")[..|d|] == d;
    }
  }
}

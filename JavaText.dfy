/**
 * The few `java.lang.String` and `java.lang.Integer` operations the core calls,
 * stated on `seq<char>`: `trim`, the regex character class `\s`,
 * `Integer.parseInt` and `equalsIgnoreCase` against an ASCII literal.
 */
module JavaText {
  import opened Outcomes

  // ----- String.trim -----

  /** `String.trim` strips every char whose code is at most U+0020. */
  predicate IsTrimmable(c: char) { c <= ' ' }

  predicate IsBlank(s: string) { forall i :: 0 <= i < |s| ==> IsTrimmable(s[i]) }

  /** A string that `trim` leaves unchanged: no trimmable char at either end. */
  predicate IsTrimmed(s: string) {
    s == [] || (!IsTrimmable(s[0]) && !IsTrimmable(s[|s| - 1]))
  }

  /** Drops the longest blank prefix. */
  function TrimStart(s: string): string
  {
    if s != [] && IsTrimmable(s[0]) then TrimStart(s[1..]) else s
  }

  /** What `TrimStart` drops is a blank prefix, and what it keeps starts with a non-blank char. */
  lemma {:induction false} TrimStartIsSuffix(s: string)
    ensures |TrimStart(s)| <= |s| && TrimStart(s) == s[|s| - |TrimStart(s)|..]
    ensures IsBlank(s[..|s| - |TrimStart(s)|])
    ensures TrimStart(s) == [] || !IsTrimmable(TrimStart(s)[0])
  {
    if s != [] && IsTrimmable(s[0]) {
      TrimStartIsSuffix(s[1..]);
      var r := TrimStart(s[1..]);
      assert s[..|s| - |r|] == [s[0]] + s[1..][..|s| - 1 - |r|];
    }
  }

  /** Drops the longest blank suffix. */
  function TrimEnd(s: string): string
  {
    if s != [] && IsTrimmable(s[|s| - 1]) then TrimEnd(s[..|s| - 1]) else s
  }

  /** What `TrimEnd` drops is a blank suffix, and what it keeps ends with a non-blank char. */
  lemma {:induction false} TrimEndIsPrefix(s: string)
    ensures |TrimEnd(s)| <= |s| && TrimEnd(s) == s[..|TrimEnd(s)|]
    ensures IsBlank(s[|TrimEnd(s)|..])
    ensures TrimEnd(s) == [] || !IsTrimmable(TrimEnd(s)[|TrimEnd(s)| - 1])
  {
    if s != [] && IsTrimmable(s[|s| - 1]) {
      TrimEndIsPrefix(s[..|s| - 1]);
      var r := TrimEnd(s[..|s| - 1]);
      assert s[|r|..] == s[..|s| - 1][|r|..] + [s[|s| - 1]];
    }
  }

  /** `s.trim()`. */
  function Trim(s: string): string
  {
    TrimEnd(TrimStart(s))
  }

  /** `trim` returns a trimmed string no longer than its input, empty exactly when the input is blank. */
  lemma TrimIsTrimmed(s: string)
    ensures IsTrimmed(Trim(s)) && |Trim(s)| <= |s|
    ensures Trim(s) == [] <==> IsBlank(s)
  {
    var t := TrimStart(s);
    TrimStartIsSuffix(s);
    TrimEndIsPrefix(t);
    assert s == s[..|s| - |t|] + t;
    if Trim(s) == [] {
      assert t[0..] == t;
      assert IsBlank(s[..|s| - |t|] + t);
    }
    if IsBlank(s) {
      BlankTrimStart(s);
    }
  }

  lemma {:induction false} BlankTrimStart(s: string)
    requires IsBlank(s)
    ensures TrimStart(s) == []
  {
    if s != [] {
      BlankTrimStart(s[1..]);
    }
  }

  lemma {:induction false} TrimStartPadded(p: string, t: string)
    requires IsBlank(p)
    ensures TrimStart(p + t) == TrimStart(t)
  {
    if p != [] {
      assert (p + t)[1..] == p[1..] + t;
      TrimStartPadded(p[1..], t);
    } else {
      assert p + t == t;
    }
  }

  lemma {:induction false} TrimEndPadded(t: string, q: string)
    requires IsBlank(q)
    ensures TrimEnd(t + q) == TrimEnd(t)
  {
    if q != [] {
      assert (t + q)[..|t + q| - 1] == t + q[..|q| - 1];
      TrimEndPadded(t, q[..|q| - 1]);
    } else {
      assert t + q == t;
    }
  }

  lemma {:induction false} TrimStartAppend(s: string, q: string)
    requires !IsBlank(s)
    ensures TrimStart(s + q) == TrimStart(s) + q
  {
    if IsTrimmable(s[0]) {
      assert (s + q)[1..] == s[1..] + q;
      TrimStartAppend(s[1..], q);
    }
  }

  /** Blank padding on either side never changes what `trim` returns. */
  lemma TrimPadded(p: string, s: string, q: string)
    requires IsBlank(p) && IsBlank(q)
    ensures Trim(p + s + q) == Trim(s)
  {
    assert p + s + q == p + (s + q);
    TrimStartPadded(p, s + q);
    if IsBlank(s) {
      assert IsBlank(s + q);
      BlankTrimStart(s + q);
      BlankTrimStart(s);
    } else {
      TrimStartAppend(s, q);
      TrimEndPadded(TrimStart(s), q);
    }
  }

  /** `trim` is the identity exactly on trimmed strings. */
  lemma TrimFixedPoints(s: string)
    ensures Trim(s) == s <==> IsTrimmed(s)
  {
    TrimIsTrimmed(s);
  }

  // ----- The regex class \s -----

  /** Java's `\s` without UNICODE_CHARACTER_CLASS: space, \t, \n, \x0B, \f and \r. */
  predicate IsRegexSpace(c: char) {
    c == ' ' || c == '\t' || c == '\n' || c == '\U{B}' || c == '\U{C}' || c == '\r'
  }

  // ----- Integer.parseInt and Integer.toString -----

  const MinInt32: int := -0x8000_0000
  const MaxInt32: int := 0x7FFF_FFFF

  predicate IsInt32(n: int) { MinInt32 <= n <= MaxInt32 }

  /** The `int` a Java arithmetic result `n` wraps around to: the one congruent to `n` modulo 2^32. */
  function Int32Wrap(n: int): (r: int)
    ensures IsInt32(r) && (r - n) % 0x1_0000_0000 == 0
    ensures IsInt32(n) ==> r == n
  {
    (n - MinInt32) % 0x1_0000_0000 + MinInt32
  }

  predicate IsDigit(c: char) { '0' <= c <= '9' }

  predicate AllDigits(s: string) { forall c <- s :: IsDigit(c) }

  /** The value of a string of decimal digits, most significant first. */
  function DigitsValue(s: string): nat
    requires AllDigits(s)
  {
    if s == [] then 0
    else
      assert IsDigit(s[|s| - 1]);
      DigitsValue(s[..|s| - 1]) * 10 + (s[|s| - 1] as int - '0' as int)
  }

  /** An optional `-` or `+` followed by one or more ASCII digits. */
  predicate IsNumeral(s: string) {
    s != [] && if s[0] == '-' || s[0] == '+' then |s| > 1 && AllDigits(s[1..]) else AllDigits(s)
  }

  /**
   * `Integer.parseInt(s)`: an optional `-` or `+`, then one or more digits,
   * with a value in int range; `None` stands for the NumberFormatException
   * thrown otherwise.
   */
  function ParseInt(s: string): (r: Option<int>)
    ensures r.Some? ==> IsNumeral(s) && IsInt32(r.value)
    ensures r.Some? && s[0] != '-' ==> r.value >= 0
  {
    if s == [] then None
    else if s[0] == '-' || s[0] == '+' then
      if |s| == 1 || !AllDigits(s[1..]) then None
      else
        var m: int := DigitsValue(s[1..]);
        var v := if s[0] == '-' then -m else m;
        if IsInt32(v) then Some(v) else None
    else if !AllDigits(s) then None
    else
      var v := DigitsValue(s);
      if IsInt32(v) then Some(v) else None
  }

  /**
   * The NumberFormatException cases for a non-empty text: a char that is not
   * an ASCII digit anywhere except as the leading sign of a longer text. (The
   * empty text is refused by `ParseInt`'s own contract, as it is no numeral.)
   */
  lemma ParseIntRefuses(s: string, i: nat)
    requires i < |s| && !IsDigit(s[i])
    requires !(i == 0 && |s| > 1 && (s[0] == '-' || s[0] == '+'))
    ensures ParseInt(s) == None
  {
    assert !IsNumeral(s) by {
      if (s[0] == '-' || s[0] == '+') && |s| > 1 {
        assert s[1..][i - 1] == s[i];
      }
    }
  }

  function DigitChar(d: nat): char
    requires d < 10
  {
    ('0' as int + d) as char
  }

  /** The decimal numeral of `n`, without leading zeros. */
  function Decimal(n: nat): string
  {
    if n < 10 then [DigitChar(n)] else Decimal(n / 10) + [DigitChar(n % 10)]
  }

  /** `Integer.toString(n)` (or `String.valueOf(n)`). */
  function IntToString(n: int): string
  {
    if n < 0 then "-" + Decimal(-n) else Decimal(n)
  }

  lemma {:induction false} DecimalValue(n: nat)
    ensures Decimal(n) != [] && AllDigits(Decimal(n))
    ensures DigitsValue(Decimal(n)) == n
  {
    if n >= 10 {
      DecimalValue(n / 10);
      var s := Decimal(n);
      assert s[..|s| - 1] == Decimal(n / 10);
    }
  }

  /**
   * `parseInt` inverts `toString` on every int-range value and rejects the
   * numeral of every value outside the range.
   */
  lemma ParseIntToString(n: int)
    ensures ParseInt(IntToString(n)) == if IsInt32(n) then Some(n) else None
  {
    if n < 0 {
      DecimalValue(-n);
      assert IntToString(n)[1..] == Decimal(-n);
    } else {
      DecimalValue(n);
      assert IsDigit(Decimal(n)[0]);
    }
  }

  /** `z` copies of the digit `0`. */
  function Zeros(z: nat): (r: string)
    ensures |r| == z && forall c <- r :: c == '0'
  {
    if z == 0 then [] else Zeros(z - 1) + "0"
  }

  lemma {:induction false} ZerosValue(z: nat)
    ensures AllDigits(Zeros(z)) && DigitsValue(Zeros(z)) == 0
  {
    if z > 0 {
      var u := Zeros(z);
      assert u[..|u| - 1] == Zeros(z - 1);
      ZerosValue(z - 1);
    }
  }

  /** Leading zeros do not change the value of a run of digits. */
  lemma {:induction false} LeadingZerosValue(z: nat, t: string)
    requires AllDigits(t)
    ensures AllDigits(Zeros(z) + t) && DigitsValue(Zeros(z) + t) == DigitsValue(t)
    decreases |t|
  {
    ZerosValue(z);
    if t == [] {
      assert Zeros(z) + t == Zeros(z);
    } else {
      var u := Zeros(z) + t;
      assert u[..|u| - 1] == Zeros(z) + t[..|t| - 1];
      assert forall c <- t[..|t| - 1] :: c in t;
      LeadingZerosValue(z, t[..|t| - 1]);
    }
  }

  /** A sign followed by a run of digits parses to the signed value of the digits. */
  lemma ParseIntSigned(sign: string, digits: string)
    requires sign == "" || sign == "+" || sign == "-"
    requires digits != [] && AllDigits(digits)
    ensures ParseInt(sign + digits) ==
            var m: int := DigitsValue(digits); var v := if sign == "-" then -m else m;
            if IsInt32(v) then Some(v) else None
  {
    var s := sign + digits;
    if sign == "" {
      assert s == digits && digits[0] in digits;
    } else {
      assert s[0] == sign[0] && s[1..] == digits;
    }
  }

  /**
   * Every numeral `parseInt` can be given is an optional `+` or `-`, some
   * leading zeros and the decimal numeral of a natural number; it parses to
   * its signed value when that is in int range and is refused otherwise.
   */
  lemma ParseIntNumeral(sign: string, z: nat, n: nat)
    requires sign == "" || sign == "+" || sign == "-"
    ensures ParseInt(sign + Zeros(z) + Decimal(n)) ==
            var v: int := if sign == "-" then -(n as int) else n as int; if IsInt32(v) then Some(v) else None
  {
    var digits := Zeros(z) + Decimal(n);
    DecimalValue(n);
    LeadingZerosValue(z, Decimal(n));
    assert sign + Zeros(z) + Decimal(n) == sign + digits;
    ParseIntSigned(sign, digits);
  }

  // ----- String.equalsIgnoreCase -----

  predicate IsAscii(s: string) { forall c <- s :: c < '\U{80}' }

  /**
   * The ASCII lower-case letter that Java's per-char case-insensitive
   * comparison equates `c` with, if any: ASCII capitals, and the four
   * non-ASCII chars whose upper- or lower-case form is an ASCII letter.
   */
  function AsciiFold(c: char): char
  {
    if 'A' <= c <= 'Z' then (c as int + 32) as char
    else if c == '\U{17F}' then 's'     // LATIN SMALL LETTER LONG S upper-cases to 'S'
    else if c == '\U{131}' then 'i'     // LATIN SMALL LETTER DOTLESS I upper-cases to 'I'
    else if c == '\U{130}' then 'i'     // LATIN CAPITAL LETTER I WITH DOT ABOVE lower-cases to 'i'
    else if c == '\U{212A}' then 'k'    // KELVIN SIGN lower-cases to 'k'
    else c
  }

  /** `s.equalsIgnoreCase(t)` where `t` is an ASCII literal. */
  predicate EqualsIgnoreCase(s: string, t: string)
    requires IsAscii(t)
  {
    |s| == |t| && forall i :: 0 <= i < |s| ==> AsciiFold(s[i]) == AsciiFold(t[i])
  }

  /** Every spelling that `equalsIgnoreCase("yes")` accepts, and nothing else. */
  lemma YesSpellings(s: string)
    ensures EqualsIgnoreCase(s, "yes") <==>
      |s| == 3 && s[0] in "yY" && s[1] in "eE" && s[2] in "sS\U{17F}"
  {
    if |s| == 3 && s[0] in "yY" && s[1] in "eE" && s[2] in "sS\U{17F}" {
      assert forall i :: 0 <= i < 3 ==> AsciiFold(s[i]) == AsciiFold("yes"[i]);
    }
    if EqualsIgnoreCase(s, "yes") {
      assert AsciiFold(s[0]) == 'y' && AsciiFold(s[1]) == 'e' && AsciiFold(s[2]) == 's';
    }
  }
}

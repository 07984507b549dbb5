/**
 * The pieces of Rust's `str` that the identity resolver relies on:
 * `split(char)`, `trim`, `strip_prefix`, `parse::<i64>`, and the decimal
 * `Display` of an unsigned integer used by `format!("{}", n)`.
 */
module RustStr {
  import opened Wrappers

  // ---------------------------------------------------------------------------
  // char::is_whitespace and str::trim
  // ---------------------------------------------------------------------------

  /** `char::is_whitespace`: the characters with the Unicode White_Space property. */
  predicate IsWhitespace(c: char) {
    var n := c as int;
    (0x09 <= n <= 0x0D) || n == 0x20 || n == 0x85 || n == 0xA0 || n == 0x1680
    || (0x2000 <= n <= 0x200A) || n == 0x2028 || n == 0x2029 || n == 0x202F
    || n == 0x205F || n == 0x3000
  }

  /** `str::trim_start`: drops the leading whitespace and keeps the rest as it is. */
  function TrimStart(s: string): (r: string)
    ensures |r| <= |s|
    ensures r == [] || !IsWhitespace(r[0])
  {
    if |s| > 0 && IsWhitespace(s[0]) then TrimStart(s[1..]) else s
  }

  /** `TrimStart` keeps a suffix of its input and drops only whitespace. */
  lemma {:induction false} TrimStartDropsWhitespace(s: string)
    ensures TrimStart(s) == s[|s| - |TrimStart(s)|..]
    ensures forall k :: 0 <= k < |s| - |TrimStart(s)| ==> IsWhitespace(s[k])
  {
    if |s| > 0 && IsWhitespace(s[0]) {
      TrimStartDropsWhitespace(s[1..]);
      assert forall k :: 1 <= k < |s| ==> s[k] == s[1..][k - 1];
    }
  }

  /** `str::trim_end`: drops the trailing whitespace and keeps the rest as it is. */
  function TrimEnd(s: string): (r: string)
    ensures |r| <= |s|
    ensures r == [] || !IsWhitespace(r[|r| - 1])
  {
    if |s| > 0 && IsWhitespace(s[|s| - 1]) then TrimEnd(s[..|s| - 1]) else s
  }

  /** `TrimEnd` keeps a prefix of its input and drops only whitespace. */
  lemma {:induction false} TrimEndDropsWhitespace(s: string)
    ensures TrimEnd(s) == s[..|TrimEnd(s)|]
    ensures forall k :: |TrimEnd(s)| <= k < |s| ==> IsWhitespace(s[k])
  {
    if |s| > 0 && IsWhitespace(s[|s| - 1]) {
      TrimEndDropsWhitespace(s[..|s| - 1]);
      assert forall k :: 0 <= k < |s| - 1 ==> s[k] == s[..|s| - 1][k];
    }
  }

  /**
   * `str::trim`: what is left after dropping whitespace at both ends; it starts
   * and ends with a non-whitespace character, or is empty.
   */
  function Trim(s: string): (r: string)
    ensures |r| <= |s|
    ensures r == [] || (!IsWhitespace(r[0]) && !IsWhitespace(r[|r| - 1]))
  {
    TrimEndDropsWhitespace(TrimStart(s));
    TrimEnd(TrimStart(s))
  }

  /**
   * `Trim` keeps a slice of its input: everything before and after that slice
   * is whitespace.
   */
  lemma TrimIsSlice(s: string) returns (lead: nat)
    ensures lead + |Trim(s)| <= |s|
    ensures Trim(s) == s[lead..lead + |Trim(s)|]
    ensures forall k :: 0 <= k < lead ==> IsWhitespace(s[k])
    ensures forall k :: lead + |Trim(s)| <= k < |s| ==> IsWhitespace(s[k])
  {
    var t := TrimStart(s);
    var r := TrimEnd(t);
    lead := |s| - |t|;
    TrimStartDropsWhitespace(s);
    TrimEndDropsWhitespace(t);
    assert Trim(s) == r;
    assert r == t[..|r|] && t == s[lead..];
    assert t[..|r|] == s[lead..lead + |r|];
    forall k | lead + |r| <= k < |s|
      ensures IsWhitespace(s[k])
    {
      assert s[k] == t[k - lead];
    }
  }

  /** A string with no whitespace at either end is its own trim. */
  lemma TrimUnpadded(s: string)
    requires s != [] && !IsWhitespace(s[0]) && !IsWhitespace(s[|s| - 1])
    ensures Trim(s) == s
  {
    assert TrimStart(s) == s;
  }

  /** A string that starts with one whitespace character trims like the rest of it. */
  lemma TrimLeadingSpace(s: string)
    requires s != [] && IsWhitespace(s[0])
    ensures Trim(s) == Trim(s[1..])
  {
  }

  /** What `Trim` keeps is a slice of its input, so it holds no character the input lacks. */
  lemma TrimKeepsOnlyInputChars(s: string, c: char)
    requires c !in s
    ensures c !in Trim(s)
  {
    var lead := TrimIsSlice(s);
  }

  // ---------------------------------------------------------------------------
  // str::split(char)
  // ---------------------------------------------------------------------------

  /**
   * `str::split(sep)` collected into a sequence: the maximal runs between
   * separators, always at least one (the empty string splits into `[""]`).
   */
  function Split(s: string, sep: char): (parts: seq<string>)
    ensures |parts| >= 1
  {
    if |s| == 0 then [""]
    else
      var rest := Split(s[1..], sep);
      if s[0] == sep then [""] + rest else [[s[0]] + rest[0]] + rest[1..]
  }

  /** No piece of a split holds the separator. */
  lemma {:induction false} SplitPartsLackSeparator(s: string, sep: char)
    ensures forall i :: 0 <= i < |Split(s, sep)| ==> sep !in Split(s, sep)[i]
  {
    if |s| > 0 {
      var rest := Split(s[1..], sep);
      SplitPartsLackSeparator(s[1..], sep);
      var parts := Split(s, sep);
      if s[0] != sep {
        assert forall i :: 1 <= i < |parts| ==> parts[i] == rest[i];
      } else {
        assert forall i :: 1 <= i < |parts| ==> parts[i] == rest[i - 1];
      }
    }
  }

  /** `[T]::join(sep)`: the inverse of `Split`. */
  function Join(parts: seq<string>, sep: char): string
    requires |parts| >= 1
  {
    if |parts| == 1 then parts[0] else parts[0] + [sep] + Join(parts[1..], sep)
  }

  /** Joining the pieces of a split restores the original string. */
  lemma {:induction false} JoinSplit(s: string, sep: char)
    ensures Join(Split(s, sep), sep) == s
  {
    if |s| > 0 {
      var rest := Split(s[1..], sep);
      JoinSplit(s[1..], sep);
      if s[0] == sep {
        assert Split(s, sep)[1..] == rest;
      } else {
        var parts := Split(s, sep);
        if |rest| == 1 {
          assert parts == [[s[0]] + rest[0]];
        } else {
          assert parts[1..] == rest[1..];
          assert Join(parts, sep) == [s[0]] + (rest[0] + [sep] + Join(rest[1..], sep));
        }
      }
    }
  }

  /** A string without the separator splits into itself alone. */
  lemma {:induction false} SplitWithoutSeparator(s: string, sep: char)
    requires sep !in s
    ensures Split(s, sep) == [s]
  {
    if |s| > 0 {
      SplitWithoutSeparator(s[1..], sep);
      assert [s[0]] + s[1..] == s;
    }
  }

  /** Splitting at a separator splits the two sides independently. */
  lemma {:induction false} SplitAppend(a: string, b: string, sep: char)
    ensures Split(a + [sep] + b, sep) == Split(a, sep) + Split(b, sep)
  {
    var s := a + [sep] + b;
    if |a| == 0 {
      assert s[1..] == b;
    } else {
      assert s[1..] == a[1..] + [sep] + b;
      SplitAppend(a[1..], b, sep);
    }
  }

  /** Splitting a join of separator-free pieces gives the pieces back. */
  lemma {:induction false} SplitJoin(parts: seq<string>, sep: char)
    requires |parts| >= 1
    requires forall i :: 0 <= i < |parts| ==> sep !in parts[i]
    ensures Split(Join(parts, sep), sep) == parts
  {
    SplitWithoutSeparator(parts[0], sep);
    if |parts| > 1 {
      SplitJoin(parts[1..], sep);
      SplitAppend(parts[0], Join(parts[1..], sep), sep);
      assert [parts[0]] + parts[1..] == parts;
    }
  }

  // ---------------------------------------------------------------------------
  // str::strip_prefix
  // ---------------------------------------------------------------------------

  predicate StartsWith(s: string, prefix: string) {
    |prefix| <= |s| && s[..|prefix|] == prefix
  }

  /** `str::strip_prefix`: the rest of `s` exactly when `s` begins with `prefix`. */
  function StripPrefix(s: string, prefix: string): (r: Option<string>)
    ensures r.Some? <==> StartsWith(s, prefix)
    ensures r.Some? ==> prefix + r.value == s
  {
    if StartsWith(s, prefix) then
      assert s[..|prefix|] + s[|prefix|..] == s;
      Some(s[|prefix|..])
    else None
  }

  // ---------------------------------------------------------------------------
  // Decimal digits: str::parse::<i64> and Display
  // ---------------------------------------------------------------------------

  const I64_MIN: int := -0x8000_0000_0000_0000
  const I64_MAX: int := 0x7FFF_FFFF_FFFF_FFFF

  /** Rust's `i64`. */
  type i64 = x: int | I64_MIN <= x <= I64_MAX

  predicate IsDigit(c: char) {
    '0' <= c <= '9'
  }

  predicate AllDigits(s: string) {
    forall i :: 0 <= i < |s| ==> IsDigit(s[i])
  }

  function DigitValue(c: char): (d: nat)
    requires IsDigit(c)
    ensures d < 10
  {
    (c as int) - ('0' as int)
  }

  function DigitChar(d: nat): (c: char)
    requires d < 10
    ensures IsDigit(c) && DigitValue(c) == d
  {
    (('0' as int) + d) as char
  }

  /** The value of a string of decimal digits, most significant first. */
  function DigitsValue(s: string): nat
    requires AllDigits(s)
  {
    if |s| == 0 then 0 else DigitsValue(s[..|s| - 1]) * 10 + DigitValue(s[|s| - 1])
  }

  /**
   * `str::parse::<i64>`: an optional `+` or `-`, then one or more ASCII digits
   * and nothing else (no whitespace), whose value lies in the `i64` range.
   * Every other input is an error (`None` here; the error kinds are not kept).
   */
  function ParseI64(s: string): (r: Option<i64>)
    ensures r.Some? ==> |s| >= 1 && AllDigits(s[1..])
    ensures r.Some? ==> IsDigit(s[0]) || ((s[0] == '+' || s[0] == '-') && |s| >= 2)
    ensures r.Some? && s[0] == '-' ==> r.value <= 0
    ensures r.Some? && s[0] != '-' ==> r.value >= 0
  {
    if |s| == 0 then None
    else
      var digits := if s[0] == '+' || s[0] == '-' then s[1..] else s;
      if |digits| == 0 || !AllDigits(digits) then None
      else
        var value: int := DigitsValue(digits);
        var v := if s[0] == '-' then -value else value;
        if I64_MIN <= v <= I64_MAX then Some(v) else None
  }

  /**
   * Every sign-and-digits string is accepted exactly when its value is in
   * range, with that value: leading zeros and a `+` are allowed, so `"+7"`
   * and `"007"` both parse to 7.
   */
  lemma ParseSignedDigits(sign: string, digits: string)
    requires sign == "" || sign == "+" || sign == "-"
    requires |digits| >= 1 && AllDigits(digits)
    ensures var n: int := DigitsValue(digits);
      var v := if sign == "-" then -n else n;
      ParseI64(sign + digits) == if I64_MIN <= v <= I64_MAX then Some(v) else None
  {
    var s := sign + digits;
    if sign == "" {
      assert s == digits;
    } else {
      assert s[0] == sign[0] && s[1..] == digits;
    }
  }

  /** `format!("{}", n)` for a non-negative integer: its digits, no leading zero. */
  function FormatNat(n: nat): (s: string)
    ensures |s| >= 1 && AllDigits(s)
    ensures s[0] == '0' ==> s == "0"
    ensures |s| == 1 <==> n < 10
  {
    if n < 10 then [DigitChar(n)]
    else
      var s := FormatNat(n / 10) + [DigitChar(n % 10)];
      assert s[0] == FormatNat(n / 10)[0];
      s
  }

  /** `format!("{}", v)` for a signed integer. */
  function FormatInt(v: int): string {
    if v < 0 then "-" + FormatNat(-v) else FormatNat(v)
  }

  /** Reading back the digits `FormatNat` writes gives the number. */
  lemma {:induction false} DigitsValueOfFormat(n: nat)
    ensures DigitsValue(FormatNat(n)) == n
  {
    if n >= 10 {
      var s := FormatNat(n);
      DigitsValueOfFormat(n / 10);
      assert s[..|s| - 1] == FormatNat(n / 10);
    }
  }

  /** A digit string that does not start with `0` has a positive value. */
  lemma {:induction false} DigitsValuePositive(s: string)
    requires AllDigits(s) && |s| >= 1 && s[0] != '0'
    ensures DigitsValue(s) >= 1
  {
    if |s| > 1 {
      DigitsValuePositive(s[..|s| - 1]);
    }
  }

  /** A digit string without a superfluous leading zero is what `FormatNat` writes for its value. */
  lemma {:induction false} FormatOfDigitsValue(s: string)
    requires AllDigits(s) && |s| >= 1
    requires s[0] == '0' ==> s == "0"
    ensures FormatNat(DigitsValue(s)) == s
  {
    if |s| > 1 {
      var init := s[..|s| - 1];
      DigitsValuePositive(init);
      FormatOfDigitsValue(init);
      var n := DigitsValue(s);
      assert n / 10 == DigitsValue(init) && n % 10 == DigitValue(s[|s| - 1]);
      assert init + [s[|s| - 1]] == s;
    }
  }

  /** Every `i64` written in decimal parses back to itself. */
  lemma ParseFormatI64(v: i64)
    ensures ParseI64(FormatInt(v)) == Some(v)
  {
    if v < 0 {
      var n: nat := -(v as int);
      var digits := FormatNat(n);
      DigitsValueOfFormat(n);
      var s := "-" + digits;
      assert s[0] == '-' && s[1..] == digits;
      assert ParseI64(s) == Some(v);
    } else {
      DigitsValueOfFormat(v);
      var s := FormatNat(v);
      assert IsDigit(s[0]) && s[0] != '+' && s[0] != '-';
    }
  }

  /**
   * Conversely, an `i64` literal in canonical form (no `+`, no leading zero,
   * no `-0`) is exactly what `FormatInt` writes for the value it parses to.
   */
  lemma FormatParseI64(s: string)
    requires ParseI64(s).Some?
    requires s[0] != '+'
    requires s[0] == '-' ==> s[1] != '0'
    requires s[0] == '0' ==> s == "0"
    ensures FormatInt(ParseI64(s).value) == s
  {
    if s[0] == '-' {
      DigitsValuePositive(s[1..]);
      FormatOfDigitsValue(s[1..]);
      assert "-" + s[1..] == s;
    } else {
      FormatOfDigitsValue(s);
    }
  }
}

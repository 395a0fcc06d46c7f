/** The string operations the campus code relies on: JavaScript's
    `String.prototype.trim`, `padStart` with a one-character pad, and the
    decimal rendering `String(n)` of a non-negative integer. */
module Text {

  /** The WhiteSpace and LineTerminator code points that `trim` removes. */
  predicate IsJsWhitespace(c: char) {
    c == '\t' || c == '\n' || c == '\U{B}' || c == '\U{C}' || c == '\r' || c == ' '
    || c == '\U{A0}' || c == '\U{1680}' || ('\U{2000}' <= c <= '\U{200A}')
    || c == '\U{2028}' || c == '\U{2029}' || c == '\U{202F}' || c == '\U{205F}'
    || c == '\U{3000}' || c == '\U{FEFF}'
  }

  /** `s` with its leading whitespace removed. */
  function TrimStart(s: string): string {
    if s != [] && IsJsWhitespace(s[0]) then TrimStart(s[1..]) else s
  }

  /** What `TrimStart` drops is whitespace, and what it keeps is the suffix of
      `s` that does not start with whitespace. */
  lemma {:induction false} TrimStartShape(s: string)
    ensures var r := TrimStart(s);
      |r| <= |s| && r == s[|s| - |r|..]
      && (r != [] ==> !IsJsWhitespace(r[0]))
      && forall k :: 0 <= k < |s| - |r| ==> IsJsWhitespace(s[k])
    decreases |s|
  {
    if s != [] && IsJsWhitespace(s[0]) {
      TrimStartShape(s[1..]);
      var r := TrimStart(s[1..]);
      assert s[1..][|s| - 1 - |r|..] == s[|s| - |r|..];
      assert forall k :: 1 <= k < |s| - |r| ==> s[k] == s[1..][k - 1];
    }
  }

  /** `s` with its trailing whitespace removed. */
  function TrimEnd(s: string): string {
    if s != [] && IsJsWhitespace(s[|s| - 1]) then TrimEnd(s[..|s| - 1]) else s
  }

  /** What `TrimEnd` drops is whitespace, and what it keeps is the prefix of
      `s` that does not end with whitespace. */
  lemma {:induction false} TrimEndShape(s: string)
    ensures var r := TrimEnd(s);
      |r| <= |s| && r == s[..|r|]
      && (r != [] ==> !IsJsWhitespace(r[|r| - 1]))
      && forall k :: |r| <= k < |s| ==> IsJsWhitespace(s[k])
    decreases |s|
  {
    if s != [] && IsJsWhitespace(s[|s| - 1]) {
      TrimEndShape(s[..|s| - 1]);
      var r := TrimEnd(s[..|s| - 1]);
      assert s[..|s| - 1][..|r|] == s[..|r|];
      assert forall k :: |r| <= k < |s| - 1 ==> s[k] == s[..|s| - 1][k];
    }
  }

  /** The amount of leading whitespace `trim` drops. */
  function TrimOffset(s: string): (i: nat)
    ensures i <= |s|
  {
    TrimStartShape(s);
    |s| - |TrimStart(s)|
  }

  /** `s.trim()`: whitespace dropped at both ends. */
  function Trim(s: string): string {
    TrimEnd(TrimStart(s))
  }

  /** The trim is the infix of `s` left when whitespace is dropped at both
      ends: everything dropped is whitespace, and the result neither starts
      nor ends with whitespace. */
  lemma TrimShape(s: string)
    ensures var r := Trim(s);
      TrimOffset(s) + |r| <= |s| && r == s[TrimOffset(s)..TrimOffset(s) + |r|]
      && (forall k :: 0 <= k < TrimOffset(s) ==> IsJsWhitespace(s[k]))
      && (forall k :: TrimOffset(s) + |r| <= k < |s| ==> IsJsWhitespace(s[k]))
      && (r != [] ==> !IsJsWhitespace(r[0]) && !IsJsWhitespace(r[|r| - 1]))
  {
    var u := TrimStart(s);
    TrimStartShape(s);
    TrimEndShape(u);
    var r := TrimEnd(u);
    var o := TrimOffset(s);
    assert u == s[o..];
    assert r == s[o..o + |r|];
    assert forall k :: o + |r| <= k < |s| ==> s[k] == u[k - o];
  }

  /** A string without whitespace at either end is its own trim. */
  lemma TrimOfTrimmed(s: string)
    requires s != [] ==> !IsJsWhitespace(s[0]) && !IsJsWhitespace(s[|s| - 1])
    ensures Trim(s) == s
  {
  }

  /** Trimming twice is trimming once. */
  lemma TrimIdempotent(s: string)
    ensures Trim(Trim(s)) == Trim(s)
  {
    TrimShape(s);
    TrimOfTrimmed(Trim(s));
  }

  /** The trim is empty exactly when every character is whitespace. */
  lemma TrimBlankIff(s: string)
    ensures Trim(s) == [] <==> forall k :: 0 <= k < |s| ==> IsJsWhitespace(s[k])
  {
    TrimShape(s);
    if Trim(s) != [] {
      assert !IsJsWhitespace(s[TrimOffset(s)]);
    }
  }

  /** A character `trim` keeps or drops: every non-whitespace character of `s`
      survives in `s.trim()`. */
  lemma TrimKeepsNonWhitespace(s: string, c: char)
    requires !IsJsWhitespace(c)
    ensures c in s <==> c in Trim(s)
  {
    TrimShape(s);
    if c in s {
      var k :| 0 <= k < |s| && s[k] == c;
      assert Trim(s)[k - TrimOffset(s)] == c;
    }
  }

  /** The ASCII digit for `d`. */
  function DigitChar(d: nat): (c: char)
    requires d < 10
    ensures '0' <= c <= '9'
  {
    (48 + d) as char
  }

  predicate IsDigit(c: char) {
    '0' <= c <= '9'
  }

  /** `String(n)`: the decimal digits of `n`, without leading zeros. */
  function Decimal(n: nat): string {
    if n < 10 then [DigitChar(n)] else Decimal(n / 10) + [DigitChar(n % 10)]
  }

  /** The rendering is a non-empty run of digits, with no leading zero unless
      the number is zero. */
  lemma {:induction false} DecimalShape(n: nat)
    ensures |Decimal(n)| >= 1 && (n > 0 ==> Decimal(n)[0] != '0')
    ensures forall k :: 0 <= k < |Decimal(n)| ==> IsDigit(Decimal(n)[k])
  {
    if n >= 10 {
      DecimalShape(n / 10);
      var d := Decimal(n);
      assert d == Decimal(n / 10) + [DigitChar(n % 10)];
      assert forall k :: 0 <= k < |d| - 1 ==> d[k] == Decimal(n / 10)[k];
    }
  }

  /** `c` repeated `k` times. */
  function Repeat(c: char, k: nat): string {
    if k == 0 then [] else [c] + Repeat(c, k - 1)
  }

  /** `k` copies of `c`, and nothing else. */
  lemma {:induction false} RepeatShape(c: char, k: nat)
    ensures |Repeat(c, k)| == k && forall i :: 0 <= i < k ==> Repeat(c, k)[i] == c
  {
    if k > 0 {
      RepeatShape(c, k - 1);
    }
  }

  /** `s.padStart(width, c)` for a one-character pad string. */
  function PadStart(s: string, width: nat, c: char): string {
    if |s| >= width then s else Repeat(c, width - |s|) + s
  }

  /** The padded string is `width` long (or `s` if longer), ends in `s`, and
      is `c` before it. */
  lemma PadStartShape(s: string, width: nat, c: char)
    ensures var r := PadStart(s, width, c);
      |r| == (if |s| >= width then |s| else width)
      && r[|r| - |s|..] == s
      && forall k :: 0 <= k < |r| - |s| ==> r[k] == c
  {
    if |s| < width {
      RepeatShape(c, width - |s|);
    }
  }

  /** The number a string of decimal digits denotes, read left to right. */
  function DigitsValue(s: string): nat
  {
    if s == [] then 0
    else DigitsValue(s[..|s| - 1]) * 10 + (if IsDigit(s[|s| - 1]) then s[|s| - 1] as int - 48 else 0)
  }

  /** Reading back the decimal rendering gives the number. */
  lemma {:induction false} DecimalRoundTrip(n: nat)
    ensures DigitsValue(Decimal(n)) == n
  {
    if n >= 10 {
      DecimalRoundTrip(n / 10);
      var r := Decimal(n);
      assert r[..|r| - 1] == Decimal(n / 10);
    }
  }

  /** Leading zeros do not change the value of a digit string. */
  lemma {:induction false} LeadingZerosValue(k: nat, s: string)
    ensures DigitsValue(Repeat('0', k) + s) == DigitsValue(s)
    decreases |s|, k
  {
    if s == [] {
      if k > 0 {
        assert Repeat('0', k) + s == Repeat('0', k);
        var z := Repeat('0', k);
        RepeatShape('0', k);
        RepeatShape('0', k - 1);
        assert z[..|z| - 1] == Repeat('0', k - 1) + [];
        LeadingZerosValue(k - 1, []);
      }
    } else {
      var t := Repeat('0', k) + s;
      assert t[..|t| - 1] == Repeat('0', k) + s[..|s| - 1];
      LeadingZerosValue(k, s[..|s| - 1]);
    }
  }

  /** Zero-padding the decimal rendering of `n` still reads back as `n`. */
  lemma PaddedDecimalRoundTrip(n: nat, width: nat)
    ensures DigitsValue(PadStart(Decimal(n), width, '0')) == n
  {
    DecimalRoundTrip(n);
    var d := Decimal(n);
    if |d| < width {
      LeadingZerosValue(width - |d|, d);
    }
  }
}

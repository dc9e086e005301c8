/** The JavaScript built-ins that the download handler applies to strings and
    numbers: `String.prototype.split` with a one-character separator, the global
    `parseInt` called without a radix, and the decimal text a template literal
    gives a non-negative integer. */
module JsText {
  import opened Wrappers

  // ---------------------------------------------------------------------------
  // split / join
  // ---------------------------------------------------------------------------

  /** `s.split(sep)`: the pieces between occurrences of `sep`, always at least one. */
  function Split(s: string, sep: char): (parts: seq<string>)
    ensures |parts| >= 1
    ensures forall i :: 0 <= i < |parts| ==> sep !in parts[i]
    decreases |s|
  {
    if |s| == 0 then [""]
    else
      var init := Split(s[..|s| - 1], sep);
      var c := s[|s| - 1];
      if c == sep then init + [""]
      else init[..|init| - 1] + [init[|init| - 1] + [c]]
  }

  /** `parts.join(sep)`, the inverse of `Split`. */
  function Join(parts: seq<string>, sep: char): string
    requires |parts| >= 1
  {
    if |parts| == 1 then parts[0]
    else Join(parts[..|parts| - 1], sep) + [sep] + parts[|parts| - 1]
  }

  /** Splitting loses nothing: joining the pieces again gives back the string. */
  lemma {:induction false} JoinSplit(s: string, sep: char)
    ensures Join(Split(s, sep), sep) == s
  {
    if |s| > 0 {
      var s' := s[..|s| - 1];
      var c := s[|s| - 1];
      JoinSplit(s', sep);
      var init := Split(s', sep);
      var n := |init|;
      if c == sep {
        assert (init + [""])[..n] == init;
      } else if n > 1 {
        var parts := init[..n - 1] + [init[n - 1] + [c]];
        assert parts[..n - 1] == init[..n - 1];
        assert init[..n - 1] == init[..|init| - 1];
      }
      assert s == s' + [c];
    }
  }

  /** The last piece of a split is the longest suffix free of `sep`. */
  lemma LastPieceIsSuffix(s: string, sep: char)
    ensures var parts := Split(s, sep);
            var last := parts[|parts| - 1];
            && sep !in last
            && |last| <= |s| && s[|s| - |last|..] == last
            && (|last| < |s| ==> s[|s| - |last| - 1] == sep)
  {
    var parts := Split(s, sep);
    JoinSplit(s, sep);
    if |parts| > 1 {
      var head := Join(parts[..|parts| - 1], sep);
      assert s == head + [sep] + parts[|parts| - 1];
    }
  }

  /** A string without `sep` splits into itself alone. */
  lemma {:induction false} SplitWithoutSeparator(s: string, sep: char)
    requires sep !in s
    ensures Split(s, sep) == [s]
  {
    if |s| > 0 {
      SplitWithoutSeparator(s[..|s| - 1], sep);
      assert s[..|s| - 1] + [s[|s| - 1]] == s;
    }
  }

  /** Text after the last separator becomes one new last piece. */
  lemma {:induction false} SplitAfterSeparator(a: string, sep: char, b: string)
    requires sep !in b
    ensures Split(a + [sep] + b, sep) == Split(a, sep) + [b]
  {
    var s := a + [sep] + b;
    if |b| == 0 {
      assert s[..|s| - 1] == a;
    } else {
      var b' := b[..|b| - 1];
      assert s[..|s| - 1] == a + [sep] + b';
      assert s[|s| - 1] == b[|b| - 1];
      SplitAfterSeparator(a, sep, b');
      var init := Split(a, sep) + [b'];
      assert init[..|init| - 1] == Split(a, sep);
      assert b' + [b[|b| - 1]] == b;
    }
  }

  /** Splitting at one separator splits each side on its own: the pieces of `a`,
      then the pieces of `b`. */
  lemma {:induction false} SplitJoin(a: string, sep: char, b: string)
    ensures Split(a + [sep] + b, sep) == Split(a, sep) + Split(b, sep)
    decreases |b|
  {
    var s := a + [sep] + b;
    if |b| == 0 {
      assert s[..|s| - 1] == a;
    } else {
      var b', c := b[..|b| - 1], b[|b| - 1];
      assert s[..|s| - 1] == a + [sep] + b';
      assert s[|s| - 1] == c;
      SplitJoin(a, sep, b');
      var left, right := Split(a, sep), Split(b', sep);
      var init := Split(a + [sep] + b', sep);
      assert init == left + right;
      assert b[..|b| - 1] == b' && b[|b| - 1] == c;
      if c == sep {
        assert Split(s, sep) == init + [""];
        assert Split(b, sep) == right + [""];
        assert (left + right) + [""] == left + (right + [""]);
      } else {
        assert Split(s, sep) == init[..|init| - 1] + [init[|init| - 1] + [c]];
        assert Split(b, sep) == right[..|right| - 1] + [right[|right| - 1] + [c]];
        ExtendLastPiece(left, right, c);
      }
    }
  }

  /** Adding a character to the last piece of `left + right` adds it to the last
      piece of `right`. */
  lemma ExtendLastPiece(left: seq<string>, right: seq<string>, c: char)
    requires |right| >= 1
    ensures var init := left + right;
            init[..|init| - 1] + [init[|init| - 1] + [c]]
            == left + (right[..|right| - 1] + [right[|right| - 1] + [c]])
  {
    var init := left + right;
    assert init[..|init| - 1] == left + right[..|right| - 1];
  }

  // ---------------------------------------------------------------------------
  // parseInt
  // ---------------------------------------------------------------------------

  /** ECMAScript StrWhiteSpaceChar: the WhiteSpace and LineTerminator code points
      that `parseInt` skips before the number. */
  predicate IsStrWhiteSpace(c: char)
  {
    || c == '\t' || c == '\n' || c == '\U{B}' || c == '\U{C}' || c == '\r' || c == ' '
    || c == '\U{A0}' || c == '\U{1680}' || ('\U{2000}' <= c <= '\U{200A}')
    || c == '\U{2028}' || c == '\U{2029}' || c == '\U{202F}' || c == '\U{205F}'
    || c == '\U{3000}' || c == '\U{FEFF}'
  }

  /** The value of `c` as a digit in radix 36, or 36 when it is no digit at all. */
  function DigitValue(c: char): (d: nat)
    ensures d <= 36
  {
    if '0' <= c <= '9' then c as int - '0' as int
    else if 'a' <= c <= 'z' then c as int - 'a' as int + 10
    else if 'A' <= c <= 'Z' then c as int - 'A' as int + 10
    else 36
  }

  predicate IsRadixDigit(c: char, radix: nat)
  {
    DigitValue(c) < radix
  }

  /** `s` with its leading white space removed. */
  function TrimStart(s: string): (t: string)
    ensures |t| <= |s| && t == s[|s| - |t|..]
    ensures t == [] || !IsStrWhiteSpace(t[0])
    ensures forall i :: 0 <= i < |s| - |t| ==> IsStrWhiteSpace(s[i])
  {
    if |s| > 0 && IsStrWhiteSpace(s[0]) then TrimStart(s[1..]) else s
  }

  /** The longest prefix of `s` made of digits of `radix`. */
  function LeadingDigits(s: string, radix: nat): (z: string)
    ensures |z| <= |s| && z == s[..|z|]
    ensures forall i :: 0 <= i < |z| ==> IsRadixDigit(z[i], radix)
    ensures |z| < |s| ==> !IsRadixDigit(s[|z|], radix)
  {
    if |s| > 0 && IsRadixDigit(s[0], radix) then [s[0]] + LeadingDigits(s[1..], radix) else []
  }

  /** The number the digit string `z` denotes in `radix`, most significant first. */
  function DigitsValue(z: string, radix: nat): nat
  {
    if |z| == 0 then 0 else DigitsValue(z[..|z| - 1], radix) * radix + DigitValue(z[|z| - 1])
  }

  /** `parseInt(s)` without a radix argument: skip white space, take one optional
      sign, read hexadecimal after a `0x`/`0X` prefix and decimal otherwise, stop at
      the first character that is not a digit. `None` is NaN (no digit at all). */
  function ParseInt(s: string): (r: Option<int>)
    ensures TrimStart(s) == [] ==> r == None
    ensures r.Some? && r.value < 0 ==> TrimStart(s)[0] == '-'
  {
    ParseSigned(TrimStart(s))
  }

  /** The number after white space: one optional sign, then the magnitude. */
  function ParseSigned(t: string): Option<int>
  {
    if |t| > 0 && t[0] == '-' then
      match ParseMagnitude(t[1..])
      case None => None
      case Some(v) => Some(-v)
    else if |t| > 0 && t[0] == '+' then ParseMagnitude(t[1..])
    else ParseMagnitude(t)
  }

  /** The number after the sign: hexadecimal after `0x` or `0X`, else decimal. */
  function ParseMagnitude(u: string): Option<int>
  {
    if |u| >= 2 && u[0] == '0' && (u[1] == 'x' || u[1] == 'X') then ParseDigits(u[2..], 16)
    else ParseDigits(u, 10)
  }

  /** The value of the leading digits of `v` in `radix`; `None` when there are none. */
  function ParseDigits(v: string, radix: nat): Option<int>
  {
    var z := LeadingDigits(v, radix);
    if |z| == 0 then None else Some(DigitsValue(z, radix))
  }

  /** `s[i]` is a digit `parseInt` can read: a decimal digit, or a hexadecimal one
      right after `0x` or `0X`. */
  predicate ReadableDigitAt(s: string, i: nat)
    requires i < |s|
  {
    || IsRadixDigit(s[i], 10)
    || (i >= 2 && s[i - 2] == '0' && (s[i - 1] == 'x' || s[i - 1] == 'X') && IsRadixDigit(s[i], 16))
  }

  /** `parseInt` gives a number (not NaN) only when the text holds a digit of the
      radix it reads. */
  lemma ParseIntNeedsDigit(s: string)
    ensures ParseInt(s).Some? ==> exists i: nat :: i < |s| && ReadableDigitAt(s, i)
  {
    var t := TrimStart(s);
    if ParseInt(s).Some? {
      var u := if |t| > 0 && (t[0] == '-' || t[0] == '+') then t[1..] else t;
      assert ParseMagnitude(u).Some?;
      assert u == s[|s| - |u|..];
      var j := MagnitudeDigit(u);
      ReadableDigitInSuffix(s, u, j);
    }
  }

  /** Where the digit that makes the magnitude a number sits. */
  lemma MagnitudeDigit(u: string) returns (i: nat)
    requires ParseMagnitude(u).Some?
    ensures i < |u| && ReadableDigitAt(u, i)
  {
    var hex := |u| >= 2 && u[0] == '0' && (u[1] == 'x' || u[1] == 'X');
    var v := if hex then u[2..] else u;
    var radix := if hex then 16 else 10;
    assert ParseDigits(v, radix).Some?;
    assert |LeadingDigits(v, radix)| > 0;
    assert IsRadixDigit(v[0], radix);
    i := if hex then 2 else 0;
    assert u[i] == v[0];
  }

  /** A readable digit of a suffix is a readable digit of the whole text. */
  lemma ReadableDigitInSuffix(s: string, u: string, j: nat)
    requires |u| <= |s| && u == s[|s| - |u|..]
    requires j < |u| && ReadableDigitAt(u, j)
    ensures ReadableDigitAt(s, |s| - |u| + j)
  {
    var k := |s| - |u| + j;
    assert s[k] == u[j];
    if j >= 2 {
      assert s[k - 2] == u[j - 2] && s[k - 1] == u[j - 1];
    }
  }


  // ---------------------------------------------------------------------------
  // Decimal text of a non-negative integer
  // ---------------------------------------------------------------------------

  function DigitChar(d: nat): (c: char)
    requires d < 10
    ensures IsRadixDigit(c, 10) && DigitValue(c) == d
  {
    ('0' as int + d) as char
  }

  /** The text `${n}` for a non-negative integer `n`: decimal digits with no
      leading zero. */
  function NatToString(n: nat): (s: string)
    ensures |s| >= 1
    ensures forall i :: 0 <= i < |s| ==> IsRadixDigit(s[i], 10)
    ensures s[0] == '0' ==> s == "0"
    decreases n
  {
    if n < 10 then [DigitChar(n)] else NatToString(n / 10) + [DigitChar(n % 10)]
  }

  /** Reading the decimal text back gives the number. */
  lemma {:induction false} DecimalRoundTrip(n: nat)
    ensures DigitsValue(NatToString(n), 10) == n
  {
    var s := NatToString(n);
    if n >= 10 {
      DecimalRoundTrip(n / 10);
      assert s[..|s| - 1] == NatToString(n / 10);
    } else {
      assert s[..0] == [];
    }
  }

  /** Digits followed by a non-digit: exactly the digits are read. */
  lemma {:induction false} LeadingDigitsStopAtNonDigit(d: string, rest: string)
    requires forall i :: 0 <= i < |d| ==> IsRadixDigit(d[i], 10)
    requires rest == [] || !IsRadixDigit(rest[0], 10)
    ensures LeadingDigits(d + rest, 10) == d
  {
    if |d| > 0 {
      assert (d + rest)[1..] == d[1..] + rest;
      LeadingDigitsStopAtNonDigit(d[1..], rest);
    }
  }

  /** `parseInt` of a string that starts with a decimal digit but not with `0x` or
      `0X` reads its leading decimal digits. */
  lemma ParseIntDecimal(s: string)
    requires |s| > 0 && IsRadixDigit(s[0], 10)
    requires !(|s| >= 2 && s[0] == '0' && (s[1] == 'x' || s[1] == 'X'))
    ensures ParseInt(s) == ParseDigits(s, 10)
  {
    assert !IsStrWhiteSpace(s[0]);
    assert TrimStart(s) == s;
    assert ParseSigned(s) == ParseMagnitude(s);
  }

  /** `parseInt` reads a digit string without a superfluous leading zero, whatever
      non-digit follows it (except an `x` or `X`, which after a lone `0` would
      start a hexadecimal number). */
  lemma ParseIntOfDigits(d: string, rest: string)
    requires |d| >= 1 && (d[0] == '0' ==> |d| == 1)
    requires forall i :: 0 <= i < |d| ==> IsRadixDigit(d[i], 10)
    requires rest == [] || (!IsRadixDigit(rest[0], 10) && rest[0] != 'x' && rest[0] != 'X')
    ensures ParseInt(d + rest) == Some(DigitsValue(d, 10))
  {
    var s := d + rest;
    assert s[0] == d[0];
    if |s| >= 2 && s[0] == '0' {
      assert s[1] == rest[0];
    }
    ParseIntDecimal(s);
    LeadingDigitsStopAtNonDigit(d, rest);
    assert ParseDigits(s, 10) == Some(DigitsValue(d, 10));
  }

  /** `parseInt` reads back the decimal text of `n` under the same condition on
      what follows it. */
  lemma ParseIntOfNatToString(n: nat, rest: string)
    requires rest == [] || (!IsRadixDigit(rest[0], 10) && rest[0] != 'x' && rest[0] != 'X')
    ensures ParseInt(NatToString(n) + rest) == Some(n)
  {
    ParseIntOfDigits(NatToString(n), rest);
    DecimalRoundTrip(n);
  }
}

/**
 * The java.lang.String, Integer and Scanner behaviour the SLHA code relies on,
 * written out over Dafny strings: trim, whitespace tokens, ASCII case folding,
 * indexOf/lastIndexOf, contains, compareTo, Integer.parseInt, int-to-string
 * conversion and 32-bit wrap-around.
 */
module JavaStrings {
  import opened Wrappers

  const IntMin: int := -0x8000_0000
  const IntMax: int := 0x7FFF_FFFF

  predicate IsInt32(x: int) { IntMin <= x <= IntMax }

  /** The value a Java `int` expression takes: two's-complement wrap-around. */
  function Wrap32(x: int): (r: int)
    ensures IsInt32(r)
    ensures (r - x) % 0x1_0000_0000 == 0
    ensures IsInt32(x) ==> r == x
  {
    (x + 0x8000_0000) % 0x1_0000_0000 - 0x8000_0000
  }

  // ---------------------------------------------------------------- trim

  /** String.trim removes every leading and trailing char whose code is at most U+0020. */
  predicate IsTrimmable(c: char) { c <= ' ' }

  function Trim(s: string): (r: string)
    ensures |r| <= |s|
    ensures r == [] || (!IsTrimmable(r[0]) && !IsTrimmable(r[|r| - 1]))
    decreases |s|
  {
    if |s| > 0 && IsTrimmable(s[0]) then Trim(s[1..])
    else if |s| > 0 && IsTrimmable(s[|s| - 1]) then Trim(s[..|s| - 1])
    else s
  }

  lemma TrimIdempotent(s: string)
    ensures Trim(Trim(s)) == Trim(s)
  {
  }

  /** A string with no trimmable char at either end is its own trim. */
  lemma TrimOfTrimmed(s: string)
    requires s == [] || (!IsTrimmable(s[0]) && !IsTrimmable(s[|s| - 1]))
    ensures Trim(s) == s
  {
  }

  // ------------------------------------------------------ Scanner tokens

  /** Character.isWhitespace, which the default Scanner delimiter splits on. */
  predicate IsWhitespace(c: char) {
    c == ' ' || c == '\t' || c == '\n' || c == '\U{B}' || c == '\U{C}' || c == '\r'
    || ('\U{1C}' <= c <= '\U{1F}')
    || c == '\U{1680}' || ('\U{2000}' <= c <= '\U{2006}') || ('\U{2008}' <= c <= '\U{200A}')
    || c == '\U{2028}' || c == '\U{2029}' || c == '\U{205F}' || c == '\U{3000}'
  }

  predicate IsToken(t: string) {
    |t| > 0 && forall i :: 0 <= i < |t| ==> !IsWhitespace(t[i])
  }

  /** Length of the maximal run of non-whitespace chars at the start of s. */
  function WordLength(s: string): (n: nat)
    ensures n <= |s|
    ensures forall i :: 0 <= i < n ==> !IsWhitespace(s[i])
    ensures n < |s| ==> IsWhitespace(s[n])
  {
    if |s| == 0 || IsWhitespace(s[0]) then 0 else 1 + WordLength(s[1..])
  }

  /** The successive results of Scanner.next() on s. */
  function Tokens(s: string): (r: seq<string>)
    ensures forall k :: 0 <= k < |r| ==> IsToken(r[k])
    decreases |s|
  {
    if |s| == 0 then []
    else if IsWhitespace(s[0]) then Tokens(s[1..])
    else
      var n := WordLength(s);
      [s[..n]] + Tokens(s[n..])
  }

  /** A whitespace char separates: the tokens of a ++ " " ++ b are those of a, then those of b. */
  lemma {:induction false} TokensSplit(a: string, b: string)
    ensures Tokens(a + " " + b) == Tokens(a) + Tokens(b)
    decreases |a|
  {
    var s := a + " " + b;
    if |a| == 0 {
      assert s[1..] == b;
    } else if IsWhitespace(a[0]) {
      assert s[1..] == a[1..] + " " + b;
      TokensSplit(a[1..], b);
    } else {
      TokensWordFront(a, b);
      TokensSplit(a[WordLength(a)..], b);
    }
  }

  /** The first word of a, when a starts with one, is also the first token of a ++ " " ++ b. */
  lemma TokensWordFront(a: string, b: string)
    requires |a| > 0 && !IsWhitespace(a[0])
    ensures var n := WordLength(a);
            Tokens(a + " " + b) == [a[..n]] + Tokens(a[n..] + " " + b)
  {
    var s := a + " " + b;
    var n := WordLength(a);
    WordLengthExtends(a, " " + b);
    assert s == a + (" " + b);
    assert s[..n] == a[..n];
    assert s[n..] == a[n..] + " " + b;
  }

  lemma {:induction false} WordLengthExtends(a: string, rest: string)
    requires |rest| > 0 && IsWhitespace(rest[0])
    ensures WordLength(a + rest) == WordLength(a)
    decreases |a|
  {
    if |a| > 0 && !IsWhitespace(a[0]) {
      assert (a + rest)[1..] == a[1..] + rest;
      WordLengthExtends(a[1..], rest);
    }
  }

  /** A single token scans as itself. */
  lemma TokensOfToken(t: string)
    requires IsToken(t)
    ensures Tokens(t) == [t]
  {
    assert WordLength(t) == |t|;
    assert t[..|t|] == t;
    assert t[|t|..] == [];
  }

  // ----------------------------------------------------------- case folding

  /** Lower-case mapping of the ASCII letters; other chars are unchanged. */
  function Lower(c: char): char {
    if 'A' <= c <= 'Z' then (c as int + 32) as char else c
  }

  /** String.toLowerCase restricted to ASCII letters. */
  function Fold(s: string): (r: string)
    ensures |r| == |s|
    ensures forall i :: 0 <= i < |s| ==> r[i] == Lower(s[i])
  {
    if |s| == 0 then [] else [Lower(s[0])] + Fold(s[1..])
  }

  /** String.equalsIgnoreCase for ASCII letters: equal lengths and equal chars after folding. */
  predicate EqualsIgnoreCase(a: string, b: string) {
    Fold(a) == Fold(b)
  }

  lemma EqualsIgnoreCaseCharwise(a: string, b: string)
    ensures EqualsIgnoreCase(a, b) <==> |a| == |b| && forall i :: 0 <= i < |a| ==> Lower(a[i]) == Lower(b[i])
  {
    if |a| == |b| && forall i :: 0 <= i < |a| ==> Lower(a[i]) == Lower(b[i]) {
      assert forall i :: 0 <= i < |a| ==> Fold(a)[i] == Fold(b)[i];
    }
  }

  // ------------------------------------------------------------ searching

  /** String.indexOf(c): the first position of c, or -1. */
  function IndexOf(s: string, c: char): (r: int)
    ensures -1 <= r < |s|
    ensures r >= 0 ==> s[r] == c && forall i :: 0 <= i < r ==> s[i] != c
    ensures r == -1 <==> c !in s
  {
    if |s| == 0 then -1
    else if s[0] == c then 0
    else var k := IndexOf(s[1..], c); if k < 0 then -1 else k + 1
  }

  /** String.lastIndexOf(c): the last position of c, or -1. */
  function LastIndexOf(s: string, c: char): (r: int)
    ensures -1 <= r < |s|
    ensures r >= 0 ==> s[r] == c && forall i :: r < i < |s| ==> s[i] != c
    ensures r == -1 <==> c !in s
  {
    if |s| == 0 then -1
    else if s[|s| - 1] == c then |s| - 1
    else LastIndexOf(s[..|s| - 1], c)
  }

  /** String.contains(t): t occurs somewhere in s as a contiguous piece. */
  predicate Contains(s: string, t: string)
    decreases |s|
  {
    t <= s || (|s| > 0 && Contains(s[1..], t))
  }

  // -------------------------------------------------------------- compareTo

  /** String.compareTo: the difference of the first differing chars, else of the lengths. */
  function CompareTo(a: string, b: string): int {
    if |a| == 0 || |b| == 0 then |a| - |b|
    else if a[0] != b[0] then a[0] as int - b[0] as int
    else CompareTo(a[1..], b[1..])
  }

  lemma {:induction false} CompareToAntisymmetric(a: string, b: string)
    ensures CompareTo(a, b) == -CompareTo(b, a)
    ensures CompareTo(a, b) == 0 <==> a == b
    decreases |a|
  {
    if |a| > 0 && |b| > 0 && a[0] == b[0] {
      CompareToAntisymmetric(a[1..], b[1..]);
      if a[1..] == b[1..] {
        assert a == [a[0]] + a[1..] && b == [b[0]] + b[1..];
      }
    }
  }

  // ------------------------------------------------------- integers as text

  predicate IsDigit(c: char) { '0' <= c <= '9' }

  predicate AllDigits(s: string) { forall i :: 0 <= i < |s| ==> IsDigit(s[i]) }

  function DigitsValue(s: string): nat
    requires AllDigits(s)
  {
    if |s| == 0 then 0 else DigitsValue(s[..|s| - 1]) * 10 + (s[|s| - 1] as int - '0' as int)
  }

  /**
   * Integer.parseInt(s) in radix 10: an optional leading '-' or '+', then at
   * least one decimal digit, and a value in the int range; None where the
   * source throws NumberFormatException.
   */
  function ParseInt(s: string): (r: Option<int>)
    ensures r.Some? ==> IsInt32(r.value)
  {
    if |s| == 0 then None
    else
      var digits := if s[0] == '-' || s[0] == '+' then s[1..] else s;
      if |digits| == 0 || !AllDigits(digits) then None
      else
        var n: int := DigitsValue(digits);
        var v := if s[0] == '-' then -n else n;
        if IsInt32(v) then Some(v) else None
  }

  /** A one-digit numeral parses as its digit. */
  lemma ParseDigit(c: char)
    requires IsDigit(c)
    ensures ParseInt([c]) == Some(c as int - '0' as int)
  {
    assert [c][..0] == [] && [c][0] == c && AllDigits([c]);
    assert DigitsValue([c]) == DigitsValue([]) * 10 + (c as int - '0' as int);
  }

  function DigitChar(d: nat): (c: char)
    requires d < 10
    ensures IsDigit(c) && c as int - '0' as int == d
  {
    ('0' as int + d) as char
  }

  /** The decimal digits of n, without leading zeros. */
  function NatToString(n: nat): (r: string)
    ensures |r| > 0
  {
    if n < 10 then [DigitChar(n)] else NatToString(n / 10) + [DigitChar(n % 10)]
  }

  /** The digits of n spell n. */
  lemma {:induction false} NatToStringDigits(n: nat)
    ensures AllDigits(NatToString(n)) && DigitsValue(NatToString(n)) == n
  {
    if n >= 10 {
      NatToStringDigits(n / 10);
      var r := NatToString(n);
      assert r[..|r| - 1] == NatToString(n / 10);
    }
  }

  /** Integer.toString(n) (also `n + ""`): a '-' for negatives, then the digits. */
  function IntToString(n: int): (r: string)
    ensures |r| > 0
  {
    if n < 0 then "-" + NatToString(-n) else NatToString(n)
  }

  /** Printing an int and parsing it back gives the same int. */
  lemma ParseIntToString(n: int)
    requires IsInt32(n)
    ensures ParseInt(IntToString(n)) == Some(n)
  {
    NatToStringDigits(if n < 0 then -n else n);
    if n < 0 {
      assert IntToString(n)[1..] == NatToString(-n);
    }
  }

  /** A decimal string is canonical when it is exactly how Java prints the int it parses to. */
  predicate IsCanonicalInt(s: string) {
    ParseInt(s).Some? && IntToString(ParseInt(s).value) == s
  }

  lemma IntToStringCanonical(n: int)
    requires IsInt32(n)
    ensures IsCanonicalInt(IntToString(n))
  {
    ParseIntToString(n);
  }

  /** The text of a printed int carries no whitespace and nothing String.trim would remove. */
  lemma IntToStringIsToken(n: int)
    ensures IsToken(IntToString(n))
    ensures Trim(IntToString(n)) == IntToString(n)
  {
    var r := IntToString(n);
    NatToStringDigits(if n < 0 then -n else n);
    if n < 0 {
      assert forall i :: 1 <= i < |r| ==> r[i] == NatToString(-n)[i - 1];
    }
    TrimOfTrimmed(r);
  }

  // -------------------------------------------------- Double.parseDouble

  predicate IsHexDigit(c: char) { IsDigit(c) || 'a' <= c <= 'f' || 'A' <= c <= 'F' }

  predicate IsSuffix(c: char) { c == 'f' || c == 'F' || c == 'd' || c == 'D' }

  /**
   * Where Double.parseDouble's scanner stands inside a literal: before the
   * optional sign, past it (where NaN, Infinity, a hexadecimal prefix or a
   * decimal mantissa may start), in the mantissa (hexadecimal or decimal, whether a digit and whether the point
   * have been seen), just past the exponent marker, past the exponent's sign,
   * among the exponent's digits, or past the type suffix.
   */
  datatype Phase =
    | Start
    | Magnitude
    | Mantissa(hex: bool, digit: bool, dot: bool)
    | ExponentStart
    | ExponentSign
    | ExponentDigits
    | Suffixed

  /**
   * The rest u of a literal is accepted from phase p. A literal starts with
   * an optional sign, then NaN, Infinity, 0x or 0X and a hexadecimal
   * mantissa, or a decimal mantissa. A mantissa is digits of
   * its radix with at most one point and at least one digit; a decimal one
   * may be followed by e/E, a hexadecimal one must be followed by p/P; an
   * exponent is an optional sign and at least one decimal digit; a suffix
   * f, F, d or D may close a complete literal and nothing may follow it.
   */
  predicate Scan(u: string, p: Phase)
    decreases |u|, if p == Start then 2 else if p == Magnitude then 1 else 0
  {
    if |u| == 0 then
      (p.Mantissa? && !p.hex && p.digit) || p == ExponentDigits || p == Suffixed
    else
      var c := u[0];
      match p
      case Start => Scan(if c == '+' || c == '-' then u[1..] else u, Magnitude)
      case Magnitude =>
        u == "NaN" || u == "Infinity"
        || (|u| >= 2 && c == '0' && (u[1] == 'x' || u[1] == 'X') && Scan(u[2..], Mantissa(true, false, false)))
        || Scan(u, Mantissa(false, false, false))
      case Mantissa(hex, digit, dot) =>
        if c == '.' && !dot then Scan(u[1..], Mantissa(hex, digit, true))
        else if (if hex then IsHexDigit(c) else IsDigit(c)) then Scan(u[1..], Mantissa(hex, true, dot))
        else if digit && (if hex then c == 'p' || c == 'P' else c == 'e' || c == 'E') then Scan(u[1..], ExponentStart)
        else if digit && !hex && IsSuffix(c) then Scan(u[1..], Suffixed)
        else false
      case ExponentStart =>
        if c == '+' || c == '-' then Scan(u[1..], ExponentSign)
        else IsDigit(c) && Scan(u[1..], ExponentDigits)
      case ExponentSign => IsDigit(c) && Scan(u[1..], ExponentDigits)
      case ExponentDigits =>
        if IsDigit(c) then Scan(u[1..], ExponentDigits)
        else IsSuffix(c) && Scan(u[1..], Suffixed)
      case Suffixed => false
  }

  /** The text after String.trim and an optional leading sign. */
  function Unsigned(s: string): string {
    var t := Trim(s);
    if |t| > 0 && (t[0] == '+' || t[0] == '-') then t[1..] else t
  }

  /**
   * Double.parseDouble(s) returns without throwing NumberFormatException: after
   * String.trim and an optional sign, the text is NaN, Infinity, or a hexadecimal
   * or decimal floating-point literal.
   */
  predicate IsDoubleLiteral(s: string) {
    Scan(Trim(s), Start)
  }

  /** What parseDouble accepts once the blanks and the sign are gone. */
  predicate IsUnsignedLiteral(u: string) {
    Scan(u, Magnitude)
  }

  /** A literal is accepted when what is left after the blanks and the sign is. */
  lemma DoubleLiteralUnsigned(s: string)
    ensures IsDoubleLiteral(s) == IsUnsignedLiteral(Unsigned(s))
  {
  }

  /**
   * Three int codes written one after the other parse as a double exactly when
   * neither the second nor the third carries a sign: a sign inside the text ends
   * the mantissa at a char that is not an exponent.
   */
  lemma IntCodesJoinedParse(a: string, b: string, c: string)
    requires ParseInt(a).Some? && ParseInt(b).Some? && ParseInt(c).Some?
    ensures IsDoubleLiteral(a + b + c) <==> (b[0] != '-' && b[0] != '+' && c[0] != '-' && c[0] != '+')
  {
    ParsedShape(a);
    ParsedShape(b);
    ParsedShape(c);
    JoinedCodesParse(a, b, c);
  }

  lemma JoinedCodesParse(a: string, b: string, c: string)
    requires |a| > 0 && |b| > 0 && |c| > 0
    requires !IsTrimmable(a[0]) && IsDigit(b[|b| - 1]) && IsDigit(c[|c| - 1])
    requires var d := if a[0] == '+' || a[0] == '-' then a[1..] else a; |d| > 0 && AllDigits(d)
    requires var d := if b[0] == '+' || b[0] == '-' then b[1..] else b; |d| > 0 && AllDigits(d)
    requires var d := if c[0] == '+' || c[0] == '-' then c[1..] else c; |d| > 0 && AllDigits(d)
    ensures IsDoubleLiteral(a + b + c) <==> (b[0] != '-' && b[0] != '+' && c[0] != '-' && c[0] != '+')
  {
    var digitsA := if a[0] == '+' || a[0] == '-' then a[1..] else a;
    JoinedUnsigned(a, b, c, digitsA);
    if b[0] == '-' || b[0] == '+' {
      SignedSecondRefused(digitsA, b, c);
    } else if c[0] == '-' || c[0] == '+' {
      SignedThirdRefused(digitsA, b, c);
    } else {
      UnsignedCodesAccepted(digitsA, b, c);
    }
  }

  lemma SignedSecondRefused(d: string, b: string, c: string)
    requires |d| > 0 && AllDigits(d) && |b| > 1 && (b[0] == '-' || b[0] == '+')
    ensures !IsUnsignedLiteral(d + b + c)
  {
    SignAfterDigits(d, b + c);
    assert d + b + c == d + (b + c);
  }

  lemma SignedThirdRefused(d: string, b: string, c: string)
    requires |d| > 0 && AllDigits(d) && AllDigits(b)
    requires |c| > 1 && (c[0] == '-' || c[0] == '+')
    ensures !IsUnsignedLiteral(d + b + c)
  {
    DigitsJoined(d, b);
    SignAfterDigits(d + b, c);
  }

  lemma UnsignedCodesAccepted(d: string, b: string, c: string)
    requires |d| > 0 && AllDigits(d) && AllDigits(b) && AllDigits(c)
    ensures IsUnsignedLiteral(d + b + c)
  {
    DigitsJoined(d, b);
    DigitsJoined(d + b, c);
    DigitsScanned(d + b + c, false, false, []);
    assert d + b + c + [] == d + b + c;
  }

  /** Trimming and unsigning three int codes leaves the first code's digits and the other two codes. */
  lemma JoinedUnsigned(a: string, b: string, c: string, digitsA: string)
    requires |a| > 0 && |c| > 0 && !IsTrimmable(a[0]) && !IsTrimmable(c[|c| - 1])
    requires digitsA == if a[0] == '+' || a[0] == '-' then a[1..] else a
    ensures Unsigned(a + b + c) == digitsA + b + c
  {
    var s := a + b + c;
    assert s[0] == a[0] && s[|s| - 1] == c[|c| - 1];
    UnsignedOfUntrimmed(s);
    if a[0] == '+' || a[0] == '-' {
      assert s[1..] == a[1..] + b + c;
    }
  }

  /** What Integer.parseInt accepts: an optional sign, then at least one digit. */
  lemma ParsedShape(x: string)
    requires ParseInt(x).Some?
    ensures var digits := if x[0] == '+' || x[0] == '-' then x[1..] else x;
            |digits| > 0 && AllDigits(digits) && digits[|digits| - 1] == x[|x| - 1]
            && !IsTrimmable(x[0]) && IsDigit(x[|x| - 1])
  {
  }

  lemma UnsignedOfUntrimmed(s: string)
    requires |s| > 0 && !IsTrimmable(s[0]) && !IsTrimmable(s[|s| - 1])
    ensures Unsigned(s) == if s[0] == '+' || s[0] == '-' then s[1..] else s
  {
    TrimOfTrimmed(s);
  }

  lemma DigitsJoined(d: string, e: string)
    requires AllDigits(d) && AllDigits(e)
    ensures AllDigits(d + e)
  {
  }

  /** Digits, then a sign and more text, are no literal: the sign ends the mantissa and is no exponent marker. */
  lemma SignAfterDigits(d: string, rest: string)
    requires |d| > 0 && AllDigits(d)
    requires |rest| > 0 && (rest[0] == '-' || rest[0] == '+')
    ensures !IsUnsignedLiteral(d + rest)
  {
    var u := d + rest;
    DigitsScanned(d, false, false, rest);
    assert u[0] == d[0];
    if |d| == 1 {
      assert u[1] == rest[0];
    } else {
      assert u[1] == d[1];
    }
  }

  /**
   * A run of decimal digits moves a decimal mantissa on without changing
   * anything but the fact that a digit has been seen.
   */
  lemma {:induction false} DigitsScanned(d: string, digit: bool, dot: bool, rest: string)
    requires AllDigits(d)
    ensures Scan(d + rest, Mantissa(false, digit, dot)) == Scan(rest, Mantissa(false, digit || |d| > 0, dot))
  {
    if |d| > 0 {
      assert (d + rest)[1..] == d[1..] + rest;
      DigitsScanned(d[1..], true, dot, rest);
    } else {
      assert d + rest == rest;
    }
  }

  /** Sum of the char codes of s, the accumulator of the source's hash codes. */
  function CharSum(s: string): int {
    if |s| == 0 then 0 else CharSum(s[..|s| - 1]) + s[|s| - 1] as int
  }
}

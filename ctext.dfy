/*
 * The C library text primitives the readers rely on: the <ctype.h> classes, atoi, the %d
 * conversion of sscanf and the %d conversion of printf.  Integers are unbounded here.  The
 * scanners walk a string from an index, as the C code walks a char *.
 */
module CText {
  import opened Options

  /** isspace in the C locale. */
  predicate IsSpace(c: char)
  {
    c == ' ' || c == '\t' || c == '\n' || c == '\U{000B}' || c == '\U{000C}' || c == '\r'
  }

  /** isdigit. */
  predicate IsDigit(c: char)
  {
    '0' as int <= c as int <= '9' as int
  }

  /** islower. */
  predicate IsLower(c: char)
  {
    'a' <= c <= 'z'
  }

  /** toupper. */
  function ToUpper(c: char): (u: char)
    ensures IsLower(c) ==> 'A' <= u <= 'Z' && u as int == c as int - 32
    ensures !IsLower(c) ==> u == c
  {
    if IsLower(c) then (c as int - 32) as char else c
  }

  /** A text without NUL bytes: strlen of a buffer filled from it sees every character. */
  predicate NoNul(s: string)
  {
    forall k :: 0 <= k < |s| ==> s[k] != '\0'
  }

  /** The index of the first character at or after i that is not white space. */
  function SkipSpaces(s: string, i: nat): (j: nat)
    requires i <= |s|
    ensures i <= j <= |s| && (j < |s| ==> !IsSpace(s[j]))
    decreases |s| - i
  {
    if i < |s| && IsSpace(s[i]) then SkipSpaces(s, i + 1) else i
  }

  /** The index of the first character at or after i that is not a digit. */
  function SkipDigits(s: string, i: nat): (j: nat)
    requires i <= |s|
    ensures i <= j <= |s| && (j < |s| ==> !IsDigit(s[j]))
    decreases |s| - i
  {
    if i < |s| && IsDigit(s[i]) then SkipDigits(s, i + 1) else i
  }

  /** The value of a digit character. */
  function DigitValue(c: char): int
  {
    c as int - '0' as int
  }

  /** The value of the digits s[i..j], most significant first. */
  function DigitsValue(s: string, i: nat, j: nat): int
    requires i <= j <= |s|
    decreases j
  {
    if i == j then 0 else DigitsValue(s, i, j - 1) * 10 + DigitValue(s[j - 1])
  }

  /** The index past the optional sign at i. */
  function SkipSign(s: string, i: nat): (j: nat)
    requires i <= |s|
    ensures i <= j <= |s|
  {
    if i < |s| && (s[i] == '+' || s[i] == '-') then i + 1 else i
  }

  /** The magnitude m, negated when the optional sign at i is a minus. */
  function Signed(s: string, i: nat, m: int): int
  {
    if i < |s| && s[i] == '-' then -m else m
  }

  /** atoi(s + i): leading white space, an optional sign, then as many digits as follow;
      no digit at all gives 0. */
  function Atoi(s: string, i: nat): int
    requires i <= |s|
  {
    var w := SkipSpaces(s, i);
    var g := SkipSign(s, w);
    Signed(s, w, DigitsValue(s, g, SkipDigits(s, g)))
  }

  /** One %d conversion of sscanf from index i: the value read and the index after it, or None
      when no digit follows the white space and the sign (a matching failure). */
  function ScanInt(s: string, i: nat): (r: Option<(int, nat)>)
    requires i <= |s|
    ensures r.Some? ==> i < r.value.1 <= |s|
  {
    var w := SkipSpaces(s, i);
    var g := SkipSign(s, w);
    var d := SkipDigits(s, g);
    if d == g then None else Some((Signed(s, w, DigitsValue(s, g, d)), d))
  }

  /** sscanf(s, "%d %d ...") with max conversions, from index i: the values it stores, in
      order; it stops at the first conversion that fails.  (Each " " directive skips white
      space, which %d does anyway.) */
  function ScanInts(s: string, i: nat, max: nat): (vs: seq<int>)
    requires i <= |s|
    ensures |vs| <= max
    decreases max
  {
    if max == 0 then []
    else
      match ScanInt(s, i)
      case None => []
      case Some((v, j)) => [v] + ScanInts(s, j, max - 1)
  }

  // ---------------------------------------------------------------------------
  // printf's %d

  function DigitChar(d: int): (c: char)
    requires 0 <= d < 10
    ensures IsDigit(c) && DigitValue(c) == d
  {
    ('0' as int + d) as char
  }

  /** The decimal digits of n, without leading zeros. */
  function NatString(n: nat): (s: string)
    ensures |s| > 0 && forall k :: 0 <= k < |s| ==> IsDigit(s[k])
  {
    if n < 10 then [DigitChar(n)] else NatString(n / 10) + [DigitChar(n % 10)]
  }

  /** printf("%d", n). */
  function Decimal(n: int): (s: string)
    ensures |s| > 0 && !IsSpace(s[0])
  {
    if n < 0 then "-" + NatString(-n) else NatString(n)
  }

  /** Equal digit strings have equal values, wherever they stand. */
  lemma {:induction false} DigitsValueShift(s: string, i: nat, t: string, h: nat, k: nat)
    requires i + k <= |s| && h + k <= |t| && s[i..i + k] == t[h..h + k]
    requires forall j :: i <= j < i + k ==> IsDigit(s[j])
    ensures forall j :: h <= j < h + k ==> IsDigit(t[j])
    ensures DigitsValue(s, i, i + k) == DigitsValue(t, h, h + k)
  {
    forall j | h <= j < h + k
      ensures IsDigit(t[j])
    {
      assert t[j] == t[h..h + k][j - h] == s[i..i + k][j - h] == s[i + (j - h)];
    }
    if k > 0 {
      assert s[i..i + k - 1] == t[h..h + k - 1] by {
        assert s[i..i + k - 1] == s[i..i + k][..k - 1];
        assert t[h..h + k - 1] == t[h..h + k][..k - 1];
      }
      DigitsValueShift(s, i, t, h, k - 1);
      assert s[i + k - 1] == s[i..i + k][k - 1];
      assert t[h + k - 1] == t[h..h + k][k - 1];
    }
  }

  /** The digits of n read back give n. */
  lemma {:induction false} NatStringValue(n: nat)
    ensures DigitsValue(NatString(n), 0, |NatString(n)|) == n
  {
    if n >= 10 {
      NatStringValue(n / 10);
      var s := NatString(n);
      var t := NatString(n / 10);
      assert s[0..|t|] == t[0..|t|];
      DigitsValueShift(s, 0, t, 0, |t|);
    }
  }

  /** A run of k digits followed by a non-digit (or the end) is skipped as a whole. */
  lemma {:induction false} SkipDigitsRun(s: string, i: nat, k: nat)
    requires i + k <= |s|
    requires forall j :: i <= j < i + k ==> IsDigit(s[j])
    requires i + k == |s| || !IsDigit(s[i + k])
    ensures SkipDigits(s, i) == i + k
    decreases k
  {
    if k > 0 {
      SkipDigitsRun(s, i + 1, k - 1);
    }
  }

  /** The digits of m, standing at g in s and followed by no digit, are read as m. */
  lemma ScanNatString(s: string, g: nat, m: nat)
    requires g + |NatString(m)| <= |s| && s[g..g + |NatString(m)|] == NatString(m)
    requires g + |NatString(m)| == |s| || !IsDigit(s[g + |NatString(m)|])
    ensures forall j :: g <= j < g + |NatString(m)| ==> IsDigit(s[j])
    ensures SkipDigits(s, g) == g + |NatString(m)|
    ensures DigitsValue(s, g, g + |NatString(m)|) == m
  {
    var ds := NatString(m);
    assert ds[0..|ds|] == ds;
    DigitsValueShift(ds, 0, s, g, |ds|);
    SkipDigitsRun(s, g, |ds|);
    NatStringValue(m);
  }

  /** The digits of a non-negative number, read with no sign in front of them. */
  lemma ScanNonNegative(s: string, i: nat, n: nat, e: nat)
    requires e == i + |NatString(n)| <= |s| && s[i..e] == NatString(n)
    requires e == |s| || !IsDigit(s[e])
    ensures ScanInt(s, i) == Some((n, e))
  {
    assert s[i] == s[i..e][0];
    ScanNatString(s, i, n);
  }

  /** A minus sign and the digits of -n, for a negative n. */
  lemma ScanNegative(s: string, i: nat, n: int, e: nat)
    requires n < 0 && e == i + 1 + |NatString(-n)| <= |s|
    requires s[i] == '-' && s[i + 1..e] == NatString(-n)
    requires e == |s| || !IsDigit(s[e])
    ensures ScanInt(s, i) == Some((n, e))
  {
    ScanNatString(s, i + 1, -n);
  }

  /** %d reads back what %d printed, wherever it stands in s, when no digit follows it. */
  lemma ScanDecimal(s: string, i: nat, n: int)
    requires i + |Decimal(n)| <= |s| && s[i..i + |Decimal(n)|] == Decimal(n)
    requires i + |Decimal(n)| == |s| || !IsDigit(s[i + |Decimal(n)|])
    ensures ScanInt(s, i) == Some((n, i + |Decimal(n)|))
  {
    var e := i + |Decimal(n)|;
    if n < 0 {
      assert s[i] == s[i..e][0];
      assert s[i + 1..e] == s[i..e][1..];
      ScanNegative(s, i, n, e);
    } else {
      ScanNonNegative(s, i, n, e);
    }
  }

  /** atoi, too, reads back what %d printed. */
  lemma AtoiDecimal(s: string, i: nat, n: int)
    requires i + |Decimal(n)| <= |s| && s[i..i + |Decimal(n)|] == Decimal(n)
    requires i + |Decimal(n)| == |s| || !IsDigit(s[i + |Decimal(n)|])
    ensures Atoi(s, i) == n
  {
    ScanDecimal(s, i, n);
  }

  /** White space before a conversion is skipped. */
  lemma ScanIntSpace(s: string, i: nat)
    requires i < |s| && IsSpace(s[i])
    ensures ScanInt(s, i) == ScanInt(s, i + 1)
  {
    assert SkipSpaces(s, i) == SkipSpaces(s, i + 1);
  }
}

/**
 * The JavaScript string built-ins the handlers call, on strings of characters:
 * the white-space class shared by `\s` and `String.prototype.trim`, `trim`,
 * `toLowerCase` (ASCII letters only), rendering an integer in a template
 * literal, `Number.parseInt` without a radix, and `Array.prototype.join`.
 */
module Text {
  import opened Options

  /** JavaScript WhiteSpace and LineTerminator code points. */
  predicate IsSpace(c: char)
  {
    || c == ' ' || c == '\t' || c == '\n' || c == '\r'
    || c == '\U{000B}' || c == '\U{000C}' || c == '\U{00A0}' || c == '\U{1680}'
    || ('\U{2000}' <= c <= '\U{200A}')
    || c == '\U{2028}' || c == '\U{2029}' || c == '\U{202F}' || c == '\U{205F}'
    || c == '\U{3000}' || c == '\U{FEFF}'
  }

  predicate NoSpace(s: string)
  {
    forall i :: 0 <= i < |s| ==> !IsSpace(s[i])
  }

  /** s with its leading white space removed: a suffix of s, and only white space was dropped. */
  function TrimStart(s: string): (r: string)
    ensures |r| <= |s| && r == s[|s| - |r|..]
    ensures r == [] || !IsSpace(r[0])
    ensures forall i :: 0 <= i < |s| - |r| ==> IsSpace(s[i])
  {
    if s != [] && IsSpace(s[0]) then TrimStart(s[1..]) else s
  }

  /** s with its trailing white space removed: a prefix of s, and only white space was dropped. */
  function TrimEnd(s: string): (r: string)
    ensures |r| <= |s| && r == s[..|r|]
    ensures r == [] || !IsSpace(r[|r| - 1])
    ensures forall i :: |r| <= i < |s| ==> IsSpace(s[i])
  {
    if s != [] && IsSpace(s[|s| - 1]) then TrimEnd(s[..|s| - 1]) else s
  }

  /**
   * String.prototype.trim: the infix of s that remains once the white space
   * at both ends is dropped.
   */
  function Trim(s: string): (r: string)
    ensures |r| <= |s|
    ensures r == [] || (!IsSpace(r[0]) && !IsSpace(r[|r| - 1]))
    ensures exists i :: TrimmedAt(s, r, i)
    ensures NoSpace(s) ==> r == s
  {
    var t := TrimStart(s);
    var r := TrimEnd(t);
    TrimmedAtIntro(s, t, r);
    r
  }

  /** A string with no white space at either end is its own trim. */
  lemma TrimFixed(s: string)
    requires s == [] || (!IsSpace(s[0]) && !IsSpace(s[|s| - 1]))
    ensures Trim(s) == s
  {
    assert TrimStart(s) == s;
    assert TrimEnd(s) == s;
  }

  /** r is s[i..i + |r|], and everything of s before and after it is white space. */
  predicate TrimmedAt(s: string, r: string, i: int)
  {
    && 0 <= i && i + |r| <= |s| && r == s[i..i + |r|]
    && (forall k :: 0 <= k < i ==> IsSpace(s[k]))
    && (forall k :: i + |r| <= k < |s| ==> IsSpace(s[k]))
  }

  lemma TrimmedAtIntro(s: string, t: string, r: string)
    requires |t| <= |s| && t == s[|s| - |t|..]
    requires forall k :: 0 <= k < |s| - |t| ==> IsSpace(s[k])
    requires |r| <= |t| && r == t[..|r|]
    requires forall k :: |r| <= k < |t| ==> IsSpace(t[k])
    ensures TrimmedAt(s, r, |s| - |t|)
  {
    var i := |s| - |t|;
    var infix := s[i..i + |r|];
    forall j | 0 <= j < |r|
      ensures r[j] == infix[j]
    {
      assert r[j] == t[j];
    }
    assert r == infix;
    forall k | i + |r| <= k < |s|
      ensures IsSpace(s[k])
    {
      assert s[k] == t[k - i];
    }
  }

  function LowerChar(c: char): char
  {
    if 'A' <= c <= 'Z' then (c as int + 32) as char else c
  }

  /** String.prototype.toLowerCase on the ASCII letters; every other character is kept. */
  function ToLower(s: string): (r: string)
    ensures |r| == |s|
    ensures forall i :: 0 <= i < |s| ==> r[i] == LowerChar(s[i])
  {
    if s == [] then [] else [LowerChar(s[0])] + ToLower(s[1..])
  }

  /** The summed length of the parts. */
  function TotalLength(parts: seq<string>): nat
  {
    if parts == [] then 0 else |parts[0]| + TotalLength(parts[1..])
  }

  /**
   * Array.prototype.join: the parts in order with one separator between
   * each neighbouring pair, so it starts with the first part and ends with the last.
   */
  function Join(parts: seq<string>, sep: string): (r: string)
    ensures parts == [] ==> r == ""
    ensures |parts| == 1 ==> r == parts[0]
    ensures parts != [] ==> |r| == TotalLength(parts) + (|parts| - 1) * |sep|
    ensures parts != [] ==> |parts[0]| <= |r| && r[..|parts[0]|] == parts[0]
    ensures parts != [] ==> |parts[|parts| - 1]| <= |r| && r[|r| - |parts[|parts| - 1]|..] == parts[|parts| - 1]
  {
    if parts == [] then ""
    else if |parts| == 1 then parts[0]
    else
      var rest := Join(parts[1..], sep);
      var r := parts[0] + sep + rest;
      assert (|parts| - 1) * |sep| == |sep| + (|parts| - 2) * |sep|;
      assert r[..|parts[0]|] == parts[0];
      assert r[|r| - |rest|..] == rest;
      r
  }

  /**
   * Join builds the string left to right: one more part adds the separator
   * and then that part, so exactly one separator sits between neighbours.
   */
  lemma {:induction false} JoinSnoc(parts: seq<string>, sep: string, p: string)
    requires parts != []
    ensures Join(parts + [p], sep) == Join(parts, sep) + sep + p
    decreases |parts|
  {
    var q := parts + [p];
    assert q[0] == parts[0];
    if |parts| == 1 {
      assert q[1..] == [p];
      assert Join(q, sep) == q[0] + sep + Join([p], sep);
    } else {
      assert q[1..] == parts[1..] + [p];
      JoinSnoc(parts[1..], sep, p);
      assert Join(q, sep) == q[0] + sep + Join(q[1..], sep);
      assert Join(parts, sep) == parts[0] + sep + Join(parts[1..], sep);
      Regroup(parts[0], sep, Join(parts[1..], sep), p);
    }
  }

  lemma Regroup(a: string, sep: string, j: string, p: string)
    ensures a + sep + (j + sep + p) == a + sep + j + sep + p
  {
  }

  // ---------------------------------------------------------------------------
  // Integers as text

  /** A digit of the given radix (10, or 16 after a "0x" prefix). */
  predicate IsDigitIn(c: char, radix: nat)
  {
    || ('0' <= c <= '9')
    || (radix == 16 && (('a' <= c <= 'f') || ('A' <= c <= 'F')))
  }

  function DigitValue(c: char): nat
  {
    if '0' <= c <= '9' then c as int - '0' as int
    else if 'a' <= c <= 'f' then c as int - 'a' as int + 10
    else if 'A' <= c <= 'F' then c as int - 'A' as int + 10
    else 0
  }

  function DigitChar(d: nat): (c: char)
    requires d < 10
    ensures IsDigitIn(c, 10) && DigitValue(c) == d
  {
    ('0' as int + d) as char
  }

  /** The value of a run of digits, most significant first. */
  function DigitsValue(ds: string, radix: nat): nat
  {
    if ds == [] then 0
    else DigitsValue(ds[..|ds| - 1], radix) * radix + DigitValue(ds[|ds| - 1])
  }

  /** The longest prefix of s made of digits of the radix. */
  function LeadingDigits(s: string, radix: nat): (r: string)
    ensures |r| <= |s| && r == s[..|r|]
    ensures forall i :: 0 <= i < |r| ==> IsDigitIn(r[i], radix)
    ensures |r| < |s| ==> !IsDigitIn(s[|r|], radix)
  {
    if s != [] && IsDigitIn(s[0], radix) then [s[0]] + LeadingDigits(s[1..], radix) else []
  }

  /** Decimal rendering of a natural number, without leading zeros. */
  function NatToString(n: nat): (r: string)
    ensures r != []
    ensures forall i :: 0 <= i < |r| ==> IsDigitIn(r[i], 10)
  {
    if n < 10 then [DigitChar(n)] else NatToString(n / 10) + [DigitChar(n % 10)]
  }

  /** An integer as a template literal renders it. */
  function IntToString(n: int): string
  {
    if n < 0 then "-" + NatToString(-n) else NatToString(n)
  }

  /**
   * Number.parseInt(s) with no radix: leading white space is skipped, one sign
   * is read, and the magnitude follows; None stands for NaN (no digit).
   */
  function ParseInt(s: string): (r: Option<int>)
    ensures r.None? <==> NotANumber(Unsigned(s))
    ensures r.Some? && r.value < 0 ==> TrimStart(s) != [] && TrimStart(s)[0] == '-'
  {
    var t := TrimStart(s);
    match ParseMagnitude(Unsigned(s))
    case None => None
    case Some(v) =>
      var value: int := if t != [] && t[0] == '-' then -(v as int) else v;
      Some(value)
  }

  /** The text parseInt reads its digits from: s after its leading white space and one sign. */
  function Unsigned(s: string): string
  {
    var t := TrimStart(s);
    if t != [] && (t[0] == '-' || t[0] == '+') then t[1..] else t
  }

  /**
   * parseInt gives NaN when no digit follows the sign, or when a "0x" prefix
   * is followed by no hexadecimal digit.
   */
  predicate NotANumber(u: string)
  {
    || u == []
    || !IsDigitIn(u[0], 10)
    || (|u| >= 2 && u[0] == '0' && (u[1] == 'x' || u[1] == 'X') && (|u| == 2 || !IsDigitIn(u[2], 16)))
  }

  /** After the sign: a "0x" or "0X" prefix selects radix 16, and the longest run of digits gives the value. */
  function ParseMagnitude(u: string): (r: Option<nat>)
    ensures r.None? <==> NotANumber(u)
  {
    var hex := |u| >= 2 && u[0] == '0' && (u[1] == 'x' || u[1] == 'X');
    var radix := if hex then 16 else 10;
    var ds := LeadingDigits(if hex then u[2..] else u, radix);
    if ds == [] then None else Some(DigitsValue(ds, radix))
  }

  lemma {:induction false} NatToStringValue(n: nat)
    ensures DigitsValue(NatToString(n), 10) == n
  {
    var r := NatToString(n);
    if n >= 10 {
      NatToStringValue(n / 10);
      assert r[..|r| - 1] == NatToString(n / 10);
    }
  }

  lemma {:induction false} LeadingDigitsOfDigits(ds: string, rest: string, radix: nat)
    requires forall i :: 0 <= i < |ds| ==> IsDigitIn(ds[i], radix)
    requires rest == [] || !IsDigitIn(rest[0], radix)
    ensures LeadingDigits(ds + rest, radix) == ds
  {
    if ds != [] {
      assert (ds + rest)[1..] == ds[1..] + rest;
      LeadingDigitsOfDigits(ds[1..], rest, radix);
    } else {
      assert ds + rest == rest;
    }
  }

  lemma MagnitudeOfRendered(m: nat, rest: string)
    requires rest == [] || (!IsDigitIn(rest[0], 10) && rest[0] != 'x' && rest[0] != 'X')
    ensures ParseMagnitude(NatToString(m) + rest) == Some(m)
  {
    var digits := NatToString(m);
    var u := digits + rest;
    assert !(|u| >= 2 && u[0] == '0' && (u[1] == 'x' || u[1] == 'X')) by {
      if |u| >= 2 && u[0] == '0' {
        if |digits| >= 2 {
          assert u[1] == digits[1];
        } else {
          assert u[1] == rest[0];
        }
      }
    }
    LeadingDigitsOfDigits(digits, rest, 10);
    NatToStringValue(m);
  }

  /** A string that starts with a digit has no white space or sign to skip. */
  lemma ParseIntOfDigitFirst(u: string)
    requires u != [] && IsDigitIn(u[0], 10)
    ensures ParseInt(u) == match ParseMagnitude(u) case None => None case Some(v) => Some(v as int)
  {
    assert !IsSpace(u[0]);
    assert TrimStart(u) == u;
  }

  /** A string that is '-' followed by a magnitude m parses as -m. */
  lemma ParseIntOfMinus(s: string, u: string, m: nat)
    requires s != [] && s[0] == '-' && s[1..] == u && ParseMagnitude(u) == Some(m)
    ensures ParseInt(s) == Some(-(m as int))
  {
    assert !IsSpace(s[0]);
    assert TrimStart(s) == s;
  }

  /**
   * parseInt reads back a rendered integer, whatever follows it, provided the
   * next character neither extends the digits nor turns a lone "0" into a hex prefix.
   */
  lemma ParseIntOfRendered(n: int, rest: string)
    requires rest == [] || (!IsDigitIn(rest[0], 10) && rest[0] != 'x' && rest[0] != 'X')
    ensures ParseInt(IntToString(n) + rest) == Some(n)
  {
    if n < 0 {
      ParseIntOfNegative(n, rest);
    } else {
      ParseIntOfNatural(n, rest);
    }
  }

  lemma ParseIntOfNatural(n: nat, rest: string)
    requires rest == [] || (!IsDigitIn(rest[0], 10) && rest[0] != 'x' && rest[0] != 'X')
    ensures ParseInt(IntToString(n) + rest) == Some(n)
  {
    var u := NatToString(n) + rest;
    MagnitudeOfRendered(n, rest);
    assert u[0] == NatToString(n)[0];
    ParseIntOfDigitFirst(u);
  }

  lemma ParseIntOfNegative(n: int, rest: string)
    requires n < 0
    requires rest == [] || (!IsDigitIn(rest[0], 10) && rest[0] != 'x' && rest[0] != 'X')
    ensures ParseInt(IntToString(n) + rest) == Some(n)
  {
    var m: nat := -n;
    NegativeRendering(n, rest);
    MagnitudeOfRendered(m, rest);
    var s := IntToString(n) + rest;
    var u := NatToString(m) + rest;
    assert s[1..] == u;
    ParseIntOfMinus(s, u, m);
  }

  /** A negative integer renders as '-' and then its magnitude. */
  lemma NegativeRendering(n: int, rest: string)
    requires n < 0
    ensures var s := IntToString(n) + rest;
      s != [] && s[0] == '-' && s[1..] == NatToString(-n) + rest
  {
    var s := IntToString(n) + rest;
    assert s == ['-'] + (NatToString(-n) + rest);
  }
}

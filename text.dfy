/** A small Option type for the parses and hand-offs that can produce nothing. */
module Wrappers {
  datatype Option<+T> = None | Some(value: T)
}

/**
 * The JavaScript string operations the overlay relies on: toLowerCase,
 * trim, includes, indexOf, Number.prototype.toString for integers and
 * parseInt. Strings are sequences of Unicode scalar values; lower-casing
 * is modelled on ASCII only (see README).
 */
module JsText {
  import opened Wrappers

  // ---------------------------------------------------------------- case

  /** toLowerCase on one character, restricted to the ASCII letters. */
  function LowerChar(c: char): (r: char)
    ensures 'A' <= c <= 'Z' ==> r as int == c as int + 32
    ensures !('A' <= c <= 'Z') ==> r == c
    ensures !('A' <= r <= 'Z')
  {
    if 'A' <= c <= 'Z' then (c as int + 32) as char else c
  }

  /** toLowerCase: a length-preserving, character-by-character map. */
  function Lower(s: string): (r: string)
    ensures |r| == |s|
    ensures forall i :: 0 <= i < |s| ==> r[i] == LowerChar(s[i])
  {
    seq(|s|, i requires 0 <= i < |s| => LowerChar(s[i]))
  }

  lemma LowerSlice(s: string, a: nat, b: nat)
    requires a <= b <= |s|
    ensures Lower(s[a..b]) == Lower(s)[a..b]
  {
  }

  // ---------------------------------------------------------- whitespace

  /**
   * The characters String.prototype.trim removes: WhiteSpace and
   * LineTerminator of ECMAScript (TAB, VT, FF, SP, NBSP, ZWNBSP, the
   * space separators, LF, CR, LS, PS).
   */
  predicate IsJsWhitespace(c: char)
  {
    || c == '\t' || c == '\n' || c == '\U{000B}' || c == '\U{000C}' || c == '\r'
    || c == ' ' || c == '\U{00A0}' || c == '\U{1680}'
    || ('\U{2000}' <= c <= '\U{200A}')
    || c == '\U{2028}' || c == '\U{2029}' || c == '\U{202F}' || c == '\U{205F}'
    || c == '\U{3000}' || c == '\U{FEFF}'
  }

  predicate AllWhitespace(s: string)
  {
    forall i :: 0 <= i < |s| ==> IsJsWhitespace(s[i])
  }

  /** The number of whitespace characters at the front of s. */
  function LeadingWhitespace(s: string): (n: nat)
    ensures n <= |s|
    ensures AllWhitespace(s[..n])
    ensures n < |s| ==> !IsJsWhitespace(s[n])
  {
    if s != [] && IsJsWhitespace(s[0]) then 1 + LeadingWhitespace(s[1..]) else 0
  }

  /** trimStart: drops the leading whitespace and keeps the rest. */
  function TrimStart(s: string): (r: string)
    ensures r == s[LeadingWhitespace(s)..]
    ensures r != [] ==> !IsJsWhitespace(r[0])
  {
    if s != [] && IsJsWhitespace(s[0]) then TrimStart(s[1..]) else s
  }

  /** trimEnd: drops the trailing whitespace and keeps the rest. */
  function TrimEnd(s: string): (r: string)
    ensures |r| <= |s| && r == s[..|r|]
    ensures AllWhitespace(s[|r|..])
    ensures r != [] ==> !IsJsWhitespace(r[|r| - 1])
  {
    if s != [] && IsJsWhitespace(s[|s| - 1]) then TrimEnd(s[..|s| - 1]) else s
  }

  /** trim: trimStart, then trimEnd. What is left neither starts nor ends with whitespace. */
  function Trim(s: string): (r: string)
    ensures r != [] ==> !IsJsWhitespace(r[0]) && !IsJsWhitespace(r[|r| - 1])
  {
    var t := TrimStart(s);
    var r := TrimEnd(t);
    assert r != [] ==> r[0] == t[0];
    r
  }

  /** trim keeps the infix of s that starts after the leading whitespace, and removes only whitespace. */
  lemma TrimInfix(s: string)
    ensures LeadingWhitespace(s) + |Trim(s)| <= |s|
    ensures Trim(s) == s[LeadingWhitespace(s)..LeadingWhitespace(s) + |Trim(s)|]
    ensures AllWhitespace(s[..LeadingWhitespace(s)])
    ensures AllWhitespace(s[LeadingWhitespace(s) + |Trim(s)|..])
  {
    var n, t, r := LeadingWhitespace(s), TrimStart(s), Trim(s);
    assert t == s[n..] && r == t[..|r|];
    assert r == s[n..n + |r|];
    assert s[n + |r|..] == t[|r|..];
  }

  lemma {:induction false} TrimStartPadded(w: string, c: string)
    requires AllWhitespace(w)
    requires c != [] && !IsJsWhitespace(c[0])
    ensures TrimStart(w + c) == c
    decreases |w|
  {
    if w != [] {
      assert (w + c)[1..] == w[1..] + c;
      TrimStartPadded(w[1..], c);
    } else {
      assert w + c == c;
    }
  }

  lemma {:induction false} TrimEndPadded(c: string, w: string)
    requires AllWhitespace(w)
    requires c != [] && !IsJsWhitespace(c[|c| - 1])
    ensures TrimEnd(c + w) == c
    decreases |w|
  {
    if w != [] {
      assert (c + w)[..|c + w| - 1] == c + w[..|w| - 1];
      TrimEndPadded(c, w[..|w| - 1]);
    } else {
      assert c + w == c;
    }
  }

  /** Whitespace around a word that neither starts nor ends with whitespace is what trim removes. */
  lemma TrimPadded(w1: string, c: string, w2: string)
    requires AllWhitespace(w1) && AllWhitespace(w2)
    requires c != [] && !IsJsWhitespace(c[0]) && !IsJsWhitespace(c[|c| - 1])
    ensures Trim(w1 + c + w2) == c
  {
    assert w1 + c + w2 == w1 + (c + w2);
    TrimStartPadded(w1, c + w2);
    TrimEndPadded(c, w2);
  }

  // ----------------------------------------------------- substring search

  /** t occurs in s starting at index i. */
  predicate OccursAt(s: string, t: string, i: int)
  {
    0 <= i && i + |t| <= |s| && s[i..i + |t|] == t
  }

  /** String.prototype.includes. */
  predicate Includes(s: string, t: string)
  {
    exists i | 0 <= i <= |s| - |t| :: OccursAt(s, t, i)
  }

  /** indexOf from a start index k no greater than |s|. */
  function IndexFrom(s: string, t: string, k: nat): (r: int)
    requires k <= |s|
    ensures r == -1 <==> forall j :: k <= j ==> !OccursAt(s, t, j)
    ensures r != -1 ==> k <= r && OccursAt(s, t, r)
    ensures r != -1 ==> forall j :: k <= j < r ==> !OccursAt(s, t, j)
    decreases |s| - k
  {
    if k + |t| > |s| then -1
    else if s[k..k + |t|] == t then assert OccursAt(s, t, k); k
    else IndexFrom(s, t, k + 1)
  }

  /**
   * String.prototype.indexOf(t, from): the first occurrence of t at an
   * index no smaller than from (clamped to |s|), or -1 when there is none.
   */
  function IndexOf(s: string, t: string, from: nat): (r: int)
    ensures from <= |s| ==> (r == -1 <==> forall j :: from <= j ==> !OccursAt(s, t, j))
    ensures from <= |s| && r != -1 ==> from <= r && OccursAt(s, t, r)
    ensures from <= |s| && r != -1 ==> forall j :: from <= j < r ==> !OccursAt(s, t, j)
  {
    IndexFrom(s, t, if from <= |s| then from else |s|)
  }

  /** includes and indexOf agree: s includes t exactly when indexOf finds it. */
  lemma IncludesIffIndexOf(s: string, t: string)
    ensures Includes(s, t) <==> IndexOf(s, t, 0) != -1
  {
    var r := IndexOf(s, t, 0);
    if r != -1 {
      assert OccursAt(s, t, r);
    }
  }

  /** An occurrence right at the start position is the one indexOf returns. */
  lemma IndexOfHit(s: string, t: string, p: nat)
    requires OccursAt(s, t, p)
    ensures IndexOf(s, t, p) == p
  {
  }

  /** Every string includes the empty string. */
  lemma IncludesEmpty(s: string)
    ensures Includes(s, [])
  {
    assert OccursAt(s, [], 0);
  }

  // ------------------------------------------------ integers and strings

  predicate IsDigit(c: char)
  {
    '0' <= c <= '9'
  }

  function DigitChar(d: nat): (c: char)
    requires d < 10
    ensures IsDigit(c) && c as int - '0' as int == d
  {
    ('0' as int + d) as char
  }

  /** The decimal numeral of n, without leading zeros. */
  function NatToString(n: nat): (r: string)
    ensures r != [] && forall i :: 0 <= i < |r| ==> IsDigit(r[i])
    ensures |r| > 1 ==> r[0] != '0'
    decreases n
  {
    if n < 10 then [DigitChar(n)] else NatToString(n / 10) + [DigitChar(n % 10)]
  }

  /** Number.prototype.toString for an integer: an optional '-' and the decimal numeral. */
  function IntToString(n: int): (r: string)
    ensures r != []
    ensures n < 0 <==> r[0] == '-'
    ensures forall i :: 0 < i < |r| ==> IsDigit(r[i])
    ensures n >= 0 ==> IsDigit(r[0])
  {
    if n < 0 then "-" + NatToString(-n) else NatToString(n)
  }

  /** The number of decimal digits at the front of s. */
  function DigitPrefix(s: string): (n: nat)
    ensures n <= |s|
    ensures forall i :: 0 <= i < n ==> IsDigit(s[i])
    ensures n < |s| ==> !IsDigit(s[n])
  {
    if s != [] && IsDigit(s[0]) then 1 + DigitPrefix(s[1..]) else 0
  }

  /** The value of a string of decimal digits, read left to right. */
  function DigitsValue(s: string): nat
    requires forall i :: 0 <= i < |s| ==> IsDigit(s[i])
  {
    if s == [] then 0
    else assert IsDigit(s[|s| - 1]); DigitsValue(s[..|s| - 1]) * 10 + (s[|s| - 1] as int - '0' as int)
  }

  /**
   * parseInt with no radix, for decimal input: leading whitespace, an
   * optional sign, then the longest run of digits; None stands for NaN.
   */
  function ParseInt(s: string): (r: Option<int>)
    ensures r.None? <==> DigitPrefix(SignedBody(TrimStart(s))) == 0
  {
    var t := TrimStart(s);
    var body := SignedBody(t);
    var k := DigitPrefix(body);
    var v: int := DigitsValue(body[..k]);
    if k == 0 then None
    else if t[0] == '-' then Some(-v)
    else Some(v)
  }

  /** What follows the sign, if t starts with one. */
  function SignedBody(t: string): (b: string)
    ensures t != [] && (t[0] == '-' || t[0] == '+') ==> b == t[1..]
    ensures !(t != [] && (t[0] == '-' || t[0] == '+')) ==> b == t
  {
    if t != [] && (t[0] == '-' || t[0] == '+') then t[1..] else t
  }

  lemma {:induction false} DigitsValueOfNatToString(n: nat)
    ensures DigitsValue(NatToString(n)) == n
    decreases n
  {
    var r := NatToString(n);
    if n < 10 {
      assert r[..0] == [];
    } else {
      DigitsValueOfNatToString(n / 10);
      assert r[..|r| - 1] == NatToString(n / 10);
    }
  }

  lemma {:induction false} DigitPrefixOfDigits(s: string)
    requires forall i :: 0 <= i < |s| ==> IsDigit(s[i])
    ensures DigitPrefix(s) == |s|
  {
    if s != [] {
      DigitPrefixOfDigits(s[1..]);
    }
  }

  /** parseInt reads back what toString wrote, for every integer. */
  lemma ParseIntOfIntToString(n: int)
    ensures ParseInt(IntToString(n)) == Some(n)
  {
    var s := IntToString(n);
    assert TrimStart(s) == s;
    var m: nat := if n < 0 then -n else n;
    assert SignedBody(s) == NatToString(m);
    DigitPrefixOfDigits(NatToString(m));
    DigitsValueOfNatToString(m);
    assert NatToString(m)[..|NatToString(m)|] == NatToString(m);
  }

  /** Distinct integers have distinct decimal strings. */
  lemma IntToStringInjective(a: int, b: int)
    requires IntToString(a) == IntToString(b)
    ensures a == b
  {
    ParseIntOfIntToString(a);
    ParseIntOfIntToString(b);
  }

  /** A decimal numeral has no upper-case letters to lower. */
  lemma LowerIntToString(n: int)
    ensures Lower(IntToString(n)) == IntToString(n)
  {
    var s := IntToString(n);
    assert forall i :: 0 <= i < |s| ==> s[i] == '-' || IsDigit(s[i]);
  }
}

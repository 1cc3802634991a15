/** Strings as the editor and the backend see them: decimal rendering of
    marker numbers (JavaScript `String(n)`, Python `str(n)`), parsing a run of
    ASCII digits (`parseInt`), and whitespace trimming (JavaScript
    `String.prototype.trim`, Python `str.strip()`). */
module Text {

  predicate IsDigit(c: char) {
    '0' <= c <= '9'
  }

  predicate AllDigits(s: string) {
    forall k :: 0 <= k < |s| ==> IsDigit(s[k])
  }

  /** A decimal numeral as `String(n)` writes it: no sign, no leading zero. */
  predicate Canonical(s: string) {
    |s| > 0 && AllDigits(s) && (|s| > 1 ==> s[0] != '0')
  }

  function DigitChar(d: nat): (c: char)
    requires d < 10
    ensures IsDigit(c)
  {
    ('0' as int + d) as char
  }

  function DigitValue(c: char): (d: nat)
    requires IsDigit(c)
    ensures d < 10 && DigitChar(d) == c
  {
    c as int - '0' as int
  }

  /** The decimal numeral of `n`. */
  function NatToString(n: nat): (s: string)
    ensures Canonical(s)
    ensures n < 10 <==> |s| == 1
    decreases n
  {
    if n < 10 then [DigitChar(n)] else NatToString(n / 10) + [DigitChar(n % 10)]
  }

  /** The value of a run of decimal digits, leading zeros allowed. */
  function DigitsValue(s: string): nat
    requires AllDigits(s)
  {
    if s == [] then 0 else DigitsValue(s[..|s| - 1]) * 10 + DigitValue(s[|s| - 1])
  }

  lemma {:induction false} ValueOfNatToString(n: nat)
    ensures DigitsValue(NatToString(n)) == n
    decreases n
  {
    if n >= 10 {
      var s := NatToString(n);
      assert s[..|s| - 1] == NatToString(n / 10);
      ValueOfNatToString(n / 10);
    }
  }

  lemma {:induction false} LeadingDigitPositive(s: string)
    requires AllDigits(s) && |s| > 0 && s[0] != '0'
    ensures DigitsValue(s) >= 1
    decreases |s|
  {
    if |s| > 1 {
      LeadingDigitPositive(s[..|s| - 1]);
    }
  }

  /** Reading a canonical numeral and writing the number back gives the numeral. */
  lemma {:induction false} NatToStringOfValue(s: string)
    requires Canonical(s)
    ensures NatToString(DigitsValue(s)) == s
    decreases |s|
  {
    if |s| > 1 {
      var init := s[..|s| - 1];
      LeadingDigitPositive(init);
      NatToStringOfValue(init);
      var v := DigitsValue(s);
      assert v / 10 == DigitsValue(init) && v % 10 == DigitValue(s[|s| - 1]);
      assert s == init + [s[|s| - 1]];
    }
  }

  /** Two numbers with the same decimal numeral are equal. */
  lemma NatToStringInjective(m: nat, n: nat)
    requires NatToString(m) == NatToString(n)
    ensures m == n
  {
    ValueOfNatToString(m);
    ValueOfNatToString(n);
  }

  // ---------------------------------------------------------------- trimming

  /** Whose notion of whitespace: JavaScript's `trim` (WhiteSpace and
      LineTerminator of ECMA-262) or Python's `str.strip()` (`str.isspace`). */
  datatype Space = JsSpace | PySpace

  predicate IsSpace(kind: Space, c: char) {
    || c == '\t' || c == '\n' || c == '\U{000B}' || c == '\U{000C}' || c == '\r' || c == ' '
    || c == '\U{00A0}' || c == '\U{1680}' || ('\U{2000}' <= c <= '\U{200A}')
    || c == '\U{2028}' || c == '\U{2029}' || c == '\U{202F}' || c == '\U{205F}' || c == '\U{3000}'
    || (kind == JsSpace && c == '\U{FEFF}')
    || (kind == PySpace && (('\U{001C}' <= c <= '\U{001F}') || c == '\U{0085}'))
  }

  predicate AllSpace(kind: Space, s: string) {
    forall k :: 0 <= k < |s| ==> IsSpace(kind, s[k])
  }

  /** Number of leading whitespace characters. */
  function LeadLen(kind: Space, s: string): (n: nat)
    ensures n <= |s|
    ensures forall k :: 0 <= k < n ==> IsSpace(kind, s[k])
    ensures n < |s| ==> !IsSpace(kind, s[n])
    decreases |s|
  {
    if s == [] || !IsSpace(kind, s[0]) then 0 else 1 + LeadLen(kind, s[1..])
  }

  /** Number of trailing whitespace characters. */
  function TrailLen(kind: Space, s: string): (n: nat)
    ensures n <= |s|
    ensures forall k :: |s| - n <= k < |s| ==> IsSpace(kind, s[k])
    ensures n < |s| ==> !IsSpace(kind, s[|s| - 1 - n])
    decreases |s|
  {
    if s == [] || !IsSpace(kind, s[|s| - 1]) then 0 else 1 + TrailLen(kind, s[..|s| - 1])
  }

  /** `s` without its leading and trailing whitespace. */
  function Trim(kind: Space, s: string): (r: string)
    ensures r == [] <==> AllSpace(kind, s)
    ensures r != [] ==> !IsSpace(kind, r[0]) && !IsSpace(kind, r[|r| - 1])
    ensures r != [] ==> r == s[LeadLen(kind, s)..|s| - TrailLen(kind, s)]
    ensures r != [] ==> AllSpace(kind, s[..LeadLen(kind, s)]) && AllSpace(kind, s[|s| - TrailLen(kind, s)..])
  {
    var i := LeadLen(kind, s);
    if i == |s| then [] else
      var j := |s| - TrailLen(kind, s);
      assert i < j by {
        assert !IsSpace(kind, s[i]);
      }
      s[i..j]
  }

  /** A string that neither starts nor ends with whitespace is its own trim. */
  lemma TrimUntouched(kind: Space, s: string)
    requires s == [] || (!IsSpace(kind, s[0]) && !IsSpace(kind, s[|s| - 1]))
    ensures Trim(kind, s) == s
  {
    if s != [] {
      assert LeadLen(kind, s) == 0;
      assert TrailLen(kind, s) == 0;
    }
  }

  lemma TrimIdempotent(kind: Space, s: string)
    ensures Trim(kind, Trim(kind, s)) == Trim(kind, s)
  {
    TrimUntouched(kind, Trim(kind, s));
  }
}

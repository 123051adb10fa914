/**
  The pieces of JavaScript's runtime semantics that the application's model code relies on:
  truthiness, number-to-string conversion, `parseInt`, `padStart` and `toLowerCase`, and the
  substring test an unanchored regular expression of plain alternatives performs.
*/
module Js {
  import opened Common

  /** The JavaScript values that reach the model code (NaN and objects are not modelled). */
  datatype Value = Undefined | Null | Bool(b: bool) | Number(n: int) | Str(s: string)

  /** ECMAScript ToBoolean: `undefined`, `null`, `false`, `0` and `""` are falsy. */
  predicate Truthy(v: Value) {
    match v
    case Undefined => false
    case Null => false
    case Bool(b) => b
    case Number(n) => n != 0
    case Str(s) => s != ""
  }

  // ---------------------------------------------------------------------------------------
  // Decimal digits and Number.prototype.toString()
  // ---------------------------------------------------------------------------------------

  predicate IsDigit(c: char) {
    '0' <= c <= '9'
  }

  function DigitChar(d: nat): (c: char)
    requires d < 10
    ensures IsDigit(c)
  {
    ('0' as int + d) as char
  }

  function DigitValue(c: char): (d: nat)
    requires IsDigit(c)
    ensures d < 10 && DigitChar(d) == c
  {
    c as int - '0' as int
  }

  predicate AllDigits(s: string) {
    forall i :: 0 <= i < |s| ==> IsDigit(s[i])
  }

  /** The decimal numeral of `n`, most significant digit first, without leading zeros. */
  function NatToString(n: nat): (s: string)
    ensures 1 <= |s| && AllDigits(s)
    ensures (|s| == 1) == (n < 10)
    decreases n
  {
    if n < 10 then [DigitChar(n)] else NatToString(n / 10) + [DigitChar(n % 10)]
  }

  /** `String(n)` / `n.toString()` / `${n}` for an integral Number. */
  function IntToString(n: int): string {
    if n < 0 then "-" + NatToString(-n) else NatToString(n)
  }

  /** The value of a numeral in the given radix, read from its last digit backwards. */
  function NumeralValue(s: string, radix: nat): nat
    requires forall i :: 0 <= i < |s| ==> IsRadixDigit(s[i], radix)
  {
    if s == [] then 0
    else radix * NumeralValue(s[..|s| - 1], radix) + RadixDigitValue(s[|s| - 1])
  }

  lemma {:induction false} NatToStringValue(n: nat)
    ensures forall i :: 0 <= i < |NatToString(n)| ==> IsRadixDigit(NatToString(n)[i], 10)
    ensures NumeralValue(NatToString(n), 10) == n
    decreases n
  {
    var s := NatToString(n);
    if n >= 10 {
      NatToStringValue(n / 10);
      var t := NatToString(n / 10);
      assert s[..|s| - 1] == t;
      assert RadixDigitValue(s[|s| - 1]) == n % 10;
    }
  }

  // ---------------------------------------------------------------------------------------
  // parseInt(string) with no radix argument
  // ---------------------------------------------------------------------------------------

  /**
    The code points `parseInt` skips at the start: the WhiteSpace of ECMAScript (tab, vertical
    tab, form feed, U+FEFF and every space separator of category Zs) and its LineTerminators.
  */
  predicate IsJsSpace(c: char) {
    || c == '\t' || c == '\U{000B}' || c == '\U{000C}' || c == '\U{FEFF}'
    || c == ' ' || c == '\U{00A0}' || c == '\U{1680}' || '\U{2000}' <= c <= '\U{200A}'
    || c == '\U{202F}' || c == '\U{205F}' || c == '\U{3000}'
    || c == '\n' || c == '\r' || c == '\U{2028}' || c == '\U{2029}'
  }

  function TrimStart(s: string): (t: string)
    ensures |t| <= |s| && t == s[|s| - |t|..]
    ensures t != [] ==> !IsJsSpace(t[0])
  {
    if s != [] && IsJsSpace(s[0]) then TrimStart(s[1..]) else s
  }

  predicate IsRadixDigit(c: char, radix: nat) {
    if radix == 16 then IsDigit(c) || 'a' <= c <= 'f' || 'A' <= c <= 'F' else IsDigit(c)
  }

  function RadixDigitValue(c: char): nat {
    if IsDigit(c) then c as int - '0' as int
    else if 'a' <= c <= 'f' then c as int - 'a' as int + 10
    else if 'A' <= c <= 'F' then c as int - 'A' as int + 10
    else 0
  }

  /** The longest prefix of `s` made of digits of the radix. */
  function LeadingNumeral(s: string, radix: nat): (d: string)
    ensures |d| <= |s| && d == s[..|d|]
    ensures forall i :: 0 <= i < |d| ==> IsRadixDigit(d[i], radix)
    ensures |d| < |s| ==> !IsRadixDigit(s[|d|], radix)
  {
    if s != [] && IsRadixDigit(s[0], radix) then [s[0]] + LeadingNumeral(s[1..], radix) else []
  }

  /** The value of the numeral at the start of `u`, after the sign: `0x`/`0X` selects radix 16. */
  function ParseMagnitude(u: string): Option<int> {
    var hex := |u| >= 2 && u[0] == '0' && (u[1] == 'x' || u[1] == 'X');
    var radix := if hex then 16 else 10;
    var digits := LeadingNumeral(if hex then u[2..] else u, radix);
    if digits == [] then None else Some(NumeralValue(digits, radix))
  }

  /**
    `parseInt(s)`: skip leading white space, read an optional sign, then the magnitude;
    `None` stands for NaN.
  */
  function ParseInt(s: string): Option<int> {
    var t := TrimStart(s);
    if t != [] && (t[0] == '-' || t[0] == '+') then Signed(t[0] == '-', ParseMagnitude(t[1..]))
    else ParseMagnitude(t)
  }

  /** The magnitude with the sign read before it applied; NaN stays NaN. */
  function Signed(negative: bool, magnitude: Option<int>): Option<int> {
    match magnitude
    case None => None
    case Some(m) => Some(if negative then -m else m)
  }

  lemma SignedValue(negative: bool, m: int)
    ensures Signed(negative, Some(m)) == Some(if negative then -m else m)
  {
  }

  /** White space in front of the text does not change what `parseInt` reads. */
  lemma ParseIntSkipsLeadingSpace(c: char, s: string)
    requires IsJsSpace(c)
    ensures ParseInt([c] + s) == ParseInt(s)
  {
    assert ([c] + s)[1..] == s;
  }

  lemma TrimStartOfNonSpace(s: string)
    requires s != [] && !IsJsSpace(s[0])
    ensures TrimStart(s) == s
  {
  }

  lemma {:induction false} LeadingNumeralOfDigits(s: string)
    requires AllDigits(s)
    ensures LeadingNumeral(s, 10) == s
  {
    if s != [] {
      LeadingNumeralOfDigits(s[1..]);
    }
  }

  lemma ParseMagnitudeOfDigits(digits: string)
    requires digits != [] && AllDigits(digits)
    ensures forall i :: 0 <= i < |digits| ==> IsRadixDigit(digits[i], 10)
    ensures ParseMagnitude(digits) == Some(NumeralValue(digits, 10))
  {
    assert !(|digits| >= 2 && (digits[1] == 'x' || digits[1] == 'X')) by {
      if |digits| >= 2 { assert IsDigit(digits[1]); }
    }
    LeadingNumeralOfDigits(digits);
  }

  /** Without white space or a sign in front, `parseInt` reads the magnitude directly. */
  lemma ParseIntOfUnsigned(u: string)
    requires u != [] && IsDigit(u[0])
    ensures ParseInt(u) == ParseMagnitude(u)
  {
    TrimStartOfNonSpace(u);
  }

  /** After a leading minus sign, `parseInt` negates the magnitude that follows. */
  lemma ParseIntAfterMinus(u: string)
    ensures ParseInt("-" + u) == Signed(true, ParseMagnitude(u))
  {
    var s := "-" + u;
    assert s[0] == '-';
    TrimStartOfNonSpace(s);
    assert s[1..] == u;
  }

  /** `parseInt(n.toString()) === n` for every integral Number (no radix prefix is produced). */
  lemma ParseIntOfIntToString(n: int)
    ensures ParseInt(IntToString(n)) == Some(n)
  {
    var m: nat := if n < 0 then -n else n;
    var s := NatToString(m);
    NatToStringValue(m);
    ParseMagnitudeOfDigits(s);
    assert ParseMagnitude(s) == Some(m);
    if n < 0 {
      ParseIntAfterMinus(s);
      SignedValue(true, m);
    } else {
      ParseIntOfUnsigned(s);
    }
  }

  // ---------------------------------------------------------------------------------------
  // String helpers
  // ---------------------------------------------------------------------------------------

  function Repeat(c: char, n: nat): (s: string)
    ensures |s| == n && forall i :: 0 <= i < n ==> s[i] == c
  {
    if n == 0 then [] else [c] + Repeat(c, n - 1)
  }

  /** `s.padStart(width, fill)` for a one-character fill string. */
  function PadStart(s: string, width: nat, fill: char): (t: string)
    ensures |t| == if |s| < width then width else |s|
    ensures t[|t| - |s|..] == s
    ensures forall i :: 0 <= i < |t| - |s| ==> t[i] == fill
  {
    if |s| < width then Repeat(fill, width - |s|) + s else s
  }

  /** `toLowerCase()` restricted to ASCII letters. */
  function ToLowerAscii(s: string): (t: string)
    ensures |t| == |s|
    ensures forall i :: 0 <= i < |s| ==>
      t[i] == (if 'A' <= s[i] <= 'Z' then (s[i] as int + 32) as char else s[i])
  {
    if s == [] then [] else
      [if 'A' <= s[0] <= 'Z' then (s[0] as int + 32) as char else s[0]] + ToLowerAscii(s[1..])
  }

  /** `p` occurs in `s` starting at index `i`. */
  predicate OccursAt(s: string, p: string, i: nat) {
    i + |p| <= |s| && s[i..i + |p|] == p
  }

  /** Past the first character, `p` occurs in `s` exactly where it occurs in `s[1..]`, one later. */
  lemma OccursInTail(s: string, p: string)
    requires s != []
    ensures forall i :: i >= 1 && OccursAt(s, p, i) ==> OccursAt(s[1..], p, i - 1)
    ensures forall i :: i >= 0 && OccursAt(s[1..], p, i) ==> OccursAt(s, p, i + 1)
  {
    forall i | i >= 1 && OccursAt(s, p, i)
      ensures OccursAt(s[1..], p, i - 1)
    {
      assert s[1..][i - 1..i - 1 + |p|] == s[i..i + |p|];
    }
    forall i | i >= 0 && OccursAt(s[1..], p, i)
      ensures OccursAt(s, p, i + 1)
    {
      assert s[1..][i..i + |p|] == s[i + 1..i + 1 + |p|];
    }
  }

  /** `s.includes(p)`, also what an unanchored `/p/.test(s)` decides. */
  function Contains(s: string, p: string): (b: bool)
    ensures b <==> exists i :: 0 <= i && OccursAt(s, p, i)
  {
    if |p| <= |s| && s[..|p|] == p then
      assert OccursAt(s, p, 0);
      true
    else if s == [] then
      false
    else
      var rest := Contains(s[1..], p);
      OccursInTail(s, p);
      rest
  }
}

/** The string primitives the modelled code uses: ASCII character classes,
    `str.lower` and the decimal conversions `int(s)` and `str(n)`. */
module Text {
  import opened Results

  predicate IsLower(c: char) { 'a' <= c <= 'z' }
  predicate IsUpper(c: char) { 'A' <= c <= 'Z' }
  predicate IsLetter(c: char) { IsLower(c) || IsUpper(c) }
  predicate IsDigit(c: char) { '0' <= c <= '9' }

  predicate AllLower(s: string) { forall i :: 0 <= i < |s| ==> IsLower(s[i]) }
  predicate AllLetters(s: string) { forall i :: 0 <= i < |s| ==> IsLetter(s[i]) }
  predicate AllDigits(s: string) { forall i :: 0 <= i < |s| ==> IsDigit(s[i]) }

  /** `str.lower` on one character, for the ASCII range. */
  function Lower(c: char): (d: char)
    ensures IsLetter(c) <==> IsLower(d)
    ensures !IsUpper(d)
    ensures !IsUpper(c) ==> d == c
    ensures IsUpper(c) ==> d as int == c as int - 'A' as int + 'a' as int
  {
    if IsUpper(c) then (c as int - 'A' as int + 'a' as int) as char else c
  }

  /** `str.lower` on a whole string: every character lowered, the length kept. */
  function LowerStr(s: string): (r: string)
    ensures |r| == |s|
    ensures forall i :: 0 <= i < |s| ==> r[i] == Lower(s[i])
  {
    seq(|s|, i requires 0 <= i < |s| => Lower(s[i]))
  }

  /** Lower-casing a string whose letters are already lower case changes nothing. */
  lemma LowerStrOfLower(s: string)
    requires AllLower(s)
    ensures LowerStr(s) == s
  {
  }

  /** Lower-casing is idempotent. */
  lemma LowerStrIdempotent(s: string)
    ensures LowerStr(LowerStr(s)) == LowerStr(s)
  {
  }

  /** Digits are left alone by lower-casing. */
  lemma LowerStrAppendDigits(s: string, digits: string)
    requires AllDigits(digits)
    ensures LowerStr(s + digits) == LowerStr(s) + digits
  {
    assert forall i :: 0 <= i < |digits| ==> Lower(digits[i]) == digits[i];
  }

  /** A string is all letters exactly when its lower-cased form is all lower-case letters. */
  lemma LettersIffLowered(s: string)
    ensures AllLetters(s) <==> AllLower(LowerStr(s))
  {
  }

  function DigitValue(c: char): (v: nat)
    requires IsDigit(c)
    ensures v < 10
  {
    c as int - '0' as int
  }

  function DigitChar(v: nat): (c: char)
    requires v < 10
    ensures IsDigit(c) && DigitValue(c) == v
  {
    ('0' as int + v) as char
  }

  function Pow10(e: nat): (p: nat)
    ensures p >= 1
  {
    if e == 0 then 1 else 10 * Pow10(e - 1)
  }

  /** `int(s)` for a string of ASCII digits: decimal, most significant digit
      first, so k digits spell a number below 10^k. */
  function Decimal(s: string): (n: nat)
    requires AllDigits(s)
    ensures n < Pow10(|s|)
    decreases |s|
  {
    if s == [] then 0 else 10 * Decimal(s[..|s| - 1]) + DigitValue(s[|s| - 1])
  }

  /** `str(n)` for a non-negative integer: its shortest decimal spelling. */
  function Str(n: nat): (s: string)
    ensures |s| > 0 && AllDigits(s)
    decreases n
  {
    if n < 10 then [DigitChar(n)] else Str(n / 10) + [DigitChar(n % 10)]
  }

  /** `int(str(n)) == n`. */
  lemma {:induction false} DecimalOfStr(n: nat)
    ensures Decimal(Str(n)) == n
    decreases n
  {
    var s := Str(n);
    if n < 10 {
      assert s[..0] == [];
    } else {
      DecimalOfStr(n / 10);
      assert s[..|s| - 1] == Str(n / 10);
    }
  }
}

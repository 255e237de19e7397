/**
 * The string operations of JavaScript that the pairing code relies on:
 * String.prototype.charAt, toUpperCase/toLowerCase on ASCII letters, and
 * the decimal rendering of a number inside a template string.
 */
module Text {

  /** JavaScript's charAt: the one-character string at i, or "" when i is out of range. */
  function CharAt(s: string, i: int): (r: string)
    ensures |r| <= 1
    ensures |r| == 1 <==> 0 <= i < |s|
    ensures |r| == 1 ==> r[0] == s[i]
  {
    if 0 <= i < |s| then [s[i]] else ""
  }

  predicate IsUpperLetter(c: char) { 'A' <= c <= 'Z' }

  predicate IsLowerLetter(c: char) { 'a' <= c <= 'z' }

  function UpperChar(c: char): char
  {
    if IsLowerLetter(c) then (c as int - 32) as char else c
  }

  function LowerChar(c: char): char
  {
    if IsUpperLetter(c) then (c as int + 32) as char else c
  }

  /** String.prototype.toUpperCase, restricted to ASCII letters. */
  function ToUpper(s: string): string
  {
    if s == [] then [] else [UpperChar(s[0])] + ToUpper(s[1..])
  }

  /** String.prototype.toLowerCase, restricted to ASCII letters. */
  function ToLower(s: string): string
  {
    if s == [] then [] else [LowerChar(s[0])] + ToLower(s[1..])
  }

  lemma {:induction false} ToUpperAt(s: string)
    ensures |ToUpper(s)| == |s|
    ensures forall i :: 0 <= i < |s| ==> ToUpper(s)[i] == UpperChar(s[i])
  {
    if s != [] {
      ToUpperAt(s[1..]);
      assert forall i :: 0 < i < |s| ==> ToUpper(s)[i] == ToUpper(s[1..])[i - 1];
    }
  }

  lemma {:induction false} ToLowerAt(s: string)
    ensures |ToLower(s)| == |s|
    ensures forall i :: 0 <= i < |s| ==> ToLower(s)[i] == LowerChar(s[i])
  {
    if s != [] {
      ToLowerAt(s[1..]);
      assert forall i :: 0 < i < |s| ==> ToLower(s)[i] == ToLower(s[1..])[i - 1];
    }
  }

  /**
   * Upper-casing keeps the length, maps every a-z to its A-Z partner,
   * leaves every other character alone, leaves no lower-case letter
   * behind, and is idempotent.
   */
  lemma ToUpperSpec(s: string)
    ensures |ToUpper(s)| == |s|
    ensures forall i :: 0 <= i < |s| && IsLowerLetter(s[i]) ==>
              IsUpperLetter(ToUpper(s)[i]) && ToUpper(s)[i] as int == s[i] as int - 32
    ensures forall i :: 0 <= i < |s| && !IsLowerLetter(s[i]) ==> ToUpper(s)[i] == s[i]
    ensures forall i :: 0 <= i < |s| ==> !IsLowerLetter(ToUpper(s)[i])
    ensures ToUpper(ToUpper(s)) == ToUpper(s)
  {
    ToUpperAt(s);
    ToUpperAt(ToUpper(s));
  }

  /**
   * Lower-casing keeps the length, changes only A-Z, and is idempotent;
   * in particular it neither removes nor introduces any non-letter.
   */
  lemma ToLowerSpec(s: string)
    ensures |ToLower(s)| == |s|
    ensures forall i :: 0 <= i < |s| && IsUpperLetter(s[i]) ==>
              IsLowerLetter(ToLower(s)[i]) && ToLower(s)[i] as int == s[i] as int + 32
    ensures forall i :: 0 <= i < |s| && !IsUpperLetter(s[i]) ==> ToLower(s)[i] == s[i]
    ensures ToLower(ToLower(s)) == ToLower(s)
  {
    ToLowerAt(s);
    ToLowerAt(ToLower(s));
  }

  predicate IsDigit(c: char) { '0' <= c <= '9' }

  predicate IsDigits(s: string) { forall i :: 0 <= i < |s| ==> IsDigit(s[i]) }

  function DigitChar(d: nat): char
    requires d < 10
  {
    (48 + d) as char
  }

  function DigitValue(c: char): nat
    requires IsDigit(c)
  {
    c as int - 48
  }

  /** The decimal rendering of n, as `${n}` produces it. */
  function NatToString(n: nat): string
    decreases n
  {
    if n < 10 then [DigitChar(n)] else NatToString(n / 10) + [DigitChar(n % 10)]
  }

  /** The value of a string of decimal digits. */
  function ParseDigits(s: string): nat
    requires IsDigits(s)
  {
    if s == [] then 0 else ParseDigits(s[..|s| - 1]) * 10 + DigitValue(s[|s| - 1])
  }

  /** Rendering a number gives a non-empty string of digits that parses back to it. */
  lemma {:induction false} NatToStringRoundTrip(n: nat)
    ensures NatToString(n) != [] && IsDigits(NatToString(n))
    ensures ParseDigits(NatToString(n)) == n
    decreases n
  {
    if n >= 10 {
      var prefix := NatToString(n / 10);
      NatToStringRoundTrip(n / 10);
      var s := prefix + [DigitChar(n % 10)];
      assert s[..|s| - 1] == prefix;
      assert ParseDigits(s) == (n / 10) * 10 + n % 10;
    }
  }
}

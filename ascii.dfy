/**
  ASCII case mapping on strings: Rust's `str::to_ascii_lowercase` and
  `str::eq_ignore_ascii_case`, and `str::to_uppercase` restricted to ASCII
  text (the only text the formatter produces). Only the 26 Latin letters
  change case; every other character is left as it is.
*/
module Ascii {

  predicate IsUpperLetter(c: char) { 'A' <= c <= 'Z' }

  predicate IsLowerLetter(c: char) { 'a' <= c <= 'z' }

  /** The lowercase of one character. */
  function LowerChar(c: char): (r: char)
    ensures !IsUpperLetter(r)
    ensures IsUpperLetter(c) ==> IsLowerLetter(r) && r as int == c as int + 32
    ensures !IsUpperLetter(c) ==> r == c
  {
    if IsUpperLetter(c) then (c as int + 32) as char else c
  }

  /** The uppercase of one character. */
  function UpperChar(c: char): (r: char)
    ensures !IsLowerLetter(r)
    ensures IsLowerLetter(c) ==> IsUpperLetter(r) && r as int == c as int - 32
    ensures !IsLowerLetter(c) ==> r == c
  {
    if IsLowerLetter(c) then (c as int - 32) as char else c
  }

  /** A string in which no character is an uppercase letter. */
  predicate HasNoUpper(s: string) {
    forall i :: 0 <= i < |s| ==> !IsUpperLetter(s[i])
  }

  /** A string in which no character is a lowercase letter. */
  predicate HasNoLower(s: string) {
    forall i :: 0 <= i < |s| ==> !IsLowerLetter(s[i])
  }

  /** `to_ascii_lowercase`: every character mapped by LowerChar, in place. */
  function AsciiLower(s: string): (r: string)
    ensures |r| == |s|
    ensures HasNoUpper(r)
    ensures forall i :: 0 <= i < |s| && IsUpperLetter(s[i]) ==> r[i] as int == s[i] as int + 32
    ensures forall i :: 0 <= i < |s| && !IsUpperLetter(s[i]) ==> r[i] == s[i]
  {
    seq(|s|, i requires 0 <= i < |s| => LowerChar(s[i]))
  }

  /** `to_uppercase` on ASCII text: every character mapped by UpperChar, in place. */
  function AsciiUpper(s: string): (r: string)
    ensures |r| == |s|
    ensures HasNoLower(r)
    ensures forall i :: 0 <= i < |s| && IsLowerLetter(s[i]) ==> r[i] as int == s[i] as int - 32
    ensures forall i :: 0 <= i < |s| && !IsLowerLetter(s[i]) ==> r[i] == s[i]
  {
    seq(|s|, i requires 0 <= i < |s| => UpperChar(s[i]))
  }

  /** `eq_ignore_ascii_case`: same length, and equal character by character up to ASCII case. */
  predicate EqualsIgnoreAsciiCase(a: string, b: string) {
    |a| == |b| && forall i :: 0 <= i < |a| ==> LowerChar(a[i]) == LowerChar(b[i])
  }

  /** Lowercasing two strings gives the same string exactly when they are equal ignoring ASCII case. */
  lemma LowerEqualIffEqualsIgnoreCase(a: string, b: string)
    ensures AsciiLower(a) == AsciiLower(b) <==> EqualsIgnoreAsciiCase(a, b)
  {
    if EqualsIgnoreAsciiCase(a, b) {
      assert forall i :: 0 <= i < |a| ==> AsciiLower(a)[i] == AsciiLower(b)[i];
    }
    if AsciiLower(a) == AsciiLower(b) {
      forall i | 0 <= i < |a|
        ensures LowerChar(a[i]) == LowerChar(b[i])
      {
        assert AsciiLower(a)[i] == AsciiLower(b)[i];
      }
    }
  }

  /** Lowercasing leaves a string without uppercase letters as it is. */
  lemma LowerOfNoUpper(s: string)
    requires HasNoUpper(s)
    ensures AsciiLower(s) == s
  {
    assert forall i :: 0 <= i < |s| ==> AsciiLower(s)[i] == s[i];
  }

  /** Uppercasing and then lowercasing gives back a string without uppercase letters. */
  lemma LowerOfUpper(s: string)
    requires HasNoUpper(s)
    ensures AsciiLower(AsciiUpper(s)) == s
  {
    forall i | 0 <= i < |s|
      ensures AsciiLower(AsciiUpper(s))[i] == s[i]
    {
      assert AsciiUpper(s)[i] == UpperChar(s[i]);
    }
  }

  /** Uppercasing commutes with taking a slice. */
  lemma UpperOfSlice(s: string, i: nat, j: nat)
    requires i <= j <= |s|
    ensures AsciiUpper(s[i..j]) == AsciiUpper(s)[i..j]
  {
    var a, b := AsciiUpper(s[i..j]), AsciiUpper(s)[i..j];
    forall k | 0 <= k < j - i
      ensures a[k] == b[k]
    {
      assert s[i..j][k] == s[i + k];
    }
  }

  /** Uppercasing distributes over concatenation. */
  lemma UpperOfConcat(a: string, b: string)
    ensures AsciiUpper(a + b) == AsciiUpper(a) + AsciiUpper(b)
  {
    var l, r := AsciiUpper(a + b), AsciiUpper(a) + AsciiUpper(b);
    forall k | 0 <= k < |a| + |b|
      ensures l[k] == r[k]
    {
      if k < |a| { assert (a + b)[k] == a[k]; } else { assert (a + b)[k] == b[k - |a|]; }
    }
  }
}

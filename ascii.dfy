/** ASCII case folding, as `str::to_ascii_uppercase` and the case-insensitive
    string comparison of the `uncased` crate perform it: only the letters
    `a`-`z` and `A`-`Z` change, every other character is left alone. */
module Ascii {

  predicate IsAsciiLower(c: char) { 'a' <= c <= 'z' }

  predicate IsAsciiUpper(c: char) { 'A' <= c <= 'Z' }

  function UpperChar(c: char): (u: char)
    ensures !IsAsciiLower(u)
    ensures IsAsciiLower(c) ==> u as int == c as int - 32
    ensures !IsAsciiLower(c) ==> u == c
  {
    if IsAsciiLower(c) then (c as int - 32) as char else c
  }

  function LowerChar(c: char): (l: char)
    ensures !IsAsciiUpper(l)
    ensures IsAsciiUpper(c) ==> l as int == c as int + 32
    ensures !IsAsciiUpper(c) ==> l == c
  {
    if IsAsciiUpper(c) then (c as int + 32) as char else c
  }

  /** `str::to_ascii_uppercase`. */
  function ToAsciiUpper(s: string): (u: string)
    ensures |u| == |s|
    ensures forall i :: 0 <= i < |s| ==> u[i] == UpperChar(s[i])
  {
    seq(|s|, i requires 0 <= i < |s| => UpperChar(s[i]))
  }

  /** `str::to_ascii_lowercase`. */
  function ToAsciiLower(s: string): (l: string)
    ensures |l| == |s|
    ensures forall i :: 0 <= i < |s| ==> l[i] == LowerChar(s[i])
  {
    seq(|s|, i requires 0 <= i < |s| => LowerChar(s[i]))
  }

  /** `eq_ignore_ascii_case`: same length and equal after lower-casing each pair. */
  predicate EqIgnoreAsciiCase(a: string, b: string)
  {
    |a| == |b| && forall i :: 0 <= i < |a| ==> LowerChar(a[i]) == LowerChar(b[i])
  }

  /** Lower-casing and upper-casing identify exactly the same pairs of characters. */
  lemma FoldsAgree(c: char, d: char)
    ensures LowerChar(c) == LowerChar(d) <==> UpperChar(c) == UpperChar(d)
  {
  }

  /** Case-insensitive equality is equality after either folding. */
  lemma {:induction false} EqIgnoreAsciiCaseIsFolding(a: string, b: string)
    ensures EqIgnoreAsciiCase(a, b) <==> ToAsciiLower(a) == ToAsciiLower(b)
    ensures EqIgnoreAsciiCase(a, b) <==> ToAsciiUpper(a) == ToAsciiUpper(b)
  {
    if |a| == |b| {
      forall i | 0 <= i < |a| {
        FoldsAgree(a[i], b[i]);
      }
      if ToAsciiLower(a) == ToAsciiLower(b) {
        forall i | 0 <= i < |a| ensures LowerChar(a[i]) == LowerChar(b[i]) {
          assert ToAsciiLower(a)[i] == LowerChar(a[i]);
        }
      }
      if ToAsciiUpper(a) == ToAsciiUpper(b) {
        forall i | 0 <= i < |a| ensures UpperChar(a[i]) == UpperChar(b[i]) {
          assert ToAsciiUpper(a)[i] == UpperChar(a[i]);
        }
      }
    } else {
      assert |ToAsciiLower(a)| != |ToAsciiLower(b)|;
      assert |ToAsciiUpper(a)| != |ToAsciiUpper(b)|;
    }
  }

  /** Case-insensitive equality is an equivalence relation. */
  lemma EqIgnoreAsciiCaseEquivalence(a: string, b: string, c: string)
    ensures EqIgnoreAsciiCase(a, a)
    ensures EqIgnoreAsciiCase(a, b) ==> EqIgnoreAsciiCase(b, a)
    ensures EqIgnoreAsciiCase(a, b) && EqIgnoreAsciiCase(b, c) ==> EqIgnoreAsciiCase(a, c)
  {
  }

  /** A string without upper-case ASCII letters matches `b` ignoring case
      exactly when it is `b` lower-cased. */
  lemma MatchesLowercase(a: string, b: string)
    requires forall i :: 0 <= i < |a| ==> !IsAsciiUpper(a[i])
    ensures EqIgnoreAsciiCase(b, a) <==> ToAsciiLower(b) == a
  {
    EqIgnoreAsciiCaseIsFolding(b, a);
    assert ToAsciiLower(a) == a;
  }
}

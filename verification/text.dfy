/**
 * Spark's `upper` column function, restricted to the characters the
 * country-name tables contain: ASCII letters and the Latin-1 accented
 * letters (as in "Côte d'Ivoire" or "Curaçao").
 */
module Text {

  /** A lower-case letter that `upper` maps to a single upper-case letter. */
  predicate IsLower(c: char) {
    ('a' <= c <= 'z') || ('\U{E0}' <= c <= '\U{FE}' && c != '\U{F7}')
  }

  /** A capital letter: ASCII, or a Latin-1 accented capital other than the multiplication sign. */
  predicate IsCapital(c: char) {
    ('A' <= c <= 'Z') || ('\U{C0}' <= c <= '\U{DE}' && c != '\U{D7}')
  }

  /** The upper-case partner of a lower-case letter sits 32 code points below it. */
  function UpperChar(c: char): (u: char)
    ensures !IsLower(u)
    ensures !IsLower(c) ==> u == c
    ensures IsLower(c) ==> IsCapital(u) && u as int == c as int - 32
  {
    if IsLower(c) then (c as int - 32) as char else c
  }

  /** A string with no lower-case letter left in it. */
  predicate IsUpperCase(s: string) {
    forall i :: 0 <= i < |s| ==> !IsLower(s[i])
  }

  /** `upper(col)`: every lower-case letter replaced by its capital, nothing else touched. */
  function Upper(s: string): (u: string)
    ensures |u| == |s|
    ensures IsUpperCase(u)
    ensures forall i :: 0 <= i < |s| && IsLower(s[i]) ==> IsCapital(u[i]) && u[i] as int == s[i] as int - 32
    ensures forall i :: 0 <= i < |s| && !IsLower(s[i]) ==> u[i] == s[i]
  {
    seq(|s|, i requires 0 <= i < |s| => UpperChar(s[i]))
  }

  /** Upper-casing leaves a string alone exactly when it is already upper-case. */
  lemma UpperFixesExactlyUpperCase(s: string)
    ensures Upper(s) == s <==> IsUpperCase(s)
  {
    if IsUpperCase(s) {
      assert forall i :: 0 <= i < |s| ==> Upper(s)[i] == s[i];
    } else {
      var i :| 0 <= i < |s| && IsLower(s[i]);
      assert Upper(s)[i] != s[i];
    }
  }

  /** Upper-casing twice is upper-casing once. */
  lemma UpperIdempotent(s: string)
    ensures Upper(Upper(s)) == Upper(s)
  {
    UpperFixesExactlyUpperCase(Upper(s));
  }
}

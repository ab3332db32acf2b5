/**
 * The username rule both tiers compile from the same pattern text,
 * `^[a-zA-Z0-9-]{3,20}$`: between 3 and 20 characters, each an ASCII letter,
 * a digit or a hyphen.  The anchors make the match cover the whole name.
 */
module UsernamePattern {
  /** The character class `[a-zA-Z0-9-]`. */
  predicate InClass(c: char) {
    ('a' <= c <= 'z') || ('A' <= c <= 'Z') || ('0' <= c <= '9') || c == '-'
  }

  const MinLength: nat := 3
  const MaxLength: nat := 20

  /** How far the class matches from the start: the length of the longest prefix in the class. */
  function ClassRun(s: string): (n: nat)
    ensures n <= |s|
    ensures forall i :: 0 <= i < n ==> InClass(s[i])
    ensures n < |s| ==> !InClass(s[n])
  {
    if s == [] || !InClass(s[0]) then 0 else 1 + ClassRun(s[1..])
  }

  /** The anchored match: the class run covers the name and its length is within the bounds. */
  function Matches(s: string): (r: bool)
    ensures r <==> MinLength <= |s| <= MaxLength && forall i :: 0 <= i < |s| ==> InClass(s[i])
  {
    ClassRun(s) == |s| && MinLength <= |s| <= MaxLength
  }

  /** A matching name holds no character a JSON string literal would need escaped. */
  lemma MatchesNeedsNoEscape(s: string)
    requires Matches(s)
    ensures '"' !in s && '\\' !in s
  {
  }
}

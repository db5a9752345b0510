/** ASCII case mapping and `str.capitalize`, which the transformer applies to
    the gender and medical-condition columns. */
module Text {

  predicate IsUpper(c: char) { 'A' <= c <= 'Z' }

  predicate IsLower(c: char) { 'a' <= c <= 'z' }

  /** Upper-case an ASCII letter; every other character is kept. */
  function UpperChar(c: char): (u: char)
    ensures !IsLower(u)
    ensures IsLower(c) ==> IsUpper(u)
    ensures !IsLower(c) ==> u == c
  {
    if IsLower(c) then (c as int - 32) as char else c
  }

  /** Lower-case an ASCII letter; every other character is kept. */
  function LowerChar(c: char): (l: char)
    ensures !IsUpper(l)
    ensures IsUpper(c) ==> IsLower(l)
    ensures !IsUpper(c) ==> l == c
  {
    if IsUpper(c) then (c as int + 32) as char else c
  }

  /** Changing the case of a letter and back gives the letter again. */
  lemma CaseRoundTrip(c: char)
    ensures IsLower(c) ==> LowerChar(UpperChar(c)) == c
    ensures IsUpper(c) ==> UpperChar(LowerChar(c)) == c
    ensures LowerChar(UpperChar(c)) == LowerChar(c)
  {
  }

  /** `str.lower` restricted to ASCII. */
  function LowerAll(s: string): (r: string)
    ensures |r| == |s|
    ensures forall i :: 0 <= i < |s| ==> r[i] == LowerChar(s[i])
  {
    if |s| == 0 then "" else [LowerChar(s[0])] + LowerAll(s[1..])
  }

  /** `str.capitalize` restricted to ASCII: the first character upper-cased,
      every later one lower-cased; the empty string stays empty. */
  function Capitalize(s: string): (r: string)
    ensures |r| == |s|
    ensures |s| > 0 ==> r[0] == UpperChar(s[0])
    ensures forall i :: 1 <= i < |s| ==> r[i] == LowerChar(s[i])
  {
    if |s| == 0 then "" else [UpperChar(s[0])] + LowerAll(s[1..])
  }

  /** A string in the shape `Capitalize` produces: no lower-case first
      letter, no upper-case letter after it. */
  predicate IsCapitalized(s: string) {
    && (|s| > 0 ==> !IsLower(s[0]))
    && forall i :: 1 <= i < |s| ==> !IsUpper(s[i])
  }

  /** Capitalizing yields a capitalized string that differs from the input
      only in letter case. Together the two facts pin the result down. */
  lemma CapitalizeShape(s: string)
    ensures IsCapitalized(Capitalize(s))
    ensures LowerAll(Capitalize(s)) == LowerAll(s)
  {
    var r := Capitalize(s);
    if |s| > 0 {
      CaseRoundTrip(s[0]);
    }
    assert forall i :: 0 <= i < |s| ==> LowerAll(r)[i] == LowerAll(s)[i];
  }

  /** Capitalizing leaves a string unchanged exactly when it is already
      capitalized. */
  lemma CapitalizeFixedPoints(s: string)
    ensures Capitalize(s) == s <==> IsCapitalized(s)
  {
    CapitalizeShape(s);
    if IsCapitalized(s) {
      assert forall i :: 0 <= i < |s| ==> Capitalize(s)[i] == s[i];
    }
  }

  /** Capitalizing twice is the same as capitalizing once. */
  lemma CapitalizeIdempotent(s: string)
    ensures Capitalize(Capitalize(s)) == Capitalize(s)
  {
    CapitalizeShape(s);
    CapitalizeFixedPoints(Capitalize(s));
  }
}

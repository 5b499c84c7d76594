/** Case-insensitive string comparison, as `String.equalsIgnoreCase` does it on
    ASCII text. */
module Text {

  /** Maps an upper-case ASCII letter to its lower-case form; every other
      character is left alone. */
  function ToLowerAscii(c: char): char
  {
    if 'A' <= c <= 'Z' then (c as int + 32) as char else c
  }

  /** The lower-case form of a string, character by character. */
  function Fold(s: string): (r: string)
    ensures |r| == |s|
    ensures forall i :: 0 <= i < |s| ==> r[i] == ToLowerAscii(s[i])
  {
    seq(|s|, i requires 0 <= i < |s| => ToLowerAscii(s[i]))
  }

  /** Maps a lower-case ASCII letter to its upper-case form; every other
      character is left alone. */
  function ToUpperAscii(c: char): char
  {
    if 'a' <= c <= 'z' then (c as int - 32) as char else c
  }

  /** The character rule of `String.equalsIgnoreCase`: two characters match
      when they are equal, when their upper-case forms are equal, or when
      their lower-case forms are equal. */
  predicate CharsMatchIgnoringCase(c: char, d: char)
  {
    c == d || ToUpperAscii(c) == ToUpperAscii(d) || ToLowerAscii(c) == ToLowerAscii(d)
  }

  /** On ASCII text the three-way character rule is the same as comparing
      lower-case forms. */
  lemma CharRuleIsLowerCaseEquality(c: char, d: char)
    ensures CharsMatchIgnoringCase(c, d) <==> ToLowerAscii(c) == ToLowerAscii(d)
  {
  }

  /** Folding both strings to lower case and comparing agrees with the
      character rule applied position by position. */
  lemma {:induction false} FoldEqualityIsCharRule(a: string, b: string)
    ensures Fold(a) == Fold(b) <==>
              |a| == |b| && forall i :: 0 <= i < |a| ==> CharsMatchIgnoringCase(a[i], b[i])
  {
    forall i | 0 <= i < |a| && i < |b| {
      CharRuleIsLowerCaseEquality(a[i], b[i]);
    }
    if |a| == |b| && forall i :: 0 <= i < |a| ==> CharsMatchIgnoringCase(a[i], b[i]) {
      assert forall i :: 0 <= i < |a| ==> Fold(a)[i] == Fold(b)[i];
    }
  }

  /** `a.equalsIgnoreCase(b)`: the strings have the same length and match
      character by character under the character rule. Computed by folding
      both to lower case. */
  predicate EqualsIgnoreCase(a: string, b: string)
    ensures EqualsIgnoreCase(a, b) <==>
              |a| == |b| && forall i :: 0 <= i < |a| ==> CharsMatchIgnoringCase(a[i], b[i])
  {
    FoldEqualityIsCharRule(a, b);
    Fold(a) == Fold(b)
  }

  /** Every string equals itself ignoring case. */
  lemma EqualsIgnoreCaseReflexive(a: string)
    ensures EqualsIgnoreCase(a, a)
  {
  }

  /** The comparison does not depend on the order of its arguments. */
  lemma EqualsIgnoreCaseSymmetric(a: string, b: string)
    ensures EqualsIgnoreCase(a, b) <==> EqualsIgnoreCase(b, a)
  {
  }

  /** Two strings that each equal a third ignoring case equal each other. */
  lemma EqualsIgnoreCaseTransitive(a: string, b: string, c: string)
    requires EqualsIgnoreCase(a, b) && EqualsIgnoreCase(b, c)
    ensures EqualsIgnoreCase(a, c)
  {
    forall i | 0 <= i < |a| ensures CharsMatchIgnoringCase(a[i], c[i]) {
      CharRuleIsLowerCaseEquality(a[i], b[i]);
      CharRuleIsLowerCaseEquality(b[i], c[i]);
      CharRuleIsLowerCaseEquality(a[i], c[i]);
    }
  }

  /** Strings of different lengths never match, so no category matches both
      "Book" and "Books". */
  lemma NoCategoryIsBothBookAndBooks(c: string)
    ensures !(EqualsIgnoreCase(c, "Book") && EqualsIgnoreCase(c, "Books"))
  {
  }
}

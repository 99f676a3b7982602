/**
 * The `java.lang.String` operations the core relies on, `toLowerCase()` and
 * `equalsIgnoreCase`, with an ASCII-only case mapping (no locale rules), as
 * src/database/JsonDataReader.java and src/StudentUI.java call them.
 */
module JavaText {

  /** `Character.toLowerCase` on ASCII letters; every other character is kept. */
  function LowerChar(c: char): char
  {
    if 'A' <= c <= 'Z' then (c as int + 32) as char else c
  }

  /** `Character.toUpperCase` on ASCII letters; every other character is kept. */
  function UpperChar(c: char): char
  {
    if 'a' <= c <= 'z' then (c as int - 32) as char else c
  }

  /** `String.toLowerCase()`: the string of the lower-cased characters. */
  function ToLower(s: string): (r: string)
    ensures |r| == |s|
    ensures forall i :: 0 <= i < |s| ==> r[i] == LowerChar(s[i])
  {
    if s == [] then [] else [LowerChar(s[0])] + ToLower(s[1..])
  }

  /**
   * The per-character test of `String.regionMatches(true, ...)`: the characters are
   * equal, or their upper-case forms are.
   */
  predicate CharEqualsIgnoreCase(c: char, d: char)
  {
    c == d || UpperChar(c) == UpperChar(d)
  }

  /** `String.toUpperCase()` with the same ASCII mapping. */
  function ToUpper(s: string): (r: string)
    ensures |r| == |s|
    ensures forall i :: 0 <= i < |s| ==> r[i] == UpperChar(s[i])
  {
    if s == [] then [] else [UpperChar(s[0])] + ToUpper(s[1..])
  }

  /** `String.equalsIgnoreCase`: same length and each pair of characters matches ignoring case. */
  predicate EqualsIgnoreCase(a: string, b: string)
  {
    |a| == |b| && forall i :: 0 <= i < |a| ==> CharEqualsIgnoreCase(a[i], b[i])
  }

  lemma CharEqualsIgnoreCaseIsUpperEquality(c: char, d: char)
    ensures CharEqualsIgnoreCase(c, d) <==> UpperChar(c) == UpperChar(d)
  {
  }

  /** Matching ignoring case is an equivalence: reflexive, symmetric and transitive. */
  lemma EqualsIgnoreCaseIsEquivalence(a: string, b: string, c: string)
    ensures EqualsIgnoreCase(a, a)
    ensures EqualsIgnoreCase(a, b) ==> EqualsIgnoreCase(b, a)
    ensures EqualsIgnoreCase(a, b) && EqualsIgnoreCase(b, c) ==> EqualsIgnoreCase(a, c)
  {
    if EqualsIgnoreCase(a, b) && EqualsIgnoreCase(b, c) {
      forall i | 0 <= i < |a| ensures CharEqualsIgnoreCase(a[i], c[i]) {
        CharEqualsIgnoreCaseIsUpperEquality(a[i], b[i]);
        CharEqualsIgnoreCaseIsUpperEquality(b[i], c[i]);
        CharEqualsIgnoreCaseIsUpperEquality(a[i], c[i]);
      }
    }
  }

  /** Two strings match ignoring case exactly when their upper-case forms are equal. */
  lemma EqualsIgnoreCaseIsUpperEquality(a: string, b: string)
    ensures EqualsIgnoreCase(a, b) <==> ToUpper(a) == ToUpper(b)
  {
    if EqualsIgnoreCase(a, b) {
      forall i | 0 <= i < |a| ensures ToUpper(a)[i] == ToUpper(b)[i] {
        CharEqualsIgnoreCaseIsUpperEquality(a[i], b[i]);
      }
    }
    if ToUpper(a) == ToUpper(b) {
      forall i | 0 <= i < |a| ensures CharEqualsIgnoreCase(a[i], b[i]) {
        assert ToUpper(a)[i] == ToUpper(b)[i];
      }
    }
  }
}

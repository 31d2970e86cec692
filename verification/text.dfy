/** Case-insensitive substring search (`String.contains(other, ignoreCase = true)`),
    with case mapping restricted to the ASCII letters. */
module Text {

  function UpperChar(c: char): char {
    if 'a' <= c <= 'z' then (c as int - 32) as char else c
  }

  function LowerChar(c: char): char {
    if 'A' <= c <= 'Z' then (c as int + 32) as char else c
  }

  /** `Char.equals(other, ignoreCase = true)`: equal, equal in upper case, or equal after
      upper- then lower-casing. */
  predicate CharEqualsIgnoreCase(a: char, b: char) {
    a == b || UpperChar(a) == UpperChar(b) || LowerChar(UpperChar(a)) == LowerChar(UpperChar(b))
  }

  /** `text` begins with `query` up to case. */
  predicate StartsWithIgnoreCase(text: string, query: string) {
    |query| <= |text| && forall i | 0 <= i < |query| :: CharEqualsIgnoreCase(text[i], query[i])
  }

  /** `query` occurs in `text` at some position, up to case. */
  predicate ContainsIgnoreCase(text: string, query: string) {
    exists i | 0 <= i <= |text| - |query| :: StartsWithIgnoreCase(text[i..], query)
  }

  /** `query` equals the slice of `text` at `i` once both are upper-cased. */
  predicate UpperCasedAt(text: string, query: string, i: int)
    requires 0 <= i <= |text| - |query|
  {
    forall j | 0 <= j < |query| :: UpperChar(text[i + j]) == UpperChar(query[j])
  }

  /** Two characters are equal ignoring case exactly when their upper-cased forms are:
      upper-casing never yields a lower-case ASCII letter, so the lower-cased comparison
      adds nothing. */
  lemma CharEqualsIgnoreCaseIff(a: char, b: char)
    ensures CharEqualsIgnoreCase(a, b) <==> UpperChar(a) == UpperChar(b)
  {
    var x, y := UpperChar(a), UpperChar(b);
    assert !('a' <= x <= 'z') && !('a' <= y <= 'z');
  }

  /** The case-insensitive search succeeds exactly when some position of `text` matches
      `query` after upper-casing both. */
  lemma ContainsUpperCased(text: string, query: string)
    ensures ContainsIgnoreCase(text, query)
            <==> exists i | 0 <= i <= |text| - |query| :: UpperCasedAt(text, query, i)
  {
    forall i | 0 <= i <= |text| - |query|
      ensures StartsWithIgnoreCase(text[i..], query) <==> UpperCasedAt(text, query, i)
    {
      forall j | 0 <= j < |query|
        ensures CharEqualsIgnoreCase(text[i..][j], query[j]) <==> UpperChar(text[i + j]) == UpperChar(query[j])
      {
        assert text[i..][j] == text[i + j];
        CharEqualsIgnoreCaseIff(text[i + j], query[j]);
      }
    }
  }
}

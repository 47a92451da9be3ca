/** Swift compares `String`s by Unicode canonical equivalence: the precomposed "é" (U+00E9) and
    "e" followed by the combining acute accent (U+0301) are equal under `==` though their code
    points differ. The store looks keys up by their exact code points. Swift's `==` on strings is
    therefore a parameter `same` of the model, and each statement assumes of it only what it
    needs. */
module Strings {
  /** Every string equals itself, as it does under Swift's `==`. */
  ghost predicate Reflexive(same: (string, string) -> bool) {
    forall a :: same(a, a)
  }

  /** "é" as one precomposed code point. */
  const Precomposed: string := "\U{E9}"

  /** "é" as "e" and a combining acute accent: canonically equivalent to `Precomposed`. */
  const Decomposed: string := "e\U{301}"

  /** Comparison by code point, under which two strings are equal only when they are the same
      sequence. It agrees with Swift's `==` on strings that have no other canonically equivalent
      spelling, such as ASCII. */
  function CodePoints(): (same: (string, string) -> bool)
    ensures Reflexive(same)
    ensures forall a, b :: same(a, b) <==> a == b
  {
    (a: string, b: string) => a == b
  }

  /** The two spellings of "é" are different keys. */
  lemma SpellingsDiffer()
    ensures Precomposed != Decomposed
  {
    assert |Precomposed| == 1 && |Decomposed| == 2;
  }
}

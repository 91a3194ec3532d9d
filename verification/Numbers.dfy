/** Small arithmetic that several modules share. */
module Numbers {

  const U32: nat := 0x1_0000_0000

  function Min(a: int, b: int): int { if a < b then a else b }

  // A product of two variables, kept apart from other arithmetic.
  function Times(a: nat, b: nat): nat { a * b }

  lemma TimesIs(a: nat, b: nat)
    ensures Times(a, b) == a * b
  {
  }

  lemma TimesNext(a: nat, b: nat)
    ensures Times(0, b) == 0 && Times(a + 1, b) == Times(a, b) + b
  {
  }

  lemma TimesMonotone(a: nat, b: nat, c: nat)
    ensures a <= b ==> Times(a, c) <= Times(b, c)
  {
  }
}

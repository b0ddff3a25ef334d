/** Sixteen-bit sample arithmetic, which wraps around. */
module Arithmetic16 {
  function Plus(a: bv16, b: bv16): bv16 { a + b }

  function Minus(a: bv16, b: bv16): bv16 { a - b }

  lemma PlusDifference(a: bv16, b: bv16)
    ensures Plus(a, b - a) == b
  {
  }

  lemma SumMinus(a: bv16, x: bv16)
    ensures Minus(a + x, a) == x
  {
  }

  lemma PlusIs(a: bv16, x: bv16)
    ensures Plus(a, x) == a + x
  {
  }

  lemma MinusIs(a: bv16, x: bv16)
    ensures Minus(a, x) == a - x
  {
  }

  lemma PlusMinus(a: bv16, b: bv16)
    ensures Plus(a, Minus(b, a)) == b
  {
    hide *;
    MinusIs(b, a);
    PlusDifference(a, b);
  }

  lemma PlusInjective(a: bv16, x: bv16, y: bv16)
    requires Plus(a, x) == Plus(a, y)
    ensures x == y
  {
    hide *;
    PlusIs(a, x);
    PlusIs(a, y);
    SumMinus(a, x);
    SumMinus(a, y);
  }

  lemma SumOnEitherSide(a: bv16, b: bv16, c: bv16)
    ensures Plus(a, b + c) == Plus(a + b, c)
  {
  }

  lemma SumsSwap(a: bv16, b: bv16, c: bv16)
    ensures Plus(a + b, c) == Plus(a + c, b)
  {
  }

  lemma PlusOfSum(a: bv16, b: bv16, c: bv16)
    ensures Plus(Plus(a, b), c) == Plus(a + b, c)
  {
    hide *;
    PlusIs(a, b);
  }

  lemma PlusWithSum(a: bv16, b: bv16, c: bv16)
    ensures Plus(a, Plus(b, c)) == Plus(a, b + c)
  {
    hide *;
    PlusIs(b, c);
  }

  lemma PlusAssociates(a: bv16, b: bv16, c: bv16)
    ensures Plus(a, Plus(b, c)) == Plus(Plus(a, b), c)
  {
    hide *;
    PlusWithSum(a, b, c);
    SumOnEitherSide(a, b, c);
    PlusOfSum(a, b, c);
  }

  lemma PlusSwaps(a: bv16, b: bv16, c: bv16)
    ensures Plus(Plus(a, b), c) == Plus(Plus(a, c), b)
  {
    hide *;
    PlusOfSum(a, b, c);
    SumsSwap(a, b, c);
    PlusOfSum(a, c, b);
  }
}

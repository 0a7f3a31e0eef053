/**
 Sums of 32-bit words as bit vectors, and the laws by which they are calculated with.
 */
module Bits {

  type Word = bv32

  function Xor(a: Word, b: Word): Word {
    a ^ b
  }

  lemma XorCommutes(a: Word, b: Word)
    ensures Xor(a, b) == Xor(b, a)
  {
  }

  lemma XorAssociates(a: Word, b: Word, c: Word)
    ensures Xor(Xor(a, b), c) == Xor(a, Xor(b, c))
  {
  }

  lemma XorTwice(a: Word, b: Word)
    ensures Xor(Xor(a, b), b) == a
  {
  }

  lemma XorZero(a: Word)
    ensures Xor(a, 0) == a
  {
  }

  lemma XorCancels(m: Word, y: Word, c: Word)
    ensures Xor(Xor(Xor(m, y), c), m) == Xor(y, c)
  {
    hide Xor;
    XorAssociates(m, y, c);
    XorCommutes(m, Xor(y, c));
    XorTwice(Xor(y, c), m);
  }

  lemma XorChain(x: Word, a: Word, b: Word)
    ensures Xor(Xor(Xor(x, a), Xor(a, b)), b) == x
  {
    hide Xor;
    XorAssociates(Xor(x, a), Xor(a, b), b);
    XorTwice(a, b);
    XorTwice(x, a);
  }

  // Right shifts.

  function Right1(a: Word): Word {
    a >> 1
  }

  function Right11(a: Word): Word {
    a >> 11
  }

  function Right18(a: Word): Word {
    a >> 18
  }

  function Right22(a: Word): Word {
    a >> 22
  }

  lemma Right11OfXor(a: Word, b: Word)
    ensures Right11(Xor(a, b)) == Xor(Right11(a), Right11(b))
  {
  }

  lemma Right22OfXor(a: Word, b: Word)
    ensures Right22(Xor(a, b)) == Xor(Right22(a), Right22(b))
  {
  }

  lemma Right11Repeated(a: Word)
    ensures Right11(Right11(a)) == Right22(a) && Right22(Right11(a)) == 0
  {
  }

  lemma Right18OfSum(a: Word)
    ensures Right18(Xor(a, Right18(a))) == Right18(a)
  {
  }

  lemma XorIsSum(a: Word, b: Word)
    ensures Xor(a, b) == a ^ b
  {
  }
}

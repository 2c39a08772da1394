/** Exclusive or of 64-bit words. */
module Words {
  function Xor(a: bv64, b: bv64): bv64 {
    a ^ b
  }

  lemma XorCommutes(a: bv64, b: bv64)
    ensures Xor(a, b) == Xor(b, a)
  {
  }

  lemma XorAssociates(a: bv64, b: bv64, c: bv64)
    ensures Xor(Xor(a, b), c) == Xor(a, Xor(b, c))
  {
    hide Xor;
    XorIsBitwise(a, b);
    XorIsBitwise(b, c);
    BitsAssociate(a, b, c);
  }

  lemma XorIsBitwise(a: bv64, b: bv64)
    ensures Xor(a, b) == a ^ b
  {
  }

  lemma BitsAssociate(a: bv64, b: bv64, c: bv64)
    ensures Xor(a ^ b, c) == Xor(a, b ^ c)
  {
  }

  /** The last two of three words may change places. */
  lemma XorSwap(a: bv64, b: bv64, c: bv64)
    ensures Xor(Xor(a, b), c) == Xor(Xor(a, c), b)
  {
    hide Xor;
    XorAssociates(a, b, c);
    XorCommutes(b, c);
    XorAssociates(a, c, b);
  }
}

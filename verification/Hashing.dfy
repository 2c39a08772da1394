/** What the hasher of schema.h keeps apart, and reference values of its codes. */
module Hashing {
  import opened Bytes
  import opened Json
  import opened Words
  import opened Equality

  /** The product with the inverse of kPrime modulo 2^64. */
  function TimesInverse(x: bv64): bv64 {
    x * 0xce96_5057_aff6_957b
  }

  lemma Undone(x: bv64)
    ensures TimesInverse(x * 0x0000_0100_0000_01b3) == x
  {
  }

  lemma Unfolded(x: bv64)
    ensures TimesPrime(x) == x * 0x0000_0100_0000_01b3
  {
  }

  lemma PrimeUndone(x: bv64)
    ensures TimesInverse(TimesPrime(x)) == x
  {
    hide TimesPrime, TimesInverse;
    Unfolded(x);
    Undone(x);
  }

  lemma XorCancels(a: bv64, b: bv64, c: bv64)
    ensures Xor(a, c) == Xor(b, c) ==> a == b
    ensures Xor(c, a) == Xor(c, b) ==> a == b
  {
  }

  /** No step of the hash loses anything: it is injective in the state and in what is mixed in. */
  lemma MixInjective(h: bv64, g: bv64, d: bv64)
    ensures Mix(h, d) == Mix(g, d) ==> h == g
    ensures Mix(d, h) == Mix(d, g) ==> h == g
  {
    hide TimesPrime, TimesInverse, Xor;
    PrimeUndone(Xor(h, d));
    PrimeUndone(Xor(g, d));
    PrimeUndone(Xor(d, h));
    PrimeUndone(Xor(d, g));
    XorCancels(h, g, d);
  }

  lemma {:induction false} MixBytesInjective(h: bv64, g: bv64, data: Text)
    ensures MixBytes(h, data) == MixBytes(g, data) ==> h == g
    decreases |data|
  {
    hide Mix, Word;
    if data != [] {
      MixInjective(h, g, Word(data[0]));
      MixBytesInjective(Mix(h, Word(data[0])), Mix(g, Word(data[0])), data[1..]);
    }
  }

  /** The same bytes under different types have different codes. */
  lemma TypesApart(a: bv64, b: bv64, data: Text)
    ensures HashBuffer(a, data) == HashBuffer(b, data) <==> a == b
  {
    hide Mix;
    MixBytesInjective(Mix(OFFSET_BASIS, a), Mix(OFFSET_BASIS, b), data);
    MixInjective(a, b, OFFSET_BASIS);
  }

  lemma {:induction false} ByteReplaced(h: bv64, data: Text, i: nat, c: Byte)
    requires i < |data|
    ensures MixBytes(h, data) == MixBytes(h, data[i := c]) <==> Word(data[i]) == Word(c)
    decreases i
  {
    hide Mix, Word;
    var other := data[i := c];
    if i == 0 {
      assert data[1..] == other[1..];
      MixBytesInjective(Mix(h, Word(data[0])), Mix(h, Word(c)), data[1..]);
      MixInjective(Word(data[0]), Word(c), h);
    } else {
      assert other[1..] == data[1..][i - 1 := c];
      ByteReplaced(Mix(h, Word(data[0])), data[1..], i - 1, c);
    }
  }

  /** Two strings that differ in a single byte have different codes. */
  lemma ByteApart(kind: bv64, data: Text, i: nat, c: Byte)
    requires i < |data|
    ensures HashBuffer(kind, data) == HashBuffer(kind, data[i := c]) <==> Word(data[i]) == Word(c)
  {
    hide MixBytes, Mix, Word;
    ByteReplaced(Mix(OFFSET_BASIS, kind), data, i, c);
  }

  lemma {:induction false} FoldInjective(h: bv64, g: bv64, es: seq<bv64>)
    ensures FoldElements(h, es) == FoldElements(g, es) ==> h == g
    decreases |es|
  {
    hide Mix;
    if es != [] {
      MixInjective(h, g, es[0]);
      FoldInjective(Mix(h, es[0]), Mix(g, es[0]), es[1..]);
    }
  }

  lemma {:induction false} ElementReplaced(h: bv64, vs: seq<JSON>, i: nat, v: JSON, bytes: NumberBytes)
    requires i < |vs|
    ensures FoldElements(h, ElementHashes(vs, bytes)) == FoldElements(h, ElementHashes(vs[i := v], bytes)) <==>
            HashOf(vs[i], bytes) == HashOf(v, bytes)
    decreases i
  {
    hide Mix, HashOf;
    var other := vs[i := v];
    var first := HashOf(vs[0], bytes);
    if i == 0 {
      assert vs[1..] == other[1..];
      MixInjective(first, HashOf(v, bytes), h);
      FoldInjective(Mix(h, first), Mix(h, HashOf(v, bytes)), ElementHashes(vs[1..], bytes));
    } else {
      assert other[1..] == vs[1..][i - 1 := v];
      ElementReplaced(Mix(h, first), vs[1..], i - 1, v, bytes);
    }
  }

  /** Replacing one element changes the code of an array exactly if it changes the code of the element. */
  lemma ElementApart(vs: seq<JSON>, i: nat, v: JSON, bytes: NumberBytes)
    requires i < |vs|
    ensures HashOf(Array(vs), bytes) == HashOf(Array(vs[i := v]), bytes) <==>
            HashOf(vs[i], bytes) == HashOf(v, bytes)
  {
    hide Mix, FoldElements, ElementHashes;
    ElementReplaced(Mix(0, ARRAY_TYPE), vs, i, v, bytes);
  }

  /** Replacing the value of one member changes the code of an object exactly if it changes the code of the value. */
  lemma MemberApart(ms: seq<Member>, i: nat, v: JSON, bytes: NumberBytes)
    requires i < |ms|
    ensures HashOf(Object(ms), bytes) == HashOf(Object(ms[i := Member(ms[i].name, v)]), bytes) <==>
            HashOf(ms[i].value, bytes) == HashOf(v, bytes)
  {
    hide Mix, FoldMembers, MemberHashes, HashBuffer, Xor;
    var m := Member(ms[i].name, v);
    var other := ms[i := m];
    assert other[..i] + other[i + 1..] == ms[..i] + ms[i + 1..];
    FoldAny(Mix(0, OBJECT_TYPE), ms, i, bytes);
    FoldAny(Mix(0, OBJECT_TYPE), other, i, bytes);
    var rest := FoldMembers(Mix(0, OBJECT_TYPE), MemberHashes(ms[..i] + ms[i + 1..], bytes));
    XorCancels(MemberHash(ms[i], bytes), MemberHash(m, bytes), rest);
    MixInjective(HashOf(ms[i].value, bytes), HashOf(v, bytes), HashBuffer(STRING_TYPE, ms[i].name));
  }

  // ---- Reference values ----

  lemma MixedKinds()
    ensures Mix(0x8422_2325_cbf2_9ce4, 0x0000_0000_0000_0000) == 0x789e_9d39_8d40_976c
    ensures Mix(0x8422_2325_cbf2_9ce4, 0x0000_0000_0000_0001) == 0x789e_9e39_8d40_991f
    ensures Mix(0x8422_2325_cbf2_9ce4, 0x0000_0000_0000_0002) == 0x789e_9f39_8d40_9ad2
    ensures Mix(0x8422_2325_cbf2_9ce4, 0x0000_0000_0000_0006) == 0x789e_9b39_8d40_9406
    ensures Mix(0x8422_2325_cbf2_9ce4, 0x0000_0000_0000_0005) == 0x789e_9a39_8d40_9253
    ensures Mix(0x789e_9a39_8d40_9253, 0x0000_0000_0000_0061) == 0x3612_41cb_04b8_6af6
    ensures Mix(0x0000_0000_0000_0000, 0x0000_0000_0000_0004) == 0x0000_0400_0000_06cc
    ensures Mix(0x0000_0000_0000_0000, 0x0000_0000_0000_0003) == 0x0000_0300_0000_0519
  {
  }

  lemma MixedInside()
    ensures Mix(0x0000_0400_0000_06cc, 0x789e_9d39_8d40_976c) == 0x360f_fccb_04b7_72e0
    ensures Mix(0x360f_fccb_04b7_72e0, 0x789e_9f39_8d40_9ad2) == 0x78f5_0720_703f_8cf6
    ensures Mix(0x0000_0400_0000_06cc, 0x789e_9f39_8d40_9ad2) == 0x361d_e0cb_04c9_46fa
    ensures Mix(0x361d_e0cb_04c9_46fa, 0x789e_9d39_8d40_976c) == 0xf340_991f_b52f_21e2
    ensures Mix(0x3612_41cb_04b8_6af6, 0x789e_9d39_8d40_976c) == 0x7259_0a20_7216_ecae
  {
  }

  lemma XoredOnce()
    ensures Xor(0x0000_0300_0000_0519, 0x7259_0a20_7216_ecae) == 0x7259_0920_7216_e9b7
  {
  }

  lemma FoldTwo(h: bv64, x: bv64, y: bv64)
    ensures FoldElements(h, [x, y]) == Mix(Mix(h, x), y) && FoldMembers(h, [x, y]) == Xor(h, Mix(x, y))
  {
    hide Mix, Xor;
    assert [x, y][1..] == [y] && [y][1..] == [] && [x, y][2..] == [];
    assert FoldElements(Mix(Mix(h, x), y), []) == Mix(Mix(h, x), y);
    assert FoldElements(Mix(h, x), [y]) == FoldElements(Mix(Mix(h, x), y), []);
    assert FoldMembers(Xor(h, Mix(x, y)), []) == Xor(h, Mix(x, y));
  }

  lemma Lists()
    ensures [Null, Bool(true)][1..] == [Bool(true)] && [Bool(true), Null][1..] == [Null]
    ensures [Null][1..] == [] && [Bool(true)][1..] == []
  {
  }

  lemma ScalarCodes(bytes: NumberBytes)
    ensures HashOf(Null, bytes) == 0x789e_9d39_8d40_976c
    ensures HashOf(Bool(false), bytes) == 0x789e_9e39_8d40_991f
    ensures HashOf(Bool(true), bytes) == 0x789e_9f39_8d40_9ad2
    ensures HashOf(Real([]), bytes) == 0x789e_9b39_8d40_9406
    ensures HashOf(Array([]), bytes) == 0x0000_0400_0000_06cc && HashOf(Object([]), bytes) == 0x0000_0300_0000_0519
  {
    hide Mix;
    MixedKinds();
  }

  lemma WordOfA()
    ensures Word(LETTER_A) == 0x61
  {
  }

  lemma TextCode()
    ensures HashBuffer(STRING_TYPE, [LETTER_A]) == 0x3612_41cb_04b8_6af6
  {
    hide Mix, Word;
    MixedKinds();
    assert [LETTER_A][1..] == [];
    assert Word(LETTER_A) == 0x61 by { WordOfA(); }
    assert MixBytes(0x3612_41cb_04b8_6af6, []) == 0x3612_41cb_04b8_6af6;
  }

  /** The codes of [null, true] and of the same elements in the other order, and of {"a": null}. */
  lemma ReferenceCodes(bytes: NumberBytes)
    ensures HashOf(Array([Null, Bool(true)]), bytes) == 0x78f5_0720_703f_8cf6
    ensures HashOf(Array([Bool(true), Null]), bytes) == 0xf340_991f_b52f_21e2
    ensures HashOf(Object([Member([LETTER_A], Null)]), bytes) == 0x7259_0920_7216_e9b7
  {
    hide Mix, HashBuffer, Xor, FoldElements, FoldMembers;
    MixedKinds();
    MixedInside();
    XoredOnce();
    FoldTwo(Mix(0, OBJECT_TYPE), HashBuffer(STRING_TYPE, [LETTER_A]), HashOf(Null, bytes));
    Lists();
    ScalarCodes(bytes);
    TextCode();
    FoldTwo(Mix(0, ARRAY_TYPE), HashOf(Null, bytes), HashOf(Bool(true), bytes));
    FoldTwo(Mix(0, ARRAY_TYPE), HashOf(Bool(true), bytes), HashOf(Null, bytes));
    assert ElementHashes([Null, Bool(true)], bytes) == [HashOf(Null, bytes), HashOf(Bool(true), bytes)];
    assert ElementHashes([Bool(true), Null], bytes) == [HashOf(Bool(true), bytes), HashOf(Null, bytes)];
    var ms := [Member([LETTER_A], Null)];
    assert ms[1..] == [];
    assert MemberHashes(ms, bytes) == [HashBuffer(STRING_TYPE, [LETTER_A]), HashOf(Null, bytes)];
  }
}

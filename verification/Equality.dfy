/** GenericValue::operator== (document.h) and the Hasher of schema.h: both judge a value by what it means. */
module Equality {
  import opened Bytes
  import opened Json
  import opened Words

  // ---- operator== ----

  /** The 64-bit pattern of an integer. */
  function Pattern(n: Int64): nat {
    if n < 0 then n + UINT64_MAX + 1 else n
  }

  /** operator==. Doubles are compared by the numeral they were read from, which is not what the code does. */
  predicate Equal(a: JSON, b: JSON)
    decreases a, 1
  {
    match a
    case Null => b.Null?
    case Bool(x) => b.Bool? && x == b.b
    case Number(n) => b.Number? && Pattern(n) == Pattern(b.n)
    case Real(x) => b.Real? && x == b.lexeme
    case String(s) => b.String? && s == b.s
    case Array(vs) => b.Array? && |vs| == |b.elements| && ElementsEqual(vs, b.elements)
    case Object(ms) => b.Object? && |ms| == |b.members| && MembersEqual(ms, b.members)
  }

  predicate ElementsEqual(vs: seq<JSON>, ws: seq<JSON>)
    requires |vs| == |ws|
    decreases vs, 0
  {
    vs == [] || (Equal(vs[0], ws[0]) && ElementsEqual(vs[1..], ws[1..]))
  }

  /** Every member of the left object is found, equal, in the right one. */
  predicate MembersEqual(ms: seq<Member>, ns: seq<Member>)
    decreases ms, 0
  {
    ms == [] ||
    (var i := FindMember(ns, ms[0].name);
     i < |ns| && Equal(ms[0].value, ns[i].value) && MembersEqual(ms[1..], ns))
  }

  /** operator== with its two loops. */
  method Compare(a: JSON, b: JSON) returns (r: bool)
    ensures r == Equal(a, b)
    decreases a
  {
    if a.Object? && b.Object? {
      if |a.members| != |b.members| {
        return false;
      }
      var i := 0;
      assert a.members[0..] == a.members;
      while i < |a.members|
        invariant i <= |a.members| && MembersEqual(a.members, b.members) == MembersEqual(a.members[i..], b.members)
      {
        assert a.members[i..][1..] == a.members[i + 1..];
        var j := FindMember(b.members, a.members[i].name);
        if j == |b.members| {
          return false;
        }
        var same := Compare(a.members[i].value, b.members[j].value);
        if !same {
          return false;
        }
        i := i + 1;
      }
      return true;
    }
    if a.Array? && b.Array? {
      if |a.elements| != |b.elements| {
        return false;
      }
      var i := 0;
      assert a.elements[0..] == a.elements && b.elements[0..] == b.elements;
      while i < |a.elements|
        invariant i <= |a.elements| && ElementsEqual(a.elements, b.elements) ==
                  ElementsEqual(a.elements[i..], b.elements[i..])
      {
        assert a.elements[i..][1..] == a.elements[i + 1..] && b.elements[i..][1..] == b.elements[i + 1..];
        var same := Compare(a.elements[i], b.elements[i]);
        if !same {
          return false;
        }
        i := i + 1;
      }
      return true;
    }
    match a
    case Null => r := b.Null?;
    case Bool(x) => r := b.Bool? && x == b.b;
    case Number(n) => r := b.Number? && Pattern(n) == Pattern(b.n);
    case Real(x) => r := b.Real? && x == b.lexeme;
    case String(s) => r := b.String? && s == b.s;
    case _ => r := false;
  }

  // ---- What a value means ----

  /** Objects are maps: the order of members is no part of the meaning. */
  datatype Meaning =
    | MNull
    | MBool(b: bool)
    | MNumber(n: int)
    | MReal(lexeme: Text)
    | MString(s: Text)
    | MArray(elements: seq<Meaning>)
    | MObject(members: map<Text, Meaning>)

  function MeaningOf(v: JSON): Meaning
    decreases v, 1
  {
    match v
    case Null => MNull
    case Bool(b) => MBool(b)
    case Number(n) => MNumber(n)
    case Real(x) => MReal(x)
    case String(s) => MString(s)
    case Array(vs) => MArray(ElementsMeaning(vs))
    case Object(ms) => MObject(MembersMeaning(ms))
  }

  function ElementsMeaning(vs: seq<JSON>): (r: seq<Meaning>)
    ensures |r| == |vs|
    decreases vs, 0
  {
    if vs == [] then [] else [MeaningOf(vs[0])] + ElementsMeaning(vs[1..])
  }

  /** Of members with the same name the first counts. */
  function MembersMeaning(ms: seq<Member>): map<Text, Meaning>
    decreases ms, 0
  {
    if ms == [] then map[] else MembersMeaning(ms[1..])[ms[0].name := MeaningOf(ms[0].value)]
  }

  /** Distinct member names at every level, no doubles, and integers that are int64_t values. */
  predicate Proper(v: JSON)
    decreases v, 1
  {
    match v
    case Number(n) => n <= INT64_MAX
    case Real(_) => false
    case Array(vs) => AllProper(vs)
    case Object(ms) => MembersProper(ms)
    case _ => true
  }

  predicate AllProper(vs: seq<JSON>)
    decreases vs, 0
  {
    vs == [] || (Proper(vs[0]) && AllProper(vs[1..]))
  }

  predicate MembersProper(ms: seq<Member>)
    decreases ms, 0
  {
    ms == [] || (Proper(ms[0].value) && FindMember(ms[1..], ms[0].name) == |ms| - 1 && MembersProper(ms[1..]))
  }

  lemma PatternExact(m: Int64, n: Int64)
    ensures Pattern(m) == Pattern(n) <==> m == n || m - n == UINT64_MAX + 1 || n - m == UINT64_MAX + 1
    ensures m <= INT64_MAX && n <= INT64_MAX ==> (Pattern(m) == Pattern(n) <==> m == n)
  {
  }

  lemma {:induction false} MeaningFound(ms: seq<Member>, name: Text)
    ensures name in MembersMeaning(ms) <==> FindMember(ms, name) < |ms|
    ensures name in MembersMeaning(ms) ==> MembersMeaning(ms)[name] == MeaningOf(ms[FindMember(ms, name)].value)
    decreases |ms|
  {
    hide MeaningOf;
    if ms != [] {
      MeaningFound(ms[1..], name);
    }
  }

  /** With distinct names there are as many names as members. */
  lemma {:induction false} NamesCounted(ms: seq<Member>)
    requires MembersProper(ms)
    ensures |MembersMeaning(ms).Keys| == |ms|
    decreases |ms|
  {
    hide MeaningOf, Proper;
    if ms != [] {
      NamesCounted(ms[1..]);
      MeaningFound(ms[1..], ms[0].name);
      assert MembersMeaning(ms).Keys == MembersMeaning(ms[1..]).Keys + {ms[0].name};
    }
  }

  lemma SameKeys<T>(a: set<T>, b: set<T>)
    requires a <= b && |a| == |b|
    ensures a == b
  {
    assert b == a + (b - a);
    assert |b - a| == 0;
  }

  /** On proper values operator== is equality of meaning. */
  lemma {:induction false} EqualIsMeaning(a: JSON, b: JSON)
    requires Proper(a) && Proper(b)
    ensures Equal(a, b) <==> MeaningOf(a) == MeaningOf(b)
    decreases a, 1
  {
    hide FindMember, ElementsMeaning, MembersMeaning, ElementsEqual, MembersEqual;
    match a
    case Number(m) =>
      if b.Number? {
        PatternExact(m, b.n);
      }
    case Array(vs) =>
      if b.Array? && |vs| == |b.elements| {
        ElementsEqualIsMeaning(vs, b.elements);
      }
    case Object(ms) =>
      if b.Object? {
        NamesCounted(ms);
        NamesCounted(b.members);
        if |ms| == |b.members| {
          MembersEqualIsMeaning(ms, b.members);
          var l, r := MembersMeaning(ms), MembersMeaning(b.members);
          if Included(l, r) {
            SameKeys(l.Keys, r.Keys);
            assert l == r;
          }
        }
      }
    case _ =>
  }

  predicate Included(l: map<Text, Meaning>, r: map<Text, Meaning>) {
    l.Keys <= r.Keys && forall k :: k in l ==> l[k] == r[k]
  }

  lemma {:induction false} ElementsEqualIsMeaning(vs: seq<JSON>, ws: seq<JSON>)
    requires |vs| == |ws| && AllProper(vs) && AllProper(ws)
    ensures ElementsEqual(vs, ws) <==> ElementsMeaning(vs) == ElementsMeaning(ws)
    decreases vs, 0
  {
    hide MeaningOf, Proper, Equal;
    if vs != [] {
      EqualIsMeaning(vs[0], ws[0]);
      ElementsEqualIsMeaning(vs[1..], ws[1..]);
      var l, r := ElementsMeaning(vs), ElementsMeaning(ws);
      assert l[0] == MeaningOf(vs[0]) && l[1..] == ElementsMeaning(vs[1..]);
      assert r[0] == MeaningOf(ws[0]) && r[1..] == ElementsMeaning(ws[1..]);
    }
  }

  lemma {:induction false} MemberProper(ms: seq<Member>, i: nat)
    requires MembersProper(ms) && i < |ms|
    ensures Proper(ms[i].value)
    decreases |ms|
  {
    hide Proper, FindMember;
    if i > 0 {
      MemberProper(ms[1..], i - 1);
    }
  }

  lemma {:induction false} MembersEqualIsMeaning(ms: seq<Member>, ns: seq<Member>)
    requires MembersProper(ms) && MembersProper(ns)
    ensures MembersEqual(ms, ns) <==> Included(MembersMeaning(ms), MembersMeaning(ns))
    decreases ms, 0
  {
    hide MeaningOf, Proper, Equal, FindMember;
    if ms != [] {
      var name := ms[0].name;
      var i := FindMember(ns, name);
      MeaningFound(ns, name);
      MeaningFound(ms[1..], name);
      if i < |ns| {
        MemberProper(ns, i);
        EqualIsMeaning(ms[0].value, ns[i].value);
      }
      MembersEqualIsMeaning(ms[1..], ns);
      var l, rest, r := MembersMeaning(ms), MembersMeaning(ms[1..]), MembersMeaning(ns);
      assert l == rest[name := MeaningOf(ms[0].value)] && name !in rest;
      IncludedMore(rest, name, MeaningOf(ms[0].value), r);
    }
  }

  lemma IncludedMore(l: map<Text, Meaning>, k: Text, m: Meaning, r: map<Text, Meaning>)
    requires k !in l
    ensures Included(l[k := m], r) <==> k in r && r[k] == m && Included(l, r)
  {
    var all := l[k := m];
    if Included(all, r) {
      assert k in all.Keys && all[k] == r[k];
      forall j | j in l ensures j in r && l[j] == r[j] {
        assert j in all.Keys && all[j] == l[j];
      }
    }
  }

  /** On proper values operator== is an equivalence. */
  lemma EqualIsEquivalence(a: JSON, b: JSON, c: JSON)
    requires Proper(a) && Proper(b) && Proper(c)
    ensures Equal(a, a) && (Equal(a, b) ==> Equal(b, a)) && (Equal(a, b) && Equal(b, c) ==> Equal(a, c))
  {
    hide Equal, MeaningOf, Proper;
    EqualIsMeaning(a, a);
    EqualIsMeaning(a, b);
    EqualIsMeaning(b, a);
    EqualIsMeaning(b, c);
    EqualIsMeaning(a, c);
  }

  /** Two orders of the same members, names distinct, make equal objects. */
  lemma OrderIgnored(ms: seq<Member>, ns: seq<Member>)
    requires MembersProper(ms) && MembersProper(ns) && multiset(ms) == multiset(ns)
    ensures Equal(Object(ms), Object(ns))
  {
    hide MeaningOf, Proper, FindMember, MembersMeaning, Equal, MembersProper;
    ObjectProper(ms);
    ObjectProper(ns);
    EqualIsMeaning(Object(ms), Object(ns));
    var l, r := MembersMeaning(ms), MembersMeaning(ns);
    forall k ensures k in l <==> k in r {
      MeaningFound(ms, k);
      MeaningFound(ns, k);
      SameMember(ms, ns, k);
      SameMember(ns, ms, k);
    }
    forall k | k in l ensures l[k] == r[k] {
      MeaningFound(ms, k);
      MeaningFound(ns, k);
      SameMember(ms, ns, k);
    }
    assert l == r;
    assert MeaningOf(Object(ms)) == MObject(l) &&
           MeaningOf(Object(ns)) == MObject(r) by { ObjectMeaning(ms); ObjectMeaning(ns); }
  }

  lemma ObjectProper(ms: seq<Member>)
    ensures Proper(Object(ms)) == MembersProper(ms)
  {
  }

  lemma ObjectMeaning(ms: seq<Member>)
    ensures MeaningOf(Object(ms)) == MObject(MembersMeaning(ms))
  {
  }

  lemma SameMember(ms: seq<Member>, ns: seq<Member>, k: Text)
    requires MembersProper(ns) && multiset(ms) == multiset(ns)
    ensures FindMember(ms, k) < |ms| ==> FindMember(ns, k) < |ns| && ns[FindMember(ns, k)] == ms[FindMember(ms, k)]
  {
    hide Proper, MembersProper;
    var i := FindMember(ms, k);
    if i < |ms| {
      assert ms[i] in multiset(ns);
      var j :| 0 <= j < |ns| && ns[j] == ms[i];
      OnlyMember(ns, j);
    }
  }

  lemma {:induction false} OnlyMember(ns: seq<Member>, j: nat)
    requires MembersProper(ns) && j < |ns|
    ensures FindMember(ns, ns[j].name) == j
    decreases |ns|
  {
    hide Proper;
    if j > 0 {
      OnlyMember(ns[1..], j - 1);
    }
  }

  /** With a repeated name operator== is neither symmetric nor, against the note at its declaration, always false. */
  lemma RepeatedNames()
    ensures var twice := Object([Member([LETTER_A], Null), Member([LETTER_A], Null)]);
            var other := Object([Member([LETTER_A], Null), Member([LETTER_B], Null)]);
            Equal(twice, twice) && Equal(twice, other) && !Equal(other, twice)
  {
    var a, b := Member([LETTER_A], Null), Member([LETTER_B], Null);
    assert [LETTER_A][0] != [LETTER_B][0];
    assert [a, a] == [a] + [a] && [a] == [a] + [] && [a, b] == [a] + [b] && [b] == [b] + [];
    assert FindMember([a, a], [LETTER_A]) == 0 && FindMember([a, b], [LETTER_A]) == 0;
    assert FindMember([a, a], [LETTER_B]) == 2 by { NotFoundTwice(a, [LETTER_B]); }
    assert Equal(Null, Null);
    hide MembersEqual, FindMember;
    NoMembersEqual([a, a]);
    NoMembersEqual([a, b]);
    MembersEqualFirst(a, [], [a, a]);
    MembersEqualFirst(a, [a], [a, a]);
    MembersEqualFirst(a, [], [a, b]);
    MembersEqualFirst(a, [a], [a, b]);
    MembersEqualFirst(b, [], [a, a]);
    MembersEqualFirst(a, [b], [a, a]);
  }

  lemma NoMembersEqual(ns: seq<Member>)
    ensures MembersEqual([], ns)
  {
  }

  lemma MembersEqualFirst(m: Member, ms: seq<Member>, ns: seq<Member>)
    ensures var i := FindMember(ns, m.name);
            MembersEqual([m] + ms, ns) <==> i < |ns| && Equal(m.value, ns[i].value) && MembersEqual(ms, ns)
  {
    hide Equal;
    assert ([m] + ms)[1..] == ms;
  }

  lemma NotFoundTwice(m: Member, name: Text)
    requires m.name != name
    ensures FindMember([m, m], name) == 2
  {
    assert [m, m][1..] == [m] && [m][1..] == [];
    assert FindMember([m], name) == 1;
  }

  // ---- Hasher ----

  const OFFSET_BASIS: bv64 := 0x8422_2325_cbf2_9ce4

  /** The product with kPrime. */
  function TimesPrime(x: bv64): bv64 {
    x * 0x0000_0100_0000_01b3
  }

  /** Hasher::Hash, in 64-bit arithmetic. */
  function Mix(h: bv64, d: bv64): bv64 {
    TimesPrime(Xor(h, d))
  }

  const NULL_TYPE: bv64 := 0
  const FALSE_TYPE: bv64 := 1
  const TRUE_TYPE: bv64 := 2
  const OBJECT_TYPE: bv64 := 3
  const ARRAY_TYPE: bv64 := 4
  const STRING_TYPE: bv64 := 5
  const NUMBER_TYPE: bv64 := 6

  /** A byte widened to 64 bits. */
  function Word(c: Byte): bv64 {
    c as bv64
  }

  function MixBytes(h: bv64, data: Text): bv64
    decreases |data|
  {
    if data == [] then h else MixBytes(Mix(h, Word(data[0])), data[1..])
  }

  /** WriteBuffer: FNV-1a over the type and the bytes. */
  function HashBuffer(kind: bv64, data: Text): bv64 {
    MixBytes(Mix(OFFSET_BASIS, kind), data)
  }

  /** The bytes of struct Number for an integer: they depend on its value only. */
  type NumberBytes = Int64 -> Text

  function HashOf(v: JSON, bytes: NumberBytes): bv64
    decreases v, 1
  {
    match v
    case Null => HashBuffer(NULL_TYPE, [])
    case Bool(b) => HashBuffer(if b then TRUE_TYPE else FALSE_TYPE, [])
    case Number(n) => HashBuffer(NUMBER_TYPE, bytes(n))
    case Real(x) => HashBuffer(NUMBER_TYPE, x)
    case String(s) => HashBuffer(STRING_TYPE, s)
    case Array(vs) => FoldElements(Mix(0, ARRAY_TYPE), ElementHashes(vs, bytes))
    case Object(ms) => FoldMembers(Mix(0, OBJECT_TYPE), MemberHashes(ms, bytes))
  }

  function ElementHashes(vs: seq<JSON>, bytes: NumberBytes): (r: seq<bv64>)
    ensures |r| == |vs|
    decreases vs, 0
  {
    if vs == [] then [] else [HashOf(vs[0], bytes)] + ElementHashes(vs[1..], bytes)
  }

  /** Name and value hashes as they lie on the stack. */
  function MemberHashes(ms: seq<Member>, bytes: NumberBytes): (r: seq<bv64>)
    ensures |r| == 2 * |ms|
    decreases ms, 0
  {
    if ms == [] then []
    else [HashBuffer(STRING_TYPE, ms[0].name), HashOf(ms[0].value, bytes)] + MemberHashes(ms[1..], bytes)
  }

  /** The loop of EndArray: the order counts. */
  function FoldElements(h: bv64, es: seq<bv64>): bv64
    decreases |es|
  {
    if es == [] then h else FoldElements(Mix(h, es[0]), es[1..])
  }

  /** The loop of EndObject: exclusive or, so that the order does not count. */
  function FoldMembers(h: bv64, kv: seq<bv64>): bv64
    decreases |kv|
  {
    if |kv| < 2 then h else FoldMembers(Xor(h, Mix(kv[0], kv[1])), kv[2..])
  }

  /** The fold started elsewhere. */
  lemma {:induction false} FoldFrom(h: bv64, g: bv64, kv: seq<bv64>)
    ensures FoldMembers(Xor(h, g), kv) == Xor(FoldMembers(h, kv), g)
    decreases |kv|
  {
    hide Mix, Xor;
    if |kv| >= 2 {
      var x := Mix(kv[0], kv[1]);
      XorSwap(h, g, x);
      FoldFrom(Xor(h, x), g, kv[2..]);
    }
  }

  function MemberHash(m: Member, bytes: NumberBytes): bv64 {
    Mix(HashBuffer(STRING_TYPE, m.name), HashOf(m.value, bytes))
  }

  lemma FoldFirst(h: bv64, m: Member, ms: seq<Member>, bytes: NumberBytes)
    ensures FoldMembers(h, MemberHashes([m] + ms, bytes)) ==
            Xor(FoldMembers(h, MemberHashes(ms, bytes)), MemberHash(m, bytes))
  {
    hide Mix, HashOf, Xor, HashBuffer;
    assert ([m] + ms)[1..] == ms;
    var kv := MemberHashes([m] + ms, bytes);
    assert kv[2..] == MemberHashes(ms, bytes);
    FoldFrom(h, MemberHash(m, bytes), kv[2..]);
  }

  /** Any member may be folded last. */
  lemma {:induction false} FoldAny(h: bv64, ms: seq<Member>, i: nat, bytes: NumberBytes)
    requires i < |ms|
    ensures FoldMembers(h, MemberHashes(ms, bytes)) ==
            Xor(FoldMembers(h, MemberHashes(ms[..i] + ms[i + 1..], bytes)), MemberHash(ms[i], bytes))
    decreases i
  {
    hide MemberHashes, MemberHash, FoldMembers, Xor;
    var rest := ms[1..];
    assert ms == [ms[0]] + rest;
    FoldFirst(h, ms[0], rest, bytes);
    if i == 0 {
      assert ms[..0] + ms[1..] == rest;
    } else {
      FoldAny(h, rest, i - 1, bytes);
      var without := rest[..i - 1] + rest[i..];
      assert ms[..i] + ms[i + 1..] == [ms[0]] + without;
      FoldFirst(h, ms[0], without, bytes);
      XorSwap(FoldMembers(h, MemberHashes(without, bytes)), MemberHash(ms[i], bytes), MemberHash(ms[0], bytes));
    }
  }

  /** Equal values have equal hash codes. */
  lemma {:induction false} EqualHash(a: JSON, b: JSON, bytes: NumberBytes)
    requires Proper(a) && Proper(b) && Equal(a, b)
    ensures HashOf(a, bytes) == HashOf(b, bytes)
    decreases a, 1
  {
    hide HashBuffer, Mix, FoldElements, FoldMembers, ElementHashes, MemberHashes, ElementsEqual, MembersEqual;
    match a
    case Number(n) => PatternExact(n, b.n);
    case Array(vs) => EqualElementHashes(vs, b.elements, bytes);
    case Object(ms) => EqualMemberHashes(Mix(0, OBJECT_TYPE), ms, b.members, bytes);
    case _ =>
  }

  lemma {:induction false} EqualElementHashes(vs: seq<JSON>, ws: seq<JSON>, bytes: NumberBytes)
    requires |vs| == |ws| && AllProper(vs) && AllProper(ws) && ElementsEqual(vs, ws)
    ensures ElementHashes(vs, bytes) == ElementHashes(ws, bytes)
    decreases vs, 0
  {
    hide HashOf, Proper, Equal;
    if vs != [] {
      EqualHash(vs[0], ws[0], bytes);
      EqualElementHashes(vs[1..], ws[1..], bytes);
    }
  }

  /** The right object without the member found for the first one of the left still has an equal for all the others. */
  lemma {:induction false} Without(ms: seq<Member>, ns: seq<Member>, name: Text)
    requires FindMember(ns, name) < |ns| && FindMember(ms, name) == |ms| && MembersEqual(ms, ns)
    ensures var i := FindMember(ns, name); MembersEqual(ms, ns[..i] + ns[i + 1..])
    decreases |ms|
  {
    hide Equal;
    if ms != [] {
      var i, j := FindMember(ns, name), FindMember(ns, ms[0].name);
      FindWithout(ns, i, ms[0].name);
      Without(ms[1..], ns, name);
    }
  }

  lemma {:induction false} FindWithout(ns: seq<Member>, i: nat, name: Text)
    requires i < |ns| && FindMember(ns, name) < |ns| && ns[i].name != name
    ensures var j, rest := FindMember(ns, name), ns[..i] + ns[i + 1..];
            var k := FindMember(rest, name);
            k < |rest| && rest[k] == ns[j]
    decreases i
  {
    if i == 0 {
      assert ns[..0] + ns[1..] == ns[1..];
    } else {
      assert (ns[..i] + ns[i + 1..])[1..] == ns[1..][..i - 1] + ns[1..][i..];
      if ns[0].name != name {
        FindWithout(ns[1..], i - 1, name);
      }
    }
  }

  lemma {:induction false} ProperWithout(ns: seq<Member>, i: nat)
    requires MembersProper(ns) && i < |ns|
    ensures MembersProper(ns[..i] + ns[i + 1..])
    decreases i
  {
    hide Proper;
    if i == 0 {
      assert ns[..0] + ns[1..] == ns[1..];
    } else {
      var rest := ns[..i] + ns[i + 1..];
      assert rest[1..] == ns[1..][..i - 1] + ns[1..][i..];
      ProperWithout(ns[1..], i - 1);
      NotFoundWithout(ns[1..], i - 1, ns[0].name);
    }
  }

  lemma {:induction false} NotFoundWithout(ns: seq<Member>, i: nat, name: Text)
    requires i < |ns| && FindMember(ns, name) == |ns|
    ensures FindMember(ns[..i] + ns[i + 1..], name) == |ns| - 1
    decreases i
  {
    if i == 0 {
      assert ns[..0] + ns[1..] == ns[1..];
    } else {
      assert (ns[..i] + ns[i + 1..])[1..] == ns[1..][..i - 1] + ns[1..][i..];
      NotFoundWithout(ns[1..], i - 1, name);
    }
  }

  lemma {:induction false} EqualMemberHashes(h: bv64, ms: seq<Member>, ns: seq<Member>, bytes: NumberBytes)
    requires |ms| == |ns| && MembersProper(ms) && MembersProper(ns) && MembersEqual(ms, ns)
    ensures FoldMembers(h, MemberHashes(ms, bytes)) == FoldMembers(h, MemberHashes(ns, bytes))
    decreases ms, 0
  {
    hide HashOf, HashBuffer, Mix, Xor, Proper, Equal, FoldMembers, MemberHashes, FindMember;
    if ms == [] {
      assert ns == [];
    } else {
      var m, i := ms[0], FindMember(ns, ms[0].name);
      var rest := ns[..i] + ns[i + 1..];
      assert ms == [m] + ms[1..];
      FoldFirst(h, m, ms[1..], bytes);
      FoldAny(h, ns, i, bytes);
      Without(ms[1..], ns, m.name);
      ProperWithout(ns, i);
      EqualMemberHashes(h, ms[1..], rest, bytes);
      MemberProper(ns, i);
      EqualHash(m.value, ns[i].value, bytes);
    }
  }

  // ---- The hasher as a handler ----

  /** One call; None where the stack would underflow. */
  function HashStep(stack: seq<bv64>, e: Event, bytes: NumberBytes): Option<seq<bv64>> {
    match e
    case ENull => Some(stack + [HashBuffer(NULL_TYPE, [])])
    case EBool(b) => Some(stack + [HashBuffer(if b then TRUE_TYPE else FALSE_TYPE, [])])
    case EInt(n) => HashInteger(stack, n, bytes)
    case EUint(n) => HashInteger(stack, n, bytes)
    case EInt64(n) => HashInteger(stack, n, bytes)
    case EUint64(n) => HashInteger(stack, n, bytes)
    case EDouble(x) => Some(stack + [HashBuffer(NUMBER_TYPE, x)])
    case ERawNumber(s) => Some(stack + [HashBuffer(NUMBER_TYPE, s)])
    case EString(s) => Some(stack + [HashBuffer(STRING_TYPE, s)])
    case EKey(s) => Some(stack + [HashBuffer(STRING_TYPE, s)])
    case EStartObject => Some(stack)
    case EStartArray => Some(stack)
    case EEndObject(n) =>
      if |stack| < 2 * n then None
          else Some(stack[..|stack| - 2 * n] + [FoldMembers(Mix(0, OBJECT_TYPE), stack[|stack| - 2 * n..])])
    case EEndArray(n) =>
      if |stack| < n then None
          else Some(stack[..|stack| - n] + [FoldElements(Mix(0, ARRAY_TYPE), stack[|stack| - n..])])
  }

  function HashInteger(stack: seq<bv64>, n: int, bytes: NumberBytes): Option<seq<bv64>> {
    if INT64_MIN <= n <= UINT64_MAX then Some(stack + [HashBuffer(NUMBER_TYPE, bytes(n))]) else None
  }

  function HashRun(stack: seq<bv64>, es: seq<Event>, bytes: NumberBytes): Option<seq<bv64>>
    decreases |es|
  {
    if es == [] then Some(stack)
    else
      var s := HashStep(stack, es[0], bytes);
      if s.None? then None else HashRun(s.value, es[1..], bytes)
  }

  lemma {:induction false} HashConcat(stack: seq<bv64>, a: seq<Event>, b: seq<Event>, bytes: NumberBytes)
    ensures HashRun(stack, a + b, bytes) == if HashRun(stack, a, bytes).None? then None
            else HashRun(HashRun(stack, a, bytes).value, b, bytes)
    decreases |a|
  {
    hide HashStep;
    if a == [] {
      assert a + b == b;
    } else {
      assert (a + b)[1..] == a[1..] + b;
      var s := HashStep(stack, a[0], bytes);
      if s.Some? {
        HashConcat(s.value, a[1..], b, bytes);
      }
    }
  }

  lemma HashOne(stack: seq<bv64>, e: Event, bytes: NumberBytes)
    ensures HashRun(stack, [e], bytes) == HashStep(stack, e, bytes)
  {
    hide HashStep;
    assert [e][1..] == [];
  }

  lemma EndArrayHash(stack: seq<bv64>, es: seq<bv64>, bytes: NumberBytes)
    ensures HashStep(stack + es, EEndArray(|es|), bytes) == Some(stack + [FoldElements(Mix(0, ARRAY_TYPE), es)])
  {
    hide Mix, FoldElements;
    var s := stack + es;
    assert s[..|s| - |es|] == stack && s[|s| - |es|..] == es;
  }

  lemma EndObjectHash(stack: seq<bv64>, kv: seq<bv64>, n: nat, bytes: NumberBytes)
    requires |kv| == 2 * n
    ensures HashStep(stack + kv, EEndObject(n), bytes) == Some(stack + [FoldMembers(Mix(0, OBJECT_TYPE), kv)])
  {
    hide Mix, FoldMembers;
    var s := stack + kv;
    assert s[..|s| - 2 * n] == stack && s[|s| - 2 * n..] == kv;
  }

  /** Streaming a value through the hasher leaves exactly its hash code behind. */
  lemma {:induction false} StreamedHash(stack: seq<bv64>, v: JSON, bytes: NumberBytes)
    ensures HashRun(stack, Events(v), bytes) == Some(stack + [HashOf(v, bytes)])
    decreases v, 1
  {
    hide HashRun, HashBuffer, Mix, FoldElements, FoldMembers, ElementHashes, MemberHashes;
    match v
    case Array(vs) =>
      HashOne(stack, EStartArray, bytes);
      HashConcat(stack, [EStartArray], ElementEvents(vs), bytes);
      StreamedElements(stack, vs, bytes);
      EndArrayHash(stack, ElementHashes(vs, bytes), bytes);
      HashOne(stack + ElementHashes(vs, bytes), EEndArray(|vs|), bytes);
      HashConcat(stack, [EStartArray] + ElementEvents(vs), [EEndArray(|vs|)], bytes);
    case Object(ms) =>
      HashOne(stack, EStartObject, bytes);
      HashConcat(stack, [EStartObject], MemberEvents(ms), bytes);
      StreamedMembers(stack, ms, bytes);
      EndObjectHash(stack, MemberHashes(ms, bytes), |ms|, bytes);
      HashOne(stack + MemberHashes(ms, bytes), EEndObject(|ms|), bytes);
      HashConcat(stack, [EStartObject] + MemberEvents(ms), [EEndObject(|ms|)], bytes);
    case _ => HashOne(stack, Events(v)[0], bytes);
  }

  lemma {:induction false} StreamedElements(stack: seq<bv64>, vs: seq<JSON>, bytes: NumberBytes)
    ensures HashRun(stack, ElementEvents(vs), bytes) == Some(stack + ElementHashes(vs, bytes))
    decreases vs, 0
  {
    hide HashStep, HashOf, Events;
    if vs == [] {
      assert stack + ElementHashes(vs, bytes) == stack;
    } else {
      StreamedHash(stack, vs[0], bytes);
      var next := stack + [HashOf(vs[0], bytes)];
      StreamedElements(next, vs[1..], bytes);
      HashConcat(stack, Events(vs[0]), ElementEvents(vs[1..]), bytes);
      Assoc(stack, [HashOf(vs[0], bytes)], ElementHashes(vs[1..], bytes));
    }
  }

  lemma {:induction false} StreamedMembers(stack: seq<bv64>, ms: seq<Member>, bytes: NumberBytes)
    ensures HashRun(stack, MemberEvents(ms), bytes) == Some(stack + MemberHashes(ms, bytes))
    decreases ms, 0
  {
    hide HashOf, Events, HashBuffer, HashRun;
    if ms == [] {
      assert stack + MemberHashes(ms, bytes) == stack;
      NothingHashed(stack, bytes);
    } else {
      var key, es := EKey(ms[0].name), Events(ms[0].value);
      var name, value := HashBuffer(STRING_TYPE, ms[0].name), HashOf(ms[0].value, bytes);
      HashOne(stack, key, bytes);
      StreamedHash(stack + [name], ms[0].value, bytes);
      StreamedMembers(stack + [name] + [value], ms[1..], bytes);
      HashConcat(stack, [key], es, bytes);
      HashConcat(stack, [key] + es, MemberEvents(ms[1..]), bytes);
      assert stack + [name] + [value] + MemberHashes(ms[1..], bytes) == stack + MemberHashes(ms, bytes);
    }
  }

  lemma NothingHashed(stack: seq<bv64>, bytes: NumberBytes)
    ensures HashRun(stack, [], bytes) == Some(stack)
  {
  }

  /** Equal values stream to equal hash codes, whatever the order of their members. */
  lemma EqualStreamsHashEqual(a: JSON, b: JSON, bytes: NumberBytes)
    requires Proper(a) && Proper(b) && Equal(a, b)
    ensures HashRun([], Events(a), bytes) == HashRun([], Events(b), bytes) == Some([HashOf(a, bytes)])
  {
    hide HashRun, HashOf, Equal, Proper, Events;
    StreamedHash([], a, bytes);
    StreamedHash([], b, bytes);
    EqualHash(a, b, bytes);
    assert [] + [HashOf(a, bytes)] == [HashOf(a, bytes)];
  }

  lemma FoldStep(h: bv64, kv: seq<bv64>, i: nat)
    requires 2 * i + 1 < |kv|
    ensures FoldMembers(h, kv[2 * i..]) == FoldMembers(Xor(h, Mix(kv[2 * i], kv[2 * i + 1])), kv[2 * (i + 1)..])
  {
    hide Mix, Xor;
    assert kv[2 * i..][2..] == kv[2 * (i + 1)..];
  }

  lemma FoldNone(h: bv64, kv: seq<bv64>)
    requires |kv| < 2
    ensures FoldMembers(h, kv) == h
  {
  }

  /** The hasher's object: its stack and the two loops. */
  class Hasher {
    var stack: seq<bv64>
    const bytes: NumberBytes

    constructor (bytes: NumberBytes)
      ensures stack == [] && this.bytes == bytes
    {
      stack := [];
      this.bytes := bytes;
    }

    method WriteBuffer(kind: bv64, data: Text)
      modifies `stack
      ensures stack == old(stack) + [HashBuffer(kind, data)]
    {
      hide Mix;
      var h := Mix(OFFSET_BASIS, kind);
      var i := 0;
      assert data[0..] == data;
      while i < |data|
        invariant i <= |data| && MixBytes(h, data[i..]) == HashBuffer(kind, data)
      {
        assert data[i..][1..] == data[i + 1..];
        h := Mix(h, Word(data[i]));
        i := i + 1;
      }
      stack := stack + [h];
    }

    method EndObject(memberCount: nat)
      requires |stack| >= 2 * memberCount
      modifies `stack
      ensures HashStep(old(stack), EEndObject(memberCount), bytes) == Some(stack)
    {
      hide Mix, Xor, FoldMembers, HashStep;
      var base := |stack| - 2 * memberCount;
      var below, kv := stack[..base], stack[base..];
      assert stack == below + kv;
      var h := Mix(0, OBJECT_TYPE);
      var i := 0;
      assert kv[0..] == kv;
      while i < memberCount
        invariant i <= memberCount && FoldMembers(h, kv[2 * i..]) == FoldMembers(Mix(0, OBJECT_TYPE), kv)
      {
        FoldStep(h, kv, i);
        h := Xor(h, Mix(kv[2 * i], kv[2 * i + 1]));
        i := i + 1;
      }
      FoldNone(h, kv[2 * memberCount..]);
      EndObjectHash(below, kv, memberCount, bytes);
      stack := below + [h];
    }

    method EndArray(elementCount: nat)
      requires |stack| >= elementCount
      modifies `stack
      ensures HashStep(old(stack), EEndArray(elementCount), bytes) == Some(stack)
    {
      hide Mix;
      var es := stack[|stack| - elementCount..];
      var h := Mix(0, ARRAY_TYPE);
      var i := 0;
      assert es[0..] == es;
      while i < elementCount
        invariant i <= elementCount && FoldElements(h, es[i..]) == FoldElements(Mix(0, ARRAY_TYPE), es)
      {
        assert es[i..][1..] == es[i + 1..];
        h := Mix(h, es[i]);
        i := i + 1;
      }
      stack := stack[..|stack| - elementCount] + [h];
    }
  }
}

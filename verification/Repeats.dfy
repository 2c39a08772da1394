/** operator== on objects with repeated member names: what it never equals, when it is reflexive, and when symmetric. */
module Repeats {
  import opened Bytes
  import opened Json
  import opened Equality

  /** The first member of the name has an equal value. */
  predicate Matched(m: Member, ns: seq<Member>) {
    var i := FindMember(ns, m.name);
    i < |ns| && Equal(m.value, ns[i].value)
  }

  lemma {:induction false} MembersEqualAll(ms: seq<Member>, ns: seq<Member>)
    ensures MembersEqual(ms, ns) <==> forall i :: 0 <= i < |ms| ==> Matched(ms[i], ns)
    decreases |ms|
  {
    hide FindMember, Equal;
    if ms != [] {
      MembersEqualAll(ms[1..], ns);
      assert MembersEqual(ms, ns) <==> Matched(ms[0], ns) && MembersEqual(ms[1..], ns);
      if MembersEqual(ms, ns) {
        forall i | 0 <= i < |ms| ensures Matched(ms[i], ns) {
          if i > 0 {
            assert ms[i] == ms[1..][i - 1];
          }
        }
      } else if Matched(ms[0], ns) {
        var i :| 0 <= i < |ms[1..]| && !Matched(ms[1..][i], ns);
        assert !Matched(ms[i + 1], ns);
      }
    }
  }

  lemma ObjectsEqual(ms: seq<Member>, ns: seq<Member>)
    ensures Equal(Object(ms), Object(ns)) <==> |ms| == |ns| && forall i :: 0 <= i < |ms| ==> Matched(ms[i], ns)
  {
    hide FindMember, MembersEqual, Matched;
    MembersEqualAll(ms, ns);
  }

  // ---- Never equal ----

  function Names(ms: seq<Member>): set<Text> {
    set m | m in ms :: m.name
  }

  /** No name is repeated. */
  predicate Distinct(ms: seq<Member>) {
    forall i, j :: 0 <= i < j < |ms| ==> ms[i].name != ms[j].name
  }

  lemma Named(ms: seq<Member>, name: Text)
    ensures name in Names(ms) <==> FindMember(ms, name) < |ms|
    ensures name in Names(ms) ==> ms[FindMember(ms, name)].name == name
  {
    var i := FindMember(ms, name);
    if i < |ms| {
      assert ms[i] in ms;
    }
  }

  lemma NamesFirst(ms: seq<Member>)
    requires ms != []
    ensures Names(ms) == Names(ms[1..]) + {ms[0].name}
  {
    assert ms == [ms[0]] + ms[1..];
  }

  lemma DistinctFirst(ms: seq<Member>)
    requires ms != []
    ensures Distinct(ms) <==> Distinct(ms[1..]) && ms[0].name !in Names(ms[1..])
  {
    var rest := ms[1..];
    if Distinct(ms) {
      forall m | m in rest ensures m.name != ms[0].name {
        var j :| 0 <= j < |rest| && rest[j] == m;
        assert m == ms[j + 1];
      }
    }
    if Distinct(rest) && ms[0].name !in Names(rest) {
      forall i, j | 0 <= i < j < |ms| ensures ms[i].name != ms[j].name {
        assert ms[j] == rest[j - 1] && rest[j - 1] in rest;
        assert i > 0 ==> ms[i] == rest[i - 1];
      }
    }
  }

  /** There are as many names as members exactly if none is repeated. */
  lemma {:induction false} NamesCounted(ms: seq<Member>)
    ensures |Names(ms)| <= |ms|
    ensures |Names(ms)| == |ms| <==> Distinct(ms)
    decreases |ms|
  {
    if ms != [] {
      hide Names, Distinct;
      NamesFirst(ms);
      DistinctFirst(ms);
      NamesCounted(ms[1..]);
      if ms[0].name in Names(ms[1..]) {
        assert Names(ms) == Names(ms[1..]);
      }
    }
  }

  /** The names of the left object all occur in the right one. */
  lemma NamesFound(ms: seq<Member>, ns: seq<Member>)
    requires Equal(Object(ms), Object(ns))
    ensures |ms| == |ns| && Names(ms) <= Names(ns)
  {
    hide Equal, FindMember;
    ObjectsEqual(ms, ns);
    forall name | name in Names(ms) ensures name in Names(ns) {
      var m :| m in ms && m.name == name;
      var i :| 0 <= i < |ms| && ms[i] == m;
      assert Matched(ms[i], ns);
      Named(ns, name);
    }
  }

  lemma SubsetCounted(a: set<Text>, b: set<Text>)
    requires a <= b
    ensures |a| <= |b| && (|a| == |b| ==> a == b)
  {
    assert b == a + (b - a);
  }

  /** An object with distinct names equals, on the left, none with a repeated name. */
  lemma DistinctNeverRepeated(ms: seq<Member>, ns: seq<Member>)
    requires Distinct(ms) && !Distinct(ns)
    ensures !Equal(Object(ms), Object(ns))
  {
    hide Equal, Names, Distinct;
    if Equal(Object(ms), Object(ns)) {
      NamesFound(ms, ns);
      NamesCounted(ms);
      NamesCounted(ns);
      SubsetCounted(Names(ms), Names(ns));
    }
  }

  // ---- Reflexive ----

  /** At every level, the first member of a name has a coherent value, and each later one a value equal to it. */
  predicate Coherent(v: JSON)
    decreases v, 1
  {
    match v
    case Array(vs) => forall i :: 0 <= i < |vs| ==> Coherent(vs[i])
    case Object(ms) =>
      forall i :: 0 <= i < |ms| ==>
        var first := FindMember(ms, ms[i].name);
        if first == i then Coherent(ms[i].value) else first < |ms| && Equal(ms[i].value, ms[first].value)
    case _ => true
  }

  lemma {:induction false} ElementsEqualAll(vs: seq<JSON>, ws: seq<JSON>)
    requires |vs| == |ws|
    ensures ElementsEqual(vs, ws) <==> forall i :: 0 <= i < |vs| ==> Equal(vs[i], ws[i])
    decreases |vs|
  {
    hide Equal;
    if vs != [] {
      ElementsEqualAll(vs[1..], ws[1..]);
      if ElementsEqual(vs, ws) {
        forall i | 0 <= i < |vs| ensures Equal(vs[i], ws[i]) {
          if i > 0 {
            assert vs[i] == vs[1..][i - 1] && ws[i] == ws[1..][i - 1];
          }
        }
      } else if Equal(vs[0], ws[0]) {
        var i :| 0 <= i < |vs[1..]| && !Equal(vs[1..][i], ws[1..][i]);
        assert !Equal(vs[i + 1], ws[i + 1]);
      }
    }
  }

  lemma ArraysEqual(vs: seq<JSON>, ws: seq<JSON>)
    ensures Equal(Array(vs), Array(ws)) <==> |vs| == |ws| && forall i :: 0 <= i < |vs| ==> Equal(vs[i], ws[i])
  {
    if |vs| == |ws| {
      ElementsEqualAll(vs, ws);
    }
  }

  lemma Found(ms: seq<Member>, i: nat)
    requires i < |ms|
    ensures FindMember(ms, ms[i].name) <= i
  {
  }

  /** A value without doubles equals itself exactly if it is coherent. */
  lemma {:induction false} ReflexiveExact(v: JSON)
    requires NoReals(v)
    ensures Equal(v, v) <==> Coherent(v)
    decreases v
  {
    match v
    case Array(vs) =>
      hide Equal, Coherent;
      ArraysEqual(vs, vs);
      assert Coherent(v) <==> forall i :: 0 <= i < |vs| ==> Coherent(vs[i]) by { CoherentArray(vs); }
      forall i | 0 <= i < |vs| ensures Equal(vs[i], vs[i]) <==> Coherent(vs[i]) {
        ElementNoReals(vs, i);
        ReflexiveExact(vs[i]);
      }
    case Object(ms) =>
      hide Equal, Coherent, FindMember, NoReals;
      ObjectsEqual(ms, ms);
      CoherentObject(ms);
      forall i | 0 <= i < |ms| ensures Matched(ms[i], ms) <==> FirstAgrees(ms, i) {
        Found(ms, i);
        MemberNoReals(ms, i);
        ReflexiveExact(ms[i].value);
      }
    case _ =>
  }

  lemma CoherentArray(vs: seq<JSON>)
    ensures Coherent(Array(vs)) <==> forall i :: 0 <= i < |vs| ==> Coherent(vs[i])
  {
  }

  predicate FirstAgrees(ms: seq<Member>, i: nat)
    requires i < |ms|
  {
    var first := FindMember(ms, ms[i].name);
    if first == i then Coherent(ms[i].value) else first < |ms| && Equal(ms[i].value, ms[first].value)
  }

  lemma {:induction false} CoherentObject(ms: seq<Member>)
    ensures Coherent(Object(ms)) <==> forall i {:trigger ms[i]} :: 0 <= i < |ms| ==> FirstAgrees(ms, i)
  {
    if Coherent(Object(ms)) {
      forall i | 0 <= i < |ms| ensures FirstAgrees(ms, i) {
        var first := FindMember(ms, ms[i].name);
        assert if first == i then Coherent(ms[i].value) else first < |ms| && Equal(ms[i].value, ms[first].value);
      }
    }
  }

  lemma {:induction false} ElementNoReals(vs: seq<JSON>, i: nat)
    requires NoReals(Array(vs)) && i < |vs|
    ensures NoReals(vs[i])
    decreases |vs|
  {
    if i > 0 {
      assert NoReals(Array(vs[1..]));
      ElementNoReals(vs[1..], i - 1);
    }
  }

  lemma {:induction false} MemberNoReals(ms: seq<Member>, i: nat)
    requires NoReals(Object(ms)) && i < |ms|
    ensures NoReals(ms[i].value)
    decreases |ms|
  {
    if i > 0 {
      assert NoReals(Object(ms[1..]));
      MemberNoReals(ms[1..], i - 1);
    }
  }

  // ---- Transitive ----

  /** On values without doubles, whatever their names, operator== is transitive. */
  lemma {:induction false} EqualTransitive(a: JSON, b: JSON, c: JSON)
    requires NoReals(a) && NoReals(b) && NoReals(c) && Equal(a, b) && Equal(b, c)
    ensures Equal(a, c)
    decreases a
  {
    match a
    case Array(vs) =>
      hide Equal;
      var ws, xs := b.elements, c.elements;
      ArraysEqual(vs, ws);
      ArraysEqual(ws, xs);
      ArraysEqual(vs, xs);
      forall i | 0 <= i < |vs| ensures Equal(vs[i], xs[i]) {
        ElementNoReals(vs, i);
        ElementNoReals(ws, i);
        ElementNoReals(xs, i);
        EqualTransitive(vs[i], ws[i], xs[i]);
      }
    case Object(ms) =>
      hide Equal, NoReals;
      var ns, os := b.members, c.members;
      ObjectsEqual(ms, ns);
      ObjectsEqual(ns, os);
      ObjectsEqual(ms, os);
      forall i | 0 <= i < |ms| ensures Matched(ms[i], os) {
        var q := FindMember(ns, ms[i].name);
        assert Matched(ms[i], ns) && Matched(ns[q], os);
        var r := FindMember(os, ms[i].name);
        MemberNoReals(ms, i);
        MemberNoReals(ns, q);
        MemberNoReals(os, r);
        EqualTransitive(ms[i].value, ns[q].value, os[r].value);
      }
    case _ =>
  }

  // ---- Symmetric ----

  /** At every level that the comparison of two equal values looks at, the right object has no name that the left one
      has not; below, the first members of each name and the elements are compared. */
  predicate SameNames(v: JSON, w: JSON)
    decreases v
  {
    match v
    case Array(vs) => w.Array? && |vs| == |w.elements| && forall i :: 0 <= i < |vs| ==> SameNames(vs[i], w.elements[i])
    case Object(ms) =>
      w.Object? && forall j :: 0 <= j < |w.members| ==>
        var p := FindMember(ms, w.members[j].name);
        p < |ms| && (FindMember(w.members, w.members[j].name) == j ==> SameNames(ms[p].value, w.members[j].value))
    case _ => true
  }

  /** What SameNames asks of a member of the right object. */
  predicate NameKnown(ms: seq<Member>, ns: seq<Member>, j: nat)
    requires j < |ns|
  {
    var p := FindMember(ms, ns[j].name);
    p < |ms| && (FindMember(ns, ns[j].name) == j ==> SameNames(ms[p].value, ns[j].value))
  }

  lemma {:induction false} NamesKnown(ms: seq<Member>, ns: seq<Member>)
    ensures SameNames(Object(ms), Object(ns)) <==> forall j {:trigger ns[j]} :: 0 <= j < |ns| ==> NameKnown(ms, ns, j)
  {
    hide FindMember;
    if SameNames(Object(ms), Object(ns)) {
      forall j | 0 <= j < |ns| ensures NameKnown(ms, ns, j) {
        var p := FindMember(ms, ns[j].name);
        assert p < |ms| && (FindMember(ns, ns[j].name) == j ==> SameNames(ms[p].value, ns[j].value));
      }
    }
  }

  lemma {:induction false} ElementsKnown(vs: seq<JSON>, ws: seq<JSON>)
    ensures SameNames(Array(vs), Array(ws)) <==> |vs| == |ws| && forall i :: 0 <= i < |vs| ==> SameNames(vs[i], ws[i])
  {
  }

  /** An equality also holds the other way round exactly if the right value has no further names and equals itself. */
  lemma {:induction false} SymmetricExact(v: JSON, w: JSON)
    requires NoReals(v) && NoReals(w) && Equal(v, w)
    ensures Equal(w, v) <==> SameNames(v, w) && Equal(w, w)
    decreases v
  {
    if Equal(w, v) {
      EqualTransitive(w, v, w);
    }
    match v
    case Array(vs) =>
      hide Equal, SameNames, NoReals;
      var ws := w.elements;
      ArraysEqual(vs, ws);
      ArraysEqual(ws, vs);
      ArraysEqual(ws, ws);
      ElementsKnown(vs, ws);
      forall i | 0 <= i < |vs| ensures Equal(ws[i], vs[i]) <==> SameNames(vs[i], ws[i]) && Equal(ws[i], ws[i]) {
        ElementNoReals(vs, i);
        ElementNoReals(ws, i);
        SymmetricExact(vs[i], ws[i]);
      }
    case Object(ms) =>
      hide Equal, SameNames, NoReals;
      var ns := w.members;
      ObjectsEqual(ms, ns);
      ObjectsEqual(ns, ms);
      ObjectsEqual(ns, ns);
      NamesKnown(ms, ns);
      hide Matched, NameKnown;
      if Equal(w, v) {
        forall j | 0 <= j < |ns| ensures NameKnown(ms, ns, j) {
          MemberKnown(ms, ns, j);
        }
      } else if SameNames(v, w) && Equal(w, w) {
        forall j | 0 <= j < |ns| ensures Matched(ns[j], ms) {
          MemberMatched(ms, ns, j);
        }
      }
    case _ =>
  }

  lemma {:induction false} MemberKnown(ms: seq<Member>, ns: seq<Member>, j: nat)
    requires j < |ns| && NoReals(Object(ms)) && NoReals(Object(ns))
    requires (forall i :: 0 <= i < |ms| ==> Matched(ms[i], ns)) && Matched(ns[j], ms)
    ensures NameKnown(ms, ns, j)
    decreases Object(ms), 0
  {
    hide Equal, SameNames, NoReals;
    var p := FindMember(ms, ns[j].name);
    assert Matched(ms[p], ns);
    MemberNoReals(ms, p);
    MemberNoReals(ns, j);
    if FindMember(ns, ns[j].name) == j {
      SymmetricExact(ms[p].value, ns[j].value);
    }
  }

  lemma {:induction false} MemberMatched(ms: seq<Member>, ns: seq<Member>, j: nat)
    requires j < |ns| && NoReals(Object(ms)) && NoReals(Object(ns))
    requires forall i :: 0 <= i < |ms| ==> Matched(ms[i], ns)
    requires forall i :: 0 <= i < |ns| ==> Matched(ns[i], ns) && NameKnown(ms, ns, i)
    ensures Matched(ns[j], ms)
    decreases Object(ms), 0
  {
    hide Equal, SameNames, NoReals;
    var p, q := FindMember(ms, ns[j].name), FindMember(ns, ns[j].name);
    assert NameKnown(ms, ns, j) && Matched(ns[j], ns) && Matched(ms[p], ns);
    assert NameKnown(ms, ns, q) && Matched(ns[q], ns);
    MemberNoReals(ms, p);
    MemberNoReals(ns, q);
    MemberNoReals(ns, j);
    SymmetricExact(ms[p].value, ns[q].value);
    EqualTransitive(ns[j].value, ns[q].value, ms[p].value);
  }

  /** SameNames is inclusion of the names at the top level, to begin with. */
  lemma NamesIncluded(ms: seq<Member>, ns: seq<Member>)
    requires SameNames(Object(ms), Object(ns))
    ensures Names(ns) <= Names(ms)
  {
    hide FindMember;
    NamesKnown(ms, ns);
    forall name | name in Names(ns) ensures name in Names(ms) {
      var m :| m in ns && m.name == name;
      var j :| 0 <= j < |ns| && ns[j] == m;
      assert NameKnown(ms, ns, j);
      Named(ms, name);
    }
  }
}

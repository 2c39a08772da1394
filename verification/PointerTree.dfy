/** Looking up, creating, setting and erasing values of a tree by JSON Pointer. */
module PointerTree {
  import opened Bytes
  import opened Json
  import opened Pointers

  // ---- Children ----

  /** The string that stands at a name in the name buffer for a reader that stops at NUL. FindMember and EraseMember
      take a `const Ch*`, so they search for it; AddMember is given the name's length and takes the whole of it. */
  function Cut(name: Text): (r: Text)
    ensures NUL !in r && |r| <= |name|
    ensures r == name <==> NUL !in name
    decreases |name|
  {
    if name == [] || name[0] == NUL then [] else [name[0]] + Cut(name[1..])
  }

  /** The position of the child a token leads to. */
  function Position(v: JSON, t: Token): (r: Option<nat>)
    ensures r.Some? ==> IsPosition(v, r.value)
  {
    match v
    case Object(ms) =>
      var i := FindMember(ms, Cut(t.name));
      if i == |ms| then None else Some(i)
    case Array(vs) => if t.index == INVALID_INDEX || t.index >= |vs| then None else Some(t.index)
    case _ => None
  }

  predicate IsPosition(v: JSON, i: nat) {
    match v
    case Object(ms) => i < |ms|
    case Array(vs) => i < |vs|
    case _ => false
  }

  function ChildAt(v: JSON, i: nat): JSON
    requires IsPosition(v, i)
  {
    if v.Object? then v.members[i].value else v.elements[i]
  }

  /** The container with the child at a position replaced. */
  function WithChild(v: JSON, i: nat, child: JSON): (r: JSON)
    requires IsPosition(v, i)
    ensures IsPosition(r, i) && ChildAt(r, i) == child
  {
    match v
    case Object(ms) => Object(ms[i := Member(ms[i].name, child)])
    case Array(vs) => Array(vs[i := child])
  }

  /** The container without the child at a position: later members and elements move up. */
  function WithoutChild(v: JSON, i: nat): JSON
    requires IsPosition(v, i)
  {
    match v
    case Object(ms) => Object(ms[..i] + ms[i + 1..])
    case Array(vs) => Array(vs[..i] + vs[i + 1..])
  }

  /** The child a token leads to. */
  function Child(v: JSON, t: Token): Option<JSON> {
    var i := Position(v, t);
    if i.None? then None else Some(ChildAt(v, i.value))
  }

  // ---- Get ----

  function Get(v: JSON, ts: seq<Token>): Option<JSON>
    decreases |ts|
  {
    if ts == [] then Some(v)
    else
      var c := Child(v, ts[0]);
      if c.None? then None else Get(c.value, ts[1..])
  }

  /** Get as the loop it is, with the index of the token that does not resolve. */
  method Resolve(root: JSON, tokens: seq<Token>) returns (v: Option<JSON>, unresolved: nat)
    ensures v == Get(root, tokens)
    ensures v.None? ==> unresolved < |tokens| && Get(root, tokens[..unresolved]).Some? &&
                        Child(Get(root, tokens[..unresolved]).value, tokens[unresolved]).None?
  {
    hide Child, Position;
    var cur := root;
    unresolved := 0;
    assert tokens[0..] == tokens && tokens[..0] == [];
    while unresolved < |tokens|
      invariant unresolved <= |tokens|
      invariant Get(root, tokens[..unresolved]) == Some(cur)
      invariant Get(root, tokens) == Get(cur, tokens[unresolved..])
    {
      var t := tokens[unresolved];
      var c := Child(cur, t);
      assert tokens[unresolved..][0] == t && tokens[unresolved..][1..] == tokens[unresolved + 1..];
      if c.None? {
        return None, unresolved;
      }
      GetConcat(root, tokens[..unresolved], [t]);
      assert tokens[..unresolved + 1] == tokens[..unresolved] + [t];
      GetOne(cur, t);
      cur := c.value;
      unresolved := unresolved + 1;
    }
    v := Some(cur);
  }

  lemma {:induction false} GetConcat(v: JSON, a: seq<Token>, b: seq<Token>)
    ensures Get(v, a + b) == if Get(v, a).None? then None else Get(Get(v, a).value, b)
    decreases |a|
  {
    hide Child;
    if a == [] {
      assert a + b == b;
    } else {
      assert (a + b)[1..] == a[1..] + b;
      if Child(v, a[0]).Some? {
        GetConcat(Child(v, a[0]).value, a[1..], b);
      }
    }
  }

  lemma GetOne(v: JSON, t: Token)
    ensures Get(v, [t]) == Child(v, t)
  {
    hide Child;
    assert [t][1..] == [];
  }

  // ---- Create and Set ----

  datatype Created = Created(tree: JSON, exist: bool)

  /** The token "-", which appends to an array. */
  predicate IsDash(t: Token) {
    t.name == [MINUS]
  }

  function Nulls(n: nat): (vs: seq<JSON>)
    ensures |vs| == n && forall i :: 0 <= i < n ==> vs[i] == Null
  {
    seq(n, i => Null)
  }

  /** The container the token is looked up in: a value of the wrong kind is replaced by an empty container. */
  function AsContainer(v: JSON, t: Token): (c: JSON)
    ensures c.Array? || c.Object?
    ensures t.index == INVALID_INDEX ==> c.Object?
  {
    if t.index == INVALID_INDEX then (if v.Object? then v else Object([]))
    else if v.Array? || v.Object? then v
    else Array([])
  }

  /** A container and the position in it where Create goes on. */
  datatype Room = Room(container: JSON, at: nat)

  /** One round of Create: "-" appends a null to an array; otherwise an array is padded with nulls up to the index, and
      a null member is appended to an object in which the name is not found. */
  function MakeRoom(v: JSON, t: Token): (r: Room)
    requires t.index < SIZE_MODULUS
    ensures IsPosition(r.container, r.at)
  {
    if v.Array? && IsDash(t) then Room(Array(v.elements + [Null]), |v.elements|)
    else
      match AsContainer(v, t)
      case Array(vs) => Room(if t.index < |vs| then Array(vs) else Array(vs + Nulls(t.index + 1 - |vs|)), t.index)
      case Object(ms) =>
        var i := FindMember(ms, Cut(t.name));
        Room(if i < |ms| then Object(ms) else Object(ms + [Member(t.name, Null)]), i)
  }

  /** Create followed by an assignment of `x` to the value it returns; Create itself leaves the value there if it
      existed and null otherwise. */
  function Put(v: JSON, ts: seq<Token>, x: Option<JSON>): Created
    requires Indexed(ts)
    decreases |ts|
  {
    if ts == [] then Created(if x.Some? then x.value else v, true)
    else
      var room := MakeRoom(v, ts[0]);
      var p := Put(ChildAt(room.container, room.at), ts[1..], x);
      Created(WithChild(room.container, room.at, p.tree), !(v.Array? && IsDash(ts[0])) && Position(v, ts[0]).Some? &&
          p.exist)
  }

  /** Indices are SizeType. */
  predicate Indexed(ts: seq<Token>) {
    forall i :: 0 <= i < |ts| ==> ts[i].index < SIZE_MODULUS
  }

  function Create(v: JSON, ts: seq<Token>): Created
    requires Indexed(ts)
  {
    Put(v, ts, None)
  }

  function Set(v: JSON, ts: seq<Token>, x: JSON): JSON
    requires Indexed(ts)
  {
    Put(v, ts, Some(x)).tree
  }

  /** Where a token resolves, Create goes on in the container as it is. */
  lemma ResolvingRoom(v: JSON, t: Token)
    requires Position(v, t).Some? && t.index == IndexOf(t.name) && t.index < SIZE_MODULUS
    ensures MakeRoom(v, t) == Room(v, Position(v, t).value) && !(v.Array? && IsDash(t))
  {
    NoDashChild(v, t);
  }

  /** The token "-" is no index. */
  lemma NoDashChild(v: JSON, t: Token)
    requires t.index == IndexOf(t.name)
    ensures v.Array? && IsDash(t) ==> Position(v, t).None?
  {
    assert IndexOf([MINUS]) == INVALID_INDEX;
  }

  lemma SameChild(v: JSON, i: nat)
    requires IsPosition(v, i)
    ensures WithChild(v, i, ChildAt(v, i)) == v
  {
    match v
    case Object(ms) => assert ms[i := Member(ms[i].name, ms[i].value)] == ms;
    case Array(vs) => assert vs[i := vs[i]] == vs;
  }

  /** Create reports that the value already existed exactly if Get resolves, and then changes nothing. */
  lemma {:induction false} CreateExisting(v: JSON, ts: seq<Token>)
    requires Consistent(ts)
    ensures Indexed(ts) && Create(v, ts).exist == Get(v, ts).Some?
    ensures Get(v, ts).Some? ==> Create(v, ts).tree == v
    decreases |ts|
  {
    hide Position, WithChild, MakeRoom, ChildAt, IndexOf, IsPosition;
    if ts != [] && Position(v, ts[0]).Some? {
      var i := Position(v, ts[0]).value;
      ResolvingRoom(v, ts[0]);
      CreateExisting(ChildAt(v, i), ts[1..]);
      SameChild(v, i);
    }
  }

  /** What one token does. An array index is padded up to with nulls; "-" appends; a name is the first member found or
      a new last one; a value of the wrong kind gives way to a container that has nothing but what is set. */
  lemma SetOneExact(v: JSON, t: Token, x: JSON)
    requires t.index < SIZE_MODULUS && t.index == IndexOf(t.name)
    ensures var r := Set(v, [t], x);
            var vs, ms := if v.Array? then v.elements else [], if v.Object? then v.members else [];
            if v.Array? && t.name == [MINUS] then r == Array(vs + [x])
            else if t.index != INVALID_INDEX && !v.Object? then
              && r.Array? && |r.elements| == Max(|vs|, t.index + 1) && r.elements[t.index] == x
              && forall j :: 0 <= j < |r.elements| && j != t.index ==> r.elements[j] == if j < |vs| then vs[j] else Null
            else
              && r.Object? && |ms| <= |r.members| <= |ms| + 1
              && (|r.members| == |ms| <==> exists j :: 0 <= j < |ms| && ms[j].name == Cut(t.name))
              && (|r.members| > |ms| ==> r.members == ms + [Member(t.name, x)])
              && (|r.members| == |ms| ==>
                   exists i | 0 <= i < |ms| ::
                     && r.members == ms[i := Member(ms[i].name, x)] && ms[i].name == Cut(t.name)
                     && forall j :: 0 <= j < i ==> ms[j].name != Cut(t.name))
  {
    hide IndexOf;
    var room := MakeRoom(v, t);
    assert [t][1..] == [];
    assert Put(ChildAt(room.container, room.at), [], Some(x)) == Created(x, true);
    assert Set(v, [t], x) == WithChild(room.container, room.at, x);
    if v.Array? && IsDash(t) {
      assert (v.elements + [Null])[|v.elements| := x] == v.elements + [x];
    } else if room.container.Object? {
      NamedRoom(if v.Object? then v.members else [], t.name, x);
    }
  }

  lemma NamedRoom(ms: seq<Member>, name: Text, x: JSON)
    ensures var i := FindMember(ms, Cut(name));
            && (i < |ms| <==> exists j :: 0 <= j < |ms| && ms[j].name == Cut(name))
            && (i == |ms| ==> (ms + [Member(name, Null)])[i := Member(name, x)] == ms + [Member(name, x)])
  {
  }

  /** A longer path sets, at its first token, what the rest of it makes of the value found there, or of null. */
  lemma SetComposes(v: JSON, t: Token, ts: seq<Token>, x: JSON)
    requires Consistent([t] + ts) && Indexed([t] + ts)
    ensures Indexed([t]) && Indexed(ts)
    ensures Set(v, [t] + ts, x) == Set(v, [t], Set(if Get(v, [t]).Some? then Get(v, [t]).value else Null, ts, x))
  {
    hide MakeRoom, WithChild, ChildAt, IndexOf, IsPosition, Child;
    var us := [t] + ts;
    assert us[0] == t && us[1..] == ts && [t][1..] == [];
    assert forall i :: 0 <= i < |ts| ==> ts[i] == us[i + 1];
    RoomChild(v, t);
    GetOne(v, t);
    var room := MakeRoom(v, t);
    var y := Set(ChildAt(room.container, room.at), ts, x);
    assert Put(ChildAt(room.container, room.at), [], Some(y)) == Created(y, true);
    assert Set(v, us, x) == WithChild(room.container, room.at, y) == Set(v, [t], y);
  }

  /** What Create makes where Get finds nothing is what Set makes of null. */
  lemma {:induction false} CreateMissing(v: JSON, ts: seq<Token>)
    requires Consistent(ts) && Indexed(ts) && Get(v, ts).None?
    ensures Create(v, ts).tree == Set(v, ts, Null) && !Create(v, ts).exist
    decreases |ts|
  {
    hide MakeRoom, WithChild, ChildAt, IndexOf, IsPosition;
    RoomChild(v, ts[0]);
    var room := MakeRoom(v, ts[0]);
    var c := ChildAt(room.container, room.at);
    CreateExisting(v, ts);
    if Get(c, ts[1..]).None? {
      CreateMissing(c, ts[1..]);
    } else {
      NothingInNull(ts[1..]);
      assert c == Null && ts[1..] == [];
      assert Put(Null, [], None) == Created(Null, true) && Put(Null, [], Some(Null)) == Created(Null, true);
    }
  }

  lemma NothingInNull(ts: seq<Token>)
    ensures Get(Null, ts).Some? ==> ts == []
  {
  }

  lemma RoomChild(v: JSON, t: Token)
    requires t.index < SIZE_MODULUS && t.index == IndexOf(t.name)
    ensures var room := MakeRoom(v, t);
            ChildAt(room.container, room.at) == if Child(v, t).Some? then Child(v, t).value else Null
  {
    hide IndexOf;
    if Position(v, t).Some? {
      ResolvingRoom(v, t);
    }
  }

  /** What Create appends for the token is not found under it again: the element behind "-" has an index, and the whole
      of a name that holds a NUL is not the name searched for. */
  predicate AppendsUnseen(v: JSON, t: Token) {
    if v.Array? then IsDash(t) || (t.index == INVALID_INDEX && NUL in t.name)
    else NUL in t.name && (t.index == INVALID_INDEX || v.Object?) &&
         (v.Object? ==> FindMember(v.members, Cut(t.name)) == |v.members|)
  }

  /** This happens at some token on the way of Create. */
  predicate OutOfReach(v: JSON, ts: seq<Token>)
    requires Indexed(ts)
    decreases |ts|
  {
    ts != [] &&
    var room := MakeRoom(v, ts[0]);
    AppendsUnseen(v, ts[0]) || OutOfReach(ChildAt(room.container, room.at), ts[1..])
  }

  /** A digit string holds no NUL. */
  lemma IndexedNoNul(t: Token)
    requires t.index == IndexOf(t.name) && t.index != INVALID_INDEX
    ensures NUL !in t.name
  {
    hide IndexLoop;
  }

  lemma {:induction false} FindAppended(ms: seq<Member>, name: Text, added: Text)
    requires FindMember(ms, name) == |ms|
    ensures FindMember(ms + [Member(added, Null)], name) == if added == name then |ms| else |ms| + 1
    decreases |ms|
  {
    if ms != [] {
      assert (ms + [Member(added, Null)])[1..] == ms[1..] + [Member(added, Null)];
      FindAppended(ms[1..], name, added);
    }
  }

  /** The room made for a token is where the token leads afterwards, unless what was appended is not seen. */
  lemma RoomFound(v: JSON, t: Token)
    requires t.index == IndexOf(t.name) && t.index < SIZE_MODULUS
    ensures var r := MakeRoom(v, t); Position(r.container, t) == if AppendsUnseen(v, t) then None else Some(r.at)
  {
    NoDashChild(MakeRoom(v, t).container, t);
    if t.index != INVALID_INDEX {
      IndexedNoNul(t);
    }
    var c := AsContainer(v, t);
    if c.Object? && FindMember(c.members, Cut(t.name)) == |c.members| {
      FindAppended(c.members, Cut(t.name), t.name);
    }
  }

  /** Replacing a child moves no other. */
  lemma ReplacedPosition(v: JSON, i: nat, child: JSON, t: Token)
    requires IsPosition(v, i)
    ensures Position(WithChild(v, i, child), t) == Position(v, t)
  {
    if v.Object? {
      FindReplaced(v.members, Cut(t.name), i, child);
    }
  }

  lemma {:induction false} FindReplaced(ms: seq<Member>, name: Text, i: nat, child: JSON)
    requires i < |ms|
    ensures FindMember(ms[i := Member(ms[i].name, child)], name) == FindMember(ms, name)
    decreases |ms|
  {
    if i > 0 {
      assert ms[i := Member(ms[i].name, child)][1..] == ms[1..][i - 1 := Member(ms[i].name, child)];
      FindReplaced(ms[1..], name, i - 1, child);
    } else {
      assert ms[0 := Member(ms[0].name, child)][1..] == ms[1..];
    }
  }

  /** After Set, Get finds the value set, unless something appended on the way is out of its reach: a "-" token met an
      array, or a name with a NUL an object without a member of the cut name. */
  lemma {:induction false} GetAfterSet(v: JSON, ts: seq<Token>, x: JSON)
    requires Consistent(ts)
    ensures Indexed(ts) && Get(Set(v, ts, x), ts) == if OutOfReach(v, ts) then None else Some(x)
    decreases |ts|
  {
    hide Position, WithChild, MakeRoom, ChildAt, IndexOf, IsPosition, AppendsUnseen;
    if ts != [] {
      var room := MakeRoom(v, ts[0]);
      var child := ChildAt(room.container, room.at);
      GetAfterSet(child, ts[1..], x);
      RoomFound(v, ts[0]);
      ReplacedPosition(room.container, room.at, Set(child, ts[1..], x), ts[0]);
    }
  }

  /** The tree with the value at a resolving pointer replaced. */
  function Replace(v: JSON, ts: seq<Token>, x: JSON): JSON
    requires Get(v, ts).Some?
    decreases |ts|
  {
    if ts == [] then x else WithChild(v, Position(v, ts[0]).value, Replace(Child(v, ts[0]).value, ts[1..], x))
  }

  /** Where the pointer resolves, Set replaces the value there and nothing else. */
  lemma {:induction false} SetReplaces(v: JSON, ts: seq<Token>, x: JSON)
    requires Consistent(ts) && Get(v, ts).Some?
    ensures Indexed(ts) && Set(v, ts, x) == Replace(v, ts, x)
    decreases |ts|
  {
    hide Position, WithChild, MakeRoom, ChildAt, IndexOf, IsPosition;
    if ts != [] {
      ResolvingRoom(v, ts[0]);
      SetReplaces(Child(v, ts[0]).value, ts[1..], x);
    }
  }

  /** Two tokens lead to different children of whatever container. */
  predicate Apart(a: Token, b: Token) {
    Cut(a.name) != Cut(b.name) && (a.index != b.index || a.index == INVALID_INDEX)
  }

  lemma OtherChild(v: JSON, a: Token, b: Token, child: JSON)
    requires Position(v, a).Some? && Apart(a, b)
    ensures Child(WithChild(v, Position(v, a).value, child), b) == Child(v, b)
  {
    ReplacedPosition(v, Position(v, a).value, child, b);
  }

  /** A pointer that parts from the replaced one at some token finds what it found before. */
  lemma {:induction false} ReplaceKeepsOthers(v: JSON, ts: seq<Token>, us: seq<Token>, n: nat, x: JSON)
    requires Get(v, ts).Some? && n < |ts| && n < |us| && ts[..n] == us[..n] && Apart(ts[n], us[n])
    ensures Get(Replace(v, ts, x), us) == Get(v, us)
    decreases n
  {
    hide Position, ChildAt, WithChild, IsPosition;
    var c := Child(v, ts[0]).value;
    var r := Replace(c, ts[1..], x);
    if n == 0 {
      OtherChild(v, ts[0], us[0], r);
    } else {
      assert ts[0] == ts[..n][0] == us[..n][0] == us[0];
      assert ts[1..][..n - 1] == ts[..n][1..] == us[..n][1..] == us[1..][..n - 1];
      ReplaceKeepsOthers(c, ts[1..], us[1..], n - 1, x);
      ReplacedPosition(v, Position(v, ts[0]).value, r, ts[0]);
    }
  }

  /** Create keeps the container the token meets, and does not put an empty one in its place. */
  predicate KeepsContainer(v: JSON, t: Token) {
    v.Object? || (v.Array? && (IsDash(t) || t.index != INVALID_INDEX))
  }

  /** Making room leaves the other children where they were, if it keeps the container. */
  lemma RoomKeepsOthers(v: JSON, a: Token, b: Token)
    requires a.index == IndexOf(a.name) && a.index < SIZE_MODULUS && Position(v, b).Some? && Apart(a, b)
    ensures var r := MakeRoom(v, a);
            if KeepsContainer(v, a) then Position(r.container, b) == Position(v, b) && Position(v, b).value != r.at &&
                                         ChildAt(r.container, Position(v, b).value) == ChildAt(v, Position(v, b).value)
            else Position(r.container, b).None?
  {
    match v
    case Object(ms) =>
      if FindMember(ms, Cut(a.name)) == |ms| {
        FindBefore(ms, Cut(b.name), Member(a.name, Null));
      }
    case Array(vs) =>
      if !KeepsContainer(v, a) {
        assert MakeRoom(v, a).container == Object([Member(a.name, Null)]);
        assert Cut(b.name) != a.name;
        FindAppended([], Cut(b.name), a.name);
        assert [] + [Member(a.name, Null)] == [Member(a.name, Null)];
      }
  }

  lemma {:induction false} FindBefore(ms: seq<Member>, name: Text, m: Member)
    requires FindMember(ms, name) < |ms|
    ensures FindMember(ms + [m], name) == FindMember(ms, name)
    decreases |ms|
  {
    assert (ms + [m])[1..] == ms[1..] + [m];
    if ms[0].name != name {
      FindBefore(ms[1..], name, m);
    }
  }

  /** Set, whether it creates or replaces, and a pointer that resolved before and parts from the one set at token
      `n`: it finds the same value, unless an array met by a name was replaced by an object there, and then finds
      nothing. */
  lemma {:induction false} SetKeepsOthers(v: JSON, ts: seq<Token>, us: seq<Token>, n: nat, x: JSON)
    requires Consistent(ts) && Get(v, us).Some? && n < |ts| && n < |us| && ts[..n] == us[..n] && Apart(ts[n], us[n])
    ensures Indexed(ts) && Get(v, ts[..n]).Some?
    ensures Get(Set(v, ts, x), us) == if KeepsContainer(Get(v, ts[..n]).value, ts[n]) then Get(v, us) else None
    decreases n
  {
    hide Position, ChildAt, WithChild, MakeRoom, IndexOf, IsPosition, Apart, KeepsContainer;
    var room := MakeRoom(v, ts[0]);
    var child := ChildAt(room.container, room.at);
    var r := Set(child, ts[1..], x);
    ReplacedPosition(room.container, room.at, r, us[0]);
    if n == 0 {
      assert ts[..n] == [];
      RoomKeepsOthers(v, ts[0], us[0]);
      if KeepsContainer(v, ts[0]) {
        UntouchedChild(room.container, room.at, r, Position(v, us[0]).value);
      }
    } else {
      assert ts[0] == ts[..n][0] == us[..n][0] == us[0];
      assert ts[1..][..n - 1] == ts[..n][1..] == us[..n][1..] == us[1..][..n - 1];
      ResolvingRoom(v, ts[0]);
      SetKeepsOthers(child, ts[1..], us[1..], n - 1, x);
    }
  }

  lemma UntouchedChild(v: JSON, i: nat, child: JSON, j: nat)
    requires IsPosition(v, i) && IsPosition(v, j) && i != j
    ensures IsPosition(WithChild(v, i, child), j) && ChildAt(WithChild(v, i, child), j) == ChildAt(v, j)
  {
  }

  // ---- Erase ----

  datatype Erased = Erased(tree: JSON, done: bool)

  function Erase(v: JSON, ts: seq<Token>): Erased
    decreases |ts|
  {
    if ts == [] || Position(v, ts[0]).None? then Erased(v, false)
    else
      var i := Position(v, ts[0]).value;
      if |ts| == 1 then Erased(WithoutChild(v, i), true)
      else
        var e := Erase(ChildAt(v, i), ts[1..]);
        if e.done then Erased(WithChild(v, i, e.tree), true) else Erased(v, false)
  }

  /** Erase succeeds exactly if the pointer is not empty and resolves; it then takes exactly that member or element
      out of its container, and otherwise changes nothing. */
  lemma {:induction false} EraseExact(v: JSON, ts: seq<Token>)
    ensures Erase(v, ts).done <==> ts != [] && Get(v, ts).Some?
    ensures !Erase(v, ts).done ==> Erase(v, ts).tree == v
    ensures Erase(v, ts).done ==>
              var parent, last := ts[..|ts| - 1], ts[|ts| - 1];
              Get(v, parent).Some? && Position(Get(v, parent).value, last).Some? &&
              Erase(v, ts).tree == Replace(v, parent,
                  WithoutChild(Get(v, parent).value, Position(Get(v, parent).value, last).value))
    decreases |ts|
  {
    hide Position, WithChild, WithoutChild, ChildAt, IsPosition;
    if ts != [] && Position(v, ts[0]).Some? {
      var parent := ts[..|ts| - 1];
      if |ts| == 1 {
        assert ts[1..] == [] && parent == [];
      } else {
        EraseExact(Child(v, ts[0]).value, ts[1..]);
        assert parent[0] == ts[0] && parent[1..] == ts[1..][..|ts| - 2];
      }
    }
  }

  /** The members and elements that remain, in order: those behind the one erased move up by one. */
  lemma WithoutChildExact(v: JSON, i: nat)
    requires IsPosition(v, i)
    ensures match v
            case Object(ms) =>
              WithoutChild(v, i).Object? && |WithoutChild(v, i).members| == |ms| - 1 &&
              forall j :: 0 <= j < |ms| - 1 ==> WithoutChild(v, i).members[j] == if j < i then ms[j] else ms[j + 1]
            case Array(vs) =>
              WithoutChild(v, i).Array? && |WithoutChild(v, i).elements| == |vs| - 1 &&
              forall j :: 0 <= j < |vs| - 1 ==> WithoutChild(v, i).elements[j] == if j < i then vs[j] else vs[j + 1]
            case _ => true
  {
  }

  // ---- Names with NUL ----

  /** Searching for the cut name finds what the whole name would find exactly if the name holds no NUL. */
  lemma PlainNameExact(name: Text)
    ensures (forall ms :: FindMember(ms, Cut(name)) == FindMember(ms, name)) <==> NUL !in name
  {
    if NUL in name {
      var ms := [Member(name, Null)];
      assert FindMember(ms, name) == 0 && FindMember(ms, Cut(name)) != 0;
    }
  }

  /** A "-" token meets an array on the way of Create. */
  predicate DashMeetsArray(v: JSON, ts: seq<Token>)
    requires Indexed(ts)
    decreases |ts|
  {
    ts != [] &&
    var room := MakeRoom(v, ts[0]);
    (v.Array? && IsDash(ts[0])) || DashMeetsArray(ChildAt(room.container, room.at), ts[1..])
  }

  /** Where no name holds a NUL, Get finds what was set exactly if no "-" met an array. */
  lemma {:induction false} GetAfterPlainSet(v: JSON, ts: seq<Token>, x: JSON)
    requires Consistent(ts) && forall i :: 0 <= i < |ts| ==> NUL !in ts[i].name
    ensures Indexed(ts) && Get(Set(v, ts, x), ts) == if DashMeetsArray(v, ts) then None else Some(x)
    decreases |ts|
  {
    hide Get, Set, MakeRoom, IndexOf;
    GetAfterSet(v, ts, x);
    PlainReach(v, ts);
  }

  lemma {:induction false} PlainReach(v: JSON, ts: seq<Token>)
    requires Indexed(ts) && forall i :: 0 <= i < |ts| ==> NUL !in ts[i].name
    ensures OutOfReach(v, ts) <==> DashMeetsArray(v, ts)
    decreases |ts|
  {
    hide MakeRoom, ChildAt, IsPosition;
    if ts != [] {
      var room := MakeRoom(v, ts[0]);
      PlainReach(ChildAt(room.container, room.at), ts[1..]);
    }
  }

  /** What the pointer #/a%00b does, whose one name is searched for as "a" and added whole: on an empty object Get finds
      nothing after Set; on {"a": 1} Get finds 1, Set overwrites it and Erase erases it. */
  lemma NulNameCut(x: JSON)
    ensures var ts := [Token([LETTER_A, NUL, LETTER_B], INVALID_INDEX)];
            Consistent(ts) && Get(Set(Object([]), ts, x), ts) == None
    ensures var ts, one := [Token([LETTER_A, NUL, LETTER_B], INVALID_INDEX)], Object([Member([LETTER_A], Number(1))]);
            Get(one, ts) == Some(Number(1)) && Set(one, ts, x) == Object([Member([LETTER_A], x)]) &&
                Erase(one, ts) == Erased(Object([]), true)
  {
    var name: Text := [LETTER_A, NUL, LETTER_B];
    var ts := [Token(name, INVALID_INDEX)];
    assert !IsDigit(name[0]);
    assert Cut(name) == [LETTER_A] by {
      assert name[1..] == [NUL, LETTER_B];
      assert Cut([NUL, LETTER_B]) == [];
    }
    assert NUL in name by {
      assert name[1] == NUL;
    }
    NulNameLost(name, ts, x);
    NulNameTaken(name, ts, x);
  }

  lemma NulNameLost(name: Text, ts: seq<Token>, x: JSON)
    requires ts == [Token(name, INVALID_INDEX)] && IndexOf(name) == INVALID_INDEX && NUL in name
    ensures Get(Set(Object([]), ts, x), ts) == None
  {
    GetAfterSet(Object([]), ts, x);
    assert AppendsUnseen(Object([]), ts[0]);
  }

  lemma NulNameTaken(name: Text, ts: seq<Token>, x: JSON)
    requires ts == [Token(name, INVALID_INDEX)] && Cut(name) == [LETTER_A]
    ensures var one := Object([Member([LETTER_A], Number(1))]);
            Get(one, ts) == Some(Number(1)) && Set(one, ts, x) == Object([Member([LETTER_A], x)]) &&
                Erase(one, ts) == Erased(Object([]), true)
  {
    hide Cut;
    var ms := [Member([LETTER_A], Number(1))];
    var t := ts[0];
    assert FindMember(ms, [LETTER_A]) == 0;
    assert Position(Object(ms), t) == Some(0) && MakeRoom(Object(ms), t) == Room(Object(ms), 0);
    assert ts[1..] == [] && ms[..0] + ms[1..] == [];
    assert ms[0 := Member([LETTER_A], x)] == [Member([LETTER_A], x)];
    assert Get(Number(1), []) == Some(Number(1)) && Put(Number(1), [], Some(x)).tree == x;
  }
}

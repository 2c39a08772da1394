/** Where a validator is: documentStack_ is the RFC 6901 string of the place in the document, in every run. */
module DocumentPath {
  import opened Bytes
  import opened Json
  import opened Schemas
  import opened Path
  import opened Validators
  import Validation

  /** The containers open at a point of an event stream, innermost first. `child` is the member or element that is
      open in it, `count` how many elements have begun. */
  datatype Place = Outside | Inside(child: Option<PathStep>, count: nat, isArray: bool, outer: Place)

  function PathText(p: Place): Text {
    match p
    case Outside => []
    case Inside(child, _, _, outer) => PathText(outer) + if child.Some? then StepText(child.value) else []
  }

  /** Every container but the innermost has an open child. */
  predicate Nested(p: Place) {
    p.Inside? ==> Nested(p.outer) && (p.outer.Inside? ==> p.outer.child.Some?)
  }

  /** The place an event is about: the value that begins, the member that is named, or the container that ends. None
      where the event cannot come. */
  function Concern(p: Place, e: Event): Option<Place> {
    match e
    case EKey(name) =>
      if p.Inside? && !p.isArray && p.child.None? then Some(p.(child := Option.Some(Name(name)))) else None
    case EEndObject(_) => if p.Inside? && !p.isArray && p.child.None? then Some(p) else None
    case EEndArray(_) => if p.Inside? && p.isArray && p.child.None? then Some(p) else None
    case _ =>
      if p.Outside? then Some(p)
      else if p.isArray then
        (if p.child.None? then Some(p.(child := Option.Some(Index(p.count)), count := p.count + 1)) else None)
      else if p.child.Some? then Some(p)
      else None
  }

  function CloseChild(p: Place): Place {
    if p.Outside? then p else p.(child := None)
  }

  /** The place behind an event. */
  function Next(p: Place, e: Event): Option<Place> {
    var c := Concern(p, e);
    if c.None? then None
    else
      match e
      case EKey(_) => c
      case EStartObject => Some(Inside(None, 0, false, c.value))
      case EStartArray => Some(Inside(None, 0, true, c.value))
      case EEndObject(_) => Some(CloseChild(p.outer))
      case EEndArray(_) => Some(CloseChild(p.outer))
      case _ => Some(CloseChild(c.value))
  }

  function NextAll(p: Place, es: seq<Event>): Option<Place>
    decreases |es|
  {
    if es == [] then Some(p)
    else if Next(p, es[0]).None? then None
    else NextAll(Next(p, es[0]).value, es[1..])
  }

  lemma {:induction false} NextConcat(p: Place, a: seq<Event>, b: seq<Event>)
    ensures NextAll(p, a + b) == if NextAll(p, a).None? then None else NextAll(NextAll(p, a).value, b)
    decreases |a|
  {
    hide Next;
    if a == [] {
      assert a + b == b;
    } else {
      assert (a + b)[1..] == a[1..] + b;
      if Next(p, a[0]).Some? {
        NextConcat(Next(p, a[0]).value, a[1..], b);
      }
    }
  }

  lemma NextOne(p: Place, e: Event)
    ensures NextAll(p, [e]) == Next(p, e)
  {
    hide Next;
    assert [e][1..] == [];
  }

  /** A value may begin here. */
  predicate Ready(p: Place) {
    p.Outside? || p.isArray == p.child.None?
  }

  /** The place behind a value that begins at `p`. */
  function Behind(p: Place): Place {
    if p.Outside? then p else p.(child := None, count := if p.isArray then p.count + 1 else p.count)
  }

  /** The events of a value lead from where it begins to just behind it. */
  lemma {:induction false} ValueFollows(p: Place, v: JSON)
    requires Ready(p)
    ensures NextAll(p, Events(v)) == Some(Behind(p))
    decreases v, 1
  {
    hide NextAll, NumberEvent;
    match v
    case Array(vs) =>
      var inside := Inside(None, 0, true, Concern(p, EStartArray).value);
      NextOne(p, EStartArray);
      ElementsFollow(inside, vs);
      NextConcat(p, [EStartArray], ElementEvents(vs));
      NextOne(inside.(count := |vs|), EEndArray(|vs|));
      NextConcat(p, [EStartArray] + ElementEvents(vs), [EEndArray(|vs|)]);
    case Object(ms) =>
      var inside := Inside(None, 0, false, Concern(p, EStartObject).value);
      NextOne(p, EStartObject);
      MembersFollow(inside, ms);
      NextConcat(p, [EStartObject], MemberEvents(ms));
      NextOne(inside, EEndObject(|ms|));
      NextConcat(p, [EStartObject] + MemberEvents(ms), [EEndObject(|ms|)]);
    case _ =>
      Validation.ScalarEvents(v);
      NextOne(p, Events(v)[0]);
  }

  lemma {:induction false} ElementsFollow(p: Place, vs: seq<JSON>)
    requires p.Inside? && p.isArray && p.child.None?
    ensures NextAll(p, ElementEvents(vs)) == Some(p.(count := p.count + |vs|))
    decreases vs, 0
  {
    hide Events, Next;
    if vs != [] {
      ValueFollows(p, vs[0]);
      ElementsFollow(Behind(p), vs[1..]);
      NextConcat(p, Events(vs[0]), ElementEvents(vs[1..]));
    }
  }

  lemma {:induction false} MembersFollow(p: Place, ms: seq<Member>)
    requires p.Inside? && !p.isArray && p.child.None?
    ensures NextAll(p, MemberEvents(ms)) == Some(p)
    decreases ms, 0
  {
    hide Events, NextAll;
    if ms == [] {
      NextNone(p);
    } else {
      var key, es := EKey(ms[0].name), Events(ms[0].value);
      NextOne(p, key);
      ValueFollows(Next(p, key).value, ms[0].value);
      MembersFollow(p, ms[1..]);
      NextConcat(p, [key], es);
      NextConcat(p, [key] + es, MemberEvents(ms[1..]));
    }
  }

  lemma NextNone(p: Place)
    ensures NextAll(p, []) == Some(p)
  {
  }

  // ---- The validator ----

  /** There is a context for every open container, and it counts elements as the place does. */
  predicate Corresponds(stack: Stack, p: Place) {
    match p
    case Outside => stack.Empty?
    case Inside(_, count, isArray, outer) =>
      stack.Push? && stack.top.inArray == isArray && (isArray ==> stack.top.arrayElementIndex == count) &&
          Corresponds(stack.below, outer)
  }

  predicate Tracks(w: Validator, p: Place) {
    w.valid && w.path == PathText(p) && Nested(p) && Corresponds(w.stack, p)
  }

  lemma {:induction false} RunCorresponds(stack: Stack, p: Place, es: seq<Event>)
    ensures Corresponds(Validation.RunStack(stack, es), p) == Corresponds(stack, p)
    decreases p
  {
    if p.Inside? && stack.Push? {
      RunCorresponds(stack.below, p.outer, es);
    }
  }

  lemma FeedCorresponds(stack: Stack, p: Place, e: Event)
    ensures Corresponds(FeedStack(stack, e), p) == Corresponds(stack, p)
  {
    Validation.FeedStackIsRun(stack, e);
    RunCorresponds(stack, p, [e]);
  }

  /** What the parts of a step do to the path and to the contexts. */
  lemma BeginTracks(w: Validator, p: Place, e: Event)
    requires Tracks(w, p) && Validation.Begins(e) && Concern(p, e).Some?
    ensures var b, c := HandleBegin(w, e), Concern(p, e).value;
            && b.path == PathText(c) && Nested(c)
            && (b.valid ==>
                 b.stack.Push? && Corresponds(b.stack.below, c) && b.stack.top.inArray == e.EStartArray? &&
                 b.stack.top.arrayElementIndex == 0)
  {
    hide CheckValue, ElementSchema, FreshAll, NoneExist, IndexToken;
  }

  /** Popping a token leaves the place without the open child. */
  lemma PopChild(c: Place)
    requires c.Inside? ==> c.child.Some?
    ensures PopToken(PathText(c)) == PathText(CloseChild(c))
  {
    hide NameToken, IndexToken, PopToken;
    if c.Inside? {
      var below := PathText(c.outer);
      match c.child.value
      case Name(n) => PopName(below, n);
      case Index(i) => PopIndex(below, i);
      assert below + [] == below;
    } else {
      PopNothing();
    }
  }

  lemma PopNothing()
    ensures PopToken([]) == []
  {
  }

  lemma EndTracks(w: Validator, c: Place)
    requires w.valid && w.stack.Push? && w.path == PathText(c) && Nested(c) && Corresponds(w.stack.below, c) &&
             (c.Inside? ==> c.child.Some?)
    ensures if EndValue(w).valid then Tracks(EndValue(w), CloseChild(c)) else EndValue(w).path == PathText(c)
  {
    hide CheckEndValue, Valids, PathText, PopToken;
    PopChild(c);
  }

  /** Every event that may come keeps path and place together, or fails and leaves the path of what was being
      checked. */
  lemma StepTracks(w: Validator, p: Place, e: Event)
    requires Tracks(w, p) && Next(p, e).Some?
    ensures if Step(w, e).valid then Tracks(Step(w, e), Next(p, e).value)
            else Step(w, e).path == PathText(Concern(p, e).value)
  {
    hide HandleBegin, EndValue, FeedStack, PathText, Corresponds, CheckEndArray, CheckEndObject, Valids, MemberSchema;
    var c := Concern(p, e).value;
    match e
    case EKey(name) => KeyTracks(w, p, name);
    case EEndObject(n) => ContainerEndTracks(w, p, e);
    case EEndArray(n) => ContainerEndTracks(w, p, e);
    case _ =>
      BeginTracks(w, p, e);
      var b := HandleBegin(w, e);
      if b.valid {
        FedBelow(b.stack, c, e);
        var f := b.(stack := FeedStack(b.stack, e));
        if e.EStartObject? || e.EStartArray? {
          StartTracks(f, c, e);
        } else {
          EndTracks(f, c);
        }
      }
  }

  lemma FedBelow(stack: Stack, p: Place, e: Event)
    requires stack.Push? && Corresponds(stack.below, p)
    ensures var f := FeedStack(stack, e);
            f.Push? && Corresponds(f.below, p) && f.top.inArray == stack.top.inArray &&
                f.top.arrayElementIndex == stack.top.arrayElementIndex
  {
    hide Feed;
    FeedCorresponds(stack.below, p, e);
  }

  lemma StartTracks(f: Validator, c: Place, e: Event)
    requires f.valid && f.stack.Push? && f.path == PathText(c) && Nested(c) && Corresponds(f.stack.below, c) &&
             (c.Inside? ==> c.child.Some?)
    requires f.stack.top.inArray == e.EStartArray? && f.stack.top.arrayElementIndex == 0
    ensures Tracks(f, Inside(None, 0, e.EStartArray?, c))
  {
    assert PathText(c) + [] == PathText(c);
  }

  lemma KeyTracks(w: Validator, p: Place, name: Text)
    requires Tracks(w, p) && Next(p, EKey(name)).Some?
    ensures var e := EKey(name);
            if Step(w, e).valid then Tracks(Step(w, e), Next(p, e).value)
                else Step(w, e).path == PathText(Concern(p, e).value)
  {
    hide FeedStack, MemberSchema, MarkExist, NameToken;
    assert PathText(p) == PathText(p.outer) by { assert PathText(p.outer) + [] == PathText(p.outer); }
    if MemberSchema(w.stack.top.schema, name).Some? {
      FedBelow(Push(Keyed(w.stack.top, name), w.stack.below), p.outer, EKey(name));
    }
  }

  lemma ContainerEndTracks(w: Validator, p: Place, e: Event)
    requires Tracks(w, p) && Next(p, e).Some? && (e.EEndObject? || e.EEndArray?)
    ensures if Step(w, e).valid then Tracks(Step(w, e), Next(p, e).value)
            else Step(w, e).path == PathText(Concern(p, e).value)
  {
    hide FeedStack, EndValue, CheckEndArray, CheckEndObject, Valids;
    assert PathText(p) == PathText(p.outer) by { assert PathText(p.outer) + [] == PathText(p.outer); }
    FedBelow(w.stack, p.outer, e);
    var f := w.(stack := FeedStack(w.stack, e));
    EndTracks(f, p.outer);
    EndTracks(f.(stack := Push(f.stack.top.(inArray := false), f.stack.below)), p.outer);
  }

  lemma {:induction false} RunTracks(w: Validator, p: Place, es: seq<Event>)
    requires Tracks(w, p) && NextAll(p, es).Some?
    ensures Run(w, es).valid ==> Tracks(Run(w, es), NextAll(p, es).value)
    decreases |es|
  {
    hide Step, Next, Tracks;
    if es != [] {
      StepTracks(w, p, es[0]);
      if Step(w, es[0]).valid {
        RunTracks(Step(w, es[0]), Next(p, es[0]).value, es[1..]);
      } else {
        Validation.Stuck(Step(w, es[0]), es[1..]);
      }
    }
  }

  /** The place behind the first `n` events of a value. */
  function PlaceAt(v: JSON, n: nat): (p: Place)
    requires n <= |Events(v)|
  {
    PrefixFollows(v, n);
    NextAll(Outside, Events(v)[..n]).value
  }

  lemma PrefixFollows(v: JSON, n: nat)
    requires n <= |Events(v)|
    ensures NextAll(Outside, Events(v)[..n]).Some?
    ensures n < |Events(v)| ==> Next(NextAll(Outside, Events(v)[..n]).value, Events(v)[n]).Some?
  {
    hide NextAll, Next, Events;
    var es := Events(v);
    ValueFollows(Outside, v);
    NextConcat(Outside, es[..n], es[n..]);
    assert es[..n] + es[n..] == es;
    if n < |es| {
      var p := NextAll(Outside, es[..n]).value;
      NextConcat(p, [es[n]], es[n + 1..]);
      assert es[n..] == [es[n]] + es[n + 1..];
      NextOne(p, es[n]);
    }
  }

  /** In every run over the events of a value: while the validator is valid its path is that of the place reached, and
      from its first failure on it is that of the value, member or container being checked then. */
  lemma PathNamesPlace(s: Schema, v: JSON, n: nat, m: nat)
    requires n <= |Events(v)| && Run(Fresh(s), Events(v)[..n]).valid
    ensures Run(Fresh(s), Events(v)[..n]).path == PathText(PlaceAt(v, n))
    ensures n < m <= |Events(v)| && !Run(Fresh(s), Events(v)[..n + 1]).valid ==>
              Concern(PlaceAt(v, n), Events(v)[n]).Some? &&
              Run(Fresh(s), Events(v)[..m]).path == PathText(Concern(PlaceAt(v, n), Events(v)[n]).value)
  {
    hide Run, Step, NextAll, Next, Events, PathText;
    var es := Events(v);
    PrefixFollows(v, n);
    RunTracks(Fresh(s), Outside, es[..n]) by { FreshTracks(s); }
    var w := Run(Fresh(s), es[..n]);
    if n < m <= |es| && !Run(Fresh(s), es[..n + 1]).valid {
      StepTracks(w, PlaceAt(v, n), es[n]);
      assert Concern(PlaceAt(v, n), es[n]).Some? by { NextConcern(PlaceAt(v, n), es[n]); }
      assert es[..n + 1] == es[..n] + [es[n]];
      Validation.RunConcat(Fresh(s), es[..n], [es[n]]);
      Validation.RunOne(w, es[n]);
      assert es[..m] == es[..n + 1] + es[n + 1..m];
      Validation.RunConcat(Fresh(s), es[..n + 1], es[n + 1..m]);
      Validation.Stuck(Step(w, es[n]), es[n + 1..m]);
    }
  }

  lemma FreshTracks(s: Schema)
    ensures Tracks(Fresh(s), Outside)
  {
  }

  lemma NextConcern(p: Place, e: Event)
    requires Next(p, e).Some?
    ensures Concern(p, e).Some?
  {
  }
}

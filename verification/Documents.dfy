/** GenericDocument (document.h): the handler methods on its value stack, parsing into the document, and deep copy. */
module Documents {
  import opened Bytes
  import opened Json
  import opened Scanner
  import opened Dom
  import Recursive
  import Iterative
  import Discipline
  import R = Reader

  class GenericDocument {
    /** The root value. */
    var value: JSON
    var stack: seq<JSON>
    var parseResult: Option<(ErrorCode, nat)>

    constructor ()
      ensures value == Null && stack == [] && parseResult.None?
    {
      value := Null;
      stack := [];
      parseResult := None;
    }

    /** Null, Bool, Int, Uint, Int64, Uint64, Double, RawNumber, String, Key, StartObject and StartArray. */
    method Push(e: Event)
      requires !e.EEndObject? && !e.EEndArray?
      modifies `stack
      ensures Step(old(stack), e) == Some(stack)
    {
      stack := stack + [Pushed(e)];
    }

    method EndArray(elementCount: nat)
      requires |stack| > elementCount
      modifies `stack
      ensures Step(old(stack), EEndArray(elementCount)) == Some(stack)
    {
      var elements := stack[|stack| - elementCount..];
      stack := stack[..|stack| - elementCount];
      stack := stack[..|stack| - 1] + [Array(elements)];
      ghost var was := old(stack);
      assert was[..|was| - elementCount][..|was| - elementCount - 1] == was[..|was| - elementCount - 1];
    }

    /** Names and values are popped as members. */
    method EndObject(memberCount: nat)
      requires Step(stack, EEndObject(memberCount)).Some?
      modifies `stack
      ensures Step(old(stack), EEndObject(memberCount)) == Some(stack)
    {
      var base := |stack| - 2 * memberCount;
      ghost var flat := stack[base..];
      var ms: seq<Member> := [];
      var n: nat := memberCount;
      while n > 0
        invariant n <= memberCount && stack == old(stack) && base == |stack| - 2 * memberCount >= 1
        invariant ToMembers(flat).Some? && flat == stack[base..] && |flat| == 2 * memberCount
        invariant n < memberCount ==> ToMembers(flat[2 * n..]) == Some(ms)
        invariant n == memberCount ==> ms == []
      {
        n := n - 1;
        SuffixMembers(flat, n);
        ms := [Member(stack[base + 2 * n].s, stack[base + 2 * n + 1])] + ms;
        if n + 1 == memberCount {
          assert flat[2 * n..][2..] == [];
        } else {
          assert flat[2 * n..][2..] == flat[2 * (n + 1)..];
        }
      }
      assert flat[0..] == flat;
      stack := stack[..base];
      stack := stack[..|stack| - 1] + [Object(ms)];
      assert old(stack)[..base][..base - 1] == old(stack)[..base - 1];
    }

    /** One handler call. */
    method Handle(e: Event)
      requires Step(stack, e).Some?
      modifies `stack
      ensures Step(old(stack), e) == Some(stack)
    {
      match e
      case EEndArray(n) => EndArray(n);
      case EEndObject(n) => EndObject(n);
      case _ => Push(e);
    }

    /** The calls a producer makes, one after the other. */
    method HandleAll(es: seq<Event>)
      requires Run(stack, es).Some?
      modifies `stack
      ensures Run(old(stack), es) == Some(stack)
    {
      hide Step;
      var i := 0;
      assert es[0..] == es;
      while i < |es|
        invariant i <= |es| && Run(stack, es[i..]).Some?
        invariant Run(stack, es[i..]) == Run(old(stack), es)
      {
        assert es[i..][1..] == es[i + 1..];
        Handle(es[i]);
        i := i + 1;
      }
    }

    /** ParseStream with the recursive or the iterative reader, copying or in situ: the document becomes the value
        that the text denotes, exactly one value being on the stack then; on an error it keeps what it was, and the
        stack is emptied in either case. */
    method ParseStream(flags: Flags, iterative: bool, insitu: bool, buf: array<Byte>) returns (ghost v: JSON)
      requires stack == []
      modifies this, buf
      ensures stack == []
      ensures var r := if iterative then Iterative.IterativeParse(flags, old(buf[..]))
              else Recursive.Parse(flags, old(buf[..]));
              && (r.Ok? ==> parseResult.None? && value == v && CanonicalAll(r.log) == Events(v))
              && (r.Err? ==> parseResult == Some((r.code, r.offset)) && value == old(value))
    {
      hide Step, Run, Recursive.ParseFrom, Iterative.IterativeParseFrom, Events, CanonicalAll;
      ghost var t := buf[..];
      ghost var r := if iterative then Iterative.IterativeParse(flags, t) else Recursive.Parse(flags, t);
      v := OneValue(flags, t, iterative);
      var reader := new R.GenericReader(flags, insitu, buf);
      if iterative {
        reader.IterativeParse();
      } else {
        reader.Parse();
      }
      HandleAll(reader.log);
      if reader.error == R.NoError {
        parseResult := None;
        assert |stack| == 1;
        value := stack[0];
      } else {
        parseResult := Some((reader.error.code, reader.error.offset));
      }
      stack := [];
    }

    /** Deep copy: the source replays its events into the document. */
    method CopyFrom(source: JSON)
      requires stack == []
      modifies this
      ensures value == source && stack == []
    {
      hide Step, Run, Events;
      ReplayBuilds([], source);
      assert [] + [source] == [source];
      HandleAll(Events(source));
      value := stack[0];
      stack := [];
    }
  }

  /** Members read from the end of the stack on. */
  lemma SuffixMembers(flat: seq<JSON>, n: nat)
    requires ToMembers(flat).Some? && 2 * n < |flat|
    ensures 2 * n + 1 < |flat| && flat[2 * n].String? && ToMembers(flat[2 * n + 2..]).Some?
    decreases n
  {
    if n > 0 {
      SuffixMembers(flat[2..], n - 1);
      assert flat[2..][2 * n..] == flat[2 * n + 2..];
    }
  }

  /** Either reader's events leave one value on the stack, or never ask for more than it holds. */
  lemma OneValue(flags: Flags, t: Text, iterative: bool) returns (v: JSON)
    ensures var r := if iterative then Iterative.IterativeParse(flags, t) else Recursive.Parse(flags, t);
            && (r.Ok? ==> Run([], r.log) == Some([v]) && CanonicalAll(r.log) == Events(v))
            && (r.Err? ==> Run([], r.log).Some?)
  {
    hide Step, Run, Recursive.ParseFrom, Iterative.IterativeParseFrom, Events, CanonicalAll;
    v := StackDiscipline(flags, t);
    if iterative {
      Iterative.IterativeRefinesRecursive(flags, t, 0, []);
    }
  }
}

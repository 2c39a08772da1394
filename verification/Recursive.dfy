/** Recursive-descent parsing (GenericReader::Parse without kParseIterativeFlag) as functions of text, cursor and
    log. */
module Recursive {
  import opened Bytes
  import opened Json
  import opened Scanner

  /** A parse leaves a cursor and the events sent so far, or an error with the events sent before it. */
  datatype Outcome =
    | Ok(pos: nat, log: seq<Event>)
    | Err(code: ErrorCode, offset: nat, log: seq<Event>)
  {
    predicate IsFailure() {
      Err?
    }

    function PropagateFailure(): Outcome
      requires Err?
    {
      this
    }

    function Extract(): (nat, seq<Event>)
      requires Ok?
    {
      (pos, log)
    }
  }

  /** A leaf that sends one event. */
  function Send(r: Scan<Event>, log: seq<Event>): Outcome {
    match r
    case Got(pos, e) => Ok(pos, log + [e])
    case Bad(code, offset) => Err(code, offset, log)
  }

  function ParseString(f: Flags, t: Text, p: nat, log: seq<Event>, isKey: bool): (r: Outcome)
    requires Peek(t, p) == QUOTE
    ensures r.Ok? ==> p + 1 < r.pos <= |t|
  {
    match ScanString(f, t, p + 1, [])
    case Got(pos, s) => Ok(pos, log + [if isKey then EKey(s) else EString(s)])
    case Bad(code, offset) => Err(code, offset, log)
  }

  function ParseWord(t: Text, p: nat, log: seq<Event>, word: Text, e: Event): (r: Outcome)
    requires word != [] && NUL !in word
    ensures r.Ok? ==> p < r.pos <= |t|
  {
    match ScanWord(t, p, word)
    case Got(pos, _) => Ok(pos, log + [e])
    case Bad(code, offset) => Err(code, offset, log)
  }

  /** SkipWhitespaceAndComments, with the log passed through. */
  function Blanks(f: Flags, t: Text, p: nat, log: seq<Event>): (r: Outcome)
    requires p <= |t|
    ensures r.log == log
    ensures r.Ok? ==> p <= r.pos <= |t| && !IsSpace(Peek(t, r.pos))
  {
    match Skip(f, t, p)
    case Got(q, _) => Ok(q, log)
    case Bad(code, offset) => Err(code, offset, log)
  }

  /** A value that is neither an object nor an array. */
  function ParseScalar(f: Flags, t: Text, p: nat, log: seq<Event>): (r: Outcome)
    requires p <= |t|
    ensures r.Ok? ==> p < r.pos <= |t|
  {
    var c := Peek(t, p);
    if c == NULL_WORD[0] then ParseWord(t, p, log, NULL_WORD, ENull)
    else if c == TRUE_WORD[0] then ParseWord(t, p, log, TRUE_WORD, EBool(true))
    else if c == FALSE_WORD[0] then ParseWord(t, p, log, FALSE_WORD, EBool(false))
    else if c == QUOTE then ParseString(f, t, p, log, false)
    else Send(ScanNumber(f, t, p), log)
  }

  function ParseValue(f: Flags, t: Text, p: nat, log: seq<Event>): (r: Outcome)
    requires p <= |t|
    ensures r.Ok? ==> p < r.pos <= |t|
    decreases |t| - p, 1
  {
    var c := Peek(t, p);
    if c == LBRACE then ParseObject(f, t, p, log)
    else if c == LBRACKET then ParseArray(f, t, p, log)
    else ParseScalar(f, t, p, log)
  }

  function ParseObject(f: Flags, t: Text, p: nat, log: seq<Event>): (r: Outcome)
    requires Peek(t, p) == LBRACE
    ensures r.Ok? ==> p < r.pos <= |t|
    decreases |t| - p, 0
  {
    var (q, log) :- Blanks(f, t, p + 1, log + [EStartObject]);
    if Peek(t, q) == RBRACE then Ok(q + 1, log + [EEndObject(0)])
    else ParseMembers(f, t, q, log, 0)
  }

  /** The loop of ParseObject at the start of a member, `count` members read. */
  function ParseMembers(f: Flags, t: Text, p: nat, log: seq<Event>, count: nat): (r: Outcome)
    requires p <= |t|
    ensures r.Ok? ==> p < r.pos <= |t|
    decreases |t| - p, 2
  {
    if Peek(t, p) != QUOTE then Err(ObjectMissName, p, log)
    else
      var (p, log) :- ParseString(f, t, p, log, true);
      var (p, log) :- Blanks(f, t, p, log);
      if Peek(t, p) != COLON then Err(ObjectMissColon, p, log)
      else ParseMemberValue(f, t, p + 1, log, count)
  }

  /** Behind the colon of a member. */
  function ParseMemberValue(f: Flags, t: Text, p: nat, log: seq<Event>, count: nat): (r: Outcome)
    requires p <= |t|
    ensures r.Ok? ==> p < r.pos <= |t|
    decreases |t| - p, 3
  {
    var (p, log) :- Blanks(f, t, p, log);
    var (p, log) :- ParseValue(f, t, p, log);
    var (p, log) :- Blanks(f, t, p, log);
    ParseMembersTail(f, t, p, log, count + 1)
  }

  /** Behind the value of a member, `count` members read. */
  function ParseMembersTail(f: Flags, t: Text, p: nat, log: seq<Event>, count: nat): (r: Outcome)
    requires p <= |t|
    ensures r.Ok? ==> p < r.pos <= |t|
    decreases |t| - p, 2
  {
    if Peek(t, p) == RBRACE then Ok(p + 1, log + [EEndObject(count)])
    else if Peek(t, p) != COMMA then Err(ObjectMissCommaOrCurlyBracket, p, log)
    else
      var (p, log) :- Blanks(f, t, p + 1, log);
      if f.trailingCommas && Peek(t, p) == RBRACE then Ok(p + 1, log + [EEndObject(count)])
      else ParseMembers(f, t, p, log, count)
  }

  function ParseArray(f: Flags, t: Text, p: nat, log: seq<Event>): (r: Outcome)
    requires Peek(t, p) == LBRACKET
    ensures r.Ok? ==> p < r.pos <= |t|
    decreases |t| - p, 0
  {
    var (q, log) :- Blanks(f, t, p + 1, log + [EStartArray]);
    if Peek(t, q) == RBRACKET then Ok(q + 1, log + [EEndArray(0)])
    else ParseElements(f, t, q, log, 0)
  }

  /** The loop of ParseArray at the start of an element, `count` elements read. */
  function ParseElements(f: Flags, t: Text, p: nat, log: seq<Event>, count: nat): (r: Outcome)
    requires p <= |t|
    ensures r.Ok? ==> p < r.pos <= |t|
    decreases |t| - p, 2
  {
    var (p, log) :- ParseValue(f, t, p, log);
    var (p, log) :- Blanks(f, t, p, log);
    ParseElementsTail(f, t, p, log, count + 1)
  }

  /** Behind an element, `count` elements read. */
  function ParseElementsTail(f: Flags, t: Text, p: nat, log: seq<Event>, count: nat): (r: Outcome)
    requires p <= |t|
    ensures r.Ok? ==> p < r.pos <= |t|
    decreases |t| - p, 2
  {
    if Peek(t, p) == RBRACKET then Ok(p + 1, log + [EEndArray(count)])
    else if Peek(t, p) != COMMA then Err(ArrayMissCommaOrSquareBracket, p, log)
    else
      var (p, log) :- Blanks(f, t, p + 1, log);
      if f.trailingCommas && Peek(t, p) == RBRACKET then Ok(p + 1, log + [EEndArray(count)])
      else ParseElements(f, t, p, log, count)
  }

  /** What follows the root value. */
  function ParseEnd(f: Flags, t: Text, p: nat, log: seq<Event>): (r: Outcome)
    requires p <= |t|
    ensures r.Ok? ==> p <= r.pos <= |t|
  {
    if f.stopWhenDone then Ok(p, log)
    else
      var (p, log) :- Blanks(f, t, p, log);
      if Peek(t, p) != NUL then Err(DocumentRootNotSingular, p, log) else Ok(p, log)
  }

  /** Parse, wherever the stream stands. */
  function ParseFrom(f: Flags, t: Text, p: nat, log: seq<Event>): (r: Outcome)
    requires p <= |t|
    ensures r.Ok? ==> p < r.pos <= |t|
  {
    var (p, log) :- Blanks(f, t, p, log);
    if Peek(t, p) == NUL then Err(DocumentEmpty, p, log)
    else
      var (p, log) :- ParseValue(f, t, p, log);
      ParseEnd(f, t, p, log)
  }

  function Parse(f: Flags, t: Text): (r: Outcome) {
    ParseFrom(f, t, 0, [])
  }
}

/** Iterative parsing (kParseIterativeFlag): a pushdown automaton with an explicit stack, and its refinement of
    Recursive. */
module Iterative {
  import opened Bytes
  import opened Json
  import opened Scanner
  import opened Recursive

  /** IterativeParsingState. */
  datatype State =
    | Start | Finish | Error
    | ObjectInitial | MemberKey | KeyValueDelimiter | MemberValue | MemberDelimiter | ObjectFinish
    | ArrayInitial | Element | ElementDelimiter | ArrayFinish
    | Value

  datatype Token =
    | LeftBracket | RightBracket | LeftCurlyBracket | RightCurlyBracket | Comma | Colon
    | StringToken | FalseToken | TrueToken | NullToken | NumberToken

  function Tokenize(c: Byte): (token: Token)
    ensures token == StringToken <==> c == QUOTE
  {
    if c == QUOTE then StringToken
    else if c == COMMA then Comma
    else if c == COLON then Colon
    else if c == LBRACKET then LeftBracket
    else if c == RBRACKET then RightBracket
    else if c == FALSE_WORD[0] then FalseToken
    else if c == NULL_WORD[0] then NullToken
    else if c == TRUE_WORD[0] then TrueToken
    else if c == LBRACE then LeftCurlyBracket
    else if c == RBRACE then RightCurlyBracket
    else NumberToken
  }

  /** The rows of table G whose state expects a value; `scalar` is the entry for a scalar token. */
  function PredictValue(token: Token, scalar: State): State {
    match token
    case LeftBracket => ArrayInitial
    case LeftCurlyBracket => ObjectInitial
    case RightBracket => Error
    case RightCurlyBracket => Error
    case Comma => Error
    case Colon => Error
    case _ => scalar
  }

  /** The moves table G can predict, by what Transit has to find on its stack. */
  predicate Follows(src: State, dst: State) {
    match dst
    case ObjectInitial => ExpectsValue(src)
    case ArrayInitial => ExpectsValue(src)
    case Value => src == Start
    case MemberKey => src == ObjectInitial || src == MemberDelimiter
    case KeyValueDelimiter => src == MemberKey
    case MemberValue => src == KeyValueDelimiter
    case MemberDelimiter => src == MemberValue
    case ObjectFinish => src == ObjectInitial || src == MemberValue || src == MemberDelimiter
    case Element => src == ArrayInitial || src == ElementDelimiter
    case ElementDelimiter => src == Element
    case ArrayFinish => src == ArrayInitial || src == Element || src == ElementDelimiter
    case _ => false
  }

  /** The states in which a value comes next. */
  predicate ExpectsValue(state: State) {
    state == Start || state == KeyValueDelimiter || state == ArrayInitial || state == ElementDelimiter
  }

  /** Table G: current state and look-ahead token to candidate state. */
  function Predict(state: State, token: Token): (dst: State)
    ensures dst == Error || Follows(state, dst)
    ensures dst == Error || MadeOn(dst, token)
  {
    match state
    case Start => PredictValue(token, Value)
    case ObjectInitial =>
      (match token case RightCurlyBracket => ObjectFinish case StringToken => MemberKey case _ => Error)
    case MemberKey => if token == Colon then KeyValueDelimiter else Error
    case KeyValueDelimiter => PredictValue(token, MemberValue)
    case MemberValue =>
      (match token case RightCurlyBracket => ObjectFinish case Comma => MemberDelimiter case _ => Error)
    case MemberDelimiter =>
      (match token case RightCurlyBracket => ObjectFinish case StringToken => MemberKey case _ => Error)
    case ArrayInitial => if token == RightBracket then ArrayFinish else PredictValue(token, Element)
    case Element =>
      (match token case RightBracket => ArrayFinish case Comma => ElementDelimiter case _ => Error)
    case ElementDelimiter => if token == RightBracket then ArrayFinish else PredictValue(token, Element)
    case _ => Error
  }

  /** The look-ahead a move is made on. */
  predicate MadeOn(dst: State, token: Token) {
    match dst
    case ObjectInitial => token == LeftCurlyBracket
    case ArrayInitial => token == LeftBracket
    case MemberKey => token == StringToken
    case KeyValueDelimiter => token == Colon
    case MemberDelimiter => token == Comma
    case ElementDelimiter => token == Comma
    case ObjectFinish => token == RightCurlyBracket
    case ArrayFinish => token == RightBracket
    case Value => IsScalar(token)
    case MemberValue => IsScalar(token)
    case Element => IsScalar(token)
    case _ => false
  }

  predicate IsScalar(token: Token) {
    token == StringToken || token == FalseToken || token == TrueToken || token == NullToken || token == NumberToken
  }

  /** Table G predicts exactly the move that the state allows and the look-ahead asks for; Error stands where there
      is none. */
  lemma PredictExact(state: State, token: Token, dst: State)
    requires dst != Error
    ensures Predict(state, token) == dst <==> Follows(state, dst) && MadeOn(dst, token)
  {
    if Follows(state, dst) && MadeOn(dst, token) {
      match state
      case Start =>
      case KeyValueDelimiter =>
      case ArrayInitial =>
      case ElementDelimiter =>
      case _ =>
    }
  }

  /** A key is predicted on a quote only. */
  lemma KeyToken(state: State, c: Byte)
    ensures Predict(state, Tokenize(c)) == MemberKey ==> c == QUOTE
  {
    hide Predict;
  }

  /** The two numbers Transit pushes for an open container: the state to resume in and the count so far. */
  datatype Frame = Frame(resume: State, count: nat)

  /** internal::Stack as IterativeParse uses it, innermost frame first. */
  datatype Stack = Empty | Push(top: Frame, rest: Stack)

  datatype Config = Config(state: State, stack: Stack, pos: nat, log: seq<Event>)

  /** The states between the brackets of a container. */
  predicate Inside(state: State) {
    match state
    case ObjectInitial => true
    case MemberKey => true
    case KeyValueDelimiter => true
    case MemberValue => true
    case MemberDelimiter => true
    case ArrayInitial => true
    case Element => true
    case ElementDelimiter => true
    case _ => false
  }

  /** The outermost frame, and no other, resumes in Start. */
  predicate ValidStack(stack: Stack) {
    match stack
    case Empty => true
    case Push(frame, rest) =>
      ValidStack(rest) &&
      if rest.Empty? then frame.resume == Start else frame.resume == Element || frame.resume == MemberValue
  }

  /** Start and Finish have no open container, every other live state has one. */
  predicate Valid(c: Config) {
    ValidStack(c.stack) && if c.stack.Empty? then c.state == Start || c.state == Finish else Inside(c.state)
  }

  /** HandleError: the error code that belongs to a state in which the input does not fit. */
  function ErrorOf(state: State): ErrorCode {
    match state
    case Start => DocumentEmpty
    case Finish => DocumentRootNotSingular
    case ObjectInitial => ObjectMissName
    case MemberDelimiter => ObjectMissName
    case MemberKey => ObjectMissColon
    case MemberValue => ObjectMissCommaOrCurlyBracket
    case KeyValueDelimiter => ValueInvalid
    case ArrayInitial => ValueInvalid
    case ElementDelimiter => ValueInvalid
    case _ => ArrayMissCommaOrSquareBracket
  }

  /** A step of the automaton ends in another configuration or in an error. */
  datatype Step = Next(c: Config) | Stop(r: Outcome)

  function ResumeState(src: State): State {
    match src
    case ArrayInitial => Element
    case ElementDelimiter => Element
    case KeyValueDelimiter => MemberValue
    case _ => src
  }

  /** The state behind the innermost open container. */
  function Popped(stack: Stack): State
    requires stack.Push?
  {
    if stack.top.resume == Start then Finish else stack.top.resume
  }

  /** The innermost count plus one. */
  function Counted(stack: Stack): Stack
    requires stack.Push?
  {
    Push(Frame(stack.top.resume, stack.top.count + 1), stack.rest)
  }

  /** Close the innermost container; a value read since the last comma is still to be counted. */
  function CloseObject(c: Config): Config
    requires c.stack.Push?
  {
    var n := if c.state == MemberValue then c.stack.top.count + 1 else c.stack.top.count;
    Config(Popped(c.stack), c.stack.rest, c.pos + 1, c.log + [EEndObject(n)])
  }

  function CloseArray(c: Config): Config
    requires c.stack.Push?
  {
    var n := if c.state == Element then c.stack.top.count + 1 else c.stack.top.count;
    Config(Popped(c.stack), c.stack.rest, c.pos + 1, c.log + [EEndArray(n)])
  }

  function Leaf(c: Config, r: Outcome, dst: State): Step {
    match r
    case Ok(pos, log) => Next(Config(dst, c.stack, pos, log))
    case Err(_, _, _) => Stop(r)
  }

  /** Predict and Transit at a character that is not NUL. */
  function Advance(f: Flags, t: Text, c: Config): (s: Step)
    requires Valid(c) && c.pos <= |t| && Peek(t, c.pos) != NUL
    ensures s.Next? ==> Valid(s.c) && c.pos < s.c.pos <= |t|
  {
    var dst := Predict(c.state, Tokenize(Peek(t, c.pos)));
    Transit(f, t, c, dst)
  }

  function Transit(f: Flags, t: Text, c: Config, dst: State): (s: Step)
    requires Valid(c) && c.pos < |t|
    requires dst == Error || Follows(c.state, dst)
    requires dst == MemberKey ==> t[c.pos] == QUOTE
    ensures s.Next? ==> Valid(s.c) && c.pos < s.c.pos <= |t|
  {
    match dst
    case Error => Stop(Err(ErrorOf(c.state), c.pos, c.log))
    case ObjectInitial =>
      Next(Config(dst, Push(Frame(ResumeState(c.state), 0), c.stack), c.pos + 1, c.log + [EStartObject]))
    case ArrayInitial =>
      Next(Config(dst, Push(Frame(ResumeState(c.state), 0), c.stack), c.pos + 1, c.log + [EStartArray]))
    case MemberKey => Leaf(c, ParseString(f, t, c.pos, c.log, true), dst)
    case KeyValueDelimiter => Next(Config(dst, c.stack, c.pos + 1, c.log))
    case MemberValue => Leaf(c, ParseScalar(f, t, c.pos, c.log), dst)
    case Element => Leaf(c, ParseScalar(f, t, c.pos, c.log), dst)
    case MemberDelimiter => Next(Config(dst, Counted(c.stack), c.pos + 1, c.log))
    case ElementDelimiter => Next(Config(dst, Counted(c.stack), c.pos + 1, c.log))
    case ObjectFinish =>
      if !f.trailingCommas && c.state == MemberDelimiter then Stop(Err(ObjectMissName, c.pos, c.log))
      else Next(CloseObject(c))
    case ArrayFinish =>
      if !f.trailingCommas && c.state == ElementDelimiter then Stop(Err(ValueInvalid, c.pos, c.log))
      else Next(CloseArray(c))
    case Value => Leaf(c, ParseScalar(f, t, c.pos, c.log), Finish)
  }

  /** The while loop of IterativeParse, blanks before the cursor skipped. */
  function Loop(f: Flags, t: Text, c: Config): Outcome
    requires Valid(c) && c.pos <= |t|
    decreases |t| - c.pos, 1
  {
    if Peek(t, c.pos) == NUL then
      if c.state == Finish then Ok(c.pos, c.log) else Err(ErrorOf(c.state), c.pos, c.log)
    else
      match Advance(f, t, c)
      case Stop(r) => r
      case Next(d) => Resume(f, t, d)
  }

  /** The end of an iteration: stop when done, otherwise skip blanks and go round. */
  function Resume(f: Flags, t: Text, c: Config): Outcome
    requires Valid(c) && c.pos <= |t|
    decreases |t| - c.pos, 2
  {
    if f.stopWhenDone && c.state == Finish then Ok(c.pos, c.log)
    else
      var (p, log) :- Blanks(f, t, c.pos, c.log);
      Loop(f, t, c.(pos := p))
  }

  /** IterativeParse, wherever the stream stands. */
  function IterativeParseFrom(f: Flags, t: Text, p: nat, log: seq<Event>): Outcome
    requires p <= |t|
  {
    var (p, log) :- Blanks(f, t, p, log);
    Loop(f, t, Config(Start, Empty, p, log))
  }

  function IterativeParse(f: Flags, t: Text): Outcome {
    IterativeParseFrom(f, t, 0, [])
  }

  // ---- Refinement ----

  /** The state after the value. */
  function AfterValue(state: State): State
    requires ExpectsValue(state)
  {
    if state == Start then Finish else ResumeState(state)
  }

  /** A parse of a sub-term followed by the rest of the automaton's run. */
  function Then(f: Flags, t: Text, r: Outcome, state: State, stack: Stack): Outcome
    requires r.Ok? ==> r.pos <= |t| && Valid(Config(state, stack, r.pos, r.log))
  {
    var (p, log) :- r;
    Resume(f, t, Config(state, stack, p, log))
  }

  predicate IsPunctuation(c: Byte) {
    c == RBRACKET || c == RBRACE || c == COMMA || c == COLON
  }

  /** One turn of the loop. */
  lemma Turn(f: Flags, t: Text, c: Config)
    requires Valid(c) && c.pos <= |t| && Peek(t, c.pos) != NUL
    ensures Advance(f, t, c).Stop? ==> Loop(f, t, c) == Advance(f, t, c).r
    ensures Advance(f, t, c).Next? ==> Loop(f, t, c) == Resume(f, t, Advance(f, t, c).c)
  {
    hide ParseScalar, ParseString, Skip;
  }

  /** A turn of the loop, told by its move. */
  lemma TurnMoves(f: Flags, t: Text, c: Config)
    requires Valid(c) && c.pos <= |t| && Peek(t, c.pos) != NUL
    ensures var s := Transit(f, t, c, Predict(c.state, Tokenize(Peek(t, c.pos))));
            Loop(f, t, c) == if s.Stop? then s.r else Resume(f, t, s.c)
  {
    hide Loop, Resume, Transit, Predict, Tokenize;
    Turn(f, t, c);
  }

  /** The end of the text. */
  lemma LoopEnds(f: Flags, t: Text, c: Config)
    requires Valid(c) && c.pos <= |t| && Peek(t, c.pos) == NUL
    ensures Loop(f, t, c) == if c.state == Finish then Ok(c.pos, c.log) else Err(ErrorOf(c.state), c.pos, c.log)
  {
  }

  /** The end of a turn. */
  lemma ResumeSteps(f: Flags, t: Text, c: Config)
    requires Valid(c) && c.pos <= |t|
    ensures f.stopWhenDone && c.state == Finish ==> Resume(f, t, c) == Ok(c.pos, c.log)
    ensures !(f.stopWhenDone && c.state == Finish) ==>
              var b := Blanks(f, t, c.pos, c.log);
              Resume(f, t, c) == if b.Err? then b else Loop(f, t, c.(pos := b.pos))
  {
    hide Skip;
  }

  /** An opening bracket where a value is expected pushes a frame. */
  lemma TurnOpen(f: Flags, t: Text, c: Config)
    requires Valid(c) && c.pos < |t| && ExpectsValue(c.state)
    ensures var stack := Push(Frame(ResumeState(c.state), 0), c.stack);
            && ValidStack(stack) && Popped(stack) == AfterValue(c.state)
            && (t[c.pos] == LBRACE ==>
                 Loop(f, t, c) == Resume(f, t, Config(ObjectInitial, stack, c.pos + 1, c.log + [EStartObject])))
            && (t[c.pos] == LBRACKET ==>
                 Loop(f, t, c) == Resume(f, t, Config(ArrayInitial, stack, c.pos + 1, c.log + [EStartArray])))
  {
    hide ParseScalar, ParseString, Skip;
    if t[c.pos] == LBRACE || t[c.pos] == LBRACKET {
      Turn(f, t, c);
    }
  }

  /** A closing bracket pops the frame. */
  lemma TurnCloseObject(f: Flags, t: Text, c: Config)
    requires Valid(c) && c.pos < |t| && t[c.pos] == RBRACE
    requires c.state == ObjectInitial || c.state == MemberValue || (c.state == MemberDelimiter && f.trailingCommas)
    ensures Valid(CloseObject(c)) && Loop(f, t, c) == Resume(f, t, CloseObject(c))
  {
    hide ParseScalar, ParseString, Skip;
    Turn(f, t, c);
    assert Advance(f, t, c) == Next(CloseObject(c));
  }

  lemma TurnCloseArray(f: Flags, t: Text, c: Config)
    requires Valid(c) && c.pos < |t| && t[c.pos] == RBRACKET
    requires c.state == ArrayInitial || c.state == Element || (c.state == ElementDelimiter && f.trailingCommas)
    ensures Valid(CloseArray(c)) && Loop(f, t, c) == Resume(f, t, CloseArray(c))
  {
    hide ParseScalar, ParseString, Skip;
    Turn(f, t, c);
    assert Advance(f, t, c) == Next(CloseArray(c));
  }

  /** A comma behind a value counts it. */
  lemma TurnComma(f: Flags, t: Text, c: Config)
    requires Valid(c) && c.pos < |t| && t[c.pos] == COMMA && (c.state == MemberValue || c.state == Element)
    ensures var d := Config(if c.state == Element then ElementDelimiter
            else MemberDelimiter, Counted(c.stack), c.pos + 1, c.log);
            Valid(d) && Loop(f, t, c) == Resume(f, t, d)
  {
    hide ParseScalar, ParseString, Skip;
    Turn(f, t, c);
  }

  /** Inside a container, blanks are skipped and the loop goes on. */
  lemma ResumeInside(f: Flags, t: Text, c: Config)
    requires Valid(c) && c.pos <= |t| && Inside(c.state)
    ensures var b := Blanks(f, t, c.pos, c.log);
            Resume(f, t, c) == if b.Err? then b else Loop(f, t, c.(pos := b.pos))
  {
    hide ParseScalar, ParseString, Skip;
  }

  /** A punctuation character or the end of the text is no value. */
  lemma NoValue(f: Flags, t: Text, p: nat, log: seq<Event>)
    requires p <= |t| && (Peek(t, p) == NUL || IsPunctuation(Peek(t, p)))
    ensures ParseValue(f, t, p, log) == Err(ValueInvalid, p, log)
  {
  }

  /** From a state that expects a value the automaton does what ParseValue does, and goes on behind the value. */
  lemma {:induction false} ValueRefined(f: Flags, t: Text, c: Config)
    requires Valid(c) && c.pos <= |t| && ExpectsValue(c.state)
    requires c.state == Start ==> Peek(t, c.pos) != NUL && !IsPunctuation(Peek(t, c.pos))
    requires c.state == ArrayInitial || (c.state == ElementDelimiter && f.trailingCommas) ==> Peek(t, c.pos) != RBRACKET
    ensures Loop(f, t, c) == Then(f, t, ParseValue(f, t, c.pos, c.log), AfterValue(c.state), c.stack)
    decreases |t| - c.pos, 1
  {
    hide ParseScalar, ParseString, Skip;
    var b := Peek(t, c.pos);
    if b == LBRACE {
      ObjectRefined(f, t, c);
    } else if b == LBRACKET {
      ArrayRefined(f, t, c);
    } else if b == NUL || IsPunctuation(b) {
      NoValue(f, t, c.pos, c.log);
    } else {
      ScalarRefined(f, t, c);
    }
  }

  lemma ScalarRefined(f: Flags, t: Text, c: Config)
    requires Valid(c) && c.pos <= |t| && ExpectsValue(c.state)
    requires var b := Peek(t, c.pos); b != NUL && !IsPunctuation(b) && b != LBRACE && b != LBRACKET
    ensures Loop(f, t, c) == Then(f, t, ParseScalar(f, t, c.pos, c.log), AfterValue(c.state), c.stack)
  {
    hide ParseScalar, ParseString, Skip;
    Turn(f, t, c);
    assert Advance(f, t, c) == Leaf(c, ParseScalar(f, t, c.pos, c.log), AfterValue(c.state));
  }

  lemma {:induction false} ObjectRefined(f: Flags, t: Text, c: Config)
    requires Valid(c) && c.pos <= |t| && ExpectsValue(c.state) && Peek(t, c.pos) == LBRACE
    ensures Loop(f, t, c) == Then(f, t, ParseObject(f, t, c.pos, c.log), AfterValue(c.state), c.stack)
    decreases |t| - c.pos, 0
  {
    hide Skip, Loop, Resume, ParseMembers;
    var stack := Push(Frame(ResumeState(c.state), 0), c.stack);
    TurnOpen(f, t, c);
    ResumeInside(f, t, Config(ObjectInitial, stack, c.pos + 1, c.log + [EStartObject]));
    var r := Blanks(f, t, c.pos + 1, c.log + [EStartObject]);
    if r.Ok? {
      var e := Config(ObjectInitial, stack, r.pos, r.log);
      assert Loop(f, t, c) == Loop(f, t, e);
      if Peek(t, e.pos) == RBRACE {
        TurnCloseObject(f, t, e);
      } else {
        MembersRefined(f, t, e);
      }
    }
  }

  /** In ObjectInitial or MemberDelimiter, at a name: the rest of the object. */
  lemma {:induction false} MembersRefined(f: Flags, t: Text, c: Config)
    requires Valid(c) && c.pos <= |t|
    requires c.state == ObjectInitial || c.state == MemberDelimiter
    requires f.trailingCommas || c.state == ObjectInitial ==> Peek(t, c.pos) != RBRACE
    ensures Loop(f, t, c) ==
            Then(f, t, ParseMembers(f, t, c.pos, c.log, c.stack.top.count), Popped(c.stack), c.stack.rest)
    decreases |t| - c.pos, 2
  {
    hide ParseMembers, ParseMemberValue, ParseKey, Skip, Loop, Resume;
    MembersCases(f, t, c.pos, c.log, c.stack.top.count);
    if Peek(t, c.pos) == QUOTE {
      KeyRefined(f, t, c);
      var r := ParseKey(f, t, c.pos, c.log);
      if r.Ok? {
        MemberValueRefined(f, t, Config(KeyValueDelimiter, c.stack, r.pos, r.log));
      }
    } else {
      NameMissing(f, t, c);
    }
  }

  /** What the recursive parser does where a name is due. */
  lemma MembersCases(f: Flags, t: Text, p: nat, log: seq<Event>, count: nat)
    requires p <= |t|
    ensures var r := ParseMembers(f, t, p, log, count);
            if Peek(t, p) != QUOTE then r == Err(ObjectMissName, p, log)
            else
              var k := ParseKey(f, t, p, log);
              r == if k.Err? then k else ParseMemberValue(f, t, k.pos, k.log, count)
  {
    hide ParseString, Blanks, ParseMemberValue;
  }

  /** At any other character, or at the end of the text, the automaton reports the missing name. */
  lemma NameMissing(f: Flags, t: Text, c: Config)
    requires Valid(c) && c.pos <= |t| && Peek(t, c.pos) != QUOTE
    requires c.state == ObjectInitial || c.state == MemberDelimiter
    requires f.trailingCommas || c.state == ObjectInitial ==> Peek(t, c.pos) != RBRACE
    ensures Loop(f, t, c) == Err(ObjectMissName, c.pos, c.log)
  {
    hide ParseScalar, ParseString, Skip, Resume;
    if Peek(t, c.pos) != NUL {
      Turn(f, t, c);
    }
  }

  /** The name of a member and its colon. */
  function ParseKey(f: Flags, t: Text, p: nat, log: seq<Event>): (r: Outcome)
    requires Peek(t, p) == QUOTE
    ensures r.Ok? ==> p < r.pos <= |t|
  {
    var (p, log) :- ParseString(f, t, p, log, true);
    var (p, log) :- Blanks(f, t, p, log);
    if Peek(t, p) != COLON then Err(ObjectMissColon, p, log) else Ok(p + 1, log)
  }

  lemma KeyRefined(f: Flags, t: Text, c: Config)
    requires Valid(c) && c.pos <= |t| && Peek(t, c.pos) == QUOTE
    requires c.state == ObjectInitial || c.state == MemberDelimiter
    ensures Loop(f, t, c) == Then(f, t, ParseKey(f, t, c.pos, c.log), KeyValueDelimiter, c.stack)
  {
    hide ParseScalar, ParseString, Skip;
    Turn(f, t, c);
    assert Advance(f, t, c) == Leaf(c, ParseString(f, t, c.pos, c.log, true), MemberKey);
    var r := ParseString(f, t, c.pos, c.log, true);
    if r.Ok? {
      var b := Blanks(f, t, r.pos, r.log);
      if b.Ok? {
        var d := Config(MemberKey, c.stack, b.pos, b.log);
        assert Loop(f, t, c) == Loop(f, t, d);
        if Peek(t, d.pos) != NUL {
          Turn(f, t, d);
          assert Advance(f, t, d) == if Peek(t, d.pos) == COLON then
                 Next(Config(KeyValueDelimiter, c.stack, d.pos + 1, d.log))
                                     else Stop(Err(ObjectMissColon, d.pos, d.log));
        }
      }
    }
  }

  lemma {:induction false} MemberValueRefined(f: Flags, t: Text, c: Config)
    requires Valid(c) && c.pos <= |t| && c.state == KeyValueDelimiter
    ensures Resume(f, t, c) ==
            Then(f, t, ParseMemberValue(f, t, c.pos, c.log, c.stack.top.count), Popped(c.stack), c.stack.rest)
    decreases |t| - c.pos, 3
  {
    hide Skip, Loop, Resume, ParseValue, ParseMembersTail;
    ResumeInside(f, t, c);
    var b := Blanks(f, t, c.pos, c.log);
    if b.Ok? {
      ValueRefined(f, t, c.(pos := b.pos));
      var r := ParseValue(f, t, b.pos, b.log);
      if r.Ok? {
        ResumeInside(f, t, Config(MemberValue, c.stack, r.pos, r.log));
        var b := Blanks(f, t, r.pos, r.log);
        if b.Ok? {
          var d := Config(MemberValue, c.stack, b.pos, b.log);
          assert Resume(f, t, c) == Loop(f, t, d);
          MembersTailRefined(f, t, d);
        }
      }
    }
  }

  /** What the recursive parser does behind the value of a member. */
  lemma MembersTailCases(f: Flags, t: Text, p: nat, log: seq<Event>, count: nat)
    requires p <= |t|
    ensures var r := ParseMembersTail(f, t, p, log, count);
            if Peek(t, p) == RBRACE then r == Ok(p + 1, log + [EEndObject(count)])
            else if Peek(t, p) != COMMA then r == Err(ObjectMissCommaOrCurlyBracket, p, log)
            else r == MembersComma(f, t, p + 1, log, count)
  {
    hide Skip, ParseMembers;
  }

  /** At any other character, or at the end of the text, the automaton reports the missing delimiter. */
  lemma MembersDelimiterMissing(f: Flags, t: Text, d: Config)
    requires Valid(d) && d.pos <= |t| && d.state == MemberValue && Peek(t, d.pos) != RBRACE && Peek(t, d.pos) != COMMA
    ensures Loop(f, t, d) == Err(ObjectMissCommaOrCurlyBracket, d.pos, d.log)
  {
    hide Skip, ParseScalar, ParseString, Resume;
    if Peek(t, d.pos) != NUL {
      Turn(f, t, d);
    }
  }

  /** In MemberValue: close the object or go on behind a comma. */
  lemma {:induction false} MembersTailRefined(f: Flags, t: Text, d: Config)
    requires Valid(d) && d.pos <= |t| && d.state == MemberValue
    ensures Loop(f, t, d) ==
            Then(f, t, ParseMembersTail(f, t, d.pos, d.log, d.stack.top.count + 1), Popped(d.stack), d.stack.rest)
    decreases |t| - d.pos, 2
  {
    hide ParseMembersTail, MembersComma, Skip, Loop, Resume;
    var c := Peek(t, d.pos);
    MembersTailCases(f, t, d.pos, d.log, d.stack.top.count + 1);
    if c == RBRACE {
      TurnCloseObject(f, t, d);
    } else if c == COMMA {
      TurnComma(f, t, d);
      MembersCommaRefined(f, t, Config(MemberDelimiter, Counted(d.stack), d.pos + 1, d.log));
    } else {
      MembersDelimiterMissing(f, t, d);
    }
  }

  /** Behind a comma. */
  lemma {:induction false} MembersCommaRefined(f: Flags, t: Text, d: Config)
    requires Valid(d) && d.pos <= |t| && d.state == MemberDelimiter
    ensures Resume(f, t, d) ==
            Then(f, t, MembersComma(f, t, d.pos, d.log, d.stack.top.count), Popped(d.stack), d.stack.rest)
    decreases |t| - d.pos, 3
  {
    hide ParseScalar, ParseString, Skip, ParseMembersTail;
    ResumeInside(f, t, d);
    var b := Blanks(f, t, d.pos, d.log);
    if b.Ok? {
      var e := d.(pos := b.pos);
      if f.trailingCommas && Peek(t, e.pos) == RBRACE {
        TurnCloseObject(f, t, e);
      } else {
        MembersRefined(f, t, e);
      }
    }
  }

  function MembersComma(f: Flags, t: Text, p: nat, log: seq<Event>, count: nat): (r: Outcome)
    requires p <= |t|
    ensures r.Ok? ==> p < r.pos <= |t|
  {
    var (p, log) :- Blanks(f, t, p, log);
    if f.trailingCommas && Peek(t, p) == RBRACE then Ok(p + 1, log + [EEndObject(count)])
    else ParseMembers(f, t, p, log, count)
  }

  lemma {:induction false} ArrayRefined(f: Flags, t: Text, c: Config)
    requires Valid(c) && c.pos <= |t| && ExpectsValue(c.state) && Peek(t, c.pos) == LBRACKET
    ensures Loop(f, t, c) == Then(f, t, ParseArray(f, t, c.pos, c.log), AfterValue(c.state), c.stack)
    decreases |t| - c.pos, 0
  {
    hide Skip, Loop, Resume, ParseElements;
    var stack := Push(Frame(ResumeState(c.state), 0), c.stack);
    TurnOpen(f, t, c);
    ResumeInside(f, t, Config(ArrayInitial, stack, c.pos + 1, c.log + [EStartArray]));
    var r := Blanks(f, t, c.pos + 1, c.log + [EStartArray]);
    if r.Ok? {
      var e := Config(ArrayInitial, stack, r.pos, r.log);
      assert Loop(f, t, c) == Loop(f, t, e);
      if Peek(t, e.pos) == RBRACKET {
        TurnCloseArray(f, t, e);
      } else {
        ElementsRefined(f, t, e);
      }
    }
  }

  /** In ArrayInitial or ElementDelimiter, at an element: the rest of the array. */
  lemma {:induction false} ElementsRefined(f: Flags, t: Text, c: Config)
    requires Valid(c) && c.pos <= |t|
    requires c.state == ArrayInitial || c.state == ElementDelimiter
    requires f.trailingCommas || c.state == ArrayInitial ==> Peek(t, c.pos) != RBRACKET
    ensures Loop(f, t, c) ==
            Then(f, t, ParseElements(f, t, c.pos, c.log, c.stack.top.count), Popped(c.stack), c.stack.rest)
    decreases |t| - c.pos, 2
  {
    hide Skip, Loop, Resume, ParseValue, ParseElementsTail;
    ValueRefined(f, t, c);
    var r := ParseValue(f, t, c.pos, c.log);
    if r.Ok? {
      ResumeInside(f, t, Config(Element, c.stack, r.pos, r.log));
      var b := Blanks(f, t, r.pos, r.log);
      if b.Ok? {
        var d := Config(Element, c.stack, b.pos, b.log);
        assert Loop(f, t, c) == Loop(f, t, d);
        ElementsTailRefined(f, t, d);
      }
    }
  }

  /** What the recursive parser does behind an element. */
  lemma ElementsTailCases(f: Flags, t: Text, p: nat, log: seq<Event>, count: nat)
    requires p <= |t|
    ensures var r := ParseElementsTail(f, t, p, log, count);
            if Peek(t, p) == RBRACKET then r == Ok(p + 1, log + [EEndArray(count)])
            else if Peek(t, p) != COMMA then r == Err(ArrayMissCommaOrSquareBracket, p, log)
            else r == ElementsComma(f, t, p + 1, log, count)
  {
    hide Skip, ParseElements;
  }

  /** At any other character, or at the end of the text, the automaton reports the missing delimiter. */
  lemma ElementsDelimiterMissing(f: Flags, t: Text, d: Config)
    requires Valid(d) && d.pos <= |t| && d.state == Element && Peek(t, d.pos) != RBRACKET && Peek(t, d.pos) != COMMA
    ensures Loop(f, t, d) == Err(ArrayMissCommaOrSquareBracket, d.pos, d.log)
  {
    hide Skip, ParseScalar, ParseString, Resume;
    if Peek(t, d.pos) != NUL {
      Turn(f, t, d);
    }
  }

  /** In Element: close the array or go on behind a comma. */
  lemma {:induction false} ElementsTailRefined(f: Flags, t: Text, d: Config)
    requires Valid(d) && d.pos <= |t| && d.state == Element
    ensures Loop(f, t, d) ==
            Then(f, t, ParseElementsTail(f, t, d.pos, d.log, d.stack.top.count + 1), Popped(d.stack), d.stack.rest)
    decreases |t| - d.pos, 2
  {
    hide ParseElementsTail, ElementsComma, Skip, Loop, Resume;
    var c := Peek(t, d.pos);
    ElementsTailCases(f, t, d.pos, d.log, d.stack.top.count + 1);
    if c == RBRACKET {
      TurnCloseArray(f, t, d);
    } else if c == COMMA {
      TurnComma(f, t, d);
      ElementsCommaRefined(f, t, Config(ElementDelimiter, Counted(d.stack), d.pos + 1, d.log));
    } else {
      ElementsDelimiterMissing(f, t, d);
    }
  }

  /** Behind a comma. */
  lemma {:induction false} ElementsCommaRefined(f: Flags, t: Text, d: Config)
    requires Valid(d) && d.pos <= |t| && d.state == ElementDelimiter
    ensures Resume(f, t, d) ==
            Then(f, t, ElementsComma(f, t, d.pos, d.log, d.stack.top.count), Popped(d.stack), d.stack.rest)
    decreases |t| - d.pos, 3
  {
    hide ParseScalar, ParseString, Skip, ParseElementsTail;
    ResumeInside(f, t, d);
    var b := Blanks(f, t, d.pos, d.log);
    if b.Ok? {
      var e := d.(pos := b.pos);
      if f.trailingCommas && Peek(t, e.pos) == RBRACKET {
        TurnCloseArray(f, t, e);
      } else {
        ElementsRefined(f, t, e);
      }
    }
  }

  function ElementsComma(f: Flags, t: Text, p: nat, log: seq<Event>, count: nat): (r: Outcome)
    requires p <= |t|
    ensures r.Ok? ==> p < r.pos <= |t|
  {
    var (p, log) :- Blanks(f, t, p, log);
    if f.trailingCommas && Peek(t, p) == RBRACKET then Ok(p + 1, log + [EEndArray(count)])
    else ParseElements(f, t, p, log, count)
  }

  /** The first character from `p` on that is neither blank nor in a comment; NUL when the text ends or a comment is
      malformed. */
  function FirstCharacter(f: Flags, t: Text, p: nat): Byte
    requires p <= |t|
  {
    match Skip(f, t, p)
    case Bad(_, _) => NUL
    case Got(q, _) => Peek(t, q)
  }

  /** Wherever they start, the two parsers agree on events, verdict, error code and offset, except in front of a
      closing or separating character, which both reject at the same offset under different codes. */
  lemma IterativeRefinesRecursive(f: Flags, t: Text, p: nat, log: seq<Event>)
    requires p <= |t|
    ensures IterativeParseFrom(f, t, p, log) == ParseFrom(f, t, p, log) <==> !IsPunctuation(FirstCharacter(f, t, p))
    ensures IsPunctuation(FirstCharacter(f, t, p)) ==>
              && ParseFrom(f, t, p, log) == Err(ValueInvalid, Skip(f, t, p).pos, log)
              && IterativeParseFrom(f, t, p, log) == Err(DocumentEmpty, Skip(f, t, p).pos, log)
  {
    hide ParseScalar, ParseString, Skip;
    var b := Blanks(f, t, p, log);
    if b.Ok? && Peek(t, b.pos) != NUL {
      var c := Config(Start, Empty, b.pos, log);
      if IsPunctuation(Peek(t, b.pos)) {
        Turn(f, t, c);
        NoValue(f, t, b.pos, log);
      } else {
        ValueRefined(f, t, c);
        var r := ParseValue(f, t, b.pos, log);
        if r.Ok? {
          EndRefined(f, t, r.pos, r.log);
        }
      }
    }
  }

  lemma EndRefined(f: Flags, t: Text, p: nat, log: seq<Event>)
    requires p <= |t|
    ensures Resume(f, t, Config(Finish, Empty, p, log)) == ParseEnd(f, t, p, log)
  {
    hide ParseScalar, ParseString, Skip;
    var b := Blanks(f, t, p, log);
    if b.Ok? && Peek(t, b.pos) != NUL {
      Turn(f, t, Config(Finish, Empty, b.pos, log));
    }
  }
}

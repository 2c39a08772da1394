/** What the scanner takes beyond RFC 8259: comments, the words of NaN and infinity, and the sign of zero. */
module Lenient {
  import opened Bytes
  import opened Json
  import opened Scanner

  // ---- Comments ----

  /** A blank, a block comment, or a line comment with its line break. */
  datatype Gap = Space(c: Byte) | Block(body: Text) | Line(body: Text)

  predicate ValidGap(g: Gap) {
    match g
    case Space(c) => IsSpace(c)
    case Block(body) => NUL !in body && ClosedAtEnd(body)
    case Line(body) => NUL !in body && LF !in body
  }

  /** The end mark does not occur before the end of the comment. */
  predicate ClosedAtEnd(body: Text) {
    body == [] || (!(body[0] == STAR && (if |body| == 1 then STAR else body[1]) == SLASH) && ClosedAtEnd(body[1..]))
  }

  function GapText(g: Gap): Text {
    match g
    case Space(c) => [c]
    case Block(body) => [SLASH, STAR] + (body + [STAR, SLASH])
    case Line(body) => [SLASH, SLASH] + (body + [LF])
  }

  predicate ValidGaps(gs: seq<Gap>) {
    gs == [] || (ValidGap(gs[0]) && ValidGaps(gs[1..]))
  }

  function GapsText(gs: seq<Gap>): Text {
    if gs == [] then [] else GapText(gs[0]) + GapsText(gs[1..])
  }

  lemma AtFirst(t: Text, p: nat, c: Byte, s: Text)
    ensures At(t, p, [c] + s) <==> p < |t| && t[p] == c && At(t, p + 1, s)
  {
    AtConcat(t, p, [c], s);
    if p < |t| {
      assert t[p..p + 1] == [t[p]];
    }
  }

  /** A block comment is skipped to its first end mark. */
  lemma {:induction false} BlockSkipped(t: Text, p: nat, body: Text)
    requires NUL !in body && ClosedAtEnd(body) && At(t, p, body + [STAR, SLASH])
    ensures SkipBlock(t, p) == Got(p + |body| + 2, ())
    decreases |body|
  {
    if body == [] {
      assert body + [STAR, SLASH] == [STAR] + ([SLASH] + []);
      AtFirst(t, p, STAR, [SLASH] + []);
      AtFirst(t, p + 1, SLASH, []);
    } else {
      var rest := body[1..] + [STAR, SLASH];
      assert body + [STAR, SLASH] == [body[0]] + rest;
      AtFirst(t, p, body[0], rest);
      AtIndex(t, p + 1, rest, 0);
      BlockSkipped(t, p + 1, body[1..]);
    }
  }

  lemma {:induction false} BlockDerives(t: Text, p: nat) returns (body: Text)
    requires p <= |t| && SkipBlock(t, p).Got?
    ensures NUL !in body && ClosedAtEnd(body) && At(t, p, body + [STAR, SLASH]) && SkipBlock(t, p).pos == p + |body| + 2
    decreases |t| - p
  {
    if Peek(t, p) == STAR && Peek(t, p + 1) == SLASH {
      body := [];
      assert body + [STAR, SLASH] == [STAR] + ([SLASH] + []);
      AtNone(t, p + 2);
      AtFirst(t, p + 1, SLASH, []);
      AtFirst(t, p, STAR, [SLASH] + []);
    } else {
      var rest := BlockDerives(t, p + 1);
      body := [t[p]] + rest;
      assert body[1..] == rest;
      assert body + [STAR, SLASH] == [t[p]] + (rest + [STAR, SLASH]);
      AtIndex(t, p + 1, rest + [STAR, SLASH], 0);
      AtFirst(t, p, t[p], rest + [STAR, SLASH]);
    }
  }

  lemma {:induction false} LineSkipped(t: Text, p: nat, body: Text)
    requires NUL !in body && LF !in body && At(t, p, body)
    ensures Peek(t, p + |body|) == LF ==> SkipLine(t, p) == p + |body| + 1
    ensures Peek(t, p + |body|) == NUL ==> SkipLine(t, p) == p + |body|
    decreases |body|
  {
    if body != [] {
      assert body == [body[0]] + body[1..];
      AtFirst(t, p, body[0], body[1..]);
      LineSkipped(t, p + 1, body[1..]);
    }
  }

  lemma {:induction false} LineDerives(t: Text, p: nat) returns (body: Text)
    requires p <= |t|
    ensures NUL !in body && LF !in body && At(t, p, body)
    ensures SkipLine(t, p) == if Peek(t, p + |body|) == LF then p + |body| + 1 else p + |body|
    ensures Peek(t, p + |body|) == LF || Peek(t, p + |body|) == NUL
    decreases |t| - p
  {
    if Peek(t, p) == NUL || Peek(t, p) == LF {
      body := [];
      AtNone(t, p);
    } else {
      var rest := LineDerives(t, p + 1);
      body := [t[p]] + rest;
      AtFirst(t, p, t[p], rest);
    }
  }

  /** The end of a line comment that the end of the text cuts off, or nothing. */
  datatype Tail = NoTail | CutLine(body: Text)

  predicate ValidTail(t: Text, p: nat, tail: Tail) {
    match tail
    case NoTail => !IsSpace(Peek(t, p)) && Peek(t, p) != SLASH
    case CutLine(body) => NUL !in body && LF !in body && Peek(t, p + 2 + |body|) == NUL
  }

  function TailText(tail: Tail): Text {
    if tail.CutLine? then [SLASH, SLASH] + tail.body else []
  }

  lemma SlashSlash(t: Text, p: nat, c: Byte, s: Text)
    ensures At(t, p, [SLASH, c] + s) <==> Peek(t, p) == SLASH && p + 1 < |t| && t[p + 1] == c && At(t, p + 2, s)
  {
    assert [SLASH, c] + s == [SLASH] + ([c] + s);
    AtFirst(t, p, SLASH, [c] + s);
    AtFirst(t, p + 1, c, s);
  }

  /** Skipping a blank first makes no difference. */
  lemma SpaceStep(t: Text, p: nat)
    requires p < |t| && IsSpace(t[p])
    ensures SkipComments(t, p) == SkipComments(t, p + 1)
  {
    assert SkipSpaces(t, p) == SkipSpaces(t, p + 1);
  }

  lemma CommentStep(t: Text, p: nat)
    requires p < |t| && t[p] == SLASH
    ensures SkipComments(t, p) == if SkipComment(t, p).Bad? then SkipComment(t, p)
            else SkipComments(t, SkipComment(t, p).pos)
  {
    assert SkipSpaces(t, p) == p;
  }

  lemma BlockStep(t: Text, p: nat, body: Text)
    requires ValidGap(Block(body)) && At(t, p, GapText(Block(body)))
    ensures SkipComments(t, p) == SkipComments(t, p + |GapText(Block(body))|)
  {
    hide SkipComments, SkipBlock, At, ClosedAtEnd;
    SlashSlash(t, p, STAR, body + [STAR, SLASH]);
    BlockSkipped(t, p + 2, body);
    CommentStep(t, p);
  }

  lemma LineStep(t: Text, p: nat, body: Text)
    requires ValidGap(Line(body)) && At(t, p, GapText(Line(body)))
    ensures SkipComments(t, p) == SkipComments(t, p + |GapText(Line(body))|)
  {
    hide SkipComments, SkipLine, At;
    SlashSlash(t, p, SLASH, body + [LF]);
    AtConcat(t, p + 2, body, [LF]);
    AtIndex(t, p + 2 + |body|, [LF], 0);
    LineSkipped(t, p + 2, body);
    CommentStep(t, p);
  }

  lemma GapStep(t: Text, p: nat, g: Gap)
    requires ValidGap(g) && At(t, p, GapText(g))
    ensures p + |GapText(g)| <= |t| && SkipComments(t, p) == SkipComments(t, p + |GapText(g)|)
  {
    hide SkipComments;
    match g
    case Space(c) =>
      AtIndex(t, p, [c], 0);
      SpaceStep(t, p);
    case Block(body) => BlockStep(t, p, body);
    case Line(body) => LineStep(t, p, body);
  }

  /** Blanks and comments are skipped whole, up to what is neither. */
  lemma {:induction false} GapsSkipped(t: Text, p: nat, gs: seq<Gap>, tail: Tail)
    requires ValidGaps(gs) && At(t, p, GapsText(gs)) && p <= |t|
    requires At(t, p + |GapsText(gs)|, TailText(tail)) && ValidTail(t, p + |GapsText(gs)|, tail)
    ensures SkipComments(t, p) == Got(p + |GapsText(gs)| + |TailText(tail)|, ())
    decreases |gs|
  {
    hide SkipComments, At, ValidGap, GapText, TailText, ValidTail;
    if gs == [] {
      EndSkipped(t, p, tail);
    } else {
      AtConcat(t, p, GapText(gs[0]), GapsText(gs[1..]));
      GapStep(t, p, gs[0]);
      GapsSkipped(t, p + |GapText(gs[0])|, gs[1..], tail);
    }
  }

  lemma EndSkipped(t: Text, p: nat, tail: Tail)
    requires p <= |t| && At(t, p, TailText(tail)) && ValidTail(t, p, tail)
    ensures SkipComments(t, p) == Got(p + |TailText(tail)|, ())
  {
    hide At, SkipComments, SkipLine;
    match tail
    case NoTail => NothingSkipped(t, p);
    case CutLine(body) =>
      SlashSlash(t, p, SLASH, body);
      LineSkipped(t, p + 2, body);
      CommentStep(t, p);
      NothingSkipped(t, p + 2 + |body|);
  }

  lemma NothingSkipped(t: Text, p: nat)
    requires p <= |t| && !IsSpace(Peek(t, p)) && Peek(t, p) != SLASH
    ensures SkipComments(t, p) == Got(p, ())
  {
  }

  /** What is skipped consists of blanks and comments alone, and neither follows. */
  lemma {:induction false} GapsDerive(t: Text, p: nat) returns (gs: seq<Gap>, tail: Tail)
    requires p <= |t| && SkipComments(t, p).Got?
    ensures ValidGaps(gs) && At(t, p, GapsText(gs))
    ensures At(t, p + |GapsText(gs)|, TailText(tail)) && ValidTail(t, p + |GapsText(gs)|, tail)
    decreases |t| - p
  {
    hide SkipComments, At, GapText;
    var first: Option<Gap>;
    first, tail := GapDerives(t, p);
    if first.None? {
      gs := [];
      AtNone(t, p);
    } else {
      var g := first.value;
      GapStep(t, p, g);
      assert |GapText(g)| > 0 by { GapNonempty(g); }
      var rest;
      rest, tail := GapsDerive(t, p + |GapText(g)|);
      AtConcat(t, p, GapText(g), GapsText(rest));
      gs := [g] + rest;
      assert gs[1..] == rest;
    }
  }

  lemma GapNonempty(g: Gap)
    ensures |GapText(g)| > 0
  {
  }

  /** The first gap, or what stands at the end instead. */
  lemma GapDerives(t: Text, p: nat) returns (g: Option<Gap>, tail: Tail)
    requires p <= |t| && SkipComments(t, p).Got?
    ensures g.Some? ==> ValidGap(g.value) && At(t, p, GapText(g.value))
    ensures g.None? ==> At(t, p, TailText(tail)) && ValidTail(t, p, tail)
  {
    hide SkipComments, SkipBlock, SkipLine, ClosedAtEnd, At;
    g, tail := None, NoTail;
    if p == |t| || (!IsSpace(t[p]) && t[p] != SLASH) {
      AtNone(t, p);
    } else if IsSpace(t[p]) {
      g := Some(Space(t[p]));
      SingleAt(t, p);
    } else {
      CommentStep(t, p);
      if Peek(t, p + 1) == STAR {
        var body := BlockDerives(t, p + 2);
        SlashSlash(t, p, STAR, body + [STAR, SLASH]);
        g := Some(Block(body));
      } else {
        var body := LineDerives(t, p + 2);
        if Peek(t, p + 2 + |body|) == NUL {
          SlashSlash(t, p, SLASH, body);
          tail := CutLine(body);
        } else {
          SingleAt(t, p + 2 + |body|);
          AtConcat(t, p + 2, body, [LF]);
          SlashSlash(t, p, SLASH, body + [LF]);
          g := Some(Line(body));
        }
      }
    }
  }

  /** With the comment flag, skipping succeeds at a position exactly if blanks and comments stand between, and
      nothing of the kind follows. */
  lemma SkipExact(f: Flags, t: Text, p: nat, q: nat)
    requires f.comments && p <= |t|
    ensures Skip(f, t, p) == Got(q, ()) <==>
            exists gs, tail :: ValidGaps(gs) && At(t, p, GapsText(gs)) && At(t, p + |GapsText(gs)|, TailText(tail)) &&
                               ValidTail(t, p + |GapsText(gs)|, tail) && q == p + |GapsText(gs)| + |TailText(tail)|
  {
    hide SkipComments, GapsText, ValidGaps, TailText, ValidTail, At;
    if Skip(f, t, p).Got? {
      var gs, tail := GapsDerive(t, p);
      GapsSkipped(t, p, gs, tail);
    }
    forall gs, tail | ValidGaps(gs) && At(t, p, GapsText(gs)) && At(t, p + |GapsText(gs)|, TailText(tail)) &&
        ValidTail(t, p + |GapsText(gs)|, tail)
      ensures SkipComments(t, p) == Got(p + |GapsText(gs)| + |TailText(tail)|, ())
    {
      GapsSkipped(t, p, gs, tail);
    }
  }

  // ---- NaN and infinity ----

  lemma {:induction false} MatchedExact(t: Text, p: nat, word: Text)
    requires NUL !in word && p <= |t|
    ensures var m := Matched(t, p, word); At(t, p, word[..m]) && (m < |word| ==> Peek(t, p + m) != word[m])
    decreases |word|
  {
    var m := Matched(t, p, word);
    if m == 0 {
      assert word[..0] == [];
      AtNone(t, p);
    } else {
      assert p < |t|;
      MatchedExact(t, p + 1, word[1..]);
      assert word[..m] == [word[0]] + word[1..][..m - 1];
      AtFirst(t, p, word[0], word[1..][..m - 1]);
    }
  }

  /** A whole word is matched exactly where it stands. */
  lemma MatchedWhole(t: Text, p: nat, word: Text)
    requires NUL !in word && p <= |t|
    ensures Matched(t, p, word) == |word| <==> At(t, p, word)
  {
    var m := Matched(t, p, word);
    MatchedExact(t, p, word);
    if m == |word| {
      assert word[..m] == word;
    } else if At(t, p, word) {
      AtIndex(t, p, word, m);
    }
  }

  /** The word behind the sign: NaN, or up to two letters of it that stay consumed, then Inf or Infinity. */
  predicate NanOrInfAt(t: Text, q: nat, k: nat) {
    k <= 2 && At(t, q, NAN_WORD[..k]) && At(t, q + k, INF_WORD) &&
    (Peek(t, q + k + 3) != INITY_WORD[0] || At(t, q + k + 3, INITY_WORD))
  }

  lemma NanOrInfExact(t: Text, q: nat)
    requires q <= |t|
    ensures ScanNanOrInf(t, q).Got? <==> At(t, q, NAN_WORD) || exists k :: NanOrInfAt(t, q, k)
  {
    hide Matched, At;
    var m := Matched(t, q, NAN_WORD);
    MatchedExact(t, q, NAN_WORD);
    MatchedWhole(t, q, NAN_WORD);
    AtBound(t, q, NAN_WORD[..m]);
    if m < 3 {
      MatchedWhole(t, q + m, INF_WORD);
      if At(t, q + m, INF_WORD) {
        AtBound(t, q + m, INF_WORD);
        MatchedWhole(t, q + m + 3, INITY_WORD);
        assert NAN_WORD[..m] == [] || |NAN_WORD[..m]| == m;
        assert ScanNanOrInf(t, q).Got? <==> NanOrInfAt(t, q, m);
      }
      forall k | NanOrInfAt(t, q, k) ensures k == m {
        OnePrefix(t, q, m, k);
      }
    }
  }

  lemma AtBound(t: Text, p: nat, s: Text)
    requires At(t, p, s)
    ensures p + |s| <= |t|
  {
  }

  /** Inf begins with no letter of NaN, so the letters taken before it are determined. */
  lemma OnePrefix(t: Text, q: nat, m: nat, k: nat)
    requires m < 3 && At(t, q, NAN_WORD[..m]) && Peek(t, q + m) != NAN_WORD[m] && NanOrInfAt(t, q, k)
    ensures k == m
  {
    if m < k {
      AtIndex(t, q, NAN_WORD[..k], m);
    } else if k < m {
      AtIndex(t, q, NAN_WORD[..m], k);
      AtIndex(t, q + k, INF_WORD, 0);
    }
  }

  /** NInf is taken for an infinity. */
  lemma BrokenNan(f: Flags)
    requires f.nanAndInf && !f.numbersAsStrings
    ensures var text: Text := [0x4E, 0x49, 0x6E, 0x66]; ScanNumber(f, text, 0) == Got(4, EDouble(text))
  {
    var text: Text := [0x4E, 0x49, 0x6E, 0x66];
    BrokenNanRead(text);
    NanEnds(f, text);
    hide ScanNanOrInf, ScanFraction, Numeral, FitsInteger;
  }

  lemma NanEnds(f: Flags, t: Text)
    requires !f.numbersAsStrings && t != []
    ensures ScanFraction(f, t, IntegerPart(0, false, [], true), |t|) == Got(|t|, EDouble(t))
  {
    assert t[0..|t|] == t;
  }

  lemma BrokenNanRead(text: Text)
    requires text == [0x4E, 0x49, 0x6E, 0x66]
    ensures ScanNanOrInf(text, 0) == Got(4, ())
  {
    hide Matched;
    assert Matched(text, 0, NAN_WORD) == 1 by {
      MatchedExact(text, 0, NAN_WORD);
      var m := Matched(text, 0, NAN_WORD);
      if m > 1 {
        AtIndex(text, 0, NAN_WORD[..m], 1);
      }
    }
    assert At(text, 1, INF_WORD) by {
      assert text[1..4] == INF_WORD;
    }
    MatchedWhole(text, 1, INF_WORD);
  }

  // ---- The sign of zero ----

  /** "-0" is reported as the integer 0, as is "0" but for the sign of the type. */
  lemma MinusZero(f: Flags)
    requires !f.numbersAsStrings
    ensures ScanNumber(f, [MINUS, ZERO], 0) == Got(2, EInt(0))
  {
    var text: Text := [MINUS, ZERO];
    assert [ZERO][..0] == [];
    assert Numeral([ZERO]) == 0;
  }
}

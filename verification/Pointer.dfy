/** GenericPointer as pointer.h builds it: token array and name buffer filled in one pass over the text. */
module Pointer {
  import opened Bytes
  import opened Json
  import opened Pointers
  import opened PointerLaws

  /** A token whose name lies in the name buffer. */
  datatype TokenRef = TokenRef(start: nat, length: nat, index: nat)

  /** The second check for an index and the conversion. */
  method ConvertIndex(name: Text, allDigits: bool) returns (index: nat)
    requires allDigits == (name != [] && AllDigits(name))
    ensures index == IndexOf(name)
  {
    var isNumber := allDigits;
    if isNumber && |name| > 1 && name[0] == ZERO {
      isNumber := false;
    }
    var n := 0;
    if isNumber {
      var j := 0;
      while j < |name|
        invariant j <= |name| && n < SIZE_MODULUS
        invariant isNumber && IsCanonical(name) && IndexOf(name) == IndexLoop(name, j, n)
      {
        var m := (n * 10 + (name[j] - ZERO)) % SIZE_MODULUS;
        if m < n {
          return INVALID_INDEX;
        }
        n := m;
        j := j + 1;
      }
    }
    index := if isNumber then n else INVALID_INDEX;
  }

  /** The name buffer: every name with its terminator, in order. */
  function NamesText(ts: seq<Token>): (r: Text)
    ensures |r| == NameUnits(ts)
  {
    if ts == [] then [] else NamesText(ts[..|ts| - 1]) + (ts[|ts| - 1].name + [NUL])
  }

  /** The token array: where each name lies. */
  function RefsOf(ts: seq<Token>): (r: seq<TokenRef>)
    ensures |r| == |ts|
  {
    if ts == [] then []
    else
      var init, t := ts[..|ts| - 1], ts[|ts| - 1];
      RefsOf(init) + [TokenRef(NameUnits(init), |t.name|, t.index)]
  }

  lemma LaidAppend(ts: seq<Token>, t: Token)
    ensures NamesText(ts + [t]) == NamesText(ts) + (t.name + [NUL])
    ensures RefsOf(ts + [t]) == RefsOf(ts) + [TokenRef(NameUnits(ts), |t.name|, t.index)]
  {
    assert (ts + [t])[..|ts|] == ts;
  }

  /** Every token finds its NUL-terminated name in the buffer. */
  lemma {:induction false} NameFound(ts: seq<Token>, i: nat)
    requires i < |ts|
    ensures var r := RefsOf(ts)[i];
            && r.start + r.length < |NamesText(ts)| && r.index == ts[i].index
            && NamesText(ts)[r.start..r.start + r.length] == ts[i].name && NamesText(ts)[r.start + r.length] == NUL
    decreases |ts|
  {
    var init, t := ts[..|ts| - 1], ts[|ts| - 1];
    var whole := NamesText(ts);
    assert whole[..|NamesText(init)|] == NamesText(init);
    if i < |init| {
      NameFound(init, i);
      var r := RefsOf(init)[i];
      assert whole[r.start..r.start + r.length] == NamesText(init)[r.start..r.start + r.length];
    }
  }

  class GenericPointer {
    var nameBuffer: array<Byte>
    var tokens: array<TokenRef>
    var tokenCount: nat
    var error: Option<PointerError>
    var errorOffset: nat

    /** The arrays begin with these tokens. */
    ghost predicate Holds(ts: seq<Token>)
      reads this, nameBuffer, tokens
    {
      && |ts| <= tokens.Length && NameUnits(ts) <= nameBuffer.Length
      && nameBuffer[..NameUnits(ts)] == NamesText(ts) && tokens[..|ts|] == RefsOf(ts)
    }

    /** Parse. The tokens are those of the specification, as many as the text has solidi, and no write leaves the buffer
        of one unit per unit of the text. */
    constructor (source: Text)
      ensures var r := Pointers.Parse(source);
              && (r.Tokens? ==>
                   error.None? && tokenCount == |r.tokens| == CountSolidi(source, 0) &&
                   nameBuffer.Length == |source| && Holds(r.tokens))
              && (r.Invalid? ==> error == Some(r.code) && errorOffset == r.offset && tokenCount == 0)
    {
      hide ScanTokens, ScanName, NameUnits, NamesText, RefsOf, IndexOf;
      var count := CountTokens(source);
      tokenCount := count;
      tokens := new TokenRef[count](_ => TokenRef(0, 0, 0));
      nameBuffer := new Byte[|source|](_ => NUL);
      error := None;
      errorOffset := 0;
      new;
      var i := 0;
      var uriFragment := false;
      if Peek(source, 0) == HASH {
        uriFragment := true;
        i := 1;
      }
      if i != |source| && source[i] != SLASH {
        Abandon(TokenMustBeginWithSolidus, i);
        return;
      }
      NoSolidusBefore(source);
      NothingLaid();
      var name, token := 0, 0;
      ghost var ts: seq<Token> := [];
      while i < |source|
        invariant i <= |source| && Ends(source, i)
        invariant Pointers.Parse(source) == ScanTokens(uriFragment, source, i, ts)
        invariant tokenCount == tokens.Length == count && nameBuffer.Length == |source| && fresh(tokens) &&
                  fresh(nameBuffer)
        invariant error.None? && token == |ts| && token + CountSolidi(source, i) == count == CountSolidi(source, 0)
        invariant name == NameUnits(ts) <= i && Holds(ts)
        decreases |source| - i
      {
        var next, end, ok := ReadToken(source, uriFragment, i, name, token);
        ScanOnce(uriFragment, source, i, ts);
        if !ok {
          return;
        }
        ghost var n := ScanName(uriFragment, source, i + 1, []);
        ghost var t := Token(n.name, IndexOf(n.name));
        NameSolidi(uriFragment, source, i + 1, []);
        NameUnitsAppend(ts, t);
        LaidAppend(ts, t);
        Assoc(NamesText(ts), n.name, [NUL]);
        TakeNext(tokens[..], token);
        ts := ts + [t];
        name := end;
        token := token + 1;
        i := next;
      }
      ScanEnd(uriFragment, source, ts);
    }

    /** The error exit: the storage is given up. */
    method Abandon(code: PointerError, offset: nat)
      modifies this
      ensures error == Some(code) && errorOffset == offset && tokenCount == 0
      ensures nameBuffer == old(nameBuffer) && tokens == old(tokens)
    {
      error := Some(code);
      errorOffset := offset;
      tokenCount := 0;
    }

    /** One round of the outer loop: the token behind the solidus at `i` is written into the buffer from `name` on. */
    method ReadToken(source: Text, uriFragment: bool, i: nat, name: nat, token: nat)
        returns (next: nat, end: nat, ok: bool)
      requires i < |source| && source[i] == SLASH && name <= i && nameBuffer.Length == |source| &&
               token < tokens.Length && error.None?
      modifies this, nameBuffer, tokens
      ensures nameBuffer == old(nameBuffer) && tokens == old(tokens)
      ensures var n := ScanName(uriFragment, source, i + 1, []);
              && ok == n.NameEnd?
              && (ok ==>
                   next == n.next && end == name + |n.name| + 1 <= nameBuffer.Length && error.None? &&
                   tokenCount == old(tokenCount) && nameBuffer[..end] == old(nameBuffer[..name]) + n.name + [NUL] &&
                   tokens[token] == TokenRef(name, |n.name|, IndexOf(n.name)) &&
                   tokens[..token] == old(tokens[..token]))
              && (!ok ==> error == Some(n.code) && errorOffset == n.offset && tokenCount == 0)
    {
      hide ScanName, ScanUnit, IndexOf;
      next := i + 1;
      end := name;
      var allDigits := true;
      ghost var w: Text := [];
      ghost var before := nameBuffer[..name];
      while next < |source| && source[next] != SLASH
        invariant i < next <= |source| && end == name + |w| && end < next
        invariant ScanName(uriFragment, source, i + 1, []) == ScanName(uriFragment, source, next, w)
        invariant nameBuffer == old(nameBuffer) && tokens == old(tokens) && tokenCount == old(tokenCount) && error.None?
        invariant nameBuffer[..end] == before + w && allDigits == AllDigits(w)
        invariant tokens[..] == old(tokens[..])
        decreases |source| - next
      {
        ScanNameOnce(uriFragment, source, next, w);
        var u := ScanUnit(uriFragment, source, next);
        if u.UnitError? {
          Abandon(u.code, u.offset);
          ok := false;
          return;
        }
        var digits := WriteUnits(u.units, end);
        Assoc(before, w, u.units);
        DigitsConcat(w, u.units);
        w := w + u.units;
        allDigits := allDigits && digits;
        end := end + |u.units|;
        next := u.next;
      }
      NameStop(uriFragment, source, next, w);
      var index := ConvertIndex(nameBuffer[name..end], allDigits && end > name) by {
        assert nameBuffer[name..end] == nameBuffer[..end][name..] == w;
      }
      tokens[token] := TokenRef(name, end - name, index);
      assert nameBuffer[name..end] == nameBuffer[..end][name..] == w;
      nameBuffer[end] := NUL;
      end := end + 1;
      ok := true;
    }

    /** Units of a name put into the buffer. */
    method WriteUnits(units: Text, at: nat) returns (digits: bool)
      requires at + |units| <= nameBuffer.Length
      modifies nameBuffer
      ensures nameBuffer[..at + |units|] == old(nameBuffer[..at]) + units
      ensures digits == AllDigits(units)
    {
      digits := true;
      var k := 0;
      while k < |units|
        invariant k <= |units|
        invariant nameBuffer[..at + k] == old(nameBuffer[..at]) + units[..k]
        invariant digits == AllDigits(units[..k])
      {
        nameBuffer[at + k] := units[k];
        assert units[..k + 1] == units[..k] + [units[k]];
        DigitsAppend(units[..k], units[k]);
        digits := digits && IsDigit(units[k]);
        k := k + 1;
      }
      assert units[..k] == units;
    }
  }

  /** The first pass of Parse. */
  method CountTokens(source: Text) returns (count: nat)
    ensures count == CountSolidi(source, 0)
  {
    count := 0;
    var s := 0;
    while s < |source|
      invariant s <= |source| && count + CountSolidi(source, s) == CountSolidi(source, 0)
    {
      if source[s] == SLASH {
        count := count + 1;
      }
      s := s + 1;
    }
  }

  lemma NothingLaid()
    ensures NameUnits([]) == 0 && NamesText([]) == [] && RefsOf([]) == []
  {
  }

  lemma TakeNext<T>(s: seq<T>, i: nat)
    requires i < |s|
    ensures s[..i + 1] == s[..i] + [s[i]]
  {
  }

  lemma ScanEnd(uri: bool, s: Text, tokens: seq<Token>)
    ensures ScanTokens(uri, s, |s|, tokens) == Tokens(tokens)
  {
  }

  lemma DigitsConcat(a: Text, b: Text)
    ensures AllDigits(a + b) <==> AllDigits(a) && AllDigits(b)
  {
    if AllDigits(a + b) {
      assert forall i :: 0 <= i < |a| ==> (a + b)[i] == a[i];
      assert forall i :: 0 <= i < |b| ==> (a + b)[|a| + i] == b[i];
    }
  }

  lemma DigitsAppend(w: Text, c: Byte)
    ensures AllDigits(w + [c]) <==> AllDigits(w) && IsDigit(c)
  {
    if AllDigits(w + [c]) {
      assert (w + [c])[|w|] == c;
      assert forall i :: 0 <= i < |w| ==> (w + [c])[i] == w[i];
    }
  }

  lemma ScanNameOnce(uri: bool, s: Text, i: nat, name: Text)
    requires i < |s| && s[i] != SLASH
    ensures var u := ScanUnit(uri, s, i);
            && (u.Units? ==> ScanName(uri, s, i, name) == ScanName(uri, s, u.next, name + u.units))
            && (u.UnitError? ==> ScanName(uri, s, i, name) == NameError(u.code, u.offset))
  {
    hide ScanUnit;
  }

  lemma ScanOnce(uri: bool, s: Text, i: nat, tokens: seq<Token>)
    requires i < |s| && s[i] == SLASH
    ensures var n := ScanName(uri, s, i + 1, []);
            && (n.NameEnd? ==>
                 ScanTokens(uri, s, i, tokens) == ScanTokens(uri, s, n.next, tokens + [Token(n.name, IndexOf(n.name))]))
            && (n.NameError? ==> ScanTokens(uri, s, i, tokens) == Invalid(n.code, n.offset))
  {
    hide ScanName, IndexOf;
  }

  lemma NoSolidusBefore(s: Text)
    ensures CountSolidi(s, 0) == CountSolidi(s, Start(s))
  {
  }
}

/** What WriteString makes of a string given by pointer and length: the decoder of an ASCII target looks at the
    length only between characters, so the last one may reach behind it. */
module Strings {
  import opened Bytes
  import opened Json
  import opened Grammar
  import opened Printing
  import opened Writing
  import Utf8

  /** How many units at `t` the loop over code points takes for a string of `length` units; None if it meets
      something that is no character. */
  function Covered(t: Text, length: nat): (r: Option<nat>)
    requires length <= |t|
    ensures r.Some? ==> length <= r.value <= |t|
    decreases |t|
  {
    if length == 0 then Some(0)
    else
      var d := Utf8.Decode(t, 0);
      Utf8.DecodeExact(t, 0);
      if !d.ok then None
      else if d.next >= length then Some(d.next)
      else
        var r := Covered(t[d.next..], length - d.next);
        if r.None? then None else Some(d.next + r.value)
  }

  /** The units written, for both kinds of target. */
  function Written(style: Style, t: Text, length: nat): (r: Option<Text>)
    requires length <= |t|
  {
    if !style.ascii then Some(t[..length])
    else
      var n := Covered(t, length);
      if n.None? then None else Some(t[..n.value])
  }

  // ---- Characters at the beginning of a longer text ----

  /** A character is decoded alike whatever stands behind it. */
  lemma DecodeAlone(a: Text, b: Text)
    requires a != [] && Utf8.Decode(a, 0).ok
    ensures Utf8.Decode(a + b, 0) == Utf8.Decode(a, 0)
  {
    hide Utf8.Decode, Utf8.IsUtf8Char, Utf8.Encode;
    var n := Utf8.Decode(a, 0).next;
    Utf8.DecodeExact(a, 0);
    Utf8.DecodeExact(a + b, 0);
    assert (a + b)[0..n] == a[0..n];
    Utf8.DecodeThenEncode(a, 0);
    Utf8.DecodeThenEncode(a + b, 0);
    Utf8.EncodeThenDecode(Utf8.Decode(a, 0).codepoint);
    Utf8.EncodeThenDecode(Utf8.Decode(a + b, 0).codepoint);
  }

  /** One character more behind a valid string. */
  lemma {:induction false} PointAppended(a: Text, c: Text)
    requires Utf8.IsUtf8(a) && c != [] && Utf8.Decode(c, 0).ok && Utf8.Decode(c, 0).next == |c|
    ensures var d := Utf8.Decode(c, 0).codepoint;
            && d <= 0x10FFFF && Utf8.IsScalar(d)
            && Utf8.IsUtf8(a + c) && EscapePoints(a + c) == EscapePoints(a) + [EscapePoint(d)]
    decreases |a|
  {
    hide Utf8.Decode, EscapePoint;
    Utf8.DecodeThenEncode(c, 0);
    if a == [] {
      assert a + c == c && c[|c|..] == [];
    } else {
      var n := Utf8.Decode(a, 0).next;
      Utf8.DecodeExact(a, 0);
      DecodeAlone(a, c);
      assert (a + c)[n..] == a[n..] + c;
      PointAppended(a[n..], c);
      Utf8.DecodeThenEncode(a, 0);
    }
  }

  /** The characters of a string without its closing quote. */
  function Body(cs: seq<Char>): Text {
    if cs == [] then [] else CharText(cs[0]) + Body(cs[1..])
  }

  lemma {:induction false} BodyQuoted(cs: seq<Char>)
    ensures CharsText(cs) == Body(cs) + [QUOTE]
    decreases |cs|
  {
    hide CharText;
    if cs != [] {
      BodyQuoted(cs[1..]);
    }
  }

  lemma {:induction false} BodyAppended(cs: seq<Char>, c: Char)
    ensures Body(cs + [c]) == Body(cs) + CharText(c)
    decreases |cs|
  {
    hide CharText;
    if cs == [] {
      assert cs + [c] == [c] && [c][1..] == [];
    } else {
      assert (cs + [c])[1..] == cs[1..] + [c];
      BodyAppended(cs[1..], c);
    }
  }

  // ---- When exactly the string is taken ----

  /** One of the characters in a row from the beginning of `t` lies across the end of the string. */
  predicate Straddles(t: Text, length: nat)
    requires length <= |t|
    decreases |t|
  {
    length > 0 && Utf8.Decode(t, 0).ok &&
    var n := Utf8.Decode(t, 0).next;
    n > length || (0 < n < length && Straddles(t[n..], length - n))
  }

  /** The first character of a text is decoded alike in a beginning that holds it whole, and not at all in a shorter
      one. */
  lemma DecodeBeginning(t: Text, length: nat)
    requires 0 < length <= |t|
    ensures var d, e := Utf8.Decode(t, 0), Utf8.Decode(t[..length], 0);
            && 0 < d.next && e.next == d.next && (e.ok <==> d.ok && d.next <= length)
  {
    hide Utf8.Decode, Utf8.IsUtf8Char, Utf8.IsCharAt;
    var s := t[..length];
    Utf8.DecodeShape(t, 0);
    Utf8.DecodeShape(s, 0);
    Utf8.DecodeExact(t, 0);
    Utf8.DecodeExact(s, 0);
    var n := Utf8.Decode(t, 0).next;
    if n <= length {
      assert s[0..n] == t[0..n];
    }
  }

  /** Exactly the units of the string are taken, if they are UTF-8 and not otherwise, exactly if no character
      straddles. */
  lemma {:induction false} CoveredExact(t: Text, length: nat)
    requires length <= |t|
    ensures Covered(t, length) == (if Utf8.IsUtf8(t[..length]) then Some(length) else None) <==> !Straddles(t, length)
    ensures Straddles(t, length) ==> Covered(t, length).Some? && Covered(t, length).value > length
    decreases |t|
  {
    hide Utf8.Decode;
    if length > 0 {
      var n, s := Utf8.Decode(t, 0).next, t[..length];
      DecodeBeginning(t, length);
      if Utf8.Decode(t, 0).ok && n <= length {
        Utf8.DecodeExact(t, 0);
        assert s[n..] == t[n..][..length - n];
        CoveredExact(t[n..], length - n);
      }
    }
  }

  /** No character reaches across a NUL, or behind the end of the text. */
  lemma {:induction false} NulStops(t: Text, length: nat)
    requires length <= |t| && Peek(t, length) == NUL
    ensures !Straddles(t, length)
    decreases |t|
  {
    if length > 0 && Utf8.Decode(t, 0).ok {
      CutShape(t, length);
      hide Utf8.Decode, Utf8.IsCharAt;
      Utf8.DecodeShape(t, 0);
      Utf8.DecodeShape(t[..length], 0);
      DecodeBeginning(t, length);
      var n := Utf8.Decode(t, 0).next;
      if n < length {
        NulStops(t[n..], length - n);
      }
    }
  }

  lemma CutShape(t: Text, length: nat)
    requires 0 < length <= |t| && Peek(t, length) == NUL
    ensures var s := t[..length];
            Utf8.IsCharAt(Peek(t, 0), Peek(t, 1), Peek(t, 2), Peek(t, 3)) ==
            Utf8.IsCharAt(Peek(s, 0), Peek(s, 1), Peek(s, 2), Peek(s, 3))
  {
  }

  lemma WrittenExact(style: Style, t: Text, length: nat)
    requires length <= |t| && Peek(t, length) == NUL
    ensures Written(style, t, length) == if WritableString(style, t[..length]) then Some(t[..length]) else None
  {
    hide Covered;
    CoveredExact(t, length);
    NulStops(t, length);
  }

  /** One unit of the character C3 A9 alone: an ASCII target takes the second one, too. */
  lemma ReadsBehind()
    ensures Covered([0xC3, 0xA9], 1) == Some(2) && !Utf8.IsUtf8([0xC3, 0xA9][..1])
  {
    var t: Text := [0xC3, 0xA9];
    Utf8.DecodeShape(t, 0);
    Utf8.DecodeShape(t[..1], 0);
  }
}

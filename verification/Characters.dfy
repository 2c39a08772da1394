/** The text of strings as bytes: which of it is ASCII, and how literal bytes make up UTF-8 characters. */
module Characters {
  import opened Bytes
  import opened Json
  import opened Scanner
  import opened Grammar
  import Utf8

  predicate IsAscii(s: Text) {
    forall i :: 0 <= i < |s| ==> s[i] < 0x80
  }

  lemma AsciiFirst(c: Byte, s: Text)
    requires c < 0x80
    ensures Utf8.IsUtf8([c] + s) == Utf8.IsUtf8(s)
  {
    assert ([c] + s)[1..] == s;
  }

  /** ASCII in front changes nothing. */
  lemma {:induction false} AsciiPrefix(a: Text, s: Text)
    requires IsAscii(a)
    ensures Utf8.IsUtf8(a + s) == Utf8.IsUtf8(s)
    decreases |a|
  {
    hide Utf8.IsUtf8;
    if a == [] {
      assert a + s == s;
    } else {
      assert a + s == [a[0]] + (a[1..] + s);
      AsciiFirst(a[0], a[1..] + s);
      AsciiPrefix(a[1..], s);
    }
  }

  /** Escapes are ASCII. */
  lemma EscapeIsAscii(c: Char)
    requires ValidChar(c) && !c.Literal?
    ensures IsAscii(CharText(c)) && CharText(c)[0] == BACKSLASH
  {
  }

  lemma FirstValid(c: Char, rest: seq<Char>)
    requires ValidChar(c) && !IsLead(c) && ValidChars(rest)
    ensures ValidChars([c] + rest)
  {
    hide ValidChar, IsLead, IsTrail;
  }

  // ---- Literal bytes ----

  function Literals(s: Text): (cs: seq<Char>)
    ensures |cs| == |s| && forall i :: 0 <= i < |s| ==> cs[i] == Literal(s[i])
  {
    seq(|s|, i requires 0 <= i < |s| => Literal(s[i]))
  }

  /** Bytes that a string may hold unescaped. */
  predicate Unescaped(s: Text) {
    forall i :: 0 <= i < |s| ==> s[i] >= 0x20 && s[i] != QUOTE && s[i] != BACKSLASH
  }

  lemma LiteralsValid(s: Text, rest: seq<Char>)
    requires Unescaped(s) && ValidChars(rest)
    ensures ValidChars(Literals(s) + rest)
  {
    var cs := Literals(s) + rest;
    forall i | 0 < i < |cs| ensures !(IsLead(cs[i - 1]) && IsTrail(cs[i])) {
      if i > |s| {
        assert cs[i - 1] == rest[i - 1 - |s|] && cs[i] == rest[i - |s|];
      }
    }
  }

  lemma LiteralFirst(b: Byte, cs: seq<Char>, acc: Text)
    requires ValidChars([Literal(b)] + cs) && ValidChars(cs)
    ensures CharsText([Literal(b)] + cs) == [b] + CharsText(cs)
    ensures CharsValue([Literal(b)] + cs, acc) == CharsValue(cs, acc + [b])
  {
    hide ValidChars;
    assert ([Literal(b)] + cs)[1..] == cs;
  }

  lemma LiteralsFirst(s: Text, rest: seq<Char>)
    requires s != []
    ensures Literals(s) + rest == [Literal(s[0])] + (Literals(s[1..]) + rest)
  {
  }

  lemma {:induction false} LiteralsText(s: Text, rest: seq<Char>, acc: Text)
    requires Unescaped(s) && ValidChars(rest)
    ensures ValidChars(Literals(s) + rest)
    ensures CharsText(Literals(s) + rest) == s + CharsText(rest)
    ensures CharsValue(Literals(s) + rest, acc) == CharsValue(rest, acc + s)
    decreases |s|
  {
    LiteralsValid(s, rest);
    hide ValidChars, CharsText, CharsValue, Literals;
    if s == [] {
      assert Literals(s) + rest == rest && acc + s == acc && s + CharsText(rest) == CharsText(rest);
    } else {
      LiteralsText(s[1..], rest, acc + [s[0]]);
      LiteralsFirst(s, rest);
      LiteralFirst(s[0], Literals(s[1..]) + rest, acc);
      Rejoined(acc, s);
      assert [s[0]] + (s[1..] + CharsText(rest)) == s + CharsText(rest) by {
        Rejoined(CharsText(rest), s);
      }
    }
  }

  lemma Rejoined(acc: Text, s: Text)
    requires s != []
    ensures acc + [s[0]] + s[1..] == acc + s
    ensures [s[0]] + (s[1..] + acc) == s + acc
  {
  }

  lemma ByteFirst(cs: seq<Char>)
    requires ValidChars(cs) && CharsText(cs)[0] >= 0x80
    ensures cs != [] && cs[0].Literal? && CharsText(cs) == [cs[0].b] + CharsText(cs[1..]) && ValidChars(cs[1..])
    ensures Unescaped([cs[0].b])
  {
    if cs != [] && !cs[0].Literal? {
      EscapeIsAscii(cs[0]);
    }
  }

  /** Where the text of a string begins with bytes beyond ASCII, these are literals. */
  lemma {:induction false} HighBytesLiteral(cs: seq<Char>, n: nat)
    requires ValidChars(cs) && n <= |CharsText(cs)| && forall i :: 0 <= i < n ==> CharsText(cs)[i] >= 0x80
    ensures n <= |cs| && ValidChars(cs[n..]) && Unescaped(CharsText(cs)[..n]) &&
            cs == Literals(CharsText(cs)[..n]) + cs[n..]
    decreases n
  {
    hide CharsText, ValidChars, Literals;
    var s := CharsText(cs);
    if n > 0 {
      ByteFirst(cs);
      var rest := CharsText(cs[1..]);
      forall i | 0 <= i < n - 1 ensures rest[i] >= 0x80 {
        assert rest[i] == s[i + 1];
      }
      HighBytesLiteral(cs[1..], n - 1);
      assert s[..n] == [cs[0].b] + rest[..n - 1];
      LiteralsFirst(s[..n], cs[n..]);
      assert s[..n][1..] == rest[..n - 1] && cs[1..][n - 1..] == cs[n..] && cs == [cs[0]] + cs[1..];
    } else {
      assert cs[0..] == cs && s[..0] == [] && Literals([]) + cs == cs;
    }
  }

  // ---- Decoding inside a string ----

  /** Decoding stops at the closing quote at the latest, so it sees the text of the string only. */
  lemma DecodeInside(t: Text, p: nat, s: Text)
    requires At(t, p, s) && s != [] && s[|s| - 1] < 0x80
    ensures Utf8.Decode(t, p).ok == Utf8.Decode(s, 0).ok && Utf8.Decode(t, p).next == p + Utf8.Decode(s, 0).next
  {
    hide Utf8.Decode, Utf8.IsCharAt, Utf8.CharLength, At;
    Utf8.DecodeShape(t, p);
    Utf8.DecodeShape(s, 0);
    ShapeInside(t, p, s);
  }

  lemma ShapeInside(t: Text, p: nat, s: Text)
    requires At(t, p, s) && s != [] && s[|s| - 1] < 0x80
    ensures Peek(t, p) == s[0]
    ensures Utf8.IsCharAt(Peek(t, p), Peek(t, p + 1), Peek(t, p + 2), Peek(t, p + 3)) ==
            Utf8.IsCharAt(s[0], Peek(s, 1), Peek(s, 2), Peek(s, 3))
  {
    assert forall i :: 0 <= i < |s| ==> Peek(t, p + i) == s[i] by {
      forall i | 0 <= i < |s| ensures Peek(t, p + i) == s[i] {
        AtIndex(t, p, s, i);
      }
    }
    assert Peek(t, p + 0) == s[0];
  }

  lemma {:induction false} QuoteLast(cs: seq<Char>)
    ensures CharsText(cs)[|CharsText(cs)| - 1] == QUOTE
    decreases |cs|
  {
    hide CharText;
    if cs != [] {
      QuoteLast(cs[1..]);
      var rest := CharsText(cs[1..]);
      assert (CharText(cs[0]) + rest)[|CharText(cs[0])| + |rest| - 1] == rest[|rest| - 1];
    }
  }

  /** The bytes of a character of more than one byte are all beyond ASCII. */
  lemma HighBytes(s: Text)
    requires s != [] && Utf8.Decode(s, 0).ok
    ensures 0 < Utf8.Decode(s, 0).next <= |s|
    ensures Utf8.Decode(s, 0).next > 1 ==> forall i :: 0 <= i < Utf8.Decode(s, 0).next ==> s[i] >= 0x80
    ensures Utf8.Decode(s, 0).next == 1 <==> s[0] < 0x80
  {
    hide Utf8.Decode;
    Utf8.DecodeExact(s, 0);
    var n := Utf8.Decode(s, 0).next;
    var c := s[0..n];
    assert forall i :: 0 <= i < n ==> c[i] == s[i];
  }
}

/** UTF-8 encoding, decoding and validation (encodings.h) against the grammar of RFC 3629 section 4. */
module Utf8 {
  import opened Bytes

  type CodePoint = c: int | 0 <= c <= 0x10FFFF

  predicate IsScalar(c: CodePoint) {
    !(0xD800 <= c <= 0xDFFF)
  }

  /** UTF8::Encode, with the shifts and masks written as arithmetic. */
  function Encode(c: CodePoint): (s: Text)
    ensures 1 <= |s| <= 4
  {
    if c <= 0x7F then [c]
    else if c <= 0x7FF then [0xC0 + c / 64, 0x80 + c % 64]
    else if c <= 0xFFFF then [0xE0 + c / 4096, 0x80 + c / 64 % 64, 0x80 + c % 64]
    else [0xF0 + c / 262144, 0x80 + c / 4096 % 64, 0x80 + c / 64 % 64, 0x80 + c % 64]
  }

  /** UTF8::GetRange: the class of a byte in the decoder automaton. */
  function GetRange(c: Byte): bv8 {
    if c < 0x80 then 0
    else if c < 0x90 then 0x10
    else if c < 0xA0 then 0x40
    else if c < 0xC0 then 0x20
    else if c < 0xC2 then 8
    else if c < 0xE0 then 2
    else if c == 0xE0 then 10
    else if c == 0xED then 4
    else if c < 0xF0 then 3
    else if c == 0xF0 then 11
    else if c < 0xF4 then 6
    else if c == 0xF4 then 5
    else 8
  }

  /** The decoder between two Take calls: verdict, accumulated code point, read cursor. */
  datatype Decoding = Decoding(ok: bool, codepoint: nat, next: nat)

  /** COPY followed by TRANS(mask). */
  function Continue(t: Text, d: Decoding, mask: bv8): Decoding {
    var c := Peek(t, d.next);
    Decoding(d.ok && GetRange(c) & mask != 0, d.codepoint * 64 + c % 64, d.next + 1)
  }

  /** UTF8::Decode from offset `p`. */
  function Decode(t: Text, p: nat): Decoding {
    var c := Peek(t, p);
    if c < 0x80 then Decoding(true, c, p + 1)
    else match GetRange(c)
      case 2 => Continue(t, Decoding(true, c % 64, p + 1), 0x70)
      case 3 => Continue(t, Continue(t, Decoding(true, c % 32, p + 1), 0x70), 0x70)
      case 4 => Continue(t, Continue(t, Decoding(true, c % 16, p + 1), 0x50), 0x70)
      case 5 => Continue(t, Continue(t, Continue(t, Decoding(true, c % 8, p + 1), 0x10), 0x70), 0x70)
      case 6 => Continue(t, Continue(t, Continue(t, Decoding(true, c % 4, p + 1), 0x70), 0x70), 0x70)
      case 10 => Continue(t, Continue(t, Decoding(true, 0, p + 1), 0x20), 0x70)
      case 11 => Continue(t, Continue(t, Continue(t, Decoding(true, 0, p + 1), 0x60), 0x70), 0x70)
      case _ => Decoding(false, 0, p + 1)
  }

  /** UTF8::Validate between two Take calls: verdict, bytes put so far, read cursor. */
  datatype Validating = Validating(ok: bool, out: Text, next: nat)

  function Copy(t: Text, v: Validating, mask: bv8): Validating {
    var c := Peek(t, v.next);
    Validating(v.ok && GetRange(c) & mask != 0, v.out + [c], v.next + 1)
  }

  /** UTF8::Validate from offset `p`. */
  function Validate(t: Text, p: nat): Validating {
    var c := Peek(t, p);
    var v := Validating(true, [c], p + 1);
    if c < 0x80 then v
    else match GetRange(c)
      case 2 => Copy(t, v, 0x70)
      case 3 => Copy(t, Copy(t, v, 0x70), 0x70)
      case 4 => Copy(t, Copy(t, v, 0x50), 0x70)
      case 5 => Copy(t, Copy(t, Copy(t, v, 0x10), 0x70), 0x70)
      case 6 => Copy(t, Copy(t, Copy(t, v, 0x70), 0x70), 0x70)
      case 10 => Copy(t, Copy(t, v, 0x20), 0x70)
      case 11 => Copy(t, Copy(t, Copy(t, v, 0x60), 0x70), 0x70)
      case _ => v.(ok := false)
  }

  /** The mask TRANS applies to the byte behind lead byte `c`. */
  function FirstMask(c: Byte): bv8 {
    match GetRange(c)
    case 4 => 0x50
    case 5 => 0x10
    case 10 => 0x20
    case 11 => 0x60
    case _ => 0x70
  }

  predicate IsTail(c: Byte) {
    0x80 <= c <= 0xBF
  }

  /** The UTF8-char production of RFC 3629 section 4. */
  predicate IsUtf8Char(s: Text) {
    || (|s| == 1 && s[0] <= 0x7F)
    || (|s| == 2 && 0xC2 <= s[0] <= 0xDF && IsTail(s[1]))
    || (|s| == 3 && IsTail(s[2]) &&
        ((s[0] == 0xE0 && 0xA0 <= s[1] <= 0xBF) || (0xE1 <= s[0] <= 0xEC && IsTail(s[1])) ||
         (s[0] == 0xED && 0x80 <= s[1] <= 0x9F) || (0xEE <= s[0] <= 0xEF && IsTail(s[1]))))
    || (|s| == 4 && IsTail(s[2]) && IsTail(s[3]) &&
        ((s[0] == 0xF0 && 0x90 <= s[1] <= 0xBF) || (0xF1 <= s[0] <= 0xF3 && IsTail(s[1])) ||
         (s[0] == 0xF4 && 0x80 <= s[1] <= 0x8F)))
  }

  /** How the automaton's classes read as byte intervals. */
  lemma Ranges(c: Byte)
    ensures GetRange(c) & 0x70 != 0 <==> IsTail(c)
    ensures GetRange(c) & 0x50 != 0 <==> 0x80 <= c <= 0x9F
    ensures GetRange(c) & 0x10 != 0 <==> 0x80 <= c <= 0x8F
    ensures GetRange(c) & 0x20 != 0 <==> 0xA0 <= c <= 0xBF
    ensures GetRange(c) & 0x60 != 0 <==> 0x90 <= c <= 0xBF
  {
  }

  /** How long a character with lead byte `c` is; 1 also for a byte that leads no character. */
  function CharLength(c: Byte): nat {
    if 0xC2 <= c <= 0xDF then 2 else if 0xE0 <= c <= 0xEF then 3 else if 0xF0 <= c <= 0xF4 then 4 else 1
  }

  /** The UTF8-char production on the bytes at and behind a lead byte. */
  predicate IsCharAt(c: Byte, c1: Byte, c2: Byte, c3: Byte) {
    || c <= 0x7F
    || (0xC2 <= c <= 0xDF && IsTail(c1))
    || (0xE0 <= c <= 0xEF && IsTail(c1) && IsTail(c2) && (c == 0xE0 ==> c1 >= 0xA0) && (c == 0xED ==> c1 <= 0x9F))
    || (0xF0 <= c <= 0xF4 && IsTail(c1) && IsTail(c2) && IsTail(c3) && (c == 0xF0 ==> c1 >= 0x90) &&
       (c == 0xF4 ==> c1 <= 0x8F))
  }

  /** The automaton computes the production, and always takes as many bytes as the lead byte announces. */
  lemma DecodeShape(t: Text, p: nat)
    ensures Decode(t, p).next == p + CharLength(Peek(t, p))
    ensures Decode(t, p).ok <==> IsCharAt(Peek(t, p), Peek(t, p + 1), Peek(t, p + 2), Peek(t, p + 3))
  {
    Ranges(Peek(t, p + 1));
    Ranges(Peek(t, p + 2));
    Ranges(Peek(t, p + 3));
  }

  /** A stretch of text is a character exactly if it is as long as its lead byte announces and follows the
      production. */
  lemma SliceShape(t: Text, p: nat, q: nat)
    requires p < q <= |t|
    ensures IsUtf8Char(t[p..q]) <==>
            q == p + CharLength(Peek(t, p)) && IsCharAt(Peek(t, p), Peek(t, p + 1), Peek(t, p + 2), Peek(t, p + 3))
  {
    var s := t[p..q];
    assert s[0] == Peek(t, p);
    assert |s| > 1 ==> s[1] == Peek(t, p + 1);
    assert |s| > 2 ==> s[2] == Peek(t, p + 2);
    assert |s| > 3 ==> s[3] == Peek(t, p + 3);
  }

  /** Behind the end of the text there are no continuation bytes. */
  lemma CharInside(t: Text, p: nat)
    requires p < |t| && IsCharAt(Peek(t, p), Peek(t, p + 1), Peek(t, p + 2), Peek(t, p + 3))
    ensures p + CharLength(Peek(t, p)) <= |t|
  {
  }

  /** Decode accepts at `p` exactly when an RFC 3629 character stands there, and consumes exactly it. */
  lemma DecodeExact(t: Text, p: nat)
    requires p < |t|
    ensures p < Decode(t, p).next <= p + 4
    ensures Decode(t, p).ok <==> Decode(t, p).next <= |t| && IsUtf8Char(t[p..Decode(t, p).next])
    ensures forall q :: p < q <= |t| && IsUtf8Char(t[p..q]) ==> Decode(t, p).ok && q == Decode(t, p).next
  {
    hide Decode, IsUtf8Char, IsCharAt;
    DecodeShape(t, p);
    forall q | p < q <= |t| && IsUtf8Char(t[p..q]) ensures Decode(t, p).ok && q == Decode(t, p).next {
      SliceShape(t, p, q);
    }
    if Decode(t, p).ok {
      CharInside(t, p);
      SliceShape(t, p, Decode(t, p).next);
    }
  }

  /** The six-bit groups of a code point put together again. */
  lemma SixBitGroups(c: CodePoint)
    ensures c == c / 64 * 64 + c % 64
    ensures c / 64 == c / 4096 * 64 + c / 64 % 64
    ensures c / 4096 == c / 262144 * 64 + c / 4096 % 64
  {
    assert c / 64 / 64 == c / 4096;
    assert c / 4096 / 64 == c / 262144;
  }

  /** Encode produces one RFC 3629 character for every scalar value. */
  lemma EncodeWellFormed(c: CodePoint)
    requires IsScalar(c)
    ensures IsUtf8Char(Encode(c))
  {
    SixBitGroups(c);
  }

  /** The code point that a well-formed character denotes, by the bit layout of RFC 3629 section 3. */
  function Scalar(s: Text): nat
    requires IsUtf8Char(s)
  {
    var a: int := s[0];
    if |s| == 1 then a
    else if |s| == 2 then (a - 0xC0) * 64 + Low(s[1])
    else if |s| == 3 then (a - 0xE0) * 4096 + Low(s[1]) * 64 + Low(s[2])
    else (a - 0xF0) * 262144 + Low(s[1]) * 4096 + Low(s[2]) * 64 + Low(s[3])
  }

  /** The payload of a continuation byte. */
  function Low(c: Byte): int {
    c - 0x80
  }

  /** The bit layout is inverse to Encode in both directions. */
  lemma ScalarOfEncode(c: CodePoint)
    requires IsScalar(c)
    ensures IsUtf8Char(Encode(c)) && Scalar(Encode(c)) == c
  {
    EncodeWellFormed(c);
    SixBitGroups(c);
  }

  /** Byte by byte, a shorter beginning before a longer one. */
  predicate Precedes(a: Text, b: Text) {
    exists k :: 0 <= k <= |a| && k < |b| && a[..k] == b[..k] && (k == |a| || a[k] < b[k])
  }

  lemma PrecedesAt(a: Text, b: Text, k: nat)
    requires k < |a| && k < |b| && a[k] < b[k] && forall i :: 0 <= i < k ==> a[i] == b[i]
    ensures Precedes(a, b)
  {
    assert a[..k] == b[..k];
  }

  lemma Ordered2(c: CodePoint, d: CodePoint)
    requires 0x7F < c < d <= 0x7FF
    ensures Precedes(Encode(c), Encode(d))
  {
    hide Precedes;
    PrecedesAt(Encode(c), Encode(d), if c / 64 < d / 64 then 0 else 1);
  }

  lemma Ordered3(c: CodePoint, d: CodePoint)
    requires 0x7FF < c < d <= 0xFFFF
    ensures Precedes(Encode(c), Encode(d))
  {
    hide Precedes;
    SixBitGroups(c);
    SixBitGroups(d);
    PrecedesAt(Encode(c), Encode(d), if c / 4096 < d / 4096 then 0 else if c / 64 < d / 64 then 1 else 2);
  }

  lemma Ordered4(c: CodePoint, d: CodePoint)
    requires 0xFFFF < c < d
    ensures Precedes(Encode(c), Encode(d))
  {
    hide Precedes;
    SixBitGroups(c);
    SixBitGroups(d);
    PrecedesAt(Encode(c), Encode(d),
      if c / 262144 < d / 262144 then 0 else if c / 4096 < d / 4096 then 1 else if c / 64 < d / 64 then 2 else 3);
  }

  /** The bytes sort as the code points do, RFC 3629 section 1. */
  lemma EncodeOrdered(c: CodePoint, d: CodePoint)
    requires c < d
    ensures Precedes(Encode(c), Encode(d))
  {
    hide Precedes;
    if c > 0xFFFF {
      Ordered4(c, d);
    } else if c > 0x7FF && d <= 0xFFFF {
      Ordered3(c, d);
    } else if c > 0x7F && d <= 0x7FF {
      Ordered2(c, d);
    } else {
      PrecedesAt(Encode(c), Encode(d), 0);
    }
  }

  lemma EncodeOfScalar(s: Text)
    requires IsUtf8Char(s)
    ensures Scalar(s) <= 0x10FFFF && IsScalar(Scalar(s))
    ensures Encode(Scalar(s)) == s
  {
    match |s|
    case 2 => Encode2(s);
    case 3 => Encode3(s);
    case 4 => Encode4(s);
    case _ =>
  }

  lemma Encode2(s: Text)
    requires IsUtf8Char(s) && |s| == 2
    ensures Scalar(s) <= 0x10FFFF && IsScalar(Scalar(s)) && Encode(Scalar(s)) == s
  {
    Digits64(0, 0, s[0] - 0xC0, s[1] - 0x80);
  }

  lemma Encode3(s: Text)
    requires IsUtf8Char(s) && |s| == 3
    ensures Scalar(s) <= 0x10FFFF && IsScalar(Scalar(s)) && Encode(Scalar(s)) == s
  {
    Digits64(0, s[0] - 0xE0, s[1] - 0x80, s[2] - 0x80);
  }

  lemma Encode4(s: Text)
    requires IsUtf8Char(s) && |s| == 4
    ensures Scalar(s) <= 0x10FFFF && IsScalar(Scalar(s)) && Encode(Scalar(s)) == s
  {
    Digits64(s[0] - 0xF0, s[1] - 0x80, s[2] - 0x80, s[3] - 0x80);
  }

  lemma Digits64(a: nat, b: nat, c: nat, d: nat)
    requires b < 64 && c < 64 && d < 64
    ensures var n := a * 262144 + b * 4096 + c * 64 + d;
            n % 64 == d && n / 64 % 64 == c && n / 4096 % 64 == b && n / 262144 == a &&
                n / 64 == a * 4096 + b * 64 + c && n / 4096 == a * 64 + b
  {
    var n := a * 262144 + b * 4096 + c * 64 + d;
    assert n / 64 == a * 4096 + b * 64 + c;
    assert n / 64 / 64 == a * 64 + b;
    assert n / 4096 == a * 64 + b;
    assert n / 4096 / 64 == a;
  }

  /** What Decode accumulates, by lead byte, before any verdict. */
  lemma Accumulated(t: Text, p: nat)
    ensures var c: int, c1: int, c2: int, c3: int, n :=
            Peek(t, p), Peek(t, p + 1), Peek(t, p + 2), Peek(t, p + 3), Decode(t, p).codepoint;
            && (0xC2 <= c <= 0xDF ==> n == (c - 0xC0) * 64 + c1 % 64)
            && (0xE0 <= c <= 0xEF ==> n == (c - 0xE0) * 4096 + c1 % 64 * 64 + c2 % 64)
            && (0xF0 <= c <= 0xF4 ==> n == (c - 0xF0) * 262144 + c1 % 64 * 4096 + c2 % 64 * 64 + c3 % 64)
  {
    LeadBits(Peek(t, p));
  }

  /** The payload that the mask 0xFF >> type leaves of a lead byte. */
  lemma LeadBits(b: Byte)
    ensures var c: int := b;
            && (0xC0 <= c <= 0xFF ==> c % 64 == c - 0xC0)
            && (0xE0 <= c <= 0xFF ==> c % 32 == c - 0xE0)
            && (0xE0 <= c <= 0xEF ==> c % 16 == c - 0xE0)
            && (0xF0 <= c <= 0xF7 ==> c % 8 == c - 0xF0)
            && (0xF0 <= c <= 0xF3 ==> c % 4 == c - 0xF0)
  {
  }

  /** What Decode accumulates for an accepted character is the scalar value it denotes. */
  lemma DecodeValue(t: Text, p: nat)
    requires p < |t| && Decode(t, p).ok
    ensures Decode(t, p).next <= |t| && IsUtf8Char(t[p..Decode(t, p).next])
    ensures Decode(t, p).codepoint == Scalar(t[p..Decode(t, p).next])
  {
    DecodeExact(t, p);
    Accumulated(t, p);
    ScalarBySlice(t, p, Decode(t, p).next);
  }

  lemma ScalarBySlice(t: Text, p: nat, q: nat)
    requires p < q <= |t| && IsUtf8Char(t[p..q])
    ensures var c: int, c1: int, c2: int, c3: int, n :=
            Peek(t, p), Peek(t, p + 1), Peek(t, p + 2), Peek(t, p + 3), Scalar(t[p..q]);
            && (q == p + 1 ==> c < 0x80 && n == c)
            && (q == p + 2 ==> 0xC2 <= c <= 0xDF && n == (c - 0xC0) * 64 + c1 % 64)
            && (q == p + 3 ==> 0xE0 <= c <= 0xEF && n == (c - 0xE0) * 4096 + c1 % 64 * 64 + c2 % 64)
            && (q == p + 4 ==> 0xF0 <= c <= 0xF4 && n == (c - 0xF0) * 262144 + c1 % 64 * 4096 + c2 % 64 * 64 + c3 % 64)
  {
    var s := t[p..q];
    assert forall i :: 0 <= i < |s| ==> s[i] == Peek(t, p + i);
    assert forall c: Byte :: IsTail(c) ==> c % 64 == Low(c);
  }

  /** Decode gives back every scalar value that Encode was given. */
  lemma EncodeThenDecode(c: CodePoint)
    requires IsScalar(c)
    ensures Decode(Encode(c), 0) == Decoding(true, c, |Encode(c)|)
  {
    var s := Encode(c);
    ScalarOfEncode(c);
    assert s[0..|s|] == s;
    DecodeExact(s, 0);
    DecodeValue(s, 0);
  }

  /** A decoded character is the encoding of the scalar value it was decoded to. */
  lemma DecodeThenEncode(t: Text, p: nat)
    requires p < |t| && Decode(t, p).ok
    ensures Decode(t, p).next <= |t|
    ensures Decode(t, p).codepoint <= 0x10FFFF && IsScalar(Decode(t, p).codepoint)
    ensures Encode(Decode(t, p).codepoint) == t[p..Decode(t, p).next]
  {
    DecodeValue(t, p);
    EncodeOfScalar(t[p..Decode(t, p).next]);
  }

  /** Validate agrees with Decode and puts exactly the bytes it consumes. */
  lemma ValidateAgrees(t: Text, p: nat)
    requires p < |t|
    ensures Validate(t, p).ok == Decode(t, p).ok
    ensures Validate(t, p).next == Decode(t, p).next
    ensures Validate(t, p).ok ==> Validate(t, p).next <= |t| && Validate(t, p).out == t[p..Validate(t, p).next]
  {
    DecodeExact(t, p);
    ValidateSteps(t, p);
    if Validate(t, p).ok {
      CopiedBytes(t, p);
    }
  }

  /** Validate and Decode take the same steps. */
  lemma ValidateSteps(t: Text, p: nat)
    ensures Validate(t, p).ok == Decode(t, p).ok && Validate(t, p).next == Decode(t, p).next
  {
  }

  lemma CopiedBytes(t: Text, p: nat)
    requires p < |t| && Validate(t, p).next <= |t|
    ensures Validate(t, p).out == t[p..Validate(t, p).next]
  {
    forall v: Validating, mask: bv8 | Copied(t, p, v)
      ensures Copied(t, p, Copy(t, v, mask)) && Copy(t, v, mask).next == v.next + 1
    {
      CopyStep(t, p, v, mask);
    }
    assert Copied(t, p, Validating(true, [t[p]], p + 1));
    assert forall v: Validating :: Copied(t, p, v) && v.next <= |t| ==> v.out == t[p..v.next];
    hide Copy, Copied, GetRange;
  }

  /** The bytes put are those behind `p`, as far as the text reaches. */
  predicate Copied(t: Text, p: nat, v: Validating) {
    p <= v.next && (v.next <= |t| ==> v.out == t[p..v.next])
  }

  lemma CopyStep(t: Text, p: nat, v: Validating, mask: bv8)
    requires Copied(t, p, v)
    ensures Copied(t, p, Copy(t, v, mask)) && Copy(t, v, mask).next == v.next + 1
  {
    hide GetRange;
    if v.next < |t| {
      assert t[p..v.next + 1] == t[p..v.next] + [t[v.next]];
    }
  }

  /** A byte string is valid UTF-8 when it is a sequence of RFC 3629 characters. */
  predicate IsUtf8(s: Text) {
    s == [] || (Decode(s, 0).ok && Decode(s, 0).next <= |s| && IsUtf8(s[Decode(s, 0).next..]))
  }

  function DecodeAll(s: Text): seq<nat>
    requires IsUtf8(s)
  {
    if s == [] then [] else [Decode(s, 0).codepoint] + DecodeAll(s[Decode(s, 0).next..])
  }

  function EncodeAll(cs: seq<CodePoint>): Text {
    if cs == [] then [] else Encode(cs[0]) + EncodeAll(cs[1..])
  }

  lemma DecodeAllFirst(s: Text)
    requires IsUtf8(s) && s != []
    ensures var n := Decode(s, 0).next;
            0 < n <= |s| && IsUtf8(s[n..]) && DecodeAll(s) == [Decode(s, 0).codepoint] + DecodeAll(s[n..])
  {
    hide Decode;
    DecodeExact(s, 0);
  }

  /** Every valid byte string is the re-encoding of its decoding, and decodes to scalar values only. */
  lemma {:induction false} ReencodeIsIdentity(s: Text)
    requires IsUtf8(s)
    ensures forall i :: 0 <= i < |DecodeAll(s)| ==> DecodeAll(s)[i] <= 0x10FFFF && IsScalar(DecodeAll(s)[i])
    ensures EncodeAll(DecodeAll(s)) == s
    decreases |s|
  {
    hide Decode, Encode, IsScalar;
    if s != [] {
      var n := Decode(s, 0).next;
      DecodeThenEncode(s, 0);
      DecodeAllFirst(s);
      ReencodeIsIdentity(s[n..]);
      assert s[0..n] + s[n..] == s;
      assert DecodeAll(s)[1..] == DecodeAll(s[n..]);
    }
  }
}

/** Code units, the ASCII characters the grammar names, and decimal numerals. */
module Bytes {
  /** One code unit of an 8-bit encoding. */
  type Byte = b: int | 0 <= b < 256

  type Text = seq<Byte>

  const NUL: Byte := 0x00
  const TAB: Byte := 0x09
  const LF: Byte := 0x0A
  const CR: Byte := 0x0D
  const SPACE: Byte := 0x20
  const QUOTE: Byte := 0x22
  const HASH: Byte := 0x23
  const PERCENT: Byte := 0x25
  const STAR: Byte := 0x2A
  const PLUS: Byte := 0x2B
  const COMMA: Byte := 0x2C
  const MINUS: Byte := 0x2D
  const DOT: Byte := 0x2E
  const SLASH: Byte := 0x2F
  const ZERO: Byte := 0x30
  const ONE: Byte := 0x31
  const NINE: Byte := 0x39
  const COLON: Byte := 0x3A
  const BACKSLASH: Byte := 0x5C
  const LETTER_A: Byte := 0x61
  const LETTER_B: Byte := 0x62
  const LBRACKET: Byte := 0x5B
  const RBRACKET: Byte := 0x5D
  const LBRACE: Byte := 0x7B
  const RBRACE: Byte := 0x7D
  const TILDE: Byte := 0x7E

  const NULL_WORD: Text := [0x6E, 0x75, 0x6C, 0x6C]
  const TRUE_WORD: Text := [0x74, 0x72, 0x75, 0x65]
  const FALSE_WORD: Text := [0x66, 0x61, 0x6C, 0x73, 0x65]

  predicate IsDigit(c: Byte) {
    ZERO <= c <= NINE
  }

  predicate IsHex(c: Byte) {
    IsDigit(c) || 0x41 <= c <= 0x46 || 0x61 <= c <= 0x66
  }

  function HexValue(c: Byte): (n: nat)
    requires IsHex(c)
    ensures n < 16
  {
    if IsDigit(c) then c - ZERO else if c <= 0x46 then c - 0x41 + 10 else c - 0x61 + 10
  }

  /** The upper-case digit. */
  function HexDigit(n: nat): Byte
    requires n < 16
  {
    if n < 10 then ZERO + n else 0x41 + (n - 10)
  }

  predicate IsSpace(c: Byte) {
    c == SPACE || c == LF || c == CR || c == TAB
  }

  predicate AllDigits(ds: Text) {
    forall i :: 0 <= i < |ds| ==> IsDigit(ds[i])
  }

  /** The number a digit string denotes, most significant digit first. */
  function Numeral(ds: Text): nat
    requires AllDigits(ds)
  {
    if ds == [] then 0 else Numeral(ds[..|ds| - 1]) * 10 + (ds[|ds| - 1] - ZERO)
  }

  lemma NumeralAppend(ds: Text, d: Byte)
    requires AllDigits(ds) && IsDigit(d)
    ensures AllDigits(ds + [d]) && Numeral(ds + [d]) == Numeral(ds) * 10 + (d - ZERO)
  {
    assert (ds + [d])[..|ds|] == ds;
  }

  /** Reading on only makes a numeral larger. */
  lemma {:induction false} NumeralGrows(ds: Text, k: nat)
    requires AllDigits(ds) && k <= |ds|
    ensures Numeral(ds[..k]) <= Numeral(ds)
    decreases |ds|
  {
    if k < |ds| {
      var init := ds[..|ds| - 1];
      assert ds[..k] == init[..k];
      NumeralGrows(init, k);
    } else {
      assert ds[..k] == ds;
    }
  }

  /** A numeral of n digits is below 10^n. */
  lemma {:induction false} NumeralBound(ds: Text)
    requires AllDigits(ds)
    ensures Numeral(ds) < Power10(|ds|)
    decreases |ds|
  {
    if ds != [] {
      NumeralBound(ds[..|ds| - 1]);
    }
  }

  function Power10(n: nat): (r: nat)
    ensures r >= 1
  {
    if n == 0 then 1 else 10 * Power10(n - 1)
  }

  function Max(a: nat, b: nat): nat {
    if a < b then b else a
  }

  function Min(a: nat, b: nat): nat {
    if a < b then a else b
  }

  function Repeat(c: Byte, n: nat): (s: Text)
    ensures |s| == n && forall i :: 0 <= i < n ==> s[i] == c
  {
    seq(n, i => c)
  }

  function Magnitude(n: int): nat {
    if n < 0 then -n else n
  }

  /** The canonical decimal numeral, which internal/itoa.h prints. */
  function Decimal(n: nat): (ds: Text)
    ensures ds != [] && AllDigits(ds)
  {
    if n < 10 then [ZERO + n] else Decimal(n / 10) + [ZERO + n % 10]
  }

  /** Decimal undoes Numeral, and never prints a redundant leading zero. */
  lemma {:induction false} DecimalCanonical(n: nat)
    ensures Numeral(Decimal(n)) == n
    ensures Decimal(n)[0] == ZERO <==> n == 0
    ensures n == 0 ==> Decimal(n) == [ZERO]
  {
    if n >= 10 {
      DecimalCanonical(n / 10);
      var ds := Decimal(n);
      assert ds[..|ds| - 1] == Decimal(n / 10);
    }
  }

  /** Every numeral without a redundant leading zero is the one Decimal prints. */
  lemma {:induction false} NumeralCanonical(ds: Text)
    requires ds != [] && AllDigits(ds)
    requires |ds| > 1 ==> ds[0] != ZERO
    ensures Decimal(Numeral(ds)) == ds
    ensures Numeral(ds) >= 1 || ds == [ZERO]
    decreases |ds|
  {
    if |ds| > 1 {
      var init := ds[..|ds| - 1];
      NumeralCanonical(init);
      assert Numeral(ds) / 10 == Numeral(init) && Numeral(ds) % 10 == ds[|ds| - 1] - ZERO;
      assert Decimal(Numeral(ds)) == Decimal(Numeral(init)) + [ds[|ds| - 1]];
      assert ds == init + [ds[|ds| - 1]];
    } else {
      assert ds[..0] == [];
    }
  }

  /** GenericStringStream::Peek: the unit at the cursor, NUL at and past the end. */
  function Peek(t: Text, p: nat): Byte {
    if p < |t| then t[p] else NUL
  }

  /** Text `s` occurs in `t` at offset `p`. */
  predicate At(t: Text, p: nat, s: Text) {
    p + |s| <= |t| && t[p..p + |s|] == s
  }

  lemma AtConcat(t: Text, p: nat, a: Text, b: Text)
    ensures At(t, p, a + b) <==> At(t, p, a) && At(t, p + |a|, b)
  {
    if p + |a| + |b| <= |t| {
      var s := t[p..p + |a| + |b|];
      assert s[..|a|] == t[p..p + |a|] && s[|a|..] == t[p + |a|..p + |a| + |b|];
      assert (a + b)[..|a|] == a && (a + b)[|a|..] == b;
      assert s == s[..|a|] + s[|a|..];
    }
  }

  lemma AtNone(t: Text, p: nat)
    ensures At(t, p, []) <==> p <= |t|
  {
    if p <= |t| {
      assert t[p..p] == [];
    }
  }

  lemma SingleAt(t: Text, p: nat)
    requires p < |t|
    ensures At(t, p, [t[p]])
  {
    assert t[p..p + 1] == [t[p]];
  }

  lemma AtIndex(t: Text, p: nat, s: Text, i: nat)
    requires At(t, p, s) && i < |s|
    ensures p + i < |t| && t[p + i] == s[i]
  {
    assert t[p..p + |s|][i] == s[i];
  }
}

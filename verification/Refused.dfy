/** JSON texts that the reader refuses, and how far the refusal of numerals is a matter of their size. */
module Refused {
  import opened Bytes
  import opened Json
  import opened Scanner
  import opened Recursive
  import opened Grammar
  import opened Completeness
  import Rounding

  /** Without a fraction, the exponent alone decides, not the number: at most 308 if it is not negative. */
  lemma ExponentDecides(f: Flags, n: Numeric)
    requires ValidNumeric(n) && n.fraction == [] && |n.integer| <= 308
    ensures NumericTaken(f, n) <==>
              n.exponent.NoExponent? || n.exponent.sign == [MINUS] || Numeral(n.exponent.digits) <= 308
  {
    hide Numeral;
    Rounding.FewDigits(f.arithmetic, n.minus, n.integer);
    NoFractionScale(n);
  }

  /** An integer without exponent is taken with up to 308 digits and refused with 310 or more. */
  lemma IntegersTaken(f: Flags, n: Numeric)
    requires ValidNumeric(n) && IsInteger(n)
    ensures |n.integer| <= 308 ==> NumericTaken(f, n)
    ensures |n.integer| >= 310 ==> !NumericTaken(f, n)
  {
    hide Numeral;
    if |n.integer| <= 308 {
      Rounding.FewDigits(f.arithmetic, n.minus, n.integer);
    } else if |n.integer| >= 310 {
      Rounding.ManyDigits(f.arithmetic, n.minus, n.integer);
    }
  }

  // ---- Fraction digits ----

  /** The significand with `j` digits of the fraction. */
  function Significand(integer: Text, fraction: Text, j: nat): nat
    requires AllDigits(integer) && AllDigits(fraction) && j <= |fraction|
  {
    Numeral(integer + fraction[..j])
  }

  /** significandDigit: the digits of the integer part but its first one, and those of the fraction that leave the
      significand different from zero. */
  function Significant(integer: Text, fraction: Text, j: nat): nat
    requires AllDigits(integer) && AllDigits(fraction) && j <= |fraction|
  {
    if j == 0 then (if integer == [] then 0 else |integer| - 1)
    else Significant(integer, fraction, j - 1) + if Significand(integer, fraction, j) != 0 then 1 else 0
  }

  /** Digit `j` of the fraction enters the significand: so far this is below 2^53 or has fewer than 17 digits. */
  predicate Enters(integer: Text, fraction: Text, j: nat)
    requires AllDigits(integer) && AllDigits(fraction) && j <= |fraction|
  {
    Significand(integer, fraction, j) < 0x20_0000_0000_0000 || Significant(integer, fraction, j) < 17
  }

  lemma NextDigit(integer: Text, fraction: Text, j: nat)
    requires AllDigits(integer) && AllDigits(fraction) && j < |fraction|
    ensures Significand(integer, fraction, j + 1) == Significand(integer, fraction, j) * 10 + (fraction[j] - ZERO)
  {
    hide Numeral;
    assert integer + fraction[..j + 1] == (integer + fraction[..j]) + [fraction[j]];
    NumeralAppend(integer + fraction[..j], fraction[j]);
  }

  lemma {:induction false} Beyond(integer: Text, fraction: Text, j: nat, i: nat)
    requires AllDigits(integer) && AllDigits(fraction) && j <= i <= |fraction|
    requires Significand(integer, fraction, j) >= 0x20_0000_0000_0000
    ensures Significand(integer, fraction, i) >= 0x20_0000_0000_0000
    ensures Significant(integer, fraction, i) == Significant(integer, fraction, j) + (i - j)
    decreases i
  {
    hide Significand;
    if i > j {
      Beyond(integer, fraction, j, i - 1);
      NextDigit(integer, fraction, i - 1);
    }
  }

  lemma {:induction false} KeptFrom(integer: Text, fraction: Text, j: nat)
    requires AllDigits(integer) && AllDigits(fraction) && j <= |fraction|
    ensures var k := j + KeptDigits(Significand(integer, fraction, j), Significant(integer, fraction, j),
            fraction[j..]);
            && k <= |fraction|
            && (forall i :: j <= i < k ==> Enters(integer, fraction, i))
            && (k < |fraction| ==> !Enters(integer, fraction, k))
    decreases |fraction| - j
  {
    hide Significand;
    var n, d := Significand(integer, fraction, j), Significant(integer, fraction, j);
    var rest := fraction[j..];
    if rest == [] {
    } else if n >= 0x20_0000_0000_0000 {
      var k := j + KeptDigits(n, d, rest);
      forall i | j <= i <= k ensures Significant(integer, fraction, i) == d + (i - j) {
        Beyond(integer, fraction, j, i);
      }
      Beyond(integer, fraction, j, k);
    } else {
      NextDigit(integer, fraction, j);
      assert rest[1..] == fraction[j + 1..];
      KeptFrom(integer, fraction, j + 1);
    }
  }

  /** The digits of a fraction by which the limit of an exponent is raised are those up to the first one that does not
      enter the significand, and none behind an integer part that does not fit 64 bits. */
  lemma ScaleExact(minus: bool, integer: Text, fraction: Text)
    requires AllDigits(integer) && AllDigits(fraction)
    ensures var k := FractionScale(minus, integer, fraction);
            if FitsInteger(minus, Numeral(integer)) then
              && k <= |fraction|
              && (forall i :: 0 <= i < k ==> Enters(integer, fraction, i))
              && (k < |fraction| ==> !Enters(integer, fraction, k))
            else k == 0
  {
    hide KeptDigits, Numeral;
    KeptFrom(integer, fraction, 0);
    assert integer + fraction[..0] == integer;
    assert fraction[0..] == fraction;
  }

  // ---- Examples ----

  /** A numeral with exponent. */
  function Powered(integer: Text, digits: Text): Numeric {
    Numeric(false, integer, [], Exponent(LETTER_E, [], digits))
  }

  function Alone(v: Tree): Document {
    Document([], v, [])
  }

  lemma PoweredText(integer: Text, digits: Text)
    ensures DocumentText(Alone(Num(Powered(integer, digits)))) == integer + ([LETTER_E] + digits)
  {
    assert [] + digits == digits;
  }

  lemma Value308(digits: Text)
    requires digits == [0x33, ZERO, 0x38] || digits == [0x33, ZERO, 0x39]
    ensures AllDigits(digits) && Numeral(digits) == if digits[2] == 0x38 then 308 else 309
  {
    assert digits[..2][..1] == [0x33] && [0x33][..0] == [];
    assert Numeral([0x33]) == 3;
    assert Numeral(digits[..2]) == 30;
  }

  /** 0e309 is zero and refused, 10e308 is beyond every double and accepted, 1e309 is the same number and refused. */
  lemma ExponentNotSize(f: Flags)
    requires PlainFlags(f)
    ensures var d := Alone(Num(Powered([ZERO], [0x33, ZERO, 0x39])));
            ValidDocument(d) && DocumentText(d) == [ZERO, LETTER_E, 0x33, ZERO, 0x39] && Parse(f, DocumentText(d)).Err?
    ensures var d := Alone(Num(Powered([0x31, ZERO], [0x33, ZERO, 0x38])));
            ValidDocument(d) && DocumentText(d) == [0x31, ZERO, LETTER_E, 0x33, ZERO, 0x38] &&
                Parse(f, DocumentText(d)).Ok?
    ensures var d := Alone(Num(Powered([0x31], [0x33, ZERO, 0x39])));
            ValidDocument(d) && DocumentText(d) == [0x31, LETTER_E, 0x33, ZERO, 0x39] && Parse(f, DocumentText(d)).Err?
  {
    hide Parse, NumericTaken, DocumentText;
    PoweredDecided(f, [ZERO], [0x33, ZERO, 0x39]);
    PoweredDecided(f, [0x31, ZERO], [0x33, ZERO, 0x38]);
    PoweredDecided(f, [0x31], [0x33, ZERO, 0x39]);
  }

  lemma PoweredDecided(f: Flags, integer: Text, digits: Text)
    requires PlainFlags(f) && AllDigits(integer) && 0 < |integer| <= 308 && (|integer| > 1 ==> integer[0] != ZERO)
    requires digits == [0x33, ZERO, 0x38] || digits == [0x33, ZERO, 0x39]
    ensures var d := Alone(Num(Powered(integer, digits)));
            && ValidDocument(d) && DocumentText(d) == integer + ([LETTER_E] + digits)
            && (Parse(f, DocumentText(d)).Ok? <==> digits[2] == 0x38)
  {
    hide Parse, NumericTaken, DocumentText, Numeral, TreeLog, CanonicalAll, Events, TreeValue;
    var n := Powered(integer, digits);
    Value308(digits);
    assert ValidDocument(Alone(Num(n)));
    PoweredText(integer, digits);
    ExponentDecides(f, n);
    DocumentAccepted(f, Alone(Num(n)));
  }

  /** The string "\ud800" is a JSON text, and refused. */
  lemma LoneLeadRefused(f: Flags)
    requires PlainFlags(f)
    ensures var d := Alone(Str([Unicode([0x64, 0x38, ZERO, ZERO])]));
            && ValidDocument(d) && DocumentText(d) == [QUOTE, BACKSLASH, LETTER_U, 0x64, 0x38, ZERO, ZERO, QUOTE]
            && Parse(f, DocumentText(d)).Err?
  {
    hide Parse, TreeLog, CanonicalAll, Events, TreeValue;
    var c := Unicode([0x64, 0x38, ZERO, ZERO]);
    var cs := [c];
    assert CodeUnit(c.hex) == 0xD800 && IsLead(cs[0]);
    assert cs[1..] == [];
    var d := Alone(Str(cs));
    assert CharsText(cs) == [BACKSLASH, LETTER_U, 0x64, 0x38, ZERO, ZERO] + [QUOTE];
    assert !TreeTaken(f, d.root);
    DocumentAccepted(f, d);
  }
}

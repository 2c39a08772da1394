/** What an error of Pointer::Parse says about the text, and which texts are pointers. */
module PointerErrors {
  import opened Bytes
  import opened Json
  import opened Pointers
  import opened Tables

  /** A tilde stands right before `p`, written as itself or as a triplet. */
  predicate BehindTilde(uri: bool, s: Text, p: nat) {
    && p <= |s|
    && ((p >= 1 && s[p - 1] == '~' as int) ||
       (uri && p >= 3 && IsTriplet(s, p - 3) && TripletValue(s, p - 3) == '~' as int))
  }

  predicate EscapeDigit(s: Text, p: nat) {
    p < |s| && OneOf(s[p], "01")
  }

  predicate IsTrue(uri: bool, s: Text, code: PointerError, p: nat) {
    match code
    case TokenMustBeginWithSolidus => p == (if uri then 1 else 0) < |s| && s[p] != '/' as int
    case InvalidEscape => BehindTilde(uri, s, p) && !EscapeDigit(s, p)
    case InvalidPercentEncoding => uri && p < |s| && s[p] == '%' as int && DecodePercent(s, p).None?
    case CharacterMustPercentEncode => uri && p < |s| && !InFragment(s[p])
  }

  lemma DigitsOfEscape(c: Byte)
    ensures OneOf(c, "01") <==> c == ZERO || c == ONE
  {
    var s := "01";
    assert s[0] as int == ZERO && s[1] as int == ONE;
  }

  lemma UnitFault(uri: bool, s: Text, i: nat)
    requires i < |s| && s[i] != SLASH && ScanUnit(uri, s, i).UnitError?
    ensures var r := ScanUnit(uri, s, i); IsTrue(uri, s, r.code, r.offset)
  {
    hide DecodePercent, OneOf, NeedPercentEncode, InFragment;
    FragmentExact(s[i]);
    forall c: Byte ensures OneOf(c, "01") <==> c == ZERO || c == ONE {
      DigitsOfEscape(c);
    }
    if uri && s[i] == PERCENT && DecodePercent(s, i).Some? {
      FirstTriplet(s, i);
    }
  }

  /** A single unit that was decoded is that of the first triplet. */
  lemma FirstTriplet(s: Text, i: nat)
    requires DecodePercent(s, i).Some?
    ensures IsTriplet(s, i) && DecodePercent(s, i).value[0] == TripletValue(s, i)
  {
    hide DecodePercent;
    var d := DecodePercent(s, i);
    assert d.value[0] == Triplets(s, i)[0];
  }

  lemma {:induction false} NameFault(uri: bool, s: Text, i: nat, name: Text)
    requires i <= |s| && ScanName(uri, s, i, name).NameError?
    ensures var r := ScanName(uri, s, i, name); IsTrue(uri, s, r.code, r.offset)
    decreases |s| - i
  {
    hide ScanUnit, IsTrue;
    match ScanUnit(uri, s, i)
    case Units(next, units) => NameFault(uri, s, next, name + units);
    case UnitError(_, _) => UnitFault(uri, s, i);
  }

  lemma {:induction false} TokensFault(uri: bool, s: Text, i: nat, tokens: seq<Token>)
    requires i <= |s| && (i == |s| || s[i] == SLASH) && ScanTokens(uri, s, i, tokens).Invalid?
    ensures var r := ScanTokens(uri, s, i, tokens); IsTrue(uri, s, r.code, r.offset)
    decreases |s| - i
  {
    hide ScanName, IndexOf, IsTrue;
    match ScanName(uri, s, i + 1, [])
    case NameEnd(next, name) => TokensFault(uri, s, next, tokens + [Token(name, IndexOf(name))]);
    case NameError(_, _) => NameFault(uri, s, i + 1, []);
  }

  /** The error reported for a text is true of it at its offset. */
  lemma ErrorIsTrue(s: Text)
    requires Parse(s).Invalid?
    ensures IsTrue(s != [] && s[0] == '#' as int, s, Parse(s).code, Parse(s).offset)
  {
    hide ScanTokens, InFragment, OneOf;
    var i := Start(s);
    if i == |s| || s[i] == SLASH {
      TokensFault(i == 1, s, i, []);
    }
  }

  // ---- Which plain texts are pointers ----

  /** Every tilde from `i` up to `j` begins an escape. */
  predicate TildesEscaped(s: Text, i: nat, j: nat) {
    forall k :: i <= k < j && k < |s| && s[k] == '~' as int ==> EscapeDigit(s, k + 1)
  }

  lemma PlainUnit(s: Text, i: nat)
    requires i < |s| && s[i] != SLASH
    ensures var r := ScanUnit(false, s, i);
            (r.Units? <==> TildesEscaped(s, i, i + 1)) && (r.Units? ==> TildesEscaped(s, i, r.next))
  {
    hide OneOf;
    forall c: Byte ensures OneOf(c, "01") <==> c == ZERO || c == ONE {
      DigitsOfEscape(c);
    }
  }

  lemma {:induction false} PlainName(s: Text, i: nat, name: Text)
    requires i <= |s|
    ensures var r := ScanName(false, s, i, name);
            && (r.NameEnd? ==> TildesEscaped(s, i, r.next))
            && (r.NameError? ==> !TildesEscaped(s, i, |s|))
    decreases |s| - i
  {
    hide ScanUnit, EscapeDigit;
    if i < |s| && s[i] != SLASH {
      PlainUnit(s, i);
      var r := ScanUnit(false, s, i);
      if r.Units? {
        PlainName(s, r.next, name + r.units);
      }
    }
  }

  lemma {:induction false} PlainTokens(s: Text, i: nat, tokens: seq<Token>)
    requires i <= |s| && (i == |s| || s[i] == SLASH)
    ensures ScanTokens(false, s, i, tokens).Tokens? <==> TildesEscaped(s, i, |s|)
    decreases |s| - i
  {
    hide ScanName, EscapeDigit, IndexOf;
    if i < |s| {
      PlainName(s, i + 1, []);
      match ScanName(false, s, i + 1, [])
      case NameEnd(next, name) => PlainTokens(s, next, tokens + [Token(name, IndexOf(name))]);
      case NameError(_, _) =>
    }
  }

  /** A text that is no URI fragment is a pointer exactly if it is empty or begins with a solidus, and a digit 0 or 1
      follows every tilde: the syntax of RFC 6901 section 3. */
  lemma PlainParses(s: Text)
    requires s == [] || s[0] != '#' as int
    ensures Parse(s).Tokens? <==> (s == [] || s[0] == '/' as int) && TildesEscaped(s, 0, |s|)
  {
    hide ScanTokens, EscapeDigit;
    if s == [] || s[0] == SLASH {
      PlainTokens(s, 0, []);
    }
  }
}

/** The path of the value being looked at, as an RFC 6901 string: schema.h's documentStack_. */
module Path {
  import opened Bytes
  import opened Json

  /** The escaping of one unit, RFC 6901 section 3. */
  function EscapeUnit(c: Byte): (r: Text)
    ensures SLASH !in r
  {
    if c == TILDE then [TILDE, ZERO] else if c == SLASH then [TILDE, ONE] else [c]
  }

  function EscapeName(name: Text): (r: Text)
    ensures SLASH !in r
  {
    if name == [] then [] else EscapeUnit(name[0]) + EscapeName(name[1..])
  }

  /** What AppendToken pushes. */
  function NameToken(name: Text): Text {
    [SLASH] + EscapeName(name)
  }

  /** What AppendIndexToken pushes. */
  function IndexToken(index: nat): Text {
    [SLASH] + Decimal(index)
  }

  /** The loop of EndValue: units are popped up to and including the last slash. */
  function PopToken(path: Text): Text
    decreases |path|
  {
    if path == [] then []
    else if path[|path| - 1] == SLASH then path[..|path| - 1]
    else PopToken(path[..|path| - 1])
  }

  /** A token is popped whole, and nothing below it. */
  lemma {:induction false} PopUndoesPush(path: Text, token: Text)
    requires SLASH !in token
    ensures PopToken(path + ([SLASH] + token)) == path
    decreases |token|
  {
    var whole := path + ([SLASH] + token);
    if token == [] {
      assert whole[..|whole| - 1] == path;
    } else {
      var init := token[..|token| - 1];
      assert whole[..|whole| - 1] == path + ([SLASH] + init);
      PopUndoesPush(path, init);
    }
  }

  lemma PopName(path: Text, name: Text)
    ensures PopToken(path + NameToken(name)) == path
  {
    PopUndoesPush(path, EscapeName(name));
  }

  lemma PopIndex(path: Text, index: nat)
    ensures PopToken(path + IndexToken(index)) == path
  {
    assert SLASH !in Decimal(index);
    PopUndoesPush(path, Decimal(index));
  }

  /** A reference token. */
  datatype PathStep = Name(name: Text) | Index(index: nat)

  function StepText(t: PathStep): Text {
    match t
    case Name(n) => NameToken(n)
    case Index(i) => IndexToken(i)
  }
}

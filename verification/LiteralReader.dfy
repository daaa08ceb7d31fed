/** A reader of SQL literals, and what it makes of the literals the binder writes. */
module LiteralReader {
  import opened Wrappers
  import opened Decimal
  import opened SqlBinding

  /** The text between quotes, with each pair of quotes standing for one; a single quote ends it. */
  function ReadText(s: string): Option<string>
    decreases |s|
  {
    if s == [] then None
    else if s == "'" then Some("")
    else if s[0] != '\'' then Prefixed(s[0], ReadText(s[1..]))
    else if s[1] == '\'' then Prefixed('\'', ReadText(s[2..]))
    else None
  }

  function Prefixed(c: char, r: Option<string>): Option<string> {
    match r
    case Some(t) => Some([c] + t)
    case None => None
  }

  function ReadNumeral(s: string): Option<int> {
    if s != [] && AllDigits(s) then Some(Parse(s))
    else if |s| > 1 && s[0] == '-' && AllDigits(s[1..]) then Some(-(Parse(s[1..]) as int))
    else None
  }

  function ReadLiteral(s: string): Option<Value> {
    if s == "NULL" then Some(Null)
    else if s == "TRUE" then Some(Bool(true))
    else if s == "FALSE" then Some(Bool(false))
    else if s != [] && s[0] == '\'' then
      match ReadText(s[1..])
      case Some(t) => Some(Text(t))
      case None => None
    else
      match ReadNumeral(s)
      case Some(n) => Some(I64(n))
      case None => None
  }

  lemma {:induction false} ReadDoubled(t: string)
    ensures ReadText(Doubled(t) + "'") == Some(t)
    decreases t
  {
    if t == [] {
      assert Doubled(t) + "'" == "'";
    } else {
      ReadDoubled(t[1..]);
      var rest := Doubled(t[1..]) + "'";
      var s := Doubled(t) + "'";
      if t[0] == '\'' {
        assert s == "''" + rest && s[2..] == rest;
      } else {
        assert s == [t[0]] + rest && s[1..] == rest;
      }
      assert [t[0]] + t[1..] == t;
    }
  }

  lemma ReadIntText(n: int)
    ensures IntText(n) != [] && IntText(n)[0] !in {'N', 'T', 'F', '\''} && ReadNumeral(IntText(n)) == Some(n)
  {
    hide Dec, Parse;
    if n < 0 {
      var s := IntText(n);
      assert s[1..] == Dec(-n) && '-' in s && !IsDigit('-');
      ParseDec(-n);
    } else {
      ParseDec(n);
      assert Dec(n)[0] in Dec(n);
    }
  }

  /** Every null, boolean, integer and text is read back from its literal. */
  lemma LiteralReadsBack(v: Value)
    requires !v.Other?
    ensures ReadLiteral(EscapeSqlValue(v)) == Some(v)
  {
    hide IntText, ReadNumeral, ReadText, Doubled;
    match v {
      case Null =>
      case Bool(_) =>
      case I64(n) => ReadIntText(n);
      case Text(t) =>
        ReadDoubled(t);
        var s := EscapeSqlValue(v);
        assert s[1..] == Doubled(t) + "'";
    }
  }

  /** So no two of them are written alike. */
  lemma LiteralsDiffer(a: Value, b: Value)
    requires !a.Other? && !b.Other? && EscapeSqlValue(a) == EscapeSqlValue(b)
    ensures a == b
  {
    LiteralReadsBack(a);
    LiteralReadsBack(b);
  }
}

/** The CSV parser against a reader that cuts the text into fields first and takes off quotes after. */
module CsvReference {
  import opened Wrappers
  import opened Fallible
  import opened Csv

  // ---- a reader by fields

  predicate IsDelimiter(ch: char) { ch == ',' || ch == '\r' || ch == '\n' }

  /** Up to the next comma or line break. */
  function BareLen(s: string): (n: nat)
    ensures n <= |s| && (n < |s| ==> IsDelimiter(s[n]))
  {
    if s == [] || IsDelimiter(s[0]) then 0 else 1 + BareLen(s[1..])
  }

  /** After an opening quote: up to and with the closing one, which no second quote follows. */
  function QuotedLen(s: string): (n: Option<nat>)
    ensures n.Some? ==> 0 < n.value <= |s|
    decreases |s|
  {
    if s == [] then None
    else if s[0] != '"' then Plus(1, QuotedLen(s[1..]))
    else if |s| > 1 && s[1] == '"' then Plus(2, QuotedLen(s[2..]))
    else Some(1)
  }

  function Plus(k: nat, n: Option<nat>): Option<nat> {
    match n
    case Some(m) => Some(k + m)
    case None => None
  }

  /** The field at the front as it stands in the text; none if its quote is never closed. */
  function FieldLen(s: string): (n: Option<nat>)
    ensures n.Some? ==> n.value <= |s|
  {
    if s == [] || s[0] != '"' then Some(BareLen(s))
    else match QuotedLen(s[1..])
         case None => None
         case Some(q) => Some(1 + q + BareLen(s[1 + q..]))
  }

  /** Quoted text up to the closing quote, then what follows it as it stands. */
  function Unquoted(s: string): string
    decreases |s|
  {
    if s == [] then []
    else if s[0] != '"' then [s[0]] + Unquoted(s[1..])
    else if |s| > 1 && s[1] == '"' then ['"'] + Unquoted(s[2..])
    else s[1..]
  }

  function FieldText(raw: string): string { if raw != [] && raw[0] == '"' then Unquoted(raw[1..]) else raw }

  function BreakLen(s: string): (n: nat)
    requires s != []
    ensures 1 <= n <= |s|
  {
    if |s| > 1 && s[0] == '\r' && s[1] == '\n' then 2 else 1
  }

  function Cons(row: seq<string>, r: Result<seq<seq<string>>>): Result<seq<seq<string>>> {
    match r
    case Ok(rows) => Ok([row] + rows)
    case Err => Err
  }

  /** The rows of a text, `row` being the fields already read of the first; a last row of one empty
      field is none. */
  function Rows(s: string, row: seq<string>): Result<seq<seq<string>>>
    decreases |s|
  {
    match FieldLen(s)
    case None => Err
    case Some(n) =>
      var fields := row + [FieldText(s[..n])];
      if n == |s| then Ok(if fields == [""] then [] else [fields])
      else if s[n] == ',' then Rows(s[n + 1..], fields)
      else Cons(fields, Rows(s[n + BreakLen(s[n..])..], []))
  }

  // ---- one field

  lemma RunOne(c: Config, s: string)
    requires s != [] && (s[0] != '\r' || c.state.Quoted?)
    ensures Run(c, s) == Run(Step(c, s[0]), s[1..])
  {
    assert s == [s[0]] + s[1..];
    RunCons(c, s[0], s[1..]);
  }

  lemma {:induction false} BareRuns(c: Config, s: string)
    requires c.state.Unquoted?
    ensures var n := BareLen(s); Run(c, s) == Run(c.(field := c.field + s[..n]), s[n..])
    decreases s
  {
    hide Run;
    var n := BareLen(s);
    if n == 0 {
      assert s[0..] == s && c.field + s[..0] == c.field;
    } else {
      RunOne(c, s);
      BareRuns(Push(c, s[0], ParseState.Unquoted), s[1..]);
      assert s[1..][..n - 1] == s[1..n] && c.field + [s[0]] + s[1..n] == c.field + s[..n];
      assert s[1..][n - 1..] == s[n..];
    }
  }

  /** The rest of a field whose state is not in quotes. */
  lemma TailRuns(c: Config, s: string) returns (d: Config)
    requires (AtField(c) && (s != [] ==> s[0] != '"')) || (c.state.QuoteEscape? && (s != [] ==> s[0] != '"'))
    ensures var n := BareLen(s);
            d == c.(field := c.field + s[..n], state := d.state) && !d.state.Quoted? && (d.state.FieldStart? ==> d.field == "" && d == c)
    ensures Run(c, s) == Run(d, s[BareLen(s)..])
  {
    hide Run;
    var n := BareLen(s);
    if n == 0 {
      assert s[0..] == s && c.field + s[..0] == c.field;
      d := c;
    } else {
      RunOne(c, s);
      var p := Push(c, s[0], ParseState.Unquoted);
      BareRuns(p, s[1..]);
      assert s[1..][..n - 1] == s[1..n] && c.field + [s[0]] + s[1..n] == c.field + s[..n];
      assert s[1..][n - 1..] == s[n..];
      d := p.(field := c.field + s[..n]);
    }
  }

  /** What a quoted part stands for, without the closing quote. */
  function Body(s: string): string
    requires QuotedLen(s).Some?
    decreases |s|
  {
    if s[0] != '"' then [s[0]] + Body(s[1..])
    else if |s| > 1 && s[1] == '"' then ['"'] + Body(s[2..])
    else []
  }

  lemma {:induction false} QuotedRuns(c: Config, s: string)
    requires c.state.Quoted?
    ensures match QuotedLen(s)
            case None => Run(c, s) == Err
            case Some(q) =>
              && Run(c, s) == Run(c.(field := c.field + Body(s), state := QuoteEscape), s[q..])
              && (q < |s| ==> s[q] != '"')
    decreases |s|
  {
    if s == [] {
    } else {
      hide Run;
      RunOne(c, s);
      if s[0] != '"' {
        QuotedRuns(Push(c, s[0], Quoted), s[1..]);
        Regrouped(c, s, s[0], 1);
      } else if |s| > 1 && s[1] == '"' {
        RunOne(c.(state := QuoteEscape), s[1..]);
        assert s[1..][1..] == s[2..];
        QuotedRuns(Push(c, '"', Quoted), s[2..]);
        Regrouped(c, s, '"', 2);
      } else {
        assert c.field + Body(s) == c.field;
      }
    }
  }

  lemma Regrouped(c: Config, s: string, ch: char, k: nat)
    requires k <= |s| && QuotedLen(s) == Plus(k, QuotedLen(s[k..]))
    requires QuotedLen(s).Some? ==> Body(s) == [ch] + Body(s[k..])
    ensures QuotedLen(s).Some? ==>
            && c.field + [ch] + Body(s[k..]) == c.field + Body(s)
            && s[k..][QuotedLen(s[k..]).value..] == s[QuotedLen(s).value..]
            && (QuotedLen(s).value < |s| ==> s[QuotedLen(s).value] == s[k..][QuotedLen(s[k..]).value])
  {
    hide Body, QuotedLen;
  }

  /** Taking the quotes off a whole field: the quoted part, then the rest as it stands. */
  lemma {:induction false} UnquotedIs(s: string, rest: string)
    requires QuotedLen(s).Some? && (rest != [] ==> rest[0] != '"') && QuotedLen(s) == Some(|s|)
    ensures Unquoted(s + rest) == Body(s) + rest
    decreases |s|
  {
    hide Unquoted;
    if s[0] != '"' {
      UnquotedIs(s[1..], rest);
      UnquotedSteps(s[0], s[1..] + rest);
      ThreeParts([s[0]], s[1..], rest);
      ThreeParts([s[0]], Body(s[1..]), rest);
      assert s == [s[0]] + s[1..];
    } else if |s| > 1 && s[1] == '"' {
      UnquotedIs(s[2..], rest);
      UnquotedSteps('"', s[2..] + rest);
      ThreeParts("\"\"", s[2..], rest);
      ThreeParts(['"'], Body(s[2..]), rest);
      assert s == "\"\"" + s[2..];
    } else {
      UnquotedSteps('"', rest);
      assert s == ['"'] && Body(s) + rest == rest;
    }
  }

  lemma ThreeParts(a: string, b: string, c: string)
    ensures a + b + c == a + (b + c)
  {
  }

  lemma UnquotedSteps(c: char, more: string)
    ensures c != '"' ==> Unquoted([c] + more) == [c] + Unquoted(more)
    ensures Unquoted("\"\"" + more) == ['"'] + Unquoted(more)
    ensures (more != [] ==> more[0] != '"') ==> Unquoted(['"'] + more) == more
  {
    assert ([c] + more)[1..] == more && ("\"\"" + more)[2..] == more && (['"'] + more)[1..] == more;
  }

  /** The quoted part does not depend on what follows it. */
  lemma {:induction false} QuotedFront(s: string)
    requires QuotedLen(s).Some?
    ensures var q := QuotedLen(s).value; QuotedLen(s[..q]) == Some(q) && Body(s[..q]) == Body(s)
    decreases |s|
  {
    var q := QuotedLen(s).value;
    var f := s[..q];
    if s[0] != '"' {
      QuotedFront(s[1..]);
      assert f[1..] == s[1..][..q - 1];
    } else if |s| > 1 && s[1] == '"' {
      QuotedFront(s[2..]);
      assert f[2..] == s[2..][..q - 2];
    } else {
      assert f == "\"";
    }
  }

  /** Reading a field leaves its text in `field`, ready for what follows; an unclosed one fails. */
  lemma FieldRuns(c: Config, s: string) returns (d: Config)
    requires AtField(c)
    ensures FieldLen(s).None? ==> Run(c, s) == Err
    ensures FieldLen(s).Some? ==>
            && var n := FieldLen(s).value;
            && d == c.(field := FieldText(s[..n]), state := d.state) && !d.state.Quoted? && (d.state.FieldStart? ==> d.field == "")
            && Run(c, s) == Run(d, s[n..])
  {
    hide Run, BareLen, QuotedLen, Unquoted;
    if s == [] || s[0] != '"' {
      d := TailRuns(c, s);
      var n := BareLen(s);
      assert c.field + s[..n] == s[..n];
      assert FieldText(s[..n]) == s[..n];
    } else {
      d := QuotedFieldRuns(c, s);
    }
  }

  lemma QuotedFieldRuns(c: Config, s: string) returns (d: Config)
    requires AtField(c) && s != [] && s[0] == '"'
    ensures FieldLen(s).None? ==> Run(c, s) == Err
    ensures FieldLen(s).Some? ==>
            && var n := FieldLen(s).value;
            && d == c.(field := FieldText(s[..n]), state := d.state) && !d.state.Quoted? && !d.state.FieldStart?
            && Run(c, s) == Run(d, s[n..])
  {
    hide Run, BareLen, QuotedLen, Unquoted, FieldText, Body;
    RunOne(c, s);
    var q, x := c.(state := Quoted), s[1..];
    QuotedRuns(q, x);
    d := c;
    if QuotedLen(x).Some? {
      var k := QuotedLen(x).value;
      var e, y := c.(field := Body(x), state := QuoteEscape), s[1 + k..];
      assert q.field + Body(x) == Body(x) && x[k..] == y;
      assert y != [] ==> y[0] == x[k];
      d := AfterQuoteRuns(e, y);
      QuotedFieldText(s);
      assert y[BareLen(y)..] == s[1 + k + BareLen(y)..];
    }
  }

  lemma AfterQuoteRuns(c: Config, s: string) returns (d: Config)
    requires c.state.QuoteEscape? && (s != [] ==> s[0] != '"')
    ensures d == c.(field := c.field + s[..BareLen(s)], state := d.state) && !d.state.Quoted? && !d.state.FieldStart?
    ensures Run(c, s) == Run(d, s[BareLen(s)..])
  {
    hide Run;
    d := TailRuns(c, s);
  }

  lemma QuotedFieldText(s: string)
    requires s != [] && s[0] == '"' && QuotedLen(s[1..]).Some?
    requires var k := QuotedLen(s[1..]).value; 1 + k < |s| ==> s[1 + k] != '"'
    ensures var k := QuotedLen(s[1..]).value;
            var b := BareLen(s[1 + k..]);
            FieldText(s[..1 + k + b]) == Body(s[1..]) + s[1 + k..][..b]
  {
    hide BareLen, QuotedLen, Unquoted, Body;
    var k := QuotedLen(s[1..]).value;
    var b := BareLen(s[1 + k..]);
    QuotedFront(s[1..]);
    var rest := s[1 + k..][..b];
    UnquotedIs(s[1..][..k], rest);
    assert s[..1 + k + b][1..] == s[1..][..k] + rest;
  }

  // ---- whole texts

  lemma DelimiterRuns(d: Config, s: string)
    requires !d.state.Quoted? && (d.state.FieldStart? ==> d.field == "") && (s != [] ==> IsDelimiter(s[0]))
    ensures s == [] ==> Run(d, s) == Ok(d.rows + if d.row + [d.field] == [""] then [] else [d.row + [d.field]])
    ensures s != [] && s[0] == ',' ==> Run(d, s) == Run(Config(d.rows, d.row + [d.field], "", FieldStart), s[1..])
    ensures s != [] && s[0] != ',' ==> Run(d, s) == Run(Config(d.rows + [d.row + [d.field]], [], "", FieldStart), s[BreakLen(s)..])
  {
    if s == [] {
      assert (d.row + [d.field])[|d.row|] == d.field && |d.row + [d.field]| == |d.row| + 1;
      assert d.row == [] ==> d.row + [d.field] == [d.field];
      assert d.rows + [] == d.rows;
    }
  }

  function After(done: seq<seq<string>>, r: Result<seq<seq<string>>>): Result<seq<seq<string>>> {
    match r
    case Ok(rows) => Ok(done + rows)
    case Err => Err
  }

  lemma AfterCons(done: seq<seq<string>>, row: seq<string>, r: Result<seq<seq<string>>>)
    ensures After(done, Cons(row, r)) == After(done + [row], r)
    ensures After([], r) == r
  {
    if r.Ok? { assert done + ([row] + r.value) == done + [row] + r.value && [] + r.value == r.value; }
  }

  lemma RowsStep(s: string, row: seq<string>)
    ensures Rows(s, row) ==
            match FieldLen(s)
            case None => Err
            case Some(n) =>
              var fields := row + [FieldText(s[..n])];
              if n == |s| then Ok(if fields == [""] then [] else [fields])
              else if s[n] == ',' then Rows(s[n + 1..], fields)
              else Cons(fields, Rows(s[n + BreakLen(s[n..])..], []))
  {
    hide FieldLen, FieldText, BreakLen;
  }

  lemma {:induction false} RunIsRows(done: seq<seq<string>>, row: seq<string>, s: string)
    ensures Run(Config(done, row, "", FieldStart), s) == After(done, Rows(s, row))
    decreases |s|
  {
    hide Run, FieldLen, FieldText, Rows;
    RowsStep(s, row);
    var c := Config(done, row, "", FieldStart);
    var d := FieldRuns(c, s);
    if FieldLen(s).Some? {
      var n := FieldLen(s).value;
      FieldStops(s);
      DelimiterRuns(d, s[n..]);
      var fields := row + [FieldText(s[..n])];
      if n == |s| {
      } else if s[n] == ',' {
        assert s[n..][1..] == s[n + 1..];
        RunIsRows(done, fields, s[n + 1..]);
      } else {
        var k := n + BreakLen(s[n..]);
        assert s[n..][BreakLen(s[n..])..] == s[k..];
        RunIsRows(done + [fields], [], s[k..]);
        AfterCons(done, fields, Rows(s[k..], []));
      }
    }
  }

  lemma FieldStops(s: string)
    requires FieldLen(s).Some?
    ensures var n := FieldLen(s).value; n < |s| ==> IsDelimiter(s[n])
  {
    if s != [] && s[0] == '"' {
      var q := QuotedLen(s[1..]).value;
      var b := BareLen(s[1 + q..]);
      assert 1 + q + b < |s| ==> s[1 + q..][b] == s[1 + q + b];
    }
  }

  /** On every text, well formed or not, the parser gives the rows that cutting into fields gives. */
  lemma ParseIsRows(s: string)
    ensures Parse(s) == Rows(s, [])
  {
    hide Run, Rows;
    RunIsRows([], [], s);
    AfterCons([], [], Rows(s, []));
  }

  // ---- when it fails

  datatype Where = AtStart | InBare | InQuotes | AfterQuote

  function Move(w: Where, ch: char): Where {
    if w.InQuotes? then (if ch == '"' then AfterQuote else InQuotes)
    else if IsDelimiter(ch) then AtStart
    else if ch == '"' && !w.InBare? then InQuotes
    else InBare
  }

  function Ends(w: Where, s: string): Where
    decreases s
  {
    if s == [] then w else Ends(Move(w, s[0]), s[1..])
  }

  function WhereIs(state: ParseState): Where {
    match state
    case FieldStart => AtStart
    case Unquoted => InBare
    case Quoted => InQuotes
    case QuoteEscape => AfterQuote
  }

  lemma {:induction false} RunFailsIff(c: Config, s: string)
    ensures Run(c, s).Err? <==> Ends(WhereIs(c.state), s).InQuotes?
    decreases |s|
  {
    if s != [] {
      var k := Taken(c, s);
      RunFailsIff(Step(c, s[0]), s[k..]);
      assert WhereIs(Step(c, s[0]).state) == Move(WhereIs(c.state), s[0]);
      if k == 2 { assert s[1..][1..] == s[2..] && s[1..][0] == '\n'; }
    }
  }

  /** Parsing fails exactly if the text ends inside a quoted field, read character by character. */
  lemma ParseFailsIff(s: string)
    ensures Parse(s).Err? <==> Ends(AtStart, s).InQuotes?
  {
    RunFailsIff(START, s);
  }

  // ---- a last line without a line break

  lemma {:induction false} LastLineReads(c: Config, fields: seq<string>)
    requires AtField(c)
    ensures var row := c.row + ReadBack(fields);
            Run(c, Line(fields)) == Ok(c.rows + if row == [""] then [] else [row])
    decreases fields
  {
    hide Run, QuoteCsvField, Line;
    LastLineCons(fields);
    if fields == [] {
      DelimiterRuns(c, []);
    } else if |fields| == 1 {
      var d := FieldReads(c, fields[0], []);
      DelimiterRuns(d, []);
      assert fields == [fields[0]] && QuoteCsvField(fields[0]) + [] == QuoteCsvField(fields[0]);
    } else {
      var more := Line(fields[1..]);
      var d := FieldReads(c, fields[0], [','] + more);
      DelimiterRuns(d, [','] + more);
      assert ([','] + more)[1..] == more;
      LastLineReads(c.(row := c.row + [fields[0]]), fields[1..]);
      assert c.row + [fields[0]] + ReadBack(fields[1..]) == c.row + fields;
    }
  }

  lemma LastLineCons(fields: seq<string>)
    ensures Line(fields) == if fields == [] then []
                            else if |fields| == 1 then QuoteCsvField(fields[0])
                            else QuoteCsvField(fields[0]) + ([','] + Line(fields[1..]))
  {
    hide QuoteCsvField;
  }

  lemma {:induction false} LinesThenLast(done: seq<seq<string>>, rows: seq<seq<string>>, last: seq<string>, eol: string)
    requires IsEol(eol)
    ensures Run(Config(done, [], "", FieldStart), Lines(rows, eol) + Line(last))
      == Ok(done + ReadBackRows(rows) + if ReadBack(last) == [""] then [] else [ReadBack(last)])
    decreases rows
  {
    hide Run, Line;
    if rows == [] {
      assert Lines(rows, eol) + Line(last) == Line(last) && done + ReadBackRows(rows) == done;
      LastLineReads(Config(done, [], "", FieldStart), last);
      assert [] + ReadBack(last) == ReadBack(last);
    } else {
      var rest := Lines(rows[1..], eol) + Line(last);
      assert Lines(rows, eol) + Line(last) == Line(rows[0]) + eol + rest;
      LineReads(Config(done, [], "", FieldStart), rows[0], eol, rest);
      LinesThenLast(done + [ReadBack(rows[0])], rows[1..], last, eol);
      assert [] + ReadBack(rows[0]) == ReadBack(rows[0]);
      assert done + [ReadBack(rows[0])] + ReadBackRows(rows[1..]) == done + ReadBackRows(rows);
    }
  }

  /** Leaving off the last line break loses no row, exactly unless the last row is one empty field. */
  lemma LastBreakIsOptionalIff(rows: seq<seq<string>>, last: seq<string>, eol: string)
    requires IsEol(eol)
    ensures Parse(Lines(rows, eol) + Line(last)) == Parse(Lines(rows + [last], eol)) <==> last != [] && last != [""]
    ensures last in {[], [""]} ==> Parse(Lines(rows, eol) + Line(last)) == Parse(Lines(rows, eol))
  {
    hide Lines, Line, Run;
    LinesThenLast([], rows, last, eol);
    ParseOfBuild(rows, eol);
    ParseOfBuild(rows + [last], eol);
    assert ReadBackRows(rows + [last]) == ReadBackRows(rows) + [ReadBack(last)];
    assert [] + ReadBackRows(rows) == ReadBackRows(rows) && ReadBackRows(rows) + [] == ReadBackRows(rows);
    assert |ReadBackRows(rows) + [ReadBack(last)]| != |ReadBackRows(rows)|;
  }
}

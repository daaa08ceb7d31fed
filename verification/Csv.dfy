/** Reading and writing CSV. */
module Csv {
  import opened Fallible
  import opened Tokenizer

  datatype ParseState = FieldStart | Unquoted | Quoted | QuoteEscape

  /** Finished rows, finished fields of the current row, the current field, and the state. */
  datatype Config = Config(rows: seq<seq<string>>, row: seq<string>, field: string, state: ParseState)

  const START := Config([], [], "", FieldStart)

  // ---- what the parser computes

  function EndField(c: Config): Config { c.(row := c.row + [c.field], field := "", state := FieldStart) }

  function EndRow(c: Config): Config { Config(c.rows + [c.row + [c.field]], [], "", FieldStart) }

  function Push(c: Config, ch: char, state: ParseState): Config { c.(field := c.field + [ch], state := state) }

  predicate IsNewline(ch: char) { ch == '\r' || ch == '\n' }

  function Step(c: Config, ch: char): Config {
    match c.state
    case FieldStart =>
      if ch == '"' then c.(state := Quoted)
      else if ch == ',' then c.(row := c.row + [""])
      else if IsNewline(ch) then EndRow(c)
      else Push(c, ch, Unquoted)
    case Unquoted =>
      if ch == ',' then EndField(c) else if IsNewline(ch) then EndRow(c) else Push(c, ch, Unquoted)
    case Quoted =>
      if ch == '"' then c.(state := QuoteEscape) else Push(c, ch, Quoted)
    case QuoteEscape =>
      if ch == '"' then Push(c, '"', Quoted)
      else if ch == ',' then EndField(c)
      else if IsNewline(ch) then EndRow(c)
      else Push(c, ch, Unquoted)
  }

  /** A line feed right after an unquoted carriage return belongs to it. */
  function Taken(c: Config, s: string): (n: nat)
    requires s != []
    ensures 1 <= n <= |s|
  {
    if !c.state.Quoted? && s[0] == '\r' && |s| > 1 && s[1] == '\n' then 2 else 1
  }

  function Flush(c: Config): Result<seq<seq<string>>> {
    if c.state.Quoted? then Err
    else if c.field != "" || c.row != [] then Ok(c.rows + [c.row + [c.field]])
    else Ok(c.rows)
  }

  function Run(c: Config, s: string): Result<seq<seq<string>>>
    decreases |s|
  {
    if s == [] then Flush(c) else Run(Step(c, s[0]), s[Taken(c, s)..])
  }

  function Parse(s: string): Result<seq<seq<string>>> { Run(START, s) }

  lemma RunStep(c: Config, s: string, i: nat)
    requires i < |s|
    ensures 1 <= Taken(c, s[i..]) <= |s| - i
    ensures Taken(c, s[i..]) == if !c.state.Quoted? && s[i] == '\r' && i + 1 < |s| && s[i + 1] == '\n' then 2 else 1
    ensures Run(c, s[i..]) == Run(Step(c, s[i]), s[i + Taken(c, s[i..])..])
  {
    assert s[i..][Taken(c, s[i..])..] == s[i + Taken(c, s[i..])..];
  }

  method ParseCsv(input: string) returns (r: Result<seq<seq<string>>>)
    ensures r == Parse(input)
  {
    hide Run;
    var rows: seq<seq<string>>, row: seq<string>, field, state := [], [], "", FieldStart;
    var i := 0;
    assert input[0..] == input;
    while i < |input|
      invariant 0 <= i <= |input|
      invariant Run(Config(rows, row, field, state), input[i..]) == Parse(input)
    {
      ghost var c := Config(rows, row, field, state);
      RunStep(c, input, i);
      var ch := input[i];
      i := i + 1;
      match state {
        case FieldStart =>
          if ch == '"' {
            state := Quoted;
          } else if ch == ',' {
            row := row + [""];
          } else if IsNewline(ch) {
            rows, row, field := rows + [row + [field]], [], "";
            if ch == '\r' && i < |input| && input[i] == '\n' { i := i + 1; }
          } else {
            field, state := field + [ch], Unquoted;
          }
        case Unquoted =>
          if ch == ',' {
            row, field, state := row + [field], "", FieldStart;
          } else if IsNewline(ch) {
            rows, row, field, state := rows + [row + [field]], [], "", FieldStart;
            if ch == '\r' && i < |input| && input[i] == '\n' { i := i + 1; }
          } else {
            field := field + [ch];
          }
        case Quoted =>
          if ch == '"' { state := QuoteEscape; } else { field := field + [ch]; }
        case QuoteEscape =>
          if ch == '"' {
            field, state := field + ['"'], Quoted;
          } else if ch == ',' {
            row, field, state := row + [field], "", FieldStart;
          } else if IsNewline(ch) {
            rows, row, field, state := rows + [row + [field]], [], "", FieldStart;
            if ch == '\r' && i < |input| && input[i] == '\n' { i := i + 1; }
          } else {
            field, state := field + [ch], Unquoted;
          }
      }
    }
    RunEnd(Config(rows, row, field, state), input[i..]);
    if state == Quoted { return Err; }
    if field != "" || row != [] {
      rows := rows + [row + [field]];
    }
    r := Ok(rows);
  }

  lemma RunEnd(c: Config, s: string)
    requires s == []
    ensures Run(c, s) == Flush(c)
  {
  }

  // ---- writing

  function DoubleQuotes(s: string): string {
    if s == [] then [] else (if s[0] == '"' then "\"\"" else [s[0]]) + DoubleQuotes(s[1..])
  }

  predicate NeedsQuoting(s: string) {
    || ',' in s || '"' in s || '\n' in s || '\r' in s
    || (s != [] && (s[0] == ' ' || s[|s| - 1] == ' '))
  }

  function QuoteCsvField(s: string): string {
    if NeedsQuoting(s) then "\"" + DoubleQuotes(s) + "\"" else s
  }

  /** The quoted fields with commas between them. */
  function Line(fields: seq<string>): string {
    if fields == [] then []
    else if |fields| == 1 then QuoteCsvField(fields[0])
    else QuoteCsvField(fields[0]) + ([','] + Line(fields[1..]))
  }

  const CRLF := "\r\n"
  const LF := "\n"

  predicate IsEol(eol: string) { eol == CRLF || eol == LF }

  function Lines(rows: seq<seq<string>>, eol: string): string {
    if rows == [] then [] else Line(rows[0]) + eol + Lines(rows[1..], eol)
  }

  function Shown<V>(row: seq<V>, show: V -> string): seq<string> {
    seq(|row|, i requires 0 <= i < |row| => show(row[i]))
  }

  function ShownRows<V>(rows: seq<seq<V>>, show: V -> string): seq<seq<string>> {
    seq(|rows|, i requires 0 <= i < |rows| => Shown(rows[i], show))
  }

  /** `show` is the text of a value, the empty string for NULL. */
  method BuildCsvOutput<V>(headers: seq<string>, rows: seq<seq<V>>, show: V -> string) returns (out: string)
    ensures out == Lines([headers] + ShownRows(rows, show), "\r\n")
  {
    ghost var all := [headers] + ShownRows(rows, show);
    out := Line(headers) + CRLF;
    assert all[1..1] == [] && Lines([], CRLF) == [];
    for i := 0 to |rows|
      invariant out == Lines(all[..i + 1], CRLF)
    {
      out := out + Line(Shown(rows[i], show)) + CRLF;
      LinesSnoc(all[..i + 1], Shown(rows[i], show), CRLF);
      assert all[..i + 2] == all[..i + 1] + [Shown(rows[i], show)];
    }
    assert all[..|rows| + 1] == all;
  }

  lemma {:induction false} LinesSnoc(rows: seq<seq<string>>, row: seq<string>, eol: string)
    ensures Lines(rows + [row], eol) == Lines(rows, eol) + Line(row) + eol
    decreases rows
  {
    hide Line;
    if rows == [] {
      assert rows + [row] == [row];
    } else {
      assert (rows + [row])[1..] == rows[1..] + [row];
      LinesSnoc(rows[1..], row, eol);
    }
  }

  // ---- reading back what was written

  lemma RunCons(c: Config, ch: char, rest: string)
    requires ch != '\r' || c.state.Quoted?
    ensures Run(c, [ch] + rest) == Run(Step(c, ch), rest)
  {
    assert ([ch] + rest)[1..] == rest;
  }

  lemma RunEol(c: Config, eol: string, rest: string)
    requires !c.state.Quoted? && IsEol(eol)
    ensures Run(c, eol + rest) == Run(EndRow(c), rest)
  {
    assert (eol + rest)[|eol|..] == rest;
  }

  lemma {:induction false} PlainText(c: Config, f: string, rest: string)
    requires c.state.Unquoted? && !NeedsQuotingInside(f)
    ensures Run(c, f + rest) == Run(c.(field := c.field + f), rest)
    decreases f
  {
    hide Run;
    if f == [] {
      assert f + rest == rest && c.field + f == c.field;
    } else {
      RunCons(c, f[0], f[1..] + rest);
      assert f + rest == [f[0]] + (f[1..] + rest);
      PlainText(Step(c, f[0]), f[1..], rest);
      assert c.field + [f[0]] + f[1..] == c.field + f;
    }
  }

  predicate NeedsQuotingInside(s: string) { ',' in s || '"' in s || '\n' in s || '\r' in s }

  lemma DoubleQuotesCons(f: string, rest: string)
    requires f != []
    ensures DoubleQuotes(f) + rest == (if f[0] == '"' then "\"\"" else [f[0]]) + (DoubleQuotes(f[1..]) + rest)
  {
  }

  lemma RunPair(c: Config, rest: string)
    requires c.state.Quoted?
    ensures Run(c, "\"\"" + rest) == Run(Push(c, '"', Quoted), rest)
  {
    hide Run;
    assert "\"\"" + rest == ['"'] + (['"'] + rest);
    RunCons(c, '"', ['"'] + rest);
    RunCons(c.(state := QuoteEscape), '"', rest);
  }

  lemma {:induction false} QuotedText(c: Config, f: string, rest: string)
    requires c.state.Quoted?
    ensures Run(c, DoubleQuotes(f) + rest) == Run(c.(field := c.field + f), rest)
    decreases f
  {
    if f == [] {
      assert DoubleQuotes(f) + rest == rest && c.field + f == c.field;
    } else {
      hide Run, DoubleQuotes;
      QuotedHead(c, f, rest);
      QuotedText(Push(c, f[0], Quoted), f[1..], rest);
      assert c.field + [f[0]] + f[1..] == c.field + f;
    }
  }

  lemma QuotedHead(c: Config, f: string, rest: string)
    requires c.state.Quoted? && f != []
    ensures Run(c, DoubleQuotes(f) + rest) == Run(Push(c, f[0], Quoted), DoubleQuotes(f[1..]) + rest)
  {
    hide Run, DoubleQuotes;
    var more := DoubleQuotes(f[1..]) + rest;
    DoubleQuotesCons(f, rest);
    if f[0] == '"' { RunPair(c, more); } else { RunCons(c, f[0], more); }
  }

  predicate AtField(c: Config) { c.state.FieldStart? && c.field == "" }

  lemma QuotedShape(f: string, rest: string)
    requires NeedsQuoting(f)
    ensures QuoteCsvField(f) + rest == ['"'] + (DoubleQuotes(f) + (['"'] + rest))
  {
    hide DoubleQuotes, NeedsQuoting;
  }

  lemma QuotedFieldReads(c: Config, f: string, rest: string)
    requires AtField(c) && NeedsQuoting(f)
    ensures Run(c, QuoteCsvField(f) + rest) == Run(c.(field := f, state := QuoteEscape), rest)
  {
    hide Run, DoubleQuotes, NeedsQuoting, QuoteCsvField;
    var q := c.(state := Quoted);
    QuotedShape(f, rest);
    RunCons(c, '"', DoubleQuotes(f) + (['"'] + rest));
    QuotedText(q, f, ['"'] + rest);
    assert q.field + f == f;
    RunCons(q.(field := f), '"', rest);
  }

  lemma PlainFieldReads(c: Config, f: string, rest: string)
    requires AtField(c) && !NeedsQuoting(f) && f != ""
    ensures Run(c, QuoteCsvField(f) + rest) == Run(c.(field := f, state := Unquoted), rest)
  {
    hide Run;
    assert QuoteCsvField(f) + rest == [f[0]] + (f[1..] + rest);
    RunCons(c, f[0], f[1..] + rest);
    var p := Push(c, f[0], Unquoted);
    PlainText(p, f[1..], rest);
    assert p.field + f[1..] == f;
  }

  /** Reading a written field leaves its text in `field`, ready for a comma or a newline. */
  lemma FieldReads(c: Config, f: string, rest: string) returns (d: Config)
    requires AtField(c)
    ensures d == c.(field := f, state := d.state) && !d.state.Quoted? && (d.state.FieldStart? ==> f == "")
    ensures Run(c, QuoteCsvField(f) + rest) == Run(d, rest)
  {
    hide Run;
    if NeedsQuoting(f) {
      QuotedFieldReads(c, f, rest);
      d := c.(field := f, state := QuoteEscape);
    } else if f == "" {
      assert QuoteCsvField(f) + rest == rest;
      d := c;
    } else {
      PlainFieldReads(c, f, rest);
      d := c.(field := f, state := Unquoted);
    }
  }

  /** How a written row reads back: a row of no fields is an empty line, which has one. */
  function ReadBack(row: seq<string>): seq<string> { if row == [] then [""] else row }

  lemma LineCons(fields: seq<string>, eol: string, rest: string)
    ensures Line(fields) + eol + rest
      == if fields == [] then eol + rest
         else if |fields| == 1 then QuoteCsvField(fields[0]) + (eol + rest)
         else QuoteCsvField(fields[0]) + ([','] + (Line(fields[1..]) + eol + rest))
  {
    hide QuoteCsvField;
    if fields == [] {
      assert Line(fields) + eol == eol;
    } else if |fields| == 1 {
      Regroup(QuoteCsvField(fields[0]), [], [], eol, rest);
    } else {
      Regroup(QuoteCsvField(fields[0]), [','], Line(fields[1..]), eol, rest);
    }
  }

  lemma Regroup(a: string, b: string, c: string, d: string, e: string)
    ensures a + (b + c) + d + e == a + (b + (c + d + e))
    ensures a + d + e == a + (d + e)
  {
  }

  lemma {:induction false} LineReads(c: Config, fields: seq<string>, eol: string, rest: string)
    requires AtField(c) && IsEol(eol)
    ensures Run(c, Line(fields) + eol + rest) == Run(Config(c.rows + [c.row + ReadBack(fields)], [], "", FieldStart), rest)
    decreases fields
  {
    hide Run, QuoteCsvField, Line, IsEol;
    LineCons(fields, eol, rest);
    if fields == [] {
      RunEol(c, eol, rest);
    } else if |fields| == 1 {
      var d := FieldReads(c, fields[0], eol + rest);
      RunEol(d, eol, rest);
      assert fields == [fields[0]];
    } else {
      var more := Line(fields[1..]) + eol + rest;
      var d := FieldReads(c, fields[0], [','] + more);
      RunCons(d, ',', more);
      var e := c.(row := c.row + [fields[0]]);
      assert Step(d, ',') == e;
      LineReads(e, fields[1..], eol, rest);
      assert c.row + [fields[0]] + ReadBack(fields[1..]) == c.row + fields;
    }
  }

  function ReadBackRows(rows: seq<seq<string>>): seq<seq<string>> {
    seq(|rows|, i requires 0 <= i < |rows| => ReadBack(rows[i]))
  }

  lemma {:induction false} LinesRead(done: seq<seq<string>>, rows: seq<seq<string>>, eol: string)
    requires IsEol(eol)
    ensures Run(Config(done, [], "", FieldStart), Lines(rows, eol)) == Ok(done + ReadBackRows(rows))
    decreases rows
  {
    hide Line;
    if rows == [] {
      assert done + ReadBackRows(rows) == done;
    } else {
      hide Run;
      LineReads(Config(done, [], "", FieldStart), rows[0], eol, Lines(rows[1..], eol));
      LinesRead(done + [ReadBack(rows[0])], rows[1..], eol);
      assert [] + ReadBack(rows[0]) == ReadBack(rows[0]);
      assert done + [ReadBack(rows[0])] + ReadBackRows(rows[1..]) == done + ReadBackRows(rows);
    }
  }

  /** Whatever the fields hold and whichever line ending is used, parsing the written text
      succeeds and gives the rows back, a row of no fields as one empty field. */
  lemma ParseOfBuild(rows: seq<seq<string>>, eol: string)
    requires IsEol(eol)
    ensures Parse(Lines(rows, eol)) == Ok(ReadBackRows(rows))
  {
    LinesRead([], rows, eol);
    assert [] + ReadBackRows(rows) == ReadBackRows(rows);
  }

  /** Writing and reading is the identity exactly on rows that have a field. */
  lemma RoundTripIff(headers: seq<string>, rows: seq<seq<string>>)
    ensures Parse(Lines([headers] + rows, CRLF)) == Ok([headers] + rows)
      <==> headers != [] && forall i :: 0 <= i < |rows| ==> rows[i] != []
  {
    hide Parse, Lines;
    var all := [headers] + rows;
    ParseOfBuild(all, CRLF);
    if headers != [] && forall i :: 0 <= i < |rows| ==> rows[i] != [] {
      assert ReadBackRows(all) == all;
    } else if headers == [] {
      assert ReadBackRows(all)[0] != all[0];
    } else {
      var i :| 0 <= i < |rows| && rows[i] == [];
      assert ReadBackRows(all)[i + 1] == [""] && all[i + 1] == [];
    }
  }

  /** A field is put in quotes exactly if some character asks for it, or a space at an edge. */
  lemma QuotedIff(f: string)
    ensures QuoteCsvField(f) != f <==> (exists i :: 0 <= i < |f| && f[i] in {',', '"', '\n', '\r'}) || " " <= f || (f != "" && f[|f| - 1] == ' ')
  {
    hide DoubleQuotes;
    if NeedsQuoting(f) {
      DoubledIsLonger(f);
    } else {
      assert !(" " <= f) by { assert " "[0] == ' '; }
    }
    if c :| c in f && c in {',', '"', '\n', '\r'} { var i :| 0 <= i < |f| && f[i] == c; }
    if f != [] && f[0] == ' ' { assert " " <= f; }
  }

  lemma {:induction false} DoubledIsLonger(f: string)
    ensures |DoubleQuotes(f)| >= |f|
  {
    if f != [] { DoubledIsLonger(f[1..]); }
  }

  lemma EdgesAreQuoted(f: string)
    ensures f == "" <==> QuoteCsvField(f) == ""
    ensures var w := QuoteCsvField(f); w != "" ==> w[0] != ' ' && w[|w| - 1] != ' '
  {
  }

  function UndoubleQuotes(s: string): string
    decreases |s|
  {
    if s == [] then []
    else if |s| > 1 && s[0] == '"' && s[1] == '"' then ['"'] + UndoubleQuotes(s[2..])
    else [s[0]] + UndoubleQuotes(s[1..])
  }

  lemma {:induction false} UndoubleOfDouble(s: string)
    ensures UndoubleQuotes(DoubleQuotes(s)) == s
  {
    if s != [] {
      UndoubleOfDouble(s[1..]);
      if s[0] == '"' {
        assert DoubleQuotes(s)[2..] == DoubleQuotes(s[1..]);
      } else {
        assert DoubleQuotes(s)[1..] == DoubleQuotes(s[1..]);
      }
    }
  }

  /** A reader that trims white space around fields without quotes. */
  function ReadTrimming(written: string): string {
    if |written| >= 2 && written[0] == '"' && written[|written| - 1] == '"'
    then UndoubleQuotes(written[1..|written| - 1]) else Trim(written)
  }

  /** Such a reader gets the field back exactly if it was quoted or has no white space at its
      edges; only spaces there, not tabs, cause quoting. */
  lemma TrimmingReaderIff(f: string)
    ensures ReadTrimming(QuoteCsvField(f)) == f <==> NeedsQuoting(f) || Trim(f) == f
  {
    hide Trim;
    if NeedsQuoting(f) {
      var w := QuoteCsvField(f);
      assert w[1..|w| - 1] == DoubleQuotes(f);
      UndoubleOfDouble(f);
    }
  }

  lemma TabExample()
    ensures !NeedsQuoting("\tx") && QuoteCsvField("\tx") == "\tx" && ReadTrimming(QuoteCsvField("\tx")) == "x"
  {
    assert "\tx"[1..] == "x" && TrimStart("\tx") == "x";
  }

  /** No two lists of rows with fields are written alike. */
  lemma WritingIsInjective(a: seq<seq<string>>, b: seq<seq<string>>)
    requires Lines(a, CRLF) == Lines(b, CRLF)
    ensures ReadBackRows(a) == ReadBackRows(b)
  {
    ParseOfBuild(a, CRLF);
    ParseOfBuild(b, CRLF);
  }
}

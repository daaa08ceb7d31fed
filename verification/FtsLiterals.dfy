/** Reading the VALUES list of an insert into a full-text table. */
module FtsLiterals {
  import opened Wrappers
  import opened Integers
  import opened Decimal
  import opened SqlBinding
  import opened Tokenizer
  import opened FullText

  // ---- what the scanners compute

  /** Inside a string literal or not, and the character before. */
  datatype Scan = Scan(inSingle: bool, prev: char)

  const START := Scan(false, '\0')

  function Next(q: Scan, c: char): Scan {
    Scan(if q.inSingle then !(c == '\'' && q.prev != '\\') else c == '\'', c)
  }

  function Shift(n: nat, r: Option<nat>): Option<nat> {
    match r
    case Some(i) => Some(n + i)
    case None => None
  }

  predicate Closes(q: Scan, depth: nat, c: char) { !q.inSingle && c == ')' && depth <= 1 }

  function Deeper(q: Scan, depth: nat, c: char): (d: nat)
    requires depth > 0 && !Closes(q, depth, c)
    ensures d > 0
  {
    if q.inSingle then depth else if c == '(' then depth + 1 else if c == ')' then depth - 1 else depth
  }

  function Find(s: string, q: Scan, depth: nat): (r: Option<nat>)
    requires depth > 0
    ensures r.Some? ==> r.value < |s|
    decreases s
  {
    if s == [] then None
    else if Closes(q, depth, s[0]) then Some(0)
    else Shift(1, Find(s[1..], Next(q, s[0]), Deeper(q, depth, s[0])))
  }

  method FindClosingParen(s: string) returns (r: Option<nat>)
    ensures r == Find(s, START, 1)
  {
    hide Find;
    var depth, inSingle, prev := 1, false, '\0';
    assert s[0..] == s;
    for i := 0 to |s|
      invariant depth > 0
      invariant Find(s, START, 1) == Shift(i, Find(s[i..], Scan(inSingle, prev), depth))
    {
      FindStep(s, i, Scan(inSingle, prev), depth);
      var c := s[i];
      if inSingle {
        if c == '\'' && prev != '\\' { inSingle := false; }
      } else if c == '\'' {
        inSingle := true;
      } else if c == '(' {
        depth := depth + 1;
      } else if c == ')' {
        if depth == 1 { return Some(i); }
        depth := depth - 1;
      }
      prev := c;
    }
    FindNothing(s[|s|..], Scan(inSingle, prev), depth);
    r := None;
  }

  lemma FindStep(s: string, i: nat, q: Scan, depth: nat)
    requires i < |s| && depth > 0
    ensures Find(s[i..], q, depth)
      == if Closes(q, depth, s[i]) then Some(0) else Shift(1, Find(s[i + 1..], Next(q, s[i]), Deeper(q, depth, s[i])))
  {
    assert s[i..][1..] == s[i + 1..];
  }

  lemma FindNothing(s: string, q: Scan, depth: nat)
    requires s == [] && depth > 0
    ensures Find(s, q, depth) == None
  {
  }

  function Fields(s: string, q: Scan, current: string): seq<string>
    decreases s
  {
    if s == [] then (if Trim(current) != [] then [Trim(current)] else [])
    else if !q.inSingle && s[0] == ',' then [Trim(current)] + Fields(s[1..], Next(q, ','), "")
    else Fields(s[1..], Next(q, s[0]), current + [s[0]])
  }

  method SplitValues(s: string) returns (result: seq<string>)
    ensures result == Fields(s, START, "")
  {
    hide Trim;
    result := [];
    var current, inSingle, prev := "", false, '\0';
    assert s[0..] == s && result + Fields(s, START, "") == Fields(s, START, "");
    for i := 0 to |s|
      invariant Fields(s, START, "") == result + Fields(s[i..], Scan(inSingle, prev), current)
    {
      assert s[i..][1..] == s[i + 1..];
      var c := s[i];
      if inSingle {
        current := current + [c];
        if c == '\'' && prev != '\\' { inSingle := false; }
      } else if c == '\'' {
        inSingle := true;
        current := current + [c];
      } else if c == ',' {
        result := result + [Trim(current)];
        current := "";
      } else {
        current := current + [c];
      }
      prev := c;
    }
    if Trim(current) != [] { result := result + [Trim(current)]; }
  }

  /** Every pair of quotes collapsed, left to right. */
  function Undoubled(s: string): string
    decreases |s|
  {
    if s == [] then []
    else if |s| > 1 && s[0] == '\'' && s[1] == '\'' then "'" + Undoubled(s[2..])
    else [s[0]] + Undoubled(s[1..])
  }

  function StripStringLiteral(s: string): string {
    var t := Trim(s);
    if |t| >= 2 && t[0] == '\'' && t[|t| - 1] == '\'' then Undoubled(t[1..|t| - 1]) else t
  }

  // ---- what is written

  function Literal(t: string): string { EscapeSqlValue(Text(t)) }

  /** A comma, white space and a literal for each text. */
  function Tail(texts: seq<string>, ws: string): string {
    if texts == [] then [] else "," + (ws + Literal(texts[0])) + Tail(texts[1..], ws)
  }

  function Rendered(id: int, texts: seq<string>, ws: string): string { IntText(id) + Tail(texts, ws) }

  predicate Blank(ws: string) { forall i :: 0 <= i < |ws| ==> IsWhitespace(ws[i]) }

  predicate CleanFrom(prev: char, t: string)
    decreases t
  {
    if t == [] then prev != '\\' else (t[0] == '\'' ==> prev != '\\') && CleanFrom(t[0], t[1..])
  }

  /** No backslash right before a quote or at the end. */
  predicate Clean(t: string) { CleanFrom('\'', t) }

  predicate AllClean(texts: seq<string>) { forall i :: 0 <= i < |texts| ==> Clean(texts[i]) }

  // ---- scanning a stretch of text

  function After(q: Scan, s: string): Scan
    decreases s
  {
    if s == [] then q else After(Next(q, s[0]), s[1..])
  }

  /** No comma or parenthesis outside literals. */
  predicate Quiet(q: Scan, s: string)
    decreases s
  {
    s == [] || ((q.inSingle || s[0] !in "(),") && Quiet(Next(q, s[0]), s[1..]))
  }

  lemma {:induction false} AfterConcat(q: Scan, a: string, b: string)
    ensures After(q, a + b) == After(After(q, a), b)
    ensures Quiet(q, a + b) <==> Quiet(q, a) && Quiet(After(q, a), b)
    decreases a
  {
    if a == [] {
      assert a + b == b;
    } else {
      assert (a + b)[1..] == a[1..] + b;
      AfterConcat(Next(q, a[0]), a[1..], b);
    }
  }

  lemma {:induction false} FindQuiet(q: Scan, a: string, rest: string, depth: nat)
    requires depth > 0 && Quiet(q, a)
    ensures Find(a + rest, q, depth) == Shift(|a|, Find(rest, After(q, a), depth))
    decreases a
  {
    if a == [] {
      assert a + rest == rest;
    } else {
      assert (a + rest)[1..] == a[1..] + rest;
      FindQuiet(Next(q, a[0]), a[1..], rest, depth);
    }
  }

  lemma {:induction false} FieldsQuiet(q: Scan, a: string, rest: string, current: string)
    requires Quiet(q, a)
    ensures Fields(a + rest, q, current) == Fields(rest, After(q, a), current + a)
    decreases a
  {
    hide Trim;
    if a == [] {
      assert a + rest == rest && current + a == current;
    } else {
      assert (a + rest)[1..] == a[1..] + rest;
      FieldsQuiet(Next(q, a[0]), a[1..], rest, current + [a[0]]);
      assert current + [a[0]] + a[1..] == current + a;
    }
  }

  /** The finder stops only outside literals. */
  lemma {:induction false} FindStopsOutside(s: string, q: Scan, depth: nat, k: nat)
    requires depth > 0 && Find(s, q, depth) == Some(k)
    ensures k < |s| && !After(q, s[..k]).inSingle
    decreases s
  {
    if Closes(q, depth, s[0]) {
      assert s[..0] == [];
    } else {
      FindStopsOutside(s[1..], Next(q, s[0]), Deeper(q, depth, s[0]), k - 1);
      assert s[..k][1..] == s[1..][..k - 1];
    }
  }

  predicate Plain(c: char) { c !in "'(),\\" }

  predicate AllPlain(s: string) { forall i :: 0 <= i < |s| ==> Plain(s[i]) }

  /** Plain text does not change whether the scan is inside a literal. */
  lemma {:induction false} PlainKeeps(q: Scan, a: string)
    requires AllPlain(a)
    ensures After(q, a).inSingle == q.inSingle
    ensures q.prev != '\\' ==> After(q, a).prev != '\\'
    ensures !q.inSingle ==> Quiet(q, a)
    decreases a
  {
    if a != [] {
      assert Plain(a[0]);
      assert forall i :: 0 <= i < |a[1..]| ==> a[1..][i] == a[i + 1];
      PlainKeeps(Next(q, a[0]), a[1..]);
    }
  }

  // ---- scanning a literal

  function Body(t: string): string { Doubled(t) + "'" }

  lemma BodyCons(q: Scan, t: string)
    requires t != []
    ensures var c := t[0]; var q' := Next(q, c); var q'' := if c == '\'' then Next(q', c) else q';
            && After(q, Body(t)) == After(q'', Body(t[1..]))
            && (Quiet(q, Body(t)) <==> (q.inSingle || c !in "(),") && Quiet(q'', Body(t[1..])))
  {
    var c, rest := t[0], Body(t[1..]);
    if c == '\'' {
      assert Body(t) == "''" + rest;
      AfterConcat(q, "''", rest);
      assert After(q, "''") == After(Next(q, '\''), "''"[1..]) && "''"[1..] == "'";
      assert After(Next(q, '\''), "'") == After(Next(Next(q, '\''), '\''), "'"[1..]);
      assert "'"[1..] == "";
    } else {
      assert Body(t) == [c] + rest && ([c] + rest)[1..] == rest;
    }
  }

  lemma BodyEnd(q: Scan)
    ensures After(q, Body("")) == Next(q, '\'') && Quiet(q, Body(""))
  {
    assert Body("") == "'" && "'"[1..] == "";
  }

  /** From inside, a clean text ends its literal; any other leaves it open. */
  lemma {:induction false} BodyFromInside(q: Scan, t: string)
    requires q.inSingle
    ensures CleanFrom(q.prev, t) ==> Quiet(q, Body(t)) && After(q, Body(t)) == Scan(false, '\'')
    ensures !CleanFrom(q.prev, t) ==> After(q, Body(t)) == Scan(true, '\'')
    decreases t
  {
    hide Body, After, Quiet;
    if t == [] {
      BodyEnd(q);
    } else {
      BodyCons(q, t);
      if t[0] == '\'' && q.prev == '\\' {
        BodyFromOutside(Next(Next(q, '\''), '\''), t[1..]);
      } else {
        BodyFromInside(if t[0] == '\'' then Next(Next(q, '\''), '\'') else Next(q, t[0]), t[1..]);
      }
    }
  }

  /** From outside, the closing quote of a literal opens one. */
  lemma {:induction false} BodyFromOutside(q: Scan, t: string)
    requires !q.inSingle
    ensures After(q, Body(t)) == Scan(true, '\'')
    decreases t
  {
    hide Body, After, Quiet;
    if t == [] {
      BodyEnd(q);
    } else {
      BodyCons(q, t);
      BodyFromOutside(if t[0] == '\'' then Next(Next(q, '\''), '\'') else Next(q, t[0]), t[1..]);
    }
  }

  lemma LiteralScan(q: Scan, t: string)
    ensures After(q, Literal(t)) == After(Next(q, '\''), Body(t))
    ensures Quiet(q, Literal(t)) <==> Quiet(Next(q, '\''), Body(t))
  {
    assert Literal(t) == "'" + Body(t) && ("'" + Body(t))[1..] == Body(t);
  }

  /** White space and a literal: closed again exactly for a clean text met outside. */
  lemma SpacedLiteral(q: Scan, ws: string, t: string)
    requires Blank(ws) && q.prev != '\\'
    ensures After(q, ws + Literal(t)).inSingle <==> q.inSingle || !Clean(t)
    ensures After(q, ws + Literal(t)).prev == '\''
    ensures !q.inSingle && Clean(t) ==> Quiet(q, ws + Literal(t))
  {
    hide Body, After, Quiet, Literal;
    forall i | 0 <= i < |ws| ensures Plain(ws[i]) { assert IsWhitespace(ws[i]); }
    PlainKeeps(q, ws);
    AfterConcat(q, ws, Literal(t));
    var p := After(q, ws);
    LiteralScan(p, t);
    if p.inSingle {
      BodyFromOutside(Next(p, '\''), t);
    } else {
      BodyFromInside(Next(p, '\''), t);
    }
  }

  // ---- scanning the list

  function Piece(t: string, ws: string): string { ws + Literal(t) }

  lemma TailCons(texts: seq<string>, ws: string)
    requires texts != []
    ensures Tail(texts, ws) == [','] + (Piece(texts[0], ws) + Tail(texts[1..], ws))
  {
  }

  lemma {:induction false} TailState(q: Scan, texts: seq<string>, ws: string)
    requires Blank(ws)
    ensures After(q, Tail(texts, ws)).inSingle <==> q.inSingle || !AllClean(texts)
    decreases texts
  {
    if texts != [] {
      var rest := Tail(texts[1..], ws);
      var p := Next(q, ',');
      TailCons(texts, ws);
      assert After(q, Tail(texts, ws)) == After(p, Piece(texts[0], ws) + rest) by {
        assert ([','] + (Piece(texts[0], ws) + rest))[1..] == Piece(texts[0], ws) + rest;
      }
      hide After, Tail;
      AfterConcat(p, Piece(texts[0], ws), rest);
      SpacedLiteral(p, ws, texts[0]);
      TailState(After(p, Piece(texts[0], ws)), texts[1..], ws);
      CleanCons(texts);
    }
  }

  lemma CleanCons(texts: seq<string>)
    requires texts != []
    ensures AllClean(texts) <==> Clean(texts[0]) && AllClean(texts[1..])
  {
    hide Clean;
    assert forall i :: 0 <= i < |texts[1..]| ==> texts[1..][i] == texts[i + 1];
    if Clean(texts[0]) && AllClean(texts[1..]) {
      forall i | 0 <= i < |texts| ensures Clean(texts[i]) {
        if i > 0 { assert texts[i] == texts[1..][i - 1]; }
      }
    }
  }

  lemma FindComma(q: Scan, rest: string)
    requires !q.inSingle
    ensures Find([','] + rest, q, 1) == Shift(1, Find(rest, Next(q, ','), 1))
  {
    assert ([','] + rest)[1..] == rest;
  }

  lemma PieceScan(q: Scan, ws: string, t: string)
    requires Blank(ws) && !q.inSingle && q.prev != '\\' && Clean(t)
    ensures Quiet(q, Piece(t, ws)) && !After(q, Piece(t, ws)).inSingle
  {
    SpacedLiteral(q, ws, t);
  }

  lemma {:induction false} FindTail(q: Scan, texts: seq<string>, ws: string, rest: string)
    requires !q.inSingle && Blank(ws) && AllClean(texts)
    ensures Find(Tail(texts, ws) + ")" + rest, q, 1) == Some(|Tail(texts, ws)|)
    decreases texts
  {
    if texts == [] {
      assert Tail(texts, ws) + ")" + rest == ")" + rest;
    } else {
      hide Find, After, Quiet, Tail, Clean, Blank, Piece;
      var p := Next(q, ',');
      var more := Tail(texts[1..], ws) + ")" + rest;
      TailCons(texts, ws);
      assert Tail(texts, ws) + ")" + rest == [','] + (Piece(texts[0], ws) + more);
      FindComma(q, Piece(texts[0], ws) + more);
      CleanCons(texts);
      PieceScan(p, ws, texts[0]);
      FindQuiet(p, Piece(texts[0], ws), more, 1);
      FindTail(After(p, Piece(texts[0], ws)), texts[1..], ws, rest);
    }
  }

  function Literals(texts: seq<string>): seq<string> {
    if texts == [] then [] else [Literal(texts[0])] + Literals(texts[1..])
  }

  lemma {:induction false} TrimBlank(ws: string, s: string)
    requires Blank(ws) && s != [] && !IsWhitespace(s[0]) && !IsWhitespace(s[|s| - 1])
    ensures Trim(ws + s) == s
    decreases ws
  {
    hide IsWhitespace;
    if ws == [] {
      assert ws + s == s;
    } else {
      assert IsWhitespace(ws[0]);
      assert (ws + s)[1..] == ws[1..] + s;
      assert forall i :: 0 <= i < |ws[1..]| ==> ws[1..][i] == ws[i + 1];
      TrimBlank(ws[1..], s);
    }
  }

  lemma LiteralEnds(t: string)
    ensures |Literal(t)| >= 2 && Literal(t)[0] == '\'' && Literal(t)[|Literal(t)| - 1] == '\''
    ensures Literal(t)[1..|Literal(t)| - 1] == Doubled(t)
  {
  }

  lemma {:induction false} FieldsTail(q: Scan, texts: seq<string>, ws: string, current: string)
    requires !q.inSingle && Blank(ws) && AllClean(texts) && Trim(current) != []
    ensures Fields(Tail(texts, ws), q, current) == [Trim(current)] + Literals(texts)
    decreases texts
  {
    hide Trim;
    if texts != [] {
      var p := Next(q, ',');
      var piece, rest := Piece(texts[0], ws), Tail(texts[1..], ws);
      TailCons(texts, ws);
      assert ([','] + (piece + rest))[1..] == piece + rest;
      assert Fields(Tail(texts, ws), q, current) == [Trim(current)] + Fields(piece + rest, p, "");
      hide Fields, After, Quiet, Tail, Literal;
      CleanCons(texts);
      SpacedLiteral(p, ws, texts[0]);
      FieldsQuiet(p, piece, rest, "");
      assert "" + piece == piece;
      LiteralEnds(texts[0]);
      TrimBlank(ws, Literal(texts[0]));
      FieldsTail(After(p, piece), texts[1..], ws, piece);
    }
  }

  lemma IntTextIsPlain(id: int)
    ensures IntText(id) != [] && AllPlain(IntText(id))
    ensures !IsWhitespace(IntText(id)[0]) && !IsWhitespace(IntText(id)[|IntText(id)| - 1])
    ensures Trim(IntText(id)) == IntText(id)
  {
    var s := IntText(id);
    forall i | 0 <= i < |s| ensures s[i] == '-' || IsDigit(s[i]) {
      if id < 0 {
        assert i > 0 ==> s[i] == Dec(-id)[i - 1];
      } else {
        assert s[i] in Dec(id);
      }
    }
    TrimBlank("", s);
    assert "" + s == s;
  }

  lemma {:induction false} UndoubledDoubled(t: string)
    ensures Undoubled(Doubled(t)) == t
  {
    if t != [] {
      UndoubledDoubled(t[1..]);
      if t[0] == '\'' {
        assert Doubled(t)[2..] == Doubled(t[1..]);
      } else {
        assert Doubled(t)[1..] == Doubled(t[1..]);
      }
    }
  }

  /** A written text reads back, whatever it holds. */
  lemma StripUndoesEscape(t: string)
    ensures StripStringLiteral(Literal(t)) == t
  {
    hide Literal;
    LiteralEnds(t);
    TrimBlank("", Literal(t));
    assert "" + Literal(t) == Literal(t);
    UndoubledDoubled(t);
  }

  /** The finder stops at the parenthesis that closes the list exactly when every text is
      clean. */
  lemma FinderStopsIff(id: int, texts: seq<string>, ws: string, rest: string)
    requires Blank(ws)
    ensures Find(Rendered(id, texts, ws) + ")" + rest, START, 1) == Some(|Rendered(id, texts, ws)|) <==> AllClean(texts)
  {
    hide Find, After, Quiet, Tail, IntText;
    var r := Rendered(id, texts, ws);
    var s := r + ")" + rest;
    assert s[..|r|] == r;
    IntTextIsPlain(id);
    PlainKeeps(START, IntText(id));
    var q := After(START, IntText(id));
    TailState(q, texts, ws);
    AfterConcat(START, IntText(id), Tail(texts, ws));
    if AllClean(texts) {
      assert s == IntText(id) + (Tail(texts, ws) + ")" + rest);
      FindQuiet(START, IntText(id), Tail(texts, ws) + ")" + rest, 1);
      FindTail(q, texts, ws, rest);
    } else if Find(s, START, 1) == Some(|r|) {
      FindStopsOutside(s, START, 1, |r|);
    }
  }

  /** For clean texts the splitter gives the row id and one literal for each text. */
  lemma SplitterSplits(id: int, texts: seq<string>, ws: string)
    requires Blank(ws) && AllClean(texts)
    ensures Fields(Rendered(id, texts, ws), START, "") == [IntText(id)] + Literals(texts)
    ensures |Literals(texts)| == |texts|
    ensures forall i :: 0 <= i < |texts| ==> StripStringLiteral(Literals(texts)[i]) == texts[i]
  {
    hide Fields, After, Quiet, Tail, IntText, StripStringLiteral, Clean;
    IntTextIsPlain(id);
    PlainKeeps(START, IntText(id));
    FieldsQuiet(START, IntText(id), Tail(texts, ws), "");
    assert "" + IntText(id) == IntText(id);
    FieldsTail(After(START, IntText(id)), texts, ws, IntText(id));
    LiteralsStrip(texts);
  }

  lemma {:induction false} LiteralsStrip(texts: seq<string>)
    ensures |Literals(texts)| == |texts|
    ensures forall i :: 0 <= i < |texts| ==> StripStringLiteral(Literals(texts)[i]) == texts[i]
    decreases texts
  {
    hide StripStringLiteral, Literal;
    if texts != [] {
      LiteralsStrip(texts[1..]);
      StripUndoesEscape(texts[0]);
    }
  }

  /** Texts without a backslash are clean. */
  lemma {:induction false} NoBackslashIsClean(t: string)
    requires '\\' !in t
    ensures Clean(t)
  {
    NoBackslashFrom('\'', t);
  }

  lemma {:induction false} NoBackslashFrom(prev: char, t: string)
    requires prev != '\\' && '\\' !in t
    ensures CleanFrom(prev, t)
    decreases t
  {
    if t != [] { NoBackslashFrom(t[0], t[1..]); }
  }

  lemma TrailingBackslashExample()
    ensures !Clean("C:\\")
    ensures Find(Rendered(1, ["C:\\"], "") + ")", START, 1) != Some(|Rendered(1, ["C:\\"], "")|)
  {
    var t := "C:\\";
    assert t[1..] == ":\\" && t[1..][1..] == "\\" && t[1..][1..][1..] == "";
    assert !CleanFrom('\\', "") && !CleanFrom(':', "\\") && !CleanFrom('C', ":\\");
    assert !Clean([t][0]);
    FinderStopsIff(1, [t], "", "");
    assert Rendered(1, [t], "") + ")" + "" == Rendered(1, [t], "") + ")";
  }

  // ---- an insert into a full-text table


  /** Rust's `i64::from_str`: an optional sign, at least one digit, and in range. */
  function ParseI64(s: string): Option<int> {
    var digits := if s != [] && (s[0] == '-' || s[0] == '+') then s[1..] else s;
    if digits == [] || !AllDigits(digits) then None
    else
      var n := if s[0] == '-' then 0 - (Parse(digits) as int) else Parse(digits) as int;
      if I64_MIN <= n <= I64_MAX then Some(n) else None
  }

  datatype Outcome = NotHandled | BadRowId | Read(id: int, texts: seq<string>)

  function Stripped(fields: seq<string>): seq<string> {
    seq(|fields|, i requires 0 <= i < |fields| => StripStringLiteral(Trim(fields[i])))
  }

  /** The row in the text after the opening parenthesis. */
  function ReadRow(afterOpen: string): Outcome {
    match Find(afterOpen, START, 1)
    case None => NotHandled
    case Some(close) =>
      var fields := Fields(afterOpen[..close], START, "");
      if fields == [] then NotHandled
      else match ParseI64(Trim(fields[0]))
           case None => BadRowId
           case Some(id) => Read(id, Stripped(fields[1..]))
  }

  method HandleFtsInsert(fts: FtsIndex, table: string, afterOpen: string) returns (outcome: Outcome)
    modifies fts
    ensures outcome == ReadRow(afterOpen)
    ensures fts.tables == old(fts.tables)
    ensures fts.indexes == if outcome.Read? then Step(old(fts.indexes), Index(table, outcome.id, outcome.texts)) else old(fts.indexes)
  {
    hide Find, Fields, Trim, ParseI64, Step;
    var close := FindClosingParen(afterOpen);
    if close.None? { return NotHandled; }
    var fields := SplitValues(afterOpen[..close.value]);
    if fields == [] { return NotHandled; }
    var id := ParseI64(Trim(fields[0]));
    if id.None? { return BadRowId; }
    var texts := Stripped(fields[1..]);
    fts.IndexRow(table, id.value, texts);
    outcome := Read(id.value, texts);
  }

  lemma ParseOfIntText(id: int)
    requires I64_MIN <= id <= I64_MAX
    ensures ParseI64(IntText(id)) == Some(id)
  {
    hide Dec, Parse;
    var digits := Dec(if id < 0 then -id else id);
    ParseDec(if id < 0 then -id else id);
    if id < 0 {
      assert IntText(id)[1..] == digits;
    } else {
      assert digits[0] in digits;
    }
  }

  lemma LiteralsTrim(texts: seq<string>)
    ensures Stripped(Literals(texts)) == texts
  {
    hide StripStringLiteral, Trim, Literal;
    LiteralsStrip(texts);
    forall i | 0 <= i < |texts| ensures Stripped(Literals(texts))[i] == texts[i] {
      LiteralAt(texts, i);
      LiteralEnds(texts[i]);
      TrimBlank("", Literal(texts[i]));
      assert "" + Literal(texts[i]) == Literal(texts[i]);
    }
  }

  lemma {:induction false} LiteralAt(texts: seq<string>, i: nat)
    requires i < |texts|
    ensures |Literals(texts)| == |texts| && Literals(texts)[i] == Literal(texts[i])
    decreases texts
  {
    hide Literal;
    if |texts| > 1 { LiteralAt(texts[1..], if i > 0 then i - 1 else 0); }
  }

  /** A rendered row is read back whole when its texts are clean. */
  lemma RenderedRowReads(id: int, texts: seq<string>, ws: string, rest: string)
    requires Blank(ws) && AllClean(texts) && I64_MIN <= id <= I64_MAX
    ensures ReadRow(Rendered(id, texts, ws) + ")" + rest) == Read(id, texts)
  {
    hide Find, Fields, Trim, ParseI64, IntText, Tail, Clean;
    var r := Rendered(id, texts, ws);
    var s := r + ")" + rest;
    FinderStopsIff(id, texts, ws, rest);
    assert s[..|r|] == r;
    SplitterSplits(id, texts, ws);
    assert ([IntText(id)] + Literals(texts))[1..] == Literals(texts);
    IntTextIsPlain(id);
    ParseOfIntText(id);
    LiteralsTrim(texts);
  }
}

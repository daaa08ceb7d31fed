/** Rewriting `:name`, `$name` and `@name` placeholders to `$1`, `$2`, ...

    A string here is the byte sequence the scanner reads, one character per byte. */
module NamedParams {
  import opened Decimal

  predicate IsIdentStart(c: char) {
    'a' <= c <= 'z' || 'A' <= c <= 'Z' || c == '_'
  }

  predicate IsIdentContinue(c: char) {
    IsIdentStart(c) || IsDigit(c)
  }

  /** Length of the run of identifier characters at the front of `s`. */
  function RunLen(s: string): (n: nat)
    ensures n <= |s| && (n < |s| ==> !IsIdentContinue(s[n]))
    ensures forall i :: 0 <= i < n ==> IsIdentContinue(s[i])
  {
    if s == [] || !IsIdentContinue(s[0]) then 0 else 1 + RunLen(s[1..])
  }

  function DigitsLen(s: string): (n: nat)
    ensures n <= |s| && (n < |s| ==> !IsDigit(s[n]))
    ensures forall i :: 0 <= i < n ==> IsDigit(s[i])
  {
    if s == [] || !IsDigit(s[0]) then 0 else 1 + DigitsLen(s[1..])
  }

  /** Length of the identifier at the front of `s`, zero if there is none. */
  function IdentLen(s: string): (n: nat)
    ensures n <= |s| && (n > 0 <==> s != [] && IsIdentStart(s[0]))
  {
    if s == [] || !IsIdentStart(s[0]) then 0 else 1 + RunLen(s[1..])
  }

  // ---- the lexical pieces of a statement

  /** What is left of a '...' literal up to and with its closing quote. */
  function QuoteLen(s: string): (n: nat)
    ensures n <= |s| && (s != [] ==> n > 0)
  {
    if s == [] then 0
    else if s[0] != '\'' then 1 + QuoteLen(s[1..])
    else if |s| > 1 && s[1] == '\'' then 2 + QuoteLen(s[2..])
    else 1
  }

  function UpTo(s: string, c: char): (n: nat)
    ensures n <= |s| && (s != [] ==> n > 0)
  {
    if s == [] then 0 else if s[0] == c then 1 else 1 + UpTo(s[1..], c)
  }

  function BlockLen(s: string): (n: nat)
    ensures n <= |s| && (s != [] ==> n > 0)
  {
    if s == [] then 0
    else if |s| > 1 && s[0] == '*' && s[1] == '/' then 2
    else 1 + BlockLen(s[1..])
  }

  predicate StartsPlaceholder(s: string) {
    |s| > 1 && IsIdentStart(s[1]) && s[0] in {':', '$', '@'}
  }

  /** Length of the first piece: a quoted region, a comment, a cast `::`, a
      placeholder, a numeric positional, or one plain character. */
  function PieceLen(s: string): (n: nat)
    requires s != []
    ensures 0 < n <= |s|
  {
    if StartsPlaceholder(s) then 1 + IdentLen(s[1..])
    else if s[0] == '\'' then 1 + QuoteLen(s[1..])
    else if s[0] == '"' then 1 + UpTo(s[1..], '"')
    else if |s| > 1 && s[0] == '-' && s[1] == '-' then 2 + UpTo(s[2..], '\n')
    else if |s| > 1 && s[0] == '/' && s[1] == '*' then 2 + BlockLen(s[2..])
    else if |s| > 1 && s[0] == ':' && s[1] == ':' then 2
    else if |s| > 1 && s[0] == '$' && IsDigit(s[1]) then 1 + DigitsLen(s[1..])
    else 1
  }

  datatype Piece = Verbatim(text: string) | Placeholder(sigil: char, name: string)

  function FirstPiece(s: string): Piece
    requires s != []
  {
    if StartsPlaceholder(s) then Placeholder(s[0], s[1..PieceLen(s)]) else Verbatim(s[..PieceLen(s)])
  }

  function Pieces(s: string): seq<Piece> {
    if s == [] then [] else [FirstPiece(s)] + Pieces(s[PieceLen(s)..])
  }

  // ---- numbering the names

  function IndexOf(names: seq<string>, name: string): (i: nat)
    ensures i <= |names| && (i < |names| ==> names[i] == name)
    ensures forall j :: 0 <= j < i ==> names[j] != name
  {
    if names == [] || names[0] == name then 0 else 1 + IndexOf(names[1..], name)
  }

  function AddName(names: seq<string>, name: string): seq<string> {
    if name in names then names else names + [name]
  }

  function Collect(ps: seq<Piece>, names: seq<string>): seq<string>
    decreases ps
  {
    if ps == [] then names
    else if ps[0].Verbatim? then Collect(ps[1..], names)
    else Collect(ps[1..], AddName(names, ps[0].name))
  }

  function PositionalAt(idx: nat): string { "$" + Dec(idx) }

  function Positional(names: seq<string>, name: string): string {
    PositionalAt(IndexOf(names, name) + 1)
  }

  /** The output, numbering names as they appear. */
  function Render(ps: seq<Piece>, names: seq<string>): string
    decreases ps
  {
    if ps == [] then []
    else if ps[0].Verbatim? then ps[0].text + Render(ps[1..], names)
    else
      var names' := AddName(names, ps[0].name);
      Positional(names', ps[0].name) + Render(ps[1..], names')
  }

  // ---- the scanner

  datatype ScanState = Normal | InSingleQuote | InDoubleQuote | InLineComment | InBlockComment

  /** How much of `s` still belongs to the region the scanner is in. */
  function RegionLen(state: ScanState, s: string): (n: nat)
    ensures n <= |s|
  {
    match state
    case Normal => 0
    case InSingleQuote => QuoteLen(s)
    case InDoubleQuote => UpTo(s, '"')
    case InLineComment => UpTo(s, '\n')
    case InBlockComment => BlockLen(s)
  }

  method AdvanceIdentifier(bytes: string, start: nat) returns (end: nat)
    requires start <= |bytes|
    ensures end == start + IdentLen(bytes[start..])
  {
    if start >= |bytes| || !IsIdentStart(bytes[start]) { return start; }
    end := start + 1;
    assert bytes[start..][1..] == bytes[end..];
    while end < |bytes| && IsIdentContinue(bytes[end])
      invariant start < end <= |bytes|
      invariant end + RunLen(bytes[end..]) == start + IdentLen(bytes[start..])
    {
      assert bytes[end..][1..] == bytes[end + 1..];
      end := end + 1;
    }
  }

  method AdvanceDigits(bytes: string, start: nat) returns (end: nat)
    requires start <= |bytes|
    ensures end == start + DigitsLen(bytes[start..])
  {
    end := start;
    while end < |bytes| && IsDigit(bytes[end])
      invariant start <= end <= |bytes|
      invariant end + DigitsLen(bytes[end..]) == start + DigitsLen(bytes[start..])
    {
      assert bytes[end..][1..] == bytes[end + 1..];
      end := end + 1;
    }
  }

  method AssignIndex(names: seq<string>, name: string) returns (names': seq<string>, idx: nat)
    ensures names' == AddName(names, name)
    ensures idx == IndexOf(names', name) + 1 && PositionalAt(idx) == Positional(names', name)
  {
    for i := 0 to |names|
      invariant name !in names[..i]
    {
      if names[i] == name { return names, i + 1; }
    }
    assert names[..|names|] == names && (names + [name])[|names|] == name;
    return names + [name], |names| + 1;
  }

  /** What a statement is rewritten to, and the names found, given the names so far. */
  function Output(s: string, names: seq<string>): string { Render(Pieces(s), names) }

  function Names(s: string, names: seq<string>): seq<string> { Collect(Pieces(s), names) }

  lemma VerbatimHead(s: string, names: seq<string>)
    requires s != [] && !StartsPlaceholder(s)
    ensures Output(s, names) == s[..PieceLen(s)] + Output(s[PieceLen(s)..], names)
    ensures Names(s, names) == Names(s[PieceLen(s)..], names)
  {
    assert Pieces(s)[1..] == Pieces(s[PieceLen(s)..]);
  }

  lemma PlaceholderHead(s: string, names: seq<string>)
    requires StartsPlaceholder(s)
    ensures var n := PieceLen(s);
            var names' := AddName(names, s[1..n]);
            && Output(s, names) == Positional(names', s[1..n]) + Output(s[n..], names')
            && Names(s, names) == Names(s[n..], names')
  {
    assert Pieces(s)[1..] == Pieces(s[PieceLen(s)..]);
  }

  /** The output still to come when `n` more characters belong to a region. */
  function Pending(n: nat, s: string, names: seq<string>): string
    requires n <= |s|
  {
    s[..n] + Output(s[n..], names)
  }

  lemma PendingStep(n: nat, s: string, k: nat, names: seq<string>)
    requires k <= n <= |s|
    ensures Pending(n, s, names) == s[..k] + Pending(n - k, s[k..], names)
    ensures s[n..] == s[k..][n - k..]
  {
    hide Output;
    assert s[..n] == s[..k] + s[k..][..n - k];
    assert s[n..] == s[k..][n - k..];
  }

  /** One step inside a quoted or commented region: how many characters are copied
      and the state after them. */
  method StepInRegion(sql: string, i: nat, state: ScanState) returns (k: nat, state': ScanState)
    requires i < |sql| && !state.Normal?
    ensures 0 < k <= |sql| - i
    ensures RegionLen(state, sql[i..]) == k + RegionLen(state', sql[i + k..])
  {
    var ch, more := sql[i], i + 1 < |sql|;
    assert sql[i..][1..] == sql[i + 1..];
    assert more ==> sql[i..][1] == sql[i + 1] && sql[i..][2..] == sql[i + 2..];
    match state {
      case InSingleQuote =>
        if ch == '\'' && more && sql[i + 1] == '\'' {
          k, state' := 2, InSingleQuote;
        } else {
          k, state' := 1, if ch == '\'' then Normal else InSingleQuote;
        }
      case InDoubleQuote =>
        k, state' := 1, if ch == '"' then Normal else InDoubleQuote;
      case InLineComment =>
        k, state' := 1, if ch == '\n' then Normal else InLineComment;
      case InBlockComment =>
        if ch == '*' && more && sql[i + 1] == '/' {
          k, state' := 2, Normal;
        } else {
          k, state' := 1, InBlockComment;
        }
    }
  }

  /** One step in the normal state over text that is copied as it is. */
  method StepVerbatim(sql: string, i: nat) returns (k: nat, state': ScanState)
    requires i < |sql| && !StartsPlaceholder(sql[i..])
    ensures 0 < k <= |sql| - i
    ensures PieceLen(sql[i..]) == k + RegionLen(state', sql[i + k..])
  {
    var ch, more := sql[i], i + 1 < |sql|;
    assert sql[i..][1..] == sql[i + 1..];
    assert more ==> sql[i..][1] == sql[i + 1] && sql[i..][2..] == sql[i + 2..];
    state' := Normal;
    if ch == '\'' {
      k, state' := 1, InSingleQuote;
    } else if ch == '"' {
      k, state' := 1, InDoubleQuote;
    } else if ch == '-' && more && sql[i + 1] == '-' {
      k, state' := 2, InLineComment;
    } else if ch == '/' && more && sql[i + 1] == '*' {
      k, state' := 2, InBlockComment;
    } else if ch == ':' && more && sql[i + 1] == ':' {
      k := 2;
    } else if ch == '$' && more && IsDigit(sql[i + 1]) {
      var end := AdvanceDigits(sql, i + 1);
      k := end - i;
    } else {
      k := 1;
    }
  }

  /** One step that copies: part of a region, or text the scanner passes through. */
  method CopyStep(sql: string, i: nat, state: ScanState, ghost names: seq<string>) returns (k: nat, state': ScanState)
    requires i < |sql| && (state.Normal? ==> !StartsPlaceholder(sql[i..]))
    ensures 0 < k <= |sql| - i
    ensures ToCome(state, sql[i..], names) == sql[i..i + k] + ToCome(state', sql[i + k..], names)
    ensures NamesToCome(state, sql[i..], names) == NamesToCome(state', sql[i + k..], names)
  {
    hide Output, Names, PieceLen, Pending, RegionLen, StartsPlaceholder;
    if state.Normal? {
      VerbatimToCome(sql, i, names);
      k, state' := StepVerbatim(sql, i);
      CopiedThen(sql, i, k, PieceLen(sql[i..]), state', names);
    } else {
      k, state' := StepInRegion(sql, i, state);
      CopiedThen(sql, i, k, RegionLen(state, sql[i..]), state', names);
    }
  }

  lemma VerbatimToCome(sql: string, i: nat, names: seq<string>)
    requires i < |sql| && !StartsPlaceholder(sql[i..])
    ensures ToCome(Normal, sql[i..], names) == Pending(PieceLen(sql[i..]), sql[i..], names)
    ensures NamesToCome(Normal, sql[i..], names) == Names(sql[i..][PieceLen(sql[i..])..], names)
  {
    hide Output, Names, PieceLen, Pending, StartsPlaceholder;
    var s := sql[i..];
    VerbatimAt(sql, i, names);
    assert s[0..] == s && s[PieceLen(s)..] == sql[i + PieceLen(s)..];
  }

  /** Of a region still to come, `k` characters are copied and the rest is to come. */
  lemma CopiedThen(sql: string, i: nat, k: nat, region: nat, state: ScanState, names: seq<string>)
    requires i + k <= |sql| && region == k + RegionLen(state, sql[i + k..]) && region <= |sql[i..]|
    ensures Pending(region, sql[i..], names) == sql[i..i + k] + ToCome(state, sql[i + k..], names)
    ensures Names(sql[i..][region..], names) == NamesToCome(state, sql[i + k..], names)
  {
    hide Output, Names, Pending, RegionLen;
    var s := sql[i..];
    PendingStep(region, s, k, names);
    assert s[k..] == sql[i + k..] && s[..k] == sql[i..i + k];
    assert s[region..] == sql[i + k..][region - k..];
  }

  /** The output and the names still to come when `s` is left to read. */
  function ToCome(state: ScanState, s: string, names: seq<string>): string {
    Pending(RegionLen(state, s), s, names)
  }

  function NamesToCome(state: ScanState, s: string, names: seq<string>): seq<string> {
    Names(s[RegionLen(state, s)..], names)
  }

  /** Outside regions, all the output of the rest is to come. */
  lemma AllToCome(s: string, names: seq<string>)
    ensures ToCome(Normal, s, names) == Output(s, names) && NamesToCome(Normal, s, names) == Names(s, names)
  {
    hide Output, Names;
    assert s[0..] == s && s[..0] + Output(s, names) == Output(s, names);
  }

  lemma NothingToCome(state: ScanState, names: seq<string>)
    ensures ToCome(state, [], names) == [] && NamesToCome(state, [], names) == names
  {
  }

  /** The scanner's output is the rendering of the pieces, and its names are theirs. */
  method RewriteNamedParams(sql: string) returns (out: string, names: seq<string>)
    ensures out == Output(sql, [])
    ensures names == Names(sql, [])
  {
    hide Output, Names, ToCome, NamesToCome, RunLen, Positional;
    out, names := [], [];
    var state, i := Normal, 0;
    assert sql[0..] == sql;
    AllToCome(sql, []);
    while i < |sql|
      invariant 0 <= i <= |sql|
      invariant out + ToCome(state, sql[i..], names) == Output(sql, [])
      invariant NamesToCome(state, sql[i..], names) == Names(sql, [])
    {
      var nameStart := i + 1;
      var end := nameStart;
      if state.Normal? && sql[i] in {':', '$', '@'} {
        end := AdvanceIdentifier(sql, nameStart);
        assert sql[i..][1..] == sql[nameStart..];
      }
      if end > nameStart {
        var idx;
        PlaceholderAt(sql, i, end, names);
        names, idx := AssignIndex(names, sql[nameStart..end]);
        out := out + PositionalAt(idx);
        i := end;
      } else {
        var k;
        k, state := CopyStep(sql, i, state, names);
        out := out + sql[i..i + k];
        i := i + k;
      }
    }
    NothingToCome(state, names);
    assert sql[i..] == [];
  }

  lemma PlaceholderAt(sql: string, i: nat, end: nat, names: seq<string>)
    requires i < |sql| && sql[i] in {':', '$', '@'} && end == i + 1 + IdentLen(sql[i + 1..]) && end > i + 1
    ensures var names' := AddName(names, sql[i + 1..end]);
            && end <= |sql|
            && ToCome(Normal, sql[i..], names) == Positional(names', sql[i + 1..end]) + ToCome(Normal, sql[end..], names')
            && NamesToCome(Normal, sql[i..], names) == NamesToCome(Normal, sql[end..], names')
  {
    hide Output, Names, ToCome, NamesToCome, Positional, AddName, PieceLen;
    var s := sql[i..];
    assert s[1..] == sql[i + 1..];
    PlaceholderLen(s);
    PlaceholderHead(s, names);
    assert s[1..PieceLen(s)] == sql[i + 1..end] && s[PieceLen(s)..] == sql[end..];
    AllToCome(s, names);
    AllToCome(sql[end..], AddName(names, sql[i + 1..end]));
  }

  lemma PlaceholderLen(s: string)
    requires s != [] && s[0] in {':', '$', '@'} && IdentLen(s[1..]) > 0
    ensures StartsPlaceholder(s) && PieceLen(s) == 1 + IdentLen(s[1..])
  {
  }

  lemma VerbatimAt(sql: string, i: nat, names: seq<string>)
    requires i < |sql| && !StartsPlaceholder(sql[i..])
    ensures Pending(0, sql[i..], names) == Pending(PieceLen(sql[i..]), sql[i..], names)
    ensures Names(sql[i..], names) == Names(sql[i + PieceLen(sql[i..])..], names)
  {
    var s := sql[i..];
    VerbatimHead(s, names);
    assert s[0..] == s && s[PieceLen(s)..] == sql[i + PieceLen(s)..];
  }
}

/** Where placeholders stand, said by a fold over the characters of a statement. */
module NamedParamsRegions {
  import opened Decimal
  import opened NamedParams
  import opened NamedParamsTheorems

  // ---- what each character does to the state

  /** Outside quotes and comments, with a dash, slash or colon just read that may open a pair;
      in a literal, or after a quote in it that may close it; in a quoted identifier; in a
      comment, or after a star in it. */
  datatype Mode = Plain | Dash | Slash | Colon | Str | StrQuote | Ident | LineComment | BlockComment | BlockStar

  function Open(c: char): Mode {
    match c
    case '\'' => Str
    case '"' => Ident
    case '-' => Dash
    case '/' => Slash
    case ':' => Colon
    case _ => Plain
  }

  function Next(m: Mode, c: char): Mode {
    match m
    case Plain => Open(c)
    case Dash => if c == '-' then LineComment else Open(c)
    case Slash => if c == '*' then BlockComment else Open(c)
    case Colon => if c == ':' then Plain else Open(c)
    case Str => if c == '\'' then StrQuote else Str
    case StrQuote => Open(c)
    case Ident => if c == '"' then Plain else Ident
    case LineComment => if c == '\n' then Plain else LineComment
    case BlockComment => if c == '*' then BlockStar else BlockComment
    case BlockStar => if c == '/' then Plain else if c == '*' then BlockStar else BlockComment
  }

  function After(m: Mode, s: string): Mode
    decreases s
  {
    if s == [] then m else After(Next(m, s[0]), s[1..])
  }

  predicate IsOutside(m: Mode) { m in {Plain, Dash, Slash, Colon, StrQuote} }

  /** A placeholder begins here: a sigil before an identifier, outside quotes and comments, and
      not the second colon of a cast. */
  predicate Begins(sql: string, i: nat) {
    && i + 1 < |sql| && sql[i] in {':', '$', '@'} && IsIdentStart(sql[i + 1])
    && var m := After(Plain, sql[..i]); IsOutside(m) && (m.Colon? ==> sql[i] != ':')
  }

  function NameEnd(sql: string, j: nat): (k: nat)
    requires j <= |sql|
    ensures j <= k <= |sql| && (k < |sql| ==> !IsIdentContinue(sql[k])) && forall i :: j <= i < k ==> IsIdentContinue(sql[i])
    decreases |sql| - j
  {
    if j < |sql| && IsIdentContinue(sql[j]) then NameEnd(sql, j + 1) else j
  }

  /** The statement from `i` on, character by character, with each name put in its number's place. */
  function Replaced(sql: string, i: nat, names: seq<string>): string
    requires i <= |sql|
    decreases |sql| - i
  {
    if i == |sql| then []
    else if Begins(sql, i) then
      var k := NameEnd(sql, i + 1);
      Positional(names, sql[i + 1..k]) + Replaced(sql, k, names)
    else [sql[i]] + Replaced(sql, i + 1, names)
  }

  /** The names from `i` on, each where it first appears. */
  function NamesFrom(sql: string, i: nat, names: seq<string>): seq<string>
    requires i <= |sql|
    decreases |sql| - i
  {
    if i == |sql| then names
    else if Begins(sql, i) then
      var k := NameEnd(sql, i + 1);
      NamesFrom(sql, k, if sql[i + 1..k] in names then names else names + [sql[i + 1..k]])
    else NamesFrom(sql, i + 1, names)
  }

  // ---- modes over the pieces

  lemma AfterStep(m: Mode, s: string)
    requires s != []
    ensures After(m, s) == After(Next(m, s[0]), s[1..])
  {
  }

  lemma AfterNothing(m: Mode)
    ensures After(m, []) == m
  {
  }

  lemma {:induction false} AfterConcat(m: Mode, a: string, b: string)
    ensures After(m, a + b) == After(After(m, a), b)
    decreases a
  {
    if a == [] {
      assert a + b == b;
    } else {
      AfterConcat(Next(m, a[0]), a[1..], b);
      assert (a + b)[1..] == a[1..] + b;
    }
  }

  /** The scanner may start a new piece here. */
  predicate Ready(m: Mode, s: string) {
    s != [] ==> IsOutside(m) && Next(m, s[0]) == Open(s[0])
  }

  /** Position `k` is where no placeholder can begin. */
  predicate Inside(m: Mode, s: string, k: nat)
    requires k < |s|
  {
    s[k] in {':', '$', '@'} ==> !IsOutside(After(m, s[..k])) || (After(m, s[..k]).Colon? && s[k] == ':')
  }

  /** The first `n` characters belong together: no placeholder begins in them. */
  ghost predicate Closed(m: Mode, s: string, n: nat) {
    n <= |s| && Ready(After(m, s[..n]), s[n..]) && forall k :: 0 <= k < n ==> Inside(m, s, k)
  }

  /** One character, then `n` that belong together. */
  lemma ClosedCons(m: Mode, s: string, n: nat)
    requires s != [] && Inside(m, s, 0) && Closed(Next(m, s[0]), s[1..], n)
    ensures Closed(m, s, n + 1)
  {
    hide IsOutside, Next, After;
    var t, m1 := s[1..], Next(m, s[0]);
    forall k: nat | 0 < k <= |s| ensures After(m, s[..k]) == After(m1, t[..k - 1]) {
      AfterStep(m, s[..k]);
      assert s[..k][1..] == t[..k - 1];
    }
    assert s[n + 1..] == t[n..];
    forall k | 0 < k < n + 1 ensures Inside(m, s, k) {
      assert s[k] == t[k - 1] && Inside(m1, t, k - 1);
    }
  }

  lemma ClosedNothing(m: Mode, s: string)
    requires Ready(m, s)
    ensures Closed(m, s, 0)
  {
    assert s[..0] == [] && s[0..] == s;
  }

  lemma FirstInside(m: Mode, s: string)
    requires s != [] && (s[0] !in {':', '$', '@'} || !IsOutside(m) || (m.Colon? && s[0] == ':'))
    ensures Inside(m, s, 0)
  {
    assert s[..0] == [];
  }

  lemma {:induction false} QuoteCloses(s: string)
    ensures Closed(Str, s, QuoteLen(s))
    decreases |s|
  {
    hide Closed, Inside;
    if s == [] {
      ClosedNothing(Str, s);
    } else {
      FirstInside(Str, s);
      if s[0] != '\'' {
        QuoteCloses(s[1..]);
        ClosedCons(Str, s, QuoteLen(s[1..]));
      } else if |s| > 1 && s[1] == '\'' {
        QuoteCloses(s[2..]);
        FirstInside(StrQuote, s[1..]);
        assert s[1..][1..] == s[2..];
        ClosedCons(StrQuote, s[1..], QuoteLen(s[2..]));
        ClosedCons(Str, s, QuoteLen(s[2..]) + 1);
      } else {
        ClosedNothing(StrQuote, s[1..]);
        ClosedCons(Str, s, 0);
      }
    }
  }

  lemma {:induction false} IdentCloses(s: string)
    ensures Closed(Ident, s, UpTo(s, '"'))
    decreases |s|
  {
    hide Closed, Inside;
    if s == [] {
      ClosedNothing(Ident, s);
    } else {
      FirstInside(Ident, s);
      if s[0] == '"' {
        ClosedNothing(Plain, s[1..]);
        ClosedCons(Ident, s, 0);
      } else {
        IdentCloses(s[1..]);
        ClosedCons(Ident, s, UpTo(s[1..], '"'));
      }
    }
  }

  lemma {:induction false} LineCloses(s: string)
    ensures Closed(LineComment, s, UpTo(s, '\n'))
    decreases |s|
  {
    hide Closed, Inside;
    if s == [] {
      ClosedNothing(LineComment, s);
    } else {
      FirstInside(LineComment, s);
      if s[0] == '\n' {
        ClosedNothing(Plain, s[1..]);
        ClosedCons(LineComment, s, 0);
      } else {
        LineCloses(s[1..]);
        ClosedCons(LineComment, s, UpTo(s[1..], '\n'));
      }
    }
  }

  lemma {:induction false} BlockCloses(s: string)
    ensures Closed(BlockComment, s, BlockLen(s))
    ensures (s != [] ==> s[0] != '/') ==> Closed(BlockStar, s, BlockLen(s))
    decreases |s|
  {
    hide Closed, Inside;
    if s == [] {
      ClosedNothing(BlockComment, s);
      ClosedNothing(BlockStar, s);
    } else {
      var n := BlockLen(s[1..]);
      BlockCloses(s[1..]);
      FirstInside(BlockComment, s);
      FirstInside(BlockStar, s);
      if s[0] == '*' && |s| > 1 && s[1] == '/' {
        FirstInside(BlockStar, s[1..]);
        ClosedNothing(Plain, s[1..][1..]);
        ClosedCons(BlockStar, s[1..], 0);
        ClosedCons(BlockComment, s, 1);
        ClosedCons(BlockStar, s, 1);
      } else if s[0] == '*' {
        ClosedCons(BlockComment, s, n);
        ClosedCons(BlockStar, s, n);
      } else {
        ClosedCons(BlockComment, s, n);
        if s[0] != '/' { ClosedCons(BlockStar, s, n); }
      }
    }
  }

  /** A run of characters that leave the mode plain. */
  lemma {:induction false} PlainCloses(s: string, n: nat)
    requires n <= |s| && forall k :: 0 <= k < n ==> Open(s[k]) == Plain && s[k] !in {':', '$', '@'}
    ensures Closed(Plain, s, n)
    decreases n
  {
    hide Closed, Inside;
    if n == 0 {
      ClosedNothing(Plain, s);
    } else {
      FirstInside(Plain, s);
      assert forall k :: 0 <= k < n - 1 ==> s[1..][k] == s[k + 1];
      PlainCloses(s[1..], n - 1);
      ClosedCons(Plain, s, n - 1);
    }
  }

  lemma PlaceholderTail(s: string)
    requires StartsPlaceholder(s)
    ensures Closed(Open(s[0]), s[1..], PieceLen(s) - 1)
  {
    hide Closed, Inside, RunLen;
    var m, t, n := Open(s[0]), s[1..], IdentLen(s[1..]);
    FirstInside(m, t);
    assert t[1..] == s[2..];
    assert forall k :: 0 <= k < n - 1 ==> IsIdentContinue(t[1..][k]);
    PlainCloses(t[1..], n - 1);
    ClosedCons(m, t, n - 1);
  }

  /** A comment or a cast: a pair of characters, then the rest of the region. */
  lemma PairTail(s: string)
    requires |s| > 1 && (s[0], s[1]) in {('-', '-'), ('/', '*'), (':', ':')}
    ensures !StartsPlaceholder(s) && Closed(Open(s[0]), s[1..], PieceLen(s) - 1)
  {
    hide Closed, Inside, UpTo, BlockLen;
    var m, t := Open(s[0]), s[1..];
    FirstInside(m, t);
    assert t[1..] == s[2..];
    LineCloses(s[2..]);
    BlockCloses(s[2..]);
    ClosedNothing(Plain, s[2..]);
    ClosedCons(m, t, PieceLen(s) - 2);
  }

  /** After its first character, no placeholder begins in a piece. */
  lemma PieceTail(s: string)
    requires s != []
    ensures Closed(Open(s[0]), s[1..], PieceLen(s) - 1)
  {
    hide Closed, Inside, UpTo, BlockLen, QuoteLen, IdentLen, DigitsLen;
    if StartsPlaceholder(s) {
      PlaceholderTail(s);
    } else if s[0] == '\'' {
      QuoteCloses(s[1..]);
    } else if s[0] == '"' {
      IdentCloses(s[1..]);
    } else if |s| > 1 && (s[0], s[1]) in {('-', '-'), ('/', '*'), (':', ':')} {
      PairTail(s);
    } else if |s| > 1 && s[0] == '$' && IsDigit(s[1]) {
      PlainCloses(s[1..], DigitsLen(s[1..]));
    } else {
      ClosedNothing(Open(s[0]), s[1..]);
    }
  }

  ghost predicate AtPiece(sql: string, i: nat) { i <= |sql| && Ready(After(Plain, sql[..i]), sql[i..]) }

  lemma ModeIn(sql: string, i: nat, k: nat)
    requires i < i + k <= |sql|
    ensures After(Plain, sql[..i + k]) == After(Next(After(Plain, sql[..i]), sql[i]), sql[i + 1..][..k - 1])
  {
    hide Next;
    var a, b := sql[..i], sql[i..i + k];
    assert sql[..i + k] == a + b;
    AfterConcat(Plain, a, b);
    AfterStep(After(Plain, a), b);
    assert b[1..] == sql[i + 1..][..k - 1];
  }

  /** At the start of a piece the fold sees a placeholder exactly if there is one, then none up to
      the next piece. */
  lemma WalkPiece(sql: string, i: nat)
    requires AtPiece(sql, i) && i < |sql|
    ensures var n := PieceLen(sql[i..]);
            && i + n <= |sql| && AtPiece(sql, i + n)
            && (Begins(sql, i) <==> StartsPlaceholder(sql[i..]))
            && forall j :: i < j < i + n ==> !Begins(sql, j)
  {
    hide PieceLen, After, Next, Open;
    var s := sql[i..];
    var n := PieceLen(s);
    var m, t := Next(After(Plain, sql[..i]), s[0]), sql[i + 1..];
    assert s[1..] == t;
    PieceTail(s);
    ModeIn(sql, i, n);
    assert t[n - 1..] == sql[i + n..];
    forall j | i < j < i + n ensures !Begins(sql, j) {
      ModeIn(sql, i, j - i);
      assert sql[j] == t[j - i - 1] && Inside(m, t, j - i - 1);
    }
    assert |s| > 1 ==> s[1] == sql[i + 1];
    NotAfterColon(After(Plain, sql[..i]), s[0]);
  }

  lemma NotAfterColon(m: Mode, c: char)
    requires Next(m, c) == Open(c)
    ensures m.Colon? ==> c != ':'
  {
  }

  lemma CopyOne(sql: string, i: nat, names: seq<string>)
    requires i < |sql| && !Begins(sql, i)
    ensures Replaced(sql, i, names) == [sql[i]] + Replaced(sql, i + 1, names)
    ensures NamesFrom(sql, i, names) == NamesFrom(sql, i + 1, names)
  {
    hide Begins, NameEnd, Positional;
  }

  /** Over characters at which no placeholder begins, the statement is copied. */
  lemma {:induction false} Skip(sql: string, i: nat, j: nat, names: seq<string>)
    requires i <= j <= |sql| && forall k :: i <= k < j ==> !Begins(sql, k)
    ensures Replaced(sql, i, names) == sql[i..j] + Replaced(sql, j, names)
    ensures NamesFrom(sql, i, names) == NamesFrom(sql, j, names)
    decreases j - i
  {
    hide Begins, Replaced, NamesFrom;
    if i < j {
      CopyOne(sql, i, names);
      Skip(sql, i + 1, j, names);
      assert sql[i..j] == [sql[i]] + sql[i + 1..j];
    } else {
      assert sql[i..j] == [];
    }
  }

  lemma NameEndIs(sql: string, i: nat)
    requires i < |sql| && StartsPlaceholder(sql[i..])
    ensures i + 1 < NameEnd(sql, i + 1) == i + PieceLen(sql[i..]) <= |sql|
  {
    var t, k := sql[i + 1..], NameEnd(sql, i + 1);
    assert sql[i..][1..] == t && t[1..] == sql[i + 2..];
    var n := RunLen(t[1..]);
    assert forall j :: i + 2 <= j < i + 2 + n ==> sql[j] == t[1..][j - i - 2];
    assert i + 2 + n < |sql| ==> sql[i + 2 + n] == t[1..][n];
    assert IsIdentContinue(sql[i + 1]);
    assert k > i + 1;
  }

  lemma NumberedHead(s: string, names: seq<string>)
    requires s != []
    ensures var n := PieceLen(s);
            Numbered(Pieces(s), names)
            == (if StartsPlaceholder(s) then Positional(names, s[1..n]) else s[..n]) + Numbered(Pieces(s[n..]), names)
  {
    hide PieceLen, Positional;
    assert Pieces(s)[1..] == Pieces(s[PieceLen(s)..]);
  }

  lemma {:induction false} WalkIsNumbered(sql: string, i: nat, names: seq<string>)
    requires i <= |sql| && AtPiece(sql, i)
    ensures Numbered(Pieces(sql[i..]), names) == Replaced(sql, i, names)
    decreases |sql| - i
  {
    hide PieceLen, StartsPlaceholder, Begins, AtPiece, Positional, Numbered, Pieces, Replaced;
    var s := sql[i..];
    if i == |sql| {
      NothingLeft(sql, names);
    } else {
      var n := PieceLen(s);
      WalkPiece(sql, i);
      WalkIsNumbered(sql, i + n, names);
      NumberedHead(s, names);
      assert s[n..] == sql[i + n..];
      if StartsPlaceholder(s) {
        NameEndIs(sql, i);
        ReplacedName(sql, i, names);
        assert s[1..n] == sql[i + 1..i + n];
      } else {
        Skip(sql, i, i + n, names);
        assert s[..n] == sql[i..i + n];
      }
    }
  }

  lemma NothingLeft(sql: string, names: seq<string>)
    ensures Numbered(Pieces(sql[|sql|..]), names) == Replaced(sql, |sql|, names) == []
    ensures Names(sql[|sql|..], names) == NamesFrom(sql, |sql|, names) == names
  {
  }

  lemma ReplacedName(sql: string, i: nat, names: seq<string>)
    requires i < |sql| && Begins(sql, i)
    ensures var k := NameEnd(sql, i + 1);
            && Replaced(sql, i, names) == Positional(names, sql[i + 1..k]) + Replaced(sql, k, names)
            && NamesFrom(sql, i, names) == NamesFrom(sql, k, AddName(names, sql[i + 1..k]))
  {
    hide Begins, NameEnd, Positional;
  }

  lemma {:induction false} WalkCollects(sql: string, i: nat, names: seq<string>)
    requires i <= |sql| && AtPiece(sql, i)
    ensures Names(sql[i..], names) == NamesFrom(sql, i, names)
    decreases |sql| - i
  {
    hide PieceLen, StartsPlaceholder, Begins, AtPiece, Names, NamesFrom, AddName, Replaced, Output, Positional;
    var s := sql[i..];
    if i == |sql| {
      NothingLeft(sql, names);
    } else {
      var n := PieceLen(s);
      WalkPiece(sql, i);
      assert s[n..] == sql[i + n..];
      if StartsPlaceholder(s) {
        NameEndIs(sql, i);
        ReplacedName(sql, i, names);
        PlaceholderHead(s, names);
        assert s[1..n] == sql[i + 1..i + n];
        WalkCollects(sql, i + n, AddName(names, s[1..n]));
      } else {
        Skip(sql, i, i + n, names);
        VerbatimHead(s, names);
        WalkCollects(sql, i + n, names);
      }
    }
  }

  /** The rewriter replaces exactly the names that stand outside quotes, comments and casts, by
      the number of the name in order of first appearance, and copies every other character. */
  lemma RewriteIsReplacement(sql: string)
    ensures Names(sql, []) == NamesFrom(sql, 0, [])
    ensures Output(sql, []) == Replaced(sql, 0, NamesFrom(sql, 0, []))
  {
    assert sql[..0] == [] && sql[0..] == sql;
    AfterNothing(Plain);
    assert AtPiece(sql, 0);
    WalkCollects(sql, 0, []);
    WalkIsNumbered(sql, 0, Names(sql, []));
    OutputReplacesPlaceholders(sql);
  }

  // ---- the characters of names, one by one

  lemma NameTable(c: char)
    ensures IsIdentStart(c) <==> c in {'_', 'A', 'B', 'C', 'D', 'E', 'F', 'G', 'H', 'I', 'J', 'K', 'L', 'M', 'N', 'O', 'P', 'Q', 'R', 'S', 'T', 'U', 'V', 'W', 'X', 'Y', 'Z',
                                       'a', 'b', 'c', 'd', 'e', 'f', 'g', 'h', 'i', 'j', 'k', 'l', 'm', 'n', 'o', 'p', 'q', 'r', 's', 't', 'u', 'v', 'w', 'x', 'y', 'z'}
    ensures IsIdentContinue(c) <==> IsIdentStart(c) || c in {'0', '1', '2', '3', '4', '5', '6', '7', '8', '9'}
  {
  }
}

/** The rewriter reads the bytes of a statement, one character for each. */
module NamedParamsBytes {
  import opened Decimal
  import opened NamedParams

  // ---- a statement as the rewriter sees it

  function Byte(n: int): char
    requires 0 <= n < 256
  {
    n as char
  }

  /** The UTF-8 bytes of a character, each as a character. */
  function Utf8Char(c: char): string {
    var n := c as int;
    if n < 0x80 then [c]
    else if n < 0x800 then [Byte(0xC0 + n / 0x40), Byte(0x80 + n % 0x40)]
    else if n < 0x1_0000 then [Byte(0xE0 + n / 0x1000), Byte(0x80 + n / 0x40 % 0x40), Byte(0x80 + n % 0x40)]
    else [Byte(0xF0 + n / 0x4_0000), Byte(0x80 + n / 0x1000 % 0x40), Byte(0x80 + n / 0x40 % 0x40), Byte(0x80 + n % 0x40)]
  }

  function Bytes(s: string): string {
    if s == [] then [] else Utf8Char(s[0]) + Bytes(s[1..])
  }

  predicate High(c: char) { c as int >= 0x80 }

  predicate AllHigh(s: string) { forall i :: 0 <= i < |s| ==> High(s[i]) }

  predicate Ascii(s: string) { forall i :: 0 <= i < |s| ==> !High(s[i]) }

  lemma Utf8CharIs(c: char)
    ensures !High(c) ==> Utf8Char(c) == [c]
    ensures High(c) ==> |Utf8Char(c)| >= 2 && AllHigh(Utf8Char(c))
  {
  }

  lemma {:induction false} BytesConcat(a: string, b: string)
    ensures Bytes(a + b) == Bytes(a) + Bytes(b)
    decreases a
  {
    hide Utf8Char;
    if a == [] {
      assert a + b == b;
    } else {
      assert (a + b)[1..] == a[1..] + b;
      BytesConcat(a[1..], b);
    }
  }

  lemma BytesCons(s: string)
    requires s != []
    ensures Bytes(s) == Utf8Char(s[0]) + Bytes(s[1..])
    ensures !High(s[0]) ==> Bytes(s) == [s[0]] + Bytes(s[1..])
    ensures High(s[0]) ==> |Utf8Char(s[0])| >= 2 && AllHigh(Utf8Char(s[0])) && High(Bytes(s)[0])
  {
    Utf8CharIs(s[0]);
  }

  lemma BytesFirst(s: string)
    ensures s == [] <==> Bytes(s) == []
    ensures s != [] ==> if High(s[0]) then High(Bytes(s)[0]) else Bytes(s)[0] == s[0]
  {
    if s != [] { BytesCons(s); }
  }

  lemma {:induction false} AsciiBytes(s: string)
    ensures |Bytes(s)| >= |s|
    ensures Ascii(s) <==> Bytes(s) == s
    ensures Ascii(s) <==> |Bytes(s)| == |s|
  {
    hide Utf8Char;
    if s != [] {
      AsciiBytes(s[1..]);
      BytesCons(s);
      assert s == [s[0]] + s[1..];
      assert Ascii(s) <==> !High(s[0]) && Ascii(s[1..]);
    }
  }

  /** Cutting a statement after `n` characters cuts its bytes after this many. */
  function Cut(s: string, n: nat): nat
    requires n <= |s|
  {
    |Bytes(s[..n])|
  }

  lemma CutBytes(s: string, n: nat)
    requires n <= |s|
    ensures Cut(s, n) <= |Bytes(s)|
    ensures Bytes(s)[..Cut(s, n)] == Bytes(s[..n]) && Bytes(s)[Cut(s, n)..] == Bytes(s[n..])
  {
    hide Bytes;
    assert s == s[..n] + s[n..];
    BytesConcat(s[..n], s[n..]);
  }

  lemma CutCons(s: string, n: nat)
    requires 0 < n <= |s|
    ensures Cut(s, n) == |Utf8Char(s[0])| + Cut(s[1..], n - 1)
  {
    assert s[..n][0] == s[0] && s[..n][1..] == s[1..][..n - 1];
  }

  lemma CutNothing(s: string)
    ensures Cut(s, 0) == 0
  {
    assert s[..0] == [];
  }

  /** The first two characters, when they are ASCII, are the first two bytes. */
  lemma TwoBytes(s: string)
    requires s != [] && !High(s[0])
    ensures var b := Bytes(s);
            && b != [] && b[0] == s[0] && b[1..] == Bytes(s[1..]) && (|b| > 1 <==> |s| > 1)
            && (|s| > 1 ==> if High(s[1]) then High(b[1]) else b[1] == s[1] && b[2..] == Bytes(s[2..]))
  {
    BytesCons(s);
    BytesFirst(s[1..]);
    var b := Bytes(s);
    assert b[1..] == Bytes(s[1..]);
    if |s| > 1 {
      BytesCons(s[1..]);
      assert b[1] == Bytes(s[1..])[0];
      if !High(s[1]) { assert b[2..] == Bytes(s[1..])[1..] == Bytes(s[2..]); }
    }
  }

  lemma CutOne(s: string, n: nat)
    requires 0 < n <= |s| && !High(s[0])
    ensures Cut(s, n) == 1 + Cut(s[1..], n - 1)
  {
    CutCons(s, n);
    Utf8CharIs(s[0]);
  }

  // ---- regions, in characters and in bytes

  lemma {:induction false} HighQuote(h: string, t: string)
    requires AllHigh(h)
    ensures QuoteLen(h + t) == |h| + QuoteLen(t)
    decreases h
  {
    if h == [] { assert h + t == t; } else { assert (h + t)[1..] == h[1..] + t; HighQuote(h[1..], t); }
  }

  lemma {:induction false} HighUpTo(h: string, t: string, c: char)
    requires AllHigh(h) && !High(c)
    ensures UpTo(h + t, c) == |h| + UpTo(t, c)
    decreases h
  {
    if h == [] { assert h + t == t; } else { assert (h + t)[1..] == h[1..] + t; HighUpTo(h[1..], t, c); }
  }

  lemma {:induction false} HighBlock(h: string, t: string)
    requires AllHigh(h)
    ensures BlockLen(h + t) == |h| + BlockLen(t)
    decreases h
  {
    if h == [] { assert h + t == t; } else { assert (h + t)[1..] == h[1..] + t; HighBlock(h[1..], t); }
  }

  lemma {:induction false} QuoteBytes(s: string)
    ensures QuoteLen(Bytes(s)) == Cut(s, QuoteLen(s))
    decreases |s|
  {
    if s == [] {
      CutNothing(s);
    } else {
      var b := Bytes(s);
      BytesCons(s);
      CutCons(s, QuoteLen(s));
      hide Utf8Char, Bytes, Cut;
      if s[0] != '\'' {
        QuoteBytes(s[1..]);
        if High(s[0]) {
          HighQuote(Utf8Char(s[0]), Bytes(s[1..]));
        } else {
          assert b[1..] == Bytes(s[1..]);
        }
      } else {
        if |s| > 1 && s[1] == '\'' { QuoteBytes(s[2..]); }
        QuoteAtBytes(s);
      }
    }
  }

  lemma QuoteAtBytes(s: string)
    requires s != [] && s[0] == '\''
    requires |s| > 1 && s[1] == '\'' ==> QuoteLen(Bytes(s[2..])) == Cut(s[2..], QuoteLen(s[2..]))
    ensures QuoteLen(Bytes(s)) == Cut(s, QuoteLen(s))
  {
    hide Bytes, Cut, Utf8Char, QuoteLen;
    QuoteUnfold(s);
    TwoBytes(s);
    QuoteUnfold(Bytes(s));
    CutOne(s, QuoteLen(s));
    if |s| > 1 && s[1] == '\'' {
      assert s[1..][1..] == s[2..];
      CutOne(s[1..], QuoteLen(s) - 1);
    } else {
      CutNothing(s[1..]);
    }
  }

  lemma QuoteUnfold(s: string)
    requires s != [] && s[0] == '\''
    ensures QuoteLen(s) == if |s| > 1 && s[1] == '\'' then 2 + QuoteLen(s[2..]) else 1
  {
  }

  lemma {:induction false} UpToBytes(s: string, c: char)
    requires !High(c)
    ensures UpTo(Bytes(s), c) == Cut(s, UpTo(s, c))
    decreases s
  {
    if s == [] {
      CutNothing(s);
    } else {
      BytesCons(s);
      CutCons(s, UpTo(s, c));
      CutNothing(s[1..]);
      hide Utf8Char, Bytes, Cut;
      UpToBytes(s[1..], c);
      if High(s[0]) {
        HighUpTo(Utf8Char(s[0]), Bytes(s[1..]), c);
      } else {
        Utf8CharIs(s[0]);
        assert Bytes(s)[1..] == Bytes(s[1..]);
      }
    }
  }

  lemma {:induction false} BlockBytes(s: string)
    ensures BlockLen(Bytes(s)) == Cut(s, BlockLen(s))
    decreases s
  {
    if s == [] {
      CutNothing(s);
    } else {
      BytesCons(s);
      BytesFirst(s[1..]);
      CutCons(s, BlockLen(s));
      hide Utf8Char, Bytes, Cut;
      BlockBytes(s[1..]);
      if High(s[0]) {
        HighBlock(Utf8Char(s[0]), Bytes(s[1..]));
      } else {
        Utf8CharIs(s[0]);
        var b := Bytes(s);
        assert b[1..] == Bytes(s[1..]) && (|b| > 1 ==> b[1] == Bytes(s[1..])[0]);
        if |s| > 1 && s[0] == '*' && s[1] == '/' { BlockEndBytes(s); }
      }
    }
  }

  lemma BlockEndBytes(s: string)
    requires |s| > 1 && !High(s[0]) && !High(s[1])
    ensures Cut(s, 2) == 2
  {
    CutCons(s, 2);
    CutCons(s[1..], 1);
    CutNothing(s[1..][1..]);
    Utf8CharIs(s[0]);
    Utf8CharIs(s[1]);
  }

  lemma {:induction false} RunBytes(s: string)
    ensures RunLen(Bytes(s)) == RunLen(s) == Cut(s, RunLen(s))
    decreases s
  {
    hide Utf8Char, Bytes, Cut;
    CutNothing(s);
    BytesFirst(s);
    if s != [] && IsIdentContinue(s[0]) {
      BytesCons(s);
      CutCons(s, RunLen(s));
      RunBytes(s[1..]);
      Utf8CharIs(s[0]);
      assert Bytes(s)[1..] == Bytes(s[1..]);
    }
  }

  lemma {:induction false} DigitsBytes(s: string)
    ensures DigitsLen(Bytes(s)) == DigitsLen(s) == Cut(s, DigitsLen(s))
    decreases s
  {
    hide Utf8Char, Bytes, Cut;
    CutNothing(s);
    BytesFirst(s);
    if s != [] && IsDigit(s[0]) {
      BytesCons(s);
      CutCons(s, DigitsLen(s));
      DigitsBytes(s[1..]);
      Utf8CharIs(s[0]);
      assert Bytes(s)[1..] == Bytes(s[1..]);
    }
  }

  // ---- pieces

  lemma PlaceholderBytes(s: string)
    requires s != [] && !High(s[0])
    ensures StartsPlaceholder(Bytes(s)) <==> StartsPlaceholder(s)
  {
    TwoBytes(s);
  }

  lemma PieceBytes(s: string)
    requires s != [] && !High(s[0])
    ensures Bytes(s) != [] && PieceLen(Bytes(s)) == Cut(s, PieceLen(s))
  {
    hide Bytes, Cut, QuoteLen, UpTo, BlockLen, DigitsLen, RunLen, IdentLen;
    TwoBytes(s);
    CutOne(s, PieceLen(s));
    if StartsPlaceholder(s) {
      NameBytes(s[1..]);
    } else if s[0] == '\'' {
      QuoteBytes(s[1..]);
    } else if s[0] == '"' {
      UpToBytes(s[1..], '"');
    } else if IsOpener(s) {
      OpenerBytes(s);
    } else {
      DigitsBytes(s[1..]);
      CutNothing(s[1..]);
    }
  }

  /** A comment or a cast. */
  predicate IsOpener(s: string) {
    |s| > 1 && ((s[0] == '-' && s[1] == '-') || (s[0] == '/' && s[1] == '*') || (s[0] == ':' && s[1] == ':'))
  }

  lemma OpenerBytes(s: string)
    requires IsOpener(s)
    ensures Bytes(s) != [] && PieceLen(Bytes(s)) == Cut(s, PieceLen(s))
  {
    hide Bytes, Cut, QuoteLen, UpTo, BlockLen, DigitsLen, RunLen, IdentLen;
    TwoBytes(s);
    CutOne(s, PieceLen(s));
    assert s[1..][1..] == s[2..];
    CutOne(s[1..], PieceLen(s) - 1);
    UpToBytes(s[2..], '\n');
    BlockBytes(s[2..]);
    CutNothing(s[2..]);
  }

  lemma NameBytes(t: string)
    requires t != [] && IsIdentStart(t[0])
    ensures IdentLen(Bytes(t)) == IdentLen(t) == Cut(t, IdentLen(t))
  {
    hide Bytes, Cut, RunLen;
    TwoBytes(t);
    RunBytes(t[1..]);
    CutOne(t, IdentLen(t));
  }

  // ---- the rewriting

  lemma HighStep(c: char, t: string, names: seq<string>)
    requires High(c)
    ensures Output([c] + t, names) == [c] + Output(t, names) && Names([c] + t, names) == Names(t, names)
  {
    HighPiece(c, t);
    hide Output, Names, PieceLen;
    VerbatimHead([c] + t, names);
    assert ([c] + t)[..1] == [c] && ([c] + t)[1..] == t;
  }

  lemma HighPiece(c: char, t: string)
    requires High(c)
    ensures !StartsPlaceholder([c] + t) && PieceLen([c] + t) == 1
  {
  }

  lemma {:induction false} HighOutput(h: string, t: string, names: seq<string>)
    requires AllHigh(h)
    ensures Output(h + t, names) == h + Output(t, names) && Names(h + t, names) == Names(t, names)
    decreases h
  {
    hide Output, Names;
    if h == [] {
      assert h + t == t && h + Output(t, names) == Output(t, names);
    } else {
      var rest := h[1..];
      HighOutput(rest, t, names);
      HighStep(h[0], rest + t, names);
      Rejoin(h, t);
      Rejoin(h, Output(t, names));
    }
  }

  lemma Rejoin(h: string, t: string)
    requires h != []
    ensures [h[0]] + (h[1..] + t) == h + t
  {
  }

  lemma PositionalIsAscii(names: seq<string>, name: string)
    ensures Bytes(Positional(names, name)) == Positional(names, name)
  {
    var p := Positional(names, name);
    forall i | 0 <= i < |p| ensures !High(p[i]) {
      if i > 0 { assert p[i] in Dec(IndexOf(names, name) + 1); }
    }
    AsciiBytes(p);
  }

  /** Rewriting the bytes gives the bytes of the rewriting, and the same names. */
  lemma {:induction false} RewriteOfBytes(s: string, names: seq<string>)
    ensures Output(Bytes(s), names) == Bytes(Output(s, names)) && Names(Bytes(s), names) == Names(s, names)
    decreases |s|
  {
    if s != [] {
      hide Output, Names, Bytes, Cut, PieceLen;
      if High(s[0]) {
        HighHead(s, names);
        RewriteOfBytes(s[1..], names);
      } else if StartsPlaceholder(s) {
        PlaceholderStep(s, names);
        RewriteOfBytes(s[PieceLen(s)..], AddName(names, s[1..PieceLen(s)]));
      } else {
        VerbatimStep(s, names);
        RewriteOfBytes(s[PieceLen(s)..], names);
      }
    }
  }

  lemma HighHead(s: string, names: seq<string>)
    requires s != [] && High(s[0])
    ensures Output(Bytes(s), names) == Utf8Char(s[0]) + Output(Bytes(s[1..]), names)
    ensures Names(Bytes(s), names) == Names(Bytes(s[1..]), names)
    ensures Bytes(Output(s, names)) == Utf8Char(s[0]) + Bytes(Output(s[1..], names)) && Names(s, names) == Names(s[1..], names)
  {
    hide Output, Names, Utf8Char;
    BytesCons(s);
    HighOutput(Utf8Char(s[0]), Bytes(s[1..]), names);
    VerbatimHead(s, names);
    assert s[..1] == [s[0]];
    var rest := Output(s[1..], names);
    BytesCons([s[0]] + rest);
    assert ([s[0]] + rest)[1..] == rest;
  }

  lemma VerbatimStep(s: string, names: seq<string>)
    requires s != [] && !High(s[0]) && !StartsPlaceholder(s)
    ensures var n := PieceLen(s);
            && Output(Bytes(s), names) == Bytes(s[..n]) + Output(Bytes(s[n..]), names)
            && Names(Bytes(s), names) == Names(Bytes(s[n..]), names)
            && Bytes(Output(s, names)) == Bytes(s[..n]) + Bytes(Output(s[n..], names)) && Names(s, names) == Names(s[n..], names)
  {
    hide Output, Names, Bytes, Cut, PieceLen;
    var n := PieceLen(s);
    PieceBytes(s);
    PlaceholderBytes(s);
    CutBytes(s, n);
    VerbatimHead(s, names);
    VerbatimHead(Bytes(s), names);
    BytesConcat(s[..n], Output(s[n..], names));
  }

  lemma PlaceholderStep(s: string, names: seq<string>)
    requires StartsPlaceholder(s)
    ensures var n := PieceLen(s);
            var names' := AddName(names, s[1..n]);
            var number := Positional(names', s[1..n]);
            && Output(Bytes(s), names) == number + Output(Bytes(s[n..]), names')
            && Names(Bytes(s), names) == Names(Bytes(s[n..]), names')
            && Bytes(Output(s, names)) == number + Bytes(Output(s[n..], names')) && Names(s, names) == Names(s[n..], names')
  {
    hide Output, Names, Bytes, Cut, Positional;
    var n := PieceLen(s);
    PieceBytes(s);
    PlaceholderBytes(s);
    CutBytes(s, n);
    NameIsItself(s);
    PlaceholderHead(s, names);
    PlaceholderHead(Bytes(s), names);
    var names' := AddName(names, s[1..n]);
    PositionalIsAscii(names', s[1..n]);
    BytesConcat(Positional(names', s[1..n]), Output(s[n..], names'));
  }

  lemma NameIsItself(s: string)
    requires StartsPlaceholder(s)
    ensures var n := PieceLen(s); Cut(s, n) == n && n <= |Bytes(s)| && Bytes(s)[1..n] == s[1..n]
  {
    var n := PieceLen(s);
    PlaceholderIsAscii(s);
    AsciiBytes(s[..n]);
    CutBytes(s, n);
    assert Bytes(s)[..n] == s[..n];
    assert Bytes(s)[1..n] == Bytes(s)[..n][1..] && s[1..n] == s[..n][1..];
  }

  lemma PlaceholderIsAscii(s: string)
    requires StartsPlaceholder(s)
    ensures Ascii(s[..PieceLen(s)])
  {
    var n := PieceLen(s);
    assert n == 2 + RunLen(s[1..][1..]);
    forall i | 0 <= i < n ensures !High(s[..n][i]) {
      if i > 1 { assert s[i] == s[1..][1..][i - 2]; }
    }
  }

  // ---- when the statement survives

  lemma {:induction false} OutputIsAscii(s: string, names: seq<string>)
    ensures Ascii(Output(s, names)) <==> Ascii(s)
    decreases |s|
  {
    if s == [] {
      assert Output(s, names) == [];
    } else {
      hide Output, Names, PieceLen, Positional;
      var n := PieceLen(s);
      AsciiConcat(s[..n], s[n..]);
      assert s == s[..n] + s[n..];
      if StartsPlaceholder(s) {
        PlaceholderHead(s, names);
        PlaceholderIsAscii(s);
        var names' := AddName(names, s[1..n]);
        PositionalIsAscii(names', s[1..n]);
        AsciiBytes(Positional(names', s[1..n]));
        AsciiConcat(Positional(names', s[1..n]), Output(s[n..], names'));
        OutputIsAscii(s[n..], names');
      } else {
        VerbatimHead(s, names);
        AsciiConcat(s[..n], Output(s[n..], names));
        OutputIsAscii(s[n..], names);
      }
    }
  }

  lemma AsciiConcat(a: string, b: string)
    ensures Ascii(a + b) <==> Ascii(a) && Ascii(b)
  {
    if Ascii(a + b) {
      forall i | 0 <= i < |a| ensures !High(a[i]) { assert (a + b)[i] == a[i]; }
      forall i | 0 <= i < |b| ensures !High(b[i]) { assert (a + b)[|a| + i] == b[i]; }
    }
  }

  /** Running the rewriter on the bytes of a statement gives the rewritten statement exactly
      when the statement is ASCII; the names are right in any case. */
  lemma RewriteSurvivesIff(sql: string)
    ensures Output(Bytes(sql), []) == Output(sql, []) <==> Ascii(sql)
    ensures Names(Bytes(sql), []) == Names(sql, [])
  {
    hide Output, Names, Bytes, Ascii;
    RewriteOfBytes(sql, []);
    OutputIsAscii(sql, []);
    AsciiBytes(Output(sql, []));
  }

  /** A statement with an accent comes out changed. */
  lemma AccentExample()
    ensures Output(Bytes("SELECT '\U{E9}', :a"), []) != Output("SELECT '\U{E9}', :a", [])
  {
    var sql := "SELECT '\U{E9}', :a";
    assert High(sql[8]);
    RewriteSurvivesIff(sql);
  }
}

/** What the placeholder rewriter promises about its output. */
module NamedParamsTheorems {
  import opened Decimal
  import opened NamedParams

  // ---- the pieces cut up the statement

  function Raw(p: Piece): string {
    if p.Verbatim? then p.text else [p.sigil] + p.name
  }

  function RawText(ps: seq<Piece>): string {
    if ps == [] then [] else Raw(ps[0]) + RawText(ps[1..])
  }

  lemma RawTextOfNone()
    ensures RawText([]) == []
  {
  }

  lemma RawTextCons(p: Piece, ps: seq<Piece>)
    ensures RawText([p] + ps) == Raw(p) + RawText(ps)
  {
    assert ([p] + ps)[1..] == ps;
  }

  lemma RawFirst(s: string)
    requires s != []
    ensures Raw(FirstPiece(s)) == s[..PieceLen(s)]
  {
    hide PieceLen;
  }

  /** Putting the pieces back together gives the statement. */
  lemma {:induction false} PiecesCoverInput(s: string)
    ensures RawText(Pieces(s)) == s
    decreases s
  {
    hide PieceLen, FirstPiece, Raw, RawText;
    if s == [] {
      assert RawText([]) == [] by { RawTextOfNone(); }
    } else {
      var n := PieceLen(s);
      PiecesCoverInput(s[n..]);
      RawFirst(s);
      RawTextCons(FirstPiece(s), Pieces(s[n..]));
      assert s[..n] + s[n..] == s;
    }
  }

  // ---- names and indices

  ghost predicate Distinct(names: seq<string>) {
    forall i, j :: 0 <= i < j < |names| ==> names[i] != names[j]
  }

  ghost predicate Mentions(ps: seq<Piece>, name: string) {
    exists i :: 0 <= i < |ps| && ps[i].Placeholder? && ps[i].name == name
  }

  /** Names are only ever appended, and they are those found before plus those mentioned. */
  lemma {:induction false} CollectExtends(ps: seq<Piece>, names: seq<string>)
    requires Distinct(names)
    ensures Distinct(Collect(ps, names))
    ensures names <= Collect(ps, names)
    ensures forall x :: x in Collect(ps, names) <==> x in names || Mentions(ps, x)
    decreases ps
  {
    if ps != [] {
      var names' := if ps[0].Verbatim? then names else AddName(names, ps[0].name);
      CollectExtends(ps[1..], names');
      forall x ensures Mentions(ps, x) <==> (ps[0].Placeholder? && ps[0].name == x) || Mentions(ps[1..], x) {
        if Mentions(ps[1..], x) {
          var i :| 0 <= i < |ps[1..]| && ps[1..][i].Placeholder? && ps[1..][i].name == x;
          assert ps[i + 1] == ps[1..][i];
        }
        if i :| 0 < i < |ps| && ps[i].Placeholder? && ps[i].name == x {
          assert ps[1..][i - 1] == ps[i];
        }
      }
    }
  }

  lemma {:induction false} CollectSplits(ps: seq<Piece>, qs: seq<Piece>, names: seq<string>)
    ensures Collect(ps + qs, names) == Collect(qs, Collect(ps, names))
    decreases ps
  {
    if ps == [] {
      assert ps + qs == qs;
    } else {
      assert (ps + qs)[1..] == ps[1..] + qs;
      CollectSplits(ps[1..], qs, if ps[0].Verbatim? then names else AddName(names, ps[0].name));
    }
  }

  /** The reported names are distinct and in order of first appearance: for every
      cut of the statement, the names mentioned before the cut come first. */
  lemma NamesInOrderOfAppearance(sql: string, k: nat)
    requires k <= |Pieces(sql)|
    ensures Distinct(Names(sql, []))
    ensures forall x :: x in Names(sql, []) <==> Mentions(Pieces(sql), x)
    ensures var early := Collect(Pieces(sql)[..k], []);
            && early <= Names(sql, [])
            && (forall x :: x in early <==> Mentions(Pieces(sql)[..k], x))
  {
    hide Collect, Pieces, Mentions;
    var ps := Pieces(sql);
    CollectExtends(ps, []);
    CollectExtends(ps[..k], []);
    CollectSplits(ps[..k], ps[k..], []);
    assert ps[..k] + ps[k..] == ps;
    CollectExtends(ps[k..], Collect(ps[..k], []));
  }

  /** Replace only the placeholders, each by the number of its name in a fixed list. */
  function Numbered(ps: seq<Piece>, names: seq<string>): string {
    if ps == [] then [] else
      (if ps[0].Verbatim? then ps[0].text else Positional(names, ps[0].name)) + Numbered(ps[1..], names)
  }

  lemma IndexOfPrefix(names: seq<string>, more: seq<string>, x: string)
    requires names <= more && x in names
    ensures IndexOf(names, x) == IndexOf(more, x)
  {
    var i := IndexOf(names, x);
    assert more[i] == names[i];
    assert forall j :: 0 <= j < i ==> more[j] == names[j];
  }

  lemma {:induction false} RenderIsNumbered(ps: seq<Piece>, names: seq<string>)
    requires Distinct(names)
    ensures Render(ps, names) == Numbered(ps, Collect(ps, names))
    decreases ps
  {
    if ps != [] {
      if ps[0].Verbatim? {
        RenderIsNumbered(ps[1..], names);
      } else {
        var names' := AddName(names, ps[0].name);
        RenderIsNumbered(ps[1..], names');
        CollectExtends(ps[1..], names');
        IndexOfPrefix(names', Collect(ps[1..], names'), ps[0].name);
      }
    }
  }

  /** The output is the input with nothing but its placeholders replaced, each by the
      one-based position of its name in the list of names. */
  lemma OutputReplacesPlaceholders(sql: string)
    ensures Output(sql, []) == Numbered(Pieces(sql), Names(sql, []))
    ensures sql == RawText(Pieces(sql))
  {
    RenderIsNumbered(Pieces(sql), []);
    PiecesCoverInput(sql);
  }

  // ---- a second rewrite changes nothing

  /** `t` may stand after a piece instead of `s`: both empty, or the same first
      character, or a `$`. */
  predicate Succeeds(s: string, t: string) {
    (s == [] <==> t == []) && (s != [] ==> t[0] == s[0] || t[0] == '$')
  }

  lemma {:induction false} QuoteLenStable(a: string, s: string, t: string)
    requires QuoteLen(a + s) == |a| && Succeeds(s, t)
    ensures QuoteLen(a + t) == |a|
    decreases a
  {
    if a != [] {
      var k := if a[0] == '\'' && |a| > 1 && a[1] == '\'' then 2 else 1;
      assert (a + s)[1..] == a[1..] + s && (a + t)[1..] == a[1..] + t;
      if |a| > 1 {
        assert (a + s)[2..] == a[2..] + s && (a + t)[2..] == a[2..] + t;
      }
      if a[0] != '\'' || k == 2 { QuoteLenStable(a[k..], s, t); }
    }
  }

  lemma {:induction false} UpToStable(a: string, s: string, t: string, c: char)
    requires UpTo(a + s, c) == |a| && Succeeds(s, t)
    ensures UpTo(a + t, c) == |a|
    decreases a
  {
    if a != [] {
      assert (a + s)[1..] == a[1..] + s && (a + t)[1..] == a[1..] + t;
      if a[0] != c { UpToStable(a[1..], s, t, c); }
    }
  }

  lemma {:induction false} BlockLenStable(a: string, s: string, t: string)
    requires BlockLen(a + s) == |a| && Succeeds(s, t)
    ensures BlockLen(a + t) == |a|
    decreases a
  {
    if a != [] {
      assert (a + s)[1..] == a[1..] + s && (a + t)[1..] == a[1..] + t;
      if !(|a| > 1 && a[0] == '*' && a[1] == '/') { BlockLenStable(a[1..], s, t); }
    }
  }

  lemma {:induction false} DigitsLenStable(a: string, t: string)
    requires AllDigits(a) && (t != [] ==> !IsDigit(t[0]))
    ensures DigitsLen(a + t) == |a|
    decreases a
  {
    if a != [] {
      assert (a + t)[1..] == a[1..] + t;
      DigitsLenStable(a[1..], t);
    }
  }

  lemma RegionStable(a: string, s: string, t: string)
    requires |a| > 1 && !StartsPlaceholder(a + s) && PieceLen(a + s) == |a| && Succeeds(s, t)
    ensures PieceLen(a + t) == |a|
  {
    assert (a + s)[1..] == a[1..] + s && (a + t)[1..] == a[1..] + t;
    assert (a + s)[2..] == a[2..] + s && (a + t)[2..] == a[2..] + t;
    assert (a + s)[0] == (a + t)[0] == a[0] && (a + s)[1] == (a + t)[1] == a[1];
    if a[0] == '\'' {
      QuoteLenStable(a[1..], s, t);
    } else if a[0] == '"' {
      UpToStable(a[1..], s, t, '"');
    } else if a[0] == '-' && a[1] == '-' {
      UpToStable(a[2..], s, t, '\n');
    } else if a[0] == '/' && a[1] == '*' {
      BlockLenStable(a[2..], s, t);
    } else if a[0] == '$' && IsDigit(a[1]) {
      assert forall i :: 0 <= i < |a[1..]| ==> a[1..][i] == (a + s)[1..][i];
      assert s != [] ==> s[0] == (a + s)[1..][|a| - 1];
      DigitsLenStable(a[1..], t);
    }
  }

  /** A piece that is copied is read as the same piece in the output. */
  lemma VerbatimStable(a: string, s: string, t: string)
    requires a != [] && !StartsPlaceholder(a + s) && PieceLen(a + s) == |a| && Succeeds(s, t)
    ensures !StartsPlaceholder(a + t) && PieceLen(a + t) == |a|
  {
    assert (a + s)[0] == (a + t)[0] == a[0];
    if |a| > 1 {
      assert (a + s)[1] == (a + t)[1] == a[1];
      RegionStable(a, s, t);
    } else if t == [] {
      assert a + s == a == a + t;
    } else {
      assert (a + s)[1] == s[0] && (a + t)[1] == t[0];
      assert (a + s)[1..] == s && (a + t)[1..] == t;
    }
  }

  lemma NumberIsOnePiece(k: nat, t: string)
    requires t != [] ==> !IsDigit(t[0])
    ensures !StartsPlaceholder(PositionalAt(k) + t)
    ensures PieceLen(PositionalAt(k) + t) == |PositionalAt(k)|
  {
    var s := PositionalAt(k) + t;
    assert s[0] == '$' && s[1] == Dec(k)[0] && Dec(k)[0] in Dec(k);
    assert s[1..] == Dec(k) + t;
    DigitsLenStable(Dec(k), t);
  }

  lemma AfterIdentifier(s: string)
    requires StartsPlaceholder(s)
    ensures var n := PieceLen(s); n < |s| ==> !IsIdentContinue(s[n])
  {
    var n := IdentLen(s[1..]);
    assert n < |s[1..]| ==> s[1..][1..][n - 1] == s[1 + n];
  }

  lemma HeadAgain(head: string, tail: string, names: seq<string>)
    requires head != [] && !StartsPlaceholder(head + tail) && PieceLen(head + tail) == |head|
    requires Output(tail, names) == tail && Names(tail, names) == names
    ensures Output(head + tail, names) == head + tail && Names(head + tail, names) == names
  {
    hide Output, Names, PieceLen;
    VerbatimHead(head + tail, names);
    assert (head + tail)[..|head|] == head && (head + tail)[|head|..] == tail;
  }

  lemma {:induction false} SecondRewrite(s: string, names: seq<string>, again: seq<string>)
    ensures Succeeds(s, Output(s, names))
    ensures Output(Output(s, names), again) == Output(s, names)
    ensures Names(Output(s, names), again) == again
    decreases s
  {
    if s != [] {
      hide Output, Names, PieceLen, Positional, PositionalAt;
      var n := PieceLen(s);
      var a, tail := s[..n], s[n..];
      assert s == a + tail;
      if StartsPlaceholder(s) {
        PlaceholderHead(s, names);
        var names' := AddName(names, s[1..n]);
        SecondRewrite(tail, names', again);
        AfterIdentifier(s);
        PositionalShape(names', s[1..n]);
        NumberIsOnePiece(IndexOf(names', s[1..n]) + 1, Output(tail, names'));
        HeadAgain(Positional(names', s[1..n]), Output(tail, names'), again);
      } else {
        VerbatimHead(s, names);
        SecondRewrite(tail, names, again);
        VerbatimStable(a, tail, Output(tail, names));
        HeadAgain(a, Output(tail, names), again);
      }
    }
  }

  lemma PositionalShape(names: seq<string>, name: string)
    ensures Positional(names, name) == PositionalAt(IndexOf(names, name) + 1)
    ensures Positional(names, name) != [] && Positional(names, name)[0] == '$'
  {
  }

  /** Rewriting the output again changes nothing and finds no names. */
  lemma RewriteIsIdempotent(sql: string)
    ensures Output(Output(sql, []), []) == Output(sql, [])
    ensures Names(Output(sql, []), []) == []
  {
    SecondRewrite(sql, [], []);
  }
}

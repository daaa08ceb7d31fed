/** A written VALUES list is read back exactly when its texts are clean. */
module FtsReadBack {
  import opened Wrappers
  import opened Integers
  import opened SqlBinding
  import opened Tokenizer
  import opened FtsLiterals

  // ---- past the clean texts

  lemma {:induction false} FindPast(q: Scan, texts: seq<string>, ws: string, after: string)
    requires !q.inSingle && Blank(ws) && AllClean(texts)
    ensures Find(Tail(texts, ws) + after, q, 1) == Shift(|Tail(texts, ws)|, Find(after, After(q, Tail(texts, ws)), 1))
    decreases texts
  {
    hide Find, After, Quiet, Tail, Clean, Blank, Piece;
    if texts == [] {
      FindPastNone(q, ws, after);
    } else {
      var p, piece, rest := Next(q, ','), Piece(texts[0], ws), Tail(texts[1..], ws);
      TailCons(texts, ws);
      CommaAfter(q, piece + rest);
      CleanCons(texts);
      PieceScan(p, ws, texts[0]);
      Regroup([','], piece + rest, after);
      Regroup(piece, rest, after);
      FindComma(q, piece + (rest + after));
      FindQuiet(p, piece, rest + after, 1);
      FindPast(After(p, piece), texts[1..], ws, after);
      AfterConcat(p, piece, rest);
    }
  }

  lemma FindPastNone(q: Scan, ws: string, after: string)
    ensures Find(Tail([], ws) + after, q, 1) == Shift(|Tail([], ws)|, Find(after, After(q, Tail([], ws)), 1))
  {
    hide Find;
    assert Tail([], ws) + after == after;
  }

  lemma CommaAfter(q: Scan, s: string)
    ensures After(q, [','] + s) == After(Next(q, ','), s)
  {
    assert ([','] + s)[1..] == s;
  }

  lemma FieldsComma(q: Scan, s: string, current: string)
    requires !q.inSingle
    ensures Fields([','] + s, q, current) == [Trim(current)] + Fields(s, Scan(false, ','), "")
  {
    assert ([','] + s)[1..] == s;
  }

  lemma {:induction false} FieldsPast(q: Scan, texts: seq<string>, ws: string, current: string, after: string)
    requires !q.inSingle && Blank(ws) && AllClean(texts)
    ensures Fields(Tail(texts, ws) + ([','] + after), q, current)
      == [Trim(current)] + Literals(texts) + Fields(after, Scan(false, ','), "")
    decreases texts
  {
    hide Fields, After, Quiet, Tail, Clean, Trim, Literal, Literals, Blank;
    if texts == [] {
      FieldsPastNone(q, ws, current, after);
    } else {
      var p, piece, rest := Scan(false, ','), Piece(texts[0], ws), Tail(texts[1..], ws);
      TailCons(texts, ws);
      CleanCons(texts);
      var more := rest + ([','] + after);
      Regroup([','], piece + rest, [','] + after);
      Regroup(piece, rest, [','] + after);
      FieldsComma(q, piece + more, current);
      PieceScan(p, ws, texts[0]);
      FieldsQuiet(p, piece, more, "");
      assert "" + piece == piece;
      LiteralEnds(texts[0]);
      TrimBlank(ws, Literal(texts[0]));
      FieldsPast(After(p, piece), texts[1..], ws, piece, after);
      FirstOfLiterals([Trim(current)], texts, Fields(after, p, ""));
    }
  }

  lemma FieldsPastNone(q: Scan, ws: string, current: string, after: string)
    requires !q.inSingle
    ensures Fields(Tail([], ws) + ([','] + after), q, current) == [Trim(current)] + Literals([]) + Fields(after, Scan(false, ','), "")
  {
    hide Fields, Trim;
    assert Tail([], ws) + ([','] + after) == [','] + after;
    FieldsComma(q, after, current);
    assert [Trim(current)] + [] == [Trim(current)];
  }

  lemma FirstOfLiterals(front: seq<string>, texts: seq<string>, rest: seq<string>)
    requires texts != []
    ensures front + Literals(texts) + rest == front + ([Literal(texts[0])] + Literals(texts[1..]) + rest)
  {
    hide Literal;
    assert Literals(texts) == [Literal(texts[0])] + Literals(texts[1..]);
  }

  // ---- the first field

  /** Where the first field ends: at an unquoted comma, or at the end. */
  function FieldEnd(s: string, q: Scan): (m: nat)
    ensures m <= |s|
    decreases s
  {
    if s == [] || (!q.inSingle && s[0] == ',') then 0 else 1 + FieldEnd(s[1..], Next(q, s[0]))
  }

  lemma {:induction false} FieldEndIs(s: string, q: Scan)
    ensures FieldEnd(s, q) < |s| ==> s[FieldEnd(s, q)] == ',' && !After(q, s[..FieldEnd(s, q)]).inSingle
    decreases s
  {
    var m := FieldEnd(s, q);
    if m == 0 {
      assert s[..m] == [];
    } else {
      FieldEndIs(s[1..], Next(q, s[0]));
      assert s[..m][1..] == s[1..][..m - 1];
    }
  }

  lemma {:induction false} FieldsHead(s: string, q: Scan, current: string)
    ensures Fields(s, q, current) != [] ==> Fields(s, q, current)[0] == Trim(current + s[..FieldEnd(s, q)])
    decreases s
  {
    hide Trim;
    var m := FieldEnd(s, q);
    if m == 0 {
      assert current + s[..m] == current;
    } else {
      FieldsHead(s[1..], Next(q, s[0]), current + [s[0]]);
      assert current + [s[0]] + s[1..][..m - 1] == current + s[..m];
    }
  }

  lemma {:induction false} FindIsParen(s: string, q: Scan, depth: nat)
    requires depth > 0 && Find(s, q, depth).Some?
    ensures s[Find(s, q, depth).value] == ')'
    decreases s
  {
    if !Closes(q, depth, s[0]) { FindIsParen(s[1..], Next(q, s[0]), Deeper(q, depth, s[0])); }
  }

  // ---- collapsing quotes

  lemma UndoubledStep(c: char, rest: string)
    ensures c != '\'' ==> Undoubled([c] + rest) == [c] + Undoubled(rest)
    ensures Undoubled("''" + rest) == "'" + Undoubled(rest)
  {
    assert ([c] + rest)[1..] == rest && ("''" + rest)[2..] == rest;
  }

  lemma Regroup(a: string, b: string, c: string)
    ensures a + b + c == a + (b + c)
  {
  }

  lemma {:induction false} UndoubledAppend(t: string, w: string)
    ensures Undoubled(Doubled(t) + w) == t + Undoubled(w)
    decreases t
  {
    hide Undoubled;
    if t == [] {
      assert Doubled(t) + w == w && t + Undoubled(w) == Undoubled(w);
    } else {
      UndoubledAppend(t[1..], w);
      UndoubledStep(t[0], Doubled(t[1..]) + w);
      Regroup(if t[0] == '\'' then "''" else [t[0]], Doubled(t[1..]), w);
      Regroup([t[0]], t[1..], Undoubled(w));
      assert [t[0]] + t[1..] == t;
    }
  }

  lemma UndoubledNonEmpty(w: string)
    requires w != []
    ensures Undoubled(w) != []
  {
  }

  /** Collapsing less than the whole of a doubled text gives less than the text. */
  lemma {:induction false} UndoubledPrefix(t: string, p: nat)
    requires p + 1 < |Doubled(t)|
    ensures |Undoubled(Doubled(t)[..p])| < |t|
    decreases t
  {
    var d := Doubled(t);
    if p == 0 {
      assert d[..0] == [];
    } else if t[0] != '\'' {
      assert d == [t[0]] + Doubled(t[1..]);
      assert d[..p][1..] == Doubled(t[1..])[..p - 1];
      UndoubledPrefix(t[1..], p - 1);
    } else {
      assert d == "''" + Doubled(t[1..]);
      if p == 1 {
        assert d[..1] == "'" && |t| > 1;
        assert "'"[1..] == "";
      } else {
        assert d[..p][2..] == Doubled(t[1..])[..p - 2];
        UndoubledPrefix(t[1..], p - 2);
      }
    }
  }

  /** A text that is a quote followed by a start of its doubling is all quotes. */
  lemma {:induction false} OnlyQuotes(t: string, i: nat)
    requires t != [] && t[0] == '\'' && i <= |t| && |t| - 1 <= |Doubled(t)|
    requires forall k :: 1 <= k < |t| ==> t[k] == Doubled(t)[k - 1]
    ensures forall k :: 0 <= k < i ==> t[k] == '\''
  {
    if i > 1 {
      OnlyQuotes(t, i - 1);
      QuotesDouble(t, i - 1);
      assert t[i - 1] == Doubled(t)[i - 2];
    }
  }

  lemma {:induction false} QuotesDouble(t: string, n: nat)
    requires n <= |t| && forall k :: 0 <= k < n ==> t[k] == '\''
    ensures 2 * n <= |Doubled(t)| && forall k :: 0 <= k < 2 * n ==> Doubled(t)[k] == '\''
    decreases t
  {
    if n > 0 {
      QuotesDouble(t[1..], n - 1);
      assert Doubled(t) == "''" + Doubled(t[1..]);
    }
  }

  lemma {:induction false} QuotesAreClean(t: string, prev: char)
    requires prev != '\\' && forall k :: 0 <= k < |t| ==> t[k] == '\''
    ensures CleanFrom(prev, t)
    decreases t
  {
    if t != [] { QuotesAreClean(t[1..], t[0]); }
  }

  // ---- trimming

  lemma {:induction false} TrimEndIs(s: string) returns (n: nat)
    ensures n <= |s| && TrimEnd(s) == s[..n] && Blank(s[n..])
    ensures n > 0 ==> !IsWhitespace(s[n - 1])
    decreases s
  {
    hide IsWhitespace;
    if s != [] && IsWhitespace(s[|s| - 1]) {
      var front := s[..|s| - 1];
      n := TrimEndIs(front);
      assert front[..n] == s[..n];
      forall i | 0 <= i < |s[n..]| ensures IsWhitespace(s[n..][i]) {
        if i < |front[n..]| { assert s[n..][i] == front[n..][i]; }
      }
    } else {
      n := |s|;
      assert s[..n] == s;
    }
  }

  lemma {:induction false} TrimStartBlank(ws: string, s: string)
    requires Blank(ws) && s != [] && !IsWhitespace(s[0])
    ensures TrimStart(ws + s) == s
    decreases ws
  {
    hide IsWhitespace;
    if ws == [] {
      assert ws + s == s;
    } else {
      assert IsWhitespace(ws[0]) && (ws + s)[1..] == ws[1..] + s;
      assert forall i :: 0 <= i < |ws[1..]| ==> ws[1..][i] == ws[i + 1];
      TrimStartBlank(ws[1..], s);
    }
  }

  /** Trimming white space in front of a quote leaves a start of the text, without blanks at
      its end, that trimming does not change again. */
  lemma TrimQuoted(ws: string, x: string) returns (n: nat)
    requires Blank(ws) && x != [] && x[0] == '\''
    ensures 0 < n <= |x| && Trim(ws + x) == x[..n] && Blank(x[n..]) && Trim(x[..n]) == x[..n]
  {
    TrimStartBlank(ws, x);
    n := TrimEndIs(x);
    TrimBlank("", x[..n]);
    assert "" + x[..n] == x[..n];
  }

  // ---- an unclean text is not read back

  /** The field cut short within the literal. */
  lemma ShortField(t: string, x: string, n: nat)
    requires 0 < n <= |x| && x[0] == '\'' && |x| <= |Doubled(t)|
    requires x == ("'" + Doubled(t))[..|x|]
    requires !Clean(t) && Trim(x[..n]) == x[..n]
    ensures StripStringLiteral(x[..n]) != t
  {
    var y, body := x[..n], Doubled(t);
    assert forall k :: 1 <= k < n ==> y[k] == body[k - 1];
    if |y| >= 2 && y[|y| - 1] == '\'' {
      assert y[1..n - 1] == body[..n - 2];
      UndoubledPrefix(t, n - 2);
    } else if y == t {
      OnlyQuotes(t, |t|);
      QuotesAreClean(t, '\'');
    }
  }

  lemma MiddleOf(body: string, z: string, k: nat)
    requires k < |z|
    ensures var y := ("'" + body + "'" + z)[..|body| + 3 + k];
            y[1..|y| - 1] == body + ("'" + z[..k])
  {
    var x, y, w := "'" + body + "'" + z, ("'" + body + "'" + z)[..|body| + 3 + k], "'" + z[..k];
    forall i | 0 <= i < |body| + 1 + k ensures y[1..|y| - 1][i] == (body + w)[i] {
      assert y[1..|y| - 1][i] == x[i + 1];
    }
  }

  /** The field that runs on past the literal. */
  lemma LongField(t: string, x: string, z: string, n: nat)
    requires x == Literal(t) + z && |Literal(t)| < n <= |x| && Trim(x[..n]) == x[..n]
    ensures StripStringLiteral(x[..n]) != t
  {
    var y := x[..n];
    var l := |Literal(t)|;
    LiteralEnds(t);
    LiteralLonger(t);
    if y[|y| - 1] == '\'' {
      var w := "'" + z[..n - l - 1];
      MiddleOf(Doubled(t), z, n - l - 1);
      UndoubledAppend(t, w);
      UndoubledNonEmpty(w);
    }
  }

  lemma {:induction false} LiteralLonger(t: string)
    ensures |Literal(t)| > |t|
  {
    DoubledLonger(t);
  }

  lemma {:induction false} DoubledLonger(t: string)
    ensures |Doubled(t)| >= |t|
  {
    if t != [] { DoubledLonger(t[1..]); }
  }

  /** What is read of an unclean text, up to where a field can end, is another text. */
  lemma UncleanField(ws: string, t: string, more: string, m: nat)
    requires Blank(ws) && !Clean(t)
    requires var u := ws + (Literal(t) + more);
             m < |u| && u[m] in ",)" && !After(Scan(false, ','), u[..m]).inSingle
    ensures StripStringLiteral(Trim(Trim((ws + (Literal(t) + more))[..m]))) != t
  {
    hide StripStringLiteral, Trim, Clean, After, Literal;
    var v := Literal(t) + more;
    var u := ws + v;
    LiteralEnds(t);
    EndIsInside(ws, v, m);
    var x := v[..m - |ws|];
    assert u[..m] == ws + x && u[m] == v[m - |ws|];
    var n := TrimQuoted(ws, x);
    if |x| < |Literal(t)| {
      ShortFieldOf(t, v, x, n);
    } else {
      StateOf(ws, t, x);
      var z := x[|Literal(t)|..];
      assert x == Literal(t) + z;
      NotJustBlank(t, z, n);
      LongField(t, x, z, n);
    }
  }

  lemma EndIsInside(ws: string, v: string, m: nat)
    requires Blank(ws) && v != [] && v[0] == '\'' && m < |ws + v| && (ws + v)[m] in ",)"
    ensures m > |ws|
  {
    assert m < |ws| ==> IsWhitespace((ws + v)[m]);
  }

  lemma ShortFieldOf(t: string, v: string, x: string, n: nat)
    requires !Clean(t) && 0 < |x| < |Literal(t)| && Literal(t) <= v && |x| < |v| && x == v[..|x|] && v[|x|] in ",)"
    requires 0 < n <= |x| && Trim(x[..n]) == x[..n]
    ensures StripStringLiteral(x[..n]) != t
  {
    hide StripStringLiteral, Trim, Clean;
    var l := Literal(t);
    assert l == "'" + Doubled(t) + "'";
    assert v[|x|] == l[|x|] && x == l[..|x|];
    assert |x| <= |Doubled(t)|;
    assert x == ("'" + Doubled(t))[..|x|];
    ShortField(t, x, n);
  }

  /** After the literal of an unclean text the scan is inside. */
  lemma StateOf(ws: string, t: string, x: string)
    requires Blank(ws) && !Clean(t) && Literal(t) <= x && !After(Scan(false, ','), ws + x).inSingle
    ensures var z := x[|Literal(t)|..]; !AllPlain(z)
  {
    hide Literal, After, Clean, AllPlain;
    var q, z := Scan(false, ','), x[|Literal(t)|..];
    assert ws + x == (ws + Literal(t)) + z;
    SpacedLiteral(q, ws, t);
    AfterConcat(q, ws + Literal(t), z);
    if AllPlain(z) { PlainKeeps(After(q, ws + Literal(t)), z); }
  }

  lemma NotJustBlank(t: string, z: string, n: nat)
    requires !AllPlain(z) && n <= |Literal(t) + z| && Blank((Literal(t) + z)[n..])
    ensures n > |Literal(t)|
  {
    if n <= |Literal(t)| {
      var tail := (Literal(t) + z)[n..];
      forall i | 0 <= i < |z| ensures Plain(z[i]) {
        assert z[i] == tail[|Literal(t)| - n + i] && IsWhitespace(z[i]);
      }
    }
  }

  // ---- the whole list

  lemma {:induction false} TailConcat(a: seq<string>, b: seq<string>, ws: string)
    ensures Tail(a + b, ws) == Tail(a, ws) + Tail(b, ws)
    decreases a
  {
    if a == [] {
      assert a + b == b;
    } else {
      hide Literal;
      assert (a + b)[1..] == a[1..] + b;
      TailConcat(a[1..], b, ws);
      TailCons(a + b, ws);
      TailCons(a, ws);
      var piece := Piece(a[0], ws);
      Regroup(piece, Tail(a[1..], ws), Tail(b, ws));
      Regroup([','], piece + Tail(a[1..], ws), Tail(b, ws));
    }
  }

  lemma FirstUnclean(texts: seq<string>) returns (j: nat)
    requires !AllClean(texts)
    ensures j < |texts| && AllClean(texts[..j]) && !Clean(texts[j])
  {
    hide Clean;
    j := 0;
    while Clean(texts[j])
      invariant j < |texts| && forall i :: 0 <= i < j ==> Clean(texts[i])
      decreases |texts| - j
    {
      assert j + 1 == |texts| ==> AllClean(texts);
      j := j + 1;
    }
  }

  /** The rendered row cut at its first unclean text. */
  lemma CutAtUnclean(id: int, texts: seq<string>, ws: string, rest: string, j: nat) returns (more: string)
    requires j < |texts|
    ensures Rendered(id, texts, ws) + ")" + rest
      == IntText(id) + (Tail(texts[..j], ws) + ([','] + (ws + (Literal(texts[j]) + more))))
  {
    hide Literal, IntText;
    var tail := texts[j + 1..];
    assert texts == texts[..j] + texts[j..] && texts[j..][1..] == tail;
    TailConcat(texts[..j], texts[j..], ws);
    TailCons(texts[j..], ws);
    more := Tail(tail, ws) + ")" + rest;
  }

  lemma UncleanIsNotReadBack(id: int, texts: seq<string>, ws: string, rest: string)
    requires Blank(ws) && !AllClean(texts)
    ensures ReadRow(Rendered(id, texts, ws) + ")" + rest) != Read(id, texts)
  {
    hide Find, Fields, Trim, ParseI64, IntText, Tail, Clean, Literal, After, StripStringLiteral, Rendered;
    var j := FirstUnclean(texts);
    var more := CutAtUnclean(id, texts, ws, rest, j);
    var s := Rendered(id, texts, ws) + ")" + rest;
    var u := ws + (Literal(texts[j]) + more);
    var before := Tail(texts[..j], ws);
    FoundInside(id, texts[..j], ws, u);
    if Find(u, Scan(false, ','), 1).Some? {
      var k := Find(u, Scan(false, ','), 1).value;
      var close := |IntText(id)| + |before| + 1 + k;
      assert s[..close] == IntText(id) + (before + ([','] + u[..k]));
      SplitInside(id, texts[..j], ws, u[..k]);
      var fields := Fields(s[..close], START, "");
      var tail := Fields(u[..k], Scan(false, ','), "");
      assert fields == [IntText(id)] + Literals(texts[..j]) + tail;
      LiteralsStrip(texts[..j]);
      if tail != [] {
        assert fields[1..][j] == tail[0];
        FieldIsOther(ws, texts[j], more, k);
      }
    }
  }

  /** Where the finder stops, counted from the comma before the unclean text. */
  lemma FoundInside(id: int, clean: seq<string>, ws: string, u: string)
    requires Blank(ws) && AllClean(clean)
    ensures Find(IntText(id) + (Tail(clean, ws) + ([','] + u)), START, 1)
      == Shift(|IntText(id)| + |Tail(clean, ws)| + 1, Find(u, Scan(false, ','), 1))
  {
    hide Find, After, Quiet, Tail, IntText, Clean;
    var after := Tail(clean, ws) + ([','] + u);
    IntTextIsPlain(id);
    PlainKeeps(START, IntText(id));
    FindQuiet(START, IntText(id), after, 1);
    var q := After(START, IntText(id));
    FindPast(q, clean, ws, [','] + u);
    TailState(q, clean, ws);
    FindComma(After(q, Tail(clean, ws)), u);
  }

  lemma SplitInside(id: int, clean: seq<string>, ws: string, v: string)
    requires Blank(ws) && AllClean(clean)
    ensures Fields(IntText(id) + (Tail(clean, ws) + ([','] + v)), START, "")
      == [IntText(id)] + Literals(clean) + Fields(v, Scan(false, ','), "")
  {
    hide Fields, After, Quiet, Tail, IntText, Clean, Trim;
    IntTextIsPlain(id);
    PlainKeeps(START, IntText(id));
    FieldsQuiet(START, IntText(id), Tail(clean, ws) + ([','] + v), "");
    assert "" + IntText(id) == IntText(id);
    FieldsPast(After(START, IntText(id)), clean, ws, IntText(id), v);
  }

  lemma FieldIsOther(ws: string, t: string, more: string, k: nat)
    requires Blank(ws) && !Clean(t)
    requires var u := ws + (Literal(t) + more);
             Find(u, Scan(false, ','), 1) == Some(k) && Fields(u[..k], Scan(false, ','), "") != []
    ensures var u := ws + (Literal(t) + more);
            StripStringLiteral(Trim(Fields(u[..k], Scan(false, ','), "")[0])) != t
  {
    hide Fields, Trim, StripStringLiteral, Clean, Literal, Find, After, FieldEnd;
    var u, q := ws + (Literal(t) + more), Scan(false, ',');
    var m := FieldEnd(u[..k], q);
    FieldsHead(u[..k], q, "");
    FieldEndIs(u[..k], q);
    FindIsParen(u, q, 1);
    FindStopsOutside(u, q, 1, k);
    assert "" + u[..k][..m] == u[..m];
    assert m < k ==> u[m] == u[..k][m];
    assert u[..k][..m] == u[..m];
    UncleanField(ws, t, more, m);
  }

  /** A rendered row with a 64-bit id is read back exactly when every text is clean. */
  lemma ReadBackIff(id: int, texts: seq<string>, ws: string, rest: string)
    requires Blank(ws) && I64_MIN <= id <= I64_MAX
    ensures ReadRow(Rendered(id, texts, ws) + ")" + rest) == Read(id, texts) <==> AllClean(texts)
  {
    hide ReadRow, Rendered, AllClean;
    if AllClean(texts) {
      RenderedRowReads(id, texts, ws, rest);
    } else {
      UncleanIsNotReadBack(id, texts, ws, rest);
    }
  }
}

/** Rewriting named parameters and then binding values is direct substitution,
    exactly when no stray `$` can be read as a reference. */
module ParamPipeline {
  import opened Fallible
  import opened Decimal
  import opened NamedParams
  import opened NamedParamsTheorems
  import opened SqlBinding

  /** Every placeholder replaced by its value's literal, everything else kept. */
  function Direct(s: string, env: Env): string
    requires AllBound(s, env)
    decreases |s|
  {
    if s == [] then [] else
      BoundTail(s, env);
      var n := PieceLen(s);
      (if StartsPlaceholder(s) then EscapeSqlValue(Lookup(env, s[1..n])) else s[..n]) + Direct(s[n..], env)
  }

  predicate AllBound(s: string, env: Env)
    decreases |s|
  {
    s == [] || ((StartsPlaceholder(s) ==> Bound(env, s[1..PieceLen(s)])) && AllBound(s[PieceLen(s)..], env))
  }

  lemma BoundTail(s: string, env: Env)
    requires AllBound(s, env) && s != []
    ensures AllBound(s[PieceLen(s)..], env)
    ensures StartsPlaceholder(s) ==> Bound(env, s[1..PieceLen(s)])
  {
  }

  /** A character that makes the binder read on after a `$`. */
  predicate Active(c: char) { c == '$' || IsDigit(c) }

  predicate InertAt(t: string, tail: string, j: nat)
    requires j < |t|
  {
    t[j] == '$' ==>
      if j + 1 < |t| then !Active(t[j + 1])
      else tail == [] || (!Active(tail[0]) && !StartsPlaceholder(tail))
  }

  /** No `$` in the text is followed by `$`, a digit or a placeholder. */
  predicate InertText(t: string, tail: string) {
    forall j :: 0 <= j < |t| ==> InertAt(t, tail, j)
  }

  /** No `$` outside a `$name` placeholder is followed by `$`, a digit or a placeholder. */
  predicate Inert(s: string)
    decreases |s|
  {
    s == [] ||
    var n := PieceLen(s);
    Inert(s[n..]) && (StartsPlaceholder(s) || InertText(s[..n], s[n..]))
  }

  lemma {:induction false} NoDollarIsInert(s: string)
    requires '$' !in s
    ensures Inert(s)
    decreases |s|
  {
    hide PieceLen;
    if s != [] {
      NoDollarIsInert(s[PieceLen(s)..]);
    }
  }

  /** The rewritten text with all names known: `Numbered` piece by piece. */
  function Final(s: string, names: seq<string>): string { Numbered(Pieces(s), names) }

  lemma FinalHead(s: string, names: seq<string>)
    requires s != []
    ensures var n := PieceLen(s);
            Final(s, names) == (if StartsPlaceholder(s) then Positional(names, s[1..n]) else s[..n]) + Final(s[n..], names)
  {
    hide PieceLen;
    assert Pieces(s)[1..] == Pieces(s[PieceLen(s)..]);
  }

  lemma FinalSucceeds(s: string, names: seq<string>)
    ensures Succeeds(s, Final(s, names))
    ensures StartsPlaceholder(s) ==> Final(s, names)[0] == '$'
    ensures s != [] && !StartsPlaceholder(s) ==> Final(s, names)[0] == s[0]
  {
    if s != [] {
      hide PieceLen, Numbered;
      FinalHead(s, names);
      if StartsPlaceholder(s) { PositionalShape(names, s[1..PieceLen(s)]); }
    }
  }

  // ---- one piece at a time

  lemma {:induction false} BindCopies(t: string, tail: string, params: seq<Value>)
    requires forall j :: 0 <= j < |t| && t[j] == '$' ==> j + 1 >= |t + tail| || !Active((t + tail)[j + 1])
    ensures Bind(t + tail, params) == Prepend(t, Bind(tail, params))
    decreases |t|
  {
    if t == [] {
      assert t + tail == tail;
      PrependAssociative([], [], Bind(tail, params));
    } else {
      assert (t + tail)[1..] == t[1..] + tail;
      forall j | 0 <= j < |t[1..]| && t[1..][j] == '$'
        ensures j + 1 >= |t[1..] + tail| || !Active((t[1..] + tail)[j + 1])
      {
        assert t[1..][j] == t[j + 1];
      }
      BindCopies(t[1..], tail, params);
      assert t[0] == '$' ==> t[..1] == "$" && (|t + tail| == 1 || !Active((t + tail)[1]));
      assert (t + tail)[..1] == t[..1] && t[..1] + t[1..] == t;
      PrependAssociative(t[..1], t[1..], Bind(tail, params));
    }
  }

  lemma PositionalDigits(k: nat, tail: string)
    requires tail != [] ==> !IsDigit(tail[0])
    ensures var s, n := PositionalAt(k) + tail, 1 + |Dec(k)|;
            && 1 < n <= |s| && s[0] == '$' && IsDigit(s[1]) && DigitsLen(s[1..]) == n - 1
            && s[1..n] == Dec(k) && s[n..] == tail
  {
    hide DigitsLen, Dec;
    var s := PositionalAt(k) + tail;
    assert s[1] == Dec(k)[0] && Dec(k)[0] in Dec(k);
    assert s[1..] == Dec(k) + tail;
    DigitsLenStable(Dec(k), tail);
  }

  lemma BindReference(k: nat, tail: string, params: seq<Value>)
    requires 1 <= k <= |params| && (tail != [] ==> !IsDigit(tail[0]))
    ensures Bind(PositionalAt(k) + tail, params) == Prepend(EscapeSqlValue(params[k - 1]), Bind(tail, params))
  {
    hide Bind, Dec, DigitsLen, Parse, PositionalAt, EscapeSqlValue, AllDigits;
    PositionalDigits(k, tail);
    ParseDec(k);
    BindDigits(PositionalAt(k) + tail, params);
  }

  lemma BindPlaceholder(s: string, names: seq<string>, env: Env, params: seq<Value>)
    requires StartsPlaceholder(s) && IsResolved(names, env, params) && s[1..PieceLen(s)] in names
    ensures var n := PieceLen(s);
            && Bound(env, s[1..n])
            && Bind(Final(s, names), params)
               == Prepend(EscapeSqlValue(Lookup(env, s[1..n])), Bind(Final(s[n..], names), params))
  {
    hide Final, PieceLen, Bind;
    var n := PieceLen(s);
    FinalHead(s, names);
    FinalSucceeds(s[n..], names);
    AfterIdentifier(s);
    var i := IndexOf(names, s[1..n]);
    BindReference(i + 1, Final(s[n..], names), params);
  }

  lemma BindVerbatim(s: string, names: seq<string>, params: seq<Value>)
    requires s != [] && !StartsPlaceholder(s) && InertText(s[..PieceLen(s)], s[PieceLen(s)..])
    ensures var n := PieceLen(s);
            Bind(Final(s, names), params) == Prepend(s[..n], Bind(Final(s[n..], names), params))
  {
    hide Final, PieceLen, Bind;
    var n := PieceLen(s);
    var t, tail := s[..n], Final(s[n..], names);
    FinalHead(s, names);
    FinalSucceeds(s[n..], names);
    forall j | 0 <= j < |t| && t[j] == '$' ensures j + 1 >= |t + tail| || !Active((t + tail)[j + 1]) {
      assert InertAt(t, s[n..], j);
      if j + 1 < |t| {
        assert (t + tail)[j + 1] == t[j + 1];
      } else if tail != [] {
        assert (t + tail)[j + 1] == tail[0] == s[n..][0];
      }
    }
    BindCopies(t, tail, params);
  }

  ghost predicate NamesCover(s: string, names: seq<string>)
    decreases |s|
  {
    s == [] || ((StartsPlaceholder(s) ==> s[1..PieceLen(s)] in names) && NamesCover(s[PieceLen(s)..], names))
  }

  lemma {:induction false} BindFinal(s: string, names: seq<string>, env: Env, params: seq<Value>)
    requires IsResolved(names, env, params) && NamesCover(s, names) && Inert(s) && AllBound(s, env)
    ensures Bind(Final(s, names), params) == Ok(Direct(s, env))
    decreases |s|
  {
    if s != [] {
      var n := PieceLen(s);
      BindFinal(s[n..], names, env, params);
      if StartsPlaceholder(s) {
        BindPlaceholder(s, names, env, params);
      } else {
        BindVerbatim(s, names, params);
      }
    }
  }

  // ---- names found and names bound

  lemma {:induction false} FoundNamesCover(s: string, before: seq<string>)
    requires Distinct(before)
    ensures NamesCover(s, Names(s, before))
    decreases |s|
  {
    if s != [] {
      hide PieceLen, Names, Distinct, AddName;
      var n := PieceLen(s);
      if StartsPlaceholder(s) {
        PlaceholderHead(s, before);
        var more := AddName(before, s[1..n]);
        AddedName(before, s[1..n]);
        FoundNamesCover(s[n..], more);
        NamesExtend(s[n..], more);
      } else {
        VerbatimHead(s, before);
        FoundNamesCover(s[n..], before);
      }
    }
  }

  lemma AddedName(before: seq<string>, x: string)
    requires Distinct(before)
    ensures Distinct(AddName(before, x)) && x in AddName(before, x)
  {
  }

  lemma NamesExtend(s: string, before: seq<string>)
    requires Distinct(before)
    ensures forall x :: x in before ==> x in Names(s, before)
  {
    CollectExtends(Pieces(s), before);
  }

  lemma {:induction false} CoveredAreBound(s: string, names: seq<string>, env: Env)
    requires NamesCover(s, names) && forall x :: x in names ==> Bound(env, x)
    ensures AllBound(s, env)
    decreases |s|
  {
    hide PieceLen;
    if s != [] { CoveredAreBound(s[PieceLen(s)..], names, env); }
  }

  lemma ResolvedIsReady(sql: string, env: Env, params: seq<Value>)
    requires IsResolved(Names(sql, []), env, params)
    ensures AllBound(sql, env) && NamesCover(sql, Names(sql, []))
    ensures Output(sql, []) == Final(sql, Names(sql, []))
  {
    FoundNamesCover(sql, []);
    CoveredAreBound(sql, Names(sql, []), env);
    OutputReplacesPlaceholders(sql);
  }

  /** Rewriting, resolving names and binding equals putting each value's literal in
      the place of its placeholder: inserted text is never read again, and an index
      of several digits is read whole. */
  lemma PipelineSubstitutes(sql: string, env: Env, params: seq<Value>)
    requires IsResolved(Names(sql, []), env, params) && Inert(sql)
    ensures AllBound(sql, env) && Bind(Output(sql, []), params) == Ok(Direct(sql, env))
  {
    ResolvedIsReady(sql, env, params);
    BindFinal(sql, Names(sql, []), env, params);
  }

  /** The three steps as the callers run them. */
  method RewriteAndBind(sql: string, env: Env) returns (r: Result<string>)
    ensures !AllBound(sql, env) ==> r == Err
    ensures AllBound(sql, env) && Inert(sql) ==> r == Ok(Direct(sql, env))
  {
    var text, names := RewriteNamedParams(sql);
    var values := BindNamedParams(names, env);
    if values.Err? {
      var i :| 0 <= i < |names| && !Bound(env, names[i]);
      if AllBound(sql, env) { BoundCoversNames(sql, [], env, names[i]); }
      return Err;
    }
    ResolvedIsReady(sql, env, values.value);
    if Inert(sql) { PipelineSubstitutes(sql, env, values.value); }
    r := BindParamsString(text, values.value);
  }

  lemma {:induction false} BoundCoversNames(s: string, before: seq<string>, env: Env, x: string)
    requires AllBound(s, env) && x in Names(s, before)
    ensures x in before || Bound(env, x)
    decreases |s|
  {
    if s != [] {
      hide PieceLen, Names;
      var n := PieceLen(s);
      if StartsPlaceholder(s) {
        PlaceholderHead(s, before);
        BoundCoversNames(s[n..], AddName(before, s[1..n]), env, x);
      } else {
        VerbatimHead(s, before);
        BoundCoversNames(s[n..], before, env, x);
      }
    }
  }

  // ---- a stray `$` always shows

  function Lead(s: string): (n: nat)
    ensures n <= |s| && (n < |s| ==> s[n] != '$')
  {
    if s == [] || s[0] != '$' then 0 else 1 + Lead(s[1..])
  }

  predicate DigitAfterRun(s: string) {
    Lead(s) < |s| && IsDigit(s[Lead(s)])
  }

  ghost predicate AllTexts(params: seq<Value>) {
    forall i :: 0 <= i < |params| ==> params[i].Text?
  }

  /** Binding texts halves a run of `$`. */
  lemma {:induction false} BindHalvesRun(x: string, params: seq<Value>)
    requires AllTexts(params) && Bind(x, params).Ok?
    ensures var z := Bind(x, params).value;
            && Lead(z) <= (Lead(x) + 1) / 2
            && (DigitAfterRun(x) ==> Lead(z) <= Lead(x) / 2)
    decreases |x|
  {
    if x != [] && x[0] == '$' {
      if |x| > 1 && x[1] == '$' {
        assert x[1..][1..] == x[2..];
        BindHalvesRun(x[2..], params);
        var z := Bind(x, params).value;
        assert z[1..] == Bind(x[2..], params).value;
      } else if |x| == 1 || !IsDigit(x[1]) {
        BindHalvesRun(x[1..], params);
        var z := Bind(x, params).value;
        assert z[1..] == Bind(x[1..], params).value;
      }
    }
  }

  /** `y` keeps the leading run of `x`, except for a last `$` with digits after it. */
  predicate KeepsRun(x: string, y: string) {
    Lead(y) + 1 >= Lead(x) && (!DigitAfterRun(x) ==> Lead(y) >= Lead(x))
  }

  lemma {:induction false} KeepsRunPrefix(t: string, x: string, y: string)
    requires KeepsRun(x, y)
    ensures KeepsRun(t + x, t + y)
    decreases t
  {
    if t == [] {
      assert t + x == x && t + y == y;
    } else {
      assert (t + x)[1..] == t[1..] + x && (t + y)[1..] == t[1..] + y;
      KeepsRunPrefix(t[1..], x, y);
    }
  }

  ghost predicate AllText(env: Env) {
    forall i :: 0 <= i < |env| ==> env[i].1.Text?
  }

  lemma {:induction false} LookupText(env: Env, name: string)
    requires AllText(env) && Bound(env, name)
    ensures Lookup(env, name).Text?
    decreases env
  {
    if env[0].0 != name {
      var i :| 0 <= i < |env| && env[i].0 == name;
      assert env[1..][i - 1] == env[i];
      LookupText(env[1..], name);
    }
  }

  lemma PositionalRun(k: nat, tail: string)
    ensures Lead(PositionalAt(k) + tail) == 1 && DigitAfterRun(PositionalAt(k) + tail)
  {
    var s := PositionalAt(k) + tail;
    assert s[0] == '$' && s[1] == Dec(k)[0] && Dec(k)[0] in Dec(k);
    assert s[1..] != [] && s[1..][0] == s[1];
  }

  lemma {:induction false} DirectKeepsRun(s: string, names: seq<string>, env: Env)
    requires AllBound(s, env) && AllText(env)
    ensures KeepsRun(Final(s, names), Direct(s, env))
    decreases |s|
  {
    if s != [] {
      hide PieceLen, Final, KeepsRun;
      var n := PieceLen(s);
      FinalHead(s, names);
      if StartsPlaceholder(s) {
        PlaceholderKeepsRun(s, names, env);
      } else {
        DirectKeepsRun(s[n..], names, env);
        KeepsRunPrefix(s[..n], Final(s[n..], names), Direct(s[n..], env));
      }
    }
  }

  lemma PlaceholderKeepsRun(s: string, names: seq<string>, env: Env)
    requires AllBound(s, env) && AllText(env) && StartsPlaceholder(s)
    ensures KeepsRun(Final(s, names), Direct(s, env))
  {
    hide PieceLen, Final;
    FinalHead(s, names);
    var n := PieceLen(s);
    PositionalRun(IndexOf(names, s[1..n]) + 1, Final(s[n..], names));
    LookupText(env, s[1..n]);
  }

  lemma PairDiffers(x: string, y: string, params: seq<Value>)
    requires AllTexts(params) && x != [] && x[0] == '$' && y != [] && y[0] in {'$', '\''} && KeepsRun(x, y)
    ensures Bind(x[1..], params) != Ok(y)
  {
    var x1 := x[1..];
    if Bind(x1, params).Ok? {
      BindHalvesRun(x1, params);
      if Lead(x1) == 0 && DigitAfterRun(x1) {
        assert Bind(x1, params).value[0] == x1[0];
      }
    }
  }

  lemma StrayDollarDiffers(x: string, y: string, params: seq<Value>)
    requires AllTexts(params) && x != [] && Active(x[0]) && (x[0] == '$' ==> y != [] && y[0] in {'$', '\''} && KeepsRun(x, y))
    ensures Bind("$" + x, params) != Ok("$" + y)
  {
    var s := "$" + x;
    assert s[0] == '$' && s[1] == x[0] && s[1..] == x && s[2..] == x[1..];
    if x[0] == '$' {
      PairDiffers(x, y, params);
      PrependDiffers("$", Bind(x[1..], params), y);
    } else if Bind(s, params).Ok? {
      assert Bind(s, params).value[0] != '$';
    }
  }

  lemma PrependDiffers(a: string, r: Result<string>, b: string)
    requires r != Ok(b)
    ensures Prepend(a, r) != Ok(a + b)
  {
    if r.Ok? {
      assert (a + r.value)[|a|..] == r.value && (a + b)[|a|..] == b;
    }
  }

  lemma StrayTextDiffers(t: string, j: nat, tail: string, r: string, d: string, params: seq<Value>)
    requires j < |t| && !InertAt(t, tail, j) && forall i :: 0 <= i < j ==> InertAt(t, tail, i)
    requires AllTexts(params) && KeepsRun(r, d) && (tail != [] ==> r != [] && d != [])
    requires tail != [] ==> if StartsPlaceholder(tail) then r[0] == '$' && d[0] == '\'' else r[0] == d[0] == tail[0]
    ensures Bind(t + r, params) != Ok(t + d)
  {
    hide Bind, KeepsRun;
    var x, y := t[j + 1..] + r, t[j + 1..] + d;
    KeepsRunPrefix(t[j + 1..], r, d);
    assert x != [] && Active(x[0]) && (x[0] == '$' ==> y != [] && y[0] in {'$', '\''});
    StrayDollarDiffers(x, y, params);
    CopiedFront(t, j, r, tail, params);
    PrependDiffers(t[..j], Bind("$" + x, params), "$" + y);
    assert t + d == t[..j] + ("$" + y);
  }

  lemma StrayPieceDiffers(s: string, j: nat, names: seq<string>, env: Env, params: seq<Value>)
    requires s != [] && !StartsPlaceholder(s) && AllBound(s, env) && AllText(env) && AllTexts(params)
    requires j < PieceLen(s) && !InertAt(s[..PieceLen(s)], s[PieceLen(s)..], j)
    requires forall i :: 0 <= i < j ==> InertAt(s[..PieceLen(s)], s[PieceLen(s)..], i)
    ensures Bind(Final(s, names), params) != Ok(Direct(s, env))
  {
    hide PieceLen, Final, Bind, KeepsRun, InertAt;
    var n := PieceLen(s);
    var tail := s[n..];
    FinalHead(s, names);
    FinalSucceeds(tail, names);
    DirectKeepsRun(tail, names, env);
    if tail != [] { DirectFirst(tail, env); }
    StrayTextDiffers(s[..n], j, tail, Final(tail, names), Direct(tail, env), params);
  }

  lemma DirectFirst(s: string, env: Env)
    requires AllBound(s, env) && AllText(env) && s != []
    ensures Direct(s, env) != []
    ensures Direct(s, env)[0] == if StartsPlaceholder(s) then '\'' else s[0]
  {
    hide PieceLen;
    if StartsPlaceholder(s) { LookupText(env, s[1..PieceLen(s)]); }
  }

  lemma CopiedFront(t: string, j: nat, r: string, tail: string, params: seq<Value>)
    requires j < |t| && t[j] == '$' && forall i :: 0 <= i < j ==> InertAt(t, tail, i)
    ensures Bind(t + r, params) == Prepend(t[..j], Bind("$" + (t[j + 1..] + r), params))
  {
    var front, back := t[..j], "$" + (t[j + 1..] + r);
    assert t + r == front + back;
    forall i | 0 <= i < |front| && front[i] == '$'
      ensures i + 1 >= |front + back| || !Active((front + back)[i + 1])
    {
      assert InertAt(t, tail, i) && (front + back)[i + 1] == t[i + 1];
    }
    BindCopies(front, back, params);
  }

  lemma {:induction false} StrayDiffers(s: string, names: seq<string>, env: Env, params: seq<Value>)
    requires IsResolved(names, env, params) && NamesCover(s, names) && AllBound(s, env) && AllText(env)
    requires !Inert(s) && AllTexts(params)
    ensures Bind(Final(s, names), params) != Ok(Direct(s, env))
    decreases |s|
  {
    hide PieceLen, Final, Bind, InertText;
    var n := PieceLen(s);
    if StartsPlaceholder(s) {
      StrayDiffers(s[n..], names, env, params);
      BindPlaceholder(s, names, env, params);
      PrependDiffers(EscapeSqlValue(Lookup(env, s[1..n])), Bind(Final(s[n..], names), params), Direct(s[n..], env));
    } else if InertText(s[..n], s[n..]) {
      StrayDiffers(s[n..], names, env, params);
      BindVerbatim(s, names, params);
      PrependDiffers(s[..n], Bind(Final(s[n..], names), params), Direct(s[n..], env));
    } else {
      var j := FirstStray(s[..n], s[n..]);
      StrayPieceDiffers(s, j, names, env, params);
    }
  }

  lemma FirstStray(t: string, tail: string) returns (j: nat)
    requires !InertText(t, tail)
    ensures j < |t| && !InertAt(t, tail, j) && forall i :: 0 <= i < j ==> InertAt(t, tail, i)
  {
    j := 0;
    while InertAt(t, tail, j)
      invariant j < |t| && forall i :: 0 <= i < j ==> InertAt(t, tail, i)
      decreases |t| - j
    {
      j := j + 1;
    }
  }

  function EmptyTexts(names: seq<string>): Env {
    seq(|names|, i requires 0 <= i < |names| => (names[i], Text("")))
  }

  /** The pipeline is direct substitution for every binding of the names exactly when
      no `$` outside a `$name` placeholder is followed by `$`, a digit or a placeholder. */
  lemma PipelineSubstitutesIff(sql: string)
    ensures Inert(sql) <==>
            forall env: Env, params: seq<Value> :: IsResolved(Names(sql, []), env, params) ==>
              AllBound(sql, env) && Bind(Output(sql, []), params) == Ok(Direct(sql, env))
  {
    if Inert(sql) {
      forall env: Env, params: seq<Value> | IsResolved(Names(sql, []), env, params)
        ensures AllBound(sql, env) && Bind(Output(sql, []), params) == Ok(Direct(sql, env))
      {
        PipelineSubstitutes(sql, env, params);
      }
    } else {
      var names := Names(sql, []);
      var env := EmptyTexts(names);
      forall i | 0 <= i < |names| ensures Bound(env, names[i]) { assert env[i].0 == names[i]; }
      var params := seq(|names|, i requires 0 <= i < |names| => Lookup(env, names[i]));
      ResolvedIsReady(sql, env, params);
      forall i | 0 <= i < |params| ensures params[i].Text? { LookupText(env, names[i]); }
      StrayDiffers(sql, names, env, params);
    }
  }

  // ---- inserted literals

  lemma QuoteLenCons(c: char, more: string)
    ensures c != '\'' ==> QuoteLen([c] + more) == 1 + QuoteLen(more)
    ensures QuoteLen("''" + more) == 2 + QuoteLen(more)
    ensures (more == [] || more[0] != '\'') ==> QuoteLen("'" + more) == 1
  {
    assert ([c] + more)[1..] == more && ("''" + more)[2..] == more;
  }

  lemma {:induction false} QuoteLenOfDoubled(t: string, rest: string)
    requires rest == [] || rest[0] != '\''
    ensures QuoteLen(Doubled(t) + "'" + rest) == |Doubled(t)| + 1
    decreases t
  {
    hide QuoteLen;
    if t == [] {
      QuoteLenCons('\'', rest);
      assert Doubled(t) + "'" + rest == "'" + rest;
    } else {
      QuoteLenOfDoubled(t[1..], rest);
      QuoteLenCons(t[0], Doubled(t[1..]) + "'" + rest);
      Regroup(if t[0] == '\'' then "''" else [t[0]], Doubled(t[1..]), "'", rest);
    }
  }

  lemma Regroup(a: string, b: string, c: string, d: string)
    ensures a + b + c + d == a + (b + c + d)
  {
  }

  /** A text value inserted into a statement is one literal to the scanner, whatever
      quotes, comment marks or placeholders it holds. */
  lemma LiteralIsOnePiece(t: string, rest: string)
    requires rest == [] || rest[0] != '\''
    ensures var literal := EscapeSqlValue(Text(t));
            !StartsPlaceholder(literal + rest) && PieceLen(literal + rest) == |literal|
  {
    var literal := EscapeSqlValue(Text(t));
    assert (literal + rest)[0] == '\'';
    assert (literal + rest)[1..] == Doubled(t) + "'" + rest;
    QuoteLenOfDoubled(t, rest);
  }
}

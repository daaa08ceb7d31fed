/** Trimming text and cutting it into search tokens. */
module Tokenizer {
  import opened AsciiCase

  /** Unicode white space. */
  predicate IsWhitespace(c: char) {
    var n := c as int;
    || 0x09 <= n <= 0x0D || n == 0x20 || n == 0x85 || n == 0xA0 || n == 0x1680 || 0x2000 <= n <= 0x200A
    || n == 0x2028 || n == 0x2029 || n == 0x202F || n == 0x205F || n == 0x3000
  }

  function TrimStart(s: string): string {
    if s != [] && IsWhitespace(s[0]) then TrimStart(s[1..]) else s
  }

  function TrimEnd(s: string): string {
    if s != [] && IsWhitespace(s[|s| - 1]) then TrimEnd(s[..|s| - 1]) else s
  }

  function Trim(s: string): string { TrimEnd(TrimStart(s)) }

  predicate IsAsciiPunctuation(c: char) {
    var n := c as int;
    0x21 <= n <= 0x2F || 0x3A <= n <= 0x40 || 0x5B <= n <= 0x60 || 0x7B <= n <= 0x7E
  }

  predicate IsSeparator(c: char) { IsWhitespace(c) || IsAsciiPunctuation(c) }

  /** The pieces between separators; there is one more piece than separators. */
  function Split(s: string): (r: seq<string>)
    ensures r != []
  {
    if s == [] then [[]]
    else
      var rest := Split(s[1..]);
      if IsSeparator(s[0]) then [[]] + rest else [[s[0]] + rest[0]] + rest[1..]
  }

  function LowerNonEmpty(pieces: seq<string>): seq<string> {
    if pieces == [] then []
    else (if pieces[0] == [] then [] else [Lower(pieces[0])]) + LowerNonEmpty(pieces[1..])
  }

  function Tokenize(s: string): seq<string> { LowerNonEmpty(Split(s)) }

  // ---- tokens are the maximal runs without a separator

  ghost predicate IsRun(s: string, i: nat, j: nat) {
    && i < j <= |s|
    && (i == 0 || IsSeparator(s[i - 1]))
    && (j == |s| || IsSeparator(s[j]))
    && forall k :: i <= k < j ==> !IsSeparator(s[k])
  }

  ghost predicate RunFrom(s: string, from: nat, p: string) {
    exists i: nat, j: nat :: from <= i && IsRun(s, i, j) && s[i..j] == p
  }

  function FirstSeparator(s: string): (k: nat)
    ensures k <= |s| && (k < |s| ==> IsSeparator(s[k]))
    ensures forall i :: 0 <= i < k ==> !IsSeparator(s[i])
  {
    if s == [] || IsSeparator(s[0]) then 0 else 1 + FirstSeparator(s[1..])
  }

  lemma {:induction false} FirstPiece(s: string)
    ensures Split(s)[0] == s[..FirstSeparator(s)]
  {
    if s != [] && !IsSeparator(s[0]) { FirstPiece(s[1..]); }
  }

  lemma RunShift(s: string, i: nat, j: nat)
    requires 1 <= i && i < j <= |s|
    ensures IsRun(s, i, j) ==> IsRun(s[1..], i - 1, j - 1)
    ensures IsRun(s[1..], i - 1, j - 1) && (i == 1 ==> IsSeparator(s[0])) ==> IsRun(s, i, j)
    ensures s[i..j] == s[1..][i - 1..j - 1]
  {
    hide IsSeparator;
    var t := s[1..];
    assert forall k :: 0 <= k < |t| ==> t[k] == s[k + 1];
    assert i > 1 ==> t[i - 2] == s[i - 1];
    assert j < |s| ==> t[j - 1] == s[j];
    if IsRun(s, i, j) {
      forall k | i - 1 <= k < j - 1 ensures !IsSeparator(t[k]) { assert t[k] == s[k + 1]; }
    }
    if IsRun(t, i - 1, j - 1) {
      forall k | i <= k < j ensures !IsSeparator(s[k]) { assert t[k - 1] == s[k]; }
    }
  }

  /** Runs of `s` from index 1 on, seen from the tail. */
  lemma RunsOfTail(s: string, p: string)
    requires s != []
    ensures RunFrom(s, 1, p) <==> RunFrom(s[1..], if IsSeparator(s[0]) then 0 else 1, p)
  {
    hide IsSeparator;
    var from := if IsSeparator(s[0]) then 0 else 1;
    if i: nat, j: nat :| 1 <= i && IsRun(s, i, j) && s[i..j] == p {
      RunShift(s, i, j);
      assert from <= i - 1 && IsRun(s[1..], i - 1, j - 1);
    }
    if i: nat, j: nat :| from <= i && IsRun(s[1..], i, j) && s[1..][i..j] == p {
      RunShift(s, i + 1, j + 1);
      assert 1 <= i + 1 && IsRun(s, i + 1, j + 1);
    }
  }

  lemma FirstRun(s: string, p: string)
    ensures RunFrom(s, 0, p) <==> RunFrom(s, 1, p) || (p != [] && p == s[..FirstSeparator(s)])
  {
    hide IsSeparator;
    var k := FirstSeparator(s);
    if i: nat, j: nat :| 0 <= i && IsRun(s, i, j) && s[i..j] == p && i == 0 {
      assert j == k;
    }
    if p != [] && p == s[..k] {
      assert IsRun(s, 0, k) && s[0..k] == p;
    }
  }

  lemma {:induction false} PiecesAreRuns(s: string, p: string)
    requires p != []
    ensures p in Split(s)[1..] <==> RunFrom(s, 1, p)
  {
    hide IsSeparator;
    if s != [] {
      var t := s[1..];
      PiecesAreRuns(t, p);
      RunsOfTail(s, p);
      var rest := Split(t);
      if IsSeparator(s[0]) {
        assert Split(s)[1..] == rest && rest == [rest[0]] + rest[1..];
        FirstPiece(t);
        FirstRun(t, p);
      } else {
        assert Split(s)[1..] == rest[1..];
      }
    }
  }

  lemma {:induction false} NonEmptyPieces(pieces: seq<string>, token: string)
    ensures token in LowerNonEmpty(pieces) <==> exists p :: p in pieces && p != [] && Lower(p) == token
    decreases pieces
  {
    hide Lower;
    if pieces != [] {
      var first, rest := pieces[0], pieces[1..];
      NonEmptyPieces(rest, token);
      forall p ensures p in pieces <==> p == first || p in rest { assert pieces == [first] + rest; }
      if first != [] && Lower(first) == token { assert first in pieces; }
    }
  }

  /** A token of a text is a maximal separator-free run of it, lower-cased. */
  lemma TokensAreRuns(s: string, token: string)
    ensures token in Tokenize(s) <==> exists i: nat, j: nat :: IsRun(s, i, j) && Lower(s[i..j]) == token
  {
    hide IsSeparator;
    var pieces := Split(s);
    NonEmptyPieces(pieces, token);
    assert pieces == [pieces[0]] + pieces[1..];
    FirstPiece(s);
    forall p | p != [] ensures p in pieces <==> RunFrom(s, 0, p) {
      PiecesAreRuns(s, p);
      FirstRun(s, p);
    }
    if i: nat, j: nat :| IsRun(s, i, j) && Lower(s[i..j]) == token {
      assert RunFrom(s, 0, s[i..j]);
    }
  }

  // ---- and they come in order

  function EndFrom(s: string, from: nat): (k: nat)
    requires from <= |s|
    ensures from <= k <= |s| && (k < |s| ==> IsSeparator(s[k])) && forall i :: from <= i < k ==> !IsSeparator(s[i])
    decreases |s| - from
  {
    if from == |s| || IsSeparator(s[from]) then from else EndFrom(s, from + 1)
  }

  /** The positions of all runs, from left to right. */
  function Runs(s: string, from: nat): seq<(nat, nat)>
    requires from <= |s|
    decreases |s| - from
  {
    var k := EndFrom(s, from);
    (if k > from then [(from, k)] else []) + if k < |s| then Runs(s, k + 1) else []
  }

  function TextOf(s: string, run: (nat, nat)): string { if run.0 <= run.1 <= |s| then s[run.0..run.1] else "" }

  function TokensOf(s: string, runs: seq<(nat, nat)>): seq<string> {
    if runs == [] then [] else [Lower(TextOf(s, runs[0]))] + TokensOf(s, runs[1..])
  }

  lemma {:induction false} SplitFrom(s: string, from: nat)
    requires from <= |s|
    ensures var k := EndFrom(s, from); Split(s[from..]) == if k == |s| then [s[from..]] else [s[from..k]] + Split(s[k + 1..])
    decreases |s| - from
  {
    hide IsSeparator;
    if from < |s| {
      var k, t := EndFrom(s, from), s[from..];
      assert t[0] == s[from] && t[1..] == s[from + 1..];
      if IsSeparator(s[from]) {
        assert s[from..k] == [];
      } else {
        SplitFrom(s, from + 1);
        assert [s[from]] + s[from + 1..k] == s[from..k];
        assert [s[from]] + s[from + 1..] == s[from..];
      }
    }
  }

  lemma LowerNonEmptyCons(p: string, pieces: seq<string>)
    ensures LowerNonEmpty([p] + pieces) == (if p == [] then [] else [Lower(p)]) + LowerNonEmpty(pieces)
  {
    assert ([p] + pieces)[1..] == pieces;
  }

  /** What follows the first run from here. */
  function RunsAfter(s: string, k: nat): seq<(nat, nat)>
    requires k <= |s|
  {
    if k < |s| then Runs(s, k + 1) else []
  }

  lemma RunsUnfold(s: string, from: nat)
    requires from <= |s|
    ensures var k := EndFrom(s, from);
            if k == from then Runs(s, from) == RunsAfter(s, k)
            else Runs(s, from) == [(from, k)] + RunsAfter(s, k)
  {
    hide EndFrom;
    var rest := RunsAfter(s, EndFrom(s, from));
    assert [] + rest == rest;
  }

  lemma TokensOfCons(s: string, run: (nat, nat), runs: seq<(nat, nat)>)
    ensures TokensOf(s, [run] + runs) == [Lower(TextOf(s, run))] + TokensOf(s, runs)
  {
    hide Lower, TextOf;
    assert ([run] + runs)[1..] == runs;
  }

  /** The tokens from a position on: that of the first run, and those after it. */
  lemma TokenizeFrom(s: string, from: nat)
    requires from <= |s|
    ensures var k := EndFrom(s, from);
            Tokenize(s[from..]) == (if s[from..k] == [] then [] else [Lower(s[from..k])]) + (if k < |s| then Tokenize(s[k + 1..]) else [])
  {
    hide EndFrom, Lower, Split, LowerNonEmpty;
    var k := EndFrom(s, from);
    SplitFrom(s, from);
    if k < |s| {
      LowerNonEmptyCons(s[from..k], Split(s[k + 1..]));
    } else {
      LowerNonEmptyCons(s[from..], []);
      NoPieces();
      assert [s[from..]] + [] == [s[from..]] && s[from..k] == s[from..];
    }
  }

  lemma {:induction false} TokensFrom(s: string, from: nat)
    requires from <= |s|
    ensures Tokenize(s[from..]) == TokensOf(s, Runs(s, from))
    decreases |s| - from
  {
    hide EndFrom, Lower, Tokenize, Runs, TokensOf;
    var k := EndFrom(s, from);
    TokenizeFrom(s, from);
    RunsUnfold(s, from);
    var rest := if k < |s| then Tokenize(s[k + 1..]) else [];
    NoTokens(s);
    if k < |s| { TokensFrom(s, k + 1); }
    if k == from {
      assert s[from..k] == [] && [] + rest == rest;
    } else {
      TokensOfCons(s, (from, k), RunsAfter(s, k));
    }
  }

  lemma NoTokens(s: string)
    ensures TokensOf(s, []) == []
  {
  }

  lemma NoPieces()
    ensures LowerNonEmpty([]) == []
  {
  }

  ghost predicate Ascending(runs: seq<(nat, nat)>) {
    forall a, b :: 0 <= a < b < |runs| ==> runs[a].1 < runs[b].0
  }

  lemma {:induction false} RunsAreRuns(s: string, from: nat)
    requires from <= |s| && (from == 0 || IsSeparator(s[from - 1]))
    ensures forall a :: 0 <= a < |Runs(s, from)| ==> from <= Runs(s, from)[a].0 && IsRun(s, Runs(s, from)[a].0, Runs(s, from)[a].1)
    decreases |s| - from
  {
    hide IsSeparator, EndFrom, Runs;
    var k := EndFrom(s, from);
    RunsUnfold(s, from);
    if k < |s| { RunsAreRuns(s, k + 1); }
    assert k > from ==> IsRun(s, from, k);
  }

  lemma {:induction false} RunsAscend(s: string, from: nat)
    requires from <= |s| && (from == 0 || IsSeparator(s[from - 1]))
    ensures Ascending(Runs(s, from))
    decreases |s| - from
  {
    hide IsSeparator, IsRun, EndFrom, Runs;
    var k := EndFrom(s, from);
    RunsUnfold(s, from);
    if k < |s| {
      RunsAscend(s, k + 1);
      RunsAreRuns(s, k + 1);
    }
  }

  lemma {:induction false} RunsHaveAll(s: string, from: nat, r: (nat, nat))
    requires from <= |s| && from <= r.0 && IsRun(s, r.0, r.1)
    ensures r in Runs(s, from)
    decreases |s| - from
  {
    hide IsSeparator, EndFrom, Runs;
    var k := EndFrom(s, from);
    RunsUnfold(s, from);
    if r.0 > k {
      RunsHaveAll(s, k + 1, r);
    } else {
      RunStartsHere(s, from, r);
      assert r == (from, k);
    }
  }

  lemma RunStartsHere(s: string, from: nat, r: (nat, nat))
    requires from <= |s| && from <= r.0 && IsRun(s, r.0, r.1) && r.0 <= EndFrom(s, from)
    ensures r.0 == from && r.1 == EndFrom(s, from)
  {
    hide IsSeparator;
    assert !IsSeparator(s[r.0]);
  }

  /** The tokens are the texts of all maximal runs, each once, from left to right, lower-cased. */
  lemma TokensInOrder(s: string)
    ensures Tokenize(s) == TokensOf(s, Runs(s, 0)) && Ascending(Runs(s, 0))
    ensures forall r: (nat, nat) :: r in Runs(s, 0) <==> IsRun(s, r.0, r.1)
  {
    hide IsRun, Runs, Tokenize, TokensOf, Ascending;
    assert s[0..] == s;
    TokensFrom(s, 0);
    RunsAreRuns(s, 0);
    RunsAscend(s, 0);
    forall r: (nat, nat) | IsRun(s, r.0, r.1) ensures r in Runs(s, 0) { RunsHaveAll(s, 0, r); }
  }
}

/** SQL LIKE without an escape character. */
module Like {
  import opened Lex

  const PERCENT: Scalar := 0x25
  const UNDERSCORE: Scalar := 0x5F

  /** `%` tries every split of the text, the other symbols take one character. */
  function LikeMatch(text: seq<Scalar>, pattern: seq<Scalar>): bool
    decreases |pattern|
  {
    if pattern == [] then text == []
    else if pattern[0] == PERCENT then exists i :: 0 <= i <= |text| && LikeMatch(text[i..], pattern[1..])
    else if text == [] then false
    else if pattern[0] == UNDERSCORE then LikeMatch(text[1..], pattern[1..])
    else text[0] == pattern[0] && LikeMatch(text[1..], pattern[1..])
  }

  // ---- what matching means

  function Joined(pieces: seq<seq<Scalar>>): seq<Scalar> {
    if pieces == [] then [] else pieces[0] + Joined(pieces[1..])
  }

  /** What one pattern symbol stands for. */
  predicate Fits(symbol: Scalar, piece: seq<Scalar>) {
    if symbol == '%' as int then true
    else if symbol == '_' as int then |piece| == 1
    else piece == [symbol]
  }

  /** The pieces cut up the text, one per pattern symbol. */
  ghost predicate Splits(text: seq<Scalar>, pattern: seq<Scalar>, pieces: seq<seq<Scalar>>) {
    && |pieces| == |pattern| && Joined(pieces) == text
    && forall i :: 0 <= i < |pattern| ==> Fits(pattern[i], pieces[i])
  }

  lemma {:induction false} MatchGivesSplit(text: seq<Scalar>, pattern: seq<Scalar>) returns (pieces: seq<seq<Scalar>>)
    requires LikeMatch(text, pattern)
    ensures Splits(text, pattern, pieces)
    decreases |pattern|
  {
    if pattern == [] {
      pieces := [];
    } else {
      var n := 1;
      if pattern[0] == PERCENT {
        var i :| 0 <= i <= |text| && LikeMatch(text[i..], pattern[1..]);
        n := i;
      }
      var rest := MatchGivesSplit(text[n..], pattern[1..]);
      pieces := [text[..n]] + rest;
      assert pieces[1..] == rest && text[..n] + text[n..] == text;
      forall i | 0 <= i < |pattern| ensures Fits(pattern[i], pieces[i]) {
        if i > 0 { assert pattern[i] == pattern[1..][i - 1]; }
      }
    }
  }

  /** A piece that fits the first symbol, then a match of the rest. */
  lemma MatchCons(text: seq<Scalar>, pattern: seq<Scalar>, n: nat)
    requires pattern != [] && n <= |text| && Fits(pattern[0], text[..n]) && LikeMatch(text[n..], pattern[1..])
    ensures LikeMatch(text, pattern)
  {
    hide LikeMatch;
    if pattern[0] == PERCENT {
      PercentTakes(text, pattern, n);
    } else {
      SymbolTakes(text, pattern);
    }
  }

  lemma PercentTakes(text: seq<Scalar>, pattern: seq<Scalar>, n: nat)
    requires pattern != [] && pattern[0] == PERCENT && n <= |text| && LikeMatch(text[n..], pattern[1..])
    ensures LikeMatch(text, pattern)
  {
    var rest := pattern[1..];
    assert exists i :: 0 <= i <= |text| && LikeMatch(text[i..], rest);
  }

  lemma SymbolTakes(text: seq<Scalar>, pattern: seq<Scalar>)
    requires pattern != [] && pattern[0] != PERCENT && text != [] && LikeMatch(text[1..], pattern[1..])
    requires pattern[0] == UNDERSCORE || text[0] == pattern[0]
    ensures LikeMatch(text, pattern)
  {
  }

  lemma {:induction false} SplitGivesMatch(text: seq<Scalar>, pattern: seq<Scalar>, pieces: seq<seq<Scalar>>)
    requires Splits(text, pattern, pieces)
    ensures LikeMatch(text, pattern)
    decreases |pattern|
  {
    hide LikeMatch;
    if pattern == [] {
      NothingMatches();
    } else {
      var n := |pieces[0]|;
      assert Fits(pattern[0], pieces[0]);
      assert text[..n] == pieces[0] && text[n..] == Joined(pieces[1..]);
      forall i | 0 <= i < |pattern[1..]| ensures Fits(pattern[1..][i], pieces[1..][i]) {
        assert Fits(pattern[i + 1], pieces[i + 1]);
      }
      SplitGivesMatch(text[n..], pattern[1..], pieces[1..]);
      MatchCons(text, pattern, n);
    }
  }

  lemma NothingMatches()
    ensures LikeMatch([], [])
  {
  }

  /** The matcher answers true exactly when the text splits into consecutive pieces,
      one per pattern symbol, each fitting its symbol. */
  lemma LikeMatchIff(text: seq<Scalar>, pattern: seq<Scalar>)
    ensures LikeMatch(text, pattern) <==> exists pieces :: Splits(text, pattern, pieces)
  {
    if LikeMatch(text, pattern) {
      var pieces := MatchGivesSplit(text, pattern);
    }
    forall pieces | Splits(text, pattern, pieces) { SplitGivesMatch(text, pattern, pieces); }
  }
}

/** What a search finds, said of the operations that led to it. */
module FullTextHistory {
  import opened AsciiCase
  import opened Tokenizer
  import opened FullText
  import opened FullTextTheorems

  /** The operation makes what was indexed under this row of this table void. */
  predicate Voids(op: Op, table: string, id: int) {
    SameButCase(op.table, table) && (op.Register? || (op.Delete? && op.id == id))
  }

  /** Operation `j` indexes the row, and none after it voids that. */
  ghost predicate Stands(ops: seq<Op>, j: nat, table: string, id: int) {
    && j < |ops| && ops[j].Index? && SameButCase(ops[j].table, table) && ops[j].id == id
    && forall k :: j < k < |ops| ==> !Voids(ops[k], table, id)
  }

  function TextsAt(ops: seq<Op>, j: nat): seq<string> { if j < |ops| && ops[j].Index? then ops[j].texts else [] }

  /** The text has this word, in any case. */
  ghost predicate HasWord(text: string, word: string) {
    exists a: nat, b: nat :: IsRun(text, a, b) && SameButCase(text[a..b], word)
  }

  ghost predicate StandsWith(ops: seq<Op>, table: string, id: int, word: string) {
    exists j: nat, c: nat :: Stands(ops, j, table, id) && c < |TextsAt(ops, j)| && HasWord(TextsAt(ops, j)[c], word)
  }

  ghost predicate StandsWithAny(ops: seq<Op>, table: string, id: int) {
    exists j: nat, c: nat, a: nat, b: nat :: Stands(ops, j, table, id) && c < |TextsAt(ops, j)| && IsRun(TextsAt(ops, j)[c], a, b)
  }

  // ---- the recorded texts are those that stand

  function DocsAt(log: map<string, seq<Doc>>, table: string): seq<Doc> {
    if Lower(table) in log then log[Lower(table)] else []
  }

  ghost predicate TextStands(ops: seq<Op>, table: string, id: int, token: string) {
    exists j: nat, c: nat :: Stands(ops, j, table, id) && c < |TextsAt(ops, j)| && token in Tokenize(TextsAt(ops, j)[c])
  }

  lemma MentionsNothing(id: int, token: string)
    ensures !Mentions([], id, token)
  {
  }

  lemma DocsMention(id: int, texts: seq<string>, other: int, token: string)
    ensures Mentions(DocsOf(id, texts), other, token) <==> id == other && exists c: nat :: c < |texts| && token in Tokenize(texts[c])
  {
    hide Tokenize;
    if id == other {
      if c: nat :| c < |texts| && token in Tokenize(texts[c]) { assert DocsOf(id, texts)[c] == Doc(id, texts[c]); }
    }
  }

  /** What one more operation does to the recorded mentions. */
  lemma RecordMentions(log: map<string, seq<Doc>>, op: Op, table: string, id: int, token: string)
    ensures Mentions(DocsAt(Record(log, op), table), id, token) <==>
            || (Mentions(DocsAt(log, table), id, token) && !Voids(op, table, id))
            || (op.Index? && SameButCase(op.table, table) && op.id == id && exists c: nat :: c < |op.texts| && token in Tokenize(op.texts[c]))
  {
    hide Tokenize, Mentions, DocsOf, Without, Lower, SameButCase;
    LowerIff(op.table, table);
    MentionsNothing(id, token);
    match op {
      case Register(_, _) =>
      case Index(_, other, texts) =>
        DocsMention(other, texts, id, token);
        MentionsConcat(DocsAt(log, table), DocsOf(other, texts), id, token);
      case Delete(_, other) =>
        WithoutMentions(DocsAt(log, table), other, id, token);
    }
  }

  lemma StandsSnoc(ops: seq<Op>, j: nat, table: string, id: int)
    requires ops != []
    ensures var last := |ops| - 1;
            Stands(ops, j, table, id) <==>
            if j < last then Stands(ops[..last], j, table, id) && !Voids(ops[last], table, id)
            else j == last && ops[last].Index? && SameButCase(ops[last].table, table) && ops[last].id == id
  {
    hide SameButCase;
    var most := ops[..|ops| - 1];
    assert forall k :: 0 <= k < |most| ==> most[k] == ops[k];
  }

  lemma TextStandsSnoc(ops: seq<Op>, table: string, id: int, token: string)
    requires ops != []
    ensures var most, op := ops[..|ops| - 1], ops[|ops| - 1];
            TextStands(ops, table, id, token) <==>
            || (TextStands(most, table, id, token) && !Voids(op, table, id))
            || (op.Index? && SameButCase(op.table, table) && op.id == id && exists c: nat :: c < |op.texts| && token in Tokenize(op.texts[c]))
  {
    hide Stands, Voids, SameButCase, Tokenize;
    var most, last := ops[..|ops| - 1], |ops| - 1;
    if j: nat, c: nat :| Stands(ops, j, table, id) && c < |TextsAt(ops, j)| && token in Tokenize(TextsAt(ops, j)[c]) {
      StandsSnoc(ops, j, table, id);
      assert j < last ==> TextsAt(most, j) == TextsAt(ops, j);
    }
    if j: nat, c: nat :| Stands(most, j, table, id) && c < |TextsAt(most, j)| && token in Tokenize(TextsAt(most, j)[c]) {
      StandsSnoc(ops, j, table, id);
      assert j < last && TextsAt(most, j) == TextsAt(ops, j);
    }
    StandsSnoc(ops, last, table, id);
    assert Stands(ops, last, table, id) ==> TextsAt(ops, last) == ops[last].texts;
    if Stands(ops, last, table, id) {
      if c: nat :| c < |ops[last].texts| && token in Tokenize(ops[last].texts[c]) { assert token in Tokenize(TextsAt(ops, last)[c]); }
    }
  }

  lemma {:induction false} RecordedAreStanding(ops: seq<Op>, table: string, id: int, token: string)
    ensures Mentions(DocsAt(Recorded(ops), table), id, token) <==> TextStands(ops, table, id, token)
    decreases ops
  {
    hide Mentions, Record, Voids, SameButCase, Tokenize, DocsAt;
    if ops == [] {
      NothingRecorded(table, id, token);
    } else {
      RecordedAreStanding(ops[..|ops| - 1], table, id, token);
      RecordMentions(Recorded(ops[..|ops| - 1]), ops[|ops| - 1], table, id, token);
      TextStandsSnoc(ops, table, id, token);
    }
  }

  lemma NothingRecorded(table: string, id: int, token: string)
    ensures !Mentions(DocsAt(map[], table), id, token) && !TextStands([], table, id, token)
  {
  }

  // ---- words

  lemma TokenIsWord(text: string, word: string)
    ensures Lower(word) in Tokenize(text) <==> HasWord(text, word)
  {
    hide IsRun, Tokenize, Lower, SameButCase;
    TokensAreRuns(text, Lower(word));
    forall a: nat, b: nat | IsRun(text, a, b) ensures a <= b <= |text| && (Lower(text[a..b]) == Lower(word) <==> SameButCase(text[a..b], word)) {
      RunInText(text, a, b);
      LowerIff(text[a..b], word);
    }
  }

  lemma RunInText(text: string, a: nat, b: nat)
    requires IsRun(text, a, b)
    ensures a < b <= |text|
  {
  }

  lemma StandsWithIff(ops: seq<Op>, table: string, id: int, word: string)
    ensures Mentions(DocsAt(Recorded(ops), table), id, Lower(word)) <==> StandsWith(ops, table, id, word)
  {
    hide Mentions, DocsAt, Recorded, Stands, Tokenize, HasWord, Lower;
    RecordedAreStanding(ops, table, id, Lower(word));
    forall j: nat, c: nat | c < |TextsAt(ops, j)| ensures Lower(word) in Tokenize(TextsAt(ops, j)[c]) <==> HasWord(TextsAt(ops, j)[c], word) {
      TokenIsWord(TextsAt(ops, j)[c], word);
    }
  }

  lemma StandsWithAnyIff(ops: seq<Op>, table: string, id: int)
    ensures (exists token :: Mentions(DocsAt(Recorded(ops), table), id, token)) <==> StandsWithAny(ops, table, id)
  {
    hide Mentions, DocsAt, Recorded, Stands, Tokenize, Lower, IsRun;
    if token :| Mentions(DocsAt(Recorded(ops), table), id, token) {
      RecordedAreStanding(ops, table, id, token);
      var j: nat, c: nat :| Stands(ops, j, table, id) && c < |TextsAt(ops, j)| && token in Tokenize(TextsAt(ops, j)[c]);
      TokensAreRuns(TextsAt(ops, j)[c], token);
    }
    if j: nat, c: nat, a: nat, b: nat :| Stands(ops, j, table, id) && c < |TextsAt(ops, j)| && IsRun(TextsAt(ops, j)[c], a, b) {
      var text := TextsAt(ops, j)[c];
      RunInText(text, a, b);
      TokensAreRuns(text, Lower(text[a..b]));
      RecordedAreStanding(ops, table, id, Lower(text[a..b]));
    }
  }

  // ---- searches

  ghost predicate NoWords(query: string) { forall a: nat, b: nat :: !IsRun(query, a, b) }

  ghost predicate AllWordsStand(ops: seq<Op>, table: string, query: string, id: int) {
    forall a: nat, b: nat :: IsRun(query, a, b) ==> a <= b <= |query| && StandsWith(ops, table, id, query[a..b])
  }

  /** Some index operation on the row stands with every word of the query, each in any of its
      texts; a query of no words finds every row of which some word stands. */
  ghost predicate IsFound(ops: seq<Op>, table: string, query: string, id: int) {
    if NoWords(query) then StandsWithAny(ops, table, id)
    else AllWordsStand(ops, table, query, id)
  }

  lemma NoTokensIff(query: string)
    ensures Tokenize(query) == [] <==> NoWords(query)
  {
    hide IsRun, Tokenize, Lower;
    if Tokenize(query) != [] {
      var token := Tokenize(query)[0];
      TokensAreRuns(query, token);
    }
    if a: nat, b: nat :| IsRun(query, a, b) {
      RunInText(query, a, b);
      TokensAreRuns(query, Lower(query[a..b]));
    }
  }

  lemma AllTermsIff(ops: seq<Op>, table: string, query: string, id: int)
    requires Tokenize(query) != []
    ensures ScanHit(DocsAt(Recorded(ops), table), Tokenize(query), id)
      <==> AllWordsStand(ops, table, query, id)
  {
    hide IsRun, Tokenize, Lower, Mentions, DocsAt, Recorded, StandsWith;
    var terms := Tokenize(query);
    if forall k :: 0 <= k < |terms| ==> Mentions(DocsAt(Recorded(ops), table), id, terms[k]) {
      forall a: nat, b: nat | IsRun(query, a, b) ensures a <= b <= |query| && StandsWith(ops, table, id, query[a..b]) {
        RunInText(query, a, b);
        TokensAreRuns(query, Lower(query[a..b]));
        StandsWithIff(ops, table, id, query[a..b]);
      }
    }
    if AllWordsStand(ops, table, query, id) {
      forall k | 0 <= k < |terms| ensures Mentions(DocsAt(Recorded(ops), table), id, terms[k]) {
        assert terms[k] in terms;
        TokensAreRuns(query, terms[k]);
        var a: nat, b: nat :| IsRun(query, a, b) && Lower(query[a..b]) == terms[k];
        StandsWithIff(ops, table, id, query[a..b]);
      }
    }
  }

  /** After every run of operations a search finds a row exactly if it is found by that history,
      the table and the words taken in any case. */
  lemma SearchFinds(ops: seq<Op>, table: string, query: string, id: int)
    ensures Lower(table) in Run(ops) && Hit(Run(ops)[Lower(table)], Tokenize(query), id) <==> IsFound(ops, table, query, id)
  {
    hide Tokenize, Lower, Mentions, Recorded, Run, StandsWith, StandsWithAny, NoWords, AllWordsStand, Hit;
    SearchAgreesWithScan(ops, table, query, id);
    NoTokensIff(query);
    if Tokenize(query) != [] { AllTermsIff(ops, table, query, id); }
    StandsWithAnyIff(ops, table, id);
    if Lower(table) in Recorded(ops) {
      var docs := Recorded(ops)[Lower(table)];
      assert docs == DocsAt(Recorded(ops), table);
      assert Hit(Run(ops)[Lower(table)], Tokenize(query), id) <==> ScanHit(docs, Tokenize(query), id);
      if Tokenize(query) == [] {
        assert ScanHit(docs, Tokenize(query), id) <==> StandsWithAny(ops, table, id);
      } else {
        assert ScanHit(docs, Tokenize(query), id) <==> AllWordsStand(ops, table, query, id);
      }
    } else {
      forall token ensures !Mentions(DocsAt(Recorded(ops), table), id, token) { MentionsNothing(id, token); }
      assert Tokenize(query) != [] ==> !Mentions(DocsAt(Recorded(ops), table), id, Tokenize(query)[0]);
    }
  }
}

/** The index against the texts it was given. */
module FullTextTheorems {
  import opened AsciiCase
  import opened Tokenizer
  import opened FullText

  // ---- the recorded texts

  datatype Doc = Doc(id: int, text: string)

  function DocsOf(id: int, texts: seq<string>): seq<Doc> {
    seq(|texts|, i requires 0 <= i < |texts| => Doc(id, texts[i]))
  }

  function Without(docs: seq<Doc>, id: int): seq<Doc> {
    if docs == [] then [] else (if docs[0].id == id then [] else [docs[0]]) + Without(docs[1..], id)
  }

  /** The texts indexed under each table since it was registered and not deleted since. */
  function Record(log: map<string, seq<Doc>>, op: Op): map<string, seq<Doc>> {
    var key := Lower(op.table);
    match op
    case Register(_, _) => log[key := []]
    case Index(_, id, texts) => log[key := (if key in log then log[key] else []) + DocsOf(id, texts)]
    case Delete(_, id) => if key in log then log[key := Without(log[key], id)] else log
  }

  function Recorded(ops: seq<Op>): map<string, seq<Doc>> {
    if ops == [] then map[] else Record(Recorded(ops[..|ops| - 1]), ops[|ops| - 1])
  }

  /** Some recorded text of the row has the token. */
  ghost predicate Mentions(docs: seq<Doc>, id: int, token: string) {
    exists i :: 0 <= i < |docs| && docs[i].id == id && token in Tokenize(docs[i].text)
  }

  /** What a scan over the recorded texts would return. */
  ghost predicate ScanHit(docs: seq<Doc>, terms: seq<string>, id: int) {
    if terms == [] then exists token :: Mentions(docs, id, token)
    else forall k :: 0 <= k < |terms| ==> Mentions(docs, id, terms[k])
  }

  ghost predicate Reflects(m: Postings, docs: seq<Doc>) {
    forall id, token :: id in Posted(m, token) <==> Mentions(docs, id, token)
  }

  ghost predicate AllReflect(ix: Indexes, log: map<string, seq<Doc>>) {
    ix.Keys == log.Keys && forall key :: key in ix ==> Reflects(ix[key], log[key])
  }

  // ---- every operation keeps the index in step with the texts

  lemma {:induction false} PostAllPosts(m: Postings, tokens: seq<string>, id: int, token: string)
    ensures Posted(PostAll(m, tokens, id), token) == Posted(m, token) + if token in tokens then {id} else {}
    decreases tokens
  {
    if tokens != [] {
      var most := tokens[..|tokens| - 1];
      PostAllPosts(m, most, id, token);
      assert tokens == most + [tokens[|tokens| - 1]];
    }
  }

  lemma {:induction false} PostTextsPosts(m: Postings, texts: seq<string>, id: int, token: string)
    ensures Posted(PostTexts(m, texts, id), token)
      == Posted(m, token) + if Mentions(DocsOf(id, texts), id, token) then {id} else {}
    decreases texts
  {
    hide Tokenize, PostAll;
    if texts != [] {
      var last := |texts| - 1;
      var most := texts[..last];
      PostTextsPosts(m, most, id, token);
      PostAllPosts(PostTexts(m, most, id), Tokenize(texts[last]), id, token);
      assert DocsOf(id, texts) == DocsOf(id, most) + [Doc(id, texts[last])];
      MentionsConcat(DocsOf(id, most), [Doc(id, texts[last])], id, token);
      MentionsOne(id, texts[last], id, token);
    }
  }

  lemma MentionsOne(id: int, text: string, other: int, token: string)
    ensures Mentions([Doc(id, text)], other, token) <==> id == other && token in Tokenize(text)
  {
    hide Tokenize;
    var docs := [Doc(id, text)];
    if id == other && token in Tokenize(text) { assert docs[0].id == other; }
  }

  lemma MentionsConcat(a: seq<Doc>, b: seq<Doc>, id: int, token: string)
    ensures Mentions(a + b, id, token) <==> Mentions(a, id, token) || Mentions(b, id, token)
  {
    hide Tokenize;
    if i :| 0 <= i < |a| && a[i].id == id && token in Tokenize(a[i].text) {
      assert (a + b)[i] == a[i];
    }
    if i :| 0 <= i < |b| && b[i].id == id && token in Tokenize(b[i].text) {
      assert (a + b)[|a| + i] == b[i];
    }
  }

  lemma OthersUnmentioned(id: int, texts: seq<string>, other: int, token: string)
    requires id != other
    ensures !Mentions(DocsOf(id, texts), other, token)
  {
  }

  lemma {:induction false} WithoutMentions(docs: seq<Doc>, id: int, other: int, token: string)
    ensures Mentions(Without(docs, id), other, token) <==> id != other && Mentions(docs, other, token)
    decreases docs
  {
    hide Tokenize;
    if docs != [] {
      var head := if docs[0].id == id then [] else [docs[0]];
      assert docs == [docs[0]] + docs[1..];
      WithoutMentions(docs[1..], id, other, token);
      MentionsConcat([docs[0]], docs[1..], other, token);
      MentionsConcat(head, Without(docs[1..], id), other, token);
      MentionsOne(docs[0].id, docs[0].text, other, token);
    }
  }

  lemma IndexReflects(m: Postings, docs: seq<Doc>, id: int, texts: seq<string>)
    requires Reflects(m, docs)
    ensures Reflects(PostTexts(m, texts, id), docs + DocsOf(id, texts))
  {
    hide PostTexts, Mentions, DocsOf;
    forall other, token
      ensures other in Posted(PostTexts(m, texts, id), token) <==> Mentions(docs + DocsOf(id, texts), other, token)
    {
      PostTextsPosts(m, texts, id, token);
      MentionsConcat(docs, DocsOf(id, texts), other, token);
      if other != id { OthersUnmentioned(id, texts, other, token); }
    }
  }

  lemma DeleteReflects(m: Postings, docs: seq<Doc>, id: int)
    requires Reflects(m, docs)
    ensures Reflects(Unpost(m, id), Without(docs, id))
  {
    hide Mentions, Without;
    forall other, token ensures other in Posted(Unpost(m, id), token) <==> Mentions(Without(docs, id), other, token) {
      WithoutMentions(docs, id, other, token);
    }
  }

  lemma StepReflects(ix: Indexes, log: map<string, seq<Doc>>, op: Op)
    requires AllReflect(ix, log)
    ensures AllReflect(Step(ix, op), Record(log, op))
  {
    hide Reflects, Unpost, Without, PostTexts, DocsOf;
    var key := Lower(op.table);
    EmptyReflects();
    match op {
      case Register(_, _) =>
      case Index(_, id, texts) =>
        IndexReflects(if key in ix then ix[key] else map[], if key in log then log[key] else [], id, texts);
      case Delete(_, id) =>
        if key in ix { DeleteReflects(ix[key], log[key], id); }
    }
  }

  lemma EmptyReflects()
    ensures Reflects(map[], [])
  {
  }

  lemma {:induction false} RunReflects(ops: seq<Op>)
    ensures AllReflect(Run(ops), Recorded(ops))
    decreases ops
  {
    if ops != [] {
      hide AllReflect;
      RunReflects(ops[..|ops| - 1]);
      StepReflects(Run(ops[..|ops| - 1]), Recorded(ops[..|ops| - 1]), ops[|ops| - 1]);
    }
  }

  /** After any run of operations, a search hits exactly the rows a scan over the recorded
      texts would. */
  lemma SearchAgreesWithScan(ops: seq<Op>, table: string, query: string, id: int)
    ensures Lower(table) in Run(ops) <==> Lower(table) in Recorded(ops)
    ensures Lower(table) in Run(ops) ==>
      (Hit(Run(ops)[Lower(table)], Tokenize(query), id) <==> ScanHit(Recorded(ops)[Lower(table)], Tokenize(query), id))
  {
    hide Mentions, Tokenize, Run, Recorded;
    RunReflects(ops);
    if Lower(table) in Run(ops) {
      var m, docs := Run(ops)[Lower(table)], Recorded(ops)[Lower(table)];
      assert Reflects(m, docs);
      if token :| id in Posted(m, token) { assert Mentions(docs, id, token); }
      if token :| Mentions(docs, id, token) { assert id in Posted(m, token); }
    }
  }
}

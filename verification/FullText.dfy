/** The in-memory inverted index. */
module FullText {
  import opened AsciiCase
  import opened Tokenizer

  type Postings = map<string, set<int>>

  // ---- what the index operations compute

  function Posted(m: Postings, token: string): set<int> { if token in m then m[token] else {} }

  function Post(m: Postings, token: string, id: int): Postings { m[token := Posted(m, token) + {id}] }

  function PostAll(m: Postings, tokens: seq<string>, id: int): Postings
    decreases tokens
  {
    if tokens == [] then m else Post(PostAll(m, tokens[..|tokens| - 1], id), tokens[|tokens| - 1], id)
  }

  function PostTexts(m: Postings, texts: seq<string>, id: int): Postings
    decreases texts
  {
    if texts == [] then m else PostAll(PostTexts(m, texts[..|texts| - 1], id), Tokenize(texts[|texts| - 1]), id)
  }

  function Unpost(m: Postings, id: int): Postings { map token | token in m :: m[token] - {id} }

  type Indexes = map<string, Postings>

  datatype Op =
    | Register(table: string, columns: seq<string>)
    | Index(table: string, id: int, texts: seq<string>)
    | Delete(table: string, id: int)

  function Step(ix: Indexes, op: Op): Indexes {
    var key := Lower(op.table);
    match op
    case Register(_, _) => ix[key := map[]]
    case Index(_, id, texts) => ix[key := PostTexts(if key in ix then ix[key] else map[], texts, id)]
    case Delete(_, id) => if key in ix then ix[key := Unpost(ix[key], id)] else ix
  }

  function Run(ops: seq<Op>): Indexes {
    if ops == [] then map[] else Step(Run(ops[..|ops| - 1]), ops[|ops| - 1])
  }

  /** A row is a hit if it is posted under every term, or under any token for no terms. */
  ghost predicate Hit(m: Postings, terms: seq<string>, id: int) {
    if terms == [] then exists token :: id in Posted(m, token)
    else forall k :: 0 <= k < |terms| ==> id in Posted(m, terms[k])
  }

  ghost function Members(s: seq<int>): set<int> { set x | x in s }

  ghost predicate StrictlyAscending(s: seq<int>) {
    forall i, j :: 0 <= i < j < |s| ==> s[i] < s[j]
  }

  // ---- the index

  class FtsIndex {
    var indexes: Indexes
    var tables: map<string, seq<string>>

    constructor ()
      ensures indexes == Run([]) && tables == map[]
    {
      indexes, tables := map[], map[];
    }

    method RegisterTable(table: string, columns: seq<string>)
      modifies this
      ensures indexes == Step(old(indexes), Register(table, columns))
      ensures tables == old(tables)[Lower(table) := columns]
    {
      var key := Lower(table);
      indexes := indexes[key := map[]];
      tables := tables[key := columns];
    }

    method IndexRow(table: string, id: int, texts: seq<string>)
      modifies this`indexes
      ensures indexes == Step(old(indexes), Index(table, id, texts))
    {
      hide Tokenize, PostAll;
      var key := Lower(table);
      var start: Postings := if key in indexes then indexes[key] else map[];
      var entry := start;
      for i := 0 to |texts|
        invariant indexes == old(indexes)
        invariant entry == PostTexts(start, texts[..i], id)
      {
        entry := PostTokens(entry, Tokenize(texts[i]), id);
        assert texts[..i + 1][..i] == texts[..i];
      }
      assert texts[..|texts|] == texts;
      indexes := indexes[key := entry];
    }

    method DeleteRow(table: string, id: int)
      modifies this`indexes
      ensures indexes == Step(old(indexes), Delete(table, id))
    {
      var key := Lower(table);
      if key !in indexes { return; }
      var start := indexes[key];
      var entry := start;
      var todo := start.Keys;
      while todo != {}
        invariant indexes == old(indexes)
        invariant entry.Keys == start.Keys && todo <= start.Keys
        invariant forall token :: token in entry ==> entry[token] == if token in todo then start[token] else start[token] - {id}
        decreases todo
      {
        var token :| token in todo;
        entry := entry[token := entry[token] - {id}];
        todo := todo - {token};
      }
      assert entry == Unpost(start, id);
      indexes := indexes[key := entry];
    }

    method Search(table: string, query: string) returns (r: seq<int>)
      ensures StrictlyAscending(r)
      ensures forall id :: id in Members(r) <==> Lower(table) in indexes && Hit(indexes[Lower(table)], Tokenize(query), id)
    {
      var key := Lower(table);
      if key !in indexes { return []; }
      var m := indexes[key];
      var terms := Tokenize(query);
      var found: set<int>;
      if terms == [] {
        found := AllPosted(m);
      } else {
        found := Posted(m, terms[0]);
        for i := 1 to |terms|
          invariant forall id :: id in found <==> forall k :: 0 <= k < i ==> id in Posted(m, terms[k])
        {
          found := if terms[i] in m then found * m[terms[i]] else {};
        }
      }
      r := SortIds(found);
    }
  }

  method PostTokens(m: Postings, tokens: seq<string>, id: int) returns (r: Postings)
    ensures r == PostAll(m, tokens, id)
  {
    r := m;
    for j := 0 to |tokens|
      invariant r == PostAll(m, tokens[..j], id)
    {
      assert tokens[..j + 1][..j] == tokens[..j];
      r := r[tokens[j] := Posted(r, tokens[j]) + {id}];
    }
    assert tokens[..|tokens|] == tokens;
  }

  method AllPosted(m: Postings) returns (all: set<int>)
    ensures forall id :: id in all <==> exists token :: id in Posted(m, token)
  {
    all := {};
    var todo := m.Keys;
    while todo != {}
      invariant todo <= m.Keys
      invariant forall id :: id in all ==> exists token :: id in Posted(m, token)
      invariant forall token, id :: token in m && token !in todo && id in m[token] ==> id in all
      decreases todo
    {
      var token :| token in todo;
      assert Posted(m, token) == m[token];
      all := all + m[token];
      todo := todo - {token};
    }
  }

  method SortIds(ids: set<int>) returns (r: seq<int>)
    ensures StrictlyAscending(r)
    ensures Members(r) == ids
  {
    r := [];
    var todo := ids;
    while todo != {}
      invariant todo <= ids && StrictlyAscending(r)
      invariant Members(r) == ids - todo
      decreases todo
    {
      HasMember(todo);
      var id :| id in todo;
      r := InsertId(r, id);
      todo := todo - {id};
    }
  }

  lemma HasMember(ids: set<int>)
    ensures ids == {} || exists id :: id in ids
  {
    assert (forall id :: id !in ids) ==> ids == {};
  }

  method InsertId(s: seq<int>, id: int) returns (r: seq<int>)
    requires StrictlyAscending(s) && id !in Members(s)
    ensures StrictlyAscending(r)
    ensures Members(r) == Members(s) + {id}
  {
    var i := 0;
    while i < |s| && s[i] < id
      invariant 0 <= i <= |s|
      invariant forall k :: 0 <= k < i ==> s[k] < id
    {
      i := i + 1;
    }
    assert i < |s| ==> s[i] in Members(s);
    r := s[..i] + [id] + s[i..];
    InsertedMembers(s, i, id);
  }

  lemma InsertedMembers(s: seq<int>, i: nat, id: int)
    requires i <= |s|
    ensures Members(s[..i] + [id] + s[i..]) == Members(s) + {id}
  {
    var r := s[..i] + [id] + s[i..];
    assert s == s[..i] + s[i..];
    forall x ensures x in r <==> x in s || x == id {
      assert x in r <==> x in s[..i] || x == id || x in s[i..];
    }
  }

  /** An ascending list is determined by its members. */
  lemma {:induction false} AscendingIsUnique(a: seq<int>, b: seq<int>)
    requires StrictlyAscending(a) && StrictlyAscending(b) && Members(a) == Members(b)
    ensures a == b
    decreases a
  {
    if a == [] || b == [] {
      SomeMember(a);
      SomeMember(b);
    } else {
      LeastFirst(a);
      LeastFirst(b);
      assert a[0] in Members(a) && b[0] in Members(b);
      assert a[0] == b[0];
      AscendingIsUnique(a[1..], b[1..]);
    }
  }

  lemma SomeMember(s: seq<int>)
    ensures s == [] <==> Members(s) == {}
  {
    if s != [] { assert s[0] in Members(s); }
  }

  lemma LeastFirst(s: seq<int>)
    requires s != [] && StrictlyAscending(s)
    ensures forall x :: x in Members(s) ==> s[0] <= x
    ensures StrictlyAscending(s[1..]) && Members(s[1..]) == Members(s) - {s[0]}
  {
    var t := s[1..];
    assert s == [s[0]] + t;
    forall x ensures x in s <==> x == s[0] || x in t {}
    assert s[0] !in t;
  }
}

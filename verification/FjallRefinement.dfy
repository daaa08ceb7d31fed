/** Every run of the fjall back-end refines the map table -> key -> row. */
module FjallRefinement {
  import opened Wrappers
  import opened Integers
  import opened Lex
  import opened KeyCodec
  import BigEndian
  import opened RowLayout
  import opened Tables
  import opened FjallStorage

  /** Schemas, rows, and the counters that are in memory. */
  datatype View = View(schemas: map<Name, Blob>, rows: Rows, counters: map<Name, I64>)

  ghost predicate IsRow(m: Rows, t: Name, k: Key, b: Bytes) { (t, k) in m && b == FjallKey(t, k) }

  ghost predicate RowsStored(data: map<Bytes, Blob>, m: Rows) {
    forall t: Name, k: Key {:trigger (t, k) in m} :: (t, k) in m ==>
      NulFree(t) && Canonical(k) == k && FjallKey(t, k) in data && data[FjallKey(t, k)] == m[(t, k)]
  }

  ghost predicate NothingElse(data: map<Bytes, Blob>, m: Rows) {
    forall b :: b in data ==> exists t: Name, k: Key :: IsRow(m, t, k, b)
  }

  /** The byte map holds exactly these rows. */
  ghost predicate Holds(data: map<Bytes, Blob>, m: Rows) { RowsStored(data, m) && NothingElse(data, m) }

  ghost predicate Represents(s: Store, v: View) {
    s.schemas == v.schemas && s.nextKey == v.counters && Holds(s.data, v.rows)
  }

  // ---- what the operations do to tables

  /** The 64-bit ids of a table. */
  function Ids(m: Rows, t: Name): set<int> {
    set e | e in m.Keys && e.0 == t && e.1.Signed? && e.1.width.W64? :: e.1.n
  }

  lemma HasOne(s: set<int>)
    requires s != {}
    ensures exists x :: x in s
  {
    EmptyIff(s);
  }

  lemma EmptyIff(s: set<int>)
    ensures s == {} <==> forall x :: x !in s
  {
    if forall x :: x !in s { assert s == {}; }
  }

  /** The largest, at least zero. */
  ghost function LargestOrZero(s: set<int>): (r: int)
    ensures r >= 0 && (r == 0 || r in s) && forall x :: x in s ==> x <= r
    decreases s
  {
    if s == {} then 0 else
      HasOne(s);
      var x :| x in s;
      var rest := LargestOrZero(s - {x});
      assert forall y :: y in s ==> y == x || y in s - {x};
      if x > rest then x else rest
  }

  /** Where an append starts to count: the counter in memory, else the largest id. */
  ghost function Start(v: View, t: Name): int {
    if t in v.counters then v.counters[t] else LargestOrZero(Ids(v.rows, t))
  }

  ghost function AbsStep(v: View, op: Op): View {
    match op
    case PutSchema(t, schema) => v.(schemas := v.schemas[t := schema])
    case Insert(t, rows) => v.(rows := InsertRows(v.rows, t, rows))
    case Delete(t, keys) => v.(rows := DeleteRows(v.rows, t, keys))
    case Append(t, blobs) =>
      var c := Start(v, t);
      if I64_MIN <= c <= I64_MAX
      then v.(rows := AppendRows(v.rows, t, c, blobs), counters := v.counters[t := Advance(c, |blobs|)])
      else v
    case Drop(t) => View(v.schemas - {t}, map e | e in v.rows && e.0 != t :: v.rows[e], v.counters - {t})
    case Reopen(_) => v.(counters := map[])
  }

  ghost function AbsRun(v: View, ops: seq<Op>): View
    decreases ops
  {
    if ops == [] then v else AbsRun(AbsStep(v, ops[0]), ops[1..])
  }

  // ---- single updates

  lemma HoldsPut(data: map<Bytes, Blob>, m: Rows, t: Name, k: Key, x: Blob)
    requires Holds(data, m) && NulFree(t)
    ensures Holds(data[FjallKey(t, k) := x], m[(t, Canonical(k)) := x])
  {
    hide DataKey, NulFree;
    EncodeCanonical(Fjall, k);
    SameKey(t, k);
    var c := Canonical(k);
    var data', m' := data[FjallKey(t, c) := x], m[(t, c) := x];
    forall u: Name, l: Key | (u, l) in m ensures (u, l) != (t, c) ==> FjallKey(u, l) != FjallKey(t, c) {
      DataKeyInjective(Fjall, t, c, u, l);
    }
    forall b | b in data' ensures exists u: Name, l: Key :: IsRow(m', u, l, b) {
      if b == FjallKey(t, c) {
        assert IsRow(m', t, c, b);
      } else {
        var u: Name, l: Key :| IsRow(m, u, l, b);
        assert IsRow(m', u, l, b);
      }
    }
  }

  lemma SameKey(t: Name, k: Key)
    ensures FjallKey(t, k) == FjallKey(t, Canonical(k)) && Canonical(Canonical(k)) == Canonical(k)
  {
    EncodeCanonical(Fjall, k);
  }

  lemma HoldsRemove(data: map<Bytes, Blob>, m: Rows, t: Name, k: Key)
    requires Holds(data, m) && NulFree(t)
    ensures Holds(data - {FjallKey(t, k)}, m - {(t, Canonical(k))})
  {
    hide DataKey, NulFree;
    SameKey(t, k);
    var c := Canonical(k);
    var data', m' := data - {FjallKey(t, c)}, m - {(t, c)};
    forall u: Name, l: Key | (u, l) in m ensures (u, l) != (t, c) ==> FjallKey(u, l) != FjallKey(t, c) {
      DataKeyInjective(Fjall, t, c, u, l);
    }
    forall b | b in data' ensures exists u: Name, l: Key :: IsRow(m', u, l, b) {
      var u: Name, l: Key :| IsRow(m, u, l, b);
      assert IsRow(m', u, l, b);
    }
  }

  lemma HoldsDropped(data: map<Bytes, Blob>, m: Rows, t: Name)
    requires Holds(data, m) && NulFree(t)
    ensures Holds(map b | b in data && !StartsWith(b, DataPrefix(t)) :: data[b], map e | e in m && e.0 != t :: m[e])
  {
    hide DataKey, DataPrefix, StartsWith, NulFree, EncodeKey;
    var data' := map b | b in data && !StartsWith(b, DataPrefix(t)) :: data[b];
    var m' := map e | e in m && e.0 != t :: m[e];
    forall u: Name, l: Key | (u, l) in m ensures StartsWith(FjallKey(u, l), DataPrefix(t)) <==> u == t {
      KeyOfTable(t, u, l);
    }
    forall b | b in data' ensures exists u: Name, l: Key :: IsRow(m', u, l, b) {
      var u: Name, l: Key :| IsRow(m, u, l, b);
      assert IsRow(m', u, l, b);
    }
  }

  lemma KeyOfTable(t: Name, u: Name, l: Key)
    requires NulFree(t) && NulFree(u)
    ensures StartsWith(FjallKey(u, l), DataPrefix(t)) <==> u == t
  {
    PrefixDeterminesName(u, t, EncodeKey(Fjall, l));
  }

  // ---- whole operations

  lemma {:induction false} HoldsInserted(data: map<Bytes, Blob>, m: Rows, t: Name, rows: seq<(Key, Blob)>)
    requires Holds(data, m) && NulFree(t)
    ensures Holds(Inserted(Fjall, data, t, rows), InsertRows(m, t, rows))
    decreases rows
  {
    if rows != [] {
      hide Holds, DataKey, NulFree;
      var (k, x) := rows[0];
      HoldsPut(data, m, t, k, x);
      HoldsInserted(data[FjallKey(t, k) := x], m[(t, Canonical(k)) := x], t, rows[1..]);
    }
  }

  lemma {:induction false} HoldsDeleted(data: map<Bytes, Blob>, m: Rows, t: Name, keys: seq<Key>)
    requires Holds(data, m) && NulFree(t)
    ensures Holds(Deleted(Fjall, data, t, keys), DeleteRows(m, t, keys))
    decreases keys
  {
    if keys != [] {
      hide Holds, DataKey, NulFree;
      HoldsRemove(data, m, t, keys[0]);
      HoldsDeleted(data - {FjallKey(t, keys[0])}, m - {(t, Canonical(keys[0]))}, t, keys[1..]);
    }
  }

  lemma {:induction false} HoldsAppended(data: map<Bytes, Blob>, m: Rows, t: Name, c: I64, rows: seq<Blob>)
    requires Holds(data, m) && NulFree(t)
    ensures Holds(AppendedFrom(Fjall, data, t, c, rows), AppendRows(m, t, c, rows))
    decreases rows
  {
    if rows != [] {
      hide Holds, DataKey, NulFree, Succ;
      var id := RowId(Succ(c));
      HoldsPut(data, m, t, id, rows[0]);
      HoldsAppended(data[FjallKey(t, id) := rows[0]], m[(t, id) := rows[0]], t, Succ(c), rows[1..]);
    }
  }

  // ---- the rebuilt counter

  /** A byte key carries an id exactly if it is the row key of that id. */
  lemma StoredIdIff(t: Name, b: Bytes, n: I64)
    ensures StoredId(t, b) == Some(n) <==> b == FjallKey(t, RowId(n))
  {
    StoredIdOfRow(t, n);
    if StoredId(t, b) == Some(n) {
      var p := |DataPrefix(t)|;
      var payload := b[p + 1..];
      IdBytes(payload, n);
      assert b == b[..p] + [b[p]] + payload;
      assert EncodeKey(Fjall, RowId(n)) == [0x13] + payload;
      assert FjallKey(t, RowId(n)) == DataPrefix(t) + ([0x13] + payload);
    }
  }

  lemma IdBytes(payload: Bytes, n: I64)
    requires |payload| == 8 && ToSigned(W64, FlipSign(W64, TakeInt(W64, payload).value)) == n
    ensures Payload(RowId(n)) == payload
  {
    hide BigEndian.Encode, BigEndian.Decode;
    WidthBound(W64);
    assert payload[..8] == payload;
    var u := TakeInt(W64, payload).value;
    assert FlipSign(W64, ToUnsigned(W64, n)) == u;
    BigEndian.EncodeDecode(payload);
  }

  /** The largest id found is that of some key; if none is found no key has one. */
  lemma {:induction false} LargestIdIsOne(t: Name, keys: seq<Bytes>)
    ensures match LargestId(t, keys)
            case Some(n) => exists b :: b in keys && StoredId(t, b) == Some(n)
            case None => forall b :: b in keys ==> StoredId(t, b).None?
    decreases keys
  {
    hide StoredId;
    if keys != [] {
      var most, last := keys[..|keys| - 1], keys[|keys| - 1];
      LargestIdIsOne(t, most);
      assert keys == most + [last] && last in keys;
    }
  }

  lemma IdIsThere(data: map<Bytes, Blob>, m: Rows, t: Name, n: I64)
    requires Holds(data, m) && NulFree(t)
    ensures FjallKey(t, RowId(n)) in data <==> (t, RowId(n)) in m
  {
    hide DataKey;
    var b := FjallKey(t, RowId(n));
    if b in data {
      var u: Name, l: Key :| IsRow(m, u, l, b);
      DataKeyInjective(Fjall, t, RowId(n), u, l);
    }
  }

  lemma IdsAre(m: Rows, t: Name, n: I64)
    ensures n in Ids(m, t) <==> (t, RowId(n)) in m
  {
    if (t, RowId(n)) in m { assert (t, RowId(n)) in m.Keys; }
  }

  lemma IdInRange(m: Rows, t: Name, n: int)
    requires n in Ids(m, t)
    ensures I64_MIN <= n <= I64_MAX
  {
    var e :| e in m.Keys && e.0 == t && e.1.Signed? && e.1.width.W64? && e.1.n == n;
    assert e.1.InRange();
  }

  /** After a reopen an append starts from the largest id there is, and from zero if there is none
      above it. */
  lemma CounterIsStart(s: Store, v: View, t: Name)
    requires Represents(s, v) && NulFree(t)
    ensures CounterFor(s, t) == Start(v, t)
  {
    hide StoredId, DataKey, NulFree, Holds, Ids;
    if t !in s.nextKey {
      var keys := PrefixKeys(s.data, t);
      var ids := Ids(v.rows, t);
      LargestIdIsOne(t, keys);
      forall n: I64 ensures (exists b :: b in keys && StoredId(t, b) == Some(n)) <==> n in ids {
        IdsAre(v.rows, t, n);
        IdIsThere(s.data, v.rows, t, n);
        IdIsKey(s.data, t, n);
      }
      var r := LargestOrZero(ids);
      if r > 0 {
        IdInRange(v.rows, t, r);
        var b :| b in keys && StoredId(t, b) == Some(r);
        LargestIdBounds(t, keys, b);
      }
    }
  }

  /** Rebuilding raises the counter, zero if there is none, to the largest id if that is above it. */
  lemma SyncedIs(s: Store, v: View, t: Name)
    requires Represents(s, v) && NulFree(t)
    ensures var have := if t in s.nextKey then s.nextKey[t] else 0;
            var r := Synced(s, t);
            r >= have && (r in {have, 0} || r in Ids(v.rows, t)) && (have >= 0 ==> forall n :: n in Ids(v.rows, t) ==> n <= r)
  {
    hide StoredId, DataKey, NulFree, Holds, Ids;
    var keys, ids := PrefixKeys(s.data, t), Ids(v.rows, t);
    LargestIdIsOne(t, keys);
    forall n: I64 ensures (exists b :: b in keys && StoredId(t, b) == Some(n)) <==> n in ids {
      IdsAre(v.rows, t, n);
      IdIsThere(s.data, v.rows, t, n);
      IdIsKey(s.data, t, n);
    }
    forall n | n in ids ensures LargestId(t, keys).Some? && n <= LargestId(t, keys).value {
      IdInRange(v.rows, t, n);
      var b :| b in keys && StoredId(t, b) == Some(n);
      LargestIdBounds(t, keys, b);
    }
  }

  lemma IdIsKey(data: map<Bytes, Blob>, t: Name, n: I64)
    ensures (exists b :: b in PrefixKeys(data, t) && StoredId(t, b) == Some(n)) <==> FjallKey(t, RowId(n)) in data
  {
    hide StoredId, DataKey;
    var b := FjallKey(t, RowId(n));
    StoredIdIff(t, b, n);
    DataKeySuffix(Fjall, t, RowId(n));
    if c :| c in PrefixKeys(data, t) && StoredId(t, c) == Some(n) { StoredIdIff(t, c, n); }
  }

  // ---- runs

  /** Each operation on the byte map does what it does to tables; a drop removes the rows, the
      schema and the counter of its table and keeps those of every other. */
  lemma StepRefines(s: Store, v: View, op: Op)
    requires Represents(s, v) && NulFree(op.table)
    ensures Represents(Step(s, op), AbsStep(v, op))
  {
    hide Holds, NulFree, CounterFor, Start, Inserted, Deleted, AppendedFrom, InsertRows, DeleteRows, AppendRows;
    match op {
      case PutSchema(_, _) =>
      case Insert(t, rows) => HoldsInserted(s.data, v.rows, t, rows);
      case Delete(t, keys) => HoldsDeleted(s.data, v.rows, t, keys);
      case Append(t, blobs) =>
        CounterIsStart(s, v, t);
        HoldsAppended(s.data, v.rows, t, CounterFor(s, t), blobs);
      case Drop(t) => HoldsDropped(s.data, v.rows, t);
      case Reopen(_) =>
    }
  }

  lemma {:induction false} RunRefines(s: Store, v: View, ops: seq<Op>)
    requires Represents(s, v) && forall op :: op in ops ==> NulFree(op.table)
    ensures Represents(Run(s, ops), AbsRun(v, ops))
    decreases ops
  {
    if ops != [] {
      hide Represents, Step, AbsStep, NulFree;
      assert ops[0] in ops && forall op :: op in ops[1..] ==> op in ops;
      StepRefines(s, v, ops[0]);
      RunRefines(Step(s, ops[0]), AbsStep(v, ops[0]), ops[1..]);
    }
  }

  // ---- what a reader sees

  ghost predicate InKeyOrder(r: seq<(Key, Blob)>) {
    forall i, j :: 0 <= i < j < |r| ==> KeyLess(r[i].0, r[j].0)
  }

  /** The list has exactly the rows of the table, in key order. */
  ghost predicate IsTableListing(m: Rows, t: Name, r: seq<(Key, Blob)>) {
    InKeyOrder(r) && forall k: Key, x: Blob :: (k, x) in r <==> (t, k) in m && m[(t, k)] == x
  }

  lemma OwnedKey(data: map<Bytes, Blob>, m: Rows, t: Name, b: Bytes) returns (k: Key)
    requires Holds(data, m) && NulFree(t) && b in data && StartsWith(b, DataPrefix(t))
    ensures (t, k) in m && b == FjallKey(t, k) && RowAt(data, t, b) == [(k, m[(t, k)])]
  {
    hide DataKey, EncodeKey, DecodeKey;
    var u: Name, l: Key :| IsRow(m, u, l, b);
    KeyOfTable(t, u, l);
    k := l;
    DataKeySuffix(Fjall, t, k);
    DecodeEncodeKey(Fjall, k);
  }

  ghost predicate ListsStored(m: Rows, t: Name, keys: seq<Bytes>, r: seq<(Key, Blob)>) {
    forall k: Key, x: Blob :: (k, x) in r <==> (t, k) in m && m[(t, k)] == x && FjallKey(t, k) in keys
  }

  lemma {:induction false} ScanKeysLists(data: map<Bytes, Blob>, m: Rows, t: Name, keys: seq<Bytes>)
    requires Holds(data, m) && NulFree(t) && StrictlySorted(keys)
    requires forall b :: b in keys ==> b in data && StartsWith(b, DataPrefix(t))
    ensures InKeyOrder(ScanKeys(data, t, keys)) && ListsStored(m, t, keys, ScanKeys(data, t, keys))
    decreases keys
  {
    hide DataKey, NulFree, RowAt, StartsWith, DataPrefix, Less;
    if keys != [] {
      assert keys[0] in keys && forall b :: b in keys <==> b == keys[0] || b in keys[1..];
      var k := OwnedKey(data, m, t, keys[0]);
      ScanKeysLists(data, m, t, keys[1..]);
      var rest := ScanKeys(data, t, keys[1..]);
      FirstIsListed(data, m, t, keys, k, rest);
      FirstIsLeast(m, t, keys, k, rest);
    }
  }

  lemma FirstIsListed(data: map<Bytes, Blob>, m: Rows, t: Name, keys: seq<Bytes>, k: Key, rest: seq<(Key, Blob)>)
    requires Holds(data, m) && NulFree(t) && keys != [] && (t, k) in m && keys[0] == FjallKey(t, k)
    requires ListsStored(m, t, keys[1..], rest)
    ensures ListsStored(m, t, keys, [(k, m[(t, k)])] + rest)
  {
    hide DataKey, NulFree;
    forall l: Key | (t, l) in m ensures FjallKey(t, l) == keys[0] <==> l == k {
      DataKeyInjective(Fjall, t, k, t, l);
    }
    assert forall b :: b in keys <==> b == keys[0] || b in keys[1..];
  }

  lemma FirstIsLeast(m: Rows, t: Name, keys: seq<Bytes>, k: Key, rest: seq<(Key, Blob)>)
    requires StrictlySorted(keys) && keys != [] && (t, k) in m && keys[0] == FjallKey(t, k)
    requires ListsStored(m, t, keys[1..], rest) && InKeyOrder(rest)
    ensures InKeyOrder([(k, m[(t, k)])] + rest)
  {
    hide DataKey, KeyLess, Less;
    forall e | e in rest ensures KeyLess(k, e.0) {
      assert (e.0, e.1) in rest;
      DataKeyOrder(Fjall, t, k, e.0);
    }
  }

  /** A scan lists exactly the rows of its table, in key order. */
  lemma ScanLists(data: map<Bytes, Blob>, m: Rows, t: Name)
    requires Holds(data, m) && NulFree(t)
    ensures IsTableListing(m, t, Scan(data, t))
  {
    hide DataKey, NulFree, DataPrefix, StartsWith, InKeyOrder;
    ScanKeysLists(data, m, t, PrefixKeys(data, t));
    forall k: Key | (t, k) in m ensures FjallKey(t, k) in PrefixKeys(data, t) { DataKeySuffix(Fjall, t, k); }
  }

  lemma FetchFinds(data: map<Bytes, Blob>, m: Rows, t: Name, k: Key)
    requires Holds(data, m) && NulFree(t)
    ensures Fetch(data, t, k) == if (t, Canonical(k)) in m then Some(m[(t, Canonical(k))]) else None
  {
    hide DataKey, NulFree;
    SameKey(t, k);
    if FjallKey(t, k) in data {
      var u: Name, l: Key :| IsRow(m, u, l, FjallKey(t, k));
      DataKeyInjective(Fjall, t, k, u, l);
    }
  }

  /** From an empty store, after every run on NUL-free names: schemas, scans and fetches are those of
      the tables, and an append starts where they say. */
  lemma EveryRunReads(ops: seq<Op>, t: Name, k: Key)
    requires NulFree(t) && forall op :: op in ops ==> NulFree(op.table)
    ensures var s, v := Run(Store(map[], map[], map[]), ops), AbsRun(View(map[], map[], map[]), ops);
            && s.schemas == v.schemas && IsTableListing(v.rows, t, Scan(s.data, t))
            && Fetch(s.data, t, k) == (if (t, Canonical(k)) in v.rows then Some(v.rows[(t, Canonical(k))]) else None)
            && CounterFor(s, t) == Start(v, t)
  {
    hide Run, AbsRun, NulFree, Fetch, Scan, CounterFor, Start, Holds;
    var s, v := Run(Store(map[], map[], map[]), ops), AbsRun(View(map[], map[], map[]), ops);
    EmptyHolds();
    RunRefines(Store(map[], map[], map[]), View(map[], map[], map[]), ops);
    ScanLists(s.data, v.rows, t);
    FetchFinds(s.data, v.rows, t, k);
    CounterIsStart(s, v, t);
  }

  lemma EmptyHolds()
    ensures Holds(map[], map[])
  {
  }

  /** The bytes after a drop: of the dropped table no row is left, and no other row is touched. */
  lemma DropMeans(s: Store, t: Name, u: Name, k: Key)
    requires NulFree(t) && NulFree(u)
    ensures var after := Step(s, Drop(t));
            && Fetch(after.data, u, k) == (if u == t then None else Fetch(s.data, u, k))
            && t !in after.schemas && t !in after.nextKey
            && (u != t ==> (u in after.schemas <==> u in s.schemas) && (u in s.schemas ==> after.schemas[u] == s.schemas[u]))
            && (u != t ==> (u in after.nextKey <==> u in s.nextKey) && (u in s.nextKey ==> after.nextKey[u] == s.nextKey[u]))
  {
    hide DataKey, NulFree, DataPrefix, StartsWith;
    KeyOfTable(t, u, k);
  }
}

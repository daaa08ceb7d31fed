/** Every run of the redb back-end refines the abstract map table -> key -> row. */
module RedbRefinement {
  import opened Wrappers
  import opened Lex
  import opened KeyCodec
  import opened RowLayout
  import opened Tables
  import opened RedbStorage

  // ---- single updates

  lemma RowsAfterPut(data: map<Bytes, Blob>, db: Db, t: Name, k: Key, v: Blob)
    requires RowsStored(data, db) && GoodName(t) && Canonical(k) == k
    ensures RowsStored(data[RedbKey(t, k) := v], db.(rows := db.rows[(t, k) := v]))
  {
    forall u: Name, l: Key | (u, l) in db.rows
      ensures (u, l) != (t, k) ==> RedbKey(u, l) != RedbKey(t, k)
    {
      DataKeyInjective(Redb, t, k, u, l);
    }
  }

  lemma RowsAfterRemove(data: map<Bytes, Blob>, db: Db, t: Name, k: Key)
    requires RowsStored(data, db) && GoodName(t) && Canonical(k) == k
    ensures RowsStored(data - {RedbKey(t, k)}, db.(rows := db.rows - {(t, k)}))
  {
    forall u: Name, l: Key | (u, l) in db.rows
      ensures (u, l) != (t, k) ==> RedbKey(u, l) != RedbKey(t, k)
    {
      DataKeyInjective(Redb, t, k, u, l);
    }
  }

  lemma NothingElseAfterPut(data: map<Bytes, Blob>, db: Db, t: Name, k: Key, v: Blob)
    requires NothingElse(data, db)
    ensures NothingElse(data[RedbKey(t, k) := v], db.(rows := db.rows[(t, k) := v]))
  {
    var data', db' := data[RedbKey(t, k) := v], db.(rows := db.rows[(t, k) := v]);
    forall b | b in data'
      ensures (exists u: Name, l: Key :: IsRow(db', u, l, b)) || (exists u :: IsCounter(db', u, b))
    {
      if b == RedbKey(t, k) {
        assert IsRow(db', t, k, b);
      } else if u: Name, l: Key :| IsRow(db, u, l, b) {
        assert IsRow(db', u, l, b);
      } else {
        var u :| IsCounter(db, u, b);
        assert IsCounter(db', u, b);
      }
    }
  }

  lemma NothingElseAfterRemove(data: map<Bytes, Blob>, db: Db, t: Name, k: Key)
    requires NothingElse(data, db)
    ensures NothingElse(data - {RedbKey(t, k)}, db.(rows := db.rows - {(t, k)}))
  {
    var data', db' := data - {RedbKey(t, k)}, db.(rows := db.rows - {(t, k)});
    forall b | b in data'
      ensures (exists u: Name, l: Key :: IsRow(db', u, l, b)) || (exists u :: IsCounter(db', u, b))
    {
      if u: Name, l: Key :| IsRow(db, u, l, b) {
        assert IsRow(db', u, l, b);
      } else {
        var u :| IsCounter(db, u, b);
        assert IsCounter(db', u, b);
      }
    }
  }

  lemma HoldsPutRow(data: map<Bytes, Blob>, db: Db, t: Name, k: Key, v: Blob)
    requires Holds(data, db) && GoodName(t)
    ensures Holds(data[RedbKey(t, k) := v], db.(rows := db.rows[(t, Canonical(k)) := v]))
  {
    EncodeCanonical(Redb, k);
    RowsAfterPut(data, db, t, Canonical(k), v);
    NothingElseAfterPut(data, db, t, Canonical(k), v);
    forall u ensures CounterKey(u) != RedbKey(t, k) { CounterKeyIsNoRow(Redb, u, t, k); }
  }

  lemma HoldsRemoveRow(data: map<Bytes, Blob>, db: Db, t: Name, k: Key)
    requires Holds(data, db) && GoodName(t)
    ensures Holds(data - {RedbKey(t, k)}, db.(rows := db.rows - {(t, Canonical(k))}))
  {
    EncodeCanonical(Redb, k);
    RowsAfterRemove(data, db, t, Canonical(k));
    NothingElseAfterRemove(data, db, t, Canonical(k));
    forall u ensures CounterKey(u) != RedbKey(t, k) { CounterKeyIsNoRow(Redb, u, t, k); }
  }

  lemma NothingElseAfterCounter(data: map<Bytes, Blob>, db: Db, t: Name, c: I64)
    requires NothingElse(data, db)
    ensures NothingElse(data[CounterKey(t) := CounterBytes(c)], db.(counters := db.counters[t := c]))
  {
    var data', db' := data[CounterKey(t) := CounterBytes(c)], db.(counters := db.counters[t := c]);
    forall b | b in data'
      ensures (exists u: Name, l: Key :: IsRow(db', u, l, b)) || (exists u :: IsCounter(db', u, b))
    {
      if b == CounterKey(t) {
        assert IsCounter(db', t, b);
      } else if u: Name, l: Key :| IsRow(db, u, l, b) {
        assert IsRow(db', u, l, b);
      } else {
        var u :| IsCounter(db, u, b);
        assert IsCounter(db', u, b);
      }
    }
  }

  lemma HoldsPutCounter(data: map<Bytes, Blob>, db: Db, t: Name, c: I64)
    requires Holds(data, db)
    ensures Holds(data[CounterKey(t) := CounterBytes(c)], db.(counters := db.counters[t := c]))
  {
    hide DataKey, CounterKey, CounterBytes, NothingElse, Canonical;
    NothingElseAfterCounter(data, db, t, c);
    forall u: Name, l: Key | (u, l) in db.rows ensures CounterKey(t) != RedbKey(u, l) {
      CounterKeyIsNoRow(Redb, t, u, l);
    }
    forall u ensures CounterKey(t) == CounterKey(u) ==> t == u { CounterKeyInjective(t, u); }
  }

  // ---- whole operations

  lemma {:induction false} HoldsInserted(data: map<Bytes, Blob>, db: Db, t: Name, rows: seq<(Key, Blob)>)
    requires Holds(data, db) && GoodName(t)
    ensures Holds(Inserted(Redb, data, t, rows), db.(rows := InsertRows(db.rows, t, rows)))
    decreases rows
  {
    if rows != [] {
      var (k, v) := rows[0];
      HoldsPutRow(data, db, t, k, v);
      HoldsInserted(data[RedbKey(t, k) := v], db.(rows := db.rows[(t, Canonical(k)) := v]), t, rows[1..]);
    }
  }

  lemma {:induction false} HoldsDeleted(data: map<Bytes, Blob>, db: Db, t: Name, keys: seq<Key>)
    requires Holds(data, db) && GoodName(t)
    ensures Holds(Deleted(Redb, data, t, keys), db.(rows := DeleteRows(db.rows, t, keys)))
    decreases keys
  {
    if keys != [] {
      HoldsRemoveRow(data, db, t, keys[0]);
      HoldsDeleted(data - {RedbKey(t, keys[0])}, db.(rows := db.rows - {(t, Canonical(keys[0]))}), t, keys[1..]);
    }
  }

  lemma {:induction false} HoldsAppendedFrom(data: map<Bytes, Blob>, db: Db, t: Name, c: I64, rows: seq<Blob>)
    requires Holds(data, db) && GoodName(t)
    ensures Holds(AppendedFrom(Redb, data, t, c, rows), db.(rows := AppendRows(db.rows, t, c, rows)))
    decreases rows
  {
    if rows != [] {
      var id := RowId(Succ(c));
      HoldsPutRow(data, db, t, id, rows[0]);
      HoldsAppendedFrom(data[RedbKey(t, id) := rows[0]], db.(rows := db.rows[(t, id) := rows[0]]), t, Succ(c), rows[1..]);
    }
  }

  /** A counter reads back as written; an absent one reads as zero. */
  lemma CounterReadsBack(data: map<Bytes, Blob>, db: Db, t: Name)
    requires Holds(data, db)
    ensures ReadCounter(data, t) == Ok(Counter(db, t))
  {
    if t in db.counters {
      var c := db.counters[t];
      TakeIntEncode(W64, ToUnsigned(W64, c));
    } else if CounterKey(t) in data {
      forall u: Name, l: Key | (u, l) in db.rows ensures CounterKey(t) != RedbKey(u, l) {
        CounterKeyIsNoRow(Redb, t, u, l);
      }
      forall u ensures CounterKey(t) == CounterKey(u) ==> t == u { CounterKeyInjective(t, u); }
      assert false;
    }
  }

  lemma NothingElseAfterDrop(data: map<Bytes, Blob>, db: Db, t: Name)
    requires NothingElse(data, db) && GoodName(t)
    ensures NothingElse(WithoutTable(data, t), AbsStep(db, Drop(t)))
  {
    hide DataKey, DataPrefix, StartsWith, CounterKey, GoodName, EncodeKey;
    var data', db' := WithoutTable(data, t), AbsStep(db, Drop(t));
    forall b | b in data'
      ensures (exists u: Name, l: Key :: IsRow(db', u, l, b)) || (exists u :: IsCounter(db', u, b))
    {
      if u: Name, l: Key :| IsRow(db, u, l, b) {
        DataKeySuffix(Redb, u, l);
        assert IsRow(db', u, l, b);
      } else {
        var u :| IsCounter(db, u, b);
        assert IsCounter(db', u, b);
      }
    }
  }

  lemma HoldsDropped(data: map<Bytes, Blob>, db: Db, t: Name)
    requires Holds(data, db) && GoodName(t)
    ensures Holds(WithoutTable(data, t), AbsStep(db, Drop(t)))
  {
    NothingElseAfterDrop(data, db, t);
    forall u: Name, l: Key | (u, l) in db.rows && u != t ensures RedbKey(u, l) in WithoutTable(data, t) {
      PrefixDeterminesName(u, t, EncodeKey(Redb, l));
      CounterKeyIsNoRow(Redb, t, u, l);
    }
    forall u | u in db.counters && u != t ensures CounterKey(u) in WithoutTable(data, t) {
      CounterKeyInjective(t, u);
      CounterKeyIsNoRow(Redb, u, t, Absent);
    }
  }

  lemma HoldsIgnoresSchemas(data: map<Bytes, Blob>, db: Db, schemas: map<Name, Blob>)
    requires Holds(data, db)
    ensures Holds(data, db.(schemas := schemas))
  {
    var db' := db.(schemas := schemas);
    forall b | b in data
      ensures (exists u: Name, l: Key :: IsRow(db', u, l, b)) || (exists u :: IsCounter(db', u, b))
    {
      if u: Name, l: Key :| IsRow(db, u, l, b) {
        assert IsRow(db', u, l, b);
      } else {
        var u :| IsCounter(db, u, b);
        assert IsCounter(db', u, b);
      }
    }
  }

  /** Each operation on the byte map does what the abstract operation does. */
  lemma StepRefines(d: Disk, db: Db, op: Op)
    requires Represents(d, db) && GoodName(op.table)
    ensures Represents(Step(d, op), AbsStep(db, op))
  {
    match op {
      case PutSchema(t, schema) => HoldsIgnoresSchemas(d.data, db, db.schemas[t := schema]);
      case Insert(t, rows) => HoldsInserted(d.data, db, t, rows);
      case Delete(t, keys) => HoldsDeleted(d.data, db, t, keys);
      case Append(t, rows) =>
        if rows != [] {
          var c := Counter(db, t);
          CounterReadsBack(d.data, db, t);
          HoldsAppendedFrom(d.data, db, t, c, rows);
          HoldsPutCounter(AppendedFrom(Redb, d.data, t, c, rows), db.(rows := AppendRows(db.rows, t, c, rows)), t, Advance(c, |rows|));
        }
      case Drop(t) => HoldsDropped(d.data, db, t);
      case Reopen(_) =>
    }
  }

  lemma {:induction false} RunRefines(d: Disk, db: Db, ops: seq<Op>)
    requires Represents(d, db)
    requires forall op :: op in ops ==> GoodName(op.table)
    ensures Represents(Run(d, ops), AbsRun(db, ops))
    decreases ops
  {
    if ops != [] {
      StepRefines(d, db, ops[0]);
      RunRefines(Step(d, ops[0]), AbsStep(db, ops[0]), ops[1..]);
    }
  }

  // ---- what a reader sees

  ghost predicate IsTableListing(db: Db, t: Name, r: seq<(Key, Blob)>) {
    && InKeyOrder(r)
    && (forall k: Key, v: Blob :: (k, v) in r <==> (t, k) in db.rows && db.rows[(t, k)] == v)
  }

  lemma OwnedKey(data: map<Bytes, Blob>, db: Db, t: Name, b: Bytes) returns (k: Key)
    requires Holds(data, db) && GoodName(t) && b in data && StartsWith(b, DataPrefix(t))
    ensures (t, k) in db.rows && b == RedbKey(t, k) && data[b] == db.rows[(t, k)]
    ensures !StartsWith(b, COUNTER_PREFIX)
    ensures DecodeKey(Redb, b[|DataPrefix(t)|..]) == Some(k)
  {
    if u :| IsCounter(db, u, b) {
      CounterKeyIsNoRow(Redb, u, t, Absent);
      assert false;
    }
    var u: Name, l: Key :| IsRow(db, u, l, b);
    PrefixDeterminesName(u, t, EncodeKey(Redb, l));
    k := l;
    CounterKeyIsNoRow(Redb, t, t, k);
    DataKeySuffix(Redb, t, k);
    DecodeEncodeKey(Redb, k);
  }

  ghost predicate InKeyOrder(r: seq<(Key, Blob)>) {
    forall i, j :: 0 <= i < j < |r| ==> KeyLess(r[i].0, r[j].0)
  }

  ghost predicate ListsStored(db: Db, t: Name, keys: seq<Bytes>, r: seq<(Key, Blob)>) {
    forall k: Key, v: Blob :: (k, v) in r <==>
      (t, k) in db.rows && db.rows[(t, k)] == v && RedbKey(t, k) in keys
  }

  lemma {:induction false} ScanKeysLists(data: map<Bytes, Blob>, db: Db, t: Name, keys: seq<Bytes>)
    requires Holds(data, db) && GoodName(t)
    requires StrictlySorted(keys) && forall b :: b in keys ==> b in data && !Less(b, DataPrefix(t))
    ensures ScanKeys(data, t, keys).Ok?
    ensures InKeyOrder(ScanKeys(data, t, keys).value)
    ensures ListsStored(db, t, keys, ScanKeys(data, t, keys).value)
    decreases keys
  {
    if keys != [] {
      if StartsWith(keys[0], DataPrefix(t)) {
        var k := OwnedKey(data, db, t, keys[0]);
        ScanKeysLists(data, db, t, keys[1..]);
        var rest := ScanKeys(data, t, keys[1..]).value;
        FirstIsListed(db, t, keys, k, rest);
        FirstIsLeast(db, t, keys, k, rest);
      } else {
        forall k: Key ensures RedbKey(t, k) !in keys {
          DataKeySuffix(Redb, t, k);
          if RedbKey(t, k) in keys {
            PrefixContiguous(DataPrefix(t), keys[0], RedbKey(t, k));
          }
        }
      }
    }
  }

  lemma FirstIsListed(db: Db, t: Name, keys: seq<Bytes>, k: Key, rest: seq<(Key, Blob)>)
    requires NulFree(t) && keys != [] && (t, k) in db.rows && keys[0] == RedbKey(t, k)
    requires forall l: Key :: (t, l) in db.rows ==> Canonical(l) == l
    requires ListsStored(db, t, keys[1..], rest)
    ensures ListsStored(db, t, keys, [(k, db.rows[(t, k)])] + rest)
  {
    forall l: Key | (t, l) in db.rows ensures RedbKey(t, l) == keys[0] <==> l == k {
      DataKeyInjective(Redb, t, k, t, l);
    }
    assert forall b :: b in keys <==> b == keys[0] || b in keys[1..];
  }

  lemma FirstIsLeast(db: Db, t: Name, keys: seq<Bytes>, k: Key, rest: seq<(Key, Blob)>)
    requires StrictlySorted(keys) && keys != [] && (t, k) in db.rows && keys[0] == RedbKey(t, k)
    requires ListsStored(db, t, keys[1..], rest) && InKeyOrder(rest)
    ensures InKeyOrder([(k, db.rows[(t, k)])] + rest)
  {
    forall e | e in rest ensures KeyLess(k, e.0) {
      assert (e.0, e.1) in rest;
      DataKeyOrder(Redb, t, k, e.0);
    }
  }

  /** Scanning a table lists exactly its rows, in key order, and never fails. */
  lemma ScanLists(data: map<Bytes, Blob>, db: Db, t: Name)
    requires Holds(data, db) && GoodName(t)
    ensures Scan(data, t).Ok? && IsTableListing(db, t, Scan(data, t).value)
  {
    ScanKeysLists(data, db, t, RangeFrom(data, DataPrefix(t)));
    forall k: Key | (t, k) in db.rows ensures RedbKey(t, k) in RangeFrom(data, DataPrefix(t)) {
      DataKeySuffix(Redb, t, k);
      PrefixIsLowerBound(RedbKey(t, k), DataPrefix(t));
    }
  }

  lemma FetchFinds(data: map<Bytes, Blob>, db: Db, t: Name, k: Key)
    requires Holds(data, db) && GoodName(t)
    ensures Fetch(data, t, k) ==
            if (t, Canonical(k)) in db.rows then Some(db.rows[(t, Canonical(k))]) else None
  {
    EncodeCanonical(Redb, k);
    if RedbKey(t, k) in data {
      DataKeySuffix(Redb, t, k);
      var l := OwnedKey(data, db, t, RedbKey(t, k));
      DataKeyInjective(Redb, t, k, t, l);
    }
  }

  /** From an empty database, after any run: every read of the byte map answers
      what the abstract database answers. */
  lemma EveryRunReads(ops: seq<Op>, t: Name, k: Key)
    requires GoodName(t) && forall op :: op in ops ==> GoodName(op.table)
    ensures var d, db := Run(Disk(map[], map[]), ops), AbsRun(Db(map[], map[], map[]), ops);
            && d.schemas == db.schemas
            && Scan(d.data, t).Ok? && IsTableListing(db, t, Scan(d.data, t).value)
            && Fetch(d.data, t, k) == (if (t, Canonical(k)) in db.rows then Some(db.rows[(t, Canonical(k))]) else None)
            && ReadCounter(d.data, t) == Ok(Counter(db, t))
  {
    var d, db := Run(Disk(map[], map[]), ops), AbsRun(Db(map[], map[], map[]), ops);
    RunRefines(Disk(map[], map[]), Db(map[], map[], map[]), ops);
    ScanLists(d.data, db, t);
    FetchFinds(d.data, db, t, k);
    CounterReadsBack(d.data, db, t);
  }
}

/** The redb back-end: schemas in one table; rows and auto-increment counters of
    all SQL tables together in one ordered byte map. */
module RedbStorage {
  import opened Wrappers
  import opened Lex
  import opened KeyCodec
  import opened RowLayout
  import opened Tables

  datatype Result<+T> = Ok(value: T) | CannotDecodeKey | CounterCorrupted

  function CounterBytes(c: I64): Bytes {
    IntBytes(W64, ToUnsigned(W64, c))
  }

  // ---- the operations as functions on the stored maps

  datatype Disk = Disk(schemas: map<Name, Blob>, data: map<Bytes, Blob>)

  function RedbKey(t: Name, k: Key): Bytes { DataKey(Redb, t, k) }

  function ReadCounter(data: map<Bytes, Blob>, t: Name): Result<I64> {
    if CounterKey(t) !in data then Ok(0)
    else if |data[CounterKey(t)]| != 8 then CounterCorrupted
    else Ok(ToSigned(W64, TakeInt(W64, data[CounterKey(t)]).value))
  }

  function Appended(data: map<Bytes, Blob>, t: Name, rows: seq<Blob>): map<Bytes, Blob> {
    if rows == [] then data else
      match ReadCounter(data, t)
      case Ok(c) => AppendedFrom(Redb, data, t, c, rows)[CounterKey(t) := CounterBytes(Advance(c, |rows|))]
      case _ => data
  }

  function WithoutTable(data: map<Bytes, Blob>, t: Name): map<Bytes, Blob> {
    map b | b in data && !StartsWith(b, DataPrefix(t)) && b != CounterKey(t) :: data[b]
  }

  /** The keys a range read starting at `from` yields. */
  function RangeFrom(data: map<Bytes, Blob>, from: Bytes): (r: seq<Bytes>)
    ensures StrictlySorted(r)
    ensures forall b :: b in r <==> b in data && !Less(b, from)
  {
    Ascending(set b | b in data && !Less(b, from))
  }

  function Prepend(rows: seq<(Key, Blob)>, rest: Result<seq<(Key, Blob)>>): Result<seq<(Key, Blob)>> {
    match rest
    case Ok(r) => Ok(rows + r)
    case e => e
  }

  /** The scan over the ordered keys still to read. */
  function ScanKeys(data: map<Bytes, Blob>, t: Name, keys: seq<Bytes>): Result<seq<(Key, Blob)>>
    requires forall b :: b in keys ==> b in data
  {
    if keys == [] || !StartsWith(keys[0], DataPrefix(t)) then Ok([])
    else if StartsWith(keys[0], COUNTER_PREFIX) then ScanKeys(data, t, keys[1..])
    else
      match DecodeKey(Redb, keys[0][|DataPrefix(t)|..])
      case None => CannotDecodeKey
      case Some(k) => Prepend([(k, data[keys[0]])], ScanKeys(data, t, keys[1..]))
  }

  lemma ScanKeysStep(data: map<Bytes, Blob>, t: Name, keys: seq<Bytes>, i: nat)
    requires forall b :: b in keys ==> b in data
    requires i < |keys| && StartsWith(keys[i], DataPrefix(t))
    ensures |DataPrefix(t)| <= |keys[i]|
    ensures ScanKeys(data, t, keys[i..])
      == if StartsWith(keys[i], COUNTER_PREFIX) then ScanKeys(data, t, keys[i + 1..])
         else match DecodeKey(Redb, keys[i][|DataPrefix(t)|..])
              case None => CannotDecodeKey
              case Some(k) => Prepend([(k, data[keys[i]])], ScanKeys(data, t, keys[i + 1..]))
  {
    hide DecodeKey, Prepend;
    assert keys[i..][1..] == keys[i + 1..];
  }

  lemma ScanKeysStop(data: map<Bytes, Blob>, t: Name, keys: seq<Bytes>, rows: seq<(Key, Blob)>)
    requires forall b :: b in keys ==> b in data
    requires keys == [] || !StartsWith(keys[0], DataPrefix(t))
    ensures Prepend(rows, ScanKeys(data, t, keys)) == Ok(rows)
  {
    assert rows + [] == rows;
  }

  function Scan(data: map<Bytes, Blob>, t: Name): Result<seq<(Key, Blob)>> {
    ScanKeys(data, t, RangeFrom(data, DataPrefix(t)))
  }

  function Fetch(data: map<Bytes, Blob>, t: Name, k: Key): Option<Blob> {
    if RedbKey(t, k) in data then Some(data[RedbKey(t, k)]) else None
  }

  datatype Op =
    | PutSchema(table: Name, schema: Blob)
    | Insert(table: Name, rows: seq<(Key, Blob)>)
    | Delete(table: Name, keys: seq<Key>)
    | Append(table: Name, blobs: seq<Blob>)
    | Drop(table: Name)
    | Reopen(table: Name)

  function Step(d: Disk, op: Op): Disk {
    match op
    case PutSchema(t, s) => d.(schemas := d.schemas[t := s])
    case Insert(t, rows) => d.(data := Inserted(Redb, d.data, t, rows))
    case Delete(t, keys) => d.(data := Deleted(Redb, d.data, t, keys))
    case Append(t, rows) => d.(data := Appended(d.data, t, rows))
    case Drop(t) => Disk(d.schemas - {t}, WithoutTable(d.data, t))
    case Reopen(_) => d
  }

  function Run(d: Disk, ops: seq<Op>): Disk
    decreases ops
  {
    if ops == [] then d else Run(Step(d, ops[0]), ops[1..])
  }

  // ---- the abstract database: table -> key -> row

  datatype Db = Db(schemas: map<Name, Blob>, rows: Rows, counters: map<Name, I64>)

  function Counter(db: Db, t: Name): I64 {
    if t in db.counters then db.counters[t] else 0
  }

  function AbsStep(db: Db, op: Op): Db {
    match op
    case PutSchema(t, s) => db.(schemas := db.schemas[t := s])
    case Insert(t, rows) => db.(rows := InsertRows(db.rows, t, rows))
    case Delete(t, keys) => db.(rows := DeleteRows(db.rows, t, keys))
    case Append(t, blobs) =>
      if blobs == [] then db else
        db.(rows := AppendRows(db.rows, t, Counter(db, t), blobs),
            counters := db.counters[t := Advance(Counter(db, t), |blobs|)])
    case Drop(t) =>
      Db(db.schemas - {t}, map e | e in db.rows && e.0 != t :: db.rows[e], db.counters - {t})
    case Reopen(_) => db
  }

  function AbsRun(db: Db, ops: seq<Op>): Db
    decreases ops
  {
    if ops == [] then db else AbsRun(AbsStep(db, ops[0]), ops[1..])
  }

  /** The names under which the layout is unambiguous. */
  predicate GoodName(t: Name) { NulFree(t) && t != COUNTER_NAME }

  ghost predicate IsRow(db: Db, t: Name, k: Key, b: Bytes) {
    (t, k) in db.rows && b == RedbKey(t, k)
  }

  ghost predicate RowsStored(data: map<Bytes, Blob>, db: Db) {
    forall t: Name, k: Key {:trigger (t, k) in db.rows} :: (t, k) in db.rows ==>
      GoodName(t) && Canonical(k) == k && RedbKey(t, k) in data && data[RedbKey(t, k)] == db.rows[(t, k)]
  }

  ghost predicate CountersStored(data: map<Bytes, Blob>, db: Db) {
    forall t :: t in db.counters ==>
      CounterKey(t) in data && data[CounterKey(t)] == CounterBytes(db.counters[t])
  }

  ghost predicate IsCounter(db: Db, t: Name, b: Bytes) {
    t in db.counters && b == CounterKey(t)
  }

  ghost predicate NothingElse(data: map<Bytes, Blob>, db: Db) {
    forall b :: b in data ==>
      (exists t: Name, k: Key :: IsRow(db, t, k, b)) || (exists t :: IsCounter(db, t, b))
  }

  /** The byte map holds exactly the rows and the counters of `db`. */
  ghost predicate Holds(data: map<Bytes, Blob>, db: Db) {
    RowsStored(data, db) && CountersStored(data, db) && NothingElse(data, db)
  }

  ghost predicate Represents(d: Disk, db: Db) {
    d.schemas == db.schemas && Holds(d.data, db)
  }

  lemma PrependAssociative(a: seq<(Key, Blob)>, b: seq<(Key, Blob)>, rest: Result<seq<(Key, Blob)>>)
    ensures Prepend([], rest) == rest
    ensures Prepend(a, Prepend(b, rest)) == Prepend(a + b, rest)
  {
    if rest.Ok? {
      assert [] + rest.value == rest.value;
      assert a + (b + rest.value) == a + b + rest.value;
    }
  }

  /** Stopping at the first key without the prefix misses none that has it. */
  lemma DoomedAreAll(data: map<Bytes, Blob>, prefix: Bytes, n: nat)
    requires n <= |RangeFrom(data, prefix)|
    requires forall b :: b in RangeFrom(data, prefix)[..n] ==> StartsWith(b, prefix)
    requires n < |RangeFrom(data, prefix)| ==> !StartsWith(RangeFrom(data, prefix)[n], prefix)
    ensures forall b :: b in RangeFrom(data, prefix)[..n] <==> b in data && StartsWith(b, prefix)
  {
    var keys := RangeFrom(data, prefix);
    forall b | b in data && StartsWith(b, prefix) ensures b in keys[..n] {
      PrefixIsLowerBound(b, prefix);
      var i :| 0 <= i < |keys| && keys[i] == b;
      if i > n {
        PrefixContiguous(prefix, keys[n], keys[i]);
      }
    }
  }

  // ---- the storage object

  class RedbGlueStorage {
    var schemas: map<Name, Blob>
    var data: map<Bytes, Blob>

    function State(): Disk
      reads this
    {
      Disk(schemas, data)
    }

    constructor ()
      ensures State() == Disk(map[], map[])
    {
      schemas, data := map[], map[];
    }

    method WriteSchema(t: Name, schema: Blob)
      modifies this
      ensures State() == Step(old(State()), PutSchema(t, schema))
    {
      schemas := schemas[t := schema];
    }

    method InsertData(t: Name, rows: seq<(Key, Blob)>)
      modifies this
      ensures State() == Step(old(State()), Insert(t, rows))
    {
      if rows == [] { return; }
      var encoded: seq<(Bytes, Blob)> := [];
      for i := 0 to |rows|
        invariant |encoded| == i
        invariant forall j :: 0 <= j < i ==> encoded[j] == (RedbKey(t, rows[j].0), rows[j].1)
      {
        encoded := encoded + [(RedbKey(t, rows[i].0), rows[i].1)];
      }
      for i := 0 to |encoded|
        invariant schemas == old(schemas)
        invariant Inserted(Redb, data, t, rows[i..]) == Inserted(Redb, old(data), t, rows)
      {
        assert rows[i..][1..] == rows[i + 1..];
        data := data[encoded[i].0 := encoded[i].1];
      }
    }

    method DeleteData(t: Name, keys: seq<Key>)
      modifies this
      ensures State() == Step(old(State()), Delete(t, keys))
    {
      for i := 0 to |keys|
        invariant schemas == old(schemas)
        invariant Deleted(Redb, data, t, keys[i..]) == Deleted(Redb, old(data), t, keys)
      {
        assert keys[i..][1..] == keys[i + 1..];
        data := data - {RedbKey(t, keys[i])};
      }
    }

    method FetchData(t: Name, k: Key) returns (row: Option<Blob>)
      ensures row == Fetch(data, t, k)
    {
      var compound := RedbKey(t, k);
      row := if compound in data then Some(data[compound]) else None;
    }

    method ScanRows(t: Name) returns (r: Result<seq<(Key, Blob)>>)
      ensures r == Scan(data, t)
    {
      hide ScanKeys, StartsWith, DataPrefix, DecodeKey;
      var prefix := DataPrefix(t);
      var keys := RangeFrom(data, prefix);
      var result: seq<(Key, Blob)> := [];
      var i := 0;
      assert keys[0..] == keys;
      PrependAssociative([], [], ScanKeys(data, t, keys));
      while i < |keys| && StartsWith(keys[i], prefix)
        invariant 0 <= i <= |keys|
        invariant Scan(data, t) == Prepend(result, ScanKeys(data, t, keys[i..]))
      {
        ScanKeysStep(data, t, keys, i);
        if !StartsWith(keys[i], COUNTER_PREFIX) {
          var decoded := DecodeKey(Redb, keys[i][|prefix|..]);
          if decoded.None? { return CannotDecodeKey; }
          var row := (decoded.value, data[keys[i]]);
          PrependAssociative(result, [row], ScanKeys(data, t, keys[i + 1..]));
          result := result + [row];
        }
        i := i + 1;
      }
      ScanKeysStop(data, t, keys[i..], result);
      r := Ok(result);
    }

    method DeleteSchemaAndData(t: Name)
      modifies this
      ensures State() == Step(old(State()), Drop(t))
    {
      schemas := schemas - {t};
      var doomed := CollectPrefix(DataPrefix(t));
      data := RemoveAll(data, doomed);
      data := data - {CounterKey(t)};
    }

    method CollectPrefix(prefix: Bytes) returns (doomed: seq<Bytes>)
      ensures forall b :: b in doomed <==> b in data && StartsWith(b, prefix)
    {
      var keys := RangeFrom(data, prefix);
      doomed := [];
      var i := 0;
      while i < |keys| && StartsWith(keys[i], prefix)
        invariant 0 <= i <= |keys|
        invariant doomed == keys[..i]
        invariant forall b :: b in keys[..i] ==> StartsWith(b, prefix)
      {
        doomed := doomed + [keys[i]];
        i := i + 1;
      }
      DoomedAreAll(data, prefix, i);
    }

    method ReadCounterOf(t: Name) returns (c: Result<I64>)
      ensures c == ReadCounter(data, t)
    {
      if CounterKey(t) !in data { return Ok(0); }
      var bytes := data[CounterKey(t)];
      if |bytes| != 8 { return CounterCorrupted; }
      return Ok(ToSigned(W64, TakeInt(W64, bytes).value));
    }

    method AppendData(t: Name, rows: seq<Blob>) returns (r: Result<()>)
      modifies this
      ensures State() == Step(old(State()), Append(t, rows))
      ensures r.Ok? <==> rows == [] || ReadCounter(old(data), t).Ok?
    {
      if rows == [] { return Ok(()); }
      var read := ReadCounterOf(t);
      if !read.Ok? { return CounterCorrupted; }
      var counter := AppendFrom(t, read.value, rows);
      data := data[CounterKey(t) := CounterBytes(counter)];
      return Ok(());
    }

    method AppendFrom(t: Name, start: I64, rows: seq<Blob>) returns (counter: I64)
      modifies this
      ensures schemas == old(schemas)
      ensures data == AppendedFrom(Redb, old(data), t, start, rows)
      ensures counter == Advance(start, |rows|)
    {
      hide AppendedFrom, Advance, Succ, DataKey, RowId;
      counter := start;
      assert rows[0..] == rows;
      for i := 0 to |rows|
        invariant schemas == old(schemas)
        invariant AppendedFrom(Redb, data, t, counter, rows[i..]) == AppendedFrom(Redb, old(data), t, start, rows)
        invariant Advance(counter, |rows| - i) == Advance(start, |rows|)
      {
        AppendStep(Redb, data, t, counter, rows, i);
        counter := Succ(counter);
        data := data[RedbKey(t, RowId(counter)) := rows[i]];
      }
      AppendStop(Redb, data, t, counter, rows);
    }
  }
}

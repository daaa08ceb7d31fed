/** Which table names the layout keeps apart, and when auto-increment ids are fresh. */
module RedbTheorems {
  import opened Wrappers
  import opened Integers
  import opened Lex
  import opened KeyCodec
  import opened RowLayout
  import opened Tables
  import opened RedbStorage
  import opened RedbRefinement

  // ---- table names

  lemma AscendingSingleton(b: Bytes)
    ensures Ascending({b}) == [b]
  {
    var r := Ascending({b});
    assert b in r;
    if |r| > 1 {
      assert r[0] in r && r[1] in r && Less(r[0], r[1]);
      LessAsymmetric(b, b);
    }
  }

  lemma ScanSingleton(b: Bytes, v: Blob, u: Name)
    ensures Scan(map[b := v], u) ==
            if !StartsWith(b, DataPrefix(u)) || StartsWith(b, COUNTER_PREFIX) then Ok([])
            else match DecodeKey(Redb, b[|DataPrefix(u)|..])
                 case None => CannotDecodeKey
                 case Some(k) => Ok([(k, v)])
  {
    var data := map[b := v];
    var from := set x | x in data && !Less(x, DataPrefix(u));
    assert RangeFrom(data, DataPrefix(u)) == Ascending(from);
    if Less(b, DataPrefix(u)) {
      assert from == {};
      if StartsWith(b, DataPrefix(u)) { PrefixIsLowerBound(b, DataPrefix(u)); }
    } else {
      assert from == {b};
      AscendingSingleton(b);
      var keys := RangeFrom(data, DataPrefix(u));
      assert keys[1..] == [] && ScanKeys(data, u, keys[1..]) == Ok([]);
      if StartsWith(b, DataPrefix(u)) {
        var decoded := DecodeKey(Redb, b[|DataPrefix(u)|..]);
        if decoded.Some? {
          var row := [(decoded.value, v)];
          assert Prepend(row, Ok([])) == Ok(row + []) && row + [] == row;
        }
      }
    }
  }

  /** A row of `t` shows up in a scan of `t`, and in no scan of another good name. */
  ghost predicate Isolated(t: Name) {
    forall u: Name, k: Key, v: Blob :: GoodName(u) || u == t ==>
      Scan(map[RedbKey(t, k) := v], u) == Ok(if u == t then [(Canonical(k), v)] else [])
  }

  lemma GoodNameIsIsolated(t: Name, u: Name, k: Key, v: Blob)
    requires GoodName(t) && GoodName(u)
    ensures Scan(map[RedbKey(t, k) := v], u) == Ok(if u == t then [(Canonical(k), v)] else [])
  {
    ScanSingleton(RedbKey(t, k), v, u);
    PrefixDeterminesName(t, u, EncodeKey(Redb, k));
    CounterKeyIsNoRow(Redb, t, t, k);
    DataKeySuffix(Redb, t, k);
    DecodeEncodeKey(Redb, k);
  }

  function FirstNul(t: Name): (i: nat)
    requires !NulFree(t)
    ensures i < |t| && t[i] == 0 && NulFree(t[..i])
  {
    if t[0] == 0 then 0 else
      assert t[1..][..FirstNul(t[1..])] == t[1..1 + FirstNul(t[1..])];
      assert t[..1 + FirstNul(t[1..])] == [t[0]] + t[1..1 + FirstNul(t[1..])];
      1 + FirstNul(t[1..])
  }

  /** A row of a bad name is missing from its own scan, or spoils that of a good name. */
  lemma BadNameLeaks(t: Name) returns (u: Name)
    requires !GoodName(t)
    ensures GoodName(u) || u == t
    ensures Scan(map[RedbKey(t, Absent) := []], u) != Ok(if u == t then [(Absent, [])] else [])
  {
    var a := if NulFree(t) then t else t[..FirstNul(t)];
    var b := RedbKey(t, Absent);
    var tail := b[|a| + 1..];
    assert b == DataPrefix(a) + tail;
    PrefixDeterminesName(a, COUNTER_NAME, tail);
    PrefixDeterminesName(a, a, tail);
    u := if a == COUNTER_NAME then t else a;
    ScanSingleton(b, [], u);
  }

  /** The layout keeps a table apart from all others exactly when its name has no
      NUL byte and is not the reserved `\x01counter`. */
  lemma IsolatedIffGoodName(t: Name)
    ensures Isolated(t) <==> GoodName(t)
  {
    hide Scan, DataKey, GoodName;
    if GoodName(t) {
      forall u: Name, k: Key, v: Blob | GoodName(u) || u == t
        ensures Scan(map[RedbKey(t, k) := v], u) == Ok(if u == t then [(Canonical(k), v)] else [])
      {
        GoodNameIsIsolated(t, u, k, v);
      }
    } else {
      var u := BadNameLeaks(t);
    }
  }

  // ---- auto-increment ids

  ghost predicate IdsAtMost(db: Db, t: Name, bound: int) {
    forall n: I64 :: (t, RowId(n)) in db.rows ==> n <= bound
  }

  ghost predicate IdsBelowCounters(db: Db) {
    forall t :: IdsAtMost(db, t, Counter(db, t))
  }

  /** Keyed inserts stay at or below the counter (re-inserting a row that is
      present does), and appends do not run past the largest `i64`. */
  ghost predicate Disciplined(db: Db, op: Op) {
    match op
    case Insert(t, rows) =>
      forall i, n: I64 :: 0 <= i < |rows| && rows[i].0 == RowId(n) ==> n <= Counter(db, t)
    case Append(t, blobs) => Counter(db, t) + |blobs| <= I64_MAX
    case _ => true
  }

  ghost predicate DisciplinedRun(db: Db, ops: seq<Op>)
    decreases ops
  {
    ops == [] || (Disciplined(db, ops[0]) && DisciplinedRun(AbsStep(db, ops[0]), ops[1..]))
  }

  /** An insert keeps every id at or below its counter exactly when each inserted id is. */
  lemma InsertKeepsIdsIff(db: Db, t: Name, rows: seq<(Key, Blob)>)
    requires IdsBelowCounters(db)
    ensures IdsBelowCounters(AbsStep(db, Insert(t, rows))) <==> Disciplined(db, Insert(t, rows))
  {
    var db' := AbsStep(db, Insert(t, rows));
    forall u: Name, n: I64
      ensures (u, RowId(n)) in db'.rows <==>
              (u, RowId(n)) in db.rows || (u == t && exists i :: 0 <= i < |rows| && Canonical(rows[i].0) == RowId(n))
    {
      InsertMeans(db.rows, t, rows, u, RowId(n));
    }
    if Disciplined(db, Insert(t, rows)) {
      forall u: Name, n: I64 | (u, RowId(n)) in db'.rows ensures n <= Counter(db', u) {
        if (u, RowId(n)) in db.rows {
          assert IdsAtMost(db, u, Counter(db, u));
        } else {
          var i :| 0 <= i < |rows| && Canonical(rows[i].0) == RowId(n);
          assert rows[i].0 == RowId(n);
        }
      }
    }
    if IdsBelowCounters(db') {
      assert IdsAtMost(db', t, Counter(db', t));
      forall i, n: I64 | 0 <= i < |rows| && rows[i].0 == RowId(n) ensures n <= Counter(db, t) {
        assert Canonical(rows[i].0) == RowId(n);
        assert (t, RowId(n)) in db'.rows;
      }
    }
  }

  lemma StepKeepsIds(db: Db, op: Op)
    requires IdsBelowCounters(db) && Disciplined(db, op)
    ensures IdsBelowCounters(AbsStep(db, op))
  {
    var db' := AbsStep(db, op);
    if op.Insert? {
      InsertKeepsIdsIff(db, op.table, op.rows);
    } else {
      forall u: Name, n: I64 | (u, RowId(n)) in db'.rows ensures n <= Counter(db', u) {
        assert IdsAtMost(db, u, Counter(db, u));
        match op {
          case Delete(t, keys) => DeleteMeans(db.rows, t, keys, u, RowId(n));
          case Append(t, blobs) =>
            if blobs != [] {
              AdvanceCounts(Counter(db, t), |blobs|);
              AppendAssignsBelowMax(db.rows, t, Counter(db, t), blobs, u, RowId(n));
            }
          case _ =>
        }
      }
    }
  }

  lemma {:induction false} RunKeepsIds(db: Db, ops: seq<Op>)
    requires IdsBelowCounters(db) && DisciplinedRun(db, ops)
    ensures IdsBelowCounters(AbsRun(db, ops))
    decreases ops
  {
    if ops != [] {
      StepKeepsIds(db, ops[0]);
      RunKeepsIds(AbsStep(db, ops[0]), ops[1..]);
    }
  }

  ghost predicate AllSurvive(before: map<(Name, Key), Blob>, after: map<(Name, Key), Blob>) {
    forall u: Name, k: Key :: (u, k) in before ==> (u, k) in after && after[(u, k)] == before[(u, k)]
  }

  lemma TakenAreAbove(db: Db, t: Name, n: nat)
    requires IdsAtMost(db, t, Counter(db, t)) && Counter(db, t) + n <= I64_MAX
    ensures forall k: Key :: IsTaken(Counter(db, t), n, k) ==> (t, k) !in db.rows
  {
    var c := Counter(db, t);
    forall k: Key | IsTaken(c, n, k) ensures (t, k) !in db.rows {
      var i: nat :| i < n && k == RowId(IdAt(c, i));
      AdvanceCounts(c, i + 1);
    }
  }

  /** Each appended row is found under its id, where there was none before. */
  ghost predicate StoredFresh(before: map<(Name, Key), Blob>, after: map<(Name, Key), Blob>, t: Name, c: I64, blobs: seq<Blob>) {
    forall id: I64 :: c < id <= c + |blobs| ==>
      (t, RowId(id)) !in before && (t, RowId(id)) in after && after[(t, RowId(id))] == blobs[id - c - 1]
  }

  lemma CoveredIsStoredFresh(db: Db, t: Name, blobs: seq<Blob>)
    requires IdsAtMost(db, t, Counter(db, t)) && Counter(db, t) + |blobs| <= I64_MAX
    ensures StoredFresh(db.rows, AbsStep(db, Append(t, blobs)).rows, t, Counter(db, t), blobs)
  {
    hide AppendRows;
    var c := Counter(db, t);
    forall id: I64 | c < id <= c + |blobs|
      ensures var after := AbsStep(db, Append(t, blobs)).rows;
              (t, RowId(id)) !in db.rows && (t, RowId(id)) in after && after[(t, RowId(id))] == blobs[id - c - 1]
    {
      AppendAssignsBelowMax(db.rows, t, c, blobs, t, RowId(id));
    }
  }

  /** After any disciplined run, appending rows uses ids above every live id of the
      table, in row order, and leaves every live row as it was. */
  lemma EveryAppendIsFresh(ops: seq<Op>, t: Name, blobs: seq<Blob>)
    requires DisciplinedRun(Db(map[], map[], map[]), ops)
    requires Disciplined(AbsRun(Db(map[], map[], map[]), ops), Append(t, blobs))
    ensures var db := AbsRun(Db(map[], map[], map[]), ops);
            var after := AbsStep(db, Append(t, blobs)).rows;
            IdsAtMost(db, t, Counter(db, t)) && AllSurvive(db.rows, after) && StoredFresh(db.rows, after, t, Counter(db, t), blobs)
  {
    hide AbsStep, AbsRun, DisciplinedRun, AllSurvive, StoredFresh, IsTaken;
    var db := AbsRun(Db(map[], map[], map[]), ops);
    EmptyIsBelow();
    RunKeepsIds(Db(map[], map[], map[]), ops);
    assert IdsAtMost(db, t, Counter(db, t));
    TakenAreAbove(db, t, |blobs|);
    AppendSafeIff(db, t, |blobs|);
    CoveredIsStoredFresh(db, t, blobs);
  }

  lemma EmptyIsBelow()
    ensures IdsBelowCounters(Db(map[], map[], map[]))
  {
  }

  /** The same of the bytes on disk: what could be fetched before an append still can, and
      the new rows are fetched under ids that fetched nothing before. */
  lemma EveryStoredAppendIsFresh(ops: seq<Op>, t: Name, blobs: seq<Blob>, u: Name, k: Key, id: I64)
    requires GoodName(t) && GoodName(u) && forall op :: op in ops ==> GoodName(op.table)
    requires DisciplinedRun(Db(map[], map[], map[]), ops)
    requires Disciplined(AbsRun(Db(map[], map[], map[]), ops), Append(t, blobs))
    ensures var before := Run(Disk(map[], map[]), ops);
            var after := Step(before, Append(t, blobs));
            && ReadCounter(before.data, t).Ok?
            && var c := ReadCounter(before.data, t).value;
            && (Fetch(before.data, u, k).Some? ==> Fetch(after.data, u, k) == Fetch(before.data, u, k))
            && (c < id <= c + |blobs| ==>
                  Fetch(before.data, t, RowId(id)) == None && Fetch(after.data, t, RowId(id)) == Some(blobs[id - c - 1]))
  {
    hide Run, AbsRun, Step, AbsStep, Represents, Holds, Fetch, ReadCounter, DisciplinedRun;
    var d, db := Run(Disk(map[], map[]), ops), AbsRun(Db(map[], map[], map[]), ops);
    var d', db' := Step(d, Append(t, blobs)), AbsStep(db, Append(t, blobs));
    assert Represents(d, db) && Represents(d', db') by {
      EmptyIsRepresented();
      RunRefines(Disk(map[], map[]), Db(map[], map[], map[]), ops);
      StepRefines(d, db, Append(t, blobs));
    }
    RepresentsHolds(d, db);
    RepresentsHolds(d', db');
    EveryAppendIsFresh(ops, t, blobs);
    CounterReadsBack(d.data, db, t);
    FetchFinds(d.data, db, u, k);
    FetchFinds(d'.data, db', u, k);
    FetchFinds(d.data, db, t, RowId(id));
    FetchFinds(d'.data, db', t, RowId(id));
  }

  lemma EmptyIsRepresented()
    ensures Represents(Disk(map[], map[]), Db(map[], map[], map[]))
  {
  }

  lemma RepresentsHolds(d: Disk, db: Db)
    requires Represents(d, db)
    ensures Holds(d.data, db)
  {
  }

  /** Whatever the history, an append leaves all live rows alone exactly when none of the ids
      it counts up to is live. */
  lemma AppendSafeIff(db: Db, t: Name, n: nat)
    ensures (forall blobs: seq<Blob> :: |blobs| == n ==> AllSurvive(db.rows, AbsStep(db, Append(t, blobs)).rows))
            <==> forall k: Key :: IsTaken(Counter(db, t), n, k) ==> (t, k) !in db.rows
  {
    hide IsTaken, IsLast;
    var c := Counter(db, t);
    if k: Key :| IsTaken(c, n, k) && (t, k) in db.rows {
      var other := db.rows[(t, k)] + [0];
      var blobs := seq(n, _ => other);
      var i := LastExists(c, n, k);
      AppendAssigns(db.rows, t, c, blobs, t, k);
      LastInRange(c, n, k, i);
      assert !AllSurvive(db.rows, AbsStep(db, Append(t, blobs)).rows);
    } else {
      forall blobs: seq<Blob> | |blobs| == n ensures AllSurvive(db.rows, AbsStep(db, Append(t, blobs)).rows) {
        forall u: Name, k: Key | (u, k) in db.rows
          ensures var m := AbsStep(db, Append(t, blobs)).rows; (u, k) in m && m[(u, k)] == db.rows[(u, k)]
        {
          AppendAssigns(db.rows, t, c, blobs, u, k);
        }
      }
    }
  }

  /** On an empty store, a keyed insert above the counter and an append: the append takes the id
      of the inserted row and overwrites it. */
  lemma OverwritingAppendExample(t: Name)
    requires GoodName(t)
    ensures var ops := [Insert(t, [(RowId(1), [1])])];
            var before, after := Run(Disk(map[], map[]), ops), Run(Disk(map[], map[]), ops + [Append(t, [[2]])]);
            && Fetch(before.data, t, RowId(1)) == Some([1]) && Fetch(after.data, t, RowId(1)) == Some([2])
            && !DisciplinedRun(Db(map[], map[], map[]), ops)
  {
    hide Run, Fetch, Scan, GoodName;
    var empty := Db(map[], map[], map[]);
    var insert, append := Insert(t, [(RowId(1), [1])]), Append(t, [[2]]);
    var ops := [insert] + [append];
    EveryRunReads([insert], t, RowId(1));
    EveryRunReads(ops, t, RowId(1));
    var db := AbsStep(empty, insert);
    assert InsertRows(map[], t, [(RowId(1), [1])]) == map[(t, RowId(1)) := [1]];
    assert AppendRows(db.rows, t, 0, [[2]]) == map[(t, RowId(1)) := [2]];
    assert AbsRun(empty, [insert]) == db;
    assert ops[1..] == [append] && AbsRun(db, [append]) == AbsStep(db, append);
    assert insert.rows[0].0 == RowId(1) && !Disciplined(empty, insert);
  }

  lemma LastInRange(c: I64, n: nat, k: Key, i: nat)
    requires IsLast(c, n, k, i)
    ensures i < n
  {
  }
}

/** The fjall back-end: the same row layout, with the auto-increment counters kept
    in memory only and rebuilt from the stored keys after a reopen. */
module FjallStorage {
  import opened Wrappers
  import opened Integers
  import opened Lex
  import opened KeyCodec
  import opened RowLayout

  datatype Store = Store(schemas: map<Name, Blob>, data: map<Bytes, Blob>, nextKey: map<Name, I64>)

  function FjallKey(t: Name, k: Key): Bytes { DataKey(Fjall, t, k) }

  /** The row id stored in byte key `b`, when `b` is a 64-bit integer key of `t`. */
  function StoredId(t: Name, b: Bytes): Option<I64> {
    var n := |DataPrefix(t)|;
    if !StartsWith(b, DataPrefix(t)) then None
    else if |b| - n != 9 || b[n] != 0x13 then None
    else Some(ToSigned(W64, FlipSign(W64, TakeInt(W64, b[n + 1..]).value)))
  }

  function LargestId(t: Name, keys: seq<Bytes>): Option<I64>
    decreases keys
  {
    if keys == [] then None else
      match (StoredId(t, keys[|keys| - 1]), LargestId(t, keys[..|keys| - 1]))
      case (None, m) => m
      case (id, None) => id
      case (Some(id), Some(m)) => Some(if id > m then id else m)
  }

  function PrefixKeys(data: map<Bytes, Blob>, t: Name): (r: seq<Bytes>)
    ensures StrictlySorted(r)
    ensures forall b :: b in r <==> b in data && StartsWith(b, DataPrefix(t))
  {
    Ascending(set b | b in data && StartsWith(b, DataPrefix(t)))
  }

  /** The counter an append starts from: the one in memory, else the largest stored
      id, but never below zero. */
  function CounterFor(s: Store, t: Name): I64 {
    if t in s.nextKey then s.nextKey[t] else
      match LargestId(t, PrefixKeys(s.data, t))
      case Some(m) => if m > 0 then m else 0
      case None => 0
  }

  /** The counter raised to the largest stored id, or to zero if there is none. */
  function Synced(s: Store, t: Name): I64 {
    var have := if t in s.nextKey then s.nextKey[t] else 0;
    var found := match LargestId(t, PrefixKeys(s.data, t)) case Some(m) => m case None => 0;
    if found > have then found else have
  }

  function Fetch(data: map<Bytes, Blob>, t: Name, k: Key): Option<Blob> {
    if FjallKey(t, k) in data then Some(data[FjallKey(t, k)]) else None
  }

  /** The row under a key of the table, none if its key does not decode. */
  function RowAt(data: map<Bytes, Blob>, t: Name, b: Bytes): seq<(Key, Blob)>
    requires b in data && StartsWith(b, DataPrefix(t))
  {
    match DecodeKey(Fjall, b[|DataPrefix(t)|..])
    case Some(k) => [(k, data[b])]
    case None => []
  }

  /** The rows under these keys; what does not decode is passed over. */
  function ScanKeys(data: map<Bytes, Blob>, t: Name, keys: seq<Bytes>): seq<(Key, Blob)>
    requires forall b :: b in keys ==> b in data && StartsWith(b, DataPrefix(t))
  {
    if keys == [] then [] else
      assert keys[0] in keys && forall b :: b in keys[1..] ==> b in keys;
      RowAt(data, t, keys[0]) + ScanKeys(data, t, keys[1..])
  }

  lemma ScanStep(data: map<Bytes, Blob>, t: Name, keys: seq<Bytes>, i: nat, rows: seq<(Key, Blob)>)
    requires (forall b :: b in keys ==> b in data && StartsWith(b, DataPrefix(t))) && i < |keys|
    ensures forall b :: b in keys[i..] || b in keys[i + 1..] || b == keys[i] ==> b in keys
    ensures rows + ScanKeys(data, t, keys[i..]) == rows + RowAt(data, t, keys[i]) + ScanKeys(data, t, keys[i + 1..])
  {
    hide RowAt, StartsWith, DataPrefix;
    assert keys[i..][1..] == keys[i + 1..];
    assert ScanKeys(data, t, keys[i..]) == RowAt(data, t, keys[i]) + ScanKeys(data, t, keys[i + 1..]);
  }

  lemma NoKeysLeft(data: map<Bytes, Blob>, t: Name, keys: seq<Bytes>, rows: seq<(Key, Blob)>)
    requires keys == []
    ensures rows + ScanKeys(data, t, keys) == rows
  {
  }

  function Scan(data: map<Bytes, Blob>, t: Name): seq<(Key, Blob)> { ScanKeys(data, t, PrefixKeys(data, t)) }

  datatype Op =
    | PutSchema(table: Name, schema: Blob)
    | Insert(table: Name, rows: seq<(Key, Blob)>)
    | Delete(table: Name, keys: seq<Key>)
    | Append(table: Name, blobs: seq<Blob>)
    | Drop(table: Name)
    | Reopen(table: Name)

  function Step(s: Store, op: Op): Store {
    match op
    case PutSchema(t, schema) => s.(schemas := s.schemas[t := schema])
    case Insert(t, rows) => s.(data := Inserted(Fjall, s.data, t, rows))
    case Delete(t, keys) => s.(data := Deleted(Fjall, s.data, t, keys))
    case Append(t, blobs) =>
      var c := CounterFor(s, t);
      s.(data := AppendedFrom(Fjall, s.data, t, c, blobs), nextKey := s.nextKey[t := Advance(c, |blobs|)])
    case Drop(t) =>
      Store(s.schemas - {t},
            map b | b in s.data && !StartsWith(b, DataPrefix(t)) :: s.data[b],
            s.nextKey - {t})
    case Reopen(_) => s.(nextKey := map[])
  }

  function Run(s: Store, ops: seq<Op>): Store
    decreases ops
  {
    if ops == [] then s else Run(Step(s, ops[0]), ops[1..])
  }

  class FjallGlueStorage {
    var schemas: map<Name, Blob>
    var data: map<Bytes, Blob>
    var nextKey: map<Name, I64>

    function State(): Store
      reads this
    {
      Store(schemas, data, nextKey)
    }

    /** Opening finds what is on disk and starts with no counters. */
    constructor Open(schemas: map<Name, Blob>, data: map<Bytes, Blob>)
      ensures State() == Store(schemas, data, map[])
    {
      this.schemas, this.data, nextKey := schemas, data, map[];
    }

    method InsertSchema(t: Name, schema: Blob)
      modifies this
      ensures State() == Step(old(State()), PutSchema(t, schema))
    {
      schemas := schemas[t := schema];
    }

    method InsertData(t: Name, rows: seq<(Key, Blob)>)
      modifies this`data
      ensures State() == Step(old(State()), Insert(t, rows))
    {
      assert rows[0..] == rows;
      for i := 0 to |rows|
        invariant Inserted(Fjall, data, t, rows[i..]) == Inserted(Fjall, old(data), t, rows)
      {
        assert rows[i..][1..] == rows[i + 1..];
        data := data[FjallKey(t, rows[i].0) := rows[i].1];
      }
    }

    method DeleteData(t: Name, keys: seq<Key>)
      modifies this`data
      ensures State() == Step(old(State()), Delete(t, keys))
    {
      assert keys[0..] == keys;
      for i := 0 to |keys|
        invariant Deleted(Fjall, data, t, keys[i..]) == Deleted(Fjall, old(data), t, keys)
      {
        assert keys[i..][1..] == keys[i + 1..];
        data := data - {FjallKey(t, keys[i])};
      }
    }

    method FetchData(t: Name, k: Key) returns (row: Option<Blob>)
      ensures row == Fetch(data, t, k)
    {
      var composite := FjallKey(t, k);
      row := if composite in data then Some(data[composite]) else None;
    }

    method ScanData(t: Name) returns (rows: seq<(Key, Blob)>)
      ensures rows == Scan(data, t)
    {
      hide DecodeKey, DataPrefix, ScanKeys, PrefixKeys;
      var keys := PrefixKeys(data, t);
      rows := [];
      assert keys[0..] == keys && [] + ScanKeys(data, t, keys) == ScanKeys(data, t, keys);
      for i := 0 to |keys|
        invariant rows + ScanKeys(data, t, keys[i..]) == Scan(data, t)
      {
        ScanStep(data, t, keys, i, rows);
        assert keys[i] in keys && StartsWith(keys[i], DataPrefix(t));
        var decoded := DecodeKey(Fjall, keys[i][|DataPrefix(t)|..]);
        if decoded.Some? {
          rows := rows + [(decoded.value, data[keys[i]])];
        } else {
          assert rows + RowAt(data, t, keys[i]) == rows;
        }
      }
      NoKeysLeft(data, t, keys[|keys|..], rows);
    }

    method SyncCounterFor(t: Name)
      modifies this`nextKey
      ensures nextKey == old(nextKey)[t := Synced(old(State()), t)]
    {
      hide LargestId, PrefixKeys;
      var keys := PrefixKeys(data, t);
      var maxId := MaxStoredId(t, keys);
      var found: I64 := if maxId.Some? then maxId.value else 0;
      if t !in nextKey { nextKey := nextKey[t := 0]; }
      if found > nextKey[t] { nextKey := nextKey[t := found]; }
    }

    method MaxStoredId(t: Name, keys: seq<Bytes>) returns (maxId: Option<I64>)
      ensures maxId == LargestId(t, keys)
    {
      hide StoredId;
      maxId := None;
      for i := 0 to |keys|
        invariant maxId == LargestId(t, keys[..i])
      {
        assert keys[..i + 1][..i] == keys[..i];
        var id := StoredId(t, keys[i]);
        if id.Some? && (maxId.None? || id.value > maxId.value) { maxId := id; }
      }
      assert keys[..|keys|] == keys;
    }

    method NextId(t: Name) returns (id: I64)
      modifies this`nextKey
      ensures id == Succ(if t in old(nextKey) then old(nextKey)[t] else 0)
      ensures nextKey == old(nextKey)[t := id]
    {
      var counter := if t in nextKey then nextKey[t] else 0;
      id := Succ(counter);
      nextKey := nextKey[t := id];
    }

    method AppendData(t: Name, rows: seq<Blob>)
      modifies this
      ensures State() == Step(old(State()), Append(t, rows))
    {
      hide AppendedFrom, Advance, LargestId, PrefixKeys;
      if t !in nextKey { SyncCounterFor(t); }
      AppendRows(t, rows);
    }

    method AppendRows(t: Name, rows: seq<Blob>)
      requires t in nextKey
      modifies this
      ensures schemas == old(schemas)
      ensures data == AppendedFrom(Fjall, old(data), t, old(nextKey)[t], rows)
      ensures nextKey == old(nextKey)[t := Advance(old(nextKey)[t], |rows|)]
    {
      hide AppendedFrom, Advance, Succ, DataKey, RowId;
      assert rows[0..] == rows;
      for i := 0 to |rows|
        invariant schemas == old(schemas) && t in nextKey
        invariant nextKey == old(nextKey)[t := nextKey[t]]
        invariant AppendedFrom(Fjall, data, t, nextKey[t], rows[i..]) == AppendedFrom(Fjall, old(data), t, old(nextKey)[t], rows)
        invariant Advance(nextKey[t], |rows| - i) == Advance(old(nextKey)[t], |rows|)
      {
        AppendStep(Fjall, data, t, nextKey[t], rows, i);
        var id := NextId(t);
        data := data[FjallKey(t, RowId(id)) := rows[i]];
      }
      AppendStop(Fjall, data, t, nextKey[t], rows);
    }

    method DeleteSchema(t: Name)
      modifies this
      ensures State() == Step(old(State()), Drop(t))
    {
      schemas := schemas - {t};
      var doomed := PrefixKeys(data, t);
      data := RemoveAll(data, doomed);
      nextKey := nextKey - {t};
    }
  }

  // ---- what the rebuilt counter is worth

  lemma StoredIdOfRow(t: Name, n: I64)
    ensures StoredId(t, FjallKey(t, RowId(n))) == Some(n)
  {
    var b, p := FjallKey(t, RowId(n)), |DataPrefix(t)|;
    DataKeySuffix(Fjall, t, RowId(n));
    var payload := IntBytes(W64, FlipSign(W64, ToUnsigned(W64, n)));
    assert b[p..] == [0x13] + payload;
    assert b[p] == b[p..][0] && b[p + 1..] == b[p..][1..] == payload;
    FlippedIsShifted(W64, n);
    TakeIntEncode(W64, FlipSign(W64, ToUnsigned(W64, n)));
  }

  lemma {:induction false} LargestIdBounds(t: Name, keys: seq<Bytes>, b: Bytes)
    requires b in keys && StoredId(t, b).Some?
    ensures LargestId(t, keys).Some? && StoredId(t, b).value <= LargestId(t, keys).value
    decreases keys
  {
    if b != keys[|keys| - 1] {
      assert b in keys[..|keys| - 1];
      LargestIdBounds(t, keys[..|keys| - 1], b);
    }
  }

  ghost predicate LiveId(s: Store, t: Name, n: I64) {
    FjallKey(t, RowId(n)) in s.data
  }

  /** No live id exceeds a counter held in memory. */
  ghost predicate IdsBelowCounters(s: Store) {
    forall t, n: I64 :: t in s.nextKey && LiveId(s, t, n) ==> n <= s.nextKey[t]
  }

  /** The counter an append starts from is at or above every live id, also right
      after a reopen. */
  lemma CounterCoversIds(s: Store, t: Name, n: I64)
    requires IdsBelowCounters(s) && LiveId(s, t, n)
    ensures n <= CounterFor(s, t)
  {
    if t !in s.nextKey {
      StoredIdOfRow(t, n);
      DataKeySuffix(Fjall, t, RowId(n));
      LargestIdBounds(t, PrefixKeys(s.data, t), FjallKey(t, RowId(n)));
    }
  }

  /** Keyed inserts stay at or below a counter held in memory, and appends do not
      run past the largest `i64`. */
  ghost predicate Disciplined(s: Store, op: Op) {
    NulFree(op.table) &&
    match op
    case Insert(t, rows) =>
      forall i, n: I64 :: 0 <= i < |rows| && rows[i].0 == RowId(n) && t in s.nextKey ==> n <= s.nextKey[t]
    case Append(t, blobs) => CounterFor(s, t) + |blobs| <= I64_MAX
    case _ => true
  }

  ghost predicate NamesAreNulFree(s: Store) {
    forall t :: t in s.nextKey ==> NulFree(t)
  }

  ghost predicate DisciplinedRun(s: Store, ops: seq<Op>)
    decreases ops
  {
    ops == [] || (Disciplined(s, ops[0]) && DisciplinedRun(Step(s, ops[0]), ops[1..]))
  }

  lemma {:induction false} InsertedAdds(data: map<Bytes, Blob>, t: Name, rows: seq<(Key, Blob)>, b: Bytes)
    requires b in Inserted(Fjall, data, t, rows) && b !in data
    ensures exists i :: 0 <= i < |rows| && b == FjallKey(t, rows[i].0)
    decreases rows
  {
    if b != FjallKey(t, rows[0].0) {
      InsertedAdds(data[FjallKey(t, rows[0].0) := rows[0].1], t, rows[1..], b);
      var i :| 0 <= i < |rows[1..]| && b == FjallKey(t, rows[1..][i].0);
      assert rows[1..][i] == rows[i + 1];
    }
  }

  lemma {:induction false} DeletedShrinks(data: map<Bytes, Blob>, t: Name, keys: seq<Key>, b: Bytes)
    ensures b in Deleted(Fjall, data, t, keys) ==> b in data
    decreases keys
  {
    if keys != [] { DeletedShrinks(data - {FjallKey(t, keys[0])}, t, keys[1..], b); }
  }

  /** An append writes under no other id. */
  lemma {:induction false} AppendedElsewhere(data: map<Bytes, Blob>, t: Name, c: I64, rows: seq<Blob>, b: Bytes)
    requires c + |rows| <= I64_MAX
    requires forall id: I64 :: c < id <= c + |rows| ==> b != FjallKey(t, RowId(id))
    ensures var after := AppendedFrom(Fjall, data, t, c, rows);
            (b in after <==> b in data) && (b in data ==> after[b] == data[b])
    decreases rows
  {
    if rows != [] {
      AppendedElsewhere(data[FjallKey(t, RowId(Succ(c))) := rows[0]], t, Succ(c), rows[1..], b);
    }
  }

  /** Without wrap-around an append stores row `i` under id `c + 1 + i`. */
  lemma {:induction false} AppendedAt(data: map<Bytes, Blob>, t: Name, c: I64, rows: seq<Blob>, id: I64)
    requires NulFree(t) && c < id <= c + |rows| <= I64_MAX
    ensures var after := AppendedFrom(Fjall, data, t, c, rows);
            FjallKey(t, RowId(id)) in after && after[FjallKey(t, RowId(id))] == rows[id - c - 1]
    decreases rows
  {
    hide DataKey, NulFree;
    var next := data[FjallKey(t, RowId(Succ(c))) := rows[0]];
    if id == c + 1 {
      forall j: I64 | j > id ensures FjallKey(t, RowId(id)) != FjallKey(t, RowId(j)) {
        DataKeyInjective(Fjall, t, RowId(id), t, RowId(j));
      }
      AppendedElsewhere(next, t, Succ(c), rows[1..], FjallKey(t, RowId(id)));
    } else {
      AppendedAt(next, t, Succ(c), rows[1..], id);
    }
  }

  lemma AppendKeepsIds(s: Store, t: Name, blobs: seq<Blob>)
    requires IdsBelowCounters(s) && NamesAreNulFree(s) && Disciplined(s, Append(t, blobs))
    ensures IdsBelowCounters(Step(s, Append(t, blobs)))
  {
    var s', c := Step(s, Append(t, blobs)), CounterFor(s, t);
    AdvanceCounts(c, |blobs|);
    forall u, n: I64 | u in s'.nextKey && LiveId(s', u, n) ensures n <= s'.nextKey[u] {
      forall id: I64 ensures FjallKey(u, RowId(n)) == FjallKey(t, RowId(id)) ==> u == t && n == id {
        DataKeyInjective(Fjall, u, RowId(n), t, RowId(id));
      }
      if u != t || !(c < n <= c + |blobs|) {
        AppendedElsewhere(s.data, t, c, blobs, FjallKey(u, RowId(n)));
        CounterCoversIds(s, u, n);
      }
    }
  }

  lemma InsertKeepsIds(s: Store, t: Name, rows: seq<(Key, Blob)>)
    requires IdsBelowCounters(s) && NamesAreNulFree(s) && Disciplined(s, Insert(t, rows))
    ensures IdsBelowCounters(Step(s, Insert(t, rows)))
  {
    var s' := Step(s, Insert(t, rows));
    forall u, n: I64 | u in s'.nextKey && LiveId(s', u, n) ensures n <= s'.nextKey[u] {
      if LiveId(s, u, n) {
        CounterCoversIds(s, u, n);
      } else {
        InsertedAdds(s.data, t, rows, FjallKey(u, RowId(n)));
        var i :| 0 <= i < |rows| && FjallKey(u, RowId(n)) == FjallKey(t, rows[i].0);
        DataKeyInjective(Fjall, u, RowId(n), t, rows[i].0);
        assert rows[i].0 == RowId(n);
      }
    }
  }

  lemma {:induction false} InsertedHas(data: map<Bytes, Blob>, t: Name, rows: seq<(Key, Blob)>, b: Bytes)
    requires b in data || exists i :: 0 <= i < |rows| && b == FjallKey(t, rows[i].0)
    ensures b in Inserted(Fjall, data, t, rows)
    decreases rows
  {
    hide DataKey;
    if rows != [] {
      var rest := rows[1..];
      if b !in data {
        var i :| 0 <= i < |rows| && b == FjallKey(t, rows[i].0);
        if i > 0 { assert rest[i - 1] == rows[i]; }
      }
      InsertedHas(data[FjallKey(t, rows[0].0) := rows[0].1], t, rest, b);
    }
  }

  /** With a counter in memory, a keyed insert keeps live ids at or below it exactly when each
      inserted id is. */
  lemma InsertKeepsIdsIff(s: Store, t: Name, rows: seq<(Key, Blob)>)
    requires IdsBelowCounters(s) && NamesAreNulFree(s) && NulFree(t)
    ensures IdsBelowCounters(Step(s, Insert(t, rows))) <==> Disciplined(s, Insert(t, rows))
  {
    var s' := Step(s, Insert(t, rows));
    if Disciplined(s, Insert(t, rows)) {
      InsertKeepsIds(s, t, rows);
    } else {
      var i, n: I64 :| 0 <= i < |rows| && rows[i].0 == RowId(n) && t in s.nextKey && n > s.nextKey[t];
      InsertedHas(s.data, t, rows, FjallKey(t, RowId(n)));
      assert t in s'.nextKey && LiveId(s', t, n);
    }
  }

  lemma {:induction false} UntakenStays(data: map<Bytes, Blob>, t: Name, c: I64, rows: seq<Blob>, b: Bytes)
    requires b in data && forall id: I64 :: IsTaken(c, |rows|, RowId(id)) ==> b != FjallKey(t, RowId(id))
    ensures var after := AppendedFrom(Fjall, data, t, c, rows); b in after && after[b] == data[b]
    decreases rows
  {
    hide DataKey, IsTaken, Succ;
    if rows != [] {
      forall id: I64 ensures IsTaken(c, |rows|, RowId(id)) <==> id == Succ(c) || IsTaken(Succ(c), |rows| - 1, RowId(id)) {
        TakenSteps(c, |rows|, RowId(id));
      }
      UntakenStays(data[FjallKey(t, RowId(Succ(c))) := rows[0]], t, Succ(c), rows[1..], b);
    }
  }

  lemma {:induction false} TakenIsOverwritten(data: map<Bytes, Blob>, t: Name, c: I64, n: nat, v: Blob, id: I64)
    requires IsTaken(c, n, RowId(id)) || (FjallKey(t, RowId(id)) in data && data[FjallKey(t, RowId(id))] == v)
    ensures var after := AppendedFrom(Fjall, data, t, c, seq(n, _ => v));
            FjallKey(t, RowId(id)) in after && after[FjallKey(t, RowId(id))] == v
    decreases n
  {
    hide DataKey, IsTaken, Succ;
    var rows := seq(n, _ => v);
    if n == 0 {
      NothingTaken(c, id);
    } else {
      TakenSteps(c, n, RowId(id));
      assert rows[1..] == seq(n - 1, _ => v);
      TakenIsOverwritten(data[FjallKey(t, RowId(Succ(c))) := v], t, Succ(c), n - 1, v, id);
    }
  }

  lemma NothingTaken(c: I64, id: I64)
    ensures !IsTaken(c, 0, RowId(id))
  {
  }

  /** An append, which brings the counter into memory, a keyed insert above it, and an append that
      takes the id of the inserted row and overwrites it. */
  lemma OverwritingAppendExample(t: Name)
    ensures var ops := [Append(t, [[0]]), Insert(t, [(RowId(2), [1])])];
            var before := Run(Store(map[], map[], map[]), ops);
            var after := Step(before, Append(t, [[2]]));
            var b := FjallKey(t, RowId(2));
            && b in before.data && before.data[b] == [1] && b in after.data && after.data[b] == [2]
            && !DisciplinedRun(Store(map[], map[], map[]), ops)
  {
    hide DataKey, StoredId, DataPrefix, StartsWith;
    var empty := Store(map[], map[], map[]);
    var append, insert := Append(t, [[0]]), Insert(t, [(RowId(2), [1])]);
    assert PrefixKeys(map[], t) == [];
    var one := Step(empty, append);
    assert one.nextKey[t] == 1;
    var two := Step(one, insert);
    assert [append, insert][1..] == [insert] && [insert][1..] == [];
    assert Run(one, [insert]) == two && Run(empty, [append, insert]) == two;
    InsertOne(one.data, t, RowId(2), [1]);
    assert AppendedFrom(Fjall, two.data, t, 1, [[2]]) == two.data[FjallKey(t, RowId(2)) := [2]];
    assert insert.rows[0].0 == RowId(2) && !Disciplined(one, insert);
    assert !DisciplinedRun(one, [insert]);
  }

  lemma InsertOne(data: map<Bytes, Blob>, t: Name, k: Key, v: Blob)
    ensures Inserted(Fjall, data, t, [(k, v)]) == data[FjallKey(t, k) := v]
  {
    assert [(k, v)][1..] == [];
  }

  /** Whatever the history, an append leaves every entry alone exactly when none of the ids it
      counts up to is live. */
  lemma AppendSafeIff(s: Store, t: Name, n: nat)
    ensures (forall blobs: seq<Blob> :: |blobs| == n ==> EntriesSurvive(s.data, Step(s, Append(t, blobs)).data))
            <==> forall id: I64 :: IsTaken(CounterFor(s, t), n, RowId(id)) ==> !LiveId(s, t, id)
  {
    hide AppendedFrom, IsTaken, DataKey, CounterFor;
    var c := CounterFor(s, t);
    if id: I64 :| IsTaken(c, n, RowId(id)) && LiveId(s, t, id) {
      var b := FjallKey(t, RowId(id));
      var other := s.data[b] + [0];
      var blobs := seq(n, _ => other);
      TakenIsOverwritten(s.data, t, c, n, other, id);
      assert !EntriesSurvive(s.data, Step(s, Append(t, blobs)).data);
    } else {
      forall blobs: seq<Blob> | |blobs| == n ensures EntriesSurvive(s.data, Step(s, Append(t, blobs)).data) {
        forall b | b in s.data ensures var after := Step(s, Append(t, blobs)).data; b in after && after[b] == s.data[b] {
          UntakenStays(s.data, t, c, blobs, b);
        }
      }
    }
  }

  lemma StepKeepsIds(s: Store, op: Op)
    requires IdsBelowCounters(s) && NamesAreNulFree(s) && Disciplined(s, op)
    ensures IdsBelowCounters(Step(s, op)) && NamesAreNulFree(Step(s, op))
  {
    match op {
      case PutSchema(_, _) =>
        assert forall u, n: I64 :: LiveId(Step(s, op), u, n) ==> LiveId(s, u, n);
      case Insert(t, rows) => InsertKeepsIds(s, t, rows);
      case Append(t, blobs) => AppendKeepsIds(s, t, blobs);
      case Delete(t, keys) =>
        forall u, n: I64 | LiveId(Step(s, op), u, n) ensures LiveId(s, u, n) {
          DeletedShrinks(s.data, t, keys, FjallKey(u, RowId(n)));
        }
      case Drop(t) =>
        assert forall u, n: I64 :: LiveId(Step(s, op), u, n) ==> LiveId(s, u, n);
      case Reopen(_) =>
    }
  }

  lemma {:induction false} RunKeepsIds(s: Store, ops: seq<Op>)
    requires IdsBelowCounters(s) && NamesAreNulFree(s) && DisciplinedRun(s, ops)
    ensures IdsBelowCounters(Run(s, ops)) && NamesAreNulFree(Run(s, ops))
    decreases ops
  {
    if ops != [] {
      StepKeepsIds(s, ops[0]);
      RunKeepsIds(Step(s, ops[0]), ops[1..]);
    }
  }

  ghost predicate IdsAtMost(s: Store, t: Name, c: I64) {
    forall n: I64 :: LiveId(s, t, n) ==> n <= c
  }

  ghost predicate EntriesSurvive(before: map<Bytes, Blob>, after: map<Bytes, Blob>) {
    forall b :: b in before ==> b in after && after[b] == before[b]
  }

  ghost predicate EachStored(after: map<Bytes, Blob>, t: Name, c: I64, blobs: seq<Blob>) {
    forall id: I64 :: c < id <= c + |blobs| ==>
      FjallKey(t, RowId(id)) in after && after[FjallKey(t, RowId(id))] == blobs[id - c - 1]
  }

  /** The ids an append takes are above every live id of the table, each row is
      stored under its own id, and every entry present before is unchanged. */
  ghost predicate FreshAppend(s: Store, t: Name, blobs: seq<Blob>) {
    var c, after := CounterFor(s, t), Step(s, Append(t, blobs)).data;
    IdsAtMost(s, t, c) && EntriesSurvive(s.data, after) && EachStored(after, t, c, blobs)
  }

  lemma EachAppendedIsStored(data: map<Bytes, Blob>, t: Name, c: I64, blobs: seq<Blob>)
    requires NulFree(t) && c + |blobs| <= I64_MAX
    ensures EachStored(AppendedFrom(Fjall, data, t, c, blobs), t, c, blobs)
  {
    forall id: I64 | c < id <= c + |blobs|
      ensures var after := AppendedFrom(Fjall, data, t, c, blobs);
              FjallKey(t, RowId(id)) in after && after[FjallKey(t, RowId(id))] == blobs[id - c - 1]
    {
      AppendedAt(data, t, c, blobs, id);
    }
  }

  lemma OldEntrySurvives(s: Store, t: Name, blobs: seq<Blob>, b: Bytes)
    requires IdsBelowCounters(s) && CounterFor(s, t) + |blobs| <= I64_MAX && b in s.data
    ensures var after := AppendedFrom(Fjall, s.data, t, CounterFor(s, t), blobs);
            b in after && after[b] == s.data[b]
  {
    forall id: I64 | CounterFor(s, t) < id ensures b != FjallKey(t, RowId(id)) {
      if LiveId(s, t, id) { CounterCoversIds(s, t, id); }
    }
    AppendedElsewhere(s.data, t, CounterFor(s, t), blobs, b);
  }

  lemma CoveredAppendIsFresh(s: Store, t: Name, blobs: seq<Blob>)
    requires IdsBelowCounters(s) && Disciplined(s, Append(t, blobs))
    ensures FreshAppend(s, t, blobs)
  {
    var c := CounterFor(s, t);
    assert IdsAtMost(s, t, c) by {
      forall n: I64 | LiveId(s, t, n) ensures n <= c { CounterCoversIds(s, t, n); }
    }
    assert EntriesSurvive(s.data, AppendedFrom(Fjall, s.data, t, c, blobs)) by {
      forall b | b in s.data { OldEntrySurvives(s, t, blobs, b); }
    }
    EachAppendedIsStored(s.data, t, c, blobs);
  }

  /** Every append after any disciplined run, over any data found at opening and with
      any number of reopens, is fresh. */
  lemma EveryAppendIsFresh(schemas: map<Name, Blob>, data: map<Bytes, Blob>, ops: seq<Op>, t: Name, blobs: seq<Blob>)
    requires DisciplinedRun(Store(schemas, data, map[]), ops)
    requires Disciplined(Run(Store(schemas, data, map[]), ops), Append(t, blobs))
    ensures FreshAppend(Run(Store(schemas, data, map[]), ops), t, blobs)
  {
    RunKeepsIds(Store(schemas, data, map[]), ops);
    CoveredAppendIsFresh(Run(Store(schemas, data, map[]), ops), t, blobs);
  }
}

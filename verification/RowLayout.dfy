/** How table rows and counters are laid out in one ordered byte map. */
module RowLayout {
  import opened Integers
  import opened Lex
  import opened KeyCodec

  /** A table name, as its UTF-8 bytes. */
  type Name = Bytes

  type Blob = Bytes

  function DataPrefix(t: Name): Bytes { t + [0] }

  function DataKey(be: Backend, t: Name, k: Key): Bytes {
    DataPrefix(t) + EncodeKey(be, k)
  }

  /** The bytes of `\x01counter`. */
  const COUNTER_NAME: Name := [0x01, 0x63, 0x6F, 0x75, 0x6E, 0x74, 0x65, 0x72]

  const COUNTER_PREFIX: Bytes := COUNTER_NAME + [0]

  function CounterKey(t: Name): Bytes { COUNTER_PREFIX + t }

  lemma CounterKeyIs(t: Name)
    ensures CounterKey(t) == [1, 'c' as int, 'o' as int, 'u' as int, 'n' as int, 't' as int, 'e' as int, 'r' as int, 0] + t
  {
  }

  predicate NulFree(t: Name) { 0 !in t }

  /** Two NUL-free names never share a row prefix. */
  lemma PrefixDeterminesName(t: Name, u: Name, tail: Bytes)
    requires NulFree(t) && NulFree(u)
    ensures StartsWith(DataPrefix(t) + tail, DataPrefix(u)) <==> t == u
  {
    var s, p := DataPrefix(t) + tail, DataPrefix(u);
    assert t == u ==> s[..|p|] == p;
    if StartsWith(s, p) {
      assert forall i :: 0 <= i < |p| ==> s[..|p|][i] == s[i] == p[i];
      assert s[|u|] == 0 && forall i :: 0 <= i < |u| ==> s[i] != 0;
      assert s[|t|] == 0 && forall i :: 0 <= i < |t| ==> s[i] != 0;
      assert t == s[..|t|] && u == s[..|u|];
    }
  }

  lemma DataKeySuffix(be: Backend, t: Name, k: Key)
    ensures StartsWith(DataKey(be, t, k), DataPrefix(t))
    ensures DataKey(be, t, k)[|DataPrefix(t)|..] == EncodeKey(be, k)
  {
    assert DataKey(be, t, k)[..|DataPrefix(t)|] == DataPrefix(t);
  }

  /** A row's byte key gives back its table and its key, up to Uuid/U128. */
  lemma DataKeyInjective(be: Backend, t: Name, k: Key, u: Name, l: Key)
    requires NulFree(t) && NulFree(u)
    ensures DataKey(be, t, k) == DataKey(be, u, l) <==> t == u && Canonical(k) == Canonical(l)
  {
    DataKeySuffix(be, t, k);
    DataKeySuffix(be, u, l);
    PrefixDeterminesName(t, u, EncodeKey(be, k));
    EncodeInjective(be, k, l);
  }

  /** Inside one table, byte order of row keys is key order. */
  lemma DataKeyOrder(be: Backend, t: Name, k: Key, l: Key)
    ensures Less(DataKey(be, t, k), DataKey(be, t, l)) <==> KeyLess(k, l)
  {
    LessSamePrefix(DataPrefix(t), EncodeKey(be, k), EncodeKey(be, l));
    EncodeOrder(be, k, l);
  }

  lemma CounterKeyIsNoRow(be: Backend, t: Name, u: Name, k: Key)
    requires NulFree(u) && u != COUNTER_NAME
    ensures CounterKey(t) != DataKey(be, u, k)
    ensures !StartsWith(CounterKey(t), DataPrefix(u))
    ensures !StartsWith(DataKey(be, u, k), COUNTER_PREFIX)
  {
    assert COUNTER_PREFIX == DataPrefix(COUNTER_NAME);
    PrefixDeterminesName(COUNTER_NAME, u, t);
    PrefixDeterminesName(u, COUNTER_NAME, EncodeKey(be, k));
    DataKeySuffix(be, u, k);
  }

  lemma CounterKeyInjective(t: Name, u: Name)
    ensures CounterKey(t) == CounterKey(u) <==> t == u
  {
    assert CounterKey(t)[|COUNTER_PREFIX|..] == t;
    assert CounterKey(u)[|COUNTER_PREFIX|..] == u;
  }

  // ---- auto-increment ids

  type I64 = n: int | I64_MIN <= n <= I64_MAX

  /** `i64` increment, wrapping at the maximum. */
  function Succ(c: I64): I64 {
    if c == I64_MAX then I64_MIN else c + 1
  }

  function Advance(c: I64, n: nat): I64
    decreases n
  {
    if n == 0 then c else Advance(Succ(c), n - 1)
  }

  /** Short of the maximum, counting up is addition. */
  lemma {:induction false} AdvanceCounts(c: I64, n: nat)
    requires c + n <= I64_MAX
    ensures Advance(c, n) == c + n
    decreases n
  {
    if n > 0 { AdvanceCounts(Succ(c), n - 1); }
  }

  /** The id the row at position `i` of an append gets, counting up from `c`. */
  function IdAt(c: I64, i: nat): I64 { Advance(c, i + 1) }

  lemma IdAtSteps(c: I64, i: nat)
    ensures IdAt(c, 0) == Succ(c) && IdAt(c, i + 1) == IdAt(Succ(c), i)
  {
    assert Advance(Succ(c), 0) == Succ(c);
  }

  function RowId(c: I64): Key { Signed(W64, c) }

  /** An append of `n` rows counts up to the id this is the key of. */
  ghost predicate IsTaken(c: I64, n: nat, k: Key) {
    exists i: nat :: i < n && k == RowId(IdAt(c, i))
  }

  lemma TakenSteps(c: I64, n: nat, k: Key)
    requires n > 0
    ensures IsTaken(c, n, k) <==> k == RowId(Succ(c)) || IsTaken(Succ(c), n - 1, k)
  {
    hide IdAt;
    IdAtSteps(c, 0);
    if i: nat :| i < n && k == RowId(IdAt(c, i)) && i > 0 {
      IdAtSteps(c, i - 1);
      assert k == RowId(IdAt(Succ(c), i - 1));
    }
    if i: nat :| i < n - 1 && k == RowId(IdAt(Succ(c), i)) {
      IdAtSteps(c, i);
      assert k == RowId(IdAt(c, i + 1));
    }
  }

  // ---- writing rows

  function Inserted(be: Backend, data: map<Bytes, Blob>, t: Name, rows: seq<(Key, Blob)>): map<Bytes, Blob>
    decreases rows
  {
    if rows == [] then data
    else Inserted(be, data[DataKey(be, t, rows[0].0) := rows[0].1], t, rows[1..])
  }

  function Deleted(be: Backend, data: map<Bytes, Blob>, t: Name, keys: seq<Key>): map<Bytes, Blob>
    decreases keys
  {
    if keys == [] then data else Deleted(be, data - {DataKey(be, t, keys[0])}, t, keys[1..])
  }

  function AppendedFrom(be: Backend, data: map<Bytes, Blob>, t: Name, c: I64, rows: seq<Blob>): map<Bytes, Blob>
    decreases rows
  {
    if rows == [] then data
    else AppendedFrom(be, data[DataKey(be, t, RowId(Succ(c))) := rows[0]], t, Succ(c), rows[1..])
  }

  lemma AppendStep(be: Backend, data: map<Bytes, Blob>, t: Name, c: I64, rows: seq<Blob>, i: nat)
    requires i < |rows|
    ensures AppendedFrom(be, data, t, c, rows[i..])
      == AppendedFrom(be, data[DataKey(be, t, RowId(Succ(c))) := rows[i]], t, Succ(c), rows[i + 1..])
    ensures Advance(c, |rows| - i) == Advance(Succ(c), |rows| - i - 1)
  {
    assert rows[i..][1..] == rows[i + 1..];
  }

  lemma AppendStop(be: Backend, data: map<Bytes, Blob>, t: Name, c: I64, rows: seq<Blob>)
    ensures AppendedFrom(be, data, t, c, rows[|rows|..]) == data
    ensures Advance(c, |rows| - |rows|) == c
  {
  }

  // ---- dropping a table

  /** The loop that removes the keys collected for a drop. */
  method RemoveAll(data: map<Bytes, Blob>, doomed: seq<Bytes>) returns (left: map<Bytes, Blob>)
    ensures left == map b | b in data && b !in doomed :: data[b]
  {
    left := data;
    for i := 0 to |doomed|
      invariant left == map b | b in data && b !in doomed[..i] :: data[b]
    {
      left := left - {doomed[i]};
      assert doomed[..i + 1] == doomed[..i] + [doomed[i]];
    }
    assert doomed[..|doomed|] == doomed;
  }
}

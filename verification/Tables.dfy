/** Tables as a map from name and key to row, and what writing to them does. */
module Tables {
  import opened Integers
  import opened KeyCodec
  import opened RowLayout

  type Rows = map<(Name, Key), Blob>

  function InsertRows(m: Rows, t: Name, rows: seq<(Key, Blob)>): Rows
    decreases rows
  {
    if rows == [] then m
    else InsertRows(m[(t, Canonical(rows[0].0)) := rows[0].1], t, rows[1..])
  }

  function DeleteRows(m: Rows, t: Name, keys: seq<Key>): Rows
    decreases keys
  {
    if keys == [] then m else DeleteRows(m - {(t, Canonical(keys[0]))}, t, keys[1..])
  }

  function AppendRows(m: Rows, t: Name, c: I64, rows: seq<Blob>): Rows
    decreases rows
  {
    if rows == [] then m
    else AppendRows(m[(t, RowId(Succ(c))) := rows[0]], t, Succ(c), rows[1..])
  }

  // ---- what becomes of one row

  /** The same row, or still none. */
  ghost predicate SameAt(m: Rows, after: Rows, u: Name, k: Key) {
    ((u, k) in after <==> (u, k) in m) && ((u, k) in m ==> after[(u, k)] == m[(u, k)])
  }

  predicate HasKey(rows: seq<(Key, Blob)>, i: nat, k: Key) { i < |rows| && Canonical(rows[i].0) == k }

  ghost predicate Unnamed(rows: seq<(Key, Blob)>, k: Key) { forall i: nat :: !HasKey(rows, i, k) }

  ghost predicate IsLastKey(rows: seq<(Key, Blob)>, i: nat, k: Key) {
    HasKey(rows, i, k) && forall j: nat :: i < j ==> !HasKey(rows, j, k)
  }

  lemma {:induction false} InsertElsewhere(m: Rows, t: Name, rows: seq<(Key, Blob)>, u: Name, k: Key)
    requires u != t || Unnamed(rows, k)
    ensures SameAt(m, InsertRows(m, t, rows), u, k)
    decreases rows
  {
    if rows != [] {
      assert u == t ==> !HasKey(rows, 0, k);
      forall i: nat | u == t ensures !HasKey(rows[1..], i, k) { assert !HasKey(rows, i + 1, k); }
      InsertElsewhere(m[(t, Canonical(rows[0].0)) := rows[0].1], t, rows[1..], u, k);
    }
  }

  lemma {:induction false} InsertLast(m: Rows, t: Name, rows: seq<(Key, Blob)>, k: Key, i: nat)
    requires IsLastKey(rows, i, k)
    ensures var after := InsertRows(m, t, rows); (t, k) in after && after[(t, k)] == rows[i].1
    decreases rows
  {
    var m1, rest := m[(t, Canonical(rows[0].0)) := rows[0].1], rows[1..];
    forall j: nat | i < j + 1 ensures !HasKey(rest, j, k) { assert !HasKey(rows, j + 1, k); }
    if i == 0 {
      InsertElsewhere(m1, t, rest, t, k);
    } else {
      assert HasKey(rest, i - 1, k);
      InsertLast(m1, t, rest, k, i - 1);
    }
  }

  lemma LastKeyExists(rows: seq<(Key, Blob)>, i: nat, k: Key) returns (last: nat)
    requires HasKey(rows, i, k)
    ensures IsLastKey(rows, last, k)
    decreases |rows| - i
  {
    if j: nat :| i < j && HasKey(rows, j, k) { last := LastKeyExists(rows, j, k); } else { last := i; }
  }

  /** After an insert a key of the table holds the last row given for it; everything else is as
      before. */
  lemma InsertMeans(m: Rows, t: Name, rows: seq<(Key, Blob)>, u: Name, k: Key)
    ensures var after := InsertRows(m, t, rows);
            && (forall i: nat :: u == t && IsLastKey(rows, i, k) ==> (u, k) in after && after[(u, k)] == rows[i].1)
            && (u != t || Unnamed(rows, k) ==> SameAt(m, after, u, k))
            && ((u, k) in after <==> (u, k) in m || (u == t && !Unnamed(rows, k)))
  {
    hide InsertRows;
    forall i: nat | u == t && IsLastKey(rows, i, k)
      ensures var after := InsertRows(m, t, rows); (u, k) in after && after[(u, k)] == rows[i].1
    {
      InsertLast(m, t, rows, k, i);
    }
    if u != t || Unnamed(rows, k) {
      InsertElsewhere(m, t, rows, u, k);
    } else {
      var i: nat :| HasKey(rows, i, k);
      var last := LastKeyExists(rows, i, k);
    }
  }

  /** After a delete the keys given are gone from the table; everything else is as before. */
  lemma {:induction false} DeleteMeans(m: Rows, t: Name, keys: seq<Key>, u: Name, k: Key)
    ensures var after := DeleteRows(m, t, keys);
            if u == t && (exists i :: 0 <= i < |keys| && Canonical(keys[i]) == k) then (u, k) !in after else SameAt(m, after, u, k)
    decreases keys
  {
    if keys != [] {
      DeleteMeans(m - {(t, Canonical(keys[0]))}, t, keys[1..], u, k);
      if i :| 0 < i < |keys| && Canonical(keys[i]) == k { assert keys[1..][i - 1] == keys[i]; }
      if i :| 0 <= i < |keys[1..]| && Canonical(keys[1..][i]) == k { assert keys[i + 1] == keys[1..][i]; }
    }
  }

  /** Without wrap-around an append stores row `i` under id `counter + 1 + i` and
      touches nothing else. */
  lemma {:induction false} AppendAssignsBelowMax(m: Rows, t: Name, c: I64, rows: seq<Blob>, u: Name, k: Key)
    requires c + |rows| <= I64_MAX
    ensures var m' := AppendRows(m, t, c, rows);
            if u == t && k.Signed? && k.width == W64 && c < k.n <= c + |rows|
            then (u, k) in m' && m'[(u, k)] == rows[k.n - c - 1]
            else ((u, k) in m' <==> (u, k) in m) && ((u, k) in m ==> m'[(u, k)] == m[(u, k)])
    decreases rows
  {
    if rows != [] {
      AppendAssignsBelowMax(m[(t, RowId(Succ(c))) := rows[0]], t, Succ(c), rows[1..], u, k);
    }
  }

  /** Row `i` is the last appended under the key; ids wrap at the maximum. */
  ghost predicate IsLast(c: I64, n: nat, k: Key, i: nat) {
    i < n && k == RowId(IdAt(c, i)) && forall j :: i < j < n ==> k != RowId(IdAt(c, j))
  }

  lemma LastSteps(c: I64, n: nat, k: Key, i: nat)
    requires IsLast(c, n, k, i)
    ensures if i == 0 then k == RowId(Succ(c)) && !IsTaken(Succ(c), n - 1, k) else IsLast(Succ(c), n - 1, k, i - 1)
  {
    hide IdAt;
    IdAtSteps(c, 0);
    if i > 0 { IdAtSteps(c, i - 1); }
    forall j: nat | i <= j < n - 1 ensures k != RowId(IdAt(Succ(c), j)) {
      IdAtSteps(c, j);
      assert k != RowId(IdAt(c, j + 1));
    }
  }

  /** An append of any length stores each row under the id it counts up to, the last one if ids
      come round again, and touches nothing else. */
  lemma {:induction false} AppendAssigns(m: Rows, t: Name, c: I64, rows: seq<Blob>, u: Name, k: Key)
    ensures var m' := AppendRows(m, t, c, rows);
            && (forall i: nat :: u == t && IsLast(c, |rows|, k, i) ==> (u, k) in m' && m'[(u, k)] == rows[i])
            && (u != t || !IsTaken(c, |rows|, k) ==> ((u, k) in m' <==> (u, k) in m) && ((u, k) in m ==> m'[(u, k)] == m[(u, k)]))
    decreases rows
  {
    hide IsTaken, IdAt, Succ;
    if rows != [] {
      var m1, rest := m[(t, RowId(Succ(c))) := rows[0]], rows[1..];
      AppendAssigns(m1, t, Succ(c), rest, u, k);
      TakenSteps(c, |rows|, k);
      forall i: nat | u == t && IsLast(c, |rows|, k, i)
        ensures (u, k) in AppendRows(m, t, c, rows) && AppendRows(m, t, c, rows)[(u, k)] == rows[i]
      {
        LastSteps(c, |rows|, k, i);
      }
    }
  }

  lemma {:induction false} LastExists(c: I64, n: nat, k: Key) returns (i: nat)
    requires IsTaken(c, n, k)
    ensures IsLast(c, n, k, i)
  {
    if k == RowId(IdAt(c, n - 1)) {
      i := n - 1;
    } else {
      i := LastExists(c, n - 1, k);
    }
  }
}

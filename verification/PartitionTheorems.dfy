/** What partitioning keeps. */
module PartitionTheorems {
  import opened Wrappers
  import opened Lex
  import opened SqlValues
  import opened Filter
  import opened FilterSoundness
  import opened Partition

  // ---- the order on comparable keys

  lemma LeqIsAtOrBelow(a: Row, b: Row, col: nat)
    requires KeysCompare(a, b, col)
    ensures Leq(a, b, col) <==> AtOrBelow(a, b, col)
  {
    if col < |a| && col < |b| && !a[col].Null? && !b[col].Null? {
      PartialCmpAgrees(a[col], b[col]);
    }
  }

  lemma CompareFlips(a: Row, b: Row, col: nat)
    requires KeysCompare(a, b, col)
    ensures KeysCompare(b, a, col) && CompareRows(b, a, col) == Reverse(CompareRows(a, b, col))
  {
    if col < |a| && col < |b| {
      match (a[col], b[col]) {
        case (Text(x), Text(y)) => CmpSeqAgrees(x, y); CmpSeqAgrees(y, x);
        case (Blob(x), Blob(y)) => CmpSeqAgrees(x, y); CmpSeqAgrees(y, x);
        case _ =>
      }
    }
  }

  lemma SeqOrderIsTransitive(x: seq<int>, y: seq<int>, z: seq<int>)
    requires !CmpSeq(x, y).Above? && !CmpSeq(y, z).Above?
    ensures !CmpSeq(x, z).Above?
    ensures CmpSeq(x, z).Equal? ==> x == y == z
  {
    CmpSeqAgrees(x, y);
    CmpSeqAgrees(y, z);
    CmpSeqAgrees(x, z);
    if Less(x, y) && Less(y, z) { LessTransitive(x, y, z); }
    if Less(x, y) && y == z { assert Less(x, z); }
  }

  lemma LeqTransitive(a: Row, b: Row, c: Row, col: nat)
    requires KeysCompare(a, b, col) && KeysCompare(b, c, col) && KeysCompare(a, c, col)
    requires Leq(a, b, col) && Leq(b, c, col)
    ensures Leq(a, c, col)
    ensures Alike(a, c, col) ==> Alike(a, b, col) && Alike(b, c, col)
    ensures Alike(a, b, col) && Alike(b, c, col) ==> Alike(a, c, col)
  {
    if col < |a| && col < |b| && col < |c| {
      match (a[col], b[col], c[col]) {
        case (Text(x), Text(y), Text(z)) => SeqOrderIsTransitive(x, y, z);
        case (Blob(x), Blob(y), Blob(z)) => SeqOrderIsTransitive(x, y, z);
        case _ =>
      }
    }
  }

  // ---- the sort

  ghost predicate Ordered(rows: seq<Row>, col: nat) {
    forall i, j :: 0 <= i < j < |rows| ==> Leq(rows[i], rows[j], col)
  }

  lemma OrderedIsSorted(rows: seq<Row>, col: nat)
    requires ComparableKeys(rows, col)
    ensures Ordered(rows, col) <==> Sorted(rows, col)
  {
    forall i, j | 0 <= i < j < |rows| ensures Leq(rows[i], rows[j], col) <==> AtOrBelow(rows[i], rows[j], col) {
      LeqIsAtOrBelow(rows[i], rows[j], col);
    }
  }

  lemma {:induction false} InsertKeepsRows(row: Row, s: seq<Row>, col: nat)
    ensures multiset(Insert(row, s, col)) == multiset{row} + multiset(s)
    ensures Insert(row, s, col) != []
    ensures Insert(row, s, col)[0] in [row] + s
    decreases s
  {
    if s != [] {
      assert s == [s[0]] + s[1..];
      InsertKeepsRows(row, s[1..], col);
    }
  }

  lemma {:induction false} SortKeepsRows(rows: seq<Row>, col: nat)
    ensures multiset(SortBy(rows, col)) == multiset(rows)
    decreases rows
  {
    if rows != [] {
      SortKeepsRows(rows[1..], col);
      InsertKeepsRows(rows[0], SortBy(rows[1..], col), col);
      assert rows == [rows[0]] + rows[1..];
    }
  }

  lemma SameRows(a: seq<Row>, b: seq<Row>)
    requires multiset(a) == multiset(b)
    ensures forall r :: r in a <==> r in b
    ensures |a| == |b|
  {
    forall r ensures r in a <==> r in b {
      assert (r in a <==> r in multiset(a)) && (r in b <==> r in multiset(b));
    }
    assert |multiset(a)| == |a| && |multiset(b)| == |b|;
  }

  lemma ComparableSub(rows: seq<Row>, sub: seq<Row>, col: nat)
    requires ComparableKeys(rows, col)
    requires forall r :: r in sub ==> r in rows
    ensures ComparableKeys(sub, col)
  {
  }

  lemma OrderedCons(x: Row, s: seq<Row>, col: nat)
    ensures Ordered([x] + s, col) <==> Ordered(s, col) && forall r :: r in s ==> Leq(x, r, col)
  {
    var t := [x] + s;
    if Ordered(t, col) {
      forall i, j | 0 <= i < j < |s| ensures Leq(s[i], s[j], col) {
        assert t[i + 1] == s[i] && t[j + 1] == s[j];
      }
      forall r | r in s ensures Leq(x, r, col) {
        var j :| 0 <= j < |s| && s[j] == r;
        assert t[0] == x && t[j + 1] == r;
      }
    }
  }

  lemma {:induction false} InsertKeepsOrder(row: Row, s: seq<Row>, col: nat)
    requires ComparableKeys([row] + s, col) && Ordered(s, col)
    ensures Ordered(Insert(row, s, col), col)
    decreases s
  {
    hide KeysCompare, Leq;
    if s == [] {
    } else if Leq(row, s[0], col) {
      assert s == [s[0]] + s[1..];
      OrderedCons(s[0], s[1..], col);
      forall r | r in s ensures Leq(row, r, col) {
        if r in s[1..] {
          var all := [row] + s;
          assert row in all && s[0] in all && r in all;
          LeqTransitive(row, s[0], r, col);
        }
      }
      OrderedCons(row, s, col);
    } else {
      var rest := s[1..];
      assert s == [s[0]] + rest;
      OrderedCons(s[0], rest, col);
      var all := [row] + s;
      assert row in all && s[0] in all;
      ComparableSub(all, [row] + rest, col);
      InsertKeepsOrder(row, rest, col);
      InsertKeepsRows(row, rest, col);
      SameRows(Insert(row, rest, col), [row] + rest);
      NotLeqIsLeq(row, s[0], col);
      OrderedCons(s[0], Insert(row, rest, col), col);
    }
  }

  lemma NotLeqIsLeq(a: Row, b: Row, col: nat)
    requires KeysCompare(a, b, col) && !Leq(a, b, col)
    ensures Leq(b, a, col) && !Alike(b, a, col) && !Alike(a, b, col)
  {
    CompareFlips(a, b, col);
  }

  lemma {:induction false} SortOrders(rows: seq<Row>, col: nat)
    requires ComparableKeys(rows, col)
    ensures Ordered(SortBy(rows, col), col)
    decreases rows
  {
    if rows != [] {
      var rest := rows[1..];
      ComparableSub(rows, rest, col);
      SortOrders(rest, col);
      SortKeepsRows(rest, col);
      SameRows(SortBy(rest, col), rest);
      ComparableSub(rows, [rows[0]] + SortBy(rest, col), col);
      InsertKeepsOrder(rows[0], SortBy(rest, col), col);
    }
  }

  // ---- the sort is stable

  lemma AlikeTogether(a: Row, b: Row, k: Row, col: nat)
    requires KeysCompare(a, b, col) && KeysCompare(a, k, col) && KeysCompare(b, k, col)
    requires Alike(a, k, col) && Alike(b, k, col)
    ensures Alike(a, b, col)
  {
    CompareFlips(b, k, col);
    LeqTransitive(a, k, b, col);
  }

  lemma {:induction false} InsertIsStable(row: Row, s: seq<Row>, k: Row, col: nat)
    requires ComparableKeys([row] + s, col)
    requires forall r :: r in [row] + s ==> KeysCompare(r, k, col)
    ensures WithKeyOf(Insert(row, s, col), k, col) == (if Alike(row, k, col) then [row] else []) + WithKeyOf(s, k, col)
    decreases s
  {
    hide KeysCompare, Leq, Alike, WithKeyOf;
    ClassCons(row, s, k, col);
    if s == [] {
      assert Insert(row, s, col) == [row] + s;
    } else if !Leq(row, s[0], col) {
      var rest := s[1..];
      var all := [row] + s;
      assert row in all && s[0] in all && s == [s[0]] + rest;
      ComparableSub(all, [row] + rest, col);
      InsertIsStable(row, rest, k, col);
      NotLeqIsLeq(row, s[0], col);
      ClassCons(s[0], rest, k, col);
      ClassCons(s[0], Insert(row, rest, col), k, col);
      if Alike(row, k, col) && Alike(s[0], k, col) {
        AlikeTogether(row, s[0], k, col);
      }
    }
  }

  lemma ClassCons(x: Row, s: seq<Row>, k: Row, col: nat)
    ensures WithKeyOf([x] + s, k, col) == (if Alike(x, k, col) then [x] else []) + WithKeyOf(s, k, col)
  {
    assert ([x] + s)[1..] == s;
  }

  lemma {:induction false} SortKeepsClass(rows: seq<Row>, k: Row, col: nat)
    requires ComparableKeys(rows, col)
    requires forall r :: r in rows ==> KeysCompare(r, k, col)
    ensures WithKeyOf(SortBy(rows, col), k, col) == WithKeyOf(rows, k, col)
    decreases rows
  {
    hide KeysCompare, Leq, Alike;
    if rows != [] {
      var rest := rows[1..];
      ComparableSub(rows, rest, col);
      SortKeepsClass(rest, k, col);
      SortKeepsRows(rest, col);
      SameRows(SortBy(rest, col), rest);
      ComparableSub(rows, [rows[0]] + SortBy(rest, col), col);
      InsertIsStable(rows[0], SortBy(rest, col), k, col);
    }
  }

  lemma SortIsStable(rows: seq<Row>, col: nat)
    requires ComparableKeys(rows, col)
    ensures SameClasses(rows, SortBy(rows, col), col)
  {
    SortKeepsRows(rows, col);
    SameRows(rows, SortBy(rows, col));
    forall k | k in rows ensures WithKeyOf(SortBy(rows, col), k, col) == WithKeyOf(rows, k, col) {
      SortKeepsClass(rows, k, col);
    }
  }

  lemma {:induction false} ClassMembers(rows: seq<Row>, k: Row, col: nat)
    ensures forall r :: r in WithKeyOf(rows, k, col) <==> r in rows && Alike(r, k, col)
    decreases rows
  {
    if rows != [] {
      ClassMembers(rows[1..], k, col);
      assert rows == [rows[0]] + rows[1..];
    }
  }

  lemma AlikeItself(r: Row, col: nat)
    requires KeysCompare(r, r, col)
    ensures Alike(r, r, col)
  {
    CompareFlips(r, r, col);
  }

  lemma LeqBothWays(a: Row, b: Row, col: nat)
    requires KeysCompare(a, b, col) && Leq(a, b, col) && Leq(b, a, col)
    ensures Alike(a, b, col) && Alike(b, a, col)
  {
    CompareFlips(a, b, col);
  }

  /** Of two ordered lists with the same classes, the first rows agree. */
  lemma HeadsAgree(a: seq<Row>, b: seq<Row>, col: nat)
    requires ComparableKeys(a, col) && Ordered(a, col) && Ordered(b, col) && SameClasses(a, b, col)
    requires a != [] && b != []
    ensures a[0] == b[0]
  {
    hide KeysCompare, Leq, Alike, WithKeyOf;
    var x, y := a[0], b[0];
    assert x in a && y in b && x in b && y in a;
    AlikeItself(x, col);
    AlikeItself(y, col);
    var i :| 0 <= i < |a| && a[i] == y;
    var j :| 0 <= j < |b| && b[j] == x;
    assert (i == 0 ==> x == y) && (j == 0 ==> x == y);
    if x != y {
      LeqBothWays(x, y, col);
      ClassHead(a, x, col);
      ClassHead(b, x, col);
    }
  }

  lemma ClassHead(rows: seq<Row>, k: Row, col: nat)
    requires rows != [] && Alike(rows[0], k, col)
    ensures WithKeyOf(rows, k, col) != [] && WithKeyOf(rows, k, col)[0] == rows[0]
  {
  }

  lemma TailClasses(a: seq<Row>, b: seq<Row>, col: nat)
    requires a != [] && b != [] && a[0] == b[0] && ComparableKeys(a, col) && SameClasses(a, b, col)
    ensures SameClasses(a[1..], b[1..], col)
  {
    hide KeysCompare, Leq, Alike;
    var s, t := a[1..], b[1..];
    assert a == [a[0]] + s && b == [b[0]] + t;
    forall k | k in a ensures WithKeyOf(s, k, col) == WithKeyOf(t, k, col) {
      var head := if Alike(a[0], k, col) then [a[0]] else [];
      assert head + WithKeyOf(s, k, col) == head + WithKeyOf(t, k, col);
      assert WithKeyOf(s, k, col) == (head + WithKeyOf(s, k, col))[|head|..];
      assert WithKeyOf(t, k, col) == (head + WithKeyOf(t, k, col))[|head|..];
    }
    forall r ensures r in s <==> r in t {
      if r in s || r in t {
        assert r in a;
        AlikeItself(r, col);
        ClassMembers(s, r, col);
        ClassMembers(t, r, col);
      }
    }
  }

  /** There is one stable way to sort rows with comparable keys. */
  lemma {:induction false} StableSortIsUnique(before: seq<Row>, after: seq<Row>, col: nat)
    requires ComparableKeys(before, col) && SameClasses(before, after, col)
    ensures Sorted(after, col) <==> after == SortBy(before, col)
  {
    ComparableSub(before, after, col);
    OrderedIsSorted(after, col);
    SortOrders(before, col);
    if Ordered(after, col) {
      SortIsStable(before, col);
      OrderedClassesAgree(SortBy(before, col), after, col);
    }
  }

  lemma EmptyTogether(a: seq<Row>, b: seq<Row>, col: nat)
    requires SameClasses(a, b, col)
    ensures a == [] <==> b == []
  {
    if a != [] { assert a[0] in b; }
    if b != [] { assert b[0] in a; }
  }

  lemma {:induction false} OrderedClassesAgree(a: seq<Row>, b: seq<Row>, col: nat)
    requires ComparableKeys(a, col) && Ordered(a, col) && Ordered(b, col) && SameClasses(a, b, col)
    ensures a == b
    decreases a
  {
    hide KeysCompare, Leq, Alike, WithKeyOf;
    EmptyTogether(a, b, col);
    if a != [] {
      HeadsAgree(a, b, col);
      TailClasses(a, b, col);
      assert a == [a[0]] + a[1..] && b == [b[0]] + b[1..];
      OrderedCons(a[0], a[1..], col);
      OrderedCons(b[0], b[1..], col);
      ComparableSub(a, a[1..], col);
      OrderedClassesAgree(a[1..], b[1..], col);
    }
  }

  // ---- chunks

  function Flatten(parts: seq<seq<Row>>): seq<Row> {
    if parts == [] then [] else parts[0] + Flatten(parts[1..])
  }

  lemma {:induction false} ChunksCover(rows: seq<Row>, size: nat)
    requires size > 0
    ensures Flatten(Chunks(rows, size)) == rows
    decreases |rows|
  {
    if |rows| > size {
      ChunksCover(rows[size..], size);
      assert rows == rows[..size] + rows[size..];
    }
  }

  lemma {:induction false} ChunkLengths(rows: seq<Row>, size: nat)
    requires size > 0
    ensures forall i :: 0 <= i < |Chunks(rows, size)| ==> 0 < |Chunks(rows, size)[i]| <= size
    ensures forall i :: 0 <= i < |Chunks(rows, size)| - 1 ==> |Chunks(rows, size)[i]| == size
    decreases |rows|
  {
    if |rows| > size {
      ChunkLengths(rows[size..], size);
    }
  }

  lemma {:induction false} ChunkCount(rows: seq<Row>, size: nat)
    requires size > 0
    ensures |rows| <= |Chunks(rows, size)| * size
    ensures rows != [] ==> (|Chunks(rows, size)| - 1) * size < |rows|
    decreases |rows|
  {
    if |rows| > size {
      ChunkCount(rows[size..], size);
      var k := |Chunks(rows[size..], size)|;
      assert |Chunks(rows, size)| == k + 1;
      assert (k + 1) * size == k * size + size && (k - 1) * size == k * size - size;
    }
  }

  lemma CeilDivBounds(a: nat, b: nat)
    requires b > 0
    ensures a <= b * CeilDiv(a, b)
    ensures CeilDiv(a, b) > 0 <==> a > 0
    ensures b * CeilDiv(a, b) <= a + b - 1
  {
    var q := (a + b - 1) / b;
    assert a + b - 1 == b * q + (a + b - 1) % b;
  }

  lemma MulStrict(a: nat, b: nat, c: nat)
    requires a < b && 0 < c
    ensures a * c < b * c
  {
  }

  lemma MulMonotone(a: nat, b: nat, c: nat)
    requires a <= b
    ensures a * c <= b * c
  {
  }

  ghost predicate EachBelowNext(parts: seq<seq<Row>>, col: nat) {
    forall i, j, r, t :: 0 <= i < j < |parts| && r in parts[i] && t in parts[j] ==> AtOrBelow(r, t, col)
  }

  lemma {:induction false} InFlatten(parts: seq<seq<Row>>, r: Row)
    ensures r in Flatten(parts) <==> exists i :: 0 <= i < |parts| && r in parts[i]
    decreases parts
  {
    if parts != [] {
      InFlatten(parts[1..], r);
      if i :| 0 <= i < |parts| && r in parts[i] && r !in parts[0] {
        assert parts[i] == parts[1..][i - 1];
      }
      if i :| 0 <= i < |parts[1..]| && r in parts[1..][i] {
        assert parts[i + 1] == parts[1..][i];
      }
    }
  }

  lemma SortedConcat(a: seq<Row>, b: seq<Row>, col: nat)
    requires Sorted(a + b, col)
    ensures Sorted(a, col) && Sorted(b, col)
    ensures forall r, t :: r in a && t in b ==> AtOrBelow(r, t, col)
  {
    var s := a + b;
    forall i, j | 0 <= i < j < |a| ensures AtOrBelow(a[i], a[j], col) {
      assert s[i] == a[i] && s[j] == a[j];
    }
    forall i, j | 0 <= i < j < |b| ensures AtOrBelow(b[i], b[j], col) {
      assert s[|a| + i] == b[i] && s[|a| + j] == b[j];
    }
    forall r, t | r in a && t in b ensures AtOrBelow(r, t, col) {
      var i :| 0 <= i < |a| && a[i] == r;
      var j :| 0 <= j < |b| && b[j] == t;
      assert s[i] == r && s[|a| + j] == t;
    }
  }

  lemma {:induction false} SortedPartsAreOrdered(parts: seq<seq<Row>>, col: nat)
    requires Sorted(Flatten(parts), col)
    ensures EachBelowNext(parts, col)
    decreases parts
  {
    hide AtOrBelow;
    if parts != [] {
      var rest := parts[1..];
      SortedConcat(parts[0], Flatten(rest), col);
      SortedPartsAreOrdered(rest, col);
      forall i, j, r, t | 0 <= i < j < |parts| && r in parts[i] && t in parts[j] ensures AtOrBelow(r, t, col) {
        assert parts[j] == rest[j - 1];
        if i == 0 {
          InFlatten(rest, t);
        } else {
          assert parts[i] == rest[i - 1];
        }
      }
    }
  }

  /** `after` holds the rows of `before`, sorted by the key, in at most `n` contiguous runs. */
  ghost predicate IsRangePartition(before: Provider, after: Provider, col: nat, n: nat)
    requires n > 0
  {
    && after.schema == before.schema
    && multiset(after.rows) == multiset(before.rows)
    && SameClasses(before.rows, after.rows, col)
    && Sorted(after.rows, col)
    && Flatten(after.partitions) == after.rows
    && EachBelowNext(after.partitions, col)
    && |after.partitions| <= n
    && Sized(after.partitions, CeilDiv(|before.rows|, n))
  }

  /** Every part but the last has `size` rows, and the last at least one and no more. */
  ghost predicate Sized(parts: seq<seq<Row>>, size: nat) {
    forall i :: 0 <= i < |parts| ==> if i < |parts| - 1 then |parts[i]| == size else 0 < |parts[i]| <= size
  }

  lemma AtMost(k: nat, n: nat, size: nat, total: nat)
    requires total <= n * size
    requires k > 0 ==> (k - 1) * size < total
    ensures k <= n
  {
    if k > n { MulMonotone(n, k - 1, size); }
  }

  lemma ChunksFit(rows: seq<Row>, n: nat)
    requires n > 0
    ensures |Chunks(rows, ChunkSize(|rows|, n))| <= n
    ensures Sized(Chunks(rows, ChunkSize(|rows|, n)), CeilDiv(|rows|, n))
  {
    if rows != [] {
      var size := ChunkSize(|rows|, n);
      CeilDivBounds(|rows|, n);
      ChunkLengths(rows, size);
      ChunkCount(rows, size);
      AtMost(|Chunks(rows, size)|, n, size, |rows|);
    }
  }

  /** Range partitioning a table whose keys are comparable; without partitions or a column
      to go by, nothing changes. */
  lemma RangePartitionIsRight(p: Provider, column: string, n: nat)
    ensures n == 0 || IndexOf(p.schema, column).None? ==> WithRangePartition(p, column, n) == p
    ensures n > 0 && IndexOf(p.schema, column).Some? && ComparableKeys(p.rows, IndexOf(p.schema, column).value) ==>
              IsRangePartition(p, WithRangePartition(p, column, n), IndexOf(p.schema, column).value, n)
  {
    hide IsRangePartition, ComparableKeys, Chunks, SortBy;
    if n > 0 && IndexOf(p.schema, column).Some? && ComparableKeys(p.rows, IndexOf(p.schema, column).value) {
      SortedAndChunked(p, column, n);
    }
  }

  lemma SortedAndChunked(p: Provider, column: string, n: nat)
    requires n > 0 && IndexOf(p.schema, column).Some?
    requires ComparableKeys(p.rows, IndexOf(p.schema, column).value)
    ensures IsRangePartition(p, WithRangePartition(p, column, n), IndexOf(p.schema, column).value, n)
  {
    hide KeysCompare, AtOrBelow, Chunks, SortBy, CeilDiv;
    var col := IndexOf(p.schema, column).value;
    var sorted := SortBy(p.rows, col);
    SortKeepsRows(p.rows, col);
    SameRows(p.rows, sorted);
    SortIsStable(p.rows, col);
    SortOrders(p.rows, col);
    ComparableSub(p.rows, sorted, col);
    OrderedIsSorted(sorted, col);
    ChunksFit(sorted, n);
    ChunksCover(sorted, ChunkSize(|sorted|, n));
    SortedPartsAreOrdered(Chunks(sorted, ChunkSize(|sorted|, n)), col);
  }

  /** The documentation promises `n` chunks; there are `n` exactly when the first `n - 1`
      full ones leave a row over. */
  lemma RangePartitionCountIff(p: Provider, column: string, n: nat)
    requires n > 0 && IndexOf(p.schema, column).Some?
    ensures |WithRangePartition(p, column, n).partitions| == n
            <==> (n - 1) * CeilDiv(|p.rows|, n) < |p.rows|
  {
    hide SortBy, CeilDiv;
    var col := IndexOf(p.schema, column).value;
    var sorted := SortBy(p.rows, col);
    SortKeepsRows(p.rows, col);
    SameRows(p.rows, sorted);
    CeilDivBounds(|sorted|, n);
    if sorted != [] {
      hide Chunks;
      var size := ChunkSize(|sorted|, n);
      ChunkCount(sorted, size);
      ChunksFit(sorted, n);
      ExactCount(|Chunks(sorted, size)|, n, size, |sorted|);
    }
  }

  lemma ExactCount(k: nat, n: nat, size: nat, total: nat)
    requires k <= n && total <= k * size && (k > 0 ==> (k - 1) * size < total) && total > 0
    ensures k == n <==> (n - 1) * size < total
  {
    if k < n { MulMonotone(k, n - 1, size); }
  }

  lemma FewerPartitionsExample()
    ensures var p := Provider(Schema(["id"], s => s), [[I64(1)], [I64(2)], [I64(3)], [I64(4)]], []);
      |WithRangePartition(p, "id", 3).partitions| == 2
  {
    var p := Provider(Schema(["id"], s => s), [[I64(1)], [I64(2)], [I64(3)], [I64(4)]], []);
    var sorted := SortBy(p.rows, 0);
    SortKeepsRows(p.rows, 0);
    SameRows(p.rows, sorted);
    assert CeilDiv(4, 3) == 2;
    ChunkCount(sorted, 2);
  }

  // ---- choosing the number of partitions

  lemma AutoCount(total: nat, target: nat, n: nat)
    requires 0 < target && 0 < n <= total / target
    ensures CeilDiv(total, n) >= target
  {
    CeilDivBounds(total, n);
    assert total == target * (total / target) + total % target;
    MulMonotone(n, total / target, target);
    if CeilDiv(total, n) < target { MulStrict(CeilDiv(total, n), target, n); }
  }

  function Least(a: nat, b: nat): nat { if a <= b then a else b }

  /** The documented number of partitions, when there is more than one batch of rows. */
  function AutoParts(total: nat, parallel: nat, target: nat): nat
    requires target > 0
  {
    Least(parallel, total / target)
  }

  /** The call fails exactly on a zero batch size with rows and more than one thread. */
  lemma AutoPartitionFailsIff(p: Provider, parallel: nat, target: nat)
    ensures WithAutoPartition(p, parallel, target).None? <==> target == 0 && p.rows != [] && parallel > 1
    ensures target == 0 && !(p.rows != [] && parallel > 1) ==> WithAutoPartition(p, parallel, target) == Some(p)
  {
  }

  /** It changes nothing for one batch of rows, one thread or no columns; else it is range
      partitioning by the first column into the documented number of partitions. */
  lemma AutoPartitionIsRight(p: Provider, parallel: nat, target: nat)
    requires target > 0
    ensures WithAutoPartition(p, parallel, target).Some?
    ensures |p.rows| <= target || parallel <= 1 || p.schema.columns == [] ==> WithAutoPartition(p, parallel, target).value == p
    ensures |p.rows| > target && parallel > 1 && p.schema.columns != [] ==>
              && 0 < AutoParts(|p.rows|, parallel, target)
              && (ComparableKeys(p.rows, 0) ==>
                    IsRangePartition(p, WithAutoPartition(p, parallel, target).value, 0, AutoParts(|p.rows|, parallel, target)))
  {
    hide IsRangePartition, ComparableKeys, Chunks, SortBy;
    var total := |p.rows|;
    if total > target && parallel > 1 && p.schema.columns != [] {
      assert total / target >= 1 by { assert total == target * (total / target) + total % target; }
      var n := AutoParts(total, parallel, target);
      assert WithAutoPartition(p, parallel, target).value == WithRangePartition(p, p.schema.columns[0], n);
      assert IndexOf(p.schema, p.schema.columns[0]) == Some(0);
      RangePartitionIsRight(p, p.schema.columns[0], n);
    }
  }

  /** Then every partition but the last holds at least `target` rows. */
  lemma AutoPartitionFillsBatches(p: Provider, parallel: nat, target: nat)
    requires 0 < target < |p.rows| && parallel > 1 && p.schema.columns != [] && ComparableKeys(p.rows, 0)
    ensures var q := WithAutoPartition(p, parallel, target).value;
            |q.partitions| <= parallel && forall i :: 0 <= i < |q.partitions| - 1 ==> |q.partitions[i]| >= target
  {
    hide ComparableKeys, WithAutoPartition, CeilDiv;
    AutoPartitionIsRight(p, parallel, target);
    AutoCount(|p.rows|, target, AutoParts(|p.rows|, parallel, target));
  }

  // ---- hash buckets

  lemma {:induction false} BucketMembers(rows: seq<Row>, col: nat, n: nat, hash: Value -> nat, b: nat)
    requires n > 0
    ensures forall r :: r in Bucket(rows, col, n, hash, b) <==> r in rows && BucketOf(r, col, n, hash) == b
    ensures forall r :: multiset(Bucket(rows, col, n, hash, b))[r] == if BucketOf(r, col, n, hash) == b then multiset(rows)[r] else 0
    decreases rows
  {
    hide BucketOf;
    if rows != [] {
      var most := rows[..|rows| - 1];
      BucketMembers(most, col, n, hash, b);
      assert rows == most + [rows[|rows| - 1]];
    }
  }

  /** The first `k` buckets hold the rows with a bucket number below `k`. */
  lemma {:induction false} BucketsCount(parts: seq<seq<Row>>, rows: seq<Row>, col: nat, n: nat, hash: Value -> nat, r: Row)
    requires n > 0
    requires |parts| <= n
    requires forall b :: 0 <= b < |parts| ==> parts[b] == Bucket(rows, col, n, hash, b + n - |parts|)
    ensures multiset(Flatten(parts))[r] == if BucketOf(r, col, n, hash) >= n - |parts| then multiset(rows)[r] else 0
    decreases parts
  {
    hide BucketOf, Bucket;
    if parts == [] {
      BucketInRange(r, col, n, hash);
    } else {
      BucketsCount(parts[1..], rows, col, n, hash, r);
      BucketMembers(rows, col, n, hash, n - |parts|);
      assert parts[0] == Bucket(rows, col, n, hash, 0 + n - |parts|);
    }
  }

  lemma BucketInRange(r: Row, col: nat, n: nat, hash: Value -> nat)
    requires n > 0
    ensures 0 <= BucketOf(r, col, n, hash) < n
  {
  }

  /** Hash partitioning keeps every row once; a row lies in the bucket of its key, so rows
      with the same key share a bucket. */
  lemma HashPartitionIsRight(parts: seq<seq<Row>>, rows: seq<Row>, col: nat, n: nat, hash: Value -> nat)
    requires n > 0 && |parts| == n
    requires forall b :: 0 <= b < n ==> parts[b] == Bucket(rows, col, n, hash, b)
    ensures multiset(Flatten(parts)) == multiset(rows)
    ensures forall b, r :: 0 <= b < n ==> (r in parts[b] <==> r in rows && BucketOf(r, col, n, hash) == b)
    ensures forall b, c, r, t ::
              0 <= b < n && 0 <= c < n && r in parts[b] && t in parts[c] && HashedKey(r, col) == HashedKey(t, col) ==> b == c
  {
    hide Bucket, BucketOf, Flatten;
    forall b, r | 0 <= b < n ensures r in parts[b] <==> r in rows && BucketOf(r, col, n, hash) == b {
      BucketMembers(rows, col, n, hash, b);
    }
    forall r ensures multiset(Flatten(parts))[r] == multiset(rows)[r] {
      BucketsCount(parts, rows, col, n, hash, r);
      BucketInRange(r, col, n, hash);
    }
    forall r, t | HashedKey(r, col) == HashedKey(t, col) ensures BucketOf(r, col, n, hash) == BucketOf(t, col, n, hash) {
      BucketByKey(r, t, col, n, hash);
    }
  }

  lemma BucketByKey(r: Row, t: Row, col: nat, n: nat, hash: Value -> nat)
    requires n > 0 && HashedKey(r, col) == HashedKey(t, col)
    ensures BucketOf(r, col, n, hash) == BucketOf(t, col, n, hash)
  {
  }

  /** Keys the value order calls equal. */
  predicate EqualKeys(r: Row, t: Row, col: nat) {
    PartialCmp(HashedKey(r, col), HashedKey(t, col)) == Some(Equal)
  }

  /** Whatever the hash function and the number of buckets, equal keys share a bucket. */
  ghost predicate EqualKeysShare(rows: seq<Row>, col: nat) {
    forall r, t, n: nat, hash: Value -> nat ::
      r in rows && t in rows && EqualKeys(r, t, col) && n > 0 ==> BucketOf(r, col, n, hash) == BucketOf(t, col, n, hash)
  }

  /** The column holds both zeros. */
  predicate BothZeros(rows: seq<Row>, col: nat) {
    exists r, t :: r in rows && t in rows && HashedKey(r, col) == F64(0.0, false) && HashedKey(t, col) == F64(0.0, true)
  }

  lemma EqualKeysHashAlike(r: Row, t: Row, col: nat)
    requires EqualKeys(r, t, col)
    ensures HashInput(HashedKey(r, col)) == HashInput(HashedKey(t, col))
            || (HashedKey(r, col).F64? && HashedKey(t, col).F64? && HashedKey(r, col).r == HashedKey(t, col).r == 0.0
                && HashedKey(r, col).minusZero != HashedKey(t, col).minusZero)
  {
    match (HashedKey(r, col), HashedKey(t, col)) {
      case (Text(x), Text(y)) => CmpSeqAgrees(x, y);
      case (Blob(x), Blob(y)) => CmpSeqAgrees(x, y);
      case _ =>
    }
  }

  /** Equal keys share a bucket exactly when the column does not hold both zeros. */
  lemma EqualKeysShareIff(rows: seq<Row>, col: nat)
    ensures EqualKeysShare(rows, col) <==> !BothZeros(rows, col)
  {
    hide EqualKeys, HashedKey;
    if BothZeros(rows, col) {
      var r, t :| r in rows && t in rows && HashedKey(r, col) == F64(0.0, false) && HashedKey(t, col) == F64(0.0, true);
      ZerosAreEqual(r, t, col);
      var hash: Value -> nat := v => if v == F64(0.0, true) then 1 else 0;
      assert BucketOf(r, col, 2, hash) == 0 && BucketOf(t, col, 2, hash) == 1;
    } else {
      forall r, t, n: nat, hash: Value -> nat | r in rows && t in rows && EqualKeys(r, t, col) && n > 0
        ensures BucketOf(r, col, n, hash) == BucketOf(t, col, n, hash)
      {
        EqualKeysHashAlike(r, t, col);
      }
    }
  }

  lemma ZerosAreEqual(r: Row, t: Row, col: nat)
    requires HashedKey(r, col) == F64(0.0, false) && HashedKey(t, col) == F64(0.0, true)
    ensures EqualKeys(r, t, col)
  {
  }

  lemma BothZerosExample()
    ensures BothZeros([[F64(0.0, false)], [F64(0.0, true)]], 0)
    ensures EqualKeys([F64(0.0, false)], [F64(0.0, true)], 0)
    ensures exists hash: Value -> nat :: BucketOf([F64(0.0, false)], 0, 2, hash) != BucketOf([F64(0.0, true)], 0, 2, hash)
  {
    var rows := [[F64(0.0, false)], [F64(0.0, true)]];
    assert rows[0] in rows && rows[1] in rows;
    var hash: Value -> nat := v => if v == F64(0.0, true) then 1 else 0;
    assert BucketOf(rows[0], 0, 2, hash) == 0 && BucketOf(rows[1], 0, 2, hash) == 1;
  }

  // ---- queries over partitions

  ghost predicate Conserves(parts: seq<seq<Row>>, rows: seq<Row>) {
    multiset(Flatten(parts)) == multiset(rows)
  }

  lemma {:induction false} SelectCounts(rows: seq<Row>, filters: seq<Expr>, schema: Schema, w: World, r: Row)
    ensures multiset(SqlSelect(rows, filters, schema, w))[r]
      == if AllTrue(r, filters, schema, w) then multiset(rows)[r] else 0
    decreases rows
  {
    hide AllTrue;
    if rows != [] {
      SelectCounts(rows[1..], filters, schema, w, r);
      assert rows == [rows[0]] + rows[1..];
    }
  }

  lemma {:induction false} SelectConcat(a: seq<Row>, b: seq<Row>, filters: seq<Expr>, schema: Schema, w: World)
    ensures SqlSelect(a + b, filters, schema, w) == SqlSelect(a, filters, schema, w) + SqlSelect(b, filters, schema, w)
    decreases a
  {
    hide AllTrue;
    if a == [] {
      assert a + b == b;
    } else {
      SelectConcat(a[1..], b, filters, schema, w);
      assert (a + b)[1..] == a[1..] + b;
    }
  }

  /** Every filter covers every row. */
  ghost predicate AllCovered(rows: seq<Row>, filters: seq<Expr>, schema: Schema) {
    forall r, j :: r in rows && 0 <= j < |filters| ==> Covers(filters[j], r, schema, true)
  }

  /** Filtering a batch again selects what SQL selects from its partition. */
  ghost predicate BatchesAreRight(parts: seq<seq<Row>>, batches: seq<seq<Row>>, filters: seq<Expr>, schema: Schema, w: World) {
    |batches| == |parts|
    && forall i :: 0 <= i < |parts| ==> SqlSelect(batches[i], filters, schema, w) == SqlSelect(parts[i], filters, schema, w)
  }

  lemma {:induction false} BatchesSelect(parts: seq<seq<Row>>, batches: seq<seq<Row>>, filters: seq<Expr>, schema: Schema, w: World)
    requires BatchesAreRight(parts, batches, filters, schema, w)
    ensures SqlSelect(Flatten(batches), filters, schema, w) == SqlSelect(Flatten(parts), filters, schema, w)
    decreases parts
  {
    hide SqlSelect;
    if parts == [] {
    } else {
      BatchesSelect(parts[1..], batches[1..], filters, schema, w);
      SelectConcat(parts[0], Flatten(parts[1..]), filters, schema, w);
      SelectConcat(batches[0], Flatten(batches[1..]), filters, schema, w);
    }
  }

  /** Then filtering the batches again gives the rows SQL selects from the unpartitioned table. */
  lemma RightBatchesSelect(parts: seq<seq<Row>>, batches: seq<seq<Row>>, rows: seq<Row>, filters: seq<Expr>, schema: Schema, w: World)
    requires Conserves(parts, rows) && BatchesAreRight(parts, batches, filters, schema, w)
    ensures multiset(SqlSelect(Flatten(batches), filters, schema, w)) == multiset(SqlSelect(rows, filters, schema, w))
  {
    hide SqlSelect, AllTrue, BatchesAreRight;
    BatchesSelect(parts, batches, filters, schema, w);
    forall r ensures multiset(SqlSelect(Flatten(parts), filters, schema, w))[r] == multiset(SqlSelect(rows, filters, schema, w))[r] {
      SelectCounts(Flatten(parts), filters, schema, w, r);
      SelectCounts(rows, filters, schema, w, r);
    }
  }

  /** The rows of partitions that keep the rows are rows of the table. */
  lemma PartsHoldRows(parts: seq<seq<Row>>, rows: seq<Row>, i: nat, r: Row)
    requires Conserves(parts, rows) && i < |parts| && r in parts[i]
    ensures r in rows
  {
    InFlatten(parts, r);
    SameRows(Flatten(parts), rows);
  }

  /** Scanning any row-conserving partitions with the filters pushed down and filtering the
      batches again gives the rows SQL selects from the unpartitioned table. */
  lemma PartitionedQueryIsRight(parts: seq<seq<Row>>, batches: seq<seq<Row>>, rows: seq<Row>, filters: seq<Expr>, schema: Schema, w: World)
    requires Conserves(parts, rows) && AllCovered(rows, filters, schema)
    requires |batches| == |parts|
    requires forall i :: 0 <= i < |parts| ==> batches[i] == Kept(parts[i], filters, schema)
    ensures multiset(SqlSelect(Flatten(batches), filters, schema, w)) == multiset(SqlSelect(rows, filters, schema, w))
  {
    hide Covers, Kept, SqlSelect, Conserves;
    forall i | 0 <= i < |parts| ensures SqlSelect(batches[i], filters, schema, w) == SqlSelect(parts[i], filters, schema, w) {
      forall k, j | 0 <= k < |parts[i]| && 0 <= j < |filters| ensures Covers(filters[j], parts[i][k], schema, true) {
        PartsHoldRows(parts, rows, i, parts[i][k]);
      }
      PushdownPreserves(parts[i], filters, schema, w);
    }
    RightBatchesSelect(parts, batches, rows, filters, schema, w);
  }

  /** The batches of a scan, filtered again, hold the rows SQL selects from the provider's rows. */
  lemma ScannedQueryIsRight(p: Provider, batches: seq<seq<Row>>, filters: seq<Expr>, w: World)
    requires AllCovered(p.rows, filters, p.schema) && (p.partitions != [] ==> Conserves(p.partitions, p.rows))
    requires p.partitions == [] ==> batches == [Kept(p.rows, filters, p.schema)]
    requires p.partitions != [] ==> |batches| == |p.partitions|
    requires p.partitions != [] ==> forall i :: 0 <= i < |batches| ==> batches[i] == Kept(p.partitions[i], filters, p.schema)
    ensures multiset(SqlSelect(Flatten(batches), filters, p.schema, w)) == multiset(SqlSelect(p.rows, filters, p.schema, w))
  {
    hide Kept, SqlSelect, AllCovered;
    var parts := if p.partitions == [] then [p.rows] else p.partitions;
    if p.partitions == [] {
      assert parts[1..] == [] && Flatten([]) == [] && p.rows + [] == p.rows;
      assert Flatten(parts) == p.rows;
    }
    PartitionedQueryIsRight(parts, batches, p.rows, filters, p.schema, w);
  }

  /** Keys of types that are not compared count as equal. */
  lemma UncomparedIsAlike(a: Row, b: Row, col: nat)
    requires !KeysCompare(a, b, col)
    ensures Alike(a, b, col) && Alike(b, a, col)
  {
  }
}

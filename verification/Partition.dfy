/** Splitting a snapshot of rows into partitions for parallel scans. */
module Partition {
  import opened Wrappers
  import opened Fallible
  import opened SqlValues
  import opened Filter
  import opened FilterSoundness

  datatype Provider = Provider(schema: Schema, rows: seq<Row>, partitions: seq<seq<Row>>)

  // ---- sorting by a key column

  /** A row shorter than the schema has no key; it sorts first. */
  function CompareRows(a: Row, b: Row, col: nat): Ordering {
    match (GetByIndex(a, col), GetByIndex(b, col))
    case (Some(l), Some(r)) => (match PartialCmp(l, r) case Some(o) => o case None => Equal)
    case (None, Some(_)) => Below
    case (Some(_), None) => Above
    case (None, None) => Equal
  }

  predicate Leq(a: Row, b: Row, col: nat) { !CompareRows(a, b, col).Above? }

  predicate Alike(a: Row, b: Row, col: nat) { CompareRows(a, b, col).Equal? }

  function Insert(row: Row, sorted: seq<Row>, col: nat): seq<Row> {
    if sorted == [] then [row]
    else if Leq(row, sorted[0], col) then [row] + sorted
    else [sorted[0]] + Insert(row, sorted[1..], col)
  }

  /** The stable sort. `StableSortIsUnique` shows that the algorithm does not matter. */
  function SortBy(rows: seq<Row>, col: nat): seq<Row> {
    if rows == [] then [] else Insert(rows[0], SortBy(rows[1..], col), col)
  }

  /** Two keys the value order can compare: NULL and anything, or values of one ordered type. */
  predicate KeysCompare(a: Row, b: Row, col: nat) {
    col < |a| && col < |b| ==> PartialCmp(a[col], b[col]).Some?
  }

  ghost predicate ComparableKeys(rows: seq<Row>, col: nat) {
    forall a, b :: a in rows && b in rows ==> KeysCompare(a, b, col)
  }

  /** Key order said without the comparison: no key, then NULL, then the values in order. */
  predicate AtOrBelow(a: Row, b: Row, col: nat) {
    || |a| <= col
    || (col < |b| && (a[col].Null? || (!b[col].Null? && Comparable(a[col], b[col]) && !Before(b[col], a[col]))))
  }

  ghost predicate Sorted(rows: seq<Row>, col: nat) {
    forall i, j :: 0 <= i < j < |rows| ==> AtOrBelow(rows[i], rows[j], col)
  }

  /** The rows whose key equals that of `k`, in order. */
  function WithKeyOf(rows: seq<Row>, k: Row, col: nat): seq<Row> {
    if rows == [] then []
    else (if Alike(rows[0], k, col) then [rows[0]] else []) + WithKeyOf(rows[1..], k, col)
  }

  /** `after` lists the rows of `before` and keeps the order of rows with equal keys. */
  ghost predicate SameClasses(before: seq<Row>, after: seq<Row>, col: nat) {
    && (forall r :: r in before <==> r in after)
    && forall k :: k in before ==> WithKeyOf(after, k, col) == WithKeyOf(before, k, col)
  }

  // ---- range partitions

  function CeilDiv(a: nat, b: nat): nat
    requires b > 0
  {
    (a + b - 1) / b
  }

  /** Contiguous pieces of `size` rows, the last one possibly shorter. */
  function Chunks(rows: seq<Row>, size: nat): seq<seq<Row>>
    requires size > 0
  {
    if rows == [] then []
    else if |rows| <= size then [rows]
    else [rows[..size]] + Chunks(rows[size..], size)
  }

  function ChunkSize(total: nat, n: nat): nat
    requires n > 0
  {
    if CeilDiv(total, n) == 0 then 1 else CeilDiv(total, n)
  }

  function WithRangePartition(p: Provider, column: string, n: nat): Provider {
    if n == 0 then p
    else match IndexOf(p.schema, column)
         case None => p
         case Some(col) =>
           var sorted := SortBy(p.rows, col);
           p.(rows := sorted, partitions := Chunks(sorted, ChunkSize(|sorted|, n)))
  }

  /** `None` is the panic of a division by zero. */
  function WithAutoPartition(p: Provider, parallel: nat, target: nat): Option<Provider> {
    var total := |p.rows|;
    if total <= target || parallel <= 1 then Some(p)
    else if target == 0 then None
    else
      var wanted := if total / target <= parallel then total / target else parallel;
      var n := if wanted <= 1 then 1 else wanted;
      Some(if p.schema.columns == [] then p else WithRangePartition(p, p.schema.columns[0], n))
  }

  // ---- hash partitions

  /** The value hashed: a row without a key is hashed like NULL. */
  function HashedKey(row: Row, col: nat): Value {
    match GetByIndex(row, col)
    case Some(v) => v
    case None => Null
  }

  /** Floats are hashed by their bits: of equal floats only the two zeros differ in them. */
  function HashInput(v: Value): Value {
    if v.F64? && v.r != 0.0 then F64(v.r, false) else v
  }

  function BucketOf(row: Row, col: nat, n: nat, hash: Value -> nat): nat
    requires n > 0
  {
    hash(HashInput(HashedKey(row, col))) % n
  }

  /** The rows of one bucket, in their original order. */
  function Bucket(rows: seq<Row>, col: nat, n: nat, hash: Value -> nat, b: nat): seq<Row>
    requires n > 0
  {
    if rows == [] then []
    else Bucket(rows[..|rows| - 1], col, n, hash, b)
         + if BucketOf(rows[|rows| - 1], col, n, hash) == b then [rows[|rows| - 1]] else []
  }

  method WithHashPartition(p: Provider, column: string, n: nat, hash: Value -> nat) returns (r: Result<Provider>)
    ensures r.Err? <==> n == 0 || IndexOf(p.schema, column).None?
    ensures r.Ok? ==> r.value == p.(partitions := r.value.partitions) && |r.value.partitions| == n
    ensures r.Ok? ==> forall b :: 0 <= b < n ==>
      r.value.partitions[b] == Bucket(p.rows, IndexOf(p.schema, column).value, n, hash, b)
  {
    if n == 0 { return Err; }
    var found := IndexOf(p.schema, column);
    if found.None? { return Err; }
    var col := found.value;
    var buckets: seq<seq<Row>> := seq(n, _ => []);
    for i := 0 to |p.rows|
      invariant |buckets| == n
      invariant forall b :: 0 <= b < n ==> buckets[b] == Bucket(p.rows[..i], col, n, hash, b)
    {
      assert p.rows[..i + 1][..i] == p.rows[..i];
      var b := BucketOf(p.rows[i], col, n, hash);
      buckets := buckets[b := buckets[b] + [p.rows[i]]];
    }
    assert p.rows[..|p.rows|] == p.rows;
    r := Ok(p.(partitions := buckets));
  }

  // ---- scanning the partitions

  /** One batch of kept rows for each partition. */
  method Scan(p: Provider, filters: seq<Expr>) returns (batches: seq<seq<Row>>)
    ensures p.partitions == [] ==> batches == [Kept(p.rows, filters, p.schema)]
    ensures p.partitions != [] ==> |batches| == |p.partitions|
    ensures p.partitions != [] ==> forall i :: 0 <= i < |batches| ==> batches[i] == Kept(p.partitions[i], filters, p.schema)
  {
    batches := [];
    var sources := if p.partitions == [] then [p.rows] else p.partitions;
    for i := 0 to |sources|
      invariant |batches| == i
      invariant forall k :: 0 <= k < i ==> batches[k] == Kept(sources[k], filters, p.schema)
    {
      var kept := ScanRows(sources[i], filters, p.schema);
      batches := batches + [kept];
    }
  }
}

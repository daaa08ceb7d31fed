/** Exactly which filters may be pushed down, by the types of the columns. */
module FilterExact {
  import opened Wrappers
  import opened SqlValues
  import opened Filter
  import opened FilterSoundness
  import opened Partition
  import opened PartitionTheorems
  import opened FilterTypes
  import opened FilterShapes
  import opened FilterLeaves
  import opened FilterLists
  import opened FilterRanges
  import opened FilterPatterns

  /** A filter without AND, OR and NOT. */
  predicate IsLeaf(e: Expr) {
    (e.Binary? && IsComparison(e.op)) || e.IsNull? || e.IsNotNull? || e.InList? || e.Between? || e.LikeExpr?
  }

  function Operands(e: Expr): seq<Expr> {
    match e
    case Binary(l, _, r) => [l, r]
    case IsNull(inner) => [inner]
    case IsNotNull(inner) => [inner]
    case InList(expr, list, _) => [expr] + list
    case Between(expr, low, high, _) => [expr, low, high]
    case LikeExpr(expr, pattern, _, _, _) => [expr, pattern]
    case _ => []
  }

  predicate OfferedLeaf(e: Expr) { IsLeaf(e) && forall o :: o in Operands(e) ==> IsColOrLiteral(o) }

  function Leaves(e: Expr): seq<Expr> {
    if e.Not? then Leaves(e.inner)
    else if e.Binary? && (e.op.And? || e.op.Or?) then Leaves(e.left) + Leaves(e.right)
    else [e]
  }

  lemma ListOperands(expr: Expr, list: seq<Expr>)
    ensures (forall o :: o in [expr] + list ==> IsColOrLiteral(o))
      <==> IsColOrLiteral(expr) && forall i :: 0 <= i < |list| ==> IsColOrLiteral(list[i])
  {
    var all := [expr] + list;
    assert all[0] == expr && expr in all;
    forall i | 0 <= i < |list| ensures list[i] in all { assert all[i + 1] == list[i]; }
  }

  lemma LeafIsOfferedIff(e: Expr)
    requires !e.Not? && !(e.Binary? && (e.op.And? || e.op.Or?))
    ensures IsSimpleFilter(e) <==> OfferedLeaf(e)
  {
    match e {
      case Binary(l, op, r) => assert l in Operands(e) && r in Operands(e);
      case IsNull(inner) => assert inner in Operands(e);
      case IsNotNull(inner) => assert inner in Operands(e);
      case InList(expr, list, _) => ListOperands(expr, list);
      case Between(expr, low, high, _) => assert expr in Operands(e) && low in Operands(e) && high in Operands(e);
      case LikeExpr(expr, pattern, _, _, _) => assert expr in Operands(e) && pattern in Operands(e);
      case _ =>
    }
  }

  /** A filter is offered exactly if every leaf compares, tests or matches columns and literals. */
  lemma {:induction false} OfferedIff(e: Expr)
    ensures IsSimpleFilter(e) <==> forall l :: l in Leaves(e) ==> OfferedLeaf(l)
    decreases e
  {
    hide OfferedLeaf;
    if e.Not? {
      OfferedIff(e.inner);
    } else if e.Binary? && (e.op.And? || e.op.Or?) {
      OfferedIff(e.left);
      OfferedIff(e.right);
    } else {
      LeafIsOfferedIff(e);
    }
  }

  /** The condition, from the filter, the column names and the column types. */
  ghost predicate LeafSafe(e: Expr, schema: Schema, kinds: seq<Kind>, keeping: bool)
    requires OfferedLeaf(e)
  {
    match e
    case Binary(l, op, r) => keeping || ComparisonSafe(l, op, r, schema, kinds)
    case IsNull(inner) => keeping || NullTestSafe(inner, true, schema, kinds)
    case IsNotNull(inner) => keeping || NullTestSafe(inner, false, schema, kinds)
    case InList(expr, list, negated) =>
      if keeping then negated || !InDrops(expr, list, schema, kinds)
      else if negated then !NotInKeepsFalse(expr, list, schema, kinds)
      else !InKeepsFalse(expr, list, schema, kinds)
    case Between(expr, low, high, negated) =>
      if keeping then !negated || !BetweenMiss(expr, low, high, schema, kinds)
      else if negated then !NotBetweenKeepsFalse(expr, low, high, schema, kinds)
      else !BetweenMiss(expr, low, high, schema, kinds) && !UnknownBetween(expr, low, high, schema, kinds)
    case LikeExpr(expr, pattern, negated, ci, escape) => LikeSafe(expr, pattern, negated, ci, escape, schema, kinds, keeping)
  }

  /** An offered leaf is answered rightly on all rows that fit the column types, whatever SQL
      makes of what the evaluator does not cover, exactly if it is safe. */
  lemma LeafIff(e: Expr, schema: Schema, kinds: seq<Kind>, keeping: bool)
    requires OfferedLeaf(e) && TypedSchema(schema, kinds)
    ensures AlwaysRight(e, schema, kinds, keeping) <==> LeafSafe(e, schema, kinds, keeping)
  {
    hide AlwaysRight, ComparisonSafe, NullTestSafe, InDrops, NotInKeepsFalse, InKeepsFalse;
    hide BetweenMiss, NotBetweenKeepsFalse, UnknownBetween, LikeSafe;
    LeafIsOfferedIff(e);
    match e {
      case Binary(l, op, r) => ComparisonIff(l, op, r, schema, kinds);
      case IsNull(inner) =>
        NullTestKeeps(inner, true, schema, kinds);
        NullTestIff(inner, true, schema, kinds);
      case IsNotNull(inner) =>
        NullTestKeeps(inner, false, schema, kinds);
        NullTestIff(inner, false, schema, kinds);
      case InList(expr, list, negated) =>
        InKeepsIff(expr, list, schema, kinds);
        InRejectsIff(expr, list, schema, kinds);
        NotInKeeps(expr, list, schema, kinds);
        NotInRejectsIff(expr, list, schema, kinds);
      case Between(expr, low, high, negated) =>
        BetweenKeeps(expr, low, high, schema, kinds);
        BetweenRejectsIff(expr, low, high, schema, kinds);
        NotBetweenKeepsIff(expr, low, high, schema, kinds);
        NotBetweenRejectsIff(expr, low, high, schema, kinds);
      case LikeExpr(expr, pattern, negated, ci, escape) => LikeIff(expr, pattern, negated, ci, escape, schema, kinds, keeping);
    }
  }

  // ---- connectives

  lemma NotFlips(e: Expr, row: Row, schema: Schema, w: World, keeping: bool)
    ensures RightOn(Not(e), row, schema, w, keeping) <==> RightOn(e, row, schema, w, !keeping)
  {
    assert EvalFilterOnRow(Not(e), row, schema) == !EvalFilterOnRow(e, row, schema);
    assert Meaning(Not(e), row, schema, w) == TriNot(Meaning(e, row, schema, w));
  }

  lemma AlwaysRightNot(e: Expr, schema: Schema, kinds: seq<Kind>, keeping: bool)
    ensures AlwaysRight(Not(e), schema, kinds, keeping) <==> AlwaysRight(e, schema, kinds, !keeping)
  {
    hide RightOn, RowFits;
    var other := !keeping;
    if AlwaysRight(Not(e), schema, kinds, keeping) {
      forall row, w: World | RowFits(row, kinds) ensures RightOn(e, row, schema, w, other) {
        NotFlips(e, row, schema, w, keeping);
      }
    }
    if AlwaysRight(e, schema, kinds, !keeping) {
      forall row, w: World | RowFits(row, kinds) ensures RightOn(Not(e), row, schema, w, keeping) {
        NotFlips(e, row, schema, w, keeping);
      }
    }
  }

  /** Every leaf is safe in the direction its NOTs leave it in. */
  ghost predicate SafeFilter(e: Expr, schema: Schema, kinds: seq<Kind>, keeping: bool) {
    if e.Not? then SafeFilter(e.inner, schema, kinds, !keeping)
    else if e.Binary? && (e.op.And? || e.op.Or?) then
      SafeFilter(e.left, schema, kinds, keeping) && SafeFilter(e.right, schema, kinds, keeping)
    else OfferedLeaf(e) && LeafSafe(e, schema, kinds, keeping)
  }

  lemma AndOrKeepRight(l: Expr, op: Operator, r: Expr, row: Row, schema: Schema, w: World, keeping: bool)
    requires op.And? || op.Or?
    requires RightOn(l, row, schema, w, keeping) && RightOn(r, row, schema, w, keeping)
    ensures RightOn(Binary(l, op, r), row, schema, w, keeping)
  {
  }

  lemma {:induction false} SafeFilterIsRight(e: Expr, schema: Schema, kinds: seq<Kind>, keeping: bool)
    requires TypedSchema(schema, kinds) && SafeFilter(e, schema, kinds, keeping)
    ensures AlwaysRight(e, schema, kinds, keeping)
    decreases e
  {
    hide RightOn, LeafSafe;
    if e.Not? {
      SafeFilterIsRight(e.inner, schema, kinds, !keeping);
      AlwaysRightNot(e.inner, schema, kinds, keeping);
    } else if e.Binary? && (e.op.And? || e.op.Or?) {
      SafeFilterIsRight(e.left, schema, kinds, keeping);
      SafeFilterIsRight(e.right, schema, kinds, keeping);
      forall row, w: World | RowFits(row, kinds) ensures RightOn(e, row, schema, w, keeping) {
        AndOrKeepRight(e.left, e.op, e.right, row, schema, w, keeping);
      }
    } else {
      LeafIff(e, schema, kinds, keeping);
    }
  }

  // ---- queries

  ghost predicate RowsFit(rows: seq<Row>, kinds: seq<Kind>) { forall i :: 0 <= i < |rows| ==> RowFits(rows[i], kinds) }

  ghost predicate PreservedBy(rows: seq<Row>, filters: seq<Expr>, schema: Schema, w: World) {
    SqlSelect(Kept(rows, filters, schema), filters, schema, w) == SqlSelect(rows, filters, schema, w)
  }

  /** Pushing the filter down changes no query on tables of these types. */
  ghost predicate Pushable(f: Expr, schema: Schema, kinds: seq<Kind>) {
    forall rows, w: World :: RowsFit(rows, kinds) ==> PreservedBy(rows, [f], schema, w)
  }

  lemma {:induction false} RightPreserves(rows: seq<Row>, filters: seq<Expr>, schema: Schema, w: World)
    requires forall i, j :: 0 <= i < |rows| && 0 <= j < |filters| ==> RightOn(filters[j], rows[i], schema, w, true)
    ensures PreservedBy(rows, filters, schema, w)
    decreases rows
  {
    hide RightOn, AllTrue, Passes;
    if rows != [] {
      var rest := rows[1..];
      forall i, j | 0 <= i < |rest| && 0 <= j < |filters| ensures RightOn(filters[j], rest[i], schema, w, true) {
        assert rest[i] == rows[i + 1];
      }
      RightPreserves(rest, filters, schema, w);
      RightPasses(rows[0], filters, schema, w);
      var kept := Kept(rest, filters, schema);
      if Passes(rows[0], filters, schema) {
        assert ([rows[0]] + kept)[1..] == kept;
      } else {
        assert [] + kept == kept && [] + SqlSelect(rest, filters, schema, w) == SqlSelect(rest, filters, schema, w);
      }
    }
  }

  lemma RightPasses(row: Row, filters: seq<Expr>, schema: Schema, w: World)
    requires forall j :: 0 <= j < |filters| ==> RightOn(filters[j], row, schema, w, true)
    ensures AllTrue(row, filters, schema, w) ==> Passes(row, filters, schema)
  {
    hide EvalFilterOnRow, Meaning;
  }

  lemma OneRow(f: Expr, row: Row, schema: Schema, w: World)
    ensures PreservedBy([row], [f], schema, w) <==> RightOn(f, row, schema, w, true)
  {
    hide EvalFilterOnRow, Meaning;
    var rows, filters := [row], [f];
    assert rows[1..] == [] && filters[0] == f;
    assert Passes(row, filters, schema) <==> EvalFilterOnRow(f, row, schema);
    assert AllTrue(row, filters, schema, w) <==> Meaning(f, row, schema, w).True?;
    assert Kept(rows, filters, schema) == (if Passes(row, filters, schema) then [row] else []) + Kept([], filters, schema);
    assert SqlSelect(rows, filters, schema, w) == (if AllTrue(row, filters, schema, w) then [row] else []) + SqlSelect([], filters, schema, w);
  }

  lemma PushableIffRight(f: Expr, schema: Schema, kinds: seq<Kind>)
    ensures Pushable(f, schema, kinds) <==> AlwaysRight(f, schema, kinds, true)
  {
    hide RightOn, PreservedBy, RowFits;
    if AlwaysRight(f, schema, kinds, true) {
      forall rows, w: World | RowsFit(rows, kinds) ensures PreservedBy(rows, [f], schema, w) {
        RightPreserves(rows, [f], schema, w);
      }
    }
    if Pushable(f, schema, kinds) {
      forall row, w: World | RowFits(row, kinds) ensures RightOn(f, row, schema, w, true) {
        assert RowsFit([row], kinds);
        OneRow(f, row, schema, w);
      }
    }
  }

  /** An offered leaf may be pushed down exactly if it is safe. */
  lemma LeafPushableIff(e: Expr, schema: Schema, kinds: seq<Kind>)
    requires OfferedLeaf(e) && TypedSchema(schema, kinds)
    ensures Pushable(e, schema, kinds) <==> LeafSafe(e, schema, kinds, true)
  {
    hide Pushable, AlwaysRight, LeafSafe;
    PushableIffRight(e, schema, kinds);
    LeafIff(e, schema, kinds, true);
  }

  /** A negated one exactly if it is safe the other way round. */
  lemma NegatedLeafPushableIff(e: Expr, schema: Schema, kinds: seq<Kind>)
    requires OfferedLeaf(e) && TypedSchema(schema, kinds)
    ensures IsSimpleFilter(Not(e))
    ensures Pushable(Not(e), schema, kinds) <==> LeafSafe(e, schema, kinds, false)
  {
    hide Pushable, AlwaysRight, LeafSafe;
    LeafIsOfferedIff(e);
    PushableIffRight(Not(e), schema, kinds);
    AlwaysRightNot(e, schema, kinds, true);
    LeafIff(e, schema, kinds, false);
  }

  /** Filters of any depth whose leaves are safe preserve every query. */
  lemma SafePushdownPreserves(rows: seq<Row>, filters: seq<Expr>, schema: Schema, kinds: seq<Kind>, w: World)
    requires TypedSchema(schema, kinds) && RowsFit(rows, kinds)
    requires forall j :: 0 <= j < |filters| ==> SafeFilter(filters[j], schema, kinds, true)
    ensures PreservedBy(rows, filters, schema, w)
  {
    hide RightOn, SafeFilter, PreservedBy;
    forall i, j | 0 <= i < |rows| && 0 <= j < |filters| ensures RightOn(filters[j], rows[i], schema, w, true) {
      SafeFilterIsRight(filters[j], schema, kinds, true);
    }
    RightPreserves(rows, filters, schema, w);
  }

  /** So they do over any partitions that keep the rows. */
  lemma SafePartitionedQuery(parts: seq<seq<Row>>, batches: seq<seq<Row>>, rows: seq<Row>, filters: seq<Expr>, schema: Schema,
                             kinds: seq<Kind>, w: World)
    requires Conserves(parts, rows) && TypedSchema(schema, kinds) && RowsFit(rows, kinds)
    requires forall j :: 0 <= j < |filters| ==> SafeFilter(filters[j], schema, kinds, true)
    requires |batches| == |parts| && forall i :: 0 <= i < |parts| ==> batches[i] == Kept(parts[i], filters, schema)
    ensures multiset(SqlSelect(Flatten(batches), filters, schema, w)) == multiset(SqlSelect(rows, filters, schema, w))
  {
    hide SafeFilter, Kept, SqlSelect, Conserves, RowFits;
    forall i | 0 <= i < |parts| ensures SqlSelect(batches[i], filters, schema, w) == SqlSelect(parts[i], filters, schema, w) {
      forall k | 0 <= k < |parts[i]| ensures RowFits(parts[i][k], kinds) {
        PartsHoldRows(parts, rows, i, parts[i][k]);
      }
      SafePushdownPreserves(parts[i], filters, schema, kinds, w);
    }
    RightBatchesSelect(parts, batches, rows, filters, schema, w);
  }

  // ---- offered filters that lose rows

  function OneColumn(): Schema { Schema(["a"], s => s) }

  lemma OneColumnIs(row: Row)
    ensures IndexOf(OneColumn(), "a") == Some(0)
    ensures ValueOf(Column("a"), row, OneColumn()) == GetByIndex(row, 0)
  {
  }

  /** A float in an IN list over an integer column. */
  lemma FloatInExample(w: World)
    ensures var f := InList(Column("a"), [Literal(FloatScalar(Some(1.0)))], false);
            && IsSimpleFilter(f)
            && Meaning(f, [I64(1)], OneColumn(), w).True? && !EvalFilterOnRow(f, [I64(1)], OneColumn())
  {
    var list := [Literal(FloatScalar(Some(1.0)))];
    OneColumnIs([I64(1)]);
    assert SqlCompare(Column("a"), Eq, list[0], [I64(1)], OneColumn(), w).True?;
    SqlInTrueIff(Column("a"), list, [I64(1)], OneColumn(), w);
    EvalInIs(Column("a"), list, false, [I64(1)], OneColumn());
  }

  /** A float bound of NOT BETWEEN over an integer column. */
  lemma FloatBoundExample(w: World)
    ensures var f := Between(Column("a"), Literal(FloatScalar(Some(2.5))), Literal(IntScalar(Some(3))), true);
            && IsSimpleFilter(f)
            && Meaning(f, [I64(1)], OneColumn(), w).True? && !EvalFilterOnRow(f, [I64(1)], OneColumn())
  {
    OneColumnIs([I64(1)]);
  }

  /** The negation of a comparison with a literal the evaluator does not know. */
  lemma UnknownLiteralExample(id: nat)
    ensures var f := Not(Binary(Column("a"), Eq, Literal(OtherScalar(id))));
            && IsSimpleFilter(f)
            && Meaning(f, [I64(1)], OneColumn(), SAYS_FALSE).True? && !EvalFilterOnRow(f, [I64(1)], OneColumn())
  {
    OneColumnIs([I64(1)]);
    NegatedMeaning(Column("a"), Eq, Literal(OtherScalar(id)), [I64(1)], OneColumn(), SAYS_FALSE);
  }
}

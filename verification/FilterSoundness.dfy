/** The evaluator against SQL's three-valued logic. */
module FilterSoundness {
  import opened Wrappers
  import opened Like
  import opened SqlValues
  import opened Filter

  datatype Tri = True | False | Unknown

  function TriNot(a: Tri): Tri {
    match a
    case True => False
    case False => True
    case Unknown => Unknown
  }

  function TriAnd(a: Tri, b: Tri): Tri {
    if a.False? || b.False? then False else if a.True? && b.True? then True else Unknown
  }

  function TriOr(a: Tri, b: Tri): Tri { TriNot(TriAnd(TriNot(a), TriNot(b))) }

  /** What SQL makes, on each row, of a leaf the evaluator's vocabulary does not cover: a comparison
      of other operands or across types, an escaped or case-insensitive pattern, ... */
  type World = (Expr, Row) -> Tri

  predicate Holds(op: Operator, a: Value, b: Value)
    requires IsComparison(op) && Comparable(a, b)
  {
    match op
    case Eq => Same(a, b)
    case NotEq => !Same(a, b)
    case Lt => Before(a, b)
    case LtEq => Before(a, b) || Same(a, b)
    case Gt => Before(b, a)
    case GtEq => Before(b, a) || Same(a, b)
  }

  function Truth(b: bool): Tri { if b then True else False }

  /** Comparing with NULL is unknown, comparing like with like is decided. */
  function SqlCompare(l: Expr, op: Operator, r: Expr, row: Row, schema: Schema, w: World): Tri
    requires IsComparison(op)
  {
    var a, b := EvalExprToValue(l, row, schema), EvalExprToValue(r, row, schema);
    if a == Some(Null) || b == Some(Null) then Unknown
    else if a.Some? && b.Some? && Comparable(a.value, b.value) then Truth(Holds(op, a.value, b.value))
    else w(Binary(l, op, r), row)
  }

  /** `e IN (...)` is a disjunction of equalities. */
  function SqlIn(e: Expr, list: seq<Expr>, row: Row, schema: Schema, w: World): Tri {
    if list == [] then False
    else TriOr(SqlCompare(e, Eq, list[0], row, schema, w), SqlIn(e, list[1..], row, schema, w))
  }

  function Negated(t: Tri, negated: bool): Tri { if negated then TriNot(t) else t }

  ghost function SqlLike(e: Expr, row: Row, schema: Schema, w: World): Tri
    requires e.LikeExpr?
  {
    var t, p := EvalExprToValue(e.expr, row, schema), EvalExprToValue(e.pattern, row, schema);
    if t == Some(Null) || p == Some(Null) then Unknown
    else if t.Some? && p.Some? && t.value.Text? && p.value.Text? && !e.escape
    then
      var text, pattern := Folded(t.value.text, e.caseInsensitive, schema), Folded(p.value.text, e.caseInsensitive, schema);
      Truth(exists pieces :: Splits(text, pattern, pieces))
    else w(e.(negated := false), row)
  }

  /** The meaning of a filter on a row in three-valued logic. */
  ghost function Meaning(e: Expr, row: Row, schema: Schema, w: World): Tri {
    match e
    case Binary(l, op, r) =>
      if op.And? then TriAnd(Meaning(l, row, schema, w), Meaning(r, row, schema, w))
      else if op.Or? then TriOr(Meaning(l, row, schema, w), Meaning(r, row, schema, w))
      else if IsComparison(op) then SqlCompare(l, op, r, row, schema, w)
      else w(e, row)
    case Not(inner) => TriNot(Meaning(inner, row, schema, w))
    case IsNull(inner) => SqlIsNull(inner, row, schema, w)
    case IsNotNull(inner) => TriNot(SqlIsNull(inner, row, schema, w))
    case InList(expr, list, negated) => Negated(SqlIn(expr, list, row, schema, w), negated)
    case Between(expr, low, high, negated) =>
      Negated(TriAnd(SqlCompare(expr, GtEq, low, row, schema, w), SqlCompare(expr, LtEq, high, row, schema, w)), negated)
    case LikeExpr(_, _, negated, _, _) => Negated(SqlLike(e, row, schema, w), negated)
    case _ => w(e, row)
  }

  function SqlIsNull(inner: Expr, row: Row, schema: Schema, w: World): Tri {
    match EvalExprToValue(inner, row, schema)
    case Some(v) => Truth(v.Null?)
    case None => w(IsNull(inner), row)
  }

  // ---- which leaves the evaluator answers rightly, by the direction of the error

  function ValueOf(e: Expr, row: Row, schema: Schema): Option<Value> { EvalExprToValue(e, row, schema) }

  /** Column against literal, with a value there, and either a NULL or types it compares. */
  predicate Decides(l: Expr, r: Expr, row: Row, schema: Schema) {
    && ((l.Column? && r.Literal?) || (l.Literal? && r.Column?))
    && ValueOf(l, row, schema).Some? && ValueOf(r, row, schema).Some?
    && var a, b := ValueOf(l, row, schema).value, ValueOf(r, row, schema).value;
       || a.Null? || b.Null?
       || (if l.Column? then CompareValueScalar(a, r.scalar).Some? else CompareValueScalar(b, l.scalar).Some?)
  }

  /** The operand has a value that is NULL or of the type of `v`. */
  predicate Typed(v: Value, e: Expr, row: Row, schema: Schema) {
    ValueOf(e, row, schema).Some? && PartialCmp(v, ValueOf(e, row, schema).value).Some?
  }

  predicate AllTyped(v: Value, list: seq<Expr>, row: Row, schema: Schema) {
    forall i :: 0 <= i < |list| ==> Typed(v, list[i], row, schema)
  }

  predicate PlainText(e: Expr, row: Row, schema: Schema)
    requires e.LikeExpr?
  {
    var t, p := ValueOf(e.expr, row, schema), ValueOf(e.pattern, row, schema);
    && t.Some? && p.Some?
    && (t.value.Null? || p.value.Null? || (t.value.Text? && p.value.Text? && !e.escape))
  }

  /** `keeping`: no row that SQL calls TRUE is dropped; otherwise: no row it calls FALSE
      is kept. A NOT swaps the two; a leaf that is not decided answers true, which is
      safe only when keeping. */
  predicate Covers(e: Expr, row: Row, schema: Schema, keeping: bool) {
    match e
    case Binary(l, op, r) =>
      if op.And? || op.Or? then Covers(l, row, schema, keeping) && Covers(r, row, schema, keeping)
      else keeping || (IsComparison(op) && Decides(l, r, row, schema))
    case Not(inner) => Covers(inner, row, schema, !keeping)
    case IsNull(inner) => keeping || (inner.Column? && ValueOf(inner, row, schema).Some?)
    case IsNotNull(inner) =>
      if keeping then inner.Column? && IndexOf(schema, inner.name).Some? ==> ValueOf(inner, row, schema).Some?
      else inner.Column? && ValueOf(inner, row, schema).Some?
    case InList(expr, list, negated) =>
      var v := ValueOf(expr, row, schema);
      if keeping then negated || v in {None, Some(Null)} || AllTyped(v.value, list, row, schema)
      else v.Some? && (if negated then v.value.Null? || AllTyped(v.value, list, row, schema) else v.value.Null? ==> list != [])
    case Between(expr, low, high, negated) =>
      var v, lo, hi := ValueOf(expr, row, schema), ValueOf(low, row, schema), ValueOf(high, row, schema);
      if v.None? || lo.None? || hi.None? then keeping
      else keeping != negated || v.value.Null? || (Typed(v.value, low, row, schema) && Typed(v.value, high, row, schema))
    case LikeExpr(expr, pattern, _, _, _) =>
      var t, p := ValueOf(expr, row, schema), ValueOf(pattern, row, schema);
      PlainText(e, row, schema) || (keeping && !(t.Some? && t.value.Text? && p.Some? && p.value.Text?))
    case _ => keeping
  }

  /** The evaluator errs only in the direction that is not covered. */
  predicate Right(answer: bool, meaning: Tri, keeping: bool) {
    if keeping then meaning.True? ==> answer else meaning.False? ==> !answer
  }

  lemma CompareAgrees(v: Value, s: ScalarValue)
    requires CompareValueScalar(v, s).Some? && !v.Null?
    ensures ScalarToValue(s).Some? && Comparable(v, ScalarToValue(s).value)
    ensures Agrees(CompareValueScalar(v, s).value, v, ScalarToValue(s).value)
  {
    match (v, s) {
      case (Text(t), Utf8Scalar(Some(u))) => CmpSeqAgrees(t, u);
      case _ =>
    }
  }

  lemma ApplyAgrees(op: Operator, o: Ordering, a: Value, b: Value)
    requires IsComparison(op) && Comparable(a, b) && Agrees(o, a, b)
    ensures Apply(op, o) == Holds(op, a, b)
    ensures Comparable(b, a) && Apply(op, Reverse(o)) == Holds(op, b, a)
  {
  }

  lemma ComparisonIsRight(l: Expr, op: Operator, r: Expr, row: Row, schema: Schema, w: World, keeping: bool)
    requires IsComparison(op) && (keeping || Decides(l, r, row, schema))
    ensures Right(EvalComparison(l, op, r, row, schema), SqlCompare(l, op, r, row, schema, w), keeping)
  {
    hide Before, Same, Position;
    if (l.Column? && r.Literal?) || (l.Literal? && r.Column?) {
      var column, scalar := if l.Column? then l else r, if l.Column? then r.scalar else l.scalar;
      var v := ValueOf(column, row, schema);
      if v.Some? && !v.value.Null? && CompareValueScalar(v.value, scalar).Some? {
        CompareAgrees(v.value, scalar);
        ApplyAgrees(op, CompareValueScalar(v.value, scalar).value, v.value, ScalarToValue(scalar).value);
      }
    }
  }

  lemma IsNullIsRight(inner: Expr, row: Row, schema: Schema, w: World, answer: bool, keeping: bool)
    requires Covers(if answer then IsNull(inner) else IsNotNull(inner), row, schema, keeping)
    ensures Right(EvalIsNull(inner, row, schema, answer), Negated(SqlIsNull(inner, row, schema, w), !answer), keeping)
  {
    hide Position;
  }

  lemma EqualityIsRight(v: Value, e: Expr, item: Expr, row: Row, schema: Schema, w: World)
    requires ValueOf(e, row, schema) == Some(v) && !v.Null?
    ensures ItemEquals(v, ValueOf(item, row, schema)) ==> SqlCompare(e, Eq, item, row, schema, w).True?
    ensures Typed(v, item, row, schema) && SqlCompare(e, Eq, item, row, schema, w).True? ==>
              ItemEquals(v, ValueOf(item, row, schema))
  {
    hide Before, Same;
    var x := ValueOf(item, row, schema);
    if x.Some? && !x.value.Null? && PartialCmp(v, x.value).Some? {
      PartialCmpAgrees(v, x.value);
    }
  }

  /** What SQL leaves unknown is kept, except that NULL counts as equal to a NULL literal. */
  lemma UnknownIsKept(l: Expr, op: Operator, r: Expr, row: Row, schema: Schema)
    requires IsComparison(op) && IsColOrLiteral(l) && IsColOrLiteral(r)
    requires ValueOf(l, row, schema) in {None, Some(Null)} || ValueOf(r, row, schema) in {None, Some(Null)}
    ensures EvalComparison(l, op, r, row, schema) <==>
            l.Literal? == r.Literal? || ValueOf(l, row, schema) != Some(Null) || ValueOf(r, row, schema) != Some(Null) || op in {Eq, LtEq, GtEq}
  {
  }

  /** So are rows on which the operands of IN, BETWEEN and LIKE cannot be told. */
  lemma UntoldIsKept(v: Option<Value>, x: Option<Value>, y: Option<Value>, items: seq<Option<Value>>, negated: bool, ci: bool, schema: Schema)
    ensures v in {None, Some(Null)} ==> EvalInList(v, items, negated)
    ensures v.None? || x.None? || y.None? ==> EvalBetween(v, x, y, negated)
    ensures !(v.Some? && v.value.Text? && x.Some? && x.value.Text?) ==> EvalLike(v, x, negated, ci, schema)
  {
  }

  ghost predicate SomeEquals(v: Value, list: seq<Expr>, row: Row, schema: Schema) {
    exists i :: 0 <= i < |list| && ItemEquals(v, ValueOf(list[i], row, schema))
  }

  /** The equality tests find only real equals, and all of them when typed. */
  lemma {:induction false} InIsRight(v: Value, e: Expr, list: seq<Expr>, row: Row, schema: Schema, w: World)
    requires ValueOf(e, row, schema) == Some(v) && !v.Null?
    ensures SomeEquals(v, list, row, schema) ==> SqlIn(e, list, row, schema, w).True?
    ensures AllTyped(v, list, row, schema) && SqlIn(e, list, row, schema, w).True? ==> SomeEquals(v, list, row, schema)
    decreases list
  {
    hide SqlCompare, ItemEquals, Typed, EvalExprToValue;
    if list != [] {
      EqualityIsRight(v, e, list[0], row, schema, w);
      InIsRight(v, e, list[1..], row, schema, w);
      assert forall i :: 0 <= i < |list[1..]| ==> list[1..][i] == list[i + 1];
      if i :| 0 <= i < |list| && ItemEquals(v, ValueOf(list[i], row, schema)) {
        if i > 0 { assert ItemEquals(v, ValueOf(list[1..][i - 1], row, schema)); }
      }
      if i :| 0 <= i < |list[1..]| && ItemEquals(v, ValueOf(list[1..][i], row, schema)) {
        assert ItemEquals(v, ValueOf(list[i + 1], row, schema));
      }
    }
  }

  lemma {:induction false} NullInIsUnknown(e: Expr, list: seq<Expr>, row: Row, schema: Schema, w: World)
    requires ValueOf(e, row, schema) == Some(Null)
    ensures SqlIn(e, list, row, schema, w) == if list == [] then False else Unknown
    decreases list
  {
    if list != [] { NullInIsUnknown(e, list[1..], row, schema, w); }
  }

  lemma InListIsRight(e: Expr, row: Row, schema: Schema, w: World, keeping: bool)
    requires e.InList? && Covers(e, row, schema, keeping)
    ensures Right(EvalFilterOnRow(e, row, schema), Meaning(e, row, schema, w), keeping)
  {
    hide SqlCompare, ItemEquals, EvalExprToValue, SqlIn;
    var v, items := ValueOf(e.expr, row, schema), Items(e.list, row, schema);
    if v.Some? && !v.value.Null? {
      InIsRight(v.value, e.expr, e.list, row, schema, w);
      assert (exists i :: 0 <= i < |items| && ItemEquals(v.value, items[i])) <==> SomeEquals(v.value, e.list, row, schema);
    } else if v.Some? {
      NullInIsUnknown(e.expr, e.list, row, schema, w);
    }
  }

  lemma BoundIsRight(v: Value, e: Expr, bound: Expr, op: Operator, row: Row, schema: Schema, w: World)
    requires ValueOf(e, row, schema) == Some(v) && ValueOf(bound, row, schema).Some? && op in {GtEq, LtEq}
    ensures var x := ValueOf(bound, row, schema).value;
            var inside := PartialCmp(v, x) != Some(if op.GtEq? then Below else Above);
            var t := SqlCompare(e, op, bound, row, schema, w);
            && (v.Null? ==> t.Unknown?)
            && (t.True? ==> inside)
            && (t.False? && !v.Null? && Typed(v, bound, row, schema) ==> !inside)
  {
    hide Before, Same;
    var x := ValueOf(bound, row, schema).value;
    if !v.Null? && !x.Null? && PartialCmp(v, x).Some? {
      PartialCmpAgrees(v, x);
    }
  }

  lemma BetweenIsRight(e: Expr, row: Row, schema: Schema, w: World, keeping: bool)
    requires e.Between? && Covers(e, row, schema, keeping)
    ensures Right(EvalFilterOnRow(e, row, schema), Meaning(e, row, schema, w), keeping)
  {
    hide SqlCompare, EvalExprToValue, PartialCmp;
    var v, lo, hi := ValueOf(e.expr, row, schema), ValueOf(e.low, row, schema), ValueOf(e.high, row, schema);
    if v.Some? && lo.Some? && hi.Some? {
      BoundIsRight(v.value, e.expr, e.low, GtEq, row, schema, w);
      BoundIsRight(v.value, e.expr, e.high, LtEq, row, schema, w);
    }
  }

  lemma LikeIsRight(e: Expr, row: Row, schema: Schema, w: World, keeping: bool)
    requires e.LikeExpr? && Covers(e, row, schema, keeping)
    ensures Right(EvalFilterOnRow(e, row, schema), Meaning(e, row, schema, w), keeping)
  {
    hide EvalExprToValue, LikeMatch, Splits;
    var t, p := ValueOf(e.expr, row, schema), ValueOf(e.pattern, row, schema);
    if t.Some? && t.value.Text? && p.Some? && p.value.Text? {
      LikeMatchIff(Folded(t.value.text, e.caseInsensitive, schema), Folded(p.value.text, e.caseInsensitive, schema));
    }
  }

  /** The evaluator never drops a row that SQL calls TRUE, where it is covered for
      keeping, and never keeps one SQL calls FALSE, where it is covered for dropping. */
  lemma {:induction false} EvaluatorIsRight(e: Expr, row: Row, schema: Schema, w: World, keeping: bool)
    requires Covers(e, row, schema, keeping)
    ensures Right(EvalFilterOnRow(e, row, schema), Meaning(e, row, schema, w), keeping)
    decreases e
  {
    match e {
      case Binary(l, op, r) =>
        if op.And? || op.Or? {
          EvaluatorIsRight(l, row, schema, w, keeping);
          EvaluatorIsRight(r, row, schema, w, keeping);
        } else if IsComparison(op) {
          ComparisonIsRight(l, op, r, row, schema, w, keeping);
        }
      case Not(inner) => EvaluatorIsRight(inner, row, schema, w, !keeping);
      case IsNull(inner) => IsNullIsRight(inner, row, schema, w, true, keeping);
      case IsNotNull(inner) => IsNullIsRight(inner, row, schema, w, false, keeping);
      case InList(_, _, _) => InListIsRight(e, row, schema, w, keeping);
      case Between(_, _, _, _) => BetweenIsRight(e, row, schema, w, keeping);
      case LikeExpr(_, _, _, _, _) => LikeIsRight(e, row, schema, w, keeping);
      case _ =>
    }
  }

  // ---- pushing filters down

  ghost predicate AllTrue(row: Row, filters: seq<Expr>, schema: Schema, w: World) {
    forall i :: 0 <= i < |filters| ==> Meaning(filters[i], row, schema, w).True?
  }

  /** The rows SQL returns: those on which every filter is TRUE. */
  ghost function SqlSelect(rows: seq<Row>, filters: seq<Expr>, schema: Schema, w: World): seq<Row> {
    if rows == [] then [] else
      (if AllTrue(rows[0], filters, schema, w) then [rows[0]] else []) + SqlSelect(rows[1..], filters, schema, w)
  }

  predicate Passes(row: Row, filters: seq<Expr>, schema: Schema) {
    forall i :: 0 <= i < |filters| ==> EvalFilterOnRow(filters[i], row, schema)
  }

  function Kept(rows: seq<Row>, filters: seq<Expr>, schema: Schema): seq<Row> {
    if rows == [] then [] else
      (if Passes(rows[0], filters, schema) then [rows[0]] else []) + Kept(rows[1..], filters, schema)
  }

  /** The row loop of a scan. */
  method ScanRows(slice: seq<Row>, filters: seq<Expr>, schema: Schema) returns (kept: seq<Row>)
    ensures kept == Kept(slice, filters, schema)
  {
    hide EvalFilterOnRow, Passes;
    kept := [];
    assert slice[0..] == slice;
    for i := 0 to |slice|
      invariant kept + Kept(slice[i..], filters, schema) == Kept(slice, filters, schema)
    {
      assert slice[i..][1..] == slice[i + 1..];
      var pass := PassesAll(slice[i], filters, schema);
      if pass { kept := kept + [slice[i]]; }
    }
  }

  method PassesAll(row: Row, filters: seq<Expr>, schema: Schema) returns (pass: bool)
    ensures pass <==> Passes(row, filters, schema)
  {
    hide EvalFilterOnRow;
    pass := true;
    for j := 0 to |filters|
      invariant pass <==> forall k :: 0 <= k < j ==> EvalFilterOnRow(filters[k], row, schema)
    {
      pass := pass && EvalFilterOnRow(filters[j], row, schema);
    }
  }

  /** Filtering in the scan and again by SQL gives the same rows in the same order as
      SQL alone, for every filter covered for keeping. */
  lemma {:induction false} PushdownPreserves(rows: seq<Row>, filters: seq<Expr>, schema: Schema, w: World)
    requires forall i, j :: 0 <= i < |rows| && 0 <= j < |filters| ==> Covers(filters[j], rows[i], schema, true)
    ensures SqlSelect(Kept(rows, filters, schema), filters, schema, w) == SqlSelect(rows, filters, schema, w)
    decreases rows
  {
    hide Meaning, EvalFilterOnRow, Covers;
    if rows != [] {
      var rest := rows[1..];
      forall i, j | 0 <= i < |rest| && 0 <= j < |filters| ensures Covers(filters[j], rest[i], schema, true) {
        assert rest[i] == rows[i + 1];
      }
      PushdownPreserves(rest, filters, schema, w);
      forall j | 0 <= j < |filters| ensures Meaning(filters[j], rows[0], schema, w).True? ==> EvalFilterOnRow(filters[j], rows[0], schema) {
        EvaluatorIsRight(filters[j], rows[0], schema, w, true);
      }
      var kept := Kept(rest, filters, schema);
      assert AllTrue(rows[0], filters, schema, w) ==> Passes(rows[0], filters, schema);
      if Passes(rows[0], filters, schema) {
        assert ([rows[0]] + kept)[1..] == kept;
      } else {
        assert [] + kept == kept && [] + SqlSelect(rest, filters, schema, w) == SqlSelect(rest, filters, schema, w);
      }
    }
  }

  // ---- where it is not covered

  /** A negated comparison of two columns is offered for pushdown, but the scan then
      drops every row: the result is right exactly when it is TRUE on none of them. */
  lemma {:induction false} NegatedColumnPairDropsAll(a: string, b: string, op: Operator, rows: seq<Row>, schema: Schema, w: World)
    requires IsComparison(op)
    ensures var f := Not(Binary(Column(a), op, Column(b)));
            && IsSimpleFilter(f)
            && Kept(rows, [f], schema) == []
            && (SqlSelect(Kept(rows, [f], schema), [f], schema, w) == SqlSelect(rows, [f], schema, w)
                <==> forall i :: 0 <= i < |rows| ==> !SqlCompare(Column(a), op, Column(b), rows[i], schema, w).False?)
    decreases rows
  {
    var f := Not(Binary(Column(a), op, Column(b)));
    if rows != [] {
      hide SqlCompare;
      var rest := rows[1..];
      NegatedColumnPairDropsAll(a, b, op, rest, schema, w);
      var c := SqlCompare(Column(a), op, Column(b), rows[0], schema, w);
      NegatedMeaning(Column(a), op, Column(b), rows[0], schema, w);
      assert !EvalFilterOnRow([f][0], rows[0], schema);
      assert AllTrue(rows[0], [f], schema, w) <==> c.False?;
      assert SqlSelect(rows, [f], schema, w) == (if c.False? then [rows[0]] else []) + SqlSelect(rest, [f], schema, w);
      assert forall i :: 0 <= i < |rest| ==> rest[i] == rows[i + 1];
      assert (forall i :: 0 <= i < |rows| ==> !SqlCompare(Column(a), op, Column(b), rows[i], schema, w).False?)
             <==> !c.False? && forall i :: 0 <= i < |rest| ==> !SqlCompare(Column(a), op, Column(b), rest[i], schema, w).False?;
    }
  }

  lemma NegatedMeaning(l: Expr, op: Operator, r: Expr, row: Row, schema: Schema, w: World)
    requires IsComparison(op)
    ensures Meaning(Not(Binary(l, op, r)), row, schema, w) == TriNot(SqlCompare(l, op, r, row, schema, w))
  {
    hide SqlCompare;
    assert Meaning(Binary(l, op, r), row, schema, w) == SqlCompare(l, op, r, row, schema, w);
  }

  lemma NegatedColumnPairExample(schema: Schema, w: World)
    requires schema.columns == ["a", "b"]
    ensures var f := Not(Binary(Column("a"), Eq, Column("b")));
            var rows := [[I64(1), I64(2)]];
            IsSimpleFilter(f) && SqlSelect(rows, [f], schema, w) == rows && Kept(rows, [f], schema) == []
  {
    var f := Not(Binary(Column("a"), Eq, Column("b")));
    var row := [I64(1), I64(2)];
    assert "a" != "b" && schema.columns[1..] == ["b"] && Position(["b"], "b") == Some(0);
    assert IndexOf(schema, "a") == Some(0) && IndexOf(schema, "b") == Some(1);
    assert SqlCompare(Column("a"), Eq, Column("b"), row, schema, w).False?;
    assert Meaning([f][0], row, schema, w).True?;
    NegatedColumnPairDropsAll("a", "b", Eq, [row], schema, w);
    assert SqlSelect([row][1..], [f], schema, w) == [];
  }
}

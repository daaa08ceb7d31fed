/** A class of filters told apart by column types alone, on which the evaluator is right in
    both directions. */
module FilterTypes {
  import opened Wrappers
  import opened SqlValues
  import opened Filter
  import opened FilterSoundness

  datatype Kind = NullKind | BoolKind | IntKind | FloatKind | TextKind | BlobKind | TimestampKind | ArrayKind

  function ValueKind(v: Value): Kind {
    match v
    case Null => NullKind
    case Bool(_) => BoolKind
    case I64(_) => IntKind
    case F64(_, _) => FloatKind
    case Text(_) => TextKind
    case Blob(_) => BlobKind
    case Timestamp(_) => TimestampKind
    case Array(_) => ArrayKind
  }

  predicate Fits(v: Value, k: Kind) { v.Null? || ValueKind(v) == k }

  /** A full-width row whose cells are NULL or of their column's type. */
  predicate RowFits(row: Row, kinds: seq<Kind>) {
    |row| == |kinds| && forall i :: 0 <= i < |row| ==> Fits(row[i], kinds[i])
  }

  function LiteralKind(s: ScalarValue): Option<Kind> {
    match s
    case NullScalar => Some(NullKind)
    case IntScalar(v) => Some(if v.Some? then IntKind else NullKind)
    case FloatScalar(v) => Some(if v.Some? then FloatKind else NullKind)
    case BoolScalar(v) => Some(if v.Some? then BoolKind else NullKind)
    case Utf8Scalar(v) => Some(if v.Some? then TextKind else NullKind)
    case OtherScalar(_) => None
  }

  /** The type of a column or literal operand. */
  function KindOf(e: Expr, schema: Schema, kinds: seq<Kind>): Option<Kind> {
    match e
    case Column(name) =>
      (match IndexOf(schema, name)
       case Some(i) => if i < |kinds| then Some(kinds[i]) else None
       case None => None)
    case Literal(s) => LiteralKind(s)
    case _ => None
  }

  predicate SameKind(a: Option<Kind>, b: Option<Kind>) {
    a.Some? && b.Some? && ((a == b && !a.value.ArrayKind?) || a.value.NullKind? || b.value.NullKind?)
  }

  /** A column against a literal of its type, of a float against an integer column, or NULL. */
  predicate ColumnLiteral(column: Expr, literal: Expr, schema: Schema, kinds: seq<Kind>) {
    && column.Column? && literal.Literal?
    && var c, l := KindOf(column, schema, kinds), KindOf(literal, schema, kinds);
       SameKind(c, l) || (c == Some(IntKind) && l == Some(FloatKind))
  }

  predicate Supported(e: Expr, schema: Schema, kinds: seq<Kind>) {
    match e
    case Binary(l, op, r) =>
      if op.And? || op.Or? then Supported(l, schema, kinds) && Supported(r, schema, kinds)
      else IsComparison(op) && (ColumnLiteral(l, r, schema, kinds) || ColumnLiteral(r, l, schema, kinds))
    case Not(inner) => Supported(inner, schema, kinds)
    case IsNull(inner) => inner.Column? && KindOf(inner, schema, kinds).Some?
    case IsNotNull(inner) => inner.Column? && KindOf(inner, schema, kinds).Some?
    case InList(expr, list, _) =>
      && list != [] && KindOf(expr, schema, kinds).Some?
      && forall i :: 0 <= i < |list| ==> SameKind(KindOf(expr, schema, kinds), KindOf(list[i], schema, kinds))
    case Between(expr, low, high, _) =>
      && SameKind(KindOf(expr, schema, kinds), KindOf(low, schema, kinds))
      && SameKind(KindOf(expr, schema, kinds), KindOf(high, schema, kinds))
    case LikeExpr(expr, pattern, _, _, escape) =>
      && KindOf(expr, schema, kinds) in {Some(TextKind), Some(NullKind)}
      && KindOf(pattern, schema, kinds) in {Some(TextKind), Some(NullKind)}
      && !escape
    case _ => false
  }

  lemma OperandFits(e: Expr, row: Row, schema: Schema, kinds: seq<Kind>)
    requires RowFits(row, kinds) && KindOf(e, schema, kinds).Some?
    ensures ValueOf(e, row, schema).Some? && Fits(ValueOf(e, row, schema).value, KindOf(e, schema, kinds).value)
  {
  }

  lemma SameKindIsTyped(e: Expr, item: Expr, row: Row, schema: Schema, kinds: seq<Kind>)
    requires RowFits(row, kinds) && SameKind(KindOf(e, schema, kinds), KindOf(item, schema, kinds))
    ensures ValueOf(e, row, schema).Some? && Typed(ValueOf(e, row, schema).value, item, row, schema)
  {
    OperandFits(e, row, schema, kinds);
    OperandFits(item, row, schema, kinds);
  }

  lemma ColumnLiteralIsDecided(column: Expr, literal: Expr, row: Row, schema: Schema, kinds: seq<Kind>)
    requires RowFits(row, kinds) && ColumnLiteral(column, literal, schema, kinds)
    requires !KindOf(literal, schema, kinds).value.NullKind? && KindOf(column, schema, kinds) != Some(NullKind)
    requires ValueOf(column, row, schema).Some? && !ValueOf(column, row, schema).value.Null?
    ensures CompareValueScalar(ValueOf(column, row, schema).value, literal.scalar).Some?
  {
    OperandFits(column, row, schema, kinds);
  }

  lemma ComparisonIsDecided(l: Expr, r: Expr, row: Row, schema: Schema, kinds: seq<Kind>)
    requires RowFits(row, kinds) && (ColumnLiteral(l, r, schema, kinds) || ColumnLiteral(r, l, schema, kinds))
    ensures Decides(l, r, row, schema)
  {
    hide CompareValueScalar, IndexOf;
    var column, literal := if l.Column? then l else r, if l.Column? then r else l;
    OperandFits(column, row, schema, kinds);
    OperandFits(literal, row, schema, kinds);
    if !ValueOf(column, row, schema).value.Null? && !ValueOf(literal, row, schema).value.Null? {
      ColumnLiteralIsDecided(column, literal, row, schema, kinds);
    }
  }

  /** On rows that fit the column types, a supported filter is covered in both directions. */
  lemma {:induction false} SupportedIsCovered(e: Expr, row: Row, schema: Schema, kinds: seq<Kind>)
    requires RowFits(row, kinds) && Supported(e, schema, kinds)
    ensures Covers(e, row, schema, true) && Covers(e, row, schema, false)
    decreases e
  {
    hide Decides, ColumnLiteral, KindOf, ValueOf, RowFits;
    match e {
      case Binary(l, op, r) =>
        if op.And? || op.Or? {
          SupportedIsCovered(l, row, schema, kinds);
          SupportedIsCovered(r, row, schema, kinds);
        } else {
          ComparisonIsDecided(l, r, row, schema, kinds);
        }
      case Not(inner) => SupportedIsCovered(inner, row, schema, kinds);
      case IsNull(inner) => OperandFits(inner, row, schema, kinds);
      case IsNotNull(inner) => OperandFits(inner, row, schema, kinds);
      case InList(expr, list, _) =>
        OperandFits(expr, row, schema, kinds);
        forall i | 0 <= i < |list| ensures Typed(ValueOf(expr, row, schema).value, list[i], row, schema) {
          SameKindIsTyped(expr, list[i], row, schema, kinds);
        }
      case Between(expr, low, high, _) =>
        SameKindIsTyped(expr, low, row, schema, kinds);
        SameKindIsTyped(expr, high, row, schema, kinds);
      case LikeExpr(expr, pattern, _, _, _) =>
        OperandFits(expr, row, schema, kinds);
        OperandFits(pattern, row, schema, kinds);
    }
  }

  /** The evaluator never drops a row SQL calls TRUE and never keeps one it calls FALSE. */
  lemma SupportedIsRight(e: Expr, row: Row, schema: Schema, kinds: seq<Kind>, w: World)
    requires RowFits(row, kinds) && Supported(e, schema, kinds)
    ensures Meaning(e, row, schema, w).True? ==> EvalFilterOnRow(e, row, schema)
    ensures Meaning(e, row, schema, w).False? ==> !EvalFilterOnRow(e, row, schema)
  {
    SupportedIsCovered(e, row, schema, kinds);
    EvaluatorIsRight(e, row, schema, w, true);
    EvaluatorIsRight(e, row, schema, w, false);
  }

  /** Pushing supported filters down and filtering again gives the rows SQL selects. */
  lemma SupportedPushdownPreserves(rows: seq<Row>, filters: seq<Expr>, schema: Schema, kinds: seq<Kind>, w: World)
    requires forall i :: 0 <= i < |rows| ==> RowFits(rows[i], kinds)
    requires forall j :: 0 <= j < |filters| ==> Supported(filters[j], schema, kinds)
    ensures SqlSelect(Kept(rows, filters, schema), filters, schema, w) == SqlSelect(rows, filters, schema, w)
  {
    hide RowFits, Supported, Covers, Kept, SqlSelect;
    forall i, j | 0 <= i < |rows| && 0 <= j < |filters| ensures Covers(filters[j], rows[i], schema, true) {
      SupportedIsCovered(filters[j], rows[i], schema, kinds);
    }
    PushdownPreserves(rows, filters, schema, w);
  }
}

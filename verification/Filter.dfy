/** The in-process filter evaluator of the DataFusion table provider. */
module Filter {
  import opened Lex
  import opened Wrappers
  import opened Like
  import opened SqlValues

  /** A literal; the integer widths and the two string types are treated alike. */
  datatype ScalarValue =
    | NullScalar
    | IntScalar(i: Option<int>)
    | FloatScalar(f: Option<real>)
    | BoolScalar(b: Option<bool>)
    | Utf8Scalar(s: Option<seq<Scalar>>)
    | OtherScalar(id: nat)

  datatype Operator = Eq | NotEq | Lt | LtEq | Gt | GtEq | And | Or | OtherOp

  datatype Expr =
    | Column(name: string)
    | Literal(scalar: ScalarValue)
    | Binary(left: Expr, op: Operator, right: Expr)
    | IsNull(inner: Expr)
    | IsNotNull(inner: Expr)
    | Not(inner: Expr)
    | InList(expr: Expr, list: seq<Expr>, negated: bool)
    | Between(expr: Expr, low: Expr, high: Expr, negated: bool)
    | LikeExpr(expr: Expr, pattern: Expr, negated: bool, caseInsensitive: bool, escape: bool)
    | OtherExpr(id: nat)

  /** Column names in column order, and the lower-casing applied to both sides of ILIKE. */
  datatype Schema = Schema(columns: seq<string>, lower: seq<Scalar> -> seq<Scalar>)

  type Row = seq<Value>

  function Position(columns: seq<string>, name: string): Option<nat> {
    if columns == [] then None
    else if columns[0] == name then Some(0)
    else match Position(columns[1..], name)
         case Some(i) => Some(i + 1)
         case None => None
  }

  function IndexOf(schema: Schema, name: string): Option<nat> { Position(schema.columns, name) }

  function GetByIndex(row: Row, i: nat): Option<Value> {
    if i < |row| then Some(row[i]) else None
  }

  predicate IsColOrLiteral(e: Expr) { e.Column? || e.Literal? }

  predicate IsComparison(op: Operator) { op in {Eq, NotEq, Lt, LtEq, Gt, GtEq} }

  /** The filters the provider offers to evaluate. */
  predicate IsSimpleFilter(e: Expr) {
    match e
    case Binary(l, op, r) =>
      if IsComparison(op) then IsColOrLiteral(l) && IsColOrLiteral(r)
      else if op.And? || op.Or? then IsSimpleFilter(l) && IsSimpleFilter(r)
      else false
    case IsNull(inner) => IsColOrLiteral(inner)
    case IsNotNull(inner) => IsColOrLiteral(inner)
    case Not(inner) => IsSimpleFilter(inner)
    case InList(expr, list, _) => IsColOrLiteral(expr) && forall i :: 0 <= i < |list| ==> IsColOrLiteral(list[i])
    case Between(expr, low, high, _) => IsColOrLiteral(expr) && IsColOrLiteral(low) && IsColOrLiteral(high)
    case LikeExpr(expr, pattern, _, _, _) => IsColOrLiteral(expr) && IsColOrLiteral(pattern)
    case _ => false
  }

  function ScalarToValue(s: ScalarValue): Option<Value> {
    match s
    case NullScalar => Some(Null)
    case IntScalar(v) => Some(if v.Some? then I64(v.value) else Null)
    case FloatScalar(v) => Some(if v.Some? then F64(v.value, false) else Null)
    case BoolScalar(v) => Some(if v.Some? then Bool(v.value) else Null)
    case Utf8Scalar(v) => Some(if v.Some? then Text(v.value) else Null)
    case OtherScalar(_) => None
  }

  function EvalExprToValue(e: Expr, row: Row, schema: Schema): Option<Value> {
    match e
    case Column(name) =>
      (match IndexOf(schema, name)
       case Some(i) => GetByIndex(row, i)
       case None => None)
    case Literal(s) => ScalarToValue(s)
    case _ => None
  }

  function CompareValueScalar(v: Value, s: ScalarValue): Option<Ordering> {
    match (v, s)
    case (I64(n), IntScalar(Some(i))) => Some(CmpInt(n, i))
    case (F64(r, _), FloatScalar(Some(f))) => Some(CmpReal(r, f))
    case (I64(n), FloatScalar(Some(f))) => Some(CmpReal(n as real, f))
    case (Text(t), Utf8Scalar(Some(u))) => Some(CmpSeq(t, u))
    case (Bool(b), BoolScalar(Some(c))) => Some(CmpBool(b, c))
    case (Null, NullScalar) => Some(Equal)
    case (Null, IntScalar(None)) => Some(Equal)
    case (Null, FloatScalar(None)) => Some(Equal)
    case (Null, BoolScalar(None)) => Some(Equal)
    case (Null, Utf8Scalar(None)) => Some(Equal)
    case _ => None
  }

  function Apply(op: Operator, o: Ordering): bool {
    match op
    case Eq => o.Equal?
    case NotEq => !o.Equal?
    case Lt => o.Below?
    case LtEq => !o.Above?
    case Gt => o.Above?
    case GtEq => !o.Below?
    case _ => true
  }

  /** Column against literal, in either order; anything else keeps the row. */
  function EvalComparison(l: Expr, op: Operator, r: Expr, row: Row, schema: Schema): bool {
    if !((l.Column? && r.Literal?) || (l.Literal? && r.Column?)) then true else
      var column := if l.Column? then l.name else r.name;
      var scalar := if l.Column? then r.scalar else l.scalar;
      match IndexOf(schema, column)
      case None => true
      case Some(i) =>
        match GetByIndex(row, i)
        case None => true
        case Some(v) =>
          match CompareValueScalar(v, scalar)
          case None => true
          case Some(o) => Apply(op, if l.Column? then o else Reverse(o))
  }

  function EvalIsNull(inner: Expr, row: Row, schema: Schema, answer: bool): bool {
    if !inner.Column? then true else
      match IndexOf(schema, inner.name)
      case None => true
      case Some(i) => (GetByIndex(row, i) in {None, Some(Null)}) == answer
  }

  predicate ItemEquals(v: Value, item: Option<Value>) {
    item.Some? && PartialCmp(v, item.value) == Some(Equal)
  }

  function EvalInList(v: Option<Value>, items: seq<Option<Value>>, negated: bool): bool {
    if v in {None, Some(Null)} then true
    else
      var found := exists i :: 0 <= i < |items| && ItemEquals(v.value, items[i]);
      found != negated
  }

  function EvalBetween(v: Option<Value>, lo: Option<Value>, hi: Option<Value>, negated: bool): bool {
    if v.None? || lo.None? || hi.None? then true
    else
      var aboveLow := PartialCmp(v.value, lo.value) != Some(Below);
      var belowHigh := PartialCmp(v.value, hi.value) != Some(Above);
      (aboveLow && belowHigh) != negated
  }

  /** A side of LIKE as it stands, of ILIKE in lower case. */
  function Folded(s: seq<Scalar>, caseInsensitive: bool, schema: Schema): seq<Scalar> {
    if caseInsensitive then schema.lower(s) else s
  }

  function EvalLike(text: Option<Value>, pattern: Option<Value>, negated: bool, caseInsensitive: bool, schema: Schema): bool {
    if text.Some? && text.value.Text? && pattern.Some? && pattern.value.Text?
    then LikeMatch(Folded(text.value.text, caseInsensitive, schema), Folded(pattern.value.text, caseInsensitive, schema)) != negated
    else true
  }

  function Items(list: seq<Expr>, row: Row, schema: Schema): (r: seq<Option<Value>>)
    ensures |r| == |list| && forall i :: 0 <= i < |list| ==> r[i] == EvalExprToValue(list[i], row, schema)
  {
    seq(|list|, i requires 0 <= i < |list| => EvalExprToValue(list[i], row, schema))
  }

  function EvalFilterOnRow(e: Expr, row: Row, schema: Schema): bool {
    match e
    case Binary(l, op, r) =>
      if op.And? then EvalFilterOnRow(l, row, schema) && EvalFilterOnRow(r, row, schema)
      else if op.Or? then EvalFilterOnRow(l, row, schema) || EvalFilterOnRow(r, row, schema)
      else EvalComparison(l, op, r, row, schema)
    case IsNull(inner) => EvalIsNull(inner, row, schema, true)
    case IsNotNull(inner) => EvalIsNull(inner, row, schema, false)
    case Not(inner) => !EvalFilterOnRow(inner, row, schema)
    case InList(expr, list, negated) => EvalInList(EvalExprToValue(expr, row, schema), Items(list, row, schema), negated)
    case Between(expr, low, high, negated) =>
      EvalBetween(EvalExprToValue(expr, row, schema), EvalExprToValue(low, row, schema), EvalExprToValue(high, row, schema), negated)
    case LikeExpr(expr, pattern, negated, caseInsensitive, _) =>
      EvalLike(EvalExprToValue(expr, row, schema), EvalExprToValue(pattern, row, schema), negated, caseInsensitive, schema)
    case _ => true
  }
}

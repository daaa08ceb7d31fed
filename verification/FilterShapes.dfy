/** Operands by the type of their values, and rows built to order. */
module FilterShapes {
  import opened Wrappers
  import opened SqlValues
  import opened Filter
  import opened FilterSoundness
  import opened FilterTypes

  /** One type for each column. */
  predicate TypedSchema(schema: Schema, kinds: seq<Kind>) { |kinds| == |schema.columns| }

  predicate AlwaysNull(e: Expr, schema: Schema, kinds: seq<Kind>) { KindOf(e, schema, kinds) == Some(NullKind) }

  /** A column or literal that is not always NULL. */
  predicate HasValue(e: Expr, schema: Schema, kinds: seq<Kind>) {
    KindOf(e, schema, kinds).Some? && !AlwaysNull(e, schema, kinds)
  }

  /** Kinds whose values the value order compares. */
  predicate AlikeKinds(a: Kind, b: Kind) { a == b && !a.NullKind? && !a.ArrayKind? }

  /** An integer and a float: SQL compares them, the value order does not. */
  predicate CrossKinds(a: Kind, b: Kind) { (a.IntKind? && b.FloatKind?) || (a.FloatKind? && b.IntKind?) }

  lemma KindsTell(v: Value, x: Value)
    requires !v.Null? && !x.Null?
    ensures PartialCmp(v, x).Some? <==> AlikeKinds(ValueKind(v), ValueKind(x))
    ensures Comparable(v, x) <==> AlikeKinds(ValueKind(v), ValueKind(x)) || CrossKinds(ValueKind(v), ValueKind(x))
  {
  }

  // ---- operands

  /** A column is found at the first place its name stands, and not found if there is none. */
  lemma {:induction false} PositionIsFirst(columns: seq<string>, name: string)
    ensures match Position(columns, name)
            case Some(i) => i < |columns| && columns[i] == name && forall j :: 0 <= j < i ==> columns[j] != name
            case None => forall j :: 0 <= j < |columns| ==> columns[j] != name
    decreases columns
  {
    if columns != [] && columns[0] != name { PositionIsFirst(columns[1..], name); }
  }

  lemma ColumnIsThere(e: Expr, schema: Schema, kinds: seq<Kind>)
    requires TypedSchema(schema, kinds) && e.Column? && IndexOf(schema, e.name).Some?
    ensures IndexOf(schema, e.name).value < |kinds| && schema.columns[IndexOf(schema, e.name).value] == e.name
    ensures KindOf(e, schema, kinds) == Some(kinds[IndexOf(schema, e.name).value])
  {
    PositionIsFirst(schema.columns, e.name);
  }

  lemma LiteralKindIsRight(s: ScalarValue)
    ensures LiteralKind(s).Some? <==> ScalarToValue(s).Some?
    ensures LiteralKind(s).Some? ==> LiteralKind(s).value == ValueKind(ScalarToValue(s).value)
  {
  }

  // ---- rows

  type Cells = map<nat, Value>

  predicate CellsFit(cells: Cells, kinds: seq<Kind>) {
    forall i :: i in cells ==> i < |kinds| && Fits(cells[i], kinds[i])
  }

  /** The row with these cells and NULL in every other. */
  function RowWith(cells: Cells, kinds: seq<Kind>): (row: Row)
    requires CellsFit(cells, kinds)
    ensures RowFits(row, kinds)
  {
    seq(|kinds|, i requires 0 <= i < |kinds| => if i in cells then cells[i] else Null)
  }

  /** The cell that gives a column the value `v`. */
  function Setting(e: Expr, schema: Schema, v: Value): Cells {
    if e.Column? && IndexOf(schema, e.name).Some? then map[IndexOf(schema, e.name).value := v] else map[]
  }

  lemma SettingFits(e: Expr, schema: Schema, kinds: seq<Kind>, v: Value)
    requires TypedSchema(schema, kinds)
    requires e.Column? && KindOf(e, schema, kinds).Some? ==> Fits(v, KindOf(e, schema, kinds).value)
    ensures CellsFit(Setting(e, schema, v), kinds)
  {
    if e.Column? && IndexOf(schema, e.name).Some? { ColumnIsThere(e, schema, kinds); }
  }

  /** What an operand is on a row built to order. */
  lemma BuiltValue(e: Expr, cells: Cells, schema: Schema, kinds: seq<Kind>)
    requires TypedSchema(schema, kinds) && CellsFit(cells, kinds)
    ensures e.Column? && IndexOf(schema, e.name).Some? ==>
              ValueOf(e, RowWith(cells, kinds), schema)
              == Some(if IndexOf(schema, e.name).value in cells then cells[IndexOf(schema, e.name).value] else Null)
    ensures e.Column? && IndexOf(schema, e.name).None? ==> ValueOf(e, RowWith(cells, kinds), schema) == None
    ensures e.Literal? ==> ValueOf(e, RowWith(cells, kinds), schema) == ScalarToValue(e.scalar)
  {
    if e.Column? && IndexOf(schema, e.name).Some? { ColumnIsThere(e, schema, kinds); }
  }

  function Sample(k: Kind): (v: Value)
    ensures ValueKind(v) == k
  {
    match k
    case NullKind => Null
    case BoolKind => Bool(false)
    case IntKind => I64(0)
    case FloatKind => F64(0.0, false)
    case TextKind => Text([])
    case BlobKind => Blob([])
    case TimestampKind => Timestamp(0)
    case ArrayKind => Array(0)
  }

  /** The row with a sample in every cell. */
  function SampleRow(kinds: seq<Kind>): (row: Row)
    ensures RowFits(row, kinds)
  {
    seq(|kinds|, i requires 0 <= i < |kinds| => Sample(kinds[i]))
  }

  lemma SampleValue(e: Expr, schema: Schema, kinds: seq<Kind>)
    requires TypedSchema(schema, kinds) && IsColOrLiteral(e)
    ensures ValueOf(e, SampleRow(kinds), schema).Some? <==> KindOf(e, schema, kinds).Some?
    ensures ValueOf(e, SampleRow(kinds), schema) == Some(Null) <==> AlwaysNull(e, schema, kinds)
  {
    match e {
      case Column(name) => if IndexOf(schema, name).Some? { ColumnIsThere(e, schema, kinds); }
      case Literal(s) => LiteralKindIsRight(s);
    }
  }

  lemma OperandKind(e: Expr, row: Row, schema: Schema, kinds: seq<Kind>)
    requires TypedSchema(schema, kinds) && RowFits(row, kinds) && IsColOrLiteral(e)
    ensures ValueOf(e, row, schema).Some? <==> KindOf(e, schema, kinds).Some?
    ensures ValueOf(e, row, schema).Some? && !ValueOf(e, row, schema).value.Null? ==>
              ValueKind(ValueOf(e, row, schema).value) == KindOf(e, schema, kinds).value
    ensures AlwaysNull(e, schema, kinds) ==> ValueOf(e, row, schema) == Some(Null)
    ensures e.Literal? ==> ValueOf(e, row, schema) == ScalarToValue(e.scalar)
    ensures e.Literal? && HasValue(e, schema, kinds) ==> !ValueOf(e, row, schema).value.Null?
  {
    match e {
      case Column(name) => if IndexOf(schema, name).Some? { ColumnIsThere(e, schema, kinds); }
      case Literal(s) => LiteralKindIsRight(s);
    }
  }

  /** The evaluator does not err in this direction on any fitting row, whatever SQL makes of
      what it does not cover. */
  ghost predicate AlwaysRight(e: Expr, schema: Schema, kinds: seq<Kind>, keeping: bool) {
    forall row, w: World :: RowFits(row, kinds) ==> RightOn(e, row, schema, w, keeping)
  }

  ghost predicate RightOn(e: Expr, row: Row, schema: Schema, w: World, keeping: bool) {
    Right(EvalFilterOnRow(e, row, schema), Meaning(e, row, schema, w), keeping)
  }

  const SAYS_TRUE: World := (_, _) => True
  const SAYS_FALSE: World := (_, _) => False
}

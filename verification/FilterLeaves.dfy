/** When a comparison or a NULL test is answered rightly, exactly. */
module FilterLeaves {
  import opened Wrappers
  import opened Lex
  import opened SqlValues
  import opened Filter
  import opened FilterSoundness
  import opened FilterTypes
  import opened FilterShapes

  // ---- comparisons

  predicate LiteralsHold(l: Expr, op: Operator, r: Expr)
    requires IsComparison(op)
  {
    && l.Literal? && r.Literal?
    && ScalarToValue(l.scalar).Some? && ScalarToValue(r.scalar).Some?
    && Comparable(ScalarToValue(l.scalar).value, ScalarToValue(r.scalar).value)
    && Holds(op, ScalarToValue(l.scalar).value, ScalarToValue(r.scalar).value)
  }

  /** A column with itself, under an operator that allows equality. */
  predicate SelfComparison(l: Expr, op: Operator, r: Expr, schema: Schema, kinds: seq<Kind>) {
    l == r && l.Column? && op in {Eq, LtEq, GtEq} && KindOf(l, schema, kinds).Some? && !KindOf(l, schema, kinds).value.ArrayKind?
  }

  /** The comparisons that may be negated: one side always NULL, a column against a literal of
      its type, or one that is never FALSE. */
  predicate ComparisonSafe(l: Expr, op: Operator, r: Expr, schema: Schema, kinds: seq<Kind>)
    requires IsComparison(op)
  {
    || AlwaysNull(l, schema, kinds) || AlwaysNull(r, schema, kinds)
    || ColumnLiteral(l, r, schema, kinds) || ColumnLiteral(r, l, schema, kinds)
    || SelfComparison(l, op, r, schema, kinds) || LiteralsHold(l, op, r)
  }

  lemma SelfIsNeverFalse(l: Expr, op: Operator, r: Expr, row: Row, schema: Schema, kinds: seq<Kind>, w: World)
    requires TypedSchema(schema, kinds) && RowFits(row, kinds) && SelfComparison(l, op, r, schema, kinds)
    ensures !SqlCompare(l, op, r, row, schema, w).False?
  {
    OperandKind(l, row, schema, kinds);
    var v := ValueOf(l, row, schema).value;
    if !v.Null? { KindsTell(v, v); }
  }

  lemma SafeComparisonIsRight(l: Expr, op: Operator, r: Expr, row: Row, schema: Schema, kinds: seq<Kind>, w: World)
    requires TypedSchema(schema, kinds) && RowFits(row, kinds) && IsColOrLiteral(l) && IsColOrLiteral(r) && IsComparison(op)
    requires ComparisonSafe(l, op, r, schema, kinds)
    ensures Right(EvalComparison(l, op, r, row, schema), SqlCompare(l, op, r, row, schema, w), false)
  {
    hide ColumnLiteral, SelfComparison, CompareValueScalar, Holds;
    OperandKind(l, row, schema, kinds);
    OperandKind(r, row, schema, kinds);
    if ColumnLiteral(l, r, schema, kinds) || ColumnLiteral(r, l, schema, kinds) {
      ComparisonIsDecided(l, r, row, schema, kinds);
      ComparisonIsRight(l, op, r, row, schema, w, false);
    } else if SelfComparison(l, op, r, schema, kinds) {
      SelfIsNeverFalse(l, op, r, row, schema, kinds, w);
    }
  }

  function Low(k: Kind): Value { Sample(k) }

  function High(k: Kind): Value {
    match k
    case BoolKind => Bool(true)
    case IntKind => I64(1)
    case FloatKind => F64(1.0, false)
    case TextKind => Text([0])
    case BlobKind => Blob([0])
    case TimestampKind => Timestamp(1)
    case _ => Null
  }

  /** Values on which the comparison is FALSE. */
  function FalsePair(op: Operator, a: Kind, b: Kind): (Value, Value) {
    match op
    case Eq => (Low(a), High(b))
    case LtEq => (High(a), Low(b))
    case GtEq => (Low(a), High(b))
    case _ => (Low(a), Low(b))
  }

  /** The two samples of kinds that are compared, and how they stand. */
  lemma LowBelowHigh(a: Kind, b: Kind)
    requires AlikeKinds(a, b) || CrossKinds(a, b)
    ensures !Low(a).Null? && !High(a).Null? && Fits(Low(a), a) && Fits(High(a), a)
    ensures Comparable(Low(a), Low(b)) && Same(Low(a), Low(b)) && !Before(Low(a), Low(b))
    ensures Comparable(Low(a), High(b)) && !Same(Low(a), High(b)) && Before(Low(a), High(b)) && !Before(High(b), Low(a))
    ensures Comparable(High(b), Low(a)) && !Same(High(b), Low(a))
  {
  }

  lemma FalsePairIsFalse(op: Operator, a: Kind, b: Kind)
    requires IsComparison(op) && (AlikeKinds(a, b) || CrossKinds(a, b))
    ensures var (x, y) := FalsePair(op, a, b);
            !x.Null? && !y.Null? && Fits(x, a) && Fits(y, b) && Comparable(x, y) && !Holds(op, x, y)
  {
    hide Low, High, Fits, Comparable, Same, Before;
    LowBelowHigh(a, b);
    LowBelowHigh(b, a);
  }

  /** A float that makes a comparison with an integer FALSE. */
  function FalseFloat(op: Operator, m: int, floatLeft: bool): Value {
    var below, above := F64(m as real - 1.0, false), F64(m as real + 1.0, false);
    match op
    case NotEq => F64(m as real, false)
    case Lt => if floatLeft then above else below
    case LtEq => if floatLeft then above else below
    case Gt => if floatLeft then below else above
    case GtEq => if floatLeft then below else above
    case _ => above
  }

  lemma UndecidedIsTrue(l: Expr, op: Operator, r: Expr, row: Row, schema: Schema, kinds: seq<Kind>)
    requires TypedSchema(schema, kinds) && RowFits(row, kinds) && IsColOrLiteral(l) && IsColOrLiteral(r)
    requires !(ColumnLiteral(l, r, schema, kinds) || ColumnLiteral(r, l, schema, kinds))
    requires ValueOf(l, row, schema) != Some(Null) && ValueOf(r, row, schema) != Some(Null)
    ensures EvalComparison(l, op, r, row, schema)
  {
    OperandKind(l, row, schema, kinds);
    OperandKind(r, row, schema, kinds);
  }

  /** Otherwise some row is kept on which SQL says FALSE. */
  lemma UnsafeComparison(l: Expr, op: Operator, r: Expr, schema: Schema, kinds: seq<Kind>) returns (row: Row)
    requires TypedSchema(schema, kinds) && IsColOrLiteral(l) && IsColOrLiteral(r) && IsComparison(op)
    requires !ComparisonSafe(l, op, r, schema, kinds)
    ensures RowFits(row, kinds)
    ensures EvalComparison(l, op, r, row, schema) && SqlCompare(l, op, r, row, schema, SAYS_FALSE).False?
  {
    hide EvalComparison, ColumnLiteral, Comparable, Holds, RowFits, CellsFit, Fits;
    SampleValue(l, schema, kinds);
    SampleValue(r, schema, kinds);
    var a, b := KindOf(l, schema, kinds), KindOf(r, schema, kinds);
    if a.None? || b.None? || !(AlikeKinds(a.value, b.value) || CrossKinds(a.value, b.value)) || (l.Literal? && r.Literal?) || l == r {
      row := SampleRow(kinds);
      OperandKind(l, row, schema, kinds);
      OperandKind(r, row, schema, kinds);
      if a.Some? && b.Some? { KindsTell(ValueOf(l, row, schema).value, ValueOf(r, row, schema).value); }
      if l == r && op in {NotEq, Lt, Gt} { SelfIsFalse(l, op, r, row, schema); }
    } else if l.Column? && r.Column? {
      row := FalseOnPair(l, op, r, schema, kinds);
    } else {
      row := FalseOnFloat(l, op, r, schema, kinds);
    }
    UndecidedIsTrue(l, op, r, row, schema, kinds);
  }

  lemma SelfIsFalse(l: Expr, op: Operator, r: Expr, row: Row, schema: Schema)
    requires op in {NotEq, Lt, Gt} && l == r
    ensures ValueOf(l, row, schema).Some? && !ValueOf(l, row, schema).value.Null?
            && Comparable(ValueOf(l, row, schema).value, ValueOf(r, row, schema).value)
            ==> !Holds(op, ValueOf(l, row, schema).value, ValueOf(r, row, schema).value)
  {
    if ValueOf(l, row, schema).Some? {
      match ValueOf(l, row, schema).value {
        case Text(x) => LessAsymmetric(x, x);
        case Blob(x) => LessAsymmetric(x, x);
        case _ =>
      }
    }
  }

  lemma FalseOnPair(l: Expr, op: Operator, r: Expr, schema: Schema, kinds: seq<Kind>) returns (row: Row)
    requires TypedSchema(schema, kinds) && l.Column? && r.Column? && l != r && IsComparison(op)
    requires KindOf(l, schema, kinds).Some? && KindOf(r, schema, kinds).Some?
    requires var a, b := KindOf(l, schema, kinds).value, KindOf(r, schema, kinds).value; AlikeKinds(a, b) || CrossKinds(a, b)
    ensures RowFits(row, kinds) && ValueOf(l, row, schema) != Some(Null) && ValueOf(r, row, schema) != Some(Null)
    ensures SqlCompare(l, op, r, row, schema, SAYS_FALSE).False?
  {
    hide Comparable, Holds;
    ColumnIsThere(l, schema, kinds);
    ColumnIsThere(r, schema, kinds);
    var (x, y) := FalsePair(op, KindOf(l, schema, kinds).value, KindOf(r, schema, kinds).value);
    FalsePairIsFalse(op, KindOf(l, schema, kinds).value, KindOf(r, schema, kinds).value);
    SettingFits(l, schema, kinds, x);
    SettingFits(r, schema, kinds, y);
    var cells := Setting(r, schema, y) + Setting(l, schema, x);
    row := RowWith(cells, kinds);
    BuiltValue(l, cells, schema, kinds);
    BuiltValue(r, cells, schema, kinds);
  }

  lemma FalseOnFloat(l: Expr, op: Operator, r: Expr, schema: Schema, kinds: seq<Kind>) returns (row: Row)
    requires TypedSchema(schema, kinds) && IsComparison(op)
    requires (l.Column? && r.Literal?) || (l.Literal? && r.Column?)
    requires KindOf(l, schema, kinds).Some? && KindOf(r, schema, kinds).Some?
    requires !(ColumnLiteral(l, r, schema, kinds) || ColumnLiteral(r, l, schema, kinds))
    requires var a, b := KindOf(l, schema, kinds).value, KindOf(r, schema, kinds).value; AlikeKinds(a, b) || CrossKinds(a, b)
    ensures RowFits(row, kinds) && ValueOf(l, row, schema) != Some(Null) && ValueOf(r, row, schema) != Some(Null)
    ensures SqlCompare(l, op, r, row, schema, SAYS_FALSE).False?
  {
    var column, literal := if l.Column? then l else r, if l.Column? then r else l;
    assert KindOf(column, schema, kinds) == Some(FloatKind) && KindOf(literal, schema, kinds) == Some(IntKind);
    LiteralKindIsRight(literal.scalar);
    var m := ScalarToValue(literal.scalar).value.n;
    var v := FalseFloat(op, m, l.Column?);
    ColumnIsThere(column, schema, kinds);
    SettingFits(column, schema, kinds, v);
    var cells := Setting(column, schema, v);
    row := RowWith(cells, kinds);
    BuiltValue(column, cells, schema, kinds);
    BuiltValue(literal, cells, schema, kinds);
  }

  // ---- NULL tests

  predicate KnownColumn(e: Expr, schema: Schema, kinds: seq<Kind>) { e.Column? && KindOf(e, schema, kinds).Some? }

  predicate NullTestSafe(inner: Expr, answer: bool, schema: Schema, kinds: seq<Kind>) {
    KnownColumn(inner, schema, kinds) || if answer then AlwaysNull(inner, schema, kinds) else HasValue(inner, schema, kinds)
  }

  /** A negated NULL test is right exactly on a column of the table, or on a literal for which
      it is never FALSE. */
  lemma NullTestIff(inner: Expr, answer: bool, schema: Schema, kinds: seq<Kind>)
    requires TypedSchema(schema, kinds) && IsColOrLiteral(inner)
    ensures AlwaysRight(if answer then IsNull(inner) else IsNotNull(inner), schema, kinds, false) <==>
            NullTestSafe(inner, answer, schema, kinds)
  {
    var e := if answer then IsNull(inner) else IsNotNull(inner);
    if NullTestSafe(inner, answer, schema, kinds) {
      forall row, w: World | RowFits(row, kinds) ensures RightOn(e, row, schema, w, false) {
        OperandKind(inner, row, schema, kinds);
      }
    } else {
      var row := SampleRow(kinds);
      SampleValue(inner, schema, kinds);
      OperandKind(inner, row, schema, kinds);
      if inner.Column? && IndexOf(schema, inner.name).Some? { ColumnIsThere(inner, schema, kinds); }
      assert EvalFilterOnRow(e, row, schema);
      if answer {
        assert Meaning(e, row, schema, SAYS_FALSE) == SqlIsNull(inner, row, schema, SAYS_FALSE);
        assert !RightOn(e, row, schema, SAYS_FALSE, false);
      } else {
        assert Meaning(e, row, schema, SAYS_TRUE) == TriNot(SqlIsNull(inner, row, schema, SAYS_TRUE));
        assert !RightOn(e, row, schema, SAYS_TRUE, false);
      }
    }
  }

  lemma NullTestKeeps(inner: Expr, answer: bool, schema: Schema, kinds: seq<Kind>)
    requires TypedSchema(schema, kinds) && IsColOrLiteral(inner)
    ensures AlwaysRight(if answer then IsNull(inner) else IsNotNull(inner), schema, kinds, true)
  {
    var e := if answer then IsNull(inner) else IsNotNull(inner);
    forall row, w: World | RowFits(row, kinds) ensures RightOn(e, row, schema, w, true) {
      OperandKind(inner, row, schema, kinds);
      if inner.Column? && IndexOf(schema, inner.name).Some? { ColumnIsThere(inner, schema, kinds); }
      EvaluatorIsRight(e, row, schema, w, true);
    }
  }

  /** A comparison never loses a TRUE row, and may be negated exactly if it is safe. */
  lemma ComparisonIff(l: Expr, op: Operator, r: Expr, schema: Schema, kinds: seq<Kind>)
    requires TypedSchema(schema, kinds) && IsColOrLiteral(l) && IsColOrLiteral(r) && IsComparison(op)
    ensures AlwaysRight(Binary(l, op, r), schema, kinds, true)
    ensures AlwaysRight(Binary(l, op, r), schema, kinds, false) <==> ComparisonSafe(l, op, r, schema, kinds)
  {
    hide EvalComparison, SqlCompare, ComparisonSafe;
    var e := Binary(l, op, r);
    forall row, w: World | RowFits(row, kinds) ensures RightOn(e, row, schema, w, true) {
      ComparisonIsRight(l, op, r, row, schema, w, true);
    }
    if ComparisonSafe(l, op, r, schema, kinds) {
      forall row, w: World | RowFits(row, kinds) ensures RightOn(e, row, schema, w, false) {
        SafeComparisonIsRight(l, op, r, row, schema, kinds, w);
      }
    } else {
      var row := UnsafeComparison(l, op, r, schema, kinds);
      assert !RightOn(e, row, schema, SAYS_FALSE, false);
    }
  }
}

/** When BETWEEN and NOT BETWEEN are answered rightly, exactly. */
module FilterRanges {
  import opened Wrappers
  import opened SqlValues
  import opened Filter
  import opened FilterSoundness
  import opened FilterTypes
  import opened FilterShapes
  import opened FilterLists

  // ---- the condition

  /** The comparison with the low or the high bound. */
  function BoundOp(low: bool): Operator { if low then GtEq else LtEq }

  /** The evaluator finds `v` on the right side of a bound. */
  predicate Inside(v: Value, bound: Value, low: bool) {
    PartialCmp(v, bound) != Some(if low then Below else Above)
  }

  function Constant(e: Expr): Option<Value> { if e.Literal? then ScalarToValue(e.scalar) else None }

  predicate Related(a: Option<Value>, b: Option<Value>) { a.Some? && b.Some? && Comparable(a.value, b.value) }

  /** The bound `near` can be missed by SQL where the evaluator sees the value inside both: it
      is of another type, and constants leave room for it. */
  predicate BoundMiss(e: Expr, near: Expr, far: Expr, low: bool, schema: Schema, kinds: seq<Kind>) {
    && HasValue(e, schema, kinds) && HasValue(near, schema, kinds)
    && KindOf(far, schema, kinds).Some? && (low ==> HasValue(far, schema, kinds))
    && !AlikeKinds(KindOf(e, schema, kinds).value, KindOf(near, schema, kinds).value)
    && (Related(Constant(e), Constant(near)) ==> !Holds(BoundOp(low), Constant(e).value, Constant(near).value))
    && (Constant(e).Some? && Constant(far).Some? ==> Inside(Constant(e).value, Constant(far).value, !low))
  }

  predicate BetweenMiss(e: Expr, lo: Expr, hi: Expr, schema: Schema, kinds: seq<Kind>) {
    BoundMiss(e, lo, hi, true, schema, kinds) || BoundMiss(e, hi, lo, false, schema, kinds)
  }

  predicate Simple(e: Expr, lo: Expr, hi: Expr) { IsColOrLiteral(e) && IsColOrLiteral(lo) && IsColOrLiteral(hi) }

  // ---- a missed row meets the condition

  lemma MissMeansBoundMiss(
      e: Expr, near: Expr, far: Expr, low: bool, row: Row, schema: Schema, kinds: seq<Kind>, w: World)
    requires TypedSchema(schema, kinds) && RowFits(row, kinds) && Simple(e, near, far)
    requires ValueOf(e, row, schema).Some? && ValueOf(near, row, schema).Some? && ValueOf(far, row, schema).Some?
    requires SqlCompare(e, BoundOp(low), near, row, schema, w).False?
    requires Inside(ValueOf(e, row, schema).value, ValueOf(near, row, schema).value, low)
    requires Inside(ValueOf(e, row, schema).value, ValueOf(far, row, schema).value, !low)
    ensures BoundMiss(e, near, far, low, schema, kinds)
  {
    hide Before, Same, Comparable;
    OperandKind(e, row, schema, kinds);
    OperandKind(near, row, schema, kinds);
    OperandKind(far, row, schema, kinds);
    var v, x := ValueOf(e, row, schema).value, ValueOf(near, row, schema).value;
    KindsTell(v, x);
    if AlikeKinds(ValueKind(v), ValueKind(x)) { PartialCmpAgrees(v, x); }
  }

  // ---- the condition gives such a row

  function ConstantSize(e: Expr): nat { if Constant(e).Some? then Size(Constant(e).value) else 0 }

  /** A number of the kind. */
  function Number(k: Kind, n: int): Value { if k.IntKind? then I64(n) else F64(n as real, false) }

  function MissValue(e: Expr, near: Expr, far: Expr, low: bool, k: Kind): Value {
    if Constant(e).Some? then Constant(e).value
    else if k.IntKind? || k.FloatKind? then
      var n := 1 + ConstantSize(near) + ConstantSize(far);
      Number(k, if low then -n else n)
    else if Constant(far).Some? && ValueKind(Constant(far).value) == k then Constant(far).value
    else Sample(k)
  }

  /** The value of the bound missed, if it is a column. */
  function NearValue(v: Value, k: Kind, low: bool): Value {
    if CrossKinds(ValueKind(v), k) then
      var floor := if v.I64? then v.n else v.r.Floor;
      Number(k, if low then floor + 1 else floor - 1)
    else Sample(k)
  }

  function FarValue(v: Value, k: Kind): Value {
    if AlikeKinds(ValueKind(v), k) then v else Sample(k)
  }

  function MissCells(e: Expr, near: Expr, far: Expr, low: bool, schema: Schema, kinds: seq<Kind>): Cells
    requires KindOf(e, schema, kinds).Some? && KindOf(near, schema, kinds).Some? && KindOf(far, schema, kinds).Some?
  {
    var v := MissValue(e, near, far, low, KindOf(e, schema, kinds).value);
    Setting(far, schema, FarValue(v, KindOf(far, schema, kinds).value))
    + Setting(near, schema, NearValue(v, KindOf(near, schema, kinds).value, low))
    + Setting(e, schema, v)
  }

  lemma MissValueFits(e: Expr, near: Expr, far: Expr, low: bool, schema: Schema, kinds: seq<Kind>)
    requires IsColOrLiteral(e) && HasValue(e, schema, kinds)
    ensures var v := MissValue(e, near, far, low, KindOf(e, schema, kinds).value);
            ValueKind(v) == KindOf(e, schema, kinds).value && !v.Null?
  {
    if e.Literal? { LiteralKindIsRight(e.scalar); }
  }

  lemma NumbersAgainstConstants(e: Expr, near: Expr, far: Expr, low: bool, k: Kind)
    requires !Constant(e).Some? && (k.IntKind? || k.FloatKind?)
    ensures var v := MissValue(e, near, far, low, k);
            && (Constant(near).Some? && IsNumber(Constant(near).value) ==>
                  if low then AsReal(v) < AsReal(Constant(near).value) else AsReal(v) > AsReal(Constant(near).value))
            && (Constant(far).Some? && IsNumber(Constant(far).value) ==>
                  if low then AsReal(v) < AsReal(Constant(far).value) else AsReal(v) > AsReal(Constant(far).value))
  {
    SizeBounds(near);
    SizeBounds(far);
  }

  lemma SizeBounds(e: Expr)
    ensures Constant(e).Some? && IsNumber(Constant(e).value) ==>
              -(ConstantSize(e) as real) <= AsReal(Constant(e).value) <= ConstantSize(e) as real
  {
  }

  lemma NearIsMissed(v: Value, x: Value, low: bool)
    requires CrossKinds(ValueKind(v), ValueKind(x)) && x == NearValue(v, ValueKind(x), low)
    ensures Comparable(v, x) && !Holds(BoundOp(low), v, x)
  {
  }

  /** What the three operands are on the row. */
  lemma MissRowValues(e: Expr, near: Expr, far: Expr, low: bool, schema: Schema, kinds: seq<Kind>)
    requires TypedSchema(schema, kinds) && Simple(e, near, far) && BoundMiss(e, near, far, low, schema, kinds)
    ensures CellsFit(MissCells(e, near, far, low, schema, kinds), kinds)
    ensures var row := RowWith(MissCells(e, near, far, low, schema, kinds), kinds);
            var v := MissValue(e, near, far, low, KindOf(e, schema, kinds).value);
            var n, f := KindOf(near, schema, kinds).value, KindOf(far, schema, kinds).value;
            && ValueOf(e, row, schema) == Some(v)
            && ValueOf(near, row, schema) == (if near.Literal? then ScalarToValue(near.scalar) else if near == e then Some(v) else Some(NearValue(v, n, low)))
            && ValueOf(far, row, schema) == (if far.Literal? then ScalarToValue(far.scalar) else if far == e then Some(v)
                                             else if far == near then Some(NearValue(v, n, low)) else Some(FarValue(v, f)))
  {
    hide MissValue, NearValue, FarValue, Holds, Comparable, PartialCmp;
    var v := MissValue(e, near, far, low, KindOf(e, schema, kinds).value);
    var n, f := KindOf(near, schema, kinds).value, KindOf(far, schema, kinds).value;
    MissValueFits(e, near, far, low, schema, kinds);
    ValuesFit(v, n, f, low);
    SettingFits(e, schema, kinds, v);
    SettingFits(near, schema, kinds, NearValue(v, n, low));
    SettingFits(far, schema, kinds, FarValue(v, f));
    var cells := MissCells(e, near, far, low, schema, kinds);
    BuiltValue(e, cells, schema, kinds);
    BuiltValue(near, cells, schema, kinds);
    BuiltValue(far, cells, schema, kinds);
    if e.Column? { ColumnIsThere(e, schema, kinds); } else { assert v == ScalarToValue(e.scalar).value by { ConstantIs(e, near, far, low, schema, kinds); } }
    if near.Column? { ColumnIsThere(near, schema, kinds); }
    if far.Column? { ColumnIsThere(far, schema, kinds); }
  }

  lemma ConstantIs(e: Expr, near: Expr, far: Expr, low: bool, schema: Schema, kinds: seq<Kind>)
    requires e.Literal? && HasValue(e, schema, kinds)
    ensures ScalarToValue(e.scalar) == Some(MissValue(e, near, far, low, KindOf(e, schema, kinds).value))
  {
    LiteralKindIsRight(e.scalar);
  }

  lemma ValuesFit(v: Value, n: Kind, f: Kind, low: bool)
    ensures ValueKind(NearValue(v, n, low)) == n && Fits(FarValue(v, f), f)
  {
  }

  lemma BoundMissWitness(e: Expr, near: Expr, far: Expr, low: bool, schema: Schema, kinds: seq<Kind>) returns (row: Row)
    requires TypedSchema(schema, kinds) && Simple(e, near, far) && BoundMiss(e, near, far, low, schema, kinds)
    ensures RowFits(row, kinds)
    ensures ValueOf(e, row, schema).Some? && ValueOf(near, row, schema).Some? && ValueOf(far, row, schema).Some?
    ensures SqlCompare(e, BoundOp(low), near, row, schema, SAYS_FALSE).False?
    ensures Inside(ValueOf(e, row, schema).value, ValueOf(near, row, schema).value, low)
    ensures Inside(ValueOf(e, row, schema).value, ValueOf(far, row, schema).value, !low)
  {
    hide MissValue, NearValue, FarValue, Before, Same;
    MissRowValues(e, near, far, low, schema, kinds);
    MissValueFits(e, near, far, low, schema, kinds);
    var v := MissValue(e, near, far, low, KindOf(e, schema, kinds).value);
    row := RowWith(MissCells(e, near, far, low, schema, kinds), kinds);
    OperandKind(near, row, schema, kinds);
    OperandKind(far, row, schema, kinds);
    NearOnRow(e, near, far, low, row, schema, kinds);
    FarOnRow(e, near, far, low, row, schema, kinds);
  }

  lemma NearOnRow(e: Expr, near: Expr, far: Expr, low: bool, row: Row, schema: Schema, kinds: seq<Kind>)
    requires TypedSchema(schema, kinds) && Simple(e, near, far) && BoundMiss(e, near, far, low, schema, kinds) && RowFits(row, kinds)
    requires var v := MissValue(e, near, far, low, KindOf(e, schema, kinds).value);
             && ValueOf(e, row, schema) == Some(v)
             && ValueOf(near, row, schema) == (if near.Literal? then ScalarToValue(near.scalar) else if near == e then Some(v)
                                               else Some(NearValue(v, KindOf(near, schema, kinds).value, low)))
    ensures ValueOf(near, row, schema).Some? && Inside(ValueOf(e, row, schema).value, ValueOf(near, row, schema).value, low)
    ensures SqlCompare(e, BoundOp(low), near, row, schema, SAYS_FALSE).False?
  {
    hide MissValue, NearValue;
    var k, n := KindOf(e, schema, kinds).value, KindOf(near, schema, kinds).value;
    var v := MissValue(e, near, far, low, k);
    OperandKind(e, row, schema, kinds);
    OperandKind(near, row, schema, kinds);
    MissValueFits(e, near, far, low, schema, kinds);
    ValuesFit(v, n, n, low);
    var x := ValueOf(near, row, schema).value;
    KindsTell(v, x);
    if CrossKinds(k, n) {
      if near.Column? {
        NearIsMissed(v, x, low);
      } else if e.Column? {
        NumbersAgainstConstants(e, near, far, low, k);
      } else {
        ConstantIs(e, near, far, low, schema, kinds);
      }
    }
  }

  lemma FarOnRow(e: Expr, near: Expr, far: Expr, low: bool, row: Row, schema: Schema, kinds: seq<Kind>)
    requires TypedSchema(schema, kinds) && Simple(e, near, far) && BoundMiss(e, near, far, low, schema, kinds) && RowFits(row, kinds)
    requires var v := MissValue(e, near, far, low, KindOf(e, schema, kinds).value);
             var n, f := KindOf(near, schema, kinds).value, KindOf(far, schema, kinds).value;
             && ValueOf(e, row, schema) == Some(v)
             && ValueOf(far, row, schema) == (if far.Literal? then ScalarToValue(far.scalar) else if far == e then Some(v)
                                              else if far == near then Some(NearValue(v, n, low)) else Some(FarValue(v, f)))
    ensures ValueOf(far, row, schema).Some? && Inside(ValueOf(e, row, schema).value, ValueOf(far, row, schema).value, !low)
  {
    hide NearValue;
    var k, n, f := KindOf(e, schema, kinds).value, KindOf(near, schema, kinds).value, KindOf(far, schema, kinds).value;
    var v := MissValue(e, near, far, low, k);
    OperandKind(e, row, schema, kinds);
    OperandKind(far, row, schema, kinds);
    MissValueFits(e, near, far, low, schema, kinds);
    ValuesFit(v, n, f, low);
    var x := ValueOf(far, row, schema).value;
    if !x.Null? { KindsTell(v, x); }
    if !v.Array? { SelfEqual(v); }
    if far.Literal? && e.Column? && AlikeKinds(k, f) && (k.IntKind? || k.FloatKind?) {
      NumbersAgainstConstants(e, near, far, low, k);
    }
    if far.Literal? && e.Literal? { ConstantIs(e, near, far, low, schema, kinds); }
  }

  // ---- BETWEEN and NOT BETWEEN

  predicate AllKnown(e: Expr, lo: Expr, hi: Expr, schema: Schema, kinds: seq<Kind>) {
    KindOf(e, schema, kinds).Some? && KindOf(lo, schema, kinds).Some? && KindOf(hi, schema, kinds).Some?
  }

  lemma EvalBetweenIs(e: Expr, lo: Expr, hi: Expr, negated: bool, row: Row, schema: Schema)
    ensures var v, l, h := ValueOf(e, row, schema), ValueOf(lo, row, schema), ValueOf(hi, row, schema);
            EvalFilterOnRow(Between(e, lo, hi, negated), row, schema)
            <==> v.None? || l.None? || h.None? || (Inside(v.value, l.value, true) && Inside(v.value, h.value, false)) != negated
  {
  }

  /** Rows on which all operands have a value and the evaluator sees it inside. */
  lemma InsideButFalse(e: Expr, lo: Expr, hi: Expr, row: Row, schema: Schema, kinds: seq<Kind>, w: World)
    requires TypedSchema(schema, kinds) && RowFits(row, kinds) && Simple(e, lo, hi) && !BetweenMiss(e, lo, hi, schema, kinds)
    requires ValueOf(e, row, schema).Some? && ValueOf(lo, row, schema).Some? && ValueOf(hi, row, schema).Some?
    requires Inside(ValueOf(e, row, schema).value, ValueOf(lo, row, schema).value, true)
    requires Inside(ValueOf(e, row, schema).value, ValueOf(hi, row, schema).value, false)
    ensures !SqlCompare(e, GtEq, lo, row, schema, w).False? && !SqlCompare(e, LtEq, hi, row, schema, w).False?
  {
    hide BoundMiss, SqlCompare, Inside;
    if SqlCompare(e, GtEq, lo, row, schema, w).False? {
      MissMeansBoundMiss(e, lo, hi, true, row, schema, kinds, w);
    }
    if SqlCompare(e, LtEq, hi, row, schema, w).False? {
      MissMeansBoundMiss(e, hi, lo, false, row, schema, kinds, w);
    }
  }

  lemma BetweenMissWitness(e: Expr, lo: Expr, hi: Expr, schema: Schema, kinds: seq<Kind>) returns (row: Row)
    requires TypedSchema(schema, kinds) && Simple(e, lo, hi) && BetweenMiss(e, lo, hi, schema, kinds)
    ensures RowFits(row, kinds)
    ensures ValueOf(e, row, schema).Some? && ValueOf(lo, row, schema).Some? && ValueOf(hi, row, schema).Some?
    ensures Inside(ValueOf(e, row, schema).value, ValueOf(lo, row, schema).value, true)
    ensures Inside(ValueOf(e, row, schema).value, ValueOf(hi, row, schema).value, false)
    ensures SqlCompare(e, GtEq, lo, row, schema, SAYS_FALSE).False? || SqlCompare(e, LtEq, hi, row, schema, SAYS_FALSE).False?
  {
    hide BoundMiss, SqlCompare, Inside;
    if BoundMiss(e, lo, hi, true, schema, kinds) {
      row := BoundMissWitness(e, lo, hi, true, schema, kinds);
    } else {
      row := BoundMissWitness(e, hi, lo, false, schema, kinds);
    }
  }

  lemma BetweenKeeps(e: Expr, lo: Expr, hi: Expr, schema: Schema, kinds: seq<Kind>)
    ensures AlwaysRight(Between(e, lo, hi, false), schema, kinds, true)
  {
    forall row, w: World | RowFits(row, kinds) ensures RightOn(Between(e, lo, hi, false), row, schema, w, true) {
      EvaluatorIsRight(Between(e, lo, hi, false), row, schema, w, true);
    }
  }

  /** NOT BETWEEN loses a TRUE row exactly under the condition. */
  lemma NotBetweenKeepsIff(e: Expr, lo: Expr, hi: Expr, schema: Schema, kinds: seq<Kind>)
    requires TypedSchema(schema, kinds) && Simple(e, lo, hi)
    ensures AlwaysRight(Between(e, lo, hi, true), schema, kinds, true) <==> !BetweenMiss(e, lo, hi, schema, kinds)
  {
    hide BetweenMiss, SqlCompare, EvalFilterOnRow, Inside;
    var f := Between(e, lo, hi, true);
    if BetweenMiss(e, lo, hi, schema, kinds) {
      var row := BetweenMissWitness(e, lo, hi, schema, kinds);
      EvalBetweenIs(e, lo, hi, true, row, schema);
      assert !RightOn(f, row, schema, SAYS_FALSE, true);
    } else {
      forall row, w: World | RowFits(row, kinds) ensures RightOn(f, row, schema, w, true) {
        EvalBetweenIs(e, lo, hi, true, row, schema);
        if !EvalFilterOnRow(f, row, schema) { InsideButFalse(e, lo, hi, row, schema, kinds, w); }
      }
    }
  }

  /** An unknown operand next to a bound that can be FALSE. */
  predicate UnknownBetween(e: Expr, lo: Expr, hi: Expr, schema: Schema, kinds: seq<Kind>) {
    if KindOf(e, schema, kinds).None? then !(AlwaysNull(lo, schema, kinds) && AlwaysNull(hi, schema, kinds))
    else HasValue(e, schema, kinds) && !AllKnown(e, lo, hi, schema, kinds)
  }

  lemma BetweenRejectsIff(e: Expr, lo: Expr, hi: Expr, schema: Schema, kinds: seq<Kind>)
    requires TypedSchema(schema, kinds) && Simple(e, lo, hi)
    ensures AlwaysRight(Between(e, lo, hi, false), schema, kinds, false) <==>
            !BetweenMiss(e, lo, hi, schema, kinds) && !UnknownBetween(e, lo, hi, schema, kinds)
  {
    hide BetweenMiss, UnknownBetween, SqlCompare, EvalFilterOnRow, Inside;
    var f := Between(e, lo, hi, false);
    if BetweenMiss(e, lo, hi, schema, kinds) {
      var row := BetweenMissWitness(e, lo, hi, schema, kinds);
      EvalBetweenIs(e, lo, hi, false, row, schema);
      assert !RightOn(f, row, schema, SAYS_FALSE, false);
    } else if UnknownBetween(e, lo, hi, schema, kinds) {
      var row := SampleRow(kinds);
      UnknownIsFalse(e, lo, hi, schema, kinds);
      EvalBetweenIs(e, lo, hi, false, row, schema);
      assert !RightOn(f, row, schema, SAYS_FALSE, false);
    } else {
      forall row, w: World | RowFits(row, kinds) ensures RightOn(f, row, schema, w, false) {
        EvalBetweenIs(e, lo, hi, false, row, schema);
        if EvalFilterOnRow(f, row, schema) {
          if ValueOf(e, row, schema).Some? && ValueOf(lo, row, schema).Some? && ValueOf(hi, row, schema).Some? {
            InsideButFalse(e, lo, hi, row, schema, kinds, w);
          } else {
            KnownIsNeverFalse(e, lo, hi, row, schema, kinds, w);
          }
        }
      }
    }
  }

  lemma UnknownIsFalse(e: Expr, lo: Expr, hi: Expr, schema: Schema, kinds: seq<Kind>)
    requires TypedSchema(schema, kinds) && Simple(e, lo, hi) && UnknownBetween(e, lo, hi, schema, kinds)
    ensures var row := SampleRow(kinds);
            && !(ValueOf(e, row, schema).Some? && ValueOf(lo, row, schema).Some? && ValueOf(hi, row, schema).Some?)
            && (SqlCompare(e, GtEq, lo, row, schema, SAYS_FALSE).False? || SqlCompare(e, LtEq, hi, row, schema, SAYS_FALSE).False?)
  {
    SampleValue(e, schema, kinds);
    SampleValue(lo, schema, kinds);
    SampleValue(hi, schema, kinds);
  }

  lemma KnownIsNeverFalse(e: Expr, lo: Expr, hi: Expr, row: Row, schema: Schema, kinds: seq<Kind>, w: World)
    requires TypedSchema(schema, kinds) && RowFits(row, kinds) && Simple(e, lo, hi) && !UnknownBetween(e, lo, hi, schema, kinds)
    requires !(ValueOf(e, row, schema).Some? && ValueOf(lo, row, schema).Some? && ValueOf(hi, row, schema).Some?)
    ensures !SqlCompare(e, GtEq, lo, row, schema, w).False? && !SqlCompare(e, LtEq, hi, row, schema, w).False?
  {
    OperandKind(e, row, schema, kinds);
    OperandKind(lo, row, schema, kinds);
    OperandKind(hi, row, schema, kinds);
  }

  /** A bound that can be met: neither side is NULL, and not two constants that miss it. */
  predicate MayHold(e: Expr, op: Operator, bound: Expr, schema: Schema, kinds: seq<Kind>)
    requires IsComparison(op)
  {
    && !AlwaysNull(e, schema, kinds) && !AlwaysNull(bound, schema, kinds)
    && (Related(Constant(e), Constant(bound)) ==> Holds(op, Constant(e).value, Constant(bound).value))
  }

  /** NOT BETWEEN keeps a FALSE row: an operand is unknown, and both bounds can be met. */
  predicate NotBetweenKeepsFalse(e: Expr, lo: Expr, hi: Expr, schema: Schema, kinds: seq<Kind>) {
    && !AllKnown(e, lo, hi, schema, kinds)
    && MayHold(e, GtEq, lo, schema, kinds) && MayHold(e, LtEq, hi, schema, kinds)
  }

  lemma NotBetweenRejectsIff(e: Expr, lo: Expr, hi: Expr, schema: Schema, kinds: seq<Kind>)
    requires TypedSchema(schema, kinds) && Simple(e, lo, hi)
    ensures AlwaysRight(Between(e, lo, hi, true), schema, kinds, false) <==> !NotBetweenKeepsFalse(e, lo, hi, schema, kinds)
  {
    hide NotBetweenKeepsFalse, SqlCompare, EvalFilterOnRow, Inside;
    var f := Between(e, lo, hi, true);
    if NotBetweenKeepsFalse(e, lo, hi, schema, kinds) {
      var row := BothHoldWitness(e, lo, hi, schema, kinds);
      EvalBetweenIs(e, lo, hi, true, row, schema);
      assert !RightOn(f, row, schema, SAYS_TRUE, false);
    } else {
      forall row, w: World | RowFits(row, kinds) ensures RightOn(f, row, schema, w, false) {
        EvalBetweenIs(e, lo, hi, true, row, schema);
        if SqlCompare(e, GtEq, lo, row, schema, w).True? && SqlCompare(e, LtEq, hi, row, schema, w).True? {
          BothTrueIsInside(e, lo, hi, row, schema, kinds, w);
        }
      }
    }
  }

  lemma BothTrueIsInside(e: Expr, lo: Expr, hi: Expr, row: Row, schema: Schema, kinds: seq<Kind>, w: World)
    requires TypedSchema(schema, kinds) && RowFits(row, kinds) && Simple(e, lo, hi) && !NotBetweenKeepsFalse(e, lo, hi, schema, kinds)
    requires SqlCompare(e, GtEq, lo, row, schema, w).True? && SqlCompare(e, LtEq, hi, row, schema, w).True?
    ensures var v, l, h := ValueOf(e, row, schema), ValueOf(lo, row, schema), ValueOf(hi, row, schema);
            v.Some? && l.Some? && h.Some? && Inside(v.value, l.value, true) && Inside(v.value, h.value, false)
  {
    TrueIsInside(e, lo, true, row, schema, kinds, w);
    TrueIsInside(e, hi, false, row, schema, kinds, w);
  }

  lemma TrueIsInside(e: Expr, bound: Expr, low: bool, row: Row, schema: Schema, kinds: seq<Kind>, w: World)
    requires TypedSchema(schema, kinds) && RowFits(row, kinds) && IsColOrLiteral(e) && IsColOrLiteral(bound)
    requires SqlCompare(e, BoundOp(low), bound, row, schema, w).True?
    ensures MayHold(e, BoundOp(low), bound, schema, kinds)
    ensures ValueOf(e, row, schema).Some? <==> KindOf(e, schema, kinds).Some?
    ensures ValueOf(bound, row, schema).Some? <==> KindOf(bound, schema, kinds).Some?
    ensures ValueOf(e, row, schema).Some? && ValueOf(bound, row, schema).Some? ==>
              Inside(ValueOf(e, row, schema).value, ValueOf(bound, row, schema).value, low)
  {
    hide Before, Same, Comparable;
    OperandKind(e, row, schema, kinds);
    OperandKind(bound, row, schema, kinds);
    var v, x := ValueOf(e, row, schema), ValueOf(bound, row, schema);
    if v.Some? && x.Some? {
      KindsTell(v.value, x.value);
      if AlikeKinds(ValueKind(v.value), ValueKind(x.value)) { PartialCmpAgrees(v.value, x.value); }
    }
  }

  // ---- rows on which a bound is met

  /** The value that meets a constant bound, or the bound that a constant meets. */
  function Meeting(c: Value, k: Kind, above: bool): Value {
    if CrossKinds(ValueKind(c), k) then
      (if c.I64? then F64(c.n as real, false) else I64(if above then c.r.Floor + 1 else c.r.Floor))
    else if AlikeKinds(ValueKind(c), k) then c else Sample(k)
  }

  lemma BoundMet(e: Expr, bound: Expr, low: bool, schema: Schema, kinds: seq<Kind>) returns (row: Row)
    requires TypedSchema(schema, kinds) && IsColOrLiteral(e) && IsColOrLiteral(bound)
    requires HasValue(e, schema, kinds) && HasValue(bound, schema, kinds) && MayHold(e, BoundOp(low), bound, schema, kinds)
    ensures RowFits(row, kinds) && ValueOf(e, row, schema) != Some(Null)
    ensures SqlCompare(e, BoundOp(low), bound, row, schema, SAYS_TRUE).True?
  {
    if e.Column? && bound.Literal? {
      row := MetByColumn(e, bound, low, schema, kinds);
    } else if e.Literal? && bound.Column? {
      row := MetByBound(e, bound, low, schema, kinds);
    } else {
      row := SampleRow(kinds);
      SampleValue(e, schema, kinds);
      SampleValue(bound, schema, kinds);
      OperandKind(e, row, schema, kinds);
      OperandKind(bound, row, schema, kinds);
      KindsTell(ValueOf(e, row, schema).value, ValueOf(bound, row, schema).value);
      if e.Column? && bound.Column? { SamplesMeet(e, bound, low, schema, kinds); }
    }
  }

  lemma SamplesMeet(e: Expr, bound: Expr, low: bool, schema: Schema, kinds: seq<Kind>)
    requires TypedSchema(schema, kinds) && e.Column? && bound.Column?
    requires HasValue(e, schema, kinds) && HasValue(bound, schema, kinds)
    ensures var row := SampleRow(kinds);
            && ValueOf(e, row, schema).Some? && ValueOf(bound, row, schema).Some?
            && (Comparable(ValueOf(e, row, schema).value, ValueOf(bound, row, schema).value) ==>
                  Holds(BoundOp(low), ValueOf(e, row, schema).value, ValueOf(bound, row, schema).value))
  {
    ColumnIsThere(e, schema, kinds);
    ColumnIsThere(bound, schema, kinds);
  }

  lemma MeetingMeets(c: Value, k: Kind, low: bool)
    requires !c.Null? && !k.NullKind?
    ensures var v := Meeting(c, k, low);
            && ValueKind(v) == k && (Comparable(v, c) ==> Holds(BoundOp(low), v, c))
    ensures var x := Meeting(c, k, !low);
            && ValueKind(x) == k && (Comparable(c, x) ==> Holds(BoundOp(low), c, x))
  {
  }

  lemma MetByColumn(e: Expr, bound: Expr, low: bool, schema: Schema, kinds: seq<Kind>) returns (row: Row)
    requires TypedSchema(schema, kinds) && e.Column? && bound.Literal?
    requires HasValue(e, schema, kinds) && HasValue(bound, schema, kinds)
    ensures RowFits(row, kinds) && ValueOf(e, row, schema) != Some(Null)
    ensures SqlCompare(e, BoundOp(low), bound, row, schema, SAYS_TRUE).True?
  {
    hide Meeting, Holds, Comparable;
    LiteralKindIsRight(bound.scalar);
    ColumnIsThere(e, schema, kinds);
    var c, k := ScalarToValue(bound.scalar).value, KindOf(e, schema, kinds).value;
    var v := Meeting(c, k, low);
    MeetingMeets(c, k, low);
    SettingFits(e, schema, kinds, v);
    var cells := Setting(e, schema, v);
    row := RowWith(cells, kinds);
    BuiltValue(e, cells, schema, kinds);
    BuiltValue(bound, cells, schema, kinds);
  }

  lemma MetByBound(e: Expr, bound: Expr, low: bool, schema: Schema, kinds: seq<Kind>) returns (row: Row)
    requires TypedSchema(schema, kinds) && e.Literal? && bound.Column?
    requires HasValue(e, schema, kinds) && HasValue(bound, schema, kinds)
    ensures RowFits(row, kinds) && ValueOf(e, row, schema) != Some(Null)
    ensures SqlCompare(e, BoundOp(low), bound, row, schema, SAYS_TRUE).True?
  {
    hide Meeting, Holds, Comparable;
    LiteralKindIsRight(e.scalar);
    ColumnIsThere(bound, schema, kinds);
    var c, k := ScalarToValue(e.scalar).value, KindOf(bound, schema, kinds).value;
    var x := Meeting(c, k, !low);
    MeetingMeets(c, k, low);
    SettingFits(bound, schema, kinds, x);
    var cells := Setting(bound, schema, x);
    row := RowWith(cells, kinds);
    BuiltValue(e, cells, schema, kinds);
    BuiltValue(bound, cells, schema, kinds);
  }

  lemma BothHoldWitness(e: Expr, lo: Expr, hi: Expr, schema: Schema, kinds: seq<Kind>) returns (row: Row)
    requires TypedSchema(schema, kinds) && Simple(e, lo, hi) && NotBetweenKeepsFalse(e, lo, hi, schema, kinds)
    ensures RowFits(row, kinds)
    ensures !(ValueOf(e, row, schema).Some? && ValueOf(lo, row, schema).Some? && ValueOf(hi, row, schema).Some?)
    ensures SqlCompare(e, GtEq, lo, row, schema, SAYS_TRUE).True? && SqlCompare(e, LtEq, hi, row, schema, SAYS_TRUE).True?
  {
    hide Holds, Comparable;
    if KindOf(e, schema, kinds).None? || (KindOf(lo, schema, kinds).None? && KindOf(hi, schema, kinds).None?) {
      row := SampleRow(kinds);
      SampleValue(e, schema, kinds);
      SampleValue(lo, schema, kinds);
      SampleValue(hi, schema, kinds);
    } else if KindOf(lo, schema, kinds).None? {
      row := BoundMet(e, hi, false, schema, kinds);
      OperandKind(lo, row, schema, kinds);
    } else {
      row := BoundMet(e, lo, true, schema, kinds);
      OperandKind(hi, row, schema, kinds);
    }
  }
}

/** When IN and NOT IN are answered rightly, exactly. */
module FilterLists {
  import opened Wrappers
  import opened SqlValues
  import opened Filter
  import opened FilterSoundness
  import opened FilterTypes
  import opened FilterShapes

  // ---- the condition

  predicate ListsValue(item: Expr, v: Value) {
    item.Literal? && ItemEquals(v, ScalarToValue(item.scalar))
  }

  /** A literal of the list equals `v` in the value order. */
  predicate Listed(v: Value, list: seq<Expr>) {
    exists i :: 0 <= i < |list| && ListsValue(list[i], v)
  }

  /** The operand is found in the list whatever its value: it is there itself, its value is
      there, or both truth values are. */
  predicate AlwaysFound(expr: Expr, list: seq<Expr>, schema: Schema, kinds: seq<Kind>)
    requires KindOf(expr, schema, kinds).Some?
  {
    || (expr.Column? && expr in list && !KindOf(expr, schema, kinds).value.ArrayKind?)
    || (expr.Literal? && ScalarToValue(expr.scalar).Some? && Listed(ScalarToValue(expr.scalar).value, list))
    || (expr.Column? && KindOf(expr, schema, kinds).value.BoolKind? && Listed(Bool(true), list) && Listed(Bool(false), list))
  }

  /** An item whose equality with a value of kind `k` is left to SQL. */
  predicate Stranger(item: Expr, k: Kind, schema: Schema, kinds: seq<Kind>) {
    match KindOf(item, schema, kinds)
    case None => true
    case Some(i) => !i.NullKind? && !AlikeKinds(k, i) && !CrossKinds(k, i)
  }

  predicate HasCounterpart(v: Value) {
    v.I64? || (v.F64? && v.r.Floor as real == v.r)
  }

  /** The same number in the other numeric type. */
  function Counterpart(v: Value): Value {
    if v.I64? then F64(v.n as real, false) else if v.F64? then I64(v.r.Floor) else v
  }

  /** An integer and a float that can be the same number without being found. */
  predicate CrossHit(expr: Expr, item: Expr, list: seq<Expr>, schema: Schema, kinds: seq<Kind>) {
    && KindOf(expr, schema, kinds).Some? && KindOf(item, schema, kinds).Some?
    && CrossKinds(KindOf(expr, schema, kinds).value, KindOf(item, schema, kinds).value)
    && (item.Literal? ==> ScalarToValue(item.scalar).Some? && HasCounterpart(ScalarToValue(item.scalar).value))
    && (expr.Literal? ==> ScalarToValue(expr.scalar).Some? && HasCounterpart(ScalarToValue(expr.scalar).value))
    && (item.Literal? && expr.Column? ==> !Listed(Counterpart(ScalarToValue(item.scalar).value), list))
    && (item.Literal? && expr.Literal? ==> AsNumber(ScalarToValue(expr.scalar).value) == AsNumber(ScalarToValue(item.scalar).value))
  }

  function AsNumber(v: Value): real { if IsNumber(v) then AsReal(v) else 0.0 }

  /** IN can be TRUE by SQL on a row the evaluator drops. */
  predicate InDrops(expr: Expr, list: seq<Expr>, schema: Schema, kinds: seq<Kind>) {
    && HasValue(expr, schema, kinds) && !AlwaysFound(expr, list, schema, kinds)
    && exists i :: 0 <= i < |list| && (Stranger(list[i], KindOf(expr, schema, kinds).value, schema, kinds)
                                       || CrossHit(expr, list[i], list, schema, kinds))
  }

  // ---- a dropped TRUE row meets the condition

  predicate AllSimple(list: seq<Expr>) { forall i :: 0 <= i < |list| ==> IsColOrLiteral(list[i]) }

  lemma {:induction false} SqlInTrueIff(e: Expr, list: seq<Expr>, row: Row, schema: Schema, w: World)
    ensures SqlIn(e, list, row, schema, w).True? <==> exists i :: 0 <= i < |list| && SqlCompare(e, Eq, list[i], row, schema, w).True?
    decreases list
  {
    hide SqlCompare;
    if list != [] {
      var rest := list[1..];
      SqlInTrueIff(e, rest, row, schema, w);
      if i :| 0 <= i < |list| && SqlCompare(e, Eq, list[i], row, schema, w).True? && i > 0 {
        assert rest[i - 1] == list[i];
      }
      if i :| 0 <= i < |rest| && SqlCompare(e, Eq, rest[i], row, schema, w).True? {
        assert list[i + 1] == rest[i];
      }
    }
  }

  lemma SelfEqual(v: Value)
    requires !v.Null? && !v.Array?
    ensures PartialCmp(v, v) == Some(Equal)
  {
    match v {
      case Text(x) => CmpSeqAgrees(x, x);
      case Blob(x) => CmpSeqAgrees(x, x);
      case _ =>
    }
  }

  lemma AlwaysFoundIsFound(expr: Expr, list: seq<Expr>, row: Row, schema: Schema, kinds: seq<Kind>)
    requires TypedSchema(schema, kinds) && RowFits(row, kinds) && IsColOrLiteral(expr) && AllSimple(list)
    requires HasValue(expr, schema, kinds) && AlwaysFound(expr, list, schema, kinds)
    requires ValueOf(expr, row, schema).Some? && !ValueOf(expr, row, schema).value.Null?
    ensures exists i :: 0 <= i < |list| && ItemEquals(ValueOf(expr, row, schema).value, ValueOf(list[i], row, schema))
  {
    var v := ValueOf(expr, row, schema).value;
    OperandKind(expr, row, schema, kinds);
    if expr.Column? && expr in list && !KindOf(expr, schema, kinds).value.ArrayKind? {
      var i :| 0 <= i < |list| && list[i] == expr;
      SelfEqual(v);
      assert ItemEquals(v, ValueOf(list[i], row, schema));
    } else {
      assert Listed(v, list);
      var i :| 0 <= i < |list| && ListsValue(list[i], v);
      OperandKind(list[i], row, schema, kinds);
      assert ItemEquals(v, ValueOf(list[i], row, schema));
    }
  }

  lemma DroppedItem(expr: Expr, item: Expr, list: seq<Expr>, row: Row, schema: Schema, kinds: seq<Kind>, w: World)
    requires TypedSchema(schema, kinds) && RowFits(row, kinds) && IsColOrLiteral(expr) && IsColOrLiteral(item) && AllSimple(list)
    requires ValueOf(expr, row, schema).Some? && !ValueOf(expr, row, schema).value.Null?
    requires SqlCompare(expr, Eq, item, row, schema, w).True? && item in list
    requires forall i :: 0 <= i < |list| ==> !ItemEquals(ValueOf(expr, row, schema).value, ValueOf(list[i], row, schema))
    ensures KindOf(expr, schema, kinds).Some?
    ensures Stranger(item, KindOf(expr, schema, kinds).value, schema, kinds) || CrossHit(expr, item, list, schema, kinds)
  {
    var v := ValueOf(expr, row, schema).value;
    OperandKind(expr, row, schema, kinds);
    OperandKind(item, row, schema, kinds);
    var x := ValueOf(item, row, schema);
    if x.Some? {
      KindsTell(v, x.value);
      if AlikeKinds(ValueKind(v), ValueKind(x.value)) {
        PartialCmpAgrees(v, x.value);
      } else if CrossKinds(ValueKind(v), ValueKind(x.value)) {
        CrossNumbers(v, x.value);
        if item.Literal? && expr.Column? { NotFoundIsNotListed(v, list, row, schema, kinds); }
      }
    }
  }

  lemma CrossNumbers(v: Value, x: Value)
    requires CrossKinds(ValueKind(v), ValueKind(x)) && AsReal(v) == AsReal(x)
    ensures HasCounterpart(v) && HasCounterpart(x)
    ensures PartialCmp(v, Counterpart(x)) == Some(Equal)
  {
  }

  lemma NotFoundIsNotListed(v: Value, list: seq<Expr>, row: Row, schema: Schema, kinds: seq<Kind>)
    requires TypedSchema(schema, kinds) && RowFits(row, kinds) && AllSimple(list)
    requires forall i :: 0 <= i < |list| ==> !ItemEquals(v, ValueOf(list[i], row, schema))
    ensures !Listed(v, list)
    ensures forall u :: IsNumber(u) && PartialCmp(v, u) == Some(Equal) ==> !Listed(u, list)
  {
    forall u | u == v || (IsNumber(u) && PartialCmp(v, u) == Some(Equal)) ensures !Listed(u, list) {
      if i :| 0 <= i < |list| && ListsValue(list[i], u) {
        OperandKind(list[i], row, schema, kinds);
        assert ItemEquals(v, ValueOf(list[i], row, schema));
      }
    }
  }

  lemma DroppedMeansInDrops(expr: Expr, list: seq<Expr>, row: Row, schema: Schema, kinds: seq<Kind>, w: World)
    requires TypedSchema(schema, kinds) && RowFits(row, kinds) && IsColOrLiteral(expr) && AllSimple(list)
    requires ValueOf(expr, row, schema).Some? && !ValueOf(expr, row, schema).value.Null?
    requires SqlIn(expr, list, row, schema, w).True?
    requires forall i :: 0 <= i < |list| ==> !ItemEquals(ValueOf(expr, row, schema).value, ValueOf(list[i], row, schema))
    ensures InDrops(expr, list, schema, kinds)
  {
    hide SqlIn, SqlCompare, AlwaysFound, Stranger, CrossHit, ItemEquals;
    SqlInTrueIff(expr, list, row, schema, w);
    var i :| 0 <= i < |list| && SqlCompare(expr, Eq, list[i], row, schema, w).True?;
    OperandKind(expr, row, schema, kinds);
    DroppedItem(expr, list[i], list, row, schema, kinds, w);
    if AlwaysFound(expr, list, schema, kinds) { AlwaysFoundIsFound(expr, list, row, schema, kinds); }
  }

  // ---- the condition gives such a row

  function Size(v: Value): nat {
    match v
    case I64(n) => if n < 0 then -n else n
    case F64(r, _) => 1 + if r < 0.0 then -r.Floor else r.Floor
    case Text(t) => |t|
    case _ => 0
  }

  /** No literal of the list is larger. */
  function Bound(list: seq<Expr>): nat {
    if list == [] then 0
    else
      var rest := Bound(list[1..]);
      var head := if list[0].Literal? && ScalarToValue(list[0].scalar).Some? then Size(ScalarToValue(list[0].scalar).value) else 0;
      if head > rest then head else rest
  }

  lemma {:induction false} BoundIsOne(list: seq<Expr>, i: nat)
    requires i < |list| && list[i].Literal? && ScalarToValue(list[i].scalar).Some?
    ensures Size(ScalarToValue(list[i].scalar).value) <= Bound(list)
    decreases list
  {
    hide Size;
    if i > 0 { BoundIsOne(list[1..], i - 1); }
  }

  lemma EqualSizes(v: Value, x: Value)
    requires PartialCmp(v, x) == Some(Equal)
    ensures Size(v) == Size(x)
  {
    match (v, x) {
      case (Text(a), Text(b)) => CmpSeqAgrees(a, b);
      case _ =>
    }
  }

  lemma LargeIsUnlisted(v: Value, list: seq<Expr>)
    requires Size(v) > Bound(list)
    ensures !Listed(v, list)
  {
    hide Size;
    if i :| 0 <= i < |list| && ListsValue(list[i], v) {
      BoundIsOne(list, i);
      EqualSizes(v, ScalarToValue(list[i].scalar).value);
    }
  }

  /** A value of the kind that no literal of the list equals. */
  function Unlisted(k: Kind, list: seq<Expr>): Value {
    var n := Bound(list) + 1;
    match k
    case BoolKind => Bool(!Listed(Bool(true), list))
    case IntKind => I64(n)
    case FloatKind => F64(n as real, false)
    case TextKind => Text(seq(n, _ => 0))
    case _ => Sample(k)
  }

  lemma UnlistedIsUnlisted(k: Kind, list: seq<Expr>)
    requires !k.NullKind? && (k.BoolKind? ==> !(Listed(Bool(true), list) && Listed(Bool(false), list)))
    ensures !Listed(Unlisted(k, list), list) && ValueKind(Unlisted(k, list)) == k
    ensures k.IntKind? || k.FloatKind? ==> HasCounterpart(Unlisted(k, list))
  {
    var v := Unlisted(k, list);
    if k.IntKind? || k.FloatKind? || k.TextKind? {
      LargeIsUnlisted(v, list);
    } else if !k.BoolKind? {
      forall i | 0 <= i < |list| ensures !ListsValue(list[i], v) {}
    }
  }

  /** The value of the operand on the row to be built, and of the item if it is a column. */
  function DropValue(expr: Expr, item: Expr, list: seq<Expr>, schema: Schema, kinds: seq<Kind>): Value
    requires KindOf(expr, schema, kinds).Some?
  {
    if expr.Literal? then (match ScalarToValue(expr.scalar) case Some(c) => c case None => Null)
    else if item.Literal? && CrossHit(expr, item, list, schema, kinds) then Counterpart(ScalarToValue(item.scalar).value)
    else Unlisted(KindOf(expr, schema, kinds).value, list)
  }

  function ItemValue(v: Value, item: Expr, schema: Schema, kinds: seq<Kind>): Value {
    match KindOf(item, schema, kinds)
    case Some(k) => if CrossKinds(ValueKind(v), k) then Counterpart(v) else Sample(k)
    case None => Null
  }

  lemma DropValueFits(expr: Expr, item: Expr, list: seq<Expr>, schema: Schema, kinds: seq<Kind>)
    requires TypedSchema(schema, kinds) && IsColOrLiteral(expr) && IsColOrLiteral(item)
    requires HasValue(expr, schema, kinds) && !AlwaysFound(expr, list, schema, kinds)
    requires Stranger(item, KindOf(expr, schema, kinds).value, schema, kinds) || CrossHit(expr, item, list, schema, kinds)
    ensures var v := DropValue(expr, item, list, schema, kinds);
            && ValueKind(v) == KindOf(expr, schema, kinds).value && !v.Null? && !Listed(v, list)
            && (CrossHit(expr, item, list, schema, kinds) ==> HasCounterpart(v))
  {
    hide Bound, Size, Listed;
    if expr.Literal? {
      LiteralKindIsRight(expr.scalar);
    } else if item.Literal? && CrossHit(expr, item, list, schema, kinds) {
      LiteralKindIsRight(item.scalar);
    } else {
      UnlistedIsUnlisted(KindOf(expr, schema, kinds).value, list);
    }
  }

  lemma NothingFound(expr: Expr, item: Expr, v: Value, x: Value, list: seq<Expr>, cells: Cells, schema: Schema, kinds: seq<Kind>, j: nat)
    requires TypedSchema(schema, kinds) && CellsFit(cells, kinds) && AllSimple(list) && j < |list|
    requires cells == Setting(item, schema, x) + Setting(expr, schema, v)
    requires !v.Null? && !Listed(v, list) && (v.Array? || expr !in list || expr.Literal?)
    requires x.Null? || !AlikeKinds(ValueKind(v), ValueKind(x))
    ensures !ItemEquals(v, ValueOf(list[j], RowWith(cells, kinds), schema))
  {
    var other := list[j];
    BuiltValue(other, cells, schema, kinds);
    if other.Literal? {
      assert !ListsValue(other, v);
    } else if IndexOf(schema, other.name).Some? {
      ColumnIsThere(other, schema, kinds);
      if expr.Column? && IndexOf(schema, expr.name) == IndexOf(schema, other.name) {
        ColumnIsThere(expr, schema, kinds);
        assert other == expr;
      }
      if !x.Null? { KindsTell(v, x); }
    }
  }

  lemma InDropsWitness(expr: Expr, list: seq<Expr>, schema: Schema, kinds: seq<Kind>) returns (row: Row)
    requires TypedSchema(schema, kinds) && IsColOrLiteral(expr) && AllSimple(list) && InDrops(expr, list, schema, kinds)
    ensures RowFits(row, kinds)
    ensures ValueOf(expr, row, schema).Some? && !ValueOf(expr, row, schema).value.Null?
    ensures !SomeEquals(ValueOf(expr, row, schema).value, list, row, schema)
    ensures SqlIn(expr, list, row, schema, SAYS_TRUE).True?
  {
    hide Listed, Bound, Size, Unlisted, SqlIn, ItemEquals;
    var k := KindOf(expr, schema, kinds).value;
    var i :| 0 <= i < |list| && (Stranger(list[i], k, schema, kinds) || CrossHit(expr, list[i], list, schema, kinds));
    var item := list[i];
    var v := DropValue(expr, item, list, schema, kinds);
    var x := ItemValue(v, item, schema, kinds);
    DropValueFits(expr, item, list, schema, kinds);
    SettingFits(expr, schema, kinds, v);
    SettingFits(item, schema, kinds, x);
    var cells := Setting(item, schema, x) + Setting(expr, schema, v);
    row := RowWith(cells, kinds);
    forall j | 0 <= j < |list| ensures !ItemEquals(v, ValueOf(list[j], row, schema)) {
      NothingFound(expr, item, v, x, list, cells, schema, kinds, j);
    }
    BuiltValue(expr, cells, schema, kinds);
    BuiltValue(item, cells, schema, kinds);
    ItemIsTrue(expr, item, v, x, list, cells, schema, kinds);
    SqlInTrueIff(expr, list, row, schema, SAYS_TRUE);
  }

  lemma ItemIsTrue(expr: Expr, item: Expr, v: Value, x: Value, list: seq<Expr>, cells: Cells, schema: Schema, kinds: seq<Kind>)
    requires TypedSchema(schema, kinds) && CellsFit(cells, kinds) && IsColOrLiteral(expr) && IsColOrLiteral(item)
    requires HasValue(expr, schema, kinds) && v == DropValue(expr, item, list, schema, kinds)
    requires x == ItemValue(v, item, schema, kinds) && cells == Setting(item, schema, x) + Setting(expr, schema, v)
    requires ValueKind(v) == KindOf(expr, schema, kinds).value && !v.Null?
    requires Stranger(item, ValueKind(v), schema, kinds) || (CrossHit(expr, item, list, schema, kinds) && HasCounterpart(v))
    ensures SqlCompare(expr, Eq, item, RowWith(cells, kinds), schema, SAYS_TRUE).True?
  {
    hide Listed, Bound, Size, Unlisted;
    var row := RowWith(cells, kinds);
    BuiltValue(expr, cells, schema, kinds);
    BuiltValue(item, cells, schema, kinds);
    OperandKind(expr, row, schema, kinds);
    OperandKind(item, row, schema, kinds);
    if item.Column? && expr.Column? && KindOf(item, schema, kinds).Some? {
      ColumnIsThere(item, schema, kinds);
      ColumnIsThere(expr, schema, kinds);
    }
    assert ValueOf(expr, row, schema) == Some(v);
    if ValueOf(item, row, schema).Some? && !ValueOf(item, row, schema).value.Null? {
      KindsTell(v, ValueOf(item, row, schema).value);
    }
  }

  // ---- IN and NOT IN

  lemma EvalInIs(expr: Expr, list: seq<Expr>, negated: bool, row: Row, schema: Schema)
    ensures EvalFilterOnRow(InList(expr, list, negated), row, schema)
      <==> (ValueOf(expr, row, schema) in {None, Some(Null)} || SomeEquals(ValueOf(expr, row, schema).value, list, row, schema) != negated)
  {
    var items := Items(list, row, schema);
    var v := ValueOf(expr, row, schema);
    if v.Some? {
      assert (exists i :: 0 <= i < |items| && ItemEquals(v.value, items[i])) <==> SomeEquals(v.value, list, row, schema);
    }
  }

  /** IN loses a TRUE row exactly under the condition. */
  lemma InKeepsIff(expr: Expr, list: seq<Expr>, schema: Schema, kinds: seq<Kind>)
    requires TypedSchema(schema, kinds) && IsColOrLiteral(expr) && AllSimple(list)
    ensures AlwaysRight(InList(expr, list, false), schema, kinds, true) <==> !InDrops(expr, list, schema, kinds)
  {
    hide InDrops, SqlIn, SomeEquals, EvalFilterOnRow;
    var e := InList(expr, list, false);
    if InDrops(expr, list, schema, kinds) {
      var row := InDropsWitness(expr, list, schema, kinds);
      EvalInIs(expr, list, false, row, schema);
      assert !RightOn(e, row, schema, SAYS_TRUE, true);
    } else {
      forall row, w: World | RowFits(row, kinds) ensures RightOn(e, row, schema, w, true) {
        EvalInIs(expr, list, false, row, schema);
        NotDropped(expr, list, row, schema, kinds, w);
      }
    }
  }

  lemma NotDropped(expr: Expr, list: seq<Expr>, row: Row, schema: Schema, kinds: seq<Kind>, w: World)
    requires TypedSchema(schema, kinds) && RowFits(row, kinds) && IsColOrLiteral(expr) && AllSimple(list)
    requires !InDrops(expr, list, schema, kinds)
    ensures var v := ValueOf(expr, row, schema);
            v.Some? && !v.value.Null? && SqlIn(expr, list, row, schema, w).True? ==> SomeEquals(v.value, list, row, schema)
  {
    hide InDrops, SqlIn, ItemEquals;
    var v := ValueOf(expr, row, schema);
    if v.Some? && !v.value.Null? && SqlIn(expr, list, row, schema, w).True? && !SomeEquals(v.value, list, row, schema) {
      DroppedMeansInDrops(expr, list, row, schema, kinds, w);
    }
  }

  lemma NotInKeeps(expr: Expr, list: seq<Expr>, schema: Schema, kinds: seq<Kind>)
    requires TypedSchema(schema, kinds) && IsColOrLiteral(expr) && AllSimple(list)
    ensures AlwaysRight(InList(expr, list, true), schema, kinds, true)
  {
    hide SqlIn, SomeEquals, EvalFilterOnRow;
    forall row, w: World | RowFits(row, kinds) ensures RightOn(InList(expr, list, true), row, schema, w, true) {
      EvalInIs(expr, list, true, row, schema);
      var v := ValueOf(expr, row, schema);
      if v.Some? && !v.value.Null? { InIsRight(v.value, expr, list, row, schema, w); }
    }
  }

  predicate SomeItem(list: seq<Expr>, schema: Schema, kinds: seq<Kind>, isNull: bool) {
    exists i :: 0 <= i < |list| && AlwaysNull(list[i], schema, kinds) == isNull
  }

  /** IN keeps a FALSE row: an empty list and no value, or an unknown operand with nothing NULL
      to compare with. */
  predicate InKeepsFalse(expr: Expr, list: seq<Expr>, schema: Schema, kinds: seq<Kind>) {
    || (list == [] && !(expr.Literal? && HasValue(expr, schema, kinds)))
    || (KindOf(expr, schema, kinds).None? && !SomeItem(list, schema, kinds, true))
  }

  lemma {:induction false} UnknownIn(expr: Expr, list: seq<Expr>, row: Row, schema: Schema)
    requires ValueOf(expr, row, schema) == None
    requires forall i :: 0 <= i < |list| ==> ValueOf(list[i], row, schema) != Some(Null)
    ensures SqlIn(expr, list, row, schema, SAYS_FALSE).False?
    decreases list
  {
    if list != [] {
      var rest := list[1..];
      assert forall i :: 0 <= i < |rest| ==> rest[i] == list[i + 1];
      UnknownIn(expr, rest, row, schema);
      assert SqlCompare(expr, Eq, list[0], row, schema, SAYS_FALSE).False?;
    }
  }

  lemma {:induction false} NullItemIsNeverFalse(expr: Expr, list: seq<Expr>, i: nat, row: Row, schema: Schema, w: World)
    requires i < |list| && ValueOf(list[i], row, schema) == Some(Null)
    ensures !SqlIn(expr, list, row, schema, w).False?
    decreases list
  {
    if i > 0 { NullItemIsNeverFalse(expr, list[1..], i - 1, row, schema, w); }
  }

  lemma InRejectsIff(expr: Expr, list: seq<Expr>, schema: Schema, kinds: seq<Kind>)
    requires TypedSchema(schema, kinds) && IsColOrLiteral(expr) && AllSimple(list)
    ensures AlwaysRight(InList(expr, list, false), schema, kinds, false) <==> !InKeepsFalse(expr, list, schema, kinds)
  {
    hide SqlIn, SomeEquals, EvalFilterOnRow;
    var e := InList(expr, list, false);
    if InKeepsFalse(expr, list, schema, kinds) {
      var row := InFalseWitness(expr, list, schema, kinds);
      EvalInIs(expr, list, false, row, schema);
      assert !RightOn(e, row, schema, SAYS_FALSE, false);
    } else {
      forall row, w: World | RowFits(row, kinds) ensures RightOn(e, row, schema, w, false) {
        EvalInIs(expr, list, false, row, schema);
        if SqlIn(expr, list, row, schema, w).False? { FalseIsRejected(expr, list, row, schema, kinds, w); }
      }
    }
  }

  lemma InFalseWitness(expr: Expr, list: seq<Expr>, schema: Schema, kinds: seq<Kind>) returns (row: Row)
    requires TypedSchema(schema, kinds) && IsColOrLiteral(expr) && AllSimple(list) && InKeepsFalse(expr, list, schema, kinds)
    ensures RowFits(row, kinds) && ValueOf(expr, row, schema) in {None, Some(Null)}
    ensures SqlIn(expr, list, row, schema, SAYS_FALSE).False?
  {
    if list == [] {
      row := RowWith(map[], kinds);
      BuiltValue(expr, map[], schema, kinds);
      OperandKind(expr, row, schema, kinds);
      if expr.Literal? { LiteralKindIsRight(expr.scalar); }
    } else {
      row := SampleRow(kinds);
      OperandKind(expr, row, schema, kinds);
      forall i | 0 <= i < |list| ensures ValueOf(list[i], row, schema) != Some(Null) {
        SampleValue(list[i], schema, kinds);
      }
      UnknownIn(expr, list, row, schema);
    }
  }

  lemma FalseIsRejected(expr: Expr, list: seq<Expr>, row: Row, schema: Schema, kinds: seq<Kind>, w: World)
    requires TypedSchema(schema, kinds) && RowFits(row, kinds) && IsColOrLiteral(expr) && AllSimple(list)
    requires !InKeepsFalse(expr, list, schema, kinds) && SqlIn(expr, list, row, schema, w).False?
    ensures var v := ValueOf(expr, row, schema); v.Some? && !v.value.Null? && !SomeEquals(v.value, list, row, schema)
  {
    hide SqlIn, SomeEquals;
    OperandKind(expr, row, schema, kinds);
    var v := ValueOf(expr, row, schema);
    if v.None? {
      var i :| 0 <= i < |list| && AlwaysNull(list[i], schema, kinds);
      OperandKind(list[i], row, schema, kinds);
      NullItemIsNeverFalse(expr, list, i, row, schema, w);
    } else if v.value.Null? {
      NullInIsUnknown(expr, list, row, schema, w);
    } else {
      InIsRight(v.value, expr, list, row, schema, w);
    }
  }

  /** NOT IN keeps a FALSE row: where IN would drop a TRUE one, or for an unknown operand. */
  predicate NotInKeepsFalse(expr: Expr, list: seq<Expr>, schema: Schema, kinds: seq<Kind>) {
    InDrops(expr, list, schema, kinds) || (KindOf(expr, schema, kinds).None? && SomeItem(list, schema, kinds, false))
  }

  lemma NotInRejectsIff(expr: Expr, list: seq<Expr>, schema: Schema, kinds: seq<Kind>)
    requires TypedSchema(schema, kinds) && IsColOrLiteral(expr) && AllSimple(list)
    ensures AlwaysRight(InList(expr, list, true), schema, kinds, false) <==> !NotInKeepsFalse(expr, list, schema, kinds)
  {
    hide InDrops, SqlIn, SomeEquals, EvalFilterOnRow, SqlCompare;
    var e := InList(expr, list, true);
    if NotInKeepsFalse(expr, list, schema, kinds) {
      var row := NotInFalseWitness(expr, list, schema, kinds);
      EvalInIs(expr, list, true, row, schema);
      assert !RightOn(e, row, schema, SAYS_TRUE, false);
    } else {
      forall row, w: World | RowFits(row, kinds) ensures RightOn(e, row, schema, w, false) {
        EvalInIs(expr, list, true, row, schema);
        NotDropped(expr, list, row, schema, kinds, w);
        if ValueOf(expr, row, schema) in {None, Some(Null)} { UnknownOrNullIn(expr, list, row, schema, kinds, w); }
      }
    }
  }

  lemma NotInFalseWitness(expr: Expr, list: seq<Expr>, schema: Schema, kinds: seq<Kind>) returns (row: Row)
    requires TypedSchema(schema, kinds) && IsColOrLiteral(expr) && AllSimple(list) && NotInKeepsFalse(expr, list, schema, kinds)
    ensures RowFits(row, kinds) && SqlIn(expr, list, row, schema, SAYS_TRUE).True?
    ensures var v := ValueOf(expr, row, schema); v in {None, Some(Null)} || !SomeEquals(v.value, list, row, schema)
  {
    hide InDrops, SqlIn, SomeEquals;
    if InDrops(expr, list, schema, kinds) {
      row := InDropsWitness(expr, list, schema, kinds);
    } else {
      row := SampleRow(kinds);
      OperandKind(expr, row, schema, kinds);
      var i :| 0 <= i < |list| && !AlwaysNull(list[i], schema, kinds);
      SampleValue(list[i], schema, kinds);
      assert SqlCompare(expr, Eq, list[i], row, schema, SAYS_TRUE).True?;
      SqlInTrueIff(expr, list, row, schema, SAYS_TRUE);
    }
  }

  lemma UnknownOrNullIn(expr: Expr, list: seq<Expr>, row: Row, schema: Schema, kinds: seq<Kind>, w: World)
    requires TypedSchema(schema, kinds) && RowFits(row, kinds) && IsColOrLiteral(expr) && AllSimple(list)
    requires !NotInKeepsFalse(expr, list, schema, kinds) && ValueOf(expr, row, schema) in {None, Some(Null)}
    ensures !SqlIn(expr, list, row, schema, w).True?
  {
    hide InDrops, SqlIn;
    OperandKind(expr, row, schema, kinds);
    SqlInTrueIff(expr, list, row, schema, w);
    forall i | 0 <= i < |list| ensures !SqlCompare(expr, Eq, list[i], row, schema, w).True? {
      OperandKind(list[i], row, schema, kinds);
    }
  }
}

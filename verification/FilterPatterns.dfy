/** When LIKE and ILIKE, plain and negated, are answered rightly, exactly. */
module FilterPatterns {
  import opened Wrappers
  import opened Lex
  import opened Like
  import opened SqlValues
  import opened Filter
  import opened FilterSoundness
  import opened FilterTypes
  import opened FilterShapes

  // ---- which patterns match something, and which everything

  predicate MatchesAll(pattern: seq<Scalar>) { pattern != [] && forall i :: 0 <= i < |pattern| ==> pattern[i] == PERCENT }

  lemma {:induction false} SelfMatch(text: seq<Scalar>)
    ensures LikeMatch(text, text)
  {
    if text != [] {
      SelfMatch(text[1..]);
      assert 0 <= 1 <= |text| && LikeMatch(text[1..], text[1..]);
    }
  }

  /** The shortest text a pattern matches. */
  function Instance(pattern: seq<Scalar>): seq<Scalar> {
    if pattern == [] then [] else (if pattern[0] == PERCENT then [] else [pattern[0]]) + Instance(pattern[1..])
  }

  lemma {:induction false} InstanceMatches(pattern: seq<Scalar>)
    ensures LikeMatch(Instance(pattern), pattern)
  {
    if pattern != [] {
      InstanceMatches(pattern[1..]);
      var text := Instance(pattern);
      if pattern[0] == PERCENT {
        assert text[0..] == Instance(pattern[1..]);
      } else {
        assert text[1..] == Instance(pattern[1..]);
      }
    }
  }

  lemma {:induction false} AllPercentMatches(text: seq<Scalar>, pattern: seq<Scalar>)
    requires MatchesAll(pattern)
    ensures LikeMatch(text, pattern)
    decreases pattern
  {
    if |pattern| == 1 {
      assert LikeMatch(text[|text|..], pattern[1..]);
    } else {
      AllPercentMatches(text, pattern[1..]);
      assert text[0..] == text;
    }
  }

  lemma EmptyTextStep(pattern: seq<Scalar>)
    requires pattern != [] && LikeMatch([], pattern)
    ensures pattern[0] == PERCENT && LikeMatch([], pattern[1..])
  {
    var empty: seq<Scalar> := [];
    if pattern[0] == PERCENT {
      var i :| 0 <= i <= |empty| && LikeMatch(empty[i..], pattern[1..]);
      assert empty[i..] == empty;
    }
  }

  lemma {:induction false} EmptyTextMatches(pattern: seq<Scalar>)
    ensures LikeMatch([], pattern) ==> pattern == [] || MatchesAll(pattern)
  {
    hide LikeMatch;
    if pattern != [] && LikeMatch([], pattern) {
      EmptyTextStep(pattern);
      EmptyTextMatches(pattern[1..]);
    }
  }

  /** A text the pattern does not match. */
  function Missed(pattern: seq<Scalar>): seq<Scalar> { if pattern == [] then [0] else [] }

  lemma MissedIsMissed(pattern: seq<Scalar>)
    ensures LikeMatch(Missed(pattern), pattern) ==> MatchesAll(pattern)
  {
    EmptyTextMatches(pattern);
  }

  // ---- the condition

  function ConstantText(e: Expr): Option<seq<Scalar>> {
    if e.Literal? && ScalarToValue(e.scalar).Some? && ScalarToValue(e.scalar).value.Text?
    then Some(ScalarToValue(e.scalar).value.text) else None
  }

  predicate BothText(t: Expr, p: Expr, schema: Schema, kinds: seq<Kind>) {
    KindOf(t, schema, kinds) == Some(TextKind) && KindOf(p, schema, kinds) == Some(TextKind)
  }

  /** The operand can be this text. */
  predicate Stands(e: Expr, x: seq<Scalar>) { e.Column? || ConstantText(e) == Some(x) }

  /** LIKE as matched, which ignores the escape character, can answer this. */
  predicate CanAnswer(t: Expr, p: Expr, matched: bool) {
    match (ConstantText(t), ConstantText(p))
    case (Some(x), Some(y)) => LikeMatch(x, y) == matched
    case (_, Some(y)) => matched || !MatchesAll(y)
    case (_, None) => matched || t != p
  }

  /** So can ILIKE, by whatever lower-casing there is. */
  ghost predicate CanAnswerFolded(t: Expr, p: Expr, matched: bool, schema: Schema) {
    exists x, y :: Stands(t, x) && Stands(p, y) && (t == p ==> x == y) && LikeMatch(schema.lower(x), schema.lower(y)) == matched
  }

  ghost predicate Answers(t: Expr, p: Expr, matched: bool, ci: bool, schema: Schema) {
    if ci then CanAnswerFolded(t, p, matched, schema) else CanAnswer(t, p, matched)
  }

  ghost predicate LikeSafe(t: Expr, p: Expr, negated: bool, ci: bool, escape: bool, schema: Schema, kinds: seq<Kind>, keeping: bool) {
    if BothText(t, p, schema, kinds) then !escape || !Answers(t, p, if keeping then negated else !negated, ci, schema)
    else keeping || AlwaysNull(t, schema, kinds) || AlwaysNull(p, schema, kinds)
  }

  // ---- texts that get the answer

  function AnswerPattern(t: Expr, p: Expr, matched: bool): seq<Scalar> {
    match ConstantText(p)
    case Some(y) => y
    case None =>
      match ConstantText(t)
      case Some(x) => if matched then x else if x == [] then [0] else []
      case None => if matched then [] else [0]
  }

  function AnswerText(t: Expr, p: Expr, matched: bool): seq<Scalar> {
    match ConstantText(t)
    case Some(x) => x
    case None =>
      match ConstantText(p)
      case Some(y) => if matched then Instance(y) else Missed(y)
      case None => []
  }

  lemma AnswerIsGiven(t: Expr, p: Expr, matched: bool)
    requires CanAnswer(t, p, matched)
    ensures LikeMatch(AnswerText(t, p, matched), AnswerPattern(t, p, matched)) == matched
  {
    match (ConstantText(t), ConstantText(p)) {
      case (Some(x), None) => SelfMatch(x);
      case (None, Some(y)) =>
        InstanceMatches(y);
        MissedIsMissed(y);
      case _ =>
    }
  }

  /** Texts the operands can be that get the answer. */
  lemma AnswerTexts(t: Expr, p: Expr, matched: bool, ci: bool, schema: Schema, kinds: seq<Kind>) returns (x: seq<Scalar>, y: seq<Scalar>)
    requires IsColOrLiteral(t) && IsColOrLiteral(p) && BothText(t, p, schema, kinds) && Answers(t, p, matched, ci, schema)
    ensures Stands(t, x) && Stands(p, y) && (t == p ==> x == y)
    ensures LikeMatch(Folded(x, ci, schema), Folded(y, ci, schema)) == matched
  {
    hide LikeMatch, Instance, Missed, KindOf;
    if ci {
      x, y :| Stands(t, x) && Stands(p, y) && (t == p ==> x == y) && LikeMatch(schema.lower(x), schema.lower(y)) == matched;
    } else {
      x, y := AnswerText(t, p, matched), AnswerPattern(t, p, matched);
      AnswerIsGiven(t, p, matched);
      ConstantsStand(t, p, matched, schema, kinds);
    }
  }

  lemma ConstantsStand(t: Expr, p: Expr, matched: bool, schema: Schema, kinds: seq<Kind>)
    requires IsColOrLiteral(t) && IsColOrLiteral(p) && BothText(t, p, schema, kinds)
    ensures Stands(t, AnswerText(t, p, matched)) && Stands(p, AnswerPattern(t, p, matched))
  {
    if t.Literal? { LiteralKindIsRight(t.scalar); }
    if p.Literal? { LiteralKindIsRight(p.scalar); }
  }

  lemma TextRow(t: Expr, p: Expr, x: seq<Scalar>, y: seq<Scalar>, schema: Schema, kinds: seq<Kind>) returns (row: Row)
    requires TypedSchema(schema, kinds) && IsColOrLiteral(t) && IsColOrLiteral(p) && BothText(t, p, schema, kinds)
    requires Stands(t, x) && Stands(p, y) && (t == p ==> x == y)
    ensures RowFits(row, kinds) && ValueOf(t, row, schema) == Some(Text(x)) && ValueOf(p, row, schema) == Some(Text(y))
  {
    SettingFits(t, schema, kinds, Text(x));
    SettingFits(p, schema, kinds, Text(y));
    var cells := Setting(p, schema, Text(y)) + Setting(t, schema, Text(x));
    row := RowWith(cells, kinds);
    BuiltValue(t, cells, schema, kinds);
    BuiltValue(p, cells, schema, kinds);
    if t.Column? { ColumnIsThere(t, schema, kinds); }
    if p.Column? { ColumnIsThere(p, schema, kinds); }
  }

  lemma OperandStands(e: Expr, row: Row, schema: Schema)
    requires IsColOrLiteral(e) && ValueOf(e, row, schema).Some? && ValueOf(e, row, schema).value.Text?
    ensures Stands(e, ValueOf(e, row, schema).value.text)
  {
  }

  lemma AnswerIsPossible(t: Expr, p: Expr, ci: bool, row: Row, schema: Schema, kinds: seq<Kind>)
    requires TypedSchema(schema, kinds) && RowFits(row, kinds) && IsColOrLiteral(t) && IsColOrLiteral(p)
    requires ValueOf(t, row, schema).Some? && ValueOf(t, row, schema).value.Text?
    requires ValueOf(p, row, schema).Some? && ValueOf(p, row, schema).value.Text?
    ensures var x, y := ValueOf(t, row, schema).value.text, ValueOf(p, row, schema).value.text;
            Answers(t, p, LikeMatch(Folded(x, ci, schema), Folded(y, ci, schema)), ci, schema)
  {
    hide LikeMatch;
    var x, y := ValueOf(t, row, schema).value.text, ValueOf(p, row, schema).value.text;
    OperandStands(t, row, schema);
    OperandStands(p, row, schema);
    if !ci {
      OperandKind(t, row, schema, kinds);
      OperandKind(p, row, schema, kinds);
      if MatchesAll(y) { AllPercentMatches(x, y); }
      if t == p { SelfMatch(x); }
    }
  }

  // ---- LIKE and ILIKE, plain and negated

  lemma EvalLikeIs(t: Expr, p: Expr, negated: bool, ci: bool, escape: bool, row: Row, schema: Schema)
    ensures var a, b := ValueOf(t, row, schema), ValueOf(p, row, schema);
            EvalFilterOnRow(LikeExpr(t, p, negated, ci, escape), row, schema)
            <==> !(a.Some? && a.value.Text? && b.Some? && b.value.Text?)
                 || LikeMatch(Folded(a.value.text, ci, schema), Folded(b.value.text, ci, schema)) != negated
  {
  }

  lemma LikeIff(t: Expr, p: Expr, negated: bool, ci: bool, escape: bool, schema: Schema, kinds: seq<Kind>, keeping: bool)
    requires TypedSchema(schema, kinds) && IsColOrLiteral(t) && IsColOrLiteral(p)
    ensures AlwaysRight(LikeExpr(t, p, negated, ci, escape), schema, kinds, keeping)
      <==> LikeSafe(t, p, negated, ci, escape, schema, kinds, keeping)
  {
    hide LikeSafe, EvalFilterOnRow, Meaning;
    if LikeSafe(t, p, negated, ci, escape, schema, kinds, keeping) {
      forall row, w: World | RowFits(row, kinds) ensures RightOn(LikeExpr(t, p, negated, ci, escape), row, schema, w, keeping) {
        SafeLikeIsRight(t, p, negated, ci, escape, row, schema, kinds, w, keeping);
      }
    } else {
      var row, w := UnsafeLike(t, p, negated, ci, escape, schema, kinds, keeping);
    }
  }

  lemma SafeLikeIsRight(
      t: Expr, p: Expr, negated: bool, ci: bool, escape: bool, row: Row, schema: Schema, kinds: seq<Kind>, w: World, keeping: bool)
    requires TypedSchema(schema, kinds) && RowFits(row, kinds) && IsColOrLiteral(t) && IsColOrLiteral(p)
    requires LikeSafe(t, p, negated, ci, escape, schema, kinds, keeping)
    ensures RightOn(LikeExpr(t, p, negated, ci, escape), row, schema, w, keeping)
  {
    hide LikeMatch, Splits, Answers, Folded;
    OperandKind(t, row, schema, kinds);
    OperandKind(p, row, schema, kinds);
    EvalLikeIs(t, p, negated, ci, escape, row, schema);
    var a, b := ValueOf(t, row, schema), ValueOf(p, row, schema);
    if a.Some? && a.value.Text? && b.Some? && b.value.Text? {
      AnswerIsPossible(t, p, ci, row, schema, kinds);
      LikeMatchIff(Folded(a.value.text, ci, schema), Folded(b.value.text, ci, schema));
    }
  }

  lemma UnsafeLike(t: Expr, p: Expr, negated: bool, ci: bool, escape: bool, schema: Schema, kinds: seq<Kind>, keeping: bool)
    returns (row: Row, w: World)
    requires TypedSchema(schema, kinds) && IsColOrLiteral(t) && IsColOrLiteral(p)
    requires !LikeSafe(t, p, negated, ci, escape, schema, kinds, keeping)
    ensures RowFits(row, kinds) && !RightOn(LikeExpr(t, p, negated, ci, escape), row, schema, w, keeping)
  {
    hide LikeMatch, Splits, Answers, Folded, Stands;
    w := if keeping != negated then SAYS_TRUE else SAYS_FALSE;
    if BothText(t, p, schema, kinds) {
      var x, y := AnswerTexts(t, p, if keeping then negated else !negated, ci, schema, kinds);
      row := TextRow(t, p, x, y, schema, kinds);
    } else {
      row := SampleRow(kinds);
      SampleValue(t, schema, kinds);
      SampleValue(p, schema, kinds);
      OperandKind(t, row, schema, kinds);
      OperandKind(p, row, schema, kinds);
    }
    EvalLikeIs(t, p, negated, ci, escape, row, schema);
    var e := LikeExpr(t, p, negated, ci, escape);
    assert Meaning(e, row, schema, w) == Negated(SqlLike(e, row, schema, w), negated);
  }
}

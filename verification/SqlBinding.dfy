/** Binding values into a statement as literals: the `$N` binder, the resolution of
    named parameters, and the two together with the placeholder rewriter. */
module SqlBinding {
  import opened Fallible
  import opened Decimal
  import opened NamedParams

  /** `Other` is a value given by its literal: a float, blob, date, time or UUID, or a decimal,
      whose text is taken as it stands. */
  datatype Value = Null | Bool(b: bool) | I64(n: int) | Text(s: string) | Other(literal: string)

  /** Every single quote doubled. */
  function Doubled(s: string): string {
    if s == [] then [] else (if s[0] == '\'' then "''" else [s[0]]) + Doubled(s[1..])
  }

  function IntText(n: int): string {
    if n < 0 then "-" + Dec(-n) else Dec(n)
  }

  function EscapeSqlValue(v: Value): (r: string)
    ensures !v.Other? ==> r != [] && r[0] != '$'
  {
    match v
    case Null => "NULL"
    case Bool(b) => if b then "TRUE" else "FALSE"
    case I64(n) =>
      assert n >= 0 ==> Dec(n)[0] in Dec(n);
      IntText(n)
    case Text(s) => "'" + Doubled(s) + "'"
    case Other(literal) => literal
  }

  // ---- the `$N` binder

  function Prepend(s: string, r: Result<string>): Result<string> {
    match r
    case Ok(t) => Ok(s + t)
    case Err => Err
  }

  /** What `$` followed by digits stands for: the literal, or an index out of range. */
  function Referenced(digits: string, params: seq<Value>): Result<string>
    requires AllDigits(digits)
  {
    var idx := Parse(digits);
    if idx == 0 || idx > |params| then Err else Ok(EscapeSqlValue(params[idx - 1]))
  }

  function Bind(s: string, params: seq<Value>): Result<string>
    decreases |s|
  {
    if s == [] then Ok([])
    else if s[0] != '$' then Prepend(s[..1], Bind(s[1..], params))
    else if |s| > 1 && s[1] == '$' then Prepend("$", Bind(s[2..], params))
    else if |s| > 1 && IsDigit(s[1]) then
      var n := 1 + DigitsLen(s[1..]);
      match Referenced(s[1..n], params)
      case Ok(literal) => Prepend(literal, Bind(s[n..], params))
      case Err => Err
    else Prepend("$", Bind(s[1..], params))
  }

  lemma PrependAssociative(a: string, b: string, r: Result<string>)
    ensures Prepend([], r) == r
    ensures Prepend(a, Prepend(b, r)) == Prepend(a + b, r)
  {
    if r.Ok? {
      assert [] + r.value == r.value;
      assert a + (b + r.value) == a + b + r.value;
    }
  }

  lemma BindPlain(s: string, params: seq<Value>)
    requires s != [] && s[0] != '$'
    ensures Bind(s, params) == Prepend(s[..1], Bind(s[1..], params))
  {
  }

  lemma BindPair(s: string, params: seq<Value>)
    requires |s| > 1 && s[0] == '$' && s[1] == '$'
    ensures Bind(s, params) == Prepend("$", Bind(s[2..], params))
  {
  }

  lemma BindBare(s: string, params: seq<Value>)
    requires s != [] && s[0] == '$' && (|s| > 1 ==> s[1] != '$' && !IsDigit(s[1]))
    ensures Bind(s, params) == Prepend("$", Bind(s[1..], params))
  {
  }

  lemma BindDigits(s: string, params: seq<Value>)
    requires |s| > 1 && s[0] == '$' && IsDigit(s[1])
    ensures var n := 1 + DigitsLen(s[1..]);
            && AllDigits(s[1..n])
            && Bind(s, params) == match Referenced(s[1..n], params)
                                  case Ok(literal) => Prepend(literal, Bind(s[n..], params))
                                  case Err => Err
  {
    var n := DigitsLen(s[1..]);
    assert forall j :: 0 <= j < n ==> s[1..1 + n][j] == s[1..][j];
  }

  /** The literal text that the front of `sql[i..]` turns into. */
  method Token(sql: string, i: nat, params: seq<Value>) returns (piece: Result<string>, next: nat)
    requires i < |sql|
    ensures i < next <= |sql|
    ensures Bind(sql[i..], params) == if piece.Err? then Err else Prepend(piece.value, Bind(sql[next..], params))
  {
    hide Bind, DigitsLen;
    ghost var s := sql[i..];
    if sql[i] != '$' {
      BindPlain(s, params);
      piece, next := Ok(sql[i..i + 1]), i + 1;
      assert s[..1] == sql[i..i + 1];
    } else if i + 1 < |sql| && sql[i + 1] == '$' {
      BindPair(s, params);
      piece, next := Ok("$"), i + 2;
    } else if i + 1 < |sql| && IsDigit(sql[i + 1]) {
      BindDigits(s, params);
      next := AdvanceDigits(sql, i + 1);
      assert s[1..] == sql[i + 1..] && s[1..next - i] == sql[i + 1..next];
      piece := Referenced(sql[i + 1..next], params);
    } else {
      BindBare(s, params);
      piece, next := Ok("$"), i + 1;
    }
    assert s[next - i..] == sql[next..];
  }

  method BindParamsString(sql: string, params: seq<Value>) returns (r: Result<string>)
    ensures r == Bind(sql, params)
  {
    var result, i := [], 0;
    assert sql[0..] == sql;
    PrependAssociative([], [], Bind(sql, params));
    while i < |sql|
      invariant 0 <= i <= |sql|
      invariant Bind(sql, params) == Prepend(result, Bind(sql[i..], params))
    {
      hide Bind;
      var piece, next := Token(sql, i, params);
      if piece.Err? { return Err; }
      PrependAssociative(result, piece.value, Bind(sql[next..], params));
      result, i := result + piece.value, next;
    }
    assert result + [] == result;
    return Ok(result);
  }

  // ---- named values

  type Env = seq<(string, Value)>

  predicate Bound(env: Env, name: string) {
    exists i :: 0 <= i < |env| && env[i].0 == name
  }

  /** The value of the first pair with that name. */
  function Lookup(env: Env, name: string): Value
    requires Bound(env, name)
  {
    if env[0].0 == name then env[0].1 else
      assert Bound(env[1..], name) by {
        var i :| 0 <= i < |env| && env[i].0 == name;
        assert env[1..][i - 1] == env[i];
      }
      Lookup(env[1..], name)
  }

  method FindParam(env: Env, name: string) returns (r: Result<Value>)
    ensures r.Ok? <==> Bound(env, name)
    ensures r.Ok? ==> r.value == Lookup(env, name)
  {
    assert env[0..] == env;
    for i := 0 to |env|
      invariant forall j :: 0 <= j < i ==> env[j].0 != name
      invariant Bound(env, name) ==> Bound(env[i..], name) && Lookup(env[i..], name) == Lookup(env, name)
    {
      if env[i].0 == name {
        assert Bound(env, name);
        return Ok(env[i].1);
      }
      if Bound(env, name) {
        var j :| 0 <= j < |env[i..]| && env[i..][j].0 == name;
        assert env[i + 1..][j - 1] == env[i..][j];
        assert env[i..][1..] == env[i + 1..];
      }
    }
    return Err;
  }

  /** Values for the names, in their order; an error exactly when one is unbound. */
  method BindNamedParams(names: seq<string>, env: Env) returns (r: Result<seq<Value>>)
    ensures r.Ok? <==> forall i :: 0 <= i < |names| ==> Bound(env, names[i])
    ensures r.Ok? ==> IsResolved(names, env, r.value)
  {
    var values: seq<Value> := [];
    for i := 0 to |names|
      invariant |values| == i
      invariant forall j :: 0 <= j < i ==> Bound(env, names[j]) && values[j] == Lookup(env, names[j])
    {
      var v := FindParam(env, names[i]);
      if v.Err? { return Err; }
      values := values + [v.value];
    }
    return Ok(values);
  }

  predicate IsResolved(names: seq<string>, env: Env, values: seq<Value>) {
    |values| == |names| &&
    forall i :: 0 <= i < |names| ==> Bound(env, names[i]) && values[i] == Lookup(env, names[i])
  }
}

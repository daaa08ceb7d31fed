/** What the `$N` binder makes of any statement: plain text, and runs of dollars. */
module BinderLaws {
  import opened Fallible
  import opened Decimal
  import opened NamedParams
  import opened NamedParamsTheorems
  import opened SqlBinding

  function Dollars(n: nat): string { if n == 0 then [] else ['$'] + Dollars(n - 1) }

  /** Text without a dollar is copied. */
  lemma {:induction false} PlainIsCopied(a: string, rest: string, params: seq<Value>)
    requires '$' !in a
    ensures Bind(a + rest, params) == Prepend(a, Bind(rest, params))
    decreases a
  {
    hide Bind;
    if a == [] {
      assert a + rest == rest;
      PrependAssociative([], [], Bind(rest, params));
    } else {
      var s := a + rest;
      assert a[0] in a && s[..1] == a[..1] && s[1..] == a[1..] + rest;
      assert forall c :: c in a[1..] ==> c in a;
      BindPlain(s, params);
      PlainIsCopied(a[1..], rest, params);
      PrependAssociative(a[..1], a[1..], Bind(rest, params));
      assert a[..1] + a[1..] == a;
    }
  }

  /** Of a run of dollars each pair gives one. */
  lemma {:induction false} PairsAreHalved(n: nat, rest: string, params: seq<Value>)
    ensures Bind(Dollars(2 * n) + rest, params) == Prepend(Dollars(n), Bind(rest, params))
    decreases n
  {
    hide Bind;
    if n == 0 {
      assert Dollars(0) + rest == rest;
      PrependAssociative([], [], Bind(rest, params));
    } else {
      var s := Dollars(2 * n) + rest;
      TwoDollars(2 * n);
      assert s == "$$" + (Dollars(2 * n - 2) + rest);
      BindPair(s, params);
      assert s[2..] == Dollars(2 * (n - 1)) + rest;
      PairsAreHalved(n - 1, rest, params);
      PrependAssociative("$", Dollars(n - 1), Bind(rest, params));
    }
  }

  lemma TwoDollars(n: nat)
    requires n >= 2
    ensures Dollars(n) == "$$" + Dollars(n - 2)
  {
    assert Dollars(n) == ['$'] + Dollars(n - 1) && Dollars(n - 1) == ['$'] + Dollars(n - 2);
  }

  /** A dollar left over before digits refers to the parameter of that number, read whole: its
      literal stands there, or the statement is refused if there is none. */
  lemma OddRunRefers(n: nat, digits: string, rest: string, params: seq<Value>)
    requires digits != [] && AllDigits(digits) && (rest != [] ==> !IsDigit(rest[0]))
    ensures var k := Parse(digits);
            Bind(Dollars(2 * n) + ("$" + digits + rest), params)
            == if 1 <= k <= |params| then Prepend(Dollars(n) + EscapeSqlValue(params[k - 1]), Bind(rest, params)) else Err
  {
    hide Bind, EscapeSqlValue, Parse, Dollars;
    ReferenceIs(digits, rest, params);
    PairsAreHalved(n, "$" + digits + rest, params);
    var k := Parse(digits);
    if 1 <= k <= |params| { PrependAssociative(Dollars(n), EscapeSqlValue(params[k - 1]), Bind(rest, params)); }
  }

  lemma DigitsAre(digits: string, rest: string)
    requires digits != [] && AllDigits(digits) && (rest != [] ==> !IsDigit(rest[0]))
    ensures var s := "$" + digits + rest;
            && IsDigit(s[1]) && DigitsLen(s[1..]) == |digits| && s[1..1 + |digits|] == digits && s[1 + |digits|..] == rest
  {
    hide DigitsLen;
    var s := "$" + digits + rest;
    assert s[1] == digits[0] && digits[0] in digits && s[1..] == digits + rest;
    DigitsLenStable(digits, rest);
  }

  lemma ReferenceIs(digits: string, rest: string, params: seq<Value>)
    requires digits != [] && AllDigits(digits) && (rest != [] ==> !IsDigit(rest[0]))
    ensures var k := Parse(digits);
            Bind("$" + digits + rest, params)
            == if 1 <= k <= |params| then Prepend(EscapeSqlValue(params[k - 1]), Bind(rest, params)) else Err
  {
    hide Bind, EscapeSqlValue, Parse, DigitsLen, AllDigits;
    DigitsAre(digits, rest);
    BindDigits("$" + digits + rest, params);
  }

  /** Before anything else it is copied. */
  lemma OddRunIsCopied(n: nat, rest: string, params: seq<Value>)
    requires rest != [] ==> rest[0] != '$' && !IsDigit(rest[0])
    ensures Bind(Dollars(2 * n) + ("$" + rest), params) == Prepend(Dollars(n + 1), Bind(rest, params))
  {
    hide Bind;
    var s := "$" + rest;
    PairsAreHalved(n, s, params);
    assert s[1..] == rest && (rest != [] ==> s[1] == rest[0]);
    BindBare(s, params);
    PrependAssociative(Dollars(n), "$", Bind(rest, params));
    OneMore(n);
  }

  /** A name stands for the first value given for it. */
  lemma {:induction false} LookupIsFirst(env: Env, name: string)
    requires Bound(env, name)
    ensures exists i :: 0 <= i < |env| && env[i].0 == name && env[i].1 == Lookup(env, name) && forall j :: 0 <= j < i ==> env[j].0 != name
    decreases env
  {
    if env[0].0 != name {
      var k :| 0 <= k < |env| && env[k].0 == name;
      assert env[1..][k - 1] == env[k];
      LookupIsFirst(env[1..], name);
      var i :| 0 <= i < |env[1..]| && env[1..][i].0 == name && env[1..][i].1 == Lookup(env[1..], name)
               && forall j :: 0 <= j < i ==> env[1..][j].0 != name;
      assert env[i + 1] == env[1..][i];
      forall j | 0 <= j < i + 1 ensures env[j].0 != name { if j > 0 { assert env[1..][j - 1] == env[j]; } }
    }
  }

  lemma {:induction false} OneMore(n: nat)
    ensures Dollars(n) + "$" == Dollars(n + 1)
  {
    if n > 0 {
      OneMore(n - 1);
      assert Dollars(n) + "$" == ['$'] + (Dollars(n - 1) + "$");
    }
  }
}

/** The scanners of a VALUES list, said by counting and by positions. */
module FtsLaws {
  import opened Wrappers
  import opened Integers
  import opened Decimal
  import opened Tokenizer
  import opened FtsLiterals

  /** Position `i` is not inside a literal. */
  predicate Outside(s: string, i: nat) { i <= |s| && !After(START, s[..i]).inSingle }

  lemma AfterSnoc(q: Scan, s: string, i: nat)
    requires i < |s|
    ensures After(q, s[..i + 1]) == Next(After(q, s[..i]), s[i])
  {
    hide Next;
    assert s[..i + 1] == s[..i] + [s[i]];
    AfterConcat(q, s[..i], [s[i]]);
    AfterOne(After(q, s[..i]), s[i]);
  }

  lemma AfterOne(q: Scan, c: char)
    ensures After(q, [c]) == Next(q, c)
  {
    assert [c][1..] == [];
  }

  // ---- the closing parenthesis

  /** How often the character stands outside literals before position `i`. */
  function Count(s: string, i: nat, c: char): nat
    requires i <= |s|
  {
    if i == 0 then 0 else Count(s, i - 1, c) + if s[i - 1] == c && Outside(s, i - 1) then 1 else 0
  }

  /** A parenthesis outside literals that closes one more than were opened before it. */
  predicate ClosesAll(s: string, i: nat) {
    i < |s| && s[i] == ')' && Outside(s, i) && Count(s, i, '(') == Count(s, i, ')')
  }

  lemma {:induction false} FindFrom(s: string, i: nat, depth: nat)
    requires i <= |s| && depth > 0 && depth + Count(s, i, ')') == 1 + Count(s, i, '(')
    ensures match Find(s[i..], After(START, s[..i]), depth)
            case Some(k) => ClosesAll(s, i + k) && forall j :: i <= j < i + k ==> !ClosesAll(s, j)
            case None => forall j :: i <= j ==> !ClosesAll(s, j)
    decreases |s| - i
  {
    hide Find, After, Next;
    var q := After(START, s[..i]);
    if i == |s| {
      FindNothing(s[i..], q, depth);
    } else {
      FindStep(s, i, q, depth);
      if !Closes(q, depth, s[i]) {
        AfterSnoc(START, s, i);
        FindFrom(s, i + 1, Deeper(q, depth, s[i]));
        assert !ClosesAll(s, i);
      }
    }
  }

  /** The finder stops at the first parenthesis outside literals that closes more than was opened. */
  lemma FindIff(s: string)
    ensures match Find(s, START, 1)
            case Some(k) => ClosesAll(s, k) && forall j: nat :: j < k ==> !ClosesAll(s, j)
            case None => forall j: nat :: !ClosesAll(s, j)
  {
    hide Find, ClosesAll;
    assert s[0..] == s && s[..0] == [];
    FindFrom(s, 0, 1);
  }

  // ---- the fields

  /** The next comma outside literals from `i` on, or the end. */
  function NextComma(s: string, i: nat): (k: nat)
    requires i <= |s|
    ensures i <= k <= |s| && (k < |s| ==> s[k] == ',' && Outside(s, k))
    ensures forall j :: i <= j < k ==> !(s[j] == ',' && Outside(s, j))
    decreases |s| - i
  {
    if i == |s| || (s[i] == ',' && Outside(s, i)) then i else NextComma(s, i + 1)
  }

  /** The trimmed texts between such commas; a blank one at the end is left out. */
  function FieldTexts(s: string, from: nat): seq<string>
    requires from <= |s|
    decreases |s| - from
  {
    var k := NextComma(s, from);
    if k == |s| then (if Trim(s[from..]) == [] then [] else [Trim(s[from..])])
    else [Trim(s[from..k])] + FieldTexts(s, k + 1)
  }

  lemma {:induction false} FieldsFrom(s: string, from: nat, i: nat)
    requires from <= i <= |s| && forall j :: from <= j < i ==> !(s[j] == ',' && Outside(s, j))
    ensures Fields(s[i..], After(START, s[..i]), s[from..i]) == FieldTexts(s, from)
    decreases |s| - i
  {
    hide After, Next, Trim, Fields, FieldTexts;
    var q, current := After(START, s[..i]), s[from..i];
    FieldsStep(s, i, q, current);
    if i == |s| {
      assert s[from..i] == s[from..];
      LastField(s, from);
    } else {
      AfterSnoc(START, s, i);
      if s[i] == ',' && Outside(s, i) {
        assert s[i + 1..i + 1] == [];
        FieldsFrom(s, i + 1, i + 1);
        FieldEnds(s, from, i);
      } else {
        assert current + [s[i]] == s[from..i + 1];
        FieldsFrom(s, from, i + 1);
      }
    }
  }

  lemma FieldsStep(s: string, i: nat, q: Scan, current: string)
    requires i <= |s|
    ensures i == |s| ==> Fields(s[i..], q, current) == if Trim(current) != [] then [Trim(current)] else []
    ensures i < |s| && !q.inSingle && s[i] == ',' ==>
              Fields(s[i..], q, current) == [Trim(current)] + Fields(s[i + 1..], Next(q, ','), "")
    ensures i < |s| && !(!q.inSingle && s[i] == ',') ==>
              Fields(s[i..], q, current) == Fields(s[i + 1..], Next(q, s[i]), current + [s[i]])
  {
    hide Trim, Next;
    if i < |s| { assert s[i..][1..] == s[i + 1..]; }
  }

  lemma LastField(s: string, from: nat)
    requires from <= |s| && forall j :: from <= j < |s| ==> !(s[j] == ',' && Outside(s, j))
    ensures FieldTexts(s, from) == if Trim(s[from..]) == [] then [] else [Trim(s[from..])]
  {
    hide Trim, Outside;
  }

  lemma FieldEnds(s: string, from: nat, i: nat)
    requires from <= i < |s| && s[i] == ',' && Outside(s, i)
    requires forall j :: from <= j < i ==> !(s[j] == ',' && Outside(s, j))
    ensures FieldTexts(s, from) == [Trim(s[from..i])] + FieldTexts(s, i + 1)
  {
    hide Trim, Outside;
    assert NextComma(s, from) == i;
  }

  /** The splitter gives the trimmed texts between the commas outside literals. */
  lemma FieldsAre(s: string)
    ensures Fields(s, START, "") == FieldTexts(s, 0)
  {
    assert s[0..] == s && s[..0] == [];
    FieldsFrom(s, 0, 0);
  }

  // ---- trimming and numerals

  /** Trimming takes off the white space at both ends and no more. */
  lemma TrimIs(s: string) returns (i: nat, j: nat)
    ensures i <= j <= |s| && Trim(s) == s[i..j] && Blank(s[..i]) && Blank(s[j..])
    ensures i < j ==> !IsWhitespace(s[i]) && !IsWhitespace(s[j - 1])
  {
    hide IsWhitespace;
    i := StartIs(s);
    var t := s[i..];
    var n := EndIs(t);
    j := i + n;
    assert t[..n] == s[i..j] && t[n..] == s[j..];
  }

  lemma {:induction false} StartIs(s: string) returns (i: nat)
    ensures i <= |s| && TrimStart(s) == s[i..] && Blank(s[..i]) && (i < |s| ==> !IsWhitespace(s[i]))
  {
    hide IsWhitespace;
    if s != [] && IsWhitespace(s[0]) {
      var k := StartIs(s[1..]);
      i := k + 1;
      assert s[1..][k..] == s[i..];
      assert s[..i] == [s[0]] + s[1..][..k];
    } else {
      i := 0;
    }
  }

  lemma {:induction false} EndIs(s: string) returns (n: nat)
    ensures n <= |s| && TrimEnd(s) == s[..n] && Blank(s[n..]) && (n > 0 ==> !IsWhitespace(s[n - 1]))
  {
    hide IsWhitespace;
    if s != [] && IsWhitespace(s[|s| - 1]) {
      var most := s[..|s| - 1];
      n := EndIs(most);
      assert most[..n] == s[..n] && s[n..] == most[n..] + [s[|s| - 1]];
    } else {
      n := |s|;
      assert s[..n] == s;
    }
  }

  lemma TrimmedAway(s: string)
    ensures Trim(s) == [] <==> Blank(s)
  {
    hide IsWhitespace;
    var i, j := TrimIs(s);
    if i == j {
      assert s == s[..i] + s[j..];
    } else {
      assert s[i] in s && Trim(s)[0] == s[i];
    }
  }

  /** The row id is read from an optional sign and digits, within 64 bits. */
  lemma ParseI64Iff(s: string, n: int)
    ensures ParseI64(s) == Some(n) <==> I64_MIN <= n <= I64_MAX && exists d :: Numeral(s, d, n)
  {
    hide Parse;
    if ParseI64(s) == Some(n) {
      if s[0] in {'-', '+'} {
        assert s == [s[0]] + s[1..];
        assert Numeral(s, s[1..], n);
      } else {
        assert Numeral(s, s, n);
      }
    }
    if d :| Numeral(s, d, n) {
      assert s != d ==> s[1..] == d;
      assert d[0] in d;
    }
  }

  predicate Numeral(s: string, d: string, n: int) {
    && d != [] && AllDigits(d)
    && ((s in {d, "+" + d} && n == Parse(d)) || (s == "-" + d && n == 0 - Parse(d)))
  }

  lemma NoFieldsIff(s: string)
    ensures Fields(s, START, "") == [] <==> Blank(s)
  {
    hide IsWhitespace, Outside;
    FieldsAre(s);
    TrimmedAway(s);
    assert s[0..] == s;
    var k := NextComma(s, 0);
    if k < |s| {
      assert s[k] == ',' && !IsWhitespace(',') by { NotWhite(','); }
    }
  }

  lemma NotWhite(c: char)
    requires c == ','
    ensures !IsWhitespace(c)
  {
  }

  ghost predicate FirstCloses(s: string, k: nat) { ClosesAll(s, k) && forall j: nat :: j < k ==> !ClosesAll(s, j) }

  function FirstField(s: string): string { if FieldTexts(s, 0) == [] then "" else FieldTexts(s, 0)[0] }

  /** A row is passed over exactly without a closing parenthesis or with nothing before it, and its
      id is refused exactly if the first field is no 64-bit numeral. */
  lemma ReadRowRefuses(s: string)
    ensures ReadRow(s).NotHandled? <==> (forall j: nat :: !ClosesAll(s, j)) || (exists j: nat :: FirstCloses(s, j) && Blank(s[..j]))
    ensures ReadRow(s).BadRowId? <==>
            exists j: nat :: FirstCloses(s, j) && !Blank(s[..j]) && ParseI64(Trim(FirstField(s[..j]))).None?
  {
    hide Find, Fields, Trim, ParseI64, FieldTexts, Blank, Outside, Count;
    FindIff(s);
    match Find(s, START, 1) {
      case None =>
      case Some(k) =>
        NoFieldsIff(s[..k]);
        FieldsAre(s[..k]);
        forall j: nat | FirstCloses(s, j) ensures j == k {}
        assert FirstCloses(s, k);
    }
  }

  // ---- separators, one by one

  lemma SeparatorTable(c: char)
    ensures IsWhitespace(c) <==> c as int in {9, 10, 11, 12, 13, 32, 133, 160, 5760, 8192, 8193, 8194, 8195, 8196, 8197, 8198, 8199,
                                              8200, 8201, 8202, 8232, 8233, 8239, 8287, 12288}
    ensures IsSeparator(c) <==> IsWhitespace(c) || c in {'!', '"', '#', '$', '%', '&', '\'', '(', ')', '*', '+', ',', '-', '.', '/', ':', ';', '<',
                                             '=', '>', '?', '@', '[', '\\', ']', '^', '_', '`', '{', '|', '}', '~'}
  {
  }
}

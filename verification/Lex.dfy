/** Lexicographic order on byte strings and on strings of code points.

    redb and fjall iterate their tables in this order; Rust compares `str`,
    `[u8]` and `Vec<u8>` with it.
 */
module Lex {

  type Byte = x: int | 0 <= x < 256

  type Bytes = seq<Byte>

  /** A Unicode code point. */
  type Scalar = x: int | 0 <= x <= 0x10FFFF

  predicate Less(a: seq<int>, b: seq<int>) {
    b != [] && (a == [] || a[0] < b[0] || (a[0] == b[0] && Less(a[1..], b[1..])))
  }

  predicate StartsWith(s: seq<int>, prefix: seq<int>) {
    |prefix| <= |s| && s[..|prefix|] == prefix
  }

  ghost predicate StrictlySorted(s: seq<Bytes>) {
    forall i, j :: 0 <= i < j < |s| ==> Less(s[i], s[j])
  }

  lemma {:induction false} LessAsymmetric(a: seq<int>, b: seq<int>)
    ensures !(Less(a, b) && Less(b, a))
  {
    if a != [] && b != [] {
      LessAsymmetric(a[1..], b[1..]);
    }
  }

  lemma {:induction false} LessTotal(a: seq<int>, b: seq<int>)
    ensures a == b || Less(a, b) || Less(b, a)
  {
    if a != [] && b != [] {
      LessTotal(a[1..], b[1..]);
      assert a == [a[0]] + a[1..] && b == [b[0]] + b[1..];
    }
  }

  lemma {:induction false} LessTransitive(a: seq<int>, b: seq<int>, c: seq<int>)
    requires Less(a, b) && Less(b, c)
    ensures Less(a, c)
  {
    if a != [] && a[0] == b[0] == c[0] {
      LessTransitive(a[1..], b[1..], c[1..]);
    }
  }

  /** Extending both strings by the same prefix does not change their order. */
  lemma {:induction false} LessSamePrefix(p: seq<int>, a: seq<int>, b: seq<int>)
    ensures Less(p + a, p + b) <==> Less(a, b)
  {
    if p == [] {
      assert p + a == a && p + b == b;
    } else {
      assert (p + a)[1..] == p[1..] + a && (p + b)[1..] == p[1..] + b;
      LessSamePrefix(p[1..], a, b);
    }
  }

  lemma StartsWithUnfold(s: seq<int>, p: seq<int>)
    requires s != [] && p != []
    ensures StartsWith(s, p) <==> s[0] == p[0] && StartsWith(s[1..], p[1..])
  {
    if |p| <= |s| {
      assert s[..|p|] == [s[0]] + s[1..][..|p| - 1];
      assert p == [p[0]] + p[1..];
    }
  }

  /** A string that starts with `p` does not sort below `p`. */
  lemma {:induction false} PrefixIsLowerBound(s: seq<int>, p: seq<int>)
    requires StartsWith(s, p)
    ensures !Less(s, p)
  {
    if p != [] {
      StartsWithUnfold(s, p);
      PrefixIsLowerBound(s[1..], p[1..]);
    }
  }

  /** The strings starting with `p` are contiguous: once a string at or above `p`
      misses the prefix, so does every larger one. */
  lemma {:induction false} PrefixContiguous(p: seq<int>, a: seq<int>, b: seq<int>)
    requires !Less(a, p) && !StartsWith(a, p) && Less(a, b)
    ensures !StartsWith(b, p)
  {
    if p != [] && b != [] && a != [] {
      StartsWithUnfold(a, p);
      StartsWithUnfold(b, p);
      if a[0] == b[0] == p[0] {
        PrefixContiguous(p[1..], a[1..], b[1..]);
      }
    }
  }

  predicate IsLeast(x: Bytes, s: set<Bytes>) {
    x in s && forall y :: y in s ==> y == x || Less(x, y)
  }

  lemma {:induction false} LeastExists(s: set<Bytes>) returns (least: Bytes)
    requires s != {}
    ensures IsLeast(least, s)
  {
    var x :| x in s;
    if s == {x} {
      least := x;
    } else {
      var m := LeastExists(s - {x});
      LessTotal(x, m);
      least := if Less(x, m) then x else m;
      forall y | y in s ensures y == least || Less(least, y) {
        if y != x && y != m && Less(x, m) {
          LessTransitive(x, m, y);
        }
      }
    }
  }

  lemma LeastUnique(s: set<Bytes>)
    ensures forall x: Bytes, y: Bytes :: IsLeast(x, s) && IsLeast(y, s) ==> x == y
  {
    forall x: Bytes, y: Bytes | IsLeast(x, s) && IsLeast(y, s)
      ensures x == y
    {
      LessAsymmetric(x, y);
    }
  }

  /** The elements of `s` in increasing order: what iterating an ordered table yields. */
  function Ascending(s: set<Bytes>): (r: seq<Bytes>)
    ensures StrictlySorted(r)
    ensures forall x :: x in r <==> x in s
    decreases s
  {
    if s == {} then [] else
      assert exists x :: IsLeast(x, s) by { var w := LeastExists(s); }
      LeastUnique(s);
      var x :| x in s && IsLeast(x, s);
      var rest := Ascending(s - {x});
      assert forall y :: y in rest ==> Less(x, y);
      [x] + rest
  }
}

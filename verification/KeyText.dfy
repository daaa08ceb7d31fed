/** The text of a key: valid UTF-8 is what encoding characters gives, and nothing else. */
module KeyText {
  import Lex
  import opened KeyCodec
  import opened NamedParamsBytes

  /** The bytes, each as a character. */
  function CharsOf(b: Lex.Bytes): string {
    if b == [] then [] else [b[0] as char] + CharsOf(b[1..])
  }

  lemma {:induction false} CharsOfConcat(a: Lex.Bytes, b: Lex.Bytes)
    ensures CharsOf(a + b) == CharsOf(a) + CharsOf(b)
    decreases a
  {
    if a == [] {
      assert a + b == b;
    } else {
      CharsOfConcat(a[1..], b);
      assert (a + b)[1..] == a[1..] + b;
    }
  }

  // ---- one character

  /** The bytes of one character. */
  function Front(c: char): (b: Lex.Bytes)
    ensures |b| >= 1 && CharsOf(b) == Utf8Char(c)
  {
    var n := c as int;
    var b: Lex.Bytes :=
      if n < 0x80 then [n]
      else if n < 0x800 then [0xC0 + n / 0x40, 0x80 + n % 0x40]
      else if n < 0x1_0000 then [0xE0 + n / 0x1000, 0x80 + n / 0x40 % 0x40, 0x80 + n % 0x40]
      else [0xF0 + n / 0x4_0000, 0x80 + n / 0x1000 % 0x40, 0x80 + n / 0x40 % 0x40, 0x80 + n % 0x40];
    FourChars(b);
    b
  }

  lemma FourChars(b: Lex.Bytes)
    ensures |b| == 1 ==> CharsOf(b) == [b[0] as char]
    ensures |b| == 2 ==> CharsOf(b) == [b[0] as char, b[1] as char]
    ensures |b| == 3 ==> CharsOf(b) == [b[0] as char, b[1] as char, b[2] as char]
    ensures |b| == 4 ==> CharsOf(b) == [b[0] as char, b[1] as char, b[2] as char, b[3] as char]
  {
    if |b| > 0 {
      CharsCons(b);
      if |b| > 1 {
        CharsCons(b[1..]);
        if |b| > 2 {
          CharsCons(b[2..]);
          assert b[1..][1..] == b[2..];
          if |b| > 3 {
            CharsCons(b[3..]);
            assert b[2..][1..] == b[3..];
          }
        }
      }
    }
  }

  lemma CharsCons(b: Lex.Bytes)
    requires b != []
    ensures CharsOf(b) == [b[0] as char] + CharsOf(b[1..])
  {
  }

  /** The shape the front of valid bytes has, by its length. */
  predicate WellShaped(f: Lex.Bytes) {
    || (|f| == 1 && f[0] <= 0x7F)
    || (|f| == 2 && 0xC2 <= f[0] <= 0xDF && Continuation(f[1]))
    || (|f| == 3 && 0xE0 <= f[0] <= 0xEF && Continuation(f[1]) && Continuation(f[2])
        && (f[0] == 0xE0 ==> f[1] >= 0xA0) && (f[0] == 0xED ==> f[1] <= 0x9F))
    || (|f| == 4 && 0xF0 <= f[0] <= 0xF4 && Continuation(f[1]) && Continuation(f[2]) && Continuation(f[3])
        && (f[0] == 0xF0 ==> f[1] >= 0x90) && (f[0] == 0xF4 ==> f[1] <= 0x8F))
  }

  lemma FrontIsShaped(c: char)
    ensures WellShaped(Front(c))
  {
    hide CharsOf;
  }

  lemma ShapedThenValid(f: Lex.Bytes, rest: Lex.Bytes)
    requires WellShaped(f) && ValidUtf8(rest)
    ensures ValidUtf8(f + rest)
  {
    var s := f + rest;
    assert s[|f|..] == rest;
    assert s[0] == f[0] && (|f| > 1 ==> s[1] == f[1]) && (|f| > 2 ==> s[2] == f[2]) && (|f| > 3 ==> s[3] == f[3]);
  }

  lemma FrontIsValid(c: char, rest: Lex.Bytes)
    requires ValidUtf8(rest)
    ensures ValidUtf8(Front(c) + rest)
  {
    hide CharsOf, ValidUtf8, WellShaped;
    FrontIsShaped(c);
    ShapedThenValid(Front(c), rest);
  }

  lemma Digit(m: int, y: int)
    requires m >= 0 && 0 <= y < 0x40
    ensures (m * 0x40 + y) / 0x40 == m && (m * 0x40 + y) % 0x40 == y
  {
  }

  lemma Nested(n: int)
    requires n >= 0
    ensures n / 0x1000 == n / 0x40 / 0x40 && n / 0x4_0000 == n / 0x40 / 0x40 / 0x40
  {
  }

  lemma TwoBytes(p: int, q: int) returns (n: int)
    requires 0xC2 <= p <= 0xDF && 0x80 <= q <= 0xBF
    ensures 0x80 <= n < 0x800 && p == 0xC0 + n / 0x40 && q == 0x80 + n % 0x40
  {
    n := (p - 0xC0) * 0x40 + (q - 0x80);
  }

  lemma ThreeBytes(p: int, q: int, r: int) returns (n: int)
    requires 0xE0 <= p <= 0xEF && 0x80 <= q <= 0xBF && 0x80 <= r <= 0xBF && (p == 0xE0 ==> q >= 0xA0) && (p == 0xED ==> q <= 0x9F)
    ensures 0x800 <= n < 0x1_0000 && !(0xD800 <= n < 0xE000)
    ensures p == 0xE0 + n / 0x1000 && q == 0x80 + n / 0x40 % 0x40 && r == 0x80 + n % 0x40
  {
    var m := (p - 0xE0) * 0x40 + (q - 0x80);
    Digit(p - 0xE0, q - 0x80);
    Digit(m, r - 0x80);
    n := m * 0x40 + (r - 0x80);
    Nested(n);
  }

  lemma FourBytes(p: int, q: int, r: int, x: int) returns (n: int)
    requires 0xF0 <= p <= 0xF4 && 0x80 <= q <= 0xBF && 0x80 <= r <= 0xBF && 0x80 <= x <= 0xBF
    requires (p == 0xF0 ==> q >= 0x90) && (p == 0xF4 ==> q <= 0x8F)
    ensures 0x1_0000 <= n < 0x11_0000
    ensures p == 0xF0 + n / 0x4_0000 && q == 0x80 + n / 0x1000 % 0x40 && r == 0x80 + n / 0x40 % 0x40 && x == 0x80 + n % 0x40
  {
    var k := (p - 0xF0) * 0x40 + (q - 0x80);
    var m := k * 0x40 + (r - 0x80);
    Digit(p - 0xF0, q - 0x80);
    Digit(k, r - 0x80);
    Digit(m, x - 0x80);
    n := m * 0x40 + (x - 0x80);
    Nested(n);
  }

  lemma ShapedIsFront(f: Lex.Bytes) returns (c: char)
    requires WellShaped(f)
    ensures f == Front(c)
  {
    hide CharsOf;
    if |f| == 1 {
      c := f[0] as char;
    } else if |f| == 2 {
      var n := TwoBytes(f[0], f[1]);
      c := n as char;
    } else if |f| == 3 {
      var n := ThreeBytes(f[0], f[1], f[2]);
      c := n as char;
    } else {
      var n := FourBytes(f[0], f[1], f[2], f[3]);
      c := n as char;
    }
  }

  lemma ValidSplits(s: Lex.Bytes) returns (k: nat)
    requires s != [] && ValidUtf8(s)
    ensures 1 <= k <= |s| && WellShaped(s[..k]) && ValidUtf8(s[k..])
  {
    k := if s[0] <= 0x7F then 1 else if s[0] <= 0xDF then 2 else if s[0] <= 0xEF then 3 else 4;
  }

  /** Valid bytes start with those of a character. */
  lemma ValidHasFront(s: Lex.Bytes) returns (c: char, rest: Lex.Bytes)
    requires s != [] && ValidUtf8(s)
    ensures s == Front(c) + rest && ValidUtf8(rest)
  {
    hide CharsOf, ValidUtf8, WellShaped, Front;
    var k := ValidSplits(s);
    c := ShapedIsFront(s[..k]);
    rest := s[k..];
  }

  // ---- whole texts

  lemma {:induction false} EncodedIsValid(text: string, b: Lex.Bytes)
    requires CharsOf(b) == NamedParamsBytes.Bytes(text)
    ensures ValidUtf8(b)
    decreases text
  {
    hide ValidUtf8, Utf8Char;
    if text == [] {
      assert b == [];
      NothingIsValid();
    } else {
      var f := Front(text[0]);
      BytesCons(text);
      CharsLength(b);
      CharsLength(f);
      var rest := b[|f|..];
      CharsOfConcat(b[..|f|], rest);
      assert b == b[..|f|] + rest;
      CharsLength(b[..|f|]);
      SameFront(CharsOf(b[..|f|]), CharsOf(rest), Utf8Char(text[0]), NamedParamsBytes.Bytes(text[1..]));
      CharsTell(b[..|f|], f);
      EncodedIsValid(text[1..], rest);
      FrontIsValid(text[0], rest);
    }
  }

  lemma NothingIsValid()
    ensures ValidUtf8([])
  {
  }

  lemma SameFront(a: string, b: string, c: string, d: string)
    requires a + b == c + d && |a| == |c|
    ensures a == c && b == d
  {
    assert a == (a + b)[..|a|] && c == (c + d)[..|c|] && b == (a + b)[|a|..] && d == (c + d)[|c|..];
  }

  lemma {:induction false} CharsLength(b: Lex.Bytes)
    ensures |CharsOf(b)| == |b| && forall i :: 0 <= i < |b| ==> CharsOf(b)[i] as int == b[i]
  {
    if b != [] { CharsLength(b[1..]); }
  }

  lemma CharsTell(a: Lex.Bytes, b: Lex.Bytes)
    requires CharsOf(a) == CharsOf(b)
    ensures a == b
  {
    CharsLength(a);
    CharsLength(b);
  }

  lemma {:induction false} ValidIsEncoded(b: Lex.Bytes) returns (text: string)
    requires ValidUtf8(b)
    ensures CharsOf(b) == NamedParamsBytes.Bytes(text)
    decreases |b|
  {
    hide ValidUtf8, Utf8Char;
    if b == [] {
      text := [];
    } else {
      var c, rest := ValidHasFront(b);
      var more := ValidIsEncoded(rest);
      text := [c] + more;
      BytesCons(text);
      assert text[1..] == more;
      CharsOfConcat(Front(c), rest);
    }
  }

  /** The bytes a key may hold as text are exactly the UTF-8 encodings of strings. */
  lemma ValidIff(b: Lex.Bytes)
    ensures ValidUtf8(b) <==> exists text: string :: CharsOf(b) == NamedParamsBytes.Bytes(text)
  {
    if ValidUtf8(b) { var text := ValidIsEncoded(b); }
    forall text: string | CharsOf(b) == NamedParamsBytes.Bytes(text) ensures ValidUtf8(b) { EncodedIsValid(text, b); }
  }
}

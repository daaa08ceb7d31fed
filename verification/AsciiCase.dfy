/** Lower case of ASCII letters, as names and tokens are compared. */
module AsciiCase {

  function LowerChar(c: char): char {
    if 'A' <= c <= 'Z' then c - 'A' + 'a' else c
  }

  function Lower(s: string): (r: string)
    ensures |r| == |s| && forall i :: 0 <= i < |s| ==> r[i] == LowerChar(s[i])
  {
    if s == [] then [] else [LowerChar(s[0])] + Lower(s[1..])
  }

  // ---- the same but for the case of letters

  /** The letters, one by one. */
  function SmallLetter(c: char): char {
    match c
    case 'A' => 'a' case 'B' => 'b' case 'C' => 'c' case 'D' => 'd' case 'E' => 'e'
    case 'F' => 'f' case 'G' => 'g' case 'H' => 'h' case 'I' => 'i' case 'J' => 'j'
    case 'K' => 'k' case 'L' => 'l' case 'M' => 'm' case 'N' => 'n' case 'O' => 'o'
    case 'P' => 'p' case 'Q' => 'q' case 'R' => 'r' case 'S' => 's' case 'T' => 't'
    case 'U' => 'u' case 'V' => 'v' case 'W' => 'w' case 'X' => 'x' case 'Y' => 'y' case 'Z' => 'z'
    case _ => c
  }

  /** The two cases of one letter. */
  predicate Cases(u: char, l: char) { u != l && SmallLetter(u) == l }

  predicate SameLetter(a: char, b: char) { a == b || Cases(a, b) || Cases(b, a) }

  predicate SameButCase(a: string, b: string) {
    |a| == |b| && forall i :: 0 <= i < |a| ==> SameLetter(a[i], b[i])
  }

  lemma CasesAre(u: char, l: char)
    ensures Cases(u, l) <==> 'A' <= u <= 'Z' && l as int == u as int + 32
  {
  }

  lemma SameLetterIff(a: char, b: char)
    ensures LowerChar(a) == LowerChar(b) <==> SameLetter(a, b)
  {
    hide Cases;
    CasesAre(a, b);
    CasesAre(b, a);
  }

  /** Two strings have the same lower case exactly if they are the same but for the case of letters. */
  lemma LowerIff(a: string, b: string)
    ensures Lower(a) == Lower(b) <==> SameButCase(a, b)
  {
    hide Lower, LowerChar, SameLetter;
    forall i | 0 <= i < |a| && i < |b| ensures LowerChar(a[i]) == LowerChar(b[i]) <==> SameLetter(a[i], b[i]) {
      SameLetterIff(a[i], b[i]);
    }
    if |a| != |b| {
      assert |Lower(a)| != |Lower(b)|;
    } else if SameButCase(a, b) {
      assert forall i :: 0 <= i < |a| ==> Lower(a)[i] == Lower(b)[i];
    } else {
      var i :| 0 <= i < |a| && !SameLetter(a[i], b[i]);
      assert Lower(a)[i] != Lower(b)[i];
    }
  }

  /** Lower case is the same string but for case, and has no letter with a small one. */
  lemma LowerIsLower(s: string)
    ensures SameButCase(s, Lower(s)) && forall i :: 0 <= i < |s| ==> SmallLetter(Lower(s)[i]) == Lower(s)[i]
  {
    hide Lower, SmallLetter, SameLetter;
    LowerIdempotent(s);
    LowerIff(s, Lower(s));
    forall i | 0 <= i < |s| ensures SmallLetter(Lower(s)[i]) == Lower(s)[i] {
      CasesAre(Lower(s)[i], SmallLetter(Lower(s)[i]));
    }
  }

  lemma LowerIdempotent(s: string)
    ensures Lower(Lower(s)) == Lower(s)
  {
  }
}

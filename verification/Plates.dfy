/** License plates: normalisation, and the language of nopolRE. */
module Plates {
  import opened Wrappers

  // ----- Normalisation: strings.ToUpper(strings.ReplaceAll(s, " ", "")) -----

  // Simple upper-casing. Outside ASCII only the two letters whose upper case is an ASCII letter
  // can matter to the plate language; every other one stays outside ASCII.
  function Upper(c: char): (u: char)
    ensures c != ' ' ==> u != ' '
    ensures !('a' <= u <= 'z')
  {
    if 'a' <= c <= 'z' then ((c as int) - 32) as char
    else if c == '\U{0131}' then 'I'
    else if c == '\U{017F}' then 'S'
    else c
  }

  function Normalise(s: string): string {
    if s == "" then ""
    else if s[0] == ' ' then Normalise(s[1..])
    else [Upper(s[0])] + Normalise(s[1..])
  }

  const LOWER := "abcdefghijklmnopqrstuvwxyz"
  const CAPITALS := "ABCDEFGHIJKLMNOPQRSTUVWXYZ"

  predicate Ascii(s: string) {
    forall c <- s :: c as int < 128
  }

  // The text without its spaces.
  function Squeeze(s: string): (r: string)
    ensures forall c <- r :: c in s && c != ' '
  {
    if s == "" then ""
    else if s[0] == ' ' then Squeeze(s[1..])
    else [s[0]] + Squeeze(s[1..])
  }

  // What becomes of one character of the squeezed text.
  predicate Raised(c: char, u: char) {
    && (forall k | 0 <= k < 26 :: c == LOWER[k] ==> u == CAPITALS[k])
    && (c !in LOWER && c as int < 128 ==> u == c)
  }

  lemma LetterAt(k: nat)
    requires k < 26
    ensures LOWER[k] as int == 97 + k && CAPITALS[k] as int == 65 + k
  {
  }

  lemma UpperRaises(c: char)
    ensures Raised(c, Upper(c))
  {
    forall k | 0 <= k < 26 ensures LOWER[k] as int == 97 + k && CAPITALS[k] as int == 65 + k {
      LetterAt(k);
    }
    if 'a' <= c <= 'z' {
      LetterAt(c as int - 97);
      assert LOWER[c as int - 97] == c;
    }
  }

  lemma {:induction false} NormaliseRaises(s: string)
    ensures |Normalise(s)| == |Squeeze(s)|
    ensures forall i | 0 <= i < |Squeeze(s)| :: Normalise(s)[i] == Upper(Squeeze(s)[i])
  {
    if s != "" {
      NormaliseRaises(s[1..]);
    }
  }

  // Spaces go, letter number k becomes capital number k, every other ASCII character stays; so no
  // space and no lower-case ASCII letter is left.
  lemma NormaliseShape(s: string)
    ensures |Normalise(s)| == |Squeeze(s)|
    ensures forall i | 0 <= i < |Squeeze(s)| :: Raised(Squeeze(s)[i], Normalise(s)[i])
    ensures forall c <- Normalise(s) :: c != ' ' && !('a' <= c <= 'z')
  {
    NormaliseRaises(s);
    forall i | 0 <= i < |Squeeze(s)|
      ensures Raised(Squeeze(s)[i], Normalise(s)[i]) && Normalise(s)[i] != ' ' && !('a' <= Normalise(s)[i] <= 'z')
    {
      assert Squeeze(s)[i] in Squeeze(s);
      UpperRaises(Squeeze(s)[i]);
    }
  }

  // Equal, or the two forms of one letter.
  predicate SameLetter(c: char, d: char) {
    c == d || exists k | 0 <= k < 26 :: c in {LOWER[k], CAPITALS[k]} && d in {LOWER[k], CAPITALS[k]}
  }

  // Two texts that differ in nothing but spaces and case.
  predicate SameSpelling(a: string, b: string) {
    && |Squeeze(a)| == |Squeeze(b)|
    && forall i | 0 <= i < |Squeeze(a)| :: SameLetter(Squeeze(a)[i], Squeeze(b)[i])
  }

  lemma RaisedIs(c: char, u: char)
    requires c as int < 128 && Raised(c, u)
    ensures u as int == if 'a' <= c <= 'z' then c as int - 32 else c as int
  {
    InLower(c);
    if 'a' <= c <= 'z' {
      LetterAt(c as int - 97);
      assert LOWER[c as int - 97] == c;
    }
  }

  lemma SameLetterIs(c: char, d: char)
    ensures SameLetter(c, d) <==>
              || c == d
              || ('a' <= c <= 'z' && d as int == c as int - 32)
              || ('a' <= d <= 'z' && c as int == d as int - 32)
  {
    forall k | 0 <= k < 26 ensures LOWER[k] as int == 97 + k && CAPITALS[k] as int == 65 + k {
      LetterAt(k);
    }
    if 'a' <= c <= 'z' && d as int == c as int - 32 {
      var k := c as int - 97;
      assert c == LOWER[k] && d == CAPITALS[k];
    }
    if 'a' <= d <= 'z' && c as int == d as int - 32 {
      var k := d as int - 97;
      assert d == LOWER[k] && c == CAPITALS[k];
    }
  }

  // What raising does to the code of an ASCII character.
  function RaisedCode(c: char): int {
    if 'a' <= c <= 'z' then c as int - 32 else c as int
  }

  lemma SameCode(c: char, d: char)
    ensures RaisedCode(c) == RaisedCode(d) <==> SameLetter(c, d)
  {
    SameLetterIs(c, d);
  }

  lemma SameLetterExact(c: char, d: char, u: char, v: char)
    requires c as int < 128 && d as int < 128 && Raised(c, u) && Raised(d, v)
    ensures u == v <==> SameLetter(c, d)
  {
    RaisedIs(c, u);
    RaisedIs(d, v);
    SameCode(c, d);
    assert u as int == RaisedCode(c) && v as int == RaisedCode(d);
  }

  lemma InLower(c: char)
    ensures c in LOWER <==> 'a' <= c <= 'z'
  {
    if c in LOWER {
      var k :| 0 <= k < |LOWER| && LOWER[k] == c;
      LetterAt(k);
    }
    if 'a' <= c <= 'z' {
      LetterAt(c as int - 97);
      assert LOWER[c as int - 97] == c;
    }
  }

  // ASCII texts normalise alike exactly when they differ in nothing but spaces and case.
  lemma SpellingExact(a: string, b: string)
    requires Ascii(a) && Ascii(b)
    ensures Normalise(a) == Normalise(b) <==> SameSpelling(a, b)
  {
    NormaliseShape(a);
    NormaliseShape(b);
    if |Squeeze(a)| == |Squeeze(b)| {
      forall i | 0 <= i < |Squeeze(a)|
        ensures Normalise(a)[i] == Normalise(b)[i] <==> SameLetter(Squeeze(a)[i], Squeeze(b)[i])
      {
        assert Squeeze(a)[i] in Squeeze(a) && Squeeze(b)[i] in Squeeze(b);
        SameLetterExact(Squeeze(a)[i], Squeeze(b)[i], Normalise(a)[i], Normalise(b)[i]);
      }
    }
  }

  lemma {:induction false} NormaliseIdempotent(s: string)
    ensures Normalise(Normalise(s)) == Normalise(s)
  {
    if s != "" {
      NormaliseIdempotent(s[1..]);
      if s[0] != ' ' {
        var n := Normalise(s);
        assert n[1..] == Normalise(s[1..]) && Upper(n[0]) == n[0];
      }
    }
  }

  // Character by character: spaces vanish wherever they stand, letters are raised in place.
  lemma {:induction false} NormaliseConcat(a: string, b: string)
    ensures Normalise(a + b) == Normalise(a) + Normalise(b)
  {
    if a == "" {
      assert a + b == b;
    } else {
      NormaliseConcat(a[1..], b);
      assert (a + b)[0] == a[0] && (a + b)[1..] == a[1..] + b;
      if a[0] != ' ' {
        assert Normalise(a) == [Upper(a[0])] + Normalise(a[1..]);
        assert Normalise(a + b) == [Upper(a[0])] + (Normalise(a[1..]) + Normalise(b));
      }
    }
  }

  // ----- The language: ^[A-Z]{1,2}[0-9]{1,4}[A-Z]{0,3}$ -----

  predicate Letter(c: char) { 'A' <= c <= 'Z' }

  predicate Digit(c: char) { '0' <= c <= '9' }

  // s reads as letters up to a, digits up to b, letters to the end, each in its allowed number.
  predicate SplitsAt(s: string, a: nat, b: nat) {
    && 1 <= a <= 2 && a + 1 <= b <= a + 4 && b <= |s| <= b + 3
    && (forall i | 0 <= i < a :: 'A' <= s[i] <= 'Z')
    && (forall i | a <= i < b :: '0' <= s[i] <= '9')
    && (forall i | b <= i < |s| :: 'A' <= s[i] <= 'Z')
  }

  ghost predicate InLanguage(s: string) {
    exists a: nat, b: nat :: SplitsAt(s, a, b)
  }

  // The automaton of the expression: how many characters of the current group were read.
  datatype Scan = Region(n: nat) | Number(a: nat, n: nat) | Suffix(a: nat, b: nat, n: nat) | Dead

  function Advance(st: Scan, c: char): Scan {
    match st
    case Region(n) =>
      if Letter(c) && n < 2 then Region(n + 1)
      else if Digit(c) && n >= 1 then Number(n, 1)
      else Dead
    case Number(a, n) =>
      if Digit(c) && n < 4 then Number(a, n + 1)
      else if Letter(c) then Suffix(a, a + n, 1)
      else Dead
    case Suffix(a, b, n) => if Letter(c) && n < 3 then Suffix(a, b, n + 1) else Dead
    case Dead => Dead
  }

  function ScanAll(s: string): Scan {
    if s == "" then Region(0) else Advance(ScanAll(s[..|s| - 1]), s[|s| - 1])
  }

  function Boundaries(st: Scan): Option<(nat, nat)> {
    match st
    case Number(a, n) => Some((a, a + n))
    case Suffix(a, b, _) => Some((a, b))
    case _ => None
  }

  // nopolRE.MatchString in one pass, with the groups it found.
  function MatchPlate(s: string): Option<(nat, nat)> {
    Boundaries(ScanAll(s))
  }

  // What each automaton state says about the text read so far.
  ghost predicate Describes(st: Scan, s: string) {
    match st
    case Region(n) => |s| == n <= 2 && forall i | 0 <= i < n :: Letter(s[i])
    case Number(a, n) => |s| == a + n && SplitsAt(s, a, a + n)
    case Suffix(a, b, n) => 1 <= n && |s| == b + n && SplitsAt(s, a, b)
    case Dead => true
  }

  lemma {:induction false} ScanDescribes(s: string)
    ensures Describes(ScanAll(s), s)
  {
    if s != "" {
      ScanDescribes(s[..|s| - 1]);
      assert forall i | 0 <= i < |s| - 1 :: s[..|s| - 1][i] == s[i];
    }
  }

  lemma {:induction false} ScanComplete(s: string, a: nat, b: nat, k: nat)
    requires SplitsAt(s, a, b) && k <= |s|
    ensures ScanAll(s[..k]) == if k <= a then Region(k)
                               else if k <= b then Number(a, k - a)
                               else Suffix(a, b, k - b)
  {
    if k > 0 {
      assert s[..k][..k - 1] == s[..k - 1];
      ScanComplete(s, a, b, k - 1);
    }
  }

  // The scanner accepts exactly the language, and reports the one way the text splits.
  lemma ScannerExact(s: string)
    ensures MatchPlate(s).Some? <==> InLanguage(s)
    ensures forall a: nat, b: nat :: SplitsAt(s, a, b) <==> MatchPlate(s) == Some((a, b))
    ensures MatchPlate(s).Some? ==>
              var (a, b) := MatchPlate(s).value;
              a <= b <= |s| && s[..a] + s[a..b] + s[b..] == s
  {
    ScanDescribes(s);
    forall a: nat, b: nat | SplitsAt(s, a, b) ensures MatchPlate(s) == Some((a, b)) {
      ScanComplete(s, a, b, |s|);
      assert s[..|s|] == s;
    }
    if MatchPlate(s).Some? {
      var (a, b) := MatchPlate(s).value;
      assert SplitsAt(s, a, b);
    }
  }
}

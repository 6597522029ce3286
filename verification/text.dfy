/** String operations the server and the pages rely on: Python's `lower`,
    `replace`, `split`, `join`, `capitalize`, `title`, `endswith` and `in`,
    JavaScript's `trim`, and the decimal rendering of an integer. Case mapping
    is modelled for ASCII letters only. */
module Text {

  predicate IsUpper(c: char) { 'A' <= c <= 'Z' }
  predicate IsLower(c: char) { 'a' <= c <= 'z' }
  /** Python's notion of a cased character, restricted to ASCII. */
  predicate IsCased(c: char) { IsUpper(c) || IsLower(c) }

  function LowerChar(c: char): char {
    if IsUpper(c) then (c as int + 32) as char else c
  }

  function UpperChar(c: char): char {
    if IsLower(c) then (c as int - 32) as char else c
  }

  /** `s.lower()` */
  function Lower(s: string): string {
    seq(|s|, i requires 0 <= i < |s| => LowerChar(s[i]))
  }

  /** `s.replace(a, b)` for single characters `a` and `b`. */
  function Replace(s: string, a: char, b: char): string {
    seq(|s|, i requires 0 <= i < |s| => if s[i] == a then b else s[i])
  }

  /** No character of `s` is an upper-case letter. */
  predicate NoUpper(s: string) {
    forall i :: 0 <= i < |s| ==> !IsUpper(s[i])
  }

  /** `s.split(d)`: the pieces between occurrences of `d`; never empty. */
  function Split(s: string, d: char): (parts: seq<string>)
    ensures |parts| >= 1
  {
    if s == [] then [[]]
    else
      var rest := Split(s[1..], d);
      if s[0] == d then [[]] + rest
      else [[s[0]] + rest[0]] + rest[1..]
  }

  /** `d.join(parts)` */
  function Join(parts: seq<string>, d: char): string {
    if parts == [] then []
    else if |parts| == 1 then parts[0]
    else parts[0] + [d] + Join(parts[1..], d)
  }

  /** `w.capitalize()`: first character upper-cased, the rest lower-cased. */
  function Capitalize(w: string): string {
    if w == [] then [] else [UpperChar(w[0])] + Lower(w[1..])
  }

  /** `word.capitalize() for word in words` */
  function CapitalizeAll(words: seq<string>): (r: seq<string>)
    ensures |r| == |words|
  {
    if words == [] then [] else [Capitalize(words[0])] + CapitalizeAll(words[1..])
  }

  /** `s.title()`, scanning with the flag "the previous character was cased". */
  function TitleFrom(s: string, prevCased: bool): string {
    if s == [] then []
    else [if prevCased then LowerChar(s[0]) else UpperChar(s[0])] + TitleFrom(s[1..], IsCased(s[0]))
  }

  function Title(s: string): string { TitleFrom(s, false) }

  /** `s.endswith(suffix)` */
  predicate EndsWith(s: string, suffix: string) {
    |suffix| <= |s| && s[|s| - |suffix|..] == suffix
  }

  /** `sub in s` for strings (also JavaScript's `s.includes(sub)`). */
  predicate Contains(s: string, sub: string) {
    exists i :: 0 <= i <= |s| - |sub| && OccursAt(s, sub, i)
  }

  predicate OccursAt(s: string, sub: string, i: int) {
    0 <= i && i + |sub| <= |s| && s[i..i + |sub|] == sub
  }

  /** The characters JavaScript's `String.prototype.trim` removes: white space
      and line terminators. */
  predicate IsJsSpace(c: char) {
    || c == '\t' || c == '\n' || c == '\U{B}' || c == '\U{C}' || c == '\r' || c == ' '
    || c == '\U{A0}' || c == '\U{1680}' || ('\U{2000}' <= c <= '\U{200A}')
    || c == '\U{2028}' || c == '\U{2029}' || c == '\U{202F}' || c == '\U{205F}'
    || c == '\U{3000}' || c == '\U{FEFF}'
  }

  predicate Blank(s: string) {
    forall i :: 0 <= i < |s| ==> IsJsSpace(s[i])
  }

  function TrimStart(s: string): string {
    if s != [] && IsJsSpace(s[0]) then TrimStart(s[1..]) else s
  }

  function TrimEnd(s: string): string {
    if s != [] && IsJsSpace(s[|s| - 1]) then TrimEnd(s[..|s| - 1]) else s
  }

  /** `s.trim()` */
  function Trim(s: string): string { TrimEnd(TrimStart(s)) }

  function Digit(n: nat): char
    requires n < 10
  {
    ('0' as int + n) as char
  }

  /** `str(n)` for a non-negative integer. */
  function DecimalString(n: nat): string {
    if n < 10 then [Digit(n)] else DecimalString(n / 10) + [Digit(n % 10)]
  }

  // ---------------------------------------------------------------------------
  // Lemmas

  lemma LowerAppend(a: string, b: string)
    ensures Lower(a + b) == Lower(a) + Lower(b)
  {
  }

  lemma ReplaceAppend(a: string, b: string, x: char, y: char)
    ensures Replace(a + b, x, y) == Replace(a, x, y) + Replace(b, x, y)
  {
  }

  /** Lower-casing twice is lower-casing once. */
  lemma LowerIdempotent(s: string)
    ensures Lower(Lower(s)) == Lower(s)
    ensures NoUpper(Lower(s))
  {
  }

  /** A string without upper-case letters is its own lower-case form. */
  lemma LowerOfNoUpper(s: string)
    requires NoUpper(s)
    ensures Lower(s) == s
  {
  }

  /** Joining with `[c] + p` as first part puts `c` in front. */
  lemma JoinConsHead(c: char, p: string, ps: seq<string>, e: char)
    ensures Join([[c] + p] + ps, e) == [c] + Join([p] + ps, e)
  {
    if ps != [] {
      assert ([[c] + p] + ps)[1..] == ps;
      assert ([p] + ps)[1..] == ps;
    }
  }

  /** `e.join(s.split(d))` is `s.replace(d, e)`. */
  lemma {:induction false} JoinSplit(s: string, d: char, e: char)
    ensures Join(Split(s, d), e) == Replace(s, d, e)
  {
    if s != [] {
      var rest := Split(s[1..], d);
      JoinSplit(s[1..], d, e);
      assert Replace(s, d, e) == [if s[0] == d then e else s[0]] + Replace(s[1..], d, e);
      if s[0] == d {
        assert ([[]] + rest)[1..] == rest;
      } else {
        assert rest == [rest[0]] + rest[1..];
        JoinConsHead(s[0], rest[0], rest[1..], e);
      }
    }
  }

  /** Splitting at an occurrence of the separator splits the two sides
      independently. */
  lemma {:induction false} SplitAround(a: string, b: string, d: char)
    ensures Split(a + [d] + b, d) == Split(a, d) + Split(b, d)
  {
    if a == [] {
      assert a + [d] + b == [d] + b;
      assert ([d] + b)[1..] == b;
    } else {
      assert (a + [d] + b)[1..] == a[1..] + [d] + b;
      SplitAround(a[1..], b, d);
    }
  }

  /** A string without the separator splits into itself alone. */
  lemma {:induction false} SplitWithoutSeparator(s: string, d: char)
    requires d !in s
    ensures Split(s, d) == [s]
  {
    if s != [] {
      SplitWithoutSeparator(s[1..], d);
      assert [s[0]] + s[1..] == s;
    }
  }

  /** Every piece of a split consists of characters of the string other than
      the separator. */
  lemma {:induction false} SplitPieces(s: string, d: char)
    ensures forall k, j :: 0 <= k < |Split(s, d)| && 0 <= j < |Split(s, d)[k]| ==>
              Split(s, d)[k][j] in s && Split(s, d)[k][j] != d
  {
    if s != [] {
      SplitPieces(s[1..], d);
    }
  }

  /** `title()` ignores the case the input was already in. */
  lemma {:induction false} TitleOfLower(s: string, prevCased: bool)
    ensures TitleFrom(Lower(s), prevCased) == TitleFrom(s, prevCased)
  {
    if s != [] {
      assert Lower(s)[1..] == Lower(s[1..]);
      TitleOfLower(s[1..], IsCased(s[0]));
    }
  }

  /** A string is trimmed to nothing exactly when all its characters are white
      space. */
  lemma TrimEmptyIffBlank(s: string)
    ensures Trim(s) == [] <==> Blank(s)
  {
    TrimStartShape(s);
    var t := TrimStart(s);
    if !Blank(s) {
      TrimEndKeepsHead(t);
    }
  }

  lemma {:induction false} TrimStartShape(s: string)
    ensures Blank(s) ==> TrimStart(s) == []
    ensures !Blank(s) ==> TrimStart(s) != [] && !IsJsSpace(TrimStart(s)[0])
  {
    if s != [] && IsJsSpace(s[0]) {
      TrimStartShape(s[1..]);
      if !Blank(s) {
        var i :| 0 <= i < |s| && !IsJsSpace(s[i]);
        assert !IsJsSpace(s[1..][i - 1]);
      }
    }
  }

  lemma {:induction false} TrimEndKeepsHead(t: string)
    requires t != [] && !IsJsSpace(t[0])
    ensures TrimEnd(t) != [] && TrimEnd(t)[0] == t[0]
  {
    if IsJsSpace(t[|t| - 1]) {
      TrimEndKeepsHead(t[..|t| - 1]);
    }
  }
}

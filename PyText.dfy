/** Python's `None`-or-value and the handful of `str` operations the scraper
    relies on: `strip()`, `lower()`/`upper()`, the `in` substring test,
    `re.sub(r'\W+', '_', s)` and `f"col{i}"`. */
module PyText {

  datatype Option<+T> = None | Some(value: T)

  // ---------------------------------------------------------------- strip()

  /** `c.isspace()`: the characters Python's `str.strip()` removes. */
  const Whitespace: set<char> := {
    ' ', '\t', '\n', '\U{0b}', '\U{0c}', '\r', '\U{1c}', '\U{1d}', '\U{1e}', '\U{1f}',
    '\U{85}', '\U{a0}', '\U{1680}', '\U{2000}', '\U{2001}', '\U{2002}', '\U{2003}',
    '\U{2004}', '\U{2005}', '\U{2006}', '\U{2007}', '\U{2008}', '\U{2009}', '\U{200a}',
    '\U{2028}', '\U{2029}', '\U{202f}', '\U{205f}', '\U{3000}'
  }

  predicate IsSpace(c: char) {
    c in Whitespace
  }

  function StripLeft(s: string): string {
    if s != [] && IsSpace(s[0]) then StripLeft(s[1..]) else s
  }

  function StripRight(s: string): string {
    if s != [] && IsSpace(s[|s| - 1]) then StripRight(s[..|s| - 1]) else s
  }

  /** `s.strip()`: `s` without its leading and trailing whitespace. */
  function Strip(s: string): string {
    StripRight(StripLeft(s))
  }

  lemma {:induction false} StripLeftShape(s: string)
    ensures |StripLeft(s)| <= |s| && StripLeft(s) == s[|s| - |StripLeft(s)|..]
    ensures StripLeft(s) == [] || !IsSpace(StripLeft(s)[0])
    ensures forall i :: 0 <= i < |s| - |StripLeft(s)| ==> IsSpace(s[i])
  {
    if s != [] && IsSpace(s[0]) {
      var t := s[1..];
      StripLeftShape(t);
      assert StripLeft(s) == StripLeft(t);
      forall i | 0 < i < |s| - |StripLeft(s)|
        ensures IsSpace(s[i])
      {
        assert s[i] == t[i - 1];
      }
    }
  }

  lemma {:induction false} StripRightShape(s: string)
    ensures |StripRight(s)| <= |s| && StripRight(s) == s[..|StripRight(s)|]
    ensures StripRight(s) == [] || !IsSpace(StripRight(s)[|StripRight(s)| - 1])
    ensures forall i :: |StripRight(s)| <= i < |s| ==> IsSpace(s[i])
  {
    if s != [] && IsSpace(s[|s| - 1]) {
      var t := s[..|s| - 1];
      StripRightShape(t);
      assert StripRight(s) == StripRight(t);
      forall i | |StripRight(s)| <= i < |s| - 1
        ensures IsSpace(s[i])
      {
        assert s[i] == t[i];
      }
    }
  }

  /** Whether `t` is `s` with only whitespace removed around it: `t` occurs
      in `s` at `a`, and everything before and after it is whitespace. */
  predicate TrimmedAt(t: string, s: string, a: int) {
    && OccursAt(t, s, a)
    && (forall i :: 0 <= i < a ==> IsSpace(s[i]))
    && (forall i :: a + |t| <= i < |s| ==> IsSpace(s[i]))
  }

  /** The stripped text is the original with only whitespace removed from
      its two ends, and it neither starts nor ends with whitespace. */
  lemma StripShape(s: string)
    ensures Strip(s) == [] || (!IsSpace(Strip(s)[0]) && !IsSpace(Strip(s)[|Strip(s)| - 1]))
    ensures exists a :: TrimmedAt(Strip(s), s, a)
  {
    var l := StripLeft(s);
    StripLeftShape(s);
    StripRightShape(l);
    var r := StripRight(l);
    var a := |s| - |l|;
    forall i | a + |r| <= i < |s|
      ensures IsSpace(s[i])
    {
      assert s[i] == l[i - a];
    }
    assert TrimmedAt(r, s, a);
  }

  /** A text strips to nothing exactly when it is all whitespace. */
  lemma StripBlank(s: string)
    ensures Strip(s) == [] <==> forall i :: 0 <= i < |s| ==> IsSpace(s[i])
  {
    StripShape(s);
    if forall i :: 0 <= i < |s| ==> IsSpace(s[i]) {
      var a :| TrimmedAt(Strip(s), s, a);
    }
  }

  /** Stripping twice is stripping once. */
  lemma StripIdempotent(s: string)
    ensures Strip(Strip(s)) == Strip(s)
  {
    var t := Strip(s);
    StripShape(s);
    if t != [] {
      assert StripLeft(t) == t;
      assert StripRight(t) == t;
    }
  }

  // ------------------------------------------------------ lower() / upper()

  /** ASCII case mapping; the scraper's XPath `translate()` maps exactly A-Z. */
  function LowerChar(c: char): char {
    if 'A' <= c <= 'Z' then (c as int + 32) as char else c
  }

  function UpperChar(c: char): char {
    if 'a' <= c <= 'z' then (c as int - 32) as char else c
  }

  function Lower(s: string): (r: string)
    ensures |r| == |s| && forall i :: 0 <= i < |s| ==> r[i] == LowerChar(s[i])
  {
    seq(|s|, i requires 0 <= i < |s| => LowerChar(s[i]))
  }

  function Upper(s: string): (r: string)
    ensures |r| == |s| && forall i :: 0 <= i < |s| ==> r[i] == UpperChar(s[i])
  {
    seq(|s|, i requires 0 <= i < |s| => UpperChar(s[i]))
  }

  /** Lower-casing leaves no ASCII capital, turns each capital into its
      small letter and keeps every other character. */
  lemma LowerShape(s: string)
    ensures |Lower(s)| == |s|
    ensures forall i :: 0 <= i < |s| ==> !('A' <= Lower(s)[i] <= 'Z')
    ensures forall i :: 0 <= i < |s| && 'A' <= s[i] <= 'Z' ==> Lower(s)[i] as int == s[i] as int + 32
    ensures forall i :: 0 <= i < |s| && !('A' <= s[i] <= 'Z') ==> Lower(s)[i] == s[i]
  {
  }

  /** Upper-casing leaves no ASCII small letter, turns each small letter
      into its capital and keeps every other character. */
  lemma UpperShape(s: string)
    ensures |Upper(s)| == |s|
    ensures forall i :: 0 <= i < |s| ==> !('a' <= Upper(s)[i] <= 'z')
    ensures forall i :: 0 <= i < |s| && 'a' <= s[i] <= 'z' ==> Upper(s)[i] as int == s[i] as int - 32
    ensures forall i :: 0 <= i < |s| && !('a' <= s[i] <= 'z') ==> Upper(s)[i] == s[i]
  {
  }

  // ------------------------------------------------------------- `x in y`

  predicate OccursAt(needle: string, hay: string, i: int) {
    0 <= i && i + |needle| <= |hay| && hay[i..i + |needle|] == needle
  }

  /** Python's `needle in hay` for strings. */
  predicate Contains(hay: string, needle: string) {
    exists i | 0 <= i <= |hay| - |needle| :: OccursAt(needle, hay, i)
  }

  // ----------------------------------------------------------- \n -> ' '

  /** `s.replace("\n", " ")`. */
  function ReplaceNewlines(s: string): (r: string)
    ensures |r| == |s|
    ensures forall i :: 0 <= i < |r| ==> r[i] != '\n'
    ensures forall i :: 0 <= i < |s| && s[i] != '\n' ==> r[i] == s[i]
    ensures forall i :: 0 <= i < |s| && s[i] == '\n' ==> r[i] == ' '
  {
    seq(|s|, i requires 0 <= i < |s| => if s[i] == '\n' then ' ' else s[i])
  }

  // -------------------------------------------------- re.sub(r'\W+', '_')

  /** The characters `\w` matches (ASCII letters, digits and underscore). */
  predicate IsWordChar(c: char) {
    ('a' <= c <= 'z') || ('A' <= c <= 'Z') || ('0' <= c <= '9') || c == '_'
  }

  predicate AllWord(s: string) {
    forall i :: 0 <= i < |s| ==> IsWordChar(s[i])
  }

  /** The suffix of `s` after its leading run of non-word characters. */
  function DropNonWord(s: string): (r: string)
    ensures |r| <= |s| && r == s[|s| - |r|..]
    ensures r == [] || IsWordChar(r[0])
  {
    if s != [] && !IsWordChar(s[0]) then DropNonWord(s[1..]) else s
  }

  /** `re.sub(r'\W+', '_', s)`: every maximal run of non-word characters
      becomes a single underscore. */
  function Sanitize(s: string): (r: string)
    ensures AllWord(r)
    ensures |r| <= |s|
    ensures r == [] <==> s == []
  {
    if s == [] then []
    else if IsWordChar(s[0]) then [s[0]] + Sanitize(s[1..])
    else "_" + Sanitize(DropNonWord(s[1..]))
  }

  /** A string that is already all word characters is left alone. */
  lemma {:induction false} SanitizeKeepsWords(s: string)
    requires AllWord(s)
    ensures Sanitize(s) == s
  {
    if s != [] {
      assert AllWord(s[1..]);
      SanitizeKeepsWords(s[1..]);
    }
  }

  /** Sanitising twice is sanitising once. */
  lemma SanitizeIdempotent(s: string)
    ensures Sanitize(Sanitize(s)) == Sanitize(s)
  {
    SanitizeKeepsWords(Sanitize(s));
  }

  /** A leading run of word characters, underscores included, is copied
      as it is. */
  lemma {:induction false} SanitizeWordPrefix(w: string, s: string)
    requires AllWord(w)
    ensures Sanitize(w + s) == w + Sanitize(s)
  {
    if w == [] {
      assert w + s == s;
    } else {
      assert (w + s)[0] == w[0];
      assert (w + s)[1..] == w[1..] + s;
      assert AllWord(w[1..]);
      SanitizeWordPrefix(w[1..], s);
      assert [w[0]] + (w[1..] + Sanitize(s)) == w + Sanitize(s);
    }
  }

  /** Dropping a run of non-word characters from the front leaves the text
      after it. */
  lemma {:induction false} DropNonWordRun(n: string, s: string)
    requires forall i :: 0 <= i < |n| ==> !IsWordChar(n[i])
    requires s == [] || IsWordChar(s[0])
    ensures DropNonWord(n + s) == s
  {
    if n == [] {
      assert n + s == s;
    } else {
      assert (n + s)[0] == n[0];
      assert (n + s)[1..] == n[1..] + s;
      DropNonWordRun(n[1..], s);
    }
  }

  /** A maximal run of non-word characters becomes exactly one underscore. */
  lemma SanitizeNonWordRun(n: string, s: string)
    requires n != [] && forall i :: 0 <= i < |n| ==> !IsWordChar(n[i])
    requires s == [] || IsWordChar(s[0])
    ensures Sanitize(n + s) == "_" + Sanitize(s)
  {
    assert (n + s)[0] == n[0];
    assert (n + s)[1..] == n[1..] + s;
    DropNonWordRun(n[1..], s);
  }

  /** The letters and digits of `s`, in order. */
  function Alnums(s: string): string {
    if s == [] then []
    else if IsWordChar(s[0]) && s[0] != '_' then [s[0]] + Alnums(s[1..])
    else Alnums(s[1..])
  }

  lemma {:induction false} AlnumsDropNonWord(s: string)
    ensures Alnums(DropNonWord(s)) == Alnums(s)
  {
    if s != [] && !IsWordChar(s[0]) {
      AlnumsDropNonWord(s[1..]);
    }
  }

  /** Sanitising neither loses nor invents a letter or a digit: only the
      non-word runs are rewritten. */
  lemma {:induction false} SanitizeKeepsAlnums(s: string)
    ensures Alnums(Sanitize(s)) == Alnums(s)
  {
    if s != [] {
      if IsWordChar(s[0]) {
        SanitizeKeepsAlnums(s[1..]);
        assert ([s[0]] + Sanitize(s[1..]))[1..] == Sanitize(s[1..]);
      } else {
        var rest := DropNonWord(s[1..]);
        SanitizeKeepsAlnums(rest);
        AlnumsDropNonWord(s[1..]);
        assert ("_" + Sanitize(rest))[1..] == Sanitize(rest);
      }
    }
  }

  // ------------------------------------------------------------ f"col{i}"

  predicate IsDigit(c: char) {
    '0' <= c <= '9'
  }

  predicate AllDigits(s: string) {
    forall i :: 0 <= i < |s| ==> IsDigit(s[i])
  }

  /** `str(n)` for a natural number. */
  function NatToString(n: nat): (r: string)
    ensures |r| >= 1 && AllDigits(r)
    ensures r[0] == '0' ==> n == 0
  {
    if n < 10 then [(48 + n) as char] else NatToString(n / 10) + [(48 + n % 10) as char]
  }

  /** `int(s)` for a string of decimal digits. */
  function DecimalValue(s: string): nat
    requires AllDigits(s)
  {
    if s == [] then 0
    else
      assert IsDigit(s[|s| - 1]);
      DecimalValue(s[..|s| - 1]) * 10 + (s[|s| - 1] as int - 48)
  }

  /** Reading back the decimal text of `n` gives `n`. */
  lemma {:induction false} DecimalRoundTrip(n: nat)
    ensures DecimalValue(NatToString(n)) == n
  {
    if n >= 10 {
      var s := NatToString(n);
      assert s[..|s| - 1] == NatToString(n / 10);
      DecimalRoundTrip(n / 10);
    }
  }

  /** The placeholder column name `f"col{i}"`. */
  function ColName(i: nat): (r: string)
    ensures |r| >= 4 && r[..3] == "col"
  {
    "col" + NatToString(i)
  }

  /** Distinct positions get distinct placeholder names. */
  lemma ColNameInjective(i: nat, j: nat)
    requires ColName(i) == ColName(j)
    ensures i == j
  {
    assert NatToString(i) == ColName(i)[3..];
    assert NatToString(j) == ColName(j)[3..];
    DecimalRoundTrip(i);
    DecimalRoundTrip(j);
  }

  /** A placeholder name is never blank. */
  lemma ColNameNotBlank(i: nat)
    ensures Strip(ColName(i)) == ColName(i)
  {
    var c := ColName(i);
    assert c[0] == 'c' && !IsSpace(c[0]);
    assert IsDigit(c[|c| - 1]) && !IsSpace(c[|c| - 1]);
    assert StripLeft(c) == c;
    assert StripRight(c) == c;
  }
}

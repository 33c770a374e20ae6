/**
 * The string operations the two core files rely on, over `string` = `seq<char>`
 * (one char per Unicode code point): Python's str.strip(), str.lower() on ASCII
 * letters, the `in` operator on strings, str.split(sep) and sep.join(parts), JavaScript's
 * String.prototype.trim(), and the decimal rendering of a non-negative number.
 */
module Text {

  // ---------------------------------------------------------------------------
  // Whitespace
  // ---------------------------------------------------------------------------

  /** Python's str.isspace() on one code point (bidi class WS, B or S, or category Zs). */
  predicate IsPySpace(c: char) {
    ('\t' <= c <= '\r') || ('\U{1C}' <= c <= ' ') || c == '\U{85}' || c == '\U{A0}'
    || c == '\U{1680}' || ('\U{2000}' <= c <= '\U{200A}') || c == '\U{2028}' || c == '\U{2029}'
    || c == '\U{202F}' || c == '\U{205F}' || c == '\U{3000}'
  }

  /** ECMAScript WhiteSpace and LineTerminator, the code points String.prototype.trim() removes. */
  predicate IsJsSpace(c: char) {
    c == '\t' || c == '\n' || c == '\U{B}' || c == '\U{C}' || c == '\r' || c == ' '
    || c == '\U{A0}' || c == '\U{1680}' || ('\U{2000}' <= c <= '\U{200A}') || c == '\U{2028}'
    || c == '\U{2029}' || c == '\U{202F}' || c == '\U{205F}' || c == '\U{3000}' || c == '\U{FEFF}'
  }

  /** Drops the leading code points that satisfy `isSpace`. */
  function StripStart(s: string, isSpace: char -> bool): (r: string)
    ensures |r| <= |s| && r == s[|s| - |r|..]
    ensures forall k :: 0 <= k < |s| - |r| ==> isSpace(s[k])
    ensures r == [] || !isSpace(r[0])
    decreases |s|
  {
    if s != [] && isSpace(s[0]) then StripStart(s[1..], isSpace) else s
  }

  /** Drops the trailing code points that satisfy `isSpace`. */
  function StripEnd(s: string, isSpace: char -> bool): (r: string)
    ensures |r| <= |s| && r == s[..|r|]
    ensures forall k :: |r| <= k < |s| ==> isSpace(s[k])
    ensures r == [] || !isSpace(r[|r| - 1])
    decreases |s|
  {
    if s != [] && isSpace(s[|s| - 1]) then StripEnd(s[..|s| - 1], isSpace) else s
  }

  /** Both ends stripped: Python's s.strip() with IsPySpace, JavaScript's s.trim() with IsJsSpace. */
  function Strip(s: string, isSpace: char -> bool): string {
    StripEnd(StripStart(s, isSpace), isSpace)
  }

  /** Where Strip's result starts inside its argument. */
  function StripOffset(s: string, isSpace: char -> bool): nat
    ensures StripOffset(s, isSpace) <= |s|
  {
    |s| - |StripStart(s, isSpace)|
  }

  /**
   * Strip removes exactly a run of spaces at each end: its result is the infix of `s` that
   * starts at StripOffset, everything before and after it is space, and (unless it is
   * empty) it neither starts nor ends with a space.
   */
  lemma StripIsInfix(s: string, isSpace: char -> bool)
    ensures StripOffset(s, isSpace) + |Strip(s, isSpace)| <= |s|
    ensures Strip(s, isSpace) == s[StripOffset(s, isSpace)..StripOffset(s, isSpace) + |Strip(s, isSpace)|]
    ensures forall k :: 0 <= k < StripOffset(s, isSpace) ==> isSpace(s[k])
    ensures forall k :: StripOffset(s, isSpace) + |Strip(s, isSpace)| <= k < |s| ==> isSpace(s[k])
    ensures Strip(s, isSpace) == [] || (!isSpace(Strip(s, isSpace)[0]) && !isSpace(Strip(s, isSpace)[|Strip(s, isSpace)| - 1]))
  {
    var t := StripStart(s, isSpace);
    var i := |s| - |t|;
    var r := StripEnd(t, isSpace);
    assert StripOffset(s, isSpace) == i && Strip(s, isSpace) == r;
    PrefixOfSuffix(s, i, t, r);
    forall k | i + |r| <= k < |s|
      ensures isSpace(s[k])
    {
      assert t[k - i] == s[k];
    }
  }

  /** A prefix `r` of the suffix `t` of `s` that starts at `i` is the infix s[i..i + |r|]. */
  lemma PrefixOfSuffix(s: string, i: nat, t: string, r: string)
    requires i <= |s| && t == s[i..] && |r| <= |t| && r == t[..|r|]
    ensures i + |r| <= |s| && r == s[i..i + |r|]
    ensures r != [] ==> r[0] == t[0]
  {
    assert s[i..][..|r|] == s[i..i + |r|];
  }

  /** Stripping twice is stripping once. */
  lemma StripIdempotent(s: string, isSpace: char -> bool)
    ensures Strip(Strip(s, isSpace), isSpace) == Strip(s, isSpace)
  {
    var r := Strip(s, isSpace);
    StripIsInfix(s, isSpace);
    assert StripStart(r, isSpace) == r;
  }

  // ---------------------------------------------------------------------------
  // Case
  // ---------------------------------------------------------------------------

  /** Lower-cases the ASCII letters A-Z and leaves every other code point as it is. */
  function LowerChar(c: char): char {
    if 'A' <= c <= 'Z' then (c as int + 32) as char else c
  }

  function Lower(s: string): string {
    seq(|s|, k requires 0 <= k < |s| => LowerChar(s[k]))
  }

  /** Lower-casing a concatenation lower-cases each piece. */
  lemma LowerConcat(a: string, b: string)
    ensures Lower(a + b) == Lower(a) + Lower(b)
  {
  }

  /** Lower-casing works code point by code point, so it commutes with taking a slice. */
  lemma LowerSlice(s: string, i: nat, j: nat)
    requires i <= j <= |s|
    ensures Lower(s[i..j]) == Lower(s)[i..j]
  {
  }

  /** Lower-casing never turns a non-space into a space or a space into a non-space. */
  lemma LowerKeepsSpaces(c: char)
    ensures IsPySpace(LowerChar(c)) <==> IsPySpace(c)
  {
  }

  // ---------------------------------------------------------------------------
  // Substrings
  // ---------------------------------------------------------------------------

  /** `pat` occurs in `s` at position `i`. */
  predicate OccursAt(s: string, pat: string, i: int) {
    0 <= i && i + |pat| <= |s| && s[i..i + |pat|] == pat
  }

  /** Python's `pat in s` for strings: a left-to-right scan for `pat`. */
  function Contains(s: string, pat: string): bool
    decreases |s|
  {
    if |s| < |pat| then false else s[..|pat|] == pat || Contains(s[1..], pat)
  }

  /** The scan finds `pat` exactly when `pat` occurs somewhere in `s`. */
  lemma {:induction false} ContainsIffOccurs(s: string, pat: string)
    ensures Contains(s, pat) <==> exists i :: OccursAt(s, pat, i)
    decreases |s|
  {
    if |s| < |pat| {
    } else if s[..|pat|] == pat {
      assert OccursAt(s, pat, 0);
    } else {
      ContainsIffOccurs(s[1..], pat);
      if Contains(s[1..], pat) {
        var i :| OccursAt(s[1..], pat, i);
        assert s[1..][i..i + |pat|] == s[i + 1..i + 1 + |pat|];
        assert OccursAt(s, pat, i + 1);
      }
      if exists i :: OccursAt(s, pat, i) {
        var i :| OccursAt(s, pat, i);
        assert i != 0;
        assert s[1..][i - 1..i - 1 + |pat|] == s[i..i + |pat|];
        assert OccursAt(s[1..], pat, i - 1);
      }
    }
  }

  /** An occurrence inside a slice is an occurrence in the whole string, shifted by the slice start. */
  lemma OccursInSlice(s: string, pat: string, i: nat, j: nat, k: int)
    requires i <= j <= |s|
    ensures OccursAt(s[i..j], pat, k) ==> OccursAt(s, pat, i + k)
  {
    if OccursAt(s[i..j], pat, k) {
      forall m | 0 <= m < |pat|
        ensures s[i + k + m] == pat[m]
      {
        assert s[i..j][k..k + |pat|][m] == s[i..j][k + m];
      }
      assert s[i + k..i + k + |pat|] == pat;
    }
  }

  /** A string occurs in any concatenation that has it in the middle. */
  lemma OccursInMiddle(x: string, a: string, y: string)
    ensures OccursAt(x + a + y, a, |x|)
  {
    assert (x + a + y)[|x|..|x| + |a|] == a;
  }

  /** Lower-casing leaves the spaces (in the sense of `isSpace`) where they are. */
  ghost predicate CaseBlind(isSpace: char -> bool) {
    forall c {:trigger LowerChar(c)} :: isSpace(LowerChar(c)) <==> isSpace(c)
  }

  /** Python's whitespace is case-blind. */
  lemma PySpaceCaseBlind()
    ensures CaseBlind(IsPySpace)
  {
    forall c {
      LowerKeepsSpaces(c);
    }
  }

  /**
   * Searching a lower-cased, stripped string for a pattern that neither starts nor ends
   * with a space finds the same thing as searching the lower-cased unstripped string.
   */
  lemma SearchIgnoresStrip(t: string, pat: string, isSpace: char -> bool)
    requires CaseBlind(isSpace)
    requires pat != [] && !isSpace(pat[0]) && !isSpace(pat[|pat| - 1])
    ensures (exists k :: OccursAt(Lower(Strip(t, isSpace)), pat, k)) <==> exists k :: OccursAt(Lower(t), pat, k)
  {
    if exists k :: OccursAt(Lower(Strip(t, isSpace)), pat, k) {
      var k :| OccursAt(Lower(Strip(t, isSpace)), pat, k);
      OccurrenceOutsideStrip(t, pat, k, isSpace);
    }
    if exists k :: OccursAt(Lower(t), pat, k) {
      var k :| OccursAt(Lower(t), pat, k);
      OccurrenceInsideStrip(t, pat, k, isSpace);
    }
  }

  /** An occurrence in the lower-cased stripped string is one in the lower-cased string, shifted by the offset. */
  lemma OccurrenceOutsideStrip(t: string, pat: string, k: int, isSpace: char -> bool)
    requires OccursAt(Lower(Strip(t, isSpace)), pat, k)
    ensures OccursAt(Lower(t), pat, StripOffset(t, isSpace) + k)
  {
    LowerStripIsInfix(t, isSpace);
    OccursInSlice(Lower(t), pat, StripOffset(t, isSpace), StripOffset(t, isSpace) + |Strip(t, isSpace)|, k);
  }

  /** Lower-casing the stripped string gives the matching infix of the lower-cased string. */
  lemma LowerStripIsInfix(t: string, isSpace: char -> bool)
    ensures StripOffset(t, isSpace) + |Strip(t, isSpace)| <= |t|
    ensures Lower(Strip(t, isSpace))
      == Lower(t)[StripOffset(t, isSpace)..StripOffset(t, isSpace) + |Strip(t, isSpace)|]
  {
    var i, s := StripOffset(t, isSpace), Strip(t, isSpace);
    StripIsInfix(t, isSpace);
    LowerSlice(t, i, i + |s|);
  }

  /** An occurrence of such a pattern in the lower-cased string lies inside the stripped part. */
  lemma OccurrenceInsideStrip(t: string, pat: string, k: int, isSpace: char -> bool)
    requires CaseBlind(isSpace)
    requires pat != [] && !isSpace(pat[0]) && !isSpace(pat[|pat| - 1])
    requires OccursAt(Lower(t), pat, k)
    ensures OccursAt(Lower(Strip(t, isSpace)), pat, k - StripOffset(t, isSpace))
  {
    OccurrenceBounds(t, pat, k, isSpace);
    LowerStripIsInfix(t, isSpace);
    OccursInInfix(Lower(t), Lower(Strip(t, isSpace)), pat, StripOffset(t, isSpace), k);
  }

  /** Such an occurrence starts and ends inside the stripped part. */
  lemma OccurrenceBounds(t: string, pat: string, k: int, isSpace: char -> bool)
    requires CaseBlind(isSpace)
    requires pat != [] && !isSpace(pat[0]) && !isSpace(pat[|pat| - 1])
    requires OccursAt(Lower(t), pat, k)
    ensures StripOffset(t, isSpace) <= k
    ensures k + |pat| <= StripOffset(t, isSpace) + |Strip(t, isSpace)|
  {
    var s := Strip(t, isSpace);
    var i := StripOffset(t, isSpace);
    var low := Lower(t);
    var last := k + |pat| - 1;
    StripIsInfix(t, isSpace);
    assert low[k] == low[k..k + |pat|][0] == pat[0];
    assert low[last] == low[k..k + |pat|][|pat| - 1] == pat[|pat| - 1];
    assert !isSpace(LowerChar(t[k])) && !isSpace(LowerChar(t[last]));
    assert !isSpace(t[k]) && !isSpace(t[last]);
  }

  /** An occurrence that lies inside an infix is an occurrence in the infix, shifted by its start. */
  lemma OccursInInfix(whole: string, part: string, pat: string, i: nat, k: int)
    requires i + |part| <= |whole| && part == whole[i..i + |part|]
    requires i <= k && k + |pat| <= i + |part|
    requires OccursAt(whole, pat, k)
    ensures OccursAt(part, pat, k - i)
  {
    forall m | 0 <= m < |pat|
      ensures part[k - i + m] == pat[m]
    {
      assert part[k - i + m] == whole[k + m] == whole[k..k + |pat|][m];
    }
    assert part[k - i..k - i + |pat|] == pat;
  }

  // ---------------------------------------------------------------------------
  // Split and join
  // ---------------------------------------------------------------------------

  /** Python's s.join(parts): the parts with `sep` between neighbours. */
  function Join(parts: seq<string>, sep: string): string
    decreases |parts|
  {
    if parts == [] then ""
    else if |parts| == 1 then parts[0]
    else parts[0] + sep + Join(parts[1..], sep)
  }

  /** Two parts are joined by one separator. */
  lemma JoinTwo(a: string, b: string, sep: string)
    ensures Join([a, b], sep) == a + sep + b
  {
    assert [a, b][1..] == [b];
  }

  /** Concatenation regroups freely. */
  lemma Regroup(a: string, b: string, c: string, d: string)
    ensures a + (b + c + d) == a + b + c + d
  {
  }

  /** A non-empty join starts with its first part and ends with its last part. */
  lemma {:induction false} JoinEnds(parts: seq<string>, sep: string)
    requires parts != []
    ensures var j := Join(parts, sep);
      |parts[0]| <= |j| && j[..|parts[0]|] == parts[0]
      && |parts[|parts| - 1]| <= |j| && j[|j| - |parts[|parts| - 1]|..] == parts[|parts| - 1]
    decreases |parts|
  {
    if |parts| > 1 {
      JoinEnds(parts[1..], sep);
      var rest := Join(parts[1..], sep);
      var last := parts[|parts| - 1];
      assert parts[1..][|parts[1..]| - 1] == last;
      assert Join(parts, sep) == parts[0] + sep + rest;
      assert (parts[0] + sep + rest)[|parts[0] + sep + rest| - |last|..] == rest[|rest| - |last|..];
    }
  }

  /** Python's s.split(sep) for a one-character separator: the pieces between separators, empty ones included. */
  function Split(s: string, sep: char): (parts: seq<string>)
    ensures |parts| >= 1
    ensures forall k :: 0 <= k < |parts| ==> sep !in parts[k]
    ensures |parts| >= 2 <==> sep in s
    decreases |s|
  {
    if s == [] then [""]
    else
      var rest := Split(s[1..], sep);
      assert s == [s[0]] + s[1..];
      if s[0] == sep then
        var parts := [""] + rest;
        assert parts[1..] == rest;
        parts
      else
        var parts := [[s[0]] + rest[0]] + rest[1..];
        assert parts[1..] == rest[1..];
        assert forall k :: 1 <= k < |parts| ==> parts[k] == rest[k];
        parts
  }

  /** Joining the pieces of a split with the separator gives back the string. */
  lemma {:induction false} JoinSplit(s: string, sep: char)
    ensures Join(Split(s, sep), [sep]) == s
    decreases |s|
  {
    if s != [] {
      JoinSplit(s[1..], sep);
      var rest := Split(s[1..], sep);
      assert s == [s[0]] + s[1..];
      if s[0] == sep {
        assert Split(s, sep) == [""] + rest;
        assert ([""] + rest)[1..] == rest;
      } else {
        assert Split(s, sep) == [[s[0]] + rest[0]] + rest[1..];
        JoinGrowsHead([s[0]], rest, [sep]);
      }
    }
  }

  /** Prepending to the first part prepends to the join. */
  lemma JoinGrowsHead(x: string, parts: seq<string>, sep: string)
    requires parts != []
    ensures Join([x + parts[0]] + parts[1..], sep) == x + Join(parts, sep)
  {
    var grown := [x + parts[0]] + parts[1..];
    if |parts| > 1 {
      assert grown[1..] == parts[1..];
    }
  }

  /** The position of the first `c` in `s`, or |s| when there is none. */
  function IndexOf(s: string, c: char): (i: nat)
    ensures i <= |s|
    ensures forall k :: 0 <= k < i ==> s[k] != c
    ensures i < |s| <==> c in s
    ensures i < |s| ==> s[i] == c
    decreases |s|
  {
    if s == [] || s[0] == c then 0 else 1 + IndexOf(s[1..], c)
  }

  /**
   * The first piece of a split runs up to the first separator, and the remaining pieces
   * are the split of what follows that separator.
   */
  lemma {:induction false} SplitFirst(s: string, sep: char)
    ensures Split(s, sep)[0] == s[..IndexOf(s, sep)]
    ensures sep in s ==> Split(s, sep)[1..] == Split(s[IndexOf(s, sep) + 1..], sep)
  {
    SplitHead(s, sep);
    if sep in s {
      SplitTail(s, sep);
    }
  }

  /** The first piece of a split runs up to the first separator. */
  lemma {:induction false} SplitHead(s: string, sep: char)
    ensures Split(s, sep)[0] == s[..IndexOf(s, sep)]
    decreases |s|
  {
    if s != [] && s[0] != sep {
      SplitHead(s[1..], sep);
      var j, rest := IndexOf(s[1..], sep), Split(s[1..], sep);
      assert IndexOf(s, sep) == j + 1;
      assert Split(s, sep)[0] == [s[0]] + rest[0];
      assert [s[0]] + s[1..][..j] == s[..j + 1];
    }
  }

  /** After the first separator, the remaining pieces are the split of what follows it. */
  lemma {:induction false} SplitTail(s: string, sep: char)
    requires sep in s
    ensures Split(s, sep)[1..] == Split(s[IndexOf(s, sep) + 1..], sep)
    decreases |s|
  {
    if s[0] != sep {
      assert sep in s[1..];
      SplitTail(s[1..], sep);
      var j, rest := IndexOf(s[1..], sep), Split(s[1..], sep);
      assert IndexOf(s, sep) == j + 1;
      assert Split(s, sep)[1..] == rest[1..];
      assert s[1..][j + 1..] == s[j + 2..];
    }
  }

  /** The second piece of a split is the text after the first separator, up to the next separator or the end. */
  lemma SecondSegment(s: string, sep: char)
    requires sep in s
    ensures var i := IndexOf(s, sep);
      Split(s, sep)[1] == s[i + 1..][..IndexOf(s[i + 1..], sep)]
  {
    var i := IndexOf(s, sep);
    SplitFirst(s, sep);
    SplitFirst(s[i + 1..], sep);
    assert Split(s, sep)[1] == Split(s, sep)[1..][0];
  }

  /** The first separator of a string that starts with a separator-free head ends that head. */
  lemma {:induction false} IndexOfAfterHead(a: string, x: string, sep: char)
    requires sep !in a
    ensures IndexOf(a + [sep] + x, sep) == |a|
    decreases |a|
  {
    if a != [] {
      assert (a + [sep] + x)[1..] == a[1..] + [sep] + x;
      IndexOfAfterHead(a[1..], x, sep);
    }
  }

  /** A separator that occurs in neither head splits the two joined strings the same way. */
  lemma SeparatorSplits(a: string, x: string, b: string, y: string, sep: char)
    requires a + [sep] + x == b + [sep] + y
    requires sep !in a && sep !in b
    ensures a == b && x == y
  {
    var s := a + [sep] + x;
    IndexOfAfterHead(a, x, sep);
    IndexOfAfterHead(b, y, sep);
    assert a == s[..|a|] == b;
    assert x == s[|a| + 1..] == y;
  }

  // ---------------------------------------------------------------------------
  // Decimal numbers
  // ---------------------------------------------------------------------------

  predicate IsDigit(c: char) {
    '0' <= c <= '9'
  }

  /** The decimal rendering of `n` (JavaScript's `${n}` for a non-negative integer). */
  function Decimal(n: nat): (r: string)
    ensures r != []
    ensures forall k :: 0 <= k < |r| ==> IsDigit(r[k])
  {
    if n < 10 then [('0' as int + n) as char]
    else Decimal(n / 10) + [('0' as int + n % 10) as char]
  }

  /** The number a string of decimal digits denotes. */
  function DigitsValue(s: string): nat
    requires forall k :: 0 <= k < |s| ==> IsDigit(s[k])
  {
    if s == [] then 0
    else
      assert IsDigit(s[|s| - 1]);
      10 * DigitsValue(s[..|s| - 1]) + (s[|s| - 1] as int - '0' as int)
  }

  /** Reading back the decimal rendering gives the number. */
  lemma {:induction false} DecimalRoundTrip(n: nat)
    ensures DigitsValue(Decimal(n)) == n
  {
    if n >= 10 {
      DecimalRoundTrip(n / 10);
      var d := Decimal(n);
      assert d[..|d| - 1] == Decimal(n / 10);
    }
  }

  /** Different numbers have different decimal renderings. */
  lemma DecimalInjective(m: nat, n: nat)
    requires Decimal(m) == Decimal(n)
    ensures m == n
  {
    DecimalRoundTrip(m);
    DecimalRoundTrip(n);
  }
}

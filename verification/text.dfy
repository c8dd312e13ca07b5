/**
 * The JavaScript string primitives the application relies on, over strings
 * of code points: the `\s` class and `trim()`, `toLowerCase()` restricted to
 * ASCII, `includes`, `startsWith`/`endsWith`, `split` on one character and
 * its inverse `join`, and the UTF-16 code-unit order used by `sort()`.
 */
module Text {

  type String = seq<char>

  /** JavaScript's WhiteSpace and LineTerminator code points: what `\s` matches and `trim()` removes. */
  const SpaceChars: seq<char> := [
    ' ', '\t', '\n', '\r', '\U{000B}', '\U{000C}', '\U{00A0}', '\U{1680}',
    '\U{2000}', '\U{2001}', '\U{2002}', '\U{2003}', '\U{2004}', '\U{2005}',
    '\U{2006}', '\U{2007}', '\U{2008}', '\U{2009}', '\U{200A}',
    '\U{2028}', '\U{2029}', '\U{202F}', '\U{205F}', '\U{3000}', '\U{FEFF}'
  ]

  /** `c` occurs in `table` at position `i` or later. */
  predicate InFrom(c: char, table: seq<char>, i: nat)
    decreases |table| - i
  {
    i < |table| && (c == table[i] || InFrom(c, table, i + 1))
  }

  predicate IsSpace(c: char) {
    InFrom(c, SpaceChars, 0)
  }

  lemma {:induction false} InFromIff(c: char, table: seq<char>, i: nat)
    requires i <= |table|
    ensures InFrom(c, table, i) <==> c in table[i..]
    decreases |table| - i
  {
    if i < |table| {
      InFromIff(c, table, i + 1);
      assert table[i..] == [table[i]] + table[i + 1..];
    }
  }

  /** The white-space test is membership in the table. */
  lemma {:induction false} SpaceIff(c: char)
    ensures IsSpace(c) <==> c in SpaceChars
  {
    InFromIff(c, SpaceChars, 0);
    assert SpaceChars[0..] == SpaceChars;
  }

  /** No visible ASCII character is white space. */
  lemma {:induction false} VisibleNotSpace(c: char)
    requires '!' <= c <= '~'
    ensures !IsSpace(c)
  {
    SpaceIff(c);
  }

  /** The characters a regular-expression `.` does not match. */
  predicate IsLineTerminator(c: char) {
    c == '\n' || c == '\r' || c == '\U{2028}' || c == '\U{2029}'
  }

  predicate IsBlank(s: String) {
    forall i :: 0 <= i < |s| ==> IsSpace(s[i])
  }

  /** `trimStart()`: drops the leading white space and nothing else. */
  function TrimStart(s: String): (r: String)
    ensures |r| <= |s| && r == s[|s| - |r|..]
    ensures r == [] || !IsSpace(r[0])
    ensures IsBlank(s[..|s| - |r|])
  {
    if |s| > 0 && IsSpace(s[0]) then TrimStart(s[1..]) else s
  }

  /** `trimEnd()`: drops the trailing white space and nothing else. */
  function TrimEnd(s: String): (r: String)
    ensures |r| <= |s| && r == s[..|r|]
    ensures r == [] || !IsSpace(r[|r| - 1])
    ensures IsBlank(s[|r|..])
  {
    if |s| > 0 && IsSpace(s[|s| - 1]) then
      var r := TrimEnd(s[..|s| - 1]);
      assert s[|r|..] == s[..|s| - 1][|r|..] + [s[|s| - 1]];
      r
    else
      s
  }

  /** Slicing a suffix again is slicing the whole. */
  lemma {:induction false} SliceOfSuffix(s: String, a: nat, b: nat)
    requires a + b <= |s|
    ensures s[a..][..b] == s[a..a + b] && s[a..][b..] == s[a + b..]
  {
  }

  /** Slicing a slice is slicing the whole. */
  lemma {:induction false} SliceOfSlice(s: String, p: nat, q: nat, a: nat, b: nat)
    requires p <= q <= |s| && a <= b <= q - p
    ensures s[p..q][a..b] == s[p + a..p + b]
  {
    assert |s[p..q][a..b]| == b - a;
    forall i | 0 <= i < b - a ensures s[p..q][a..b][i] == s[p + a + i] {
    }
  }

  /** Regrouping a concatenation of four strings. */
  lemma {:induction false} ConcatAssoc(a: String, b: String, c: String, d: String)
    ensures a + b + c + d == a + (b + c + d)
  {
  }

  /** A string is its prefix followed by the rest. */
  lemma {:induction false} SplitAt(u: String, a: nat)
    requires a <= |u|
    ensures u == u[..a] + u[a..]
  {
  }

  /** A string is its head, its middle and its tail. */
  lemma {:induction false} Infix(u: String, a: nat, b: nat)
    requires a + b <= |u|
    ensures u == u[..a] + u[a..|u| - b] + u[|u| - b..]
  {
  }

  /** Trailing white space disappears under `trimEnd()` once a non-space character is reached. */
  lemma {:induction false} TrimEndBlankSuffix(a: String, w: String)
    requires IsBlank(w)
    requires a == [] || !IsSpace(a[|a| - 1])
    ensures TrimEnd(a + w) == a
    decreases |w|
  {
    if w != [] {
      assert (a + w)[..|a + w| - 1] == a + w[..|w| - 1];
      TrimEndBlankSuffix(a, w[..|w| - 1]);
    } else {
      assert a + w == a;
    }
  }

  /** Leading white space disappears under `trimStart()` up to the first non-space character. */
  lemma {:induction false} TrimStartBlankPrefix(w: String, a: String)
    requires IsBlank(w)
    requires a == [] || !IsSpace(a[0])
    ensures TrimStart(w + a) == a
    decreases |w|
  {
    if w != [] {
      assert (w + a)[1..] == w[1..] + a;
      TrimStartBlankPrefix(w[1..], a);
    } else {
      assert w + a == a;
    }
  }

  /** `trim()`: white space removed from both ends. */
  function Trim(s: String): (r: String)
    ensures r == [] || (!IsSpace(r[0]) && !IsSpace(r[|r| - 1]))
  {
    var t := TrimStart(s);
    var r := TrimEnd(t);
    assert r != [] ==> r[0] == t[0];
    r
  }

  /** What `trim()` keeps is an infix of the string with nothing but white space around it. */
  lemma {:induction false} TrimInfix(s: String) returns (lo: nat, hi: nat)
    ensures lo <= hi <= |s| && Trim(s) == s[lo..hi]
    ensures IsBlank(s[..lo]) && IsBlank(s[hi..])
  {
    var t := TrimStart(s);
    var r := TrimEnd(t);
    assert Trim(s) == r;
    lo, hi := |s| - |t|, |s| - |t| + |r|;
    assert t == s[lo..] && IsBlank(s[..lo]);
    assert r == t[..|r|] && IsBlank(t[|r|..]);
    SliceOfSuffix(s, lo, |r|);
  }

  /** A string is blank exactly when both of its halves are. */
  lemma {:induction false} BlankConcat(a: String, b: String)
    ensures IsBlank(a + b) <==> IsBlank(a) && IsBlank(b)
  {
    if IsBlank(a + b) {
      forall i | 0 <= i < |a| ensures IsSpace(a[i]) {
        assert (a + b)[i] == a[i];
      }
      forall i | 0 <= i < |b| ensures IsSpace(b[i]) {
        assert (a + b)[|a| + i] == b[i];
      }
    }
    if IsBlank(a) && IsBlank(b) {
      forall i | 0 <= i < |a + b| ensures IsSpace((a + b)[i]) {
        if i < |a| {
          assert (a + b)[i] == a[i];
        } else {
          assert (a + b)[i] == b[i - |a|];
        }
      }
    }
  }

  /** What trims to nothing is all white space. */
  lemma {:induction false} TrimmedAway(s: String)
    requires Trim(s) == []
    ensures IsBlank(s)
  {
    var t := TrimStart(s);
    var lo := |s| - |t|;
    assert TrimEnd(t) == [];
    assert IsBlank(t) by {
      assert t[|TrimEnd(t)|..] == t;
    }
    assert s == s[..lo] + t;
    BlankConcat(s[..lo], t);
  }

  /** White space trims to nothing. */
  lemma {:induction false} BlankTrimsAway(s: String)
    requires IsBlank(s)
    ensures Trim(s) == []
  {
    var t := TrimStart(s);
    assert t == s[|s| - |t|..];
    assert IsBlank(t);
    assert [] + t == t;
    TrimEndBlankSuffix([], t);
  }

  /** A string trims to nothing exactly when it is all white space; this is JavaScript's `!s.trim()`. */
  lemma {:induction false} TrimEmptyIffBlank(s: String)
    ensures Trim(s) == [] <==> IsBlank(s)
  {
    if Trim(s) == [] {
      TrimmedAway(s);
    }
    if IsBlank(s) {
      BlankTrimsAway(s);
    }
  }

  /** A string that does not start and end with white space is its own trim. */
  lemma {:induction false} TrimFixed(s: String)
    requires s == [] || (!IsSpace(s[0]) && !IsSpace(s[|s| - 1]))
    ensures Trim(s) == s
  {
    assert TrimStart(s) == s;
  }

  /** What `\d` matches: the ASCII digits. */
  predicate IsDigit(c: char) {
    '0' <= c <= '9'
  }

  predicate AllDigits(s: String) {
    forall i :: 0 <= i < |s| ==> IsDigit(s[i])
  }

  /** The length of the run of digits `s` starts with, as a greedy `\d+` or `\d*` consumes it. */
  function DigitRun(s: String): (n: nat)
    ensures n <= |s| && AllDigits(s[..n])
    ensures n == |s| || !IsDigit(s[n])
  {
    if |s| > 0 && IsDigit(s[0]) then
      var n := 1 + DigitRun(s[1..]);
      assert s[..n] == [s[0]] + s[1..][..n - 1];
      n
    else
      0
  }

  /** A run of `n` digits followed by a non-digit is the digit run. */
  lemma {:induction false} DigitRunAt(s: String, n: nat)
    requires n < |s| && AllDigits(s[..n]) && !IsDigit(s[n])
    ensures DigitRun(s) == n
  {
    var m := DigitRun(s);
    assert forall i :: 0 <= i < n ==> IsDigit(s[i]) by {
      forall i | 0 <= i < n ensures IsDigit(s[i]) { assert s[..n][i] == s[i]; }
    }
    assert forall i :: 0 <= i < m ==> IsDigit(s[i]) by {
      forall i | 0 <= i < m ensures IsDigit(s[i]) { assert s[..m][i] == s[i]; }
    }
  }

  function LowerChar(c: char): char {
    if 'A' <= c <= 'Z' then (c as int - 'A' as int + 'a' as int) as char else c
  }

  /** `toLowerCase()` on ASCII letters; every other code point is left as it is. */
  function Lower(s: String): (r: String)
    ensures |r| == |s|
    ensures forall i :: 0 <= i < |s| ==> r[i] == LowerChar(s[i])
  {
    seq(|s|, i requires 0 <= i < |s| => LowerChar(s[i]))
  }

  lemma {:induction false} LowerIdempotent(s: String)
    ensures Lower(Lower(s)) == Lower(s)
  {
  }

  predicate StartsWith(s: String, prefix: String) {
    |prefix| <= |s| && s[..|prefix|] == prefix
  }

  predicate EndsWith(s: String, suffix: String) {
    |suffix| <= |s| && s[|s| - |suffix|..] == suffix
  }

  /** `sub` occurs in `s` starting at index `i`. */
  predicate OccursAt(s: String, sub: String, i: int) {
    0 <= i && i + |sub| <= |s| && s[i..i + |sub|] == sub
  }

  /** `s.includes(sub)`, computed by scanning. */
  function Contains(s: String, sub: String): (r: bool)
    ensures r <==> exists i :: OccursAt(s, sub, i)
  {
    if StartsWith(s, sub) then
      assert OccursAt(s, sub, 0);
      true
    else if |s| == 0 then
      false
    else
      var r := Contains(s[1..], sub);
      assert forall i :: OccursAt(s[1..], sub, i) ==> OccursAt(s, sub, i + 1) by {
        forall i | OccursAt(s[1..], sub, i) ensures OccursAt(s, sub, i + 1) {
          assert s[1..][i..i + |sub|] == s[i + 1..i + 1 + |sub|];
        }
      }
      assert forall i :: OccursAt(s, sub, i) ==> i >= 1 && OccursAt(s[1..], sub, i - 1) by {
        forall i | OccursAt(s, sub, i) ensures i >= 1 && OccursAt(s[1..], sub, i - 1) {
          assert i != 0;
          assert s[1..][i - 1..i - 1 + |sub|] == s[i..i + |sub|];
        }
      }
      r
  }

  /** The empty string occurs in every string, so an empty search matches everything. */
  lemma {:induction false} ContainsEmpty(s: String)
    ensures Contains(s, [])
  {
    assert OccursAt(s, [], 0);
  }

  /** Searching for a one-character string is testing membership of that character. */
  lemma {:induction false} ContainsChar(s: String, c: char)
    ensures Contains(s, [c]) <==> c in s
  {
    if c in s {
      var i :| 0 <= i < |s| && s[i] == c;
      assert OccursAt(s, [c], i);
    }
    if Contains(s, [c]) {
      var i :| OccursAt(s, [c], i);
      assert s[i..i + 1][0] == s[i];
    }
  }

  /** `s.split(sep)` for a one-character separator: the pieces between the separators, at least one. */
  function Split(s: String, sep: char): (parts: seq<String>)
    ensures |parts| >= 1
    decreases |s|
  {
    if s == [] then [[]]
    else
      var rest := Split(s[1..], sep);
      if s[0] == sep then [[]] + rest
      else [[s[0]] + rest[0]] + rest[1..]
  }

  /** `parts.join(sep)` for a one-character separator. */
  function Join(parts: seq<String>, sep: char): String {
    if |parts| == 0 then []
    else if |parts| == 1 then parts[0]
    else parts[0] + [sep] + Join(parts[1..], sep)
  }

  /** Splitting loses nothing: joining the pieces back gives the string. */
  lemma {:induction false} JoinSplit(s: String, sep: char)
    ensures Join(Split(s, sep), sep) == s
    decreases |s|
  {
    if s != [] {
      var rest := Split(s[1..], sep);
      JoinSplit(s[1..], sep);
      if s[0] == sep {
        assert ([[]] + rest)[1..] == rest;
      } else if |rest| > 1 {
        assert ([[s[0]] + rest[0]] + rest[1..])[1..] == rest[1..];
      }
      assert s == [s[0]] + s[1..];
    }
  }

  /** There is one more piece than there are separators. */
  lemma {:induction false} SplitCount(s: String, sep: char)
    ensures |Split(s, sep)| == multiset(s)[sep] + 1
    decreases |s|
  {
    if s != [] {
      SplitCount(s[1..], sep);
      assert s == [s[0]] + s[1..];
      assert multiset(s) == multiset{s[0]} + multiset(s[1..]);
    }
  }

  /** Splitting a string one character longer at the front. */
  lemma {:induction false} SplitCons(c: char, t: String, sep: char)
    ensures Split([c] + t, sep) ==
      if c == sep then [[]] + Split(t, sep) else [[c] + Split(t, sep)[0]] + Split(t, sep)[1..]
  {
    assert ([c] + t)[0] == c && ([c] + t)[1..] == t;
  }

  /** A non-empty string is its first character followed by the rest. */
  lemma {:induction false} HeadTail(a: String, t: String)
    requires a != []
    ensures a + t == [a[0]] + (a[1..] + t)
  {
  }

  /** One step of `SplitPrefix`: a separator-free first character joins the first piece. */
  lemma {:induction false} SplitPrefixStep(a: String, t: String, sep: char)
    requires a != [] && a[0] != sep
    requires Split(a[1..] + t, sep) == [a[1..] + Split(t, sep)[0]] + Split(t, sep)[1..]
    ensures Split(a + t, sep) == [a + Split(t, sep)[0]] + Split(t, sep)[1..]
  {
    var parts := Split(t, sep);
    HeadTail(a, t);
    SplitCons(a[0], a[1..] + t, sep);
    HeadTail(a, parts[0]);
  }

  /** Splitting a string that starts with a separator-free piece. */
  lemma {:induction false} SplitPrefix(a: String, t: String, sep: char)
    requires sep !in a
    ensures Split(a + t, sep) == [a + Split(t, sep)[0]] + Split(t, sep)[1..]
    decreases |a|
  {
    if a != [] {
      assert a[0] in a;
      SplitPrefix(a[1..], t, sep);
      SplitPrefixStep(a, t, sep);
    } else {
      var parts := Split(t, sep);
      assert a + t == t;
      assert a + parts[0] == parts[0];
      assert parts == [parts[0]] + parts[1..];
    }
  }

  /** Joining separator-free pieces and splitting again gives the pieces back. */
  lemma {:induction false} SplitJoin(parts: seq<String>, sep: char)
    requires |parts| >= 1
    requires forall k :: 0 <= k < |parts| ==> sep !in parts[k]
    ensures Split(Join(parts, sep), sep) == parts
  {
    if |parts| == 1 {
      SplitPrefix(parts[0], [], sep);
      assert parts[0] + [] == parts[0];
    } else {
      var rest := Join(parts[1..], sep);
      SplitJoin(parts[1..], sep);
      SplitPrefix(parts[0], [sep] + rest, sep);
      assert parts[0] + [sep] + rest == parts[0] + ([sep] + rest);
      assert ([sep] + rest)[1..] == rest;
      assert parts[0] + [] == parts[0];
      assert parts == [parts[0]] + parts[1..];
    }
  }

  /**
   * Where a code point falls in UTF-16 code-unit order. Characters up to U+D7FF
   * are one unit below the surrogates, characters from U+10000 on start with a
   * surrogate, and U+E000 to U+FFFF are one unit above the surrogates, so they
   * sort after every character outside the Basic Multilingual Plane.
   */
  function UnitRank(c: char): (r: int)
    ensures c as int < 0xD800 ==> r == c as int
    ensures 0xD800 <= c as int < 0x10000 ==> r > 0x10FFFF
    ensures 0x10000 <= c as int ==> 0xD800 <= r <= 0x10FFFF
  {
    if c as int < 0xD800 || 0x10000 <= c as int then c as int else c as int + 0x110000
  }

  /**
   * Strict code-unit order on strings, as JavaScript's `<` and `sort()` compare
   * them: at the first code point where the strings differ, their UTF-16
   * encodings first differ too, and in the order `UnitRank` gives.
   */
  predicate Less(a: String, b: String) {
    if |a| == 0 then |b| > 0
    else if |b| == 0 then false
    else if a[0] == b[0] then Less(a[1..], b[1..])
    else UnitRank(a[0]) < UnitRank(b[0])
  }

  /** An astral character sorts before U+FFFD, although its code point is larger. */
  lemma AstralBeforeReplacementChar()
    ensures Less("\U{1F600}", "\U{FFFD}") && '\U{1F600}' > '\U{FFFD}'
  {
  }

  lemma {:induction false} LessIrreflexive(a: String)
    ensures !Less(a, a)
  {
    if |a| > 0 {
      LessIrreflexive(a[1..]);
    }
  }

  lemma {:induction false} LessTransitive(a: String, b: String, c: String)
    requires Less(a, b) && Less(b, c)
    ensures Less(a, c)
  {
    if |a| > 0 && a[0] == b[0] && b[0] == c[0] {
      LessTransitive(a[1..], b[1..], c[1..]);
    }
  }

  lemma {:induction false} LessTotal(a: String, b: String)
    requires a != b
    ensures Less(a, b) || Less(b, a)
  {
    if |a| > 0 && |b| > 0 && a[0] == b[0] {
      assert a[1..] != b[1..] by {
        assert a == [a[0]] + a[1..] && b == [b[0]] + b[1..];
      }
      LessTotal(a[1..], b[1..]);
    }
  }

  lemma {:induction false} LessAsymmetric(a: String, b: String)
    requires Less(a, b)
    ensures !Less(b, a)
  {
    if |a| > 0 && |b| > 0 && a[0] == b[0] {
      LessAsymmetric(a[1..], b[1..]);
    }
  }

  /** A common prefix does not change how two strings compare. */
  lemma {:induction false} LessCommonPrefix(p: String, a: String, b: String)
    ensures Less(p + a, p + b) <==> Less(a, b)
  {
    if |p| > 0 {
      assert (p + a)[0] == p[0] == (p + b)[0];
      assert (p + a)[1..] == p[1..] + a;
      assert (p + b)[1..] == p[1..] + b;
      assert Less(p + a, p + b) == Less(p[1..] + a, p[1..] + b);
      LessCommonPrefix(p[1..], a, b);
    } else {
      assert p + a == a && p + b == b;
    }
  }
}

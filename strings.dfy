/**
 * The handful of Python string operations the core relies on, as total
 * functions on `seq<char>`: `str.startswith`, `in` (substring), `lower`,
 * `str.split(sep)`, `sep.join`, `str.split()`, decimal formatting of an
 * integer, and the code-point order that paths are sorted by.
 */
module Strings {

  // ---------------------------------------------------------------------------
  // Prefixes, substrings, case

  /** `s.startswith(p)` */
  predicate StartsWith(s: string, p: string)
  {
    |p| <= |s| && s[..|p|] == p
  }

  /** `p` is a prefix of `s` and strictly shorter. */
  predicate IsStrictPrefix(p: string, s: string)
  {
    |p| < |s| && s[..|p|] == p
  }

  /** `needle in hay`: `needle` occurs somewhere in `hay` as a contiguous substring. */
  predicate Contains(hay: string, needle: string)
    decreases |hay|
  {
    StartsWith(hay, needle) || (hay != [] && Contains(hay[1..], needle))
  }

  /** `needle` occurs in `hay` exactly when some window of `hay` equals it. */
  lemma {:induction false} ContainsAt(hay: string, needle: string, k: nat)
    requires k + |needle| <= |hay| && hay[k..k + |needle|] == needle
    ensures Contains(hay, needle)
    decreases k
  {
    if k > 0 {
      assert hay[1..][k - 1..k - 1 + |needle|] == needle;
      ContainsAt(hay[1..], needle, k - 1);
    }
  }

  function LowerChar(c: char): char
  {
    if 'A' <= c <= 'Z' then (c as int - 'A' as int + 'a' as int) as char else c
  }

  /** `s.lower()` for the ASCII letters. */
  function Lower(s: string): (r: string)
    ensures |r| == |s|
    ensures forall i :: 0 <= i < |s| ==> r[i] == LowerChar(s[i])
  {
    seq(|s|, i requires 0 <= i < |s| => LowerChar(s[i]))
  }

  /** The case-insensitive substring test of a `__icontains` lookup. */
  predicate IContains(hay: string, needle: string)
  {
    Contains(Lower(hay), Lower(needle))
  }

  // ---------------------------------------------------------------------------
  // str.split(sep) and sep.join(parts)

  function Count(c: char, s: string): nat
  {
    if s == [] then 0 else (if s[0] == c then 1 else 0) + Count(c, s[1..])
  }

  /** Counting distributes over concatenation. */
  lemma {:induction false} CountAppend(c: char, a: string, b: string)
    ensures Count(c, a + b) == Count(c, a) + Count(c, b)
  {
    if a == [] {
      assert a + b == b;
    } else {
      CountAppend(c, a[1..], b);
      assert (a + b)[1..] == a[1..] + b;
    }
  }

  lemma {:induction false} CountAbsent(c: char, s: string)
    requires c !in s
    ensures Count(c, s) == 0
  {
    if s != [] {
      CountAbsent(c, s[1..]);
    }
  }

  /** `s.split(c)` for a one-character separator: never empty, the pieces may be. */
  function SplitOn(s: string, c: char): (parts: seq<string>)
    ensures |parts| == Count(c, s) + 1
    ensures forall p <- parts :: c !in p
  {
    if s == [] then [[]]
    else
      var rest := SplitOn(s[1..], c);
      if s[0] == c then [[]] + rest
      else [[s[0]] + rest[0]] + rest[1..]
  }

  /** `sep.join(parts)` */
  function Join(parts: seq<string>, sep: string): string
  {
    if |parts| == 0 then []
    else if |parts| == 1 then parts[0]
    else parts[0] + sep + Join(parts[1..], sep)
  }

  /** Joining the pieces of a split with the same separator gives back the string. */
  lemma {:induction false} JoinSplit(s: string, c: char)
    ensures Join(SplitOn(s, c), [c]) == s
  {
    if s != [] {
      var rest := SplitOn(s[1..], c);
      JoinSplit(s[1..], c);
      if s[0] == c {
        assert SplitOn(s, c) == [[]] + rest;
        assert ([[]] + rest)[1..] == rest;
      } else if |rest| == 1 {
        assert SplitOn(s, c) == [[s[0]] + rest[0]];
      } else {
        var parts := SplitOn(s, c);
        assert parts == [[s[0]] + rest[0]] + rest[1..];
        assert parts[1..] == rest[1..];
        assert Join(rest, [c]) == rest[0] + [c] + Join(rest[1..], [c]);
      }
    }
  }

  lemma {:induction false} SplitPrefix(w: string, t: string, c: char)
    requires c !in w
    ensures SplitOn(w + t, c) == [w + SplitOn(t, c)[0]] + SplitOn(t, c)[1..]
  {
    if w != [] {
      SplitPrefix(w[1..], t, c);
      assert (w + t)[1..] == w[1..] + t;
      assert [w[0]] + (w[1..] + SplitOn(t, c)[0]) == w + SplitOn(t, c)[0];
    } else {
      assert w + t == t;
      assert w + SplitOn(t, c)[0] == SplitOn(t, c)[0];
      assert SplitOn(t, c) == [SplitOn(t, c)[0]] + SplitOn(t, c)[1..];
    }
  }

  /** Splitting a join of separator-free pieces gives back the pieces. */
  lemma {:induction false} SplitJoin(parts: seq<string>, c: char)
    requires |parts| >= 1
    requires forall p <- parts :: c !in p
    ensures SplitOn(Join(parts, [c]), c) == parts
  {
    if |parts| == 1 {
      SplitPrefix(parts[0], [], c);
      assert parts[0] + [] == parts[0];
    } else {
      var t := Join(parts[1..], [c]);
      SplitJoin(parts[1..], c);
      SplitPrefix(parts[0], [c] + t, c);
      assert parts[0] + [c] + t == parts[0] + ([c] + t);
      assert ([c] + t)[1..] == t;
      var s := SplitOn([c] + t, c);
      assert s == [[]] + parts[1..];
      assert s[0] == [] && s[1..] == parts[1..];
      assert parts[0] + s[0] == parts[0];
      assert [parts[0]] + parts[1..] == parts;
    }
  }

  /** `s.split(c)[-1]`: the text after the last separator. */
  function LastSegment(s: string, c: char): (r: string)
    ensures c !in r
  {
    var parts := SplitOn(s, c);
    parts[|parts| - 1]
  }

  // ---------------------------------------------------------------------------
  // Decimal formatting of a natural number, as an f-string renders it

  function Digit(d: nat): (ch: char)
    requires d < 10
    ensures '0' <= ch <= '9'
  {
    ('0' as int + d) as char
  }

  function NatToString(n: nat): (r: string)
    ensures |r| >= 1
    ensures forall ch <- r :: '0' <= ch <= '9'
    ensures n < 10 <==> |r| == 1
  {
    if n < 10 then [Digit(n)] else NatToString(n / 10) + [Digit(n % 10)]
  }

  /** Distinct numbers print differently. */
  lemma {:induction false} NatToStringInjective(a: nat, b: nat)
    requires NatToString(a) == NatToString(b)
    ensures a == b
  {
    if a >= 10 && b >= 10 {
      var sa, sb := NatToString(a), NatToString(b);
      assert sa[|sa| - 1] == Digit(a % 10) && sb[|sb| - 1] == Digit(b % 10);
      assert sa[..|sa| - 1] == NatToString(a / 10);
      assert sb[..|sb| - 1] == NatToString(b / 10);
      NatToStringInjective(a / 10, b / 10);
    }
  }

  // ---------------------------------------------------------------------------
  // Code-point (lexicographic) order on strings, the order of `order_by("path")`

  predicate LexLess(a: string, b: string)
    decreases |a|
  {
    if a == [] then b != []
    else if b == [] then false
    else a[0] < b[0] || (a[0] == b[0] && LexLess(a[1..], b[1..]))
  }

  predicate LexLeq(a: string, b: string)
  {
    a == b || LexLess(a, b)
  }

  lemma {:induction false} LexLessIrreflexive(a: string)
    ensures !LexLess(a, a)
  {
    if a != [] { LexLessIrreflexive(a[1..]); }
  }

  lemma {:induction false} LexLessTransitive(a: string, b: string, c: string)
    requires LexLess(a, b) && LexLess(b, c)
    ensures LexLess(a, c)
    decreases |a|
  {
    if a != [] && a[0] == b[0] && b[0] == c[0] {
      LexLessTransitive(a[1..], b[1..], c[1..]);
    }
  }

  lemma {:induction false} LexLessTotal(a: string, b: string)
    requires a != b
    ensures LexLess(a, b) || LexLess(b, a)
    decreases |a|
  {
    if a != [] && b != [] && a[0] == b[0] {
      assert a == [a[0]] + a[1..] && b == [b[0]] + b[1..];
      LexLessTotal(a[1..], b[1..]);
    }
  }

  lemma LexLessAsymmetric(a: string, b: string)
    requires LexLess(a, b)
    ensures !LexLess(b, a)
  {
    if LexLess(b, a) {
      LexLessTransitive(a, b, a);
      LexLessIrreflexive(a);
    }
  }

  /** A proper prefix sorts first: an ancestor's path precedes its descendants'. */
  lemma {:induction false} StrictPrefixLexLess(p: string, s: string)
    requires IsStrictPrefix(p, s)
    ensures LexLess(p, s)
    decreases |p|
  {
    if p != [] {
      assert s[1..][..|p| - 1] == p[1..];
      StrictPrefixLexLess(p[1..], s[1..]);
    }
  }

  // ---------------------------------------------------------------------------
  // Character classes and str.split() on whitespace

  /** The characters `str.split()` splits on (the ASCII and Latin-1 whitespace). */
  predicate IsSpace(c: char)
  {
    c in {' ', '\t', '\n', '\r', '\U{000B}', '\U{000C}', '\U{001C}', '\U{001D}', '\U{001E}', '\U{001F}', '\U{0085}', '\U{00A0}'}
  }

  /** The punctuation and symbols that the regular expression class `\w` excludes. */
  predicate IsPunctuation(c: char)
  {
    || ('!' <= c <= '/')
    || (':' <= c <= '@')
    || ('[' <= c <= '^')
    || c == '`'
    || ('{' <= c <= '~')
    || c in {'\U{00B7}', '\U{0387}', '\U{037E}', '\U{2010}', '\U{2013}', '\U{2014}', '\U{2018}', '\U{2019}', '\U{201C}', '\U{201D}', '\U{2020}', '\U{2026}'}
  }

  /** A character matched by `\w`. */
  predicate IsWordChar(c: char)
  {
    !IsSpace(c) && !IsPunctuation(c) && c >= ' '
  }

  predicate NoSpace(s: string)
  {
    forall i :: 0 <= i < |s| ==> !IsSpace(s[i])
  }

  /** The longest prefix of `s` without whitespace. */
  function TakeWord(s: string): (w: string)
    ensures |w| <= |s| && s[..|w|] == w && NoSpace(w)
    ensures |w| < |s| ==> IsSpace(s[|w|])
  {
    if s == [] || IsSpace(s[0]) then [] else [s[0]] + TakeWord(s[1..])
  }

  /** `s.split()`: the maximal runs of non-whitespace characters, in order. */
  function Pieces(s: string): (ps: seq<string>)
    ensures forall p <- ps :: p != [] && NoSpace(p)
    ensures |ps| <= |s|
    decreases |s|
  {
    if s == [] then []
    else if IsSpace(s[0]) then Pieces(s[1..])
    else
      var w := TakeWord(s);
      [w] + Pieces(s[|w|..])
  }

  lemma {:induction false} TakeWordOf(w: string, t: string)
    requires NoSpace(w)
    requires t == [] || IsSpace(t[0])
    ensures TakeWord(w + t) == w
  {
    if w != [] {
      assert (w + t)[1..] == w[1..] + t;
      TakeWordOf(w[1..], t);
    } else {
      assert w + t == t;
    }
  }

  /** Whitespace before the first piece is skipped, so leading and repeated whitespace separate nothing. */
  lemma PiecesSkipSpace(c: char, s: string)
    requires IsSpace(c)
    ensures Pieces([c] + s) == Pieces(s)
  {
    assert ([c] + s)[1..] == s;
  }

  /** A maximal whitespace-free run is one piece, followed by the pieces of the rest. */
  lemma PiecesOfRun(w: string, t: string)
    requires w != [] && NoSpace(w)
    requires t == [] || IsSpace(t[0])
    ensures Pieces(w + t) == [w] + Pieces(t)
  {
    TakeWordOf(w, t);
    assert (w + t)[0] == w[0];
    assert (w + t)[|w|..] == t;
  }

  /** Splitting on whitespace undoes joining non-empty, space-free pieces with single spaces. */
  lemma {:induction false} PiecesOfJoin(ps: seq<string>)
    requires forall p <- ps :: p != [] && NoSpace(p)
    ensures Pieces(Join(ps, " ")) == ps
  {
    if |ps| == 1 {
      TakeWordOf(ps[0], []);
      assert ps[0] + [] == ps[0];
      assert ps[0][|ps[0]|..] == [];
    } else if |ps| > 1 {
      var rest := Join(ps[1..], " ");
      var s := ps[0] + " " + rest;
      assert s == ps[0] + (" " + rest);
      TakeWordOf(ps[0], " " + rest);
      assert s[|ps[0]|..] == " " + rest;
      assert (" " + rest)[1..] == rest;
      assert forall p <- ps[1..] :: p in ps;
      PiecesOfJoin(ps[1..]);
      assert Pieces(s) == [ps[0]] + Pieces(" " + rest);
      assert Pieces(" " + rest) == Pieces(rest);
    }
  }
}

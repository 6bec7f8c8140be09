/**
 * Tokenization of one text part (`Token.get_word_value`, `Token.tokenize`).
 *
 * The content is split on whitespace; each piece gets its word value (the
 * piece without non-word characters), a 1-based position, a `ve_ref`, an idx
 * taken from a counter the caller threads through, and a CTS subreference
 * `word[n]`. The `n` is NOT the number of earlier equal words: it is how often
 * the word value has occurred, as a contiguous substring and overlaps
 * included, in the word values of this and every earlier piece of the part.
 */
module Tokens {
  import opened Common
  import opened Strings
  import opened NodeTree

  datatype Token = Token(
    textPart: Node,
    value: string,
    wordValue: string,
    subrefValue: string,
    position: nat,
    idx: int,
    veRef: string)

  // ---------------------------------------------------------------------------
  // Word values

  /** `re.sub(r"[^\w]", "", value)`: the word characters of the piece, in order. */
  function WordValue(value: string): (w: string)
    ensures forall c <- w :: IsWordChar(c)
    ensures |w| <= |value|
  {
    if value == [] then []
    else (if IsWordChar(value[0]) then [value[0]] else []) + WordValue(value[1..])
  }

  /** Stripping distributes over concatenation. */
  lemma {:induction false} WordValueAppend(a: string, b: string)
    ensures WordValue(a + b) == WordValue(a) + WordValue(b)
  {
    if a != [] {
      assert (a + b)[1..] == a[1..] + b;
      WordValueAppend(a[1..], b);
    } else {
      assert a + b == b;
    }
  }

  /**
   * A single character is kept exactly when it is a word character; with
   * WordValueAppend this fixes the word value of every string.
   */
  lemma WordValueChar(c: char)
    ensures WordValue([c]) == if IsWordChar(c) then [c] else []
  {
    assert [c][1..] == [];
  }

  /** A string of word characters only, and nothing else, is its own word value. */
  lemma {:induction false} WordValueOfWords(w: string)
    ensures (forall c <- w :: IsWordChar(c)) <==> WordValue(w) == w
  {
    if w != [] {
      WordValueOfWords(w[1..]);
      if !IsWordChar(w[0]) {
        assert |WordValue(w)| <= |w[1..]| < |w|;
      } else {
        assert w == [w[0]] + w[1..];
        if WordValue(w) == w {
          assert WordValue(w[1..]) == w[1..];
        }
      }
    }
  }

  /** Stripping twice is stripping once. */
  lemma WordValueIdempotent(w: string)
    ensures WordValue(WordValue(w)) == WordValue(w)
  {
    WordValueOfWords(WordValue(w));
  }

  // ---------------------------------------------------------------------------
  // Substring occurrence counts, in the order the source enumerates them

  /** The defaultdict read: a missing key counts zero. */
  function Get(m: map<string, nat>, key: string): nat
  {
    if key in m then m[key] else 0
  }

  /** How many of `x[i..i+1]`, ..., `x[i..j]` equal `key`. */
  function RowCount(key: string, x: string, i: nat, j: nat): nat
    requires i <= j <= |x|
    decreases j - i
  {
    if j == i then 0 else RowCount(key, x, i, j - 1) + (if x[i..j] == key then 1 else 0)
  }

  /** The same count over every start before `i`. */
  function RowsCount(key: string, x: string, i: nat): nat
    requires i <= |x|
  {
    if i == 0 then 0 else RowsCount(key, x, i - 1) + RowCount(key, x, i - 1, |x|)
  }

  /** The number of (start, end) pairs whose non-empty slice of `x` equals `key`. */
  function Occurrences(key: string, x: string): nat
  {
    RowsCount(key, x, |x|)
  }

  /** Occurrences summed over a list of word values. */
  function TotalOccurrences(key: string, words: seq<string>): nat
  {
    if words == [] then 0
    else TotalOccurrences(key, words[..|words| - 1]) + Occurrences(key, words[|words| - 1])
  }

  lemma {:induction false} RowCountShort(key: string, x: string, i: nat, j: nat)
    requires i <= j <= |x| && j - i < |key|
    ensures RowCount(key, x, i, j) == 0
    decreases j - i
  {
    if j > i { RowCountShort(key, x, i, j - 1); }
  }

  /** No slice is empty, so the empty word is never counted. */
  lemma OccurrencesOfEmpty(x: string)
    ensures Occurrences([], x) == 0
  {
    EmptyRows(x, |x|);
  }

  lemma {:induction false} EmptyRow(x: string, i: nat, j: nat)
    requires i <= j <= |x|
    ensures RowCount([], x, i, j) == 0
    decreases j - i
  {
    if j > i { EmptyRow(x, i, j - 1); }
  }

  lemma {:induction false} EmptyRows(x: string, i: nat)
    requires i <= |x|
    ensures RowsCount([], x, i) == 0
  {
    if i > 0 {
      EmptyRows(x, i - 1);
      EmptyRow(x, i - 1, |x|);
    }
  }

  lemma {:induction false} TotalOccurrencesOfEmpty(words: seq<string>)
    ensures TotalOccurrences([], words) == 0
  {
    if words != [] {
      TotalOccurrencesOfEmpty(words[..|words| - 1]);
      OccurrencesOfEmpty(words[|words| - 1]);
    }
  }

  lemma {:induction false} RowsCountFromOne(key: string, x: string, i: nat)
    requires 1 <= i <= |x| && |x| <= |key|
    ensures RowsCount(key, x, i) == RowsCount(key, x, 1)
  {
    if i > 1 {
      RowsCountFromOne(key, x, i - 1);
      RowCountShort(key, x, i - 1, |x|);
    }
  }

  /** A non-empty word occurs in itself exactly once: only the whole slice is long enough. */
  lemma OccurrencesOfSelf(w: string)
    requires w != []
    ensures Occurrences(w, w) == 1
  {
    RowsCountFromOne(w, w, |w|);
    RowCountShort(w, w, 0, |w| - 1);
    assert w[0..|w|] == w;
  }

  lemma {:induction false} RowCountContains(key: string, x: string, i: nat, j: nat)
    requires i <= j <= |x| && RowCount(key, x, i, j) > 0
    ensures Contains(x, key)
    decreases j - i
  {
    if x[i..j] == key {
      ContainsAt(x, key, i);
    } else {
      RowCountContains(key, x, i, j - 1);
    }
  }

  lemma {:induction false} RowsCountContains(key: string, x: string, i: nat)
    requires i <= |x| && RowsCount(key, x, i) > 0
    ensures Contains(x, key)
  {
    if RowCount(key, x, i - 1, |x|) > 0 {
      RowCountContains(key, x, i - 1, |x|);
    } else {
      RowsCountContains(key, x, i - 1);
    }
  }

  /** A word value that does not contain `key` adds nothing to its count. */
  lemma OccurrencesWithoutContains(key: string, x: string)
    requires !Contains(x, key)
    ensures Occurrences(key, x) == 0
  {
    if Occurrences(key, x) > 0 {
      RowsCountContains(key, x, |x|);
    }
  }

  lemma {:induction false} TotalOccurrencesMonotone(key: string, words: seq<string>, i: nat, j: nat)
    requires i <= j <= |words|
    ensures TotalOccurrences(key, words[..i]) <= TotalOccurrences(key, words[..j])
    decreases j - i
  {
    if i < j {
      TotalOccurrencesMonotone(key, words, i, j - 1);
      assert words[..j][..j - 1] == words[..j - 1];
    }
  }

  lemma TotalOccurrencesSnoc(words: seq<string>, pos: nat)
    requires pos < |words|
    ensures forall key ::
      TotalOccurrences(key, words[..pos + 1]) == TotalOccurrences(key, words[..pos]) + Occurrences(key, words[pos])
  {
    assert words[..pos + 1][..pos] == words[..pos];
  }

  // ---------------------------------------------------------------------------
  // The tokens of one text part

  /** The word value of every piece. */
  function WordValues(pieces: seq<string>): (words: seq<string>)
    ensures |words| == |pieces|
    ensures forall k :: 0 <= k < |pieces| ==> words[k] == WordValue(pieces[k])
  {
    seq(|pieces|, k requires 0 <= k < |pieces| => WordValue(pieces[k]))
  }

  /** The `n` of the `k`-th token's subreference. */
  function SubrefIndex(words: seq<string>, k: nat): (n: nat)
    requires k < |words|
    ensures n == 0 <==> words[k] == []
  {
    var seen := words[..k + 1];
    assert seen[|seen| - 1] == words[k];
    if words[k] == [] then
      TotalOccurrencesOfEmpty(seen);
      TotalOccurrences(words[k], seen)
    else
      OccurrencesOfSelf(words[k]);
      TotalOccurrences(words[k], seen)
  }

  /** `f"{w}[{n}]"` */
  function SubrefValue(w: string, n: nat): string
  {
    w + "[" + NatToString(n) + "]"
  }

  /** The `k`-th token `Token.tokenize` creates for a text part, numbered from `start`. */
  function TokenAt(part: Node, k: nat, start: int): (t: Token)
    requires k < |Pieces(part.textContent)|
    ensures t.textPart == part && t.value == Pieces(part.textContent)[k]
    ensures t.wordValue == WordValue(t.value)
    ensures t.position == k + 1 && t.idx == start + k
  {
    var pieces := Pieces(part.textContent);
    var words := WordValues(pieces);
    Token(part, pieces[k], words[k], SubrefValue(words[k], SubrefIndex(words, k)),
      k + 1, start + k, part.ref + ".t" + NatToString(k + 1))
  }

  /** Every token of a text part, in piece order. */
  function PartTokens(part: Node, start: int): (ts: seq<Token>)
    ensures |ts| == |Pieces(part.textContent)|
  {
    var n := |Pieces(part.textContent)|;
    seq(n, k requires 0 <= k < n => TokenAt(part, k, start))
  }

  /** The `counters` dictionary the caller threads through successive calls. */
  class Counters {
    var tokenIdx: int

    constructor (start: int)
      ensures tokenIdx == start
    {
      tokenIdx := start;
    }
  }

  /**
   * The inner loops of `Token.tokenize`: bump the defaultdict once for every
   * non-empty slice `w[i..j+1]`, starts in increasing order, ends in
   * increasing order within a start.
   */
  method CountSlices(idx: map<string, nat>, w: string) returns (counted: map<string, nat>)
    ensures forall key :: Get(counted, key) == Get(idx, key) + Occurrences(key, w)
  {
    counted := idx;
    var wl := |w|;
    var i := 0;
    while i < wl
      invariant 0 <= i <= wl
      invariant forall key :: Get(counted, key) == Get(idx, key) + RowsCount(key, w, i)
    {
      var j := i;
      while j < wl
        invariant i <= j <= wl
        invariant forall key :: Get(counted, key) == Get(idx, key) + RowsCount(key, w, i) + RowCount(key, w, i, j)
      {
        var wk := w[i..j + 1];
        counted := counted[wk := Get(counted, wk) + 1];
        j := j + 1;
      }
      i := i + 1;
    }
  }

  /**
   * `Token.tokenize`: one token per whitespace piece, idx values drawn from
   * the shared counter, which ends advanced by the number of tokens.
   */
  method Tokenize(part: Node, counters: Counters) returns (toCreate: seq<Token>)
    modifies counters
    ensures toCreate == PartTokens(part, old(counters.tokenIdx))
    ensures counters.tokenIdx == old(counters.tokenIdx) + |toCreate|
  {
    var idx: map<string, nat> := map[];
    var pieces := Pieces(part.textContent);
    ghost var words := WordValues(pieces);
    ghost var start := counters.tokenIdx;
    toCreate := [];
    var pos := 0;
    while pos < |pieces|
      invariant 0 <= pos <= |pieces|
      invariant |toCreate| == pos
      invariant toCreate == PartTokens(part, start)[..pos]
      invariant counters.tokenIdx == start + pos
      invariant forall key :: Get(idx, key) == TotalOccurrences(key, words[..pos])
    {
      var piece := pieces[pos];
      var w := WordValue(piece);
      idx := CountSlices(idx, w);
      TotalOccurrencesSnoc(words, pos);
      var subrefIdx := Get(idx, w);
      var subrefValue := w + "[" + NatToString(subrefIdx) + "]";
      var position := pos + 1;
      var token := Token(part, piece, w, subrefValue, position, counters.tokenIdx,
        part.ref + ".t" + NatToString(position));
      TokenAtPosition(part, start, pos, subrefIdx);
      assert token == PartTokens(part, start)[pos];
      PrefixSnoc(PartTokens(part, start), pos);
      toCreate := toCreate + [token];
      counters.tokenIdx := counters.tokenIdx + 1;
      pos := pos + 1;
    }
    assert PartTokens(part, start)[..pos] == PartTokens(part, start);
  }

  /** The token built at position `pos` from the running count is the specified one. */
  lemma TokenAtPosition(part: Node, start: int, pos: nat, subrefIdx: nat)
    requires pos < |Pieces(part.textContent)|
    requires subrefIdx == TotalOccurrences(WordValue(Pieces(part.textContent)[pos]), WordValues(Pieces(part.textContent))[..pos + 1])
    ensures var piece := Pieces(part.textContent)[pos];
      var w := WordValue(piece);
      PartTokens(part, start)[pos] ==
        Token(part, piece, w, w + "[" + NatToString(subrefIdx) + "]", pos + 1, start + pos, part.ref + ".t" + NatToString(pos + 1))
  {
  }

  // ---------------------------------------------------------------------------
  // What the subreferences promise

  /** A piece without word characters gets the empty word value and the subreference `[0]`. */
  lemma PunctuationSubref(part: Node, k: nat, start: int)
    requires k < |Pieces(part.textContent)|
    requires WordValue(Pieces(part.textContent)[k]) == []
    ensures TokenAt(part, k, start).wordValue == []
    ensures TokenAt(part, k, start).subrefValue == "[0]"
  {
    var words := WordValues(Pieces(part.textContent));
    TotalOccurrencesOfEmpty(words[..k + 1]);
  }

  /**
   * The count agrees with the number of equal word values so far when the
   * word value is non-empty and no other word value so far contains it: `n`
   * then numbers the equal words 1, 2, 3, ...
   */
  lemma {:induction false} SubrefCountsEqualWords(words: seq<string>, k: nat)
    requires k < |words| && words[k] != []
    requires forall i :: 0 <= i <= k && words[i] != words[k] ==> !Contains(words[i], words[k])
    ensures SubrefIndex(words, k) == CountEqual(words[..k + 1], words[k])
  {
    CountEqualWithoutOverlap(words[..k + 1], words[k]);
  }

  /** The number of entries of `ws` equal to `w`. */
  function CountEqual(ws: seq<string>, w: string): nat
  {
    if ws == [] then 0 else CountEqual(ws[..|ws| - 1], w) + (if ws[|ws| - 1] == w then 1 else 0)
  }

  lemma {:induction false} CountEqualWithoutOverlap(ws: seq<string>, w: string)
    requires w != []
    requires forall i :: 0 <= i < |ws| && ws[i] != w ==> !Contains(ws[i], w)
    ensures TotalOccurrences(w, ws) == CountEqual(ws, w)
  {
    if ws != [] {
      var front := ws[..|ws| - 1];
      assert forall i :: 0 <= i < |front| ==> front[i] == ws[i];
      CountEqualWithoutOverlap(front, w);
      if ws[|ws| - 1] == w {
        OccurrencesOfSelf(w);
      } else {
        OccurrencesWithoutContains(w, ws[|ws| - 1]);
      }
    }
  }

  /** A later occurrence of the same non-empty word gets a strictly larger `n`. */
  lemma SubrefIndexIncreases(words: seq<string>, i: nat, j: nat)
    requires i < j < |words| && words[i] == words[j] && words[j] != []
    ensures SubrefIndex(words, i) < SubrefIndex(words, j)
  {
    var w := words[j];
    TotalOccurrencesMonotone(w, words, i + 1, j);
    assert words[..j + 1][..j] == words[..j];
    OccurrencesOfSelf(w);
  }

  /** The first `[` of a subreference sits right after its word value. */
  lemma FirstBracket(w: string, n: nat)
    requires forall c <- w :: IsWordChar(c)
    ensures |SubrefValue(w, n)| > |w| && SubrefValue(w, n)[|w|] == '['
    ensures forall i :: 0 <= i < |w| ==> SubrefValue(w, n)[i] != '['
  {
    assert !IsWordChar('[');
    forall i | 0 <= i < |w| ensures SubrefValue(w, n)[i] != '[' {
      assert SubrefValue(w, n)[i] == w[i] && w[i] in w;
    }
  }

  /** Distinct (word, count) pairs give distinct subreferences. */
  lemma SubrefValueInjective(w1: string, n1: nat, w2: string, n2: nat)
    requires forall c <- w1 :: IsWordChar(c)
    requires forall c <- w2 :: IsWordChar(c)
    requires SubrefValue(w1, n1) == SubrefValue(w2, n2)
    ensures w1 == w2 && n1 == n2
  {
    var s := SubrefValue(w1, n1);
    FirstBracket(w1, n1);
    FirstBracket(w2, n2);
    if |w1| == |w2| {
      assert w1 == s[..|w1|] == w2;
      var d1, d2 := NatToString(n1), NatToString(n2);
      assert s == w1 + ("[" + d1 + "]") == w2 + ("[" + d2 + "]");
      assert "[" + d1 + "]" == s[|w1|..] == "[" + d2 + "]";
      assert d1 == ("[" + d1 + "]")[1..|d1| + 1];
      assert d2 == ("[" + d2 + "]")[1..|d2| + 1];
      NatToStringInjective(n1, n2);
    }
  }

  /**
   * Within one text part, tokens with a non-empty word value have pairwise
   * distinct subreferences. (Pieces without word characters all share `[0]`.)
   */
  lemma SubrefsUniqueForWords(part: Node, start: int, a: nat, b: nat)
    requires a < b < |Pieces(part.textContent)|
    requires TokenAt(part, a, start).wordValue != [] && TokenAt(part, b, start).wordValue != []
    ensures TokenAt(part, a, start).subrefValue != TokenAt(part, b, start).subrefValue
  {
    var words := WordValues(Pieces(part.textContent));
    if TokenAt(part, a, start).subrefValue == TokenAt(part, b, start).subrefValue {
      SubrefValueInjective(words[a], SubrefIndex(words, a), words[b], SubrefIndex(words, b));
      SubrefIndexIncreases(words, a, b);
    }
  }

  /** Two punctuation-only pieces of one part share the subreference `[0]`. */
  lemma PunctuationSubrefsCollide()
    ensures
      var part := Node(1, "0001", "line", "urn:x:1", "1", Some(1), ", ;", Metadata(None, None), None);
      |Pieces(part.textContent)| == 2
      && TokenAt(part, 0, 0).subrefValue == TokenAt(part, 1, 0).subrefValue == "[0]"
  {
    var part := Node(1, "0001", "line", "urn:x:1", "1", Some(1), ", ;", Metadata(None, None), None);
    assert Join([",", ";"], " ") == ", ;";
    PiecesOfJoin([",", ";"]);
    PunctuationSubref(part, 0, 0);
    PunctuationSubref(part, 1, 0);
  }

  lemma OneCharContains(c: char, d: char)
    ensures Contains([c], [d]) <==> c == d
  {
    assert [c][1..] == [];
    assert !Contains([], [d]);
    assert [c][..1] == [c];
    assert StartsWith([c], [d]) <==> c == d;
  }

  /** "a a b a" is numbered a[1], a[2], b[1], a[3]. */
  lemma RepeatedWordExample()
    ensures
      var words := ["a", "a", "b", "a"];
      && SubrefIndex(words, 0) == 1 && SubrefIndex(words, 1) == 2
      && SubrefIndex(words, 2) == 1 && SubrefIndex(words, 3) == 3
  {
    var words := ["a", "a", "b", "a"];
    RepeatedWordTotals();
    assert SubrefIndex(words, 0) == 1 by { assert words[0] == "a" && words[..1] == ["a"]; }
    assert SubrefIndex(words, 1) == 2 by { assert words[1] == "a" && words[..2] == ["a", "a"]; }
    assert SubrefIndex(words, 2) == 1 by { assert words[2] == "b" && words[..3] == ["a", "a", "b"]; }
    assert SubrefIndex(words, 3) == 3 by { assert words[3] == "a" && words[..4] == words; }
  }

  lemma RepeatedWordTotals()
    ensures TotalOccurrences("a", ["a"]) == 1
    ensures TotalOccurrences("a", ["a", "a"]) == 2
    ensures TotalOccurrences("b", ["a", "a", "b"]) == 1
    ensures TotalOccurrences("a", ["a", "a", "b", "a"]) == 3
  {
    OneCharContains('a', 'b');
    OneCharContains('b', 'a');
    OccurrencesOfSelf("a");
    OccurrencesOfSelf("b");
    OccurrencesWithoutContains("a", "b");
    OccurrencesWithoutContains("b", "a");
    var w1, w2, w3 := ["a"], ["a", "a"], ["a", "a", "b"];
    var words := ["a", "a", "b", "a"];
    assert TotalOccurrences("a", w1) == 1 && TotalOccurrences("b", w1) == 0 by { assert w1[..0] == []; }
    assert TotalOccurrences("a", w2) == 2 && TotalOccurrences("b", w2) == 0 by { assert w2[..1] == w1; }
    assert TotalOccurrences("a", w3) == 2 && TotalOccurrences("b", w3) == 1 by { assert w3[..2] == w2; }
    assert TotalOccurrences("a", words) == 3 by { assert words[..3] == w3; }
  }

  /** "a ab a" is numbered a[1], ab[1], a[3]: the "a" inside "ab" counts. */
  lemma SubstringCountsExample()
    ensures
      var words := ["a", "ab", "a"];
      SubrefIndex(words, 0) == 1 && SubrefIndex(words, 1) == 1 && SubrefIndex(words, 2) == 3
  {
    var words := ["a", "ab", "a"];
    SubstringCountsTotals();
    assert SubrefIndex(words, 0) == 1 by { assert words[0] == "a" && words[..1] == ["a"]; }
    assert SubrefIndex(words, 1) == 1 by { assert words[1] == "ab" && words[..2] == ["a", "ab"]; }
    assert SubrefIndex(words, 2) == 3 by { assert words[2] == "a" && words[..3] == words; }
  }

  lemma SubstringCountsTotals()
    ensures TotalOccurrences("a", ["a"]) == 1
    ensures TotalOccurrences("ab", ["a", "ab"]) == 1
    ensures TotalOccurrences("a", ["a", "ab", "a"]) == 3
  {
    OccurrencesOfSelf("a");
    OccurrencesOfSelf("ab");
    assert !Contains("a", "ab") by { assert "a"[1..] == []; }
    OccurrencesWithoutContains("ab", "a");
    assert Occurrences("a", "ab") == 1 by {
      assert "ab"[0..1] == "a" && "ab"[0..2] != "a" && "ab"[1..2] != "a";
      assert RowCount("a", "ab", 0, 2) == 1;
      assert RowCount("a", "ab", 1, 2) == 0;
    }
    var w1, w2, words := ["a"], ["a", "ab"], ["a", "ab", "a"];
    assert TotalOccurrences("a", w1) == 1 && TotalOccurrences("ab", w1) == 0 by { assert w1[..0] == []; }
    assert TotalOccurrences("a", w2) == 2 && TotalOccurrences("ab", w2) == 1 by { assert w2[..1] == w1; }
    assert TotalOccurrences("a", words) == 3 by { assert words[..2] == w2; }
  }
}

/**
 * The short form of a metrical annotation (`MetricalAnnotation.generate_short_form`).
 *
 * The foot code assigns the line's syllables to feet from left to right: a
 * dactyl `a` takes the next three syllables and any other foot the next two,
 * with the slice clamped at the end of the line. Each foot is written as `|`
 * followed by its syllables; a syllable with a caesura is preceded by `/`,
 * any other syllable but the first of its foot by `:`, and a syllable that
 * starts a word (word position none or `r`) but is not first in its foot by
 * a space before that.
 */
module Metrical {
  import opened Common
  import opened Strings

  /** One entry of `line_data`, as far as the short form reads it. */
  datatype Syllable = Syllable(text: string, wordPos: Option<string>, caesura: bool)

  /** The number of syllables a foot takes. */
  function FootSize(foot: char): (n: nat)
    ensures n == 3 <==> foot == 'a'
    ensures n == 2 <==> foot != 'a'
  {
    if foot == 'a' then 3 else 2
  }

  /** The `index` reached after the given feet: the sum of their sizes. */
  function Consumed(footCode: string): nat
  {
    if footCode == [] then 0
    else Consumed(footCode[..|footCode| - 1]) + FootSize(footCode[|footCode| - 1])
  }

  /** `s[i:j]` for `0 <= i <= j`: both ends are clamped to the length of `s`. */
  function Slice<T>(s: seq<T>, i: nat, j: nat): seq<T>
    requires i <= j
  {
    if i >= |s| then [] else if j >= |s| then s[i..] else s[i..j]
  }

  /** A word starts at the syllable: its word position is `None` or `"r"`. */
  predicate StartsWord(s: Syllable)
  {
    s.wordPos.None? || s.wordPos == Some("r")
  }

  /** What the short form writes before the text of the syllable at position `i` of its foot. */
  function Marks(s: Syllable, i: nat): (m: string)
    ensures |m| <= 2
    ensures i == 0 ==> m == if s.caesura then "/" else ""
  {
    (if i > 0 && StartsWord(s) then " " else "")
    + (if s.caesura then "/" else if i > 0 then ":" else "")
  }

  /** What the short form writes for the syllable at position `i` of its foot. */
  function SyllableForm(s: Syllable, i: nat): string
  {
    Marks(s, i) + s.text
  }

  /** The syllables of one foot, each written by its position in the foot. */
  function SyllablesForm(syllables: seq<Syllable>): string
  {
    if syllables == [] then ""
    else SyllablesForm(syllables[..|syllables| - 1]) + SyllableForm(syllables[|syllables| - 1], |syllables| - 1)
  }

  /** One foot of the short form: `|` and then its syllables. */
  function FootText(syllables: seq<Syllable>): string
  {
    "|" + SyllablesForm(syllables)
  }

  /** The short form of the line: one `|`-headed group per foot. */
  function ShortForm(footCode: string, lineData: seq<Syllable>): (form: string)
    ensures |form| >= |footCode|
    ensures footCode != [] ==> form[0] == '|'
  {
    if footCode == [] then ""
    else
      var front := footCode[..|footCode| - 1];
      var start := Consumed(front);
      ShortForm(front, lineData) + FootText(Slice(lineData, start, start + FootSize(footCode[|footCode| - 1])))
  }

  /** `generate_short_form` */
  method GenerateShortForm(footCode: string, lineData: seq<Syllable>) returns (form: string)
    ensures form == ShortForm(footCode, lineData)
  {
    var index: nat := 0;
    form := "";
    for k := 0 to |footCode|
      invariant index == Consumed(footCode[..k])
      invariant form == ShortForm(footCode[..k], lineData)
    {
      assert footCode[..k + 1][..k] == footCode[..k];
      var syllables: seq<Syllable>;
      if footCode[k] == 'a' {
        syllables := Slice(lineData, index, index + 3);
        index := index + 3;
      } else {
        syllables := Slice(lineData, index, index + 2);
        index := index + 2;
      }
      var foot := FootForm(syllables);
      form := form + foot;
    }
    assert footCode[..|footCode|] == footCode;
  }

  /** The inner loop of `generate_short_form`: one foot, `|` and its syllables. */
  method FootForm(syllables: seq<Syllable>) returns (foot: string)
    ensures foot == FootText(syllables)
  {
    foot := "|";
    for i := 0 to |syllables|
      invariant foot == "|" + SyllablesForm(syllables[..i])
    {
      assert syllables[..i + 1][..i] == syllables[..i];
      ghost var before := foot;
      var syllable := syllables[i];
      if i > 0 && (syllable.wordPos.None? || syllable.wordPos == Some("r")) {
        foot := foot + " ";
      }
      if syllable.caesura {
        foot := foot + "/";
      } else if i > 0 {
        foot := foot + ":";
      }
      assert foot == before + Marks(syllable, i);
      foot := foot + syllable.text;
      calc {
        foot;
        (before + Marks(syllable, i)) + syllable.text;
        { SeqAssoc(before, Marks(syllable, i), syllable.text); }
        before + SyllableForm(syllable, i);
        { SeqAssoc("|", SyllablesForm(syllables[..i]), SyllableForm(syllable, i)); }
        "|" + SyllablesForm(syllables[..i + 1]);
      }
    }
    assert syllables[..|syllables|] == syllables;
  }

  // ---------------------------------------------------------------------------
  // What the short form records

  /** The syllables the feet read: the first `Consumed` of the line, or all of a shorter line. */
  function Read(footCode: string, lineData: seq<Syllable>): seq<Syllable>
  {
    if Consumed(footCode) <= |lineData| then lineData[..Consumed(footCode)] else lineData
  }

  /** The texts of the syllables, concatenated. */
  function Texts(syllables: seq<Syllable>): string
  {
    if syllables == [] then "" else Texts(syllables[..|syllables| - 1]) + syllables[|syllables| - 1].text
  }

  /** The number of syllables that carry a caesura. */
  function Caesurae(syllables: seq<Syllable>): nat
  {
    if syllables == [] then 0
    else Caesurae(syllables[..|syllables| - 1]) + (if syllables[|syllables| - 1].caesura then 1 else 0)
  }

  /** The characters the short form adds between syllable texts. */
  predicate IsMark(c: char)
  {
    c == '|' || c == ':' || c == '/' || c == ' '
  }

  predicate NoMarks(s: string)
  {
    forall c <- s :: !IsMark(c)
  }

  /** The short form with its marks removed. */
  function Unmarked(s: string): string
  {
    if s == [] then [] else (if IsMark(s[0]) then [] else [s[0]]) + Unmarked(s[1..])
  }

  lemma {:induction false} UnmarkedKeeps(s: string)
    requires NoMarks(s)
    ensures Unmarked(s) == s
  {
    if s != [] {
      UnmarkedKeeps(s[1..]);
    }
  }

  lemma {:induction false} UnmarkedDrops(s: string)
    requires forall c <- s :: IsMark(c)
    ensures Unmarked(s) == []
  {
    if s != [] {
      UnmarkedDrops(s[1..]);
    }
  }

  lemma {:induction false} UnmarkedAppend(a: string, b: string)
    ensures Unmarked(a + b) == Unmarked(a) + Unmarked(b)
  {
    if a == [] {
      assert a + b == b;
    } else {
      var head: string := if IsMark(a[0]) then [] else [a[0]];
      UnmarkedAppend(a[1..], b);
      assert (a + b)[0] == a[0] && (a + b)[1..] == a[1..] + b;
      calc {
        Unmarked(a + b);
        head + Unmarked(a[1..] + b);
        head + (Unmarked(a[1..]) + Unmarked(b));
        { SeqAssoc(head, Unmarked(a[1..]), Unmarked(b)); }
        (head + Unmarked(a[1..])) + Unmarked(b);
        Unmarked(a) + Unmarked(b);
      }
    }
  }

  lemma SeqAssoc<T>(x: seq<T>, y: seq<T>, z: seq<T>)
    ensures x + (y + z) == (x + y) + z
  {
  }

  /** Each foot starts where the previous ones stopped: the feet read consecutive slices. */
  lemma ReadSnoc(footCode: string, lineData: seq<Syllable>)
    requires footCode != []
    ensures var front := footCode[..|footCode| - 1];
      var start := Consumed(front);
      Read(footCode, lineData) == Read(front, lineData) + Slice(lineData, start, start + FootSize(footCode[|footCode| - 1]))
  {
  }

  /**
   * Dactyls take three syllables and every other foot two, so the feet ask
   * for three per `a` and two per other code.
   */
  lemma {:induction false} ConsumedCountsDactyls(footCode: string)
    ensures Consumed(footCode) == 3 * Count('a', footCode) + 2 * (|footCode| - Count('a', footCode))
  {
    if footCode != [] {
      var front := footCode[..|footCode| - 1];
      ConsumedCountsDactyls(front);
      CountAppend('a', front, [footCode[|footCode| - 1]]);
      assert front + [footCode[|footCode| - 1]] == footCode;
    }
  }

  lemma MarksAreMarks(s: Syllable, i: nat)
    ensures Unmarked(Marks(s, i)) == []
    ensures Count('|', Marks(s, i)) == 0
    ensures Count('/', Marks(s, i)) == if s.caesura then 1 else 0
  {
    var space: string := if i > 0 && StartsWord(s) then " " else "";
    var mark: string := if s.caesura then "/" else if i > 0 then ":" else "";
    assert Marks(s, i) == space + mark;
    UnmarkedDrops(space + mark);
    CountAppend('|', space, mark);
    CountAppend('/', space, mark);
    if space != [] { CountOne(' ', '|'); CountOne(' ', '/'); }
    if mark == "/" { CountOne('/', '|'); CountOne('/', '/'); }
    if mark == ":" { CountOne(':', '|'); CountOne(':', '/'); }
  }

  /**
   * When each mark is written: a space exactly for a word start that is not
   * the first syllable of its foot, and then `:` exactly for such a later
   * syllable without a caesura; the first syllable carries only a caesura's `/`.
   */
  lemma MarksWhen(s: Syllable, i: nat)
    ensures Count(' ', Marks(s, i)) == if i > 0 && StartsWord(s) then 1 else 0
    ensures Count(':', Marks(s, i)) == if i > 0 && !s.caesura then 1 else 0
    ensures i > 0 && StartsWord(s) ==> Marks(s, i)[0] == ' '
    ensures i == 0 ==> Marks(s, i) == if s.caesura then "/" else ""
  {
    var space: string := if i > 0 && StartsWord(s) then " " else "";
    var mark: string := if s.caesura then "/" else if i > 0 then ":" else "";
    assert Marks(s, i) == space + mark;
    CountAppend(' ', space, mark);
    CountAppend(':', space, mark);
    if space != [] { CountOne(' ', ' '); CountOne(' ', ':'); }
    if mark == "/" { CountOne('/', ' '); CountOne('/', ':'); }
    if mark == ":" { CountOne(':', ' '); CountOne(':', ':'); }
  }

  lemma CountOne(x: char, c: char)
    ensures Count(c, [x]) == if x == c then 1 else 0
  {
    assert [x][1..] == [];
  }

  lemma {:induction false} SyllablesFormUnmarked(syllables: seq<Syllable>)
    requires forall s <- syllables :: NoMarks(s.text)
    ensures Unmarked(SyllablesForm(syllables)) == Texts(syllables)
  {
    if syllables != [] {
      var front := syllables[..|syllables| - 1];
      var last := syllables[|syllables| - 1];
      assert forall s <- front :: s in syllables;
      SyllablesFormUnmarked(front);
      SyllableFormUnmarked(last, |syllables| - 1);
      UnmarkedAppend(SyllablesForm(front), SyllableForm(last, |syllables| - 1));
    }
  }

  /** One syllable's marks vanish and its text stays. */
  lemma SyllableFormUnmarked(s: Syllable, i: nat)
    requires NoMarks(s.text)
    ensures Unmarked(SyllableForm(s, i)) == s.text
  {
    var marks := Marks(s, i);
    assert SyllableForm(s, i) == marks + s.text;
    MarksAreMarks(s, i);
    assert Unmarked(marks) == [];
    UnmarkedKeeps(s.text);
    UnmarkedAppend(marks, s.text);
  }

  lemma {:induction false} TextsAppend(a: seq<Syllable>, b: seq<Syllable>)
    ensures Texts(a + b) == Texts(a) + Texts(b)
    decreases |b|
  {
    if b == [] {
      assert a + b == a;
    } else {
      var front, last := b[..|b| - 1], b[|b| - 1];
      TextsAppend(a, front);
      assert (a + b)[..|a + b| - 1] == a + front && (a + b)[|a + b| - 1] == last;
      calc {
        Texts(a + b);
        Texts(a + front) + last.text;
        (Texts(a) + Texts(front)) + last.text;
        { SeqAssoc(Texts(a), Texts(front), last.text); }
        Texts(a) + (Texts(front) + last.text);
        Texts(a) + Texts(b);
      }
    }
  }

  /** The syllables of one foot come from the line. */
  lemma SliceWithin(lineData: seq<Syllable>, i: nat, j: nat)
    requires i <= j
    ensures forall s <- Slice(lineData, i, j) :: s in lineData
  {
  }

  lemma FootTextUnmarked(syllables: seq<Syllable>)
    requires forall s <- syllables :: NoMarks(s.text)
    ensures Unmarked(FootText(syllables)) == Texts(syllables)
  {
    SyllablesFormUnmarked(syllables);
    UnmarkedDrops("|");
    UnmarkedAppend("|", SyllablesForm(syllables));
  }

  /**
   * With the marks removed, the short form is the text of exactly the
   * syllables the feet read, in order: no syllable is skipped or repeated.
   */
  lemma {:induction false} ShortFormSpellsReadSyllables(footCode: string, lineData: seq<Syllable>)
    requires forall s <- lineData :: NoMarks(s.text)
    ensures Unmarked(ShortForm(footCode, lineData)) == Texts(Read(footCode, lineData))
  {
    if footCode != [] {
      var front := footCode[..|footCode| - 1];
      var start := Consumed(front);
      var syllables := Slice(lineData, start, start + FootSize(footCode[|footCode| - 1]));
      ShortFormSpellsReadSyllables(front, lineData);
      SliceWithin(lineData, start, start + FootSize(footCode[|footCode| - 1]));
      FootTextUnmarked(syllables);
      UnmarkedAppend(ShortForm(front, lineData), FootText(syllables));
      ReadSnoc(footCode, lineData);
      TextsAppend(Read(front, lineData), syllables);
    }
  }

  lemma {:induction false} SyllablesFormCount(c: char, syllables: seq<Syllable>)
    requires c == '|' || c == '/'
    requires forall s <- syllables :: c !in s.text
    ensures c == '|' ==> Count(c, SyllablesForm(syllables)) == 0
    ensures c == '/' ==> Count(c, SyllablesForm(syllables)) == Caesurae(syllables)
  {
    if syllables != [] {
      var front := syllables[..|syllables| - 1];
      var last := syllables[|syllables| - 1];
      var i := |syllables| - 1;
      assert forall s <- front :: s in syllables;
      SyllablesFormCount(c, front);
      MarksAreMarks(last, i);
      CountAppend(c, SyllablesForm(front), SyllableForm(last, i));
      CountAppend(c, Marks(last, i), last.text);
      CountAbsent(c, last.text);
    }
  }

  lemma FootTextCount(c: char, syllables: seq<Syllable>)
    requires c == '|' || c == '/'
    requires forall s <- syllables :: c !in s.text
    ensures c == '|' ==> Count(c, FootText(syllables)) == 1
    ensures c == '/' ==> Count(c, FootText(syllables)) == Caesurae(syllables)
  {
    SyllablesFormCount(c, syllables);
    CountAppend(c, "|", SyllablesForm(syllables));
    CountOne('|', c);
  }

  /** The short form holds one `|` per foot, when no syllable text holds one. */
  lemma {:induction false} ShortFormBarPerFoot(footCode: string, lineData: seq<Syllable>)
    requires forall s <- lineData :: '|' !in s.text
    ensures Count('|', ShortForm(footCode, lineData)) == |footCode|
  {
    if footCode != [] {
      var front := footCode[..|footCode| - 1];
      var start := Consumed(front);
      var syllables := Slice(lineData, start, start + FootSize(footCode[|footCode| - 1]));
      ShortFormBarPerFoot(front, lineData);
      SliceWithin(lineData, start, start + FootSize(footCode[|footCode| - 1]));
      CountAppend('|', ShortForm(front, lineData), FootText(syllables));
      FootTextCount('|', syllables);
    }
  }

  /**
   * The short form holds one `/` per caesura among the syllables the feet
   * read, when no syllable text holds one.
   */
  lemma {:induction false} ShortFormSlashPerCaesura(footCode: string, lineData: seq<Syllable>)
    requires forall s <- lineData :: '/' !in s.text
    ensures Count('/', ShortForm(footCode, lineData)) == Caesurae(Read(footCode, lineData))
  {
    if footCode != [] {
      var front := footCode[..|footCode| - 1];
      var start := Consumed(front);
      var syllables := Slice(lineData, start, start + FootSize(footCode[|footCode| - 1]));
      ShortFormSlashPerCaesura(front, lineData);
      SliceWithin(lineData, start, start + FootSize(footCode[|footCode| - 1]));
      CountAppend('/', ShortForm(front, lineData), FootText(syllables));
      FootTextCount('/', syllables);
      ReadSnoc(footCode, lineData);
      CaesuraeAppend(Read(front, lineData), syllables);
    }
  }

  lemma {:induction false} CaesuraeAppend(a: seq<Syllable>, b: seq<Syllable>)
    ensures Caesurae(a + b) == Caesurae(a) + Caesurae(b)
    decreases |b|
  {
    if b == [] {
      assert a + b == a;
    } else {
      CaesuraeAppend(a, b[..|b| - 1]);
      assert (a + b)[..|a + b| - 1] == a + b[..|b| - 1];
    }
  }

  /**
   * A dactyl followed by a spondee whose second syllable opens a word after a
   * caesura: "me nin a ei de" (word starts on "me", "a" and "de") is written
   * "|me:nin :a|ei /de".
   */
  lemma ShortFormExample()
    ensures ShortForm("ab", [
      Syllable("me", Some("r"), false), Syllable("nin", Some("f"), false), Syllable("a", None, false),
      Syllable("ei", Some("m"), false), Syllable("de", Some("r"), true)]) == "|me:nin :a|ei /de"
  {
    var me, nin, a := Syllable("me", Some("r"), false), Syllable("nin", Some("f"), false), Syllable("a", None, false);
    var ei, de := Syllable("ei", Some("m"), false), Syllable("de", Some("r"), true);
    var line := [me, nin, a, ei, de];
    DactylExample(me, nin, a);
    SpondeeExample(ei, de);
    assert Consumed("a") == 3 by { assert "a"[..0] == []; }
    assert ShortForm("a", line) == "|me:nin :a" by {
      assert "a"[..0] == [] && Slice(line, 0, 3) == [me, nin, a];
    }
    assert "ab"[..1] == "a" && "ab"[1] == 'b' && Slice(line, 3, 5) == [ei, de];
  }

  lemma DactylExample(me: Syllable, nin: Syllable, a: Syllable)
    requires me == Syllable("me", Some("r"), false) && nin == Syllable("nin", Some("f"), false)
    requires a == Syllable("a", None, false)
    ensures FootText([me, nin, a]) == "|me:nin :a"
  {
    assert [me, nin, a][..2] == [me, nin] && [me, nin][..1] == [me] && [me][..0] == [];
    assert SyllablesForm([me]) == "me";
    assert SyllablesForm([me, nin]) == "me:nin";
  }

  lemma SpondeeExample(ei: Syllable, de: Syllable)
    requires ei == Syllable("ei", Some("m"), false) && de == Syllable("de", Some("r"), true)
    ensures FootText([ei, de]) == "|ei /de"
  {
    assert [ei, de][..1] == [ei] && [ei][..0] == [];
    assert SyllablesForm([ei]) == "ei";
  }
}

/**
 * `normalizarTexto`: canonical decomposition, removal of the combining marks
 * U+0300..U+036F, lower case, every character outside `[a-z0-9\s]` replaced
 * by a space, runs of `\s` collapsed to one space, and `trim`. The steps are
 * the six functions below, in the order the replace chain applies them.
 */
module Normalization {
  import opened Chars

  /** The characters of a normalised text: letters `a`-`z`, digits, and single
      spaces that are neither leading nor trailing. */
  predicate IsNormalized(r: string) {
    && (forall i :: 0 <= i < |r| ==> IsNormal(r[i]))
    && (|r| > 0 ==> r[0] != ' ' && r[|r| - 1] != ' ')
    && NoDoubleSpace(r)
  }

  predicate NoDoubleSpace(r: string) {
    forall i :: 0 <= i < |r| - 1 ==> !SpacePairAt(r, i)
  }

  /** Positions `i` and `i + 1` both hold a space. */
  predicate SpacePairAt(r: string, i: int)
    requires 0 <= i < |r| - 1
  {
    r[i] == ' ' && r[i + 1] == ' '
  }

  /** The non-space characters of `s`, in order. */
  function Solid(s: string): string
    decreases |s|
  {
    if s == [] then [] else (if IsSpace(s[0]) then [] else [s[0]]) + Solid(s[1..])
  }

  /** The letters `a`-`z` and digits of `s`, in order. */
  function LettersAndDigits(s: string): string
    decreases |s|
  {
    if s == [] then [] else (if IsLower(s[0]) || IsDigit(s[0]) then [s[0]] else []) + LettersAndDigits(s[1..])
  }

  /** `normalize('NFD')`, character by character. */
  function Decomposed(s: string): string
    decreases |s|
  {
    if s == [] then [] else Decompose(s[0]) + Decomposed(s[1..])
  }

  /** `replace(/[̀-ͯ]/g, '')`: the marks go, every other character stays. */
  function WithoutMarks(s: string): (r: string)
    ensures forall i :: 0 <= i < |r| ==> !IsCombiningMark(r[i])
    ensures forall c :: c in r <==> c in s && !IsCombiningMark(c)
    decreases |s|
  {
    if s == [] then []
    else
      assert s == [s[0]] + s[1..];
      (if IsCombiningMark(s[0]) then [] else [s[0]]) + WithoutMarks(s[1..])
  }

  /** Marks are removed from each part of a text on its own, so the
      characters that stay keep their order. */
  lemma {:induction false} WithoutMarksAppend(a: string, b: string)
    ensures WithoutMarks(a + b) == WithoutMarks(a) + WithoutMarks(b)
    decreases |a|
  {
    if a == [] {
      assert a + b == b;
    } else {
      assert (a + b)[0] == a[0] && (a + b)[1..] == a[1..] + b;
      WithoutMarksAppend(a[1..], b);
    }
  }

  /** Decomposition works character by character. */
  lemma {:induction false} DecomposedAppend(a: string, b: string)
    ensures Decomposed(a + b) == Decomposed(a) + Decomposed(b)
    decreases |a|
  {
    if a == [] {
      assert a + b == b;
    } else {
      assert (a + b)[0] == a[0] && (a + b)[1..] == a[1..] + b;
      DecomposedAppend(a[1..], b);
    }
  }

  /** An accented letter normalises to its base letter in lower case:
      `Ç` becomes `c`, `ã` becomes `a`. */
  lemma AccentedKeepsBase(c: char)
    requires |Decompose(c)| == 2
    ensures Normalize([c]) == [ToLower(Decompose(c)[0])]
  {
    var d := Decompose(c);
    assert Decomposed([c]) == d + [] by {
      assert [c][1..] == [];
    }
    assert WithoutMarks(d) == [d[0]] by {
      assert d[1..][0] == d[1] && d[1..][1..] == [];
      assert WithoutMarks(d[1..]) == [];
    }
    var l := [ToLower(d[0])];
    assert Lowered([d[0]]) == l;
    assert Scrubbed(l) == l;
    assert Collapsed(l) == l by {
      assert l[1..] == [];
    }
    TrimmedFixed(l);
  }

  /** `toLowerCase()`. */
  function Lowered(s: string): (r: string)
    ensures |r| == |s| && forall i :: 0 <= i < |s| ==> r[i] == ToLower(s[i])
  {
    seq(|s|, i requires 0 <= i < |s| => ToLower(s[i]))
  }

  /** `replace(/[^a-z0-9\s]/g, ' ')`. */
  function Scrubbed(s: string): (r: string)
    ensures |r| == |s|
    ensures forall i :: 0 <= i < |s| ==> r[i] == if IsKept(s[i]) then s[i] else ' '
  {
    seq(|s|, i requires 0 <= i < |s| => if IsKept(s[i]) then s[i] else ' ')
  }

  /** Leading `\s` removed (the first half of `trim`). */
  function DropSpaces(s: string): (r: string)
    ensures |r| <= |s|
    decreases |s|
  {
    if s != [] && IsSpace(s[0]) then DropSpaces(s[1..]) else s
  }

  /** Trailing `\s` removed (the second half of `trim`). */
  function DropTrailingSpaces(s: string): (r: string)
    ensures |r| <= |s|
    decreases |s|
  {
    if s != [] && IsSpace(s[|s| - 1]) then DropTrailingSpaces(s[..|s| - 1]) else s
  }

  /** Dropping the leading spaces leaves a suffix of the text that does not
      start with a space. */
  lemma {:induction false} DropSpacesSuffix(s: string)
    ensures var r := DropSpaces(s); r == s[|s| - |r|..] && (r == [] || !IsSpace(r[0]))
    decreases |s|
  {
    if s != [] && IsSpace(s[0]) {
      DropSpacesSuffix(s[1..]);
    }
  }

  /** Dropping the trailing spaces leaves a prefix of the text that does not
      end with a space. */
  lemma {:induction false} DropTrailingSpacesPrefix(s: string)
    ensures var r := DropTrailingSpaces(s); r == s[..|r|] && (r == [] || !IsSpace(r[|r| - 1]))
    decreases |s|
  {
    if s != [] && IsSpace(s[|s| - 1]) {
      DropTrailingSpacesPrefix(s[..|s| - 1]);
    }
  }

  /** `trim()`: never lengthens the text and leaves no space at either end. */
  function Trimmed(s: string): (r: string)
    ensures |r| <= |s|
    ensures r == [] || (!IsSpace(r[0]) && !IsSpace(r[|r| - 1]))
  {
    DropSpacesSuffix(s);
    DropTrailingSpacesPrefix(DropSpaces(s));
    DropTrailingSpaces(DropSpaces(s))
  }

  /** `replace(/\s+/g, ' ')`: every run of `\s` becomes one plain space and the
      other characters are kept in order. The result is never longer and
      starts like the text, with a plain space for a leading blank. */
  function Collapsed(s: string): (r: string)
    ensures |r| <= |s|
    ensures s != [] ==> r != [] && r[0] == (if IsSpace(s[0]) then ' ' else s[0])
    decreases |s|
  {
    if s == [] then []
    else if IsSpace(s[0]) then [' '] + Collapsed(DropSpaces(s[1..]))
    else [s[0]] + Collapsed(s[1..])
  }

  /** `normalizarTexto` (src/bot.js and lanchonete-bot/src/bot.js): the
      result holds only `a`-`z`, `0`-`9` and single inner spaces. */
  function Normalize(s: string): (r: string)
    ensures IsNormalized(r)
  {
    var k := Scrubbed(Lowered(WithoutMarks(Decomposed(s))));
    CollapsedNormalChars(k);
    CollapsedNoDoubleSpace(k);
    TrimmedNormalized(Collapsed(k));
    Trimmed(Collapsed(k))
  }

  /** Dropping the leading spaces loses no letter or digit. */
  lemma {:induction false} DropSpacesSolid(s: string)
    ensures Solid(DropSpaces(s)) == Solid(s)
    decreases |s|
  {
    if s != [] && IsSpace(s[0]) {
      DropSpacesSolid(s[1..]);
    }
  }

  /** Dropping the trailing spaces loses no letter or digit. */
  lemma {:induction false} DropTrailingSpacesSolid(s: string)
    ensures Solid(DropTrailingSpaces(s)) == Solid(s)
    decreases |s|
  {
    if s != [] && IsSpace(s[|s| - 1]) {
      DropTrailingSpacesSolid(s[..|s| - 1]);
      SolidAppend(s[..|s| - 1], [s[|s| - 1]]);
      assert s == s[..|s| - 1] + [s[|s| - 1]];
    }
  }

  /** `trim` keeps every letter and digit. */
  lemma TrimmedSolid(s: string)
    ensures Solid(Trimmed(s)) == Solid(s)
  {
    DropSpacesSolid(s);
    DropTrailingSpacesSolid(DropSpaces(s));
  }

  /** `trim` turns a text of normal characters without double spaces into a
      normalised one. */
  lemma TrimmedNormalized(s: string)
    requires forall i :: 0 <= i < |s| ==> IsNormal(s[i])
    requires NoDoubleSpace(s)
    ensures IsNormalized(Trimmed(s))
  {
    var d := DropSpaces(s);
    var r := DropTrailingSpaces(d);
    DropSpacesSuffix(s);
    DropTrailingSpacesPrefix(d);
    var off := |s| - |d|;
    assert r == s[off..off + |r|];
    forall i | 0 <= i < |r|
      ensures IsNormal(r[i])
    {
      assert r[i] == s[off + i];
    }
    forall i | 0 <= i < |r| - 1
      ensures !SpacePairAt(r, i)
    {
      assert !SpacePairAt(s, off + i);
    }
  }

  /** Leading blanks are dropped only up to the first other character. */
  lemma {:induction false} DropSpacesAppend(x: string, y: string)
    requires x != [] && !IsSpace(x[|x| - 1])
    ensures DropSpaces(x + y) == DropSpaces(x) + y
    ensures DropSpaces(x) != [] && DropSpaces(x)[|DropSpaces(x)| - 1] == x[|x| - 1]
    decreases |x|
  {
    if IsSpace(x[0]) {
      assert (x + y)[1..] == x[1..] + y;
      DropSpacesAppend(x[1..], y);
    }
  }

  /** Collapsing keeps word boundaries: a blank run after a word becomes
      exactly one space, and the text after the run is collapsed on its
      own. `coca  cola` becomes `coca cola`, never `cocacola`. */
  lemma {:induction false} CollapsedBoundary(a: string, b: char, c: string)
    requires a == [] || !IsSpace(a[|a| - 1])
    requires IsSpace(b)
    ensures Collapsed(a + [b] + c) == Collapsed(a) + " " + Collapsed(DropSpaces(c))
    decreases |a|
  {
    var x := a + [b] + c;
    if a == [] {
      assert x == [b] + c;
    } else if !IsSpace(a[0]) {
      assert x[0] == a[0] && x[1..] == a[1..] + [b] + c;
      CollapsedBoundary(a[1..], b, c);
    } else {
      var d := DropSpaces(a[1..]);
      assert x[1..] == a[1..] + ([b] + c);
      DropSpacesAppend(a[1..], [b] + c);
      assert d + ([b] + c) == d + [b] + c;
      CollapsedBoundary(d, b, c);
    }
  }

  /** Collapsing keeps every letter and digit. */
  lemma {:induction false} CollapsedSolid(s: string)
    ensures Solid(Collapsed(s)) == Solid(s)
    decreases |s|
  {
    if s != [] {
      if IsSpace(s[0]) {
        var t := DropSpaces(s[1..]);
        CollapsedSolid(t);
        DropSpacesSolid(s[1..]);
        SolidAppend([' '], Collapsed(t));
      } else {
        CollapsedSolid(s[1..]);
        SolidAppend([s[0]], Collapsed(s[1..]));
      }
    }
  }

  /** Collapsing a text of kept characters leaves normal characters only. */
  lemma {:induction false} CollapsedNormalChars(s: string)
    requires forall i :: 0 <= i < |s| ==> IsKept(s[i])
    ensures forall i :: 0 <= i < |Collapsed(s)| ==> IsNormal(Collapsed(s)[i])
    decreases |s|
  {
    if s != [] {
      var t := if IsSpace(s[0]) then DropSpaces(s[1..]) else s[1..];
      DropSpacesSuffix(s[1..]);
      forall i | 0 <= i < |t|
        ensures IsKept(t[i])
      {
        assert t[i] == s[|s| - |t| + i];
      }
      CollapsedNormalChars(t);
      var r := Collapsed(s);
      assert r == [r[0]] + Collapsed(t);
      forall i | 0 <= i < |r|
        ensures IsNormal(r[i])
      {
        if i > 0 { assert r[i] == Collapsed(t)[i - 1]; }
      }
    }
  }

  /** Collapsing leaves no two adjacent spaces. */
  lemma {:induction false} CollapsedNoDoubleSpace(s: string)
    ensures NoDoubleSpace(Collapsed(s))
    decreases |s|
  {
    if s != [] {
      var t := if IsSpace(s[0]) then DropSpaces(s[1..]) else s[1..];
      DropSpacesSuffix(s[1..]);
      CollapsedNoDoubleSpace(t);
      var r := Collapsed(s);
      assert r == [r[0]] + Collapsed(t);
      forall i | 0 <= i < |r| - 1
        ensures !SpacePairAt(r, i)
      {
        if i > 0 {
          assert !SpacePairAt(Collapsed(t), i - 1);
        } else if IsSpace(s[0]) {
          assert r[1] == Collapsed(t)[0];
        }
      }
    }
  }

  lemma {:induction false} SolidAppend(a: string, b: string)
    ensures Solid(a + b) == Solid(a) + Solid(b)
    decreases |a|
  {
    if a == [] {
      assert a + b == b;
    } else {
      assert (a + b)[0] == a[0] && (a + b)[1..] == a[1..] + b;
      SolidAppend(a[1..], b);
    }
  }

  /** A letter, plain or accented: what `normalize('NFD')` splits into a
      letter, possibly followed by one combining mark. */
  predicate IsWordChar(c: char) {
    IsLetter(c) || |Decompose(c)| == 2
  }

  /** The base letters of a word: each character without its accent. */
  function Bases(w: string): (r: string)
    ensures |r| == |w|
    decreases |w|
  {
    if w == [] then [] else [Decompose(w[0])[0]] + Bases(w[1..])
  }

  /** Decomposing a word and dropping the marks leaves its base letters. */
  lemma {:induction false} BasesUnmarked(w: string)
    requires forall i :: 0 <= i < |w| ==> IsWordChar(w[i])
    ensures WithoutMarks(Decomposed(w)) == Bases(w)
    ensures forall i :: 0 <= i < |w| ==> IsLetter(Bases(w)[i])
    decreases |w|
  {
    if w != [] {
      var d, rest := Decompose(w[0]), w[1..];
      assert forall i :: 0 <= i < |rest| ==> IsWordChar(rest[i]) by {
        assert forall i :: 0 <= i < |rest| ==> rest[i] == w[i + 1];
      }
      BasesUnmarked(rest);
      BaseUnmarked(w[0]);
      assert WithoutMarks(Decomposed(w)) == Bases(w) by {
        WithoutMarksAppend(d, Decomposed(rest));
      }
      assert forall i :: 0 <= i < |w| ==> IsLetter(Bases(w)[i]) by {
        assert forall i :: 0 < i < |w| ==> Bases(w)[i] == Bases(rest)[i - 1];
      }
    }
  }

  /** A letter loses its accent and nothing else. */
  lemma BaseUnmarked(c: char)
    requires IsWordChar(c)
    ensures var d := Decompose(c); WithoutMarks(d) == [d[0]] && IsLetter(d[0])
  {
    var d := Decompose(c);
    if |d| == 2 {
      assert d[1..][0] == d[1] && d[1..][1..] == [];
      assert WithoutMarks(d[1..]) == [];
    }
  }

  /** A word of letters, accented or not, normalises to its base letters in
      lower case: accents go, and no letter is lost or added. */
  lemma NormalizeWord(w: string)
    requires forall i :: 0 <= i < |w| ==> IsWordChar(w[i])
    ensures Normalize(w) == Lowered(Bases(w))
  {
    BasesUnmarked(w);
    LetterTail(Bases(w));
  }

  /** Past mark removal, a text of letters is only lower-cased. */
  lemma LetterTail(b: string)
    requires forall i :: 0 <= i < |b| ==> IsLetter(b[i])
    ensures Trimmed(Collapsed(Scrubbed(Lowered(b)))) == Lowered(b)
  {
    var l := Lowered(b);
    assert forall i :: 0 <= i < |l| ==> IsLower(l[i]);
    assert IsNormalized(l);
    LoweredScrubbedNormal(l);
    CollapsedNormal(l);
    TrimmedNormal(l);
  }

  /** `Ção` normalises to `cao`. */
  lemma NormalizeCao(s: string)
    requires s == "\U{C7}\U{E3}o"
    ensures Normalize(s) == "cao"
  {
    CaoWordChars(s);
    CaoBases(s);
    NormalizeWord(s);
    assert Lowered("Cao") == "cao";
  }

  lemma CaoWordChars(s: string)
    requires s == "\U{C7}\U{E3}o"
    ensures forall i :: 0 <= i < |s| ==> IsWordChar(s[i])
  {
    assert IsWordChar(s[0]) by { assert Decompose('\U{C7}') == ['C', '\U{327}']; }
    assert IsWordChar(s[1]) by { assert Decompose('\U{E3}') == ['a', '\U{303}']; }
    assert IsWordChar(s[2]);
  }

  lemma CaoBases(s: string)
    requires s == "\U{C7}\U{E3}o"
    ensures Bases(s) == "Cao"
  {
    assert s[1..][1..][1..] == [];
    assert Bases(s[1..][1..]) == "o";
    assert Bases(s[1..]) == "ao";
  }

  /** A character that separates words: an ASCII character that is neither
      a letter nor a digit, such as a blank, a comma or a full stop. */
  predicate IsSeparator(c: char) {
    c < '\U{80}' && !IsLetter(c) && !IsDigit(c)
  }

  /** Two normalised words with a separator between them normalise to the
      words joined by one space: `coca,cola` becomes `coca cola`. */
  lemma NormalizeJoinsWords(a: string, c: char, b: string)
    requires IsNormalized(a) && IsNormalized(b) && a != [] && b != []
    requires IsSeparator(c)
    ensures Normalize(a + [c] + b) == a + " " + b
  {
    SeparatorScrubbed(a, c, b);
    BlankJoined(a, if IsKept(c) then c else ' ', b);
  }

  /** Collapsing and trimming two normalised words around a blank join
      them with one space. */
  lemma BlankJoined(a: string, c: char, b: string)
    requires IsNormalized(a) && IsNormalized(b) && a != [] && b != []
    requires IsSpace(c)
    ensures Trimmed(Collapsed(a + [c] + b)) == a + " " + b
  {
    NormalIsSpaceOnlyIfBlank(a[|a| - 1]);
    NormalIsSpaceOnlyIfBlank(b[0]);
    NormalIsSpaceOnlyIfBlank(b[|b| - 1]);
    NormalIsSpaceOnlyIfBlank(a[0]);
    CollapsedBoundary(a, c, b);
    assert DropSpaces(b) == b;
    CollapsedNormal(a);
    CollapsedNormal(b);
    var r := a + " " + b;
    assert r[0] == a[0] && r[|r| - 1] == b[|b| - 1];
    TrimmedFixed(r);
  }

  /** The steps before collapsing leave the two words alone and turn the
      separator into a blank. */
  lemma SeparatorScrubbed(a: string, c: char, b: string)
    requires forall i :: 0 <= i < |a| ==> IsNormal(a[i])
    requires forall i :: 0 <= i < |b| ==> IsNormal(b[i])
    requires IsSeparator(c)
    ensures Scrubbed(Lowered(WithoutMarks(Decomposed(a + [c] + b)))) ==
      a + [if IsKept(c) then c else ' '] + b
    ensures IsSpace(if IsKept(c) then c else ' ')
  {
    var x := a + [c] + b;
    AsciiJoined(a, c, b);
    DecomposedAscii(x);
    WithoutMarksAscii(x);
    SeparatorLowered(a, c, b);
  }

  lemma AsciiJoined(a: string, c: char, b: string)
    requires forall i :: 0 <= i < |a| ==> IsNormal(a[i])
    requires forall i :: 0 <= i < |b| ==> IsNormal(b[i])
    requires IsSeparator(c)
    ensures var x := a + [c] + b; forall i :: 0 <= i < |x| ==> x[i] < '\U{80}'
  {
    var x := a + [c] + b;
    forall i | 0 <= i < |x|
      ensures x[i] < '\U{80}'
    {
      if i < |a| {
        assert x[i] == a[i];
      } else if i > |a| {
        assert x[i] == b[i - |a| - 1];
      }
    }
  }

  lemma SeparatorLowered(a: string, c: char, b: string)
    requires forall i :: 0 <= i < |a| ==> IsNormal(a[i])
    requires forall i :: 0 <= i < |b| ==> IsNormal(b[i])
    requires IsSeparator(c)
    ensures Scrubbed(Lowered(a + [c] + b)) == a + [if IsKept(c) then c else ' '] + b
  {
    var x := a + [c] + b;
    var y := a + [if IsKept(c) then c else ' '] + b;
    forall i | 0 <= i < |x|
      ensures Scrubbed(Lowered(x))[i] == y[i]
    {
      if i < |a| {
        NormalIsSpaceOnlyIfBlank(a[i]);
      } else if i > |a| {
        NormalIsSpaceOnlyIfBlank(b[i - |a| - 1]);
      }
    }
  }

  /** `coca,cola` normalises to `coca cola`. */
  lemma NormalizeCocaCola(s: string)
    requires s == "coca,cola"
    ensures Normalize(s) == "coca cola"
  {
    assert s == "coca" + [','] + "cola";
    assert IsNormalized("coca");
    assert IsNormalized("cola");
    NormalizeJoinsWords("coca", ',', "cola");
  }

  /** A normalised text is the one that nothing in the chain changes. */
  lemma NormalizedIsFixed(r: string)
    requires IsNormalized(r)
    ensures Normalize(r) == r
  {
    DecomposedAscii(r);
    WithoutMarksAscii(r);
    LoweredScrubbedNormal(r);
    CollapsedNormal(r);
    TrimmedNormal(r);
  }

  lemma TrimmedNormal(r: string)
    requires IsNormalized(r)
    ensures Trimmed(r) == r
  {
    if r != [] {
      NormalIsSpaceOnlyIfBlank(r[0]);
      NormalIsSpaceOnlyIfBlank(r[|r| - 1]);
    }
    TrimmedFixed(r);
  }

  /** `trim` leaves alone a string with no space at either end. */
  lemma TrimmedFixed(r: string)
    requires r == [] || (!IsSpace(r[0]) && !IsSpace(r[|r| - 1]))
    ensures Trimmed(r) == r
  {
    assert DropSpaces(r) == r;
    assert DropTrailingSpaces(r) == r;
  }

  /** `trim` is idempotent. */
  lemma TrimmedIdempotent(s: string)
    ensures Trimmed(Trimmed(s)) == Trimmed(s)
  {
    TrimmedFixed(Trimmed(s));
  }

  lemma NormalIsSpaceOnlyIfBlank(c: char)
    requires IsNormal(c)
    ensures IsSpace(c) <==> c == ' '
    ensures IsKept(c) && ToLower(c) == c
  {
  }

  lemma LoweredScrubbedNormal(s: string)
    requires forall i :: 0 <= i < |s| ==> IsNormal(s[i])
    ensures Lowered(s) == s && Scrubbed(s) == s
  {
    forall i | 0 <= i < |s|
      ensures Lowered(s)[i] == s[i] && Scrubbed(s)[i] == s[i]
    {
      NormalIsSpaceOnlyIfBlank(s[i]);
    }
  }

  /** ASCII text has nothing to decompose. */
  lemma {:induction false} DecomposedAscii(s: string)
    requires forall i :: 0 <= i < |s| ==> s[i] < '\U{80}'
    ensures Decomposed(s) == s
    decreases |s|
  {
    if s != [] {
      DecomposedAscii(s[1..]);
    }
  }

  /** ASCII text holds no combining mark to remove. */
  lemma {:induction false} WithoutMarksAscii(s: string)
    requires forall i :: 0 <= i < |s| ==> s[i] < '\U{80}'
    ensures WithoutMarks(s) == s
    decreases |s|
  {
    if s != [] {
      WithoutMarksAscii(s[1..]);
    }
  }

  lemma {:induction false} CollapsedNormal(s: string)
    requires forall i :: 0 <= i < |s| ==> IsNormal(s[i])
    requires NoDoubleSpace(s)
    ensures Collapsed(s) == s
    decreases |s|
  {
    if s != [] {
      NormalIsSpaceOnlyIfBlank(s[0]);
      forall i | 0 <= i < |s[1..]| - 1
        ensures !SpacePairAt(s[1..], i)
      {
        assert !SpacePairAt(s, i + 1);
      }
      CollapsedNormal(s[1..]);
      if s[0] == ' ' && |s| > 1 {
        assert !SpacePairAt(s, 0);
        NormalIsSpaceOnlyIfBlank(s[1]);
        assert !IsSpace(s[1..][0]);
      }
    }
  }

  /** `normalizarTexto` is idempotent, and its fixed points are exactly the
      normalised texts. */
  lemma NormalizeIdempotent(s: string)
    ensures Normalize(Normalize(s)) == Normalize(s)
    ensures Normalize(s) == s <==> IsNormalized(s)
  {
    NormalizedIsFixed(Normalize(s));
    if IsNormalized(s) {
      NormalizedIsFixed(s);
    }
  }

  /** A normalised text never holds a comma (nor any other punctuation). */
  lemma NormalizeHasNoComma(s: string)
    ensures ',' !in Normalize(s)
  {
  }

  lemma {:induction false} SolidOfScrubbed(s: string)
    ensures Solid(Scrubbed(s)) == LettersAndDigits(s)
    decreases |s|
  {
    if s != [] {
      SolidOfScrubbed(s[1..]);
      assert Scrubbed(s)[1..] == Scrubbed(s[1..]);
    }
  }

  /** Normalisation neither loses nor invents a letter or a digit: the
      non-space characters of the result are exactly the letters `a`-`z` and
      digits left after decomposition, mark removal and lower-casing. In
      particular the result is empty exactly when there are none. */
  lemma NormalizeKeepsLettersAndDigits(s: string)
    ensures Solid(Normalize(s)) == LettersAndDigits(Lowered(WithoutMarks(Decomposed(s))))
    ensures Normalize(s) == [] <==> LettersAndDigits(Lowered(WithoutMarks(Decomposed(s)))) == []
  {
    var k := Scrubbed(Lowered(WithoutMarks(Decomposed(s))));
    SolidOfScrubbed(Lowered(WithoutMarks(Decomposed(s))));
    CollapsedSolid(k);
    TrimmedSolid(Collapsed(k));
    var r := Normalize(s);
    if r != [] {
      assert r[0] != ' ' && IsNormal(r[0]);
      assert Solid(r) == [r[0]] + Solid(r[1..]);
    }
  }
}

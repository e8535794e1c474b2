/**
 * What the pattern of `processarPedido` reads from a few messages, worked
 * out from the backtracking rules `MatchAt` states.
 */
module OrderExamples {
  import opened Wrappers
  import opened Chars
  import opened Strings
  import opened Normalization
  import opened Extractor

  /** `unidade` is tried before `unidades`, so the `s` of the plural ends up
      in the item phrase. */
  lemma UnidadesLeavesS(s: string)
    requires s == "3 unidades coca"
    ensures Fragments(s) == [Fragment(3, "s coca")]
  {
    UnidadesMatch(s);
    SingleMatch(s);
    UnidadesFragment(s);
  }

  /** The fragment read from that match. */
  lemma UnidadesFragment(s: string)
    requires s == "3 unidades coca"
    ensures IsMatch(s, RegexMatch(0, 1, 9, 15)) && Spans(s, RegexMatch(0, 1, 9, 15))
    ensures FragmentOf(s, RegexMatch(0, 1, 9, 15)) == Fragment(3, "s coca")
  {
    assert s[0..1] == "3";
    assert s[9..15] == "s coca";
    PhraseTrimmed("s coca");
    assert DigitsValue("3") == 3;
    UnidadesMatchAt(s);
    FragmentFields(s, RegexMatch(0, 1, 9, 15));
  }

  /** The single match of "3 unidades coca": group 1 is "3", the unit word
      taken is "unidade" and group 2 runs to the end. */
  lemma UnidadesMatch(s: string)
    requires s == "3 unidades coca"
    ensures NextMatch(s, 0) == Some(RegexMatch(0, 1, 9, 15))
    ensures NextMatch(s, 15) == None
  {
    UnidadesMatchAt(s);
    assert NextMatch(s, 15) == None;
  }

  /** Where the matcher stops when started at the first character. */
  lemma UnidadesMatchAt(s: string)
    requires s == "3 unidades coca"
    ensures MatchAt(s, 0) == Some(RegexMatch(0, 1, 9, 15))
  {
    assert RunEnd(s, 1, IsDigit) == 1;
    assert RunEnd(s, 0, IsDigit) == 1;
    assert RunEnd(s, 2, IsSpace) == 2;
    assert RunEnd(s, 1, IsSpace) == 2;
    assert UnitAt(s, 2, "unidade");
    assert RunEnd(s, 9, IsSpace) == 9;
    assert RunEnd(s, 15, IsPhraseChar) == 15;
    assert RunEnd(s, 14, IsPhraseChar) == 15;
    assert RunEnd(s, 13, IsPhraseChar) == 15;
    assert RunEnd(s, 12, IsPhraseChar) == 15;
    assert RunEnd(s, 11, IsPhraseChar) == 15;
    assert RunEnd(s, 10, IsPhraseChar) == 15;
    assert RunEnd(s, 9, IsPhraseChar) == 15;
    assert Group2(s, 9) == Some((9, 15));
    assert UnitEnd(s, 1) == 9;
  }

  /** The unit `x` is taken even when it begins a word: "2 xis" asks for
      the item phrase "is". */
  lemma XisLosesX(s: string)
    requires s == "2 xis"
    ensures Fragments(s) == [Fragment(2, "is")]
  {
    XisMatch(s);
    SingleMatch(s);
    XisFragment(s);
  }

  /** The fragment read from that match. */
  lemma XisFragment(s: string)
    requires s == "2 xis"
    ensures IsMatch(s, RegexMatch(0, 1, 3, 5)) && Spans(s, RegexMatch(0, 1, 3, 5))
    ensures FragmentOf(s, RegexMatch(0, 1, 3, 5)) == Fragment(2, "is")
  {
    assert s[0..1] == "2";
    assert s[3..5] == "is";
    PhraseTrimmed("is");
    assert DigitsValue("2") == 2;
    XisMatchAt(s);
    FragmentFields(s, RegexMatch(0, 1, 3, 5));
  }

  /** The single match of "2 xis". */
  lemma XisMatch(s: string)
    requires s == "2 xis"
    ensures NextMatch(s, 0) == Some(RegexMatch(0, 1, 3, 5))
    ensures NextMatch(s, 5) == None
  {
    XisMatchAt(s);
    assert NextMatch(s, 5) == None;
  }

  /** Where the matcher stops when started at the first character. */
  lemma XisMatchAt(s: string)
    requires s == "2 xis"
    ensures MatchAt(s, 0) == Some(RegexMatch(0, 1, 3, 5))
  {
    assert RunEnd(s, 1, IsDigit) == 1;
    assert RunEnd(s, 0, IsDigit) == 1;
    assert RunEnd(s, 2, IsSpace) == 2;
    assert RunEnd(s, 1, IsSpace) == 2;
    assert !UnitAt(s, 2, "unidade");
    assert !UnitAt(s, 2, "unidades");
    assert UnitAt(s, 2, "x");
    assert RunEnd(s, 3, IsSpace) == 3;
    assert RunEnd(s, 5, IsPhraseChar) == 5;
    assert RunEnd(s, 4, IsPhraseChar) == 5;
    assert RunEnd(s, 3, IsPhraseChar) == 5;
    assert Group2(s, 3) == Some((3, 5));
    assert UnitEnd(s, 1) == 3;
  }

  /** A digit with no unit and no letter after it still matches: `\s*`
      gives its last blank back to group 2, so "2 3 coca" reads as two
      fragments, the first with an empty phrase. */
  lemma DigitsLeaveEmptyPhrase(s: string)
    requires s == "2 3 coca"
    ensures Fragments(s) == [Fragment(2, ""), Fragment(3, "coca")]
  {
    TwoThreeMatches(s);
    FragmentsFromStep(s, 0);
    FragmentsFromStep(s, 2);
    TwoThreeFragments(s);
    assert FragmentsFrom(s, 8) == [];
  }

  /** The fragments read from the two matches. */
  lemma TwoThreeFragments(s: string)
    requires s == "2 3 coca"
    ensures Spans(s, RegexMatch(0, 1, 1, 2)) && Spans(s, RegexMatch(2, 3, 4, 8))
    ensures FragmentOf(s, RegexMatch(0, 1, 1, 2)) == Fragment(2, "")
    ensures FragmentOf(s, RegexMatch(2, 3, 4, 8)) == Fragment(3, "coca")
  {
    assert s[0..1] == "2";
    assert s[1..2] == " ";
    assert Trimmed(" ") == "";
    assert s[2..3] == "3";
    assert s[4..8] == "coca";
    PhraseTrimmed("coca");
    assert DigitsValue("2") == 2;
    assert DigitsValue("3") == 3;
  }

  /** The matches of "2 3 coca": the first is the digit `2` with the blank
      after it as group 2, the second is `3` with `coca`. */
  lemma TwoThreeMatches(s: string)
    requires s == "2 3 coca"
    ensures NextMatch(s, 0) == Some(RegexMatch(0, 1, 1, 2))
    ensures NextMatch(s, 2) == Some(RegexMatch(2, 3, 4, 8))
    ensures NextMatch(s, 8) == None
  {
    TwoThreeFirstAt(s);
    TwoThreeSecondAt(s);
    assert NextMatch(s, 8) == None;
  }

  /** At the first digit no unit is written and no letter follows, so group
      2 is the blank `\s*` gives back. */
  lemma TwoThreeFirstAt(s: string)
    requires s == "2 3 coca"
    ensures MatchAt(s, 0) == Some(RegexMatch(0, 1, 1, 2))
  {
    assert RunEnd(s, 1, IsDigit) == 1;
    assert RunEnd(s, 0, IsDigit) == 1;
    assert RunEnd(s, 2, IsSpace) == 2;
    assert RunEnd(s, 1, IsSpace) == 2;
    assert !UnitAt(s, 2, "unidade");
    assert !UnitAt(s, 2, "unidades");
    assert !UnitAt(s, 2, "x");
    assert UnitEnd(s, 1) == 1;
    assert Group2(s, 1) == Some((1, 2));
  }

  /** At the second digit no unit is written and `coca` is group 2. */
  lemma TwoThreeSecondAt(s: string)
    requires s == "2 3 coca"
    ensures MatchAt(s, 2) == Some(RegexMatch(2, 3, 4, 8))
  {
    assert RunEnd(s, 3, IsDigit) == 3;
    assert RunEnd(s, 2, IsDigit) == 3;
    assert RunEnd(s, 4, IsSpace) == 4;
    assert RunEnd(s, 3, IsSpace) == 4;
    assert !UnitAt(s, 4, "unidade");
    assert !UnitAt(s, 4, "unidades");
    assert !UnitAt(s, 4, "x");
    assert UnitEnd(s, 3) == 3;
    assert RunEnd(s, 8, IsPhraseChar) == 8;
    assert RunEnd(s, 7, IsPhraseChar) == 8;
    assert RunEnd(s, 6, IsPhraseChar) == 8;
    assert RunEnd(s, 5, IsPhraseChar) == 8;
    assert RunEnd(s, 4, IsPhraseChar) == 8;
    assert Group2(s, 3) == Some((4, 8));
  }

  /** `trim` leaves a phrase with no space at either end as it is. */
  lemma PhraseTrimmed(p: string)
    requires p == [] || (IsLetter(p[0]) && IsLetter(p[|p| - 1]))
    ensures Trimmed(p) == p
  {
    TrimmedFixed(p);
  }
}

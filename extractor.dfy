/**
 * `processarPedido`: the global regular expression
 * `/(\d+)\s*(?:unidade|unidades|x)?\s*([a-z\s]+)/gi` is run over the text
 * with `exec`, each match giving a quantity (`parseInt` of group 1) and an
 * item phrase (group 2, trimmed); each phrase is resolved by `encontrarItem`
 * and only resolved items are kept.
 *
 * `MatchAt` states where the backtracking matcher succeeds when started at
 * one position; `NextMatch` is `exec` (the leftmost success at or after
 * `lastIndex`); `ProcessOrder` is the source's loop.
 */
module Extractor {
  import opened Wrappers
  import opened Chars
  import opened Strings
  import opened Normalization
  import opened Catalog
  import opened Matcher

  /** Where one match lies: group 1 is `s[start..digitsEnd]`, group 2 is
      `s[phraseStart..end]`, and the match ends at `end`. */
  datatype RegexMatch = RegexMatch(start: nat, digitsEnd: nat, phraseStart: nat, end: nat)

  /** `(quantity, item phrase)` taken from one match. */
  datatype Fragment = Fragment(quantity: nat, phrase: string)

  /** `[a-z\s]` under the `i` flag. */
  predicate IsPhraseChar(c: char) {
    IsLetter(c) || IsSpace(c)
  }

  /** The end of the longest run of characters satisfying `p` from `i`: what a
      greedy `p*` consumes. */
  function RunEnd(s: string, i: nat, p: char -> bool): (j: nat)
    requires i <= |s|
    ensures i <= j <= |s|
    decreases |s| - i
  {
    if i < |s| && p(s[i]) then RunEnd(s, i + 1, p) else i
  }

  /** The run ends at the first character outside `p`. */
  lemma {:induction false} RunEndFacts(s: string, i: nat, p: char -> bool)
    requires i <= |s|
    ensures forall x :: i <= x < RunEnd(s, i, p) ==> p(s[x])
    ensures RunEnd(s, i, p) == |s| || !p(s[RunEnd(s, i, p)])
    decreases |s| - i
  {
    if i < |s| && p(s[i]) {
      RunEndFacts(s, i + 1, p);
    }
  }

  /** `s` holds the unit word `u` at position `i`, ignoring ASCII case. */
  predicate UnitAt(s: string, i: nat, u: string)
    decreases |u|
  {
    u == [] || (i < |s| && ToLower(s[i]) == u[0] && UnitAt(s, i + 1, u[1..]))
  }

  /** Where `\s*([a-z\s]+)` puts group 2 when started at `u`, or None when it
      fails there. The greedy `\s*` takes every space; if a letter follows,
      group 2 is the longest run of letters and spaces from it; otherwise
      `\s*` gives back its last space, which alone becomes group 2. */
  function Group2(s: string, u: nat): (g: Option<(nat, nat)>)
    requires u <= |s|
    ensures g.Some? ==> u <= g.value.0 < g.value.1 <= |s|
    ensures g.None? <==> u == |s| || !IsPhraseChar(s[u])
    ensures g.Some? ==> IsPhraseChar(s[g.value.1 - 1])
  {
    var w := RunEnd(s, u, IsSpace);
    RunEndLast(s, u, IsSpace);
    if w < |s| && IsLetter(s[w]) then
      RunEndLast(s, w, IsPhraseChar);
      Some((w, RunEnd(s, w, IsPhraseChar)))
    else if w > u then Some((w - 1, w))
    else None
  }

  /** A non-empty run ends on a character of its class. */
  lemma {:induction false} RunEndLast(s: string, i: nat, p: char -> bool)
    requires i <= |s|
    ensures RunEnd(s, i, p) > i ==> p(s[RunEnd(s, i, p) - 1])
    decreases |s| - i
  {
    if i < |s| && p(s[i]) {
      RunEndLast(s, i + 1, p);
    }
  }

  /** Only spaces come before group 2, group 2 holds letters and spaces, and
      it stops at the first character that is neither. */
  lemma Group2Facts(s: string, u: nat)
    requires u <= |s|
    ensures var g := Group2(s, u);
      g.Some? ==>
        && (forall x :: u <= x < g.value.0 ==> IsSpace(s[x]))
        && (forall x :: g.value.0 <= x < g.value.1 ==> IsPhraseChar(s[x]))
        && (g.value.1 == |s| || !IsPhraseChar(s[g.value.1]))
  {
    var w := RunEnd(s, u, IsSpace);
    RunEndFacts(s, u, IsSpace);
    if w < |s| && IsLetter(s[w]) {
      RunEndFacts(s, w, IsPhraseChar);
    }
  }

  /** The match found when the matcher is started at position `p`, if any.
      `\d+` takes the whole digit run (a shorter one leaves a digit that
      nothing after it accepts). The unit alternatives are tried in the
      order written, so `unidade` is taken before `unidades` could be; when
      no unit leads to a match, the pattern reduces to `\s*([a-z\s]+)` right
      after the digits. */
  function MatchAt(s: string, p: nat): (r: Option<RegexMatch>)
    requires p <= |s|
    ensures r.Some? ==> r.value.start == p < r.value.digitsEnd <= r.value.phraseStart < r.value.end <= |s|
    ensures r.Some? ==> IsPhraseChar(s[r.value.end - 1])
    ensures (p == |s| || !IsDigit(s[p])) ==> r.None?
  {
    if p == |s| || !IsDigit(s[p]) then None
    else
      var q := RunEnd(s, p, IsDigit);
      match Group2(s, UnitEnd(s, q))
      case None => None
      case Some((a, b)) => Some(RegexMatch(p, q, a, b))
  }

  /** The words of `(?:unidade|unidades|x)`, in the order the alternation
      tries them. */
  const Units: seq<string> := ["unidade", "unidades", "x"]

  /** Where `\s*([a-z\s]+)` starts once the digits end at `q`: just after
      the first unit word, in the order written, that still lets group 2
      match, or at `q` itself when none does. */
  function UnitEnd(s: string, q: nat): (u: nat)
    requires q <= |s|
    ensures q <= u <= |s|
    ensures u != q ==> Group2(s, u).Some?
  {
    UnitEndFrom(s, q, RunEnd(s, q, IsSpace), Units)
  }

  /** The alternation from the unit word `units[0]` on, tried at `w`. */
  function UnitEndFrom(s: string, q: nat, w: nat, units: seq<string>): (u: nat)
    requires q <= w <= |s|
    ensures q <= u <= |s|
    ensures u != q ==> Group2(s, u).Some?
    decreases |units|
  {
    if units == [] then q
    else if w + |units[0]| <= |s| && UnitAt(s, w, units[0]) && Group2(s, w + |units[0]|).Some? then
      w + |units[0]|
    else UnitEndFrom(s, q, w, units[1..])
  }

  /** The unit word `unit` can be taken at `w`: it is written there, and
      group 2 can still match right after it. */
  predicate UnitFits(s: string, w: nat, unit: string) {
    w + |unit| <= |s| && UnitAt(s, w, unit) && Group2(s, w + |unit|).Some?
  }

  /** `units[k]` is the first alternative, in the order written, that fits
      at `w`. */
  predicate FirstFit(s: string, w: nat, units: seq<string>, k: nat) {
    k < |units| && UnitFits(s, w, units[k]) &&
    forall j :: 0 <= j < k ==> !UnitFits(s, w, units[j])
  }

  /** The alternation takes the first alternative that fits, and falls back
      to `q` when none does. */
  lemma {:induction false} UnitEndFromFirstFit(s: string, q: nat, w: nat, units: seq<string>)
    requires q <= w <= |s|
    ensures (forall j :: 0 <= j < |units| ==> !UnitFits(s, w, units[j])) ==>
      UnitEndFrom(s, q, w, units) == q
    ensures (exists j :: 0 <= j < |units| && UnitFits(s, w, units[j])) ==>
      exists k: nat :: FirstFit(s, w, units, k) && UnitEndFrom(s, q, w, units) == w + |units[k]|
    decreases |units|
  {
    if units != [] {
      if UnitFits(s, w, units[0]) {
        assert FirstFit(s, w, units, 0);
      } else {
        UnitEndFromFirstFit(s, q, w, units[1..]);
        if exists j :: 0 <= j < |units| && UnitFits(s, w, units[j]) {
          var j :| 0 <= j < |units| && UnitFits(s, w, units[j]);
          assert units[1..][j - 1] == units[j];
          var k: nat :| FirstFit(s, w, units[1..], k) && UnitEndFrom(s, q, w, units[1..]) == w + |units[1..][k]|;
          FirstFitShift(s, w, units, k);
        } else {
          forall j | 0 <= j < |units[1..]|
            ensures !UnitFits(s, w, units[1..][j])
          {
            assert units[1..][j] == units[j + 1];
          }
        }
      }
    }
  }

  /** The first fit after an alternative that does not fit is the first fit
      of the whole list. */
  lemma FirstFitShift(s: string, w: nat, units: seq<string>, k: nat)
    requires units != [] && !UnitFits(s, w, units[0])
    requires FirstFit(s, w, units[1..], k)
    ensures FirstFit(s, w, units, k + 1)
  {
    forall j | 0 <= j < k + 1
      ensures !UnitFits(s, w, units[j])
    {
      if j > 0 {
        assert units[j] == units[1..][j - 1];
      }
    }
  }

  /** After the digits end at `q`, the matcher skips the blanks up to `w`,
      then takes the first of `unidade`, `unidades`, `x`, in that order, that
      is written there and lets group 2 match after it. It stays at `q`
      exactly when none does. */
  lemma UnitEndFirstFit(s: string, q: nat)
    requires q <= |s|
    ensures var w := RunEnd(s, q, IsSpace); var u := UnitEnd(s, q);
      && (forall x :: q <= x < w ==> IsSpace(s[x]))
      && (u == q <==> forall j :: 0 <= j < |Units| ==> !UnitFits(s, w, Units[j]))
      && (u != q ==> exists k: nat :: FirstFit(s, w, Units, k) && u == w + |Units[k]|)
  {
    var w := RunEnd(s, q, IsSpace);
    RunEndFacts(s, q, IsSpace);
    UnitEndFromFirstFit(s, q, w, Units);
    if exists j :: 0 <= j < |Units| && UnitFits(s, w, Units[j]) {
      var k: nat :| FirstFit(s, w, Units, k) && UnitEnd(s, q) == w + |Units[k]|;
      assert |Units[k]| > 0;
    }
  }

  /** What a match found at `p` is: group 1 is a maximal run of digits and
      group 2 a maximal run of letters and spaces. The matcher fails at a
      digit only when what follows the digit run is neither a letter nor a
      space. */
  lemma MatchAtFacts(s: string, p: nat)
    requires p <= |s|
    ensures MatchAt(s, p).Some? ==> WellFormed(s, MatchAt(s, p).value)
    ensures p < |s| && IsDigit(s[p]) && MatchAt(s, p).None? ==>
      var q := RunEnd(s, p, IsDigit); q == |s| || !IsPhraseChar(s[q])
  {
    if p < |s| && IsDigit(s[p]) {
      var q := RunEnd(s, p, IsDigit);
      RunEndFacts(s, p, IsDigit);
      var u := UnitEnd(s, q);
      if Group2(s, u).Some? {
        Group2Facts(s, u);
        assert AllDigits(s[p..q]);
      } else {
        assert u == q;
      }
    }
  }

  /** Between group 1 and group 2 come the unit the alternation took and
      then only blanks. */
  lemma MatchGap(s: string, p: nat)
    requires p <= |s|
    requires MatchAt(s, p).Some?
    ensures var m := MatchAt(s, p).value; var u := UnitEnd(s, m.digitsEnd);
      && m.digitsEnd <= u <= m.phraseStart
      && forall x :: u <= x < m.phraseStart ==> IsSpace(s[x])
  {
    var m := MatchAt(s, p).value;
    Group2Facts(s, UnitEnd(s, m.digitsEnd));
  }

  /** Group 1 is a maximal run of digits; group 2 is a maximal run of letters
      and spaces. */
  ghost predicate WellFormed(s: string, m: RegexMatch) {
    && m.start < m.digitsEnd <= m.phraseStart < m.end <= |s|
    && AllDigits(s[m.start..m.digitsEnd])
    && (m.digitsEnd == |s| || !IsDigit(s[m.digitsEnd]))
    && (forall x :: m.phraseStart <= x < m.end ==> IsPhraseChar(s[x]))
    && (m.end == |s| || !IsPhraseChar(s[m.end]))
  }

  /** Group 1 begins where a run of digits begins. */
  ghost predicate StartsRun(s: string, m: RegexMatch)
    requires m.start <= |s|
  {
    m.start == 0 || !IsDigit(s[m.start - 1])
  }

  /** `regexQuantidade.exec(texto)` with `lastIndex == i`: the leftmost match
      starting at or after `i`. */
  function NextMatch(s: string, i: nat): (r: Option<RegexMatch>)
    requires i <= |s|
    ensures r.Some? ==> i <= r.value.start < |s| && MatchAt(s, r.value.start) == r
    decreases |s| - i
  {
    if MatchAt(s, i).Some? then MatchAt(s, i)
    else if i == |s| then None
    else NextMatch(s, i + 1)
  }

  /** The match `exec` returns starts at `lastIndex` or at the beginning of a
      digit run: the matcher never succeeds inside a run after failing at
      its first digit. */
  lemma NextMatchStart(s: string, i: nat)
    requires i <= |s|
    ensures var r := NextMatch(s, i);
      r.Some? ==> r.value.start == i || !IsDigit(s[r.value.start - 1])
  {
    var r := NextMatch(s, i);
    if r.Some? && r.value.start > i {
      var p := r.value.start - 1;
      NextMatchLeftmost(s, i, p);
      RunContinues(s, p);
    }
  }

  /** `exec` returns the leftmost match: the matcher fails at every
      position it skipped. */
  lemma {:induction false} NextMatchLeftmost(s: string, i: nat, p: nat)
    requires i <= p <= |s|
    requires NextMatch(s, i).None? || p < NextMatch(s, i).value.start
    ensures MatchAt(s, p).None?
    decreases |s| - i
  {
    if MatchAt(s, i).None? && i < |s| && p > i {
      NextMatchLeftmost(s, i + 1, p);
    }
  }

  /** Every match `exec` returns from `lastIndex == i` on, in order; each
      lies inside the text at or after `i`. */
  function MatchesFrom(s: string, i: nat): (r: seq<RegexMatch>)
    requires i <= |s|
    ensures forall m :: m in r ==> i <= m.start < m.end <= |s|
    decreases |s| - i
  {
    match NextMatch(s, i)
    case None => []
    case Some(m) => [m] + MatchesFrom(s, m.end)
  }

  /** `m` is what the matcher finds when started at `m.start`. */
  predicate IsMatch(s: string, m: RegexMatch) {
    m.start <= |s| && MatchAt(s, m.start) == Some(m)
  }

  /** A match never ends on a digit: its last character is a letter or a
      space. */
  lemma MatchEndsOffDigit(s: string, m: RegexMatch)
    requires m.start <= |s| && MatchAt(s, m.start) == Some(m)
    ensures 0 < m.end <= |s| && !IsDigit(s[m.end - 1])
  {
    assert IsPhraseChar(s[m.end - 1]);
  }

  /** Every match `exec` returns from `i` on is a match of the text found at
      or after `i`. */
  lemma {:induction false} MatchesAfter(s: string, i: nat)
    requires i <= |s|
    ensures forall m :: m in MatchesFrom(s, i) ==> i <= m.start && IsMatch(s, m)
    decreases |s| - i
  {
    match NextMatch(s, i)
    case None =>
    case Some(m) =>
      MatchesAfter(s, m.end);
  }

  /** Every match is well formed. */
  lemma MatchesWellFormed(s: string, i: nat)
    requires i <= |s|
    ensures forall m :: m in MatchesFrom(s, i) ==> WellFormed(s, m)
  {
    MatchesAfter(s, i);
    forall m | m in MatchesFrom(s, i)
      ensures WellFormed(s, m)
    {
      MatchAtFacts(s, m.start);
    }
  }

  /** The matches do not overlap and come left to right. */
  lemma {:induction false} MatchesOrdered(s: string, i: nat)
    requires i <= |s|
    ensures forall j, k :: 0 <= j < k < |MatchesFrom(s, i)| ==>
      MatchesFrom(s, i)[j].end <= MatchesFrom(s, i)[k].start
    decreases |s| - i
  {
    match NextMatch(s, i)
    case None =>
    case Some(m) =>
      var rest := MatchesFrom(s, m.end);
      assert MatchesFrom(s, i) == [m] + rest;
      MatchesOrdered(s, m.end);
      OrderedCons(m, rest);
  }

  /** A match ending before every match of an ordered list extends it. */
  lemma OrderedCons(m: RegexMatch, rest: seq<RegexMatch>)
    requires forall j, k :: 0 <= j < k < |rest| ==> rest[j].end <= rest[k].start
    requires forall r :: r in rest ==> m.end <= r.start
    ensures var ms := [m] + rest;
      forall j, k :: 0 <= j < k < |ms| ==> ms[j].end <= ms[k].start
  {
    var ms := [m] + rest;
    forall j, k | 0 <= j < k < |ms|
      ensures ms[j].end <= ms[k].start
    {
      assert ms[k] == rest[k - 1];
      if j == 0 {
        assert rest[k - 1] in rest;
      } else {
        assert ms[j] == rest[j - 1];
      }
    }
  }

  /** When `i` does not sit inside a digit run, every group 1 is a whole
      digit run of the text. */
  lemma {:induction false} MatchesStartRuns(s: string, i: nat)
    requires i <= |s|
    requires i == 0 || !IsDigit(s[i - 1])
    ensures forall m :: m in MatchesFrom(s, i) ==> m.start <= |s| && StartsRun(s, m)
    decreases |s| - i
  {
    match NextMatch(s, i)
    case None =>
    case Some(m) =>
      NextMatchStartsRun(s, i, m);
      MatchesStartRuns(s, m.end);
      StartsRunCons(s, m, MatchesFrom(s, m.end));
      assert MatchesFrom(s, i) == [m] + MatchesFrom(s, m.end);
  }

  lemma StartsRunCons(s: string, m: RegexMatch, rest: seq<RegexMatch>)
    requires m.start <= |s| && StartsRun(s, m)
    requires forall r :: r in rest ==> r.start <= |s| && StartsRun(s, r)
    ensures forall r :: r in [m] + rest ==> r.start <= |s| && StartsRun(s, r)
  {
  }

  /** Started outside a digit run, `exec` returns a match whose group 1 is a
      whole digit run and which ends outside a digit run. */
  lemma NextMatchStartsRun(s: string, i: nat, m: RegexMatch)
    requires i <= |s|
    requires i == 0 || !IsDigit(s[i - 1])
    requires NextMatch(s, i) == Some(m)
    ensures 0 < m.end <= |s| && !IsDigit(s[m.end - 1])
    ensures m.start <= |s| && StartsRun(s, m)
  {
    NextMatchStart(s, i);
    assert MatchAt(s, m.start) == Some(m);
    MatchEndsOffDigit(s, m);
  }

  /** The groups of `m` lie in `s`, in order, and group 1 is digits: all
      that reading a fragment off `m` needs. */
  predicate Spans(s: string, m: RegexMatch) {
    && m.start <= m.digitsEnd <= m.phraseStart <= m.end <= |s|
    && AllDigits(s[m.start..m.digitsEnd])
  }

  lemma MatchSpans(s: string, m: RegexMatch)
    requires IsMatch(s, m)
    ensures Spans(s, m)
  {
    MatchAtFacts(s, m.start);
  }

  /** `parseInt(match[1])` and `match[2].trim()`. */
  function FragmentOf(s: string, m: RegexMatch): (f: Fragment)
    requires Spans(s, m)
    ensures |f.phrase| <= m.end - m.phraseStart
    ensures f.phrase == [] || (!IsSpace(f.phrase[0]) && !IsSpace(f.phrase[|f.phrase| - 1]))
  {
    Fragment(DigitsValue(s[m.start..m.digitsEnd]), Trimmed(s[m.phraseStart..m.end]))
  }

  /** The fragments `processarPedido` reads from `lastIndex == i` on. */
  function FragmentsFrom(s: string, i: nat): (r: seq<Fragment>)
    requires i <= |s|
    ensures |r| == |MatchesFrom(s, i)|
    decreases |s| - i
  {
    match NextMatch(s, i)
    case None => []
    case Some(m) =>
      MatchSpans(s, m);
      [FragmentOf(s, m)] + FragmentsFrom(s, m.end)
  }

  /** One fragment per match, read from that match's groups. */
  lemma FragmentsFollowMatches(s: string, i: nat)
    requires i <= |s|
    ensures |FragmentsFrom(s, i)| == |MatchesFrom(s, i)|
    ensures forall j :: 0 <= j < |FragmentsFrom(s, i)| ==>
      Spans(s, MatchesFrom(s, i)[j]) && FragmentsFrom(s, i)[j] == FragmentOf(s, MatchesFrom(s, i)[j])
  {
    var ms, fs := MatchesFrom(s, i), FragmentsFrom(s, i);
    FollowsFrom(s, i);
    forall j | 0 <= j < |fs|
      ensures Spans(s, ms[j]) && fs[j] == FragmentOf(s, ms[j])
    {
      FollowsAt(s, ms, fs, j);
    }
  }

  /** `fs` holds, in order, the fragment of each match of `ms`. */
  ghost predicate Follows(s: string, ms: seq<RegexMatch>, fs: seq<Fragment>)
    decreases |ms|
  {
    && |fs| == |ms|
    && (ms != [] ==>
      && Spans(s, ms[0])
      && fs[0] == FragmentOf(s, ms[0])
      && Follows(s, ms[1..], fs[1..]))
  }

  lemma {:induction false} FollowsFrom(s: string, i: nat)
    requires i <= |s|
    ensures Follows(s, MatchesFrom(s, i), FragmentsFrom(s, i))
    decreases |s| - i
  {
    match NextMatch(s, i)
    case None =>
    case Some(m) =>
      var ms', fs' := MatchesFrom(s, m.end), FragmentsFrom(s, m.end);
      MatchSpans(s, m);
      var ms, fs := [m] + ms', [FragmentOf(s, m)] + fs';
      assert MatchesFrom(s, i) == ms;
      assert FragmentsFrom(s, i) == fs;
      FollowsFrom(s, m.end);
      assert ms[0] == m && ms[1..] == ms';
      assert fs[0] == FragmentOf(s, m) && fs[1..] == fs';
  }

  lemma {:induction false} FollowsAt(s: string, ms: seq<RegexMatch>, fs: seq<Fragment>, j: nat)
    requires Follows(s, ms, fs) && j < |ms|
    ensures Spans(s, ms[j]) && j < |fs| && fs[j] == FragmentOf(s, ms[j])
    decreases j
  {
    if j > 0 {
      FollowsAt(s, ms[1..], fs[1..], j - 1);
      assert ms[1..][j - 1] == ms[j];
      assert fs[1..][j - 1] == fs[j];
    }
  }

  /** The fragments of a whole text, in text order. */
  function Fragments(s: string): (r: seq<Fragment>)
    ensures |r| == |MatchesFrom(s, 0)|
  {
    FragmentsFrom(s, 0)
  }

  /** The phrase of a fragment is letters and spaces with no space at
      either end. */
  lemma FragmentShape(s: string, m: RegexMatch)
    requires IsMatch(s, m)
    ensures Spans(s, m)
    ensures var f := FragmentOf(s, m);
      && (forall x :: 0 <= x < |f.phrase| ==> IsPhraseChar(f.phrase[x]))
      && (f.phrase == [] || (!IsSpace(f.phrase[0]) && !IsSpace(f.phrase[|f.phrase| - 1])))
  {
    MatchAtFacts(s, m.start);
    TrimmedKeeps(s[m.phraseStart..m.end], IsPhraseChar);
  }

  /** Each fragment comes from its own match, matches do not overlap and
      follow one another left to right; the quantity is the value of a whole
      digit run of the text (zero and leading zeros included) and the phrase
      is letters and spaces with no space at either end. */
  lemma FragmentsFromMatches(s: string)
    ensures |Fragments(s)| == |MatchesFrom(s, 0)|
    ensures forall j, k :: 0 <= j < k < |MatchesFrom(s, 0)| ==>
      MatchesFrom(s, 0)[j].end <= MatchesFrom(s, 0)[k].start
    ensures forall j :: 0 <= j < |Fragments(s)| ==>
      FragmentFrom(s, MatchesFrom(s, 0)[j], Fragments(s)[j])
  {
    var ms, fs := MatchesFrom(s, 0), Fragments(s);
    FragmentsFollowMatches(s, 0);
    MatchesOrdered(s, 0);
    MatchesStartRuns(s, 0);
    MatchesWellFormed(s, 0);
    MatchesAfter(s, 0);
    forall j | 0 <= j < |fs|
      ensures FragmentFrom(s, ms[j], fs[j])
    {
      var m := ms[j];
      assert m in ms;
      FragmentShape(s, m);
    }
  }

  /** `f` is read from the match `m`: group 1 is a whole digit run of the
      text whose value (zero and leading zeros included) is the quantity,
      group 2 a maximal run of letters and spaces, and the phrase holds
      letters and spaces with no space at either end. */
  ghost predicate FragmentFrom(s: string, m: RegexMatch, f: Fragment) {
    && WellFormed(s, m) && StartsRun(s, m)
    && f.quantity == DigitsValue(s[m.start..m.digitsEnd])
    && (forall x :: 0 <= x < |f.phrase| ==> IsPhraseChar(f.phrase[x]))
    && (f.phrase == [] || (!IsSpace(f.phrase[0]) && !IsSpace(f.phrase[|f.phrase| - 1])))
  }

  /** A match that starts right after a digit is found from that digit
      too. */
  lemma RunContinues(s: string, p: nat)
    requires p + 1 < |s|
    ensures IsDigit(s[p]) && MatchAt(s, p + 1).Some? ==> MatchAt(s, p).Some?
  {
    if IsDigit(s[p]) && IsDigit(s[p + 1]) {
      RunEndShift(s, p);
    }
  }

  /** Starting one position earlier inside a digit run changes only where
      group 1 begins. */
  lemma RunEndShift(s: string, p: nat)
    requires p + 1 < |s| && IsDigit(s[p]) && IsDigit(s[p + 1])
    ensures MatchAt(s, p).Some? <==> MatchAt(s, p + 1).Some?
  {
    assert RunEnd(s, p, IsDigit) == RunEnd(s, p + 1, IsDigit);
  }

  /** `trim` keeps only characters of its argument. */
  lemma TrimmedKeeps(s: string, p: char -> bool)
    requires forall x :: 0 <= x < |s| ==> p(s[x])
    ensures forall x :: 0 <= x < |Trimmed(s)| ==> p(Trimmed(s)[x])
  {
    var d := DropSpaces(s);
    var r := DropTrailingSpaces(d);
    DropSpacesSuffix(s);
    DropTrailingSpacesPrefix(d);
    assert r == s[|s| - |d|..|s| - |d| + |r|];
  }

  /** A text without a digit yields no fragment and so no order line. */
  lemma {:induction false} NoDigitNoMatch(s: string, i: nat)
    requires i <= |s|
    requires forall x :: i <= x < |s| ==> !IsDigit(s[x])
    ensures NextMatch(s, i).None? && MatchesFrom(s, i) == []
    decreases |s| - i
  {
    if i < |s| {
      NoDigitNoMatch(s, i + 1);
    }
  }

  /** The order lines `processarPedido` builds from the fragments `fs`,
      where `find` stands for `encontrarItem`: each fragment whose phrase
      resolves gives one line with the fragment's quantity, in fragment
      order; the others are dropped. */
  function Resolve(fs: seq<Fragment>, find: string -> Option<Item>): (lines: seq<Line>)
    ensures |lines| <= |fs|
  {
    if fs == [] then []
    else
      var rest := Resolve(fs[1..], find);
      match find(fs[0].phrase)
      case None => rest
      case Some(item) => [Line(item, fs[0].quantity)] + rest
  }

  /** `encontrarItem(cardapio, ·)` as a function value. */
  function Finder(catalog: seq<Item>, sim: Similarity): string -> Option<Item> {
    phrase => BestItem(catalog, phrase, sim)
  }

  /** `processarPedido(cardapio, texto)`, as a value. */
  function OrderLines(catalog: seq<Item>, text: string, sim: Similarity): (r: seq<Line>)
    ensures |r| <= |Fragments(text)|
  {
    Resolve(Fragments(text), Finder(catalog, sim))
  }

  /** `processarPedido`: the `exec` loop of the source. */
  method ProcessOrder(catalog: seq<Item>, text: string, sim: Similarity) returns (lines: seq<Line>)
    ensures lines == OrderLines(catalog, text, sim)
  {
    ghost var find := Finder(catalog, sim);
    lines := [];
    var lastIndex := 0;
    var next := NextMatch(text, lastIndex);
    while next.Some?
      invariant lastIndex <= |text|
      invariant next == NextMatch(text, lastIndex)
      invariant lines + Resolve(FragmentsFrom(text, lastIndex), find) == OrderLines(catalog, text, sim)
      decreases |text| - lastIndex
    {
      var m := next.value;
      MatchSpans(text, m);
      var f := FragmentOf(text, m);
      var item := FindItem(catalog, f.phrase, sim);
      ResolveStep(text, lastIndex, find);
      assert find(f.phrase) == item;
      if item.Some? {
        lines := lines + [Line(item.value, f.quantity)];
      }
      lastIndex := m.end;
      next := NextMatch(text, lastIndex);
    }
  }

  /** One turn of the `exec` loop: the first match gives at most one line,
      and the rest of the order comes from where that match ends. */
  lemma ResolveStep(s: string, i: nat, find: string -> Option<Item>)
    requires i <= |s| && NextMatch(s, i).Some?
    ensures var m := NextMatch(s, i).value;
      && IsMatch(s, m) && Spans(s, m)
      && var f := FragmentOf(s, m);
      forall lines: seq<Line> ::
        lines + Resolve(FragmentsFrom(s, i), find) ==
        (if find(f.phrase).Some? then lines + [Line(find(f.phrase).value, f.quantity)] else lines)
          + Resolve(FragmentsFrom(s, m.end), find)
  {
    var m := NextMatch(s, i).value;
    MatchSpans(s, m);
    FragmentsFromStep(s, i);
    ResolveAfter(FragmentOf(s, m), FragmentsFrom(s, m.end), find);
  }

  /** Resolving after lines already found appends the first fragment's line,
      when it resolves, then the lines of the rest. */
  lemma ResolveAfter(f: Fragment, fs: seq<Fragment>, find: string -> Option<Item>)
    ensures forall lines: seq<Line> ::
      lines + Resolve([f] + fs, find) ==
      (if find(f.phrase).Some? then lines + [Line(find(f.phrase).value, f.quantity)] else lines)
        + Resolve(fs, find)
  {
    var rest := Resolve(fs, find);
    ResolveFirst(f, fs, find);
    forall lines: seq<Line>
      ensures lines + Resolve([f] + fs, find) ==
        (if find(f.phrase).Some? then lines + [Line(find(f.phrase).value, f.quantity)] else lines) + rest
    {
      if find(f.phrase).Some? {
        var l := Line(find(f.phrase).value, f.quantity);
        assert lines + ([l] + rest) == lines + [l] + rest;
      } else {
        assert [] + rest == rest;
      }
    }
  }

  /** The fields of a fragment, read off its match. */
  lemma FragmentFields(s: string, m: RegexMatch)
    requires IsMatch(s, m)
    ensures m.start <= m.digitsEnd <= m.phraseStart <= m.end <= |s|
    ensures AllDigits(s[m.start..m.digitsEnd])
    ensures FragmentOf(s, m).quantity == DigitsValue(s[m.start..m.digitsEnd])
    ensures FragmentOf(s, m).phrase == Trimmed(s[m.phraseStart..m.end])
  {
    MatchAtFacts(s, m.start);
  }

  /** A text with exactly one match has exactly one fragment. */
  lemma SingleMatch(s: string)
    requires NextMatch(s, 0).Some? && NextMatch(s, NextMatch(s, 0).value.end).None?
    ensures Spans(s, NextMatch(s, 0).value)
    ensures Fragments(s) == [FragmentOf(s, NextMatch(s, 0).value)]
  {
    FragmentsFromStep(s, 0);
  }

  /** After a match, `exec` goes on from where the match ends. */
  lemma FragmentsFromStep(s: string, i: nat)
    requires i <= |s| && NextMatch(s, i).Some?
    ensures var m := NextMatch(s, i).value;
      IsMatch(s, m) && Spans(s, m) && FragmentsFrom(s, i) == [FragmentOf(s, m)] + FragmentsFrom(s, m.end)
  {
    MatchSpans(s, NextMatch(s, i).value);
  }

  /** The first fragment gives the first line, when it resolves. */
  lemma ResolveFirst(f: Fragment, rest: seq<Fragment>, find: string -> Option<Item>)
    ensures Resolve([f] + rest, find) ==
      (if find(f.phrase).Some? then [Line(find(f.phrase).value, f.quantity)] else []) + Resolve(rest, find)
  {
    assert ([f] + rest)[1..] == rest;
  }

  /** Resolving two runs of fragments one after the other resolves their
      concatenation: lines keep the order of the text. */
  lemma {:induction false} ResolveAppend(a: seq<Fragment>, b: seq<Fragment>, find: string -> Option<Item>)
    ensures Resolve(a + b, find) == Resolve(a, find) + Resolve(b, find)
  {
    if a == [] {
      assert a + b == b;
    } else {
      assert (a + b)[0] == a[0];
      assert (a + b)[1..] == a[1..] + b;
      ResolveAppend(a[1..], b, find);
    }
  }

  /** Every order line holds an item that `find` returns for the phrase of
      some fragment, with that fragment's quantity. */
  lemma {:induction false} ResolvedLines(fs: seq<Fragment>, find: string -> Option<Item>)
    ensures forall l :: l in Resolve(fs, find) ==>
      exists f :: f in fs && f.quantity == l.quantity && find(f.phrase) == Some(l.item)
  {
    if fs != [] {
      ResolvedLines(fs[1..], find);
      forall l | l in Resolve(fs, find)
        ensures exists f :: f in fs && f.quantity == l.quantity && find(f.phrase) == Some(l.item)
      {
        if l !in Resolve(fs[1..], find) {
          assert fs[0] in fs;
        } else {
          var f :| f in fs[1..] && f.quantity == l.quantity && find(f.phrase) == Some(l.item);
          assert f in fs;
        }
      }
    }
  }

  /** No fragment is dropped exactly when every phrase resolves to an item. */
  lemma {:induction false} ResolveKeepsAll(fs: seq<Fragment>, find: string -> Option<Item>)
    ensures |Resolve(fs, find)| == |fs| <==> forall j :: 0 <= j < |fs| ==> find(fs[j].phrase).Some?
  {
    if fs != [] {
      ResolveKeepsAll(fs[1..], find);
      if find(fs[0].phrase).Some? {
        forall j | 0 < j < |fs| && find(fs[1..][j - 1].phrase).Some?
          ensures find(fs[j].phrase).Some?
        {
        }
      }
    }
  }

  /** Each line of an order is an item of the catalog that `encontrarItem`
      picks for the phrase of one of the message's fragments, with that
      fragment's quantity. */
  lemma OrderLinesFromCatalog(catalog: seq<Item>, text: string, sim: Similarity)
    ensures forall l :: l in OrderLines(catalog, text, sim) ==>
      && l.item in catalog
      && exists f :: f in Fragments(text) && f.quantity == l.quantity && BestItem(catalog, f.phrase, sim) == Some(l.item)
  {
    var find := Finder(catalog, sim);
    ResolvedLines(Fragments(text), find);
    forall l | l in OrderLines(catalog, text, sim)
      ensures l.item in catalog
    {
      var f :| f in Fragments(text) && f.quantity == l.quantity && find(f.phrase) == Some(l.item);
    }
  }

  /** A message without a digit never yields an order line. */
  lemma NoDigitNoLines(catalog: seq<Item>, text: string, sim: Similarity)
    requires forall x :: 0 <= x < |text| ==> !IsDigit(text[x])
    ensures OrderLines(catalog, text, sim) == []
  {
    NoDigitNoMatch(text, 0);
  }
}

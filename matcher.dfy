/**
 * `encontrarItem`: the phrase is normalised once, then every term of every
 * catalog item (catalog order, then term order) is normalised and scored
 * against it; the tracked best `{score, item}` starts at `{0, null}` and is
 * replaced only by a score that is strictly greater AND at least 0.7.
 *
 * `Scores` is the table of those scores, `Scan` the state of the scan after a
 * prefix of the (item, term) pairs, and `FindItem` the nested loop, proved to
 * compute it. The lemmas say what the result is without reference to the
 * scan: none exactly when no term reaches the threshold, otherwise the item
 * owning the first term, in scan order, whose score is the maximum of all
 * qualifying scores.
 */
module Matcher {
  import opened Wrappers
  import opened Normalization
  import opened Catalog

  /** `stringSimilarity.compareTwoStrings`, supplied by the caller. */
  type Similarity = (string, string) -> real

  /** `CONFIG.SIMILARITY_THRESHOLD`. */
  const Threshold: real := 0.7

  /** `melhorMatch`: the best score so far and the item it belongs to. */
  datatype Best = Best(score: real, item: Option<Item>)

  /** Row `k` holds the scores of the terms of item `k` against the phrase,
      both normalised, in term order. */
  function Scores(catalog: seq<Item>, phrase: string, sim: Similarity): (m: seq<seq<real>>)
    ensures |m| == |catalog|
    ensures forall k :: 0 <= k < |catalog| ==> |m[k]| == |Terms(catalog[k])|
  {
    var text := Normalize(phrase);
    seq(|catalog|, k requires 0 <= k < |catalog| =>
      var terms := Terms(catalog[k]);
      seq(|terms|, t requires 0 <= t < |terms| => sim(text, Normalize(terms[t]))))
  }

  /** Entry (k, t) of the table is the score of term `t` of item `k`. */
  lemma ScoreAt(catalog: seq<Item>, phrase: string, sim: Similarity, k: nat, t: nat)
    requires k < |catalog| && t < |Terms(catalog[k])|
    ensures Scores(catalog, phrase, sim)[k][t] == sim(Normalize(phrase), Normalize(Terms(catalog[k])[t]))
  {
  }

  /** Term `t` of item `k` exists. */
  predicate ValidPair(m: seq<seq<real>>, k: int, t: int) {
    0 <= k < |m| && 0 <= t < |m[k]|
  }

  /** Pair (k', t') comes before (k, t) in scan order. */
  predicate Before(k': int, t': int, k: int, t: int) {
    k' < k || (k' == k && t' < t)
  }

  /** The replacement test `score > melhorMatch.score && score >= 0.7`. */
  function Step(b: Best, score: real, item: Item): Best {
    if score > b.score && score >= Threshold then Best(score, Some(item)) else b
  }

  /** `melhorMatch` once every pair before (k, t) has been scored: still
      `{0, null}`, or an item of the catalog with a score reaching the
      threshold. */
  function Scan(catalog: seq<Item>, m: seq<seq<real>>, k: nat, t: nat): (b: Best)
    requires |m| == |catalog| && k <= |m|
    requires if k < |m| then t <= |m[k]| else t == 0
    ensures b.item.None? ==> b.score == 0.0
    ensures b.item.Some? ==> b.item.value in catalog && b.score >= Threshold
    decreases k, t
  {
    if t > 0 then Step(Scan(catalog, m, k, t - 1), m[k][t - 1], catalog[k])
    else if k > 0 then Scan(catalog, m, k - 1, |m[k - 1]|)
    else Best(0.0, None)
  }

  /** The value `encontrarItem` returns (`None` for `null`): an item of the
      catalog when there is one. */
  function BestItem(catalog: seq<Item>, phrase: string, sim: Similarity): (r: Option<Item>)
    ensures r.Some? ==> r.value in catalog
  {
    var m := Scores(catalog, phrase, sim);
    Scan(catalog, m, |catalog|, 0).item
  }

  /** `encontrarItem(cardapio, texto)`, as the nested loops of the source. */
  method FindItem(catalog: seq<Item>, phrase: string, sim: Similarity) returns (r: Option<Item>)
    ensures r == BestItem(catalog, phrase, sim)
  {
    ghost var m := Scores(catalog, phrase, sim);
    var text := Normalize(phrase);
    var bestScore := 0.0;
    var bestItem: Option<Item> := None;
    var k := 0;
    while k < |catalog|
      invariant k <= |catalog|
      invariant Best(bestScore, bestItem) == Scan(catalog, m, k, 0)
    {
      var item := catalog[k];
      var terms := Terms(item);
      var t := 0;
      while t < |terms|
        invariant t <= |terms| == |m[k]|
        invariant Best(bestScore, bestItem) == Scan(catalog, m, k, t)
      {
        var score := sim(text, Normalize(terms[t]));
        ScoreAt(catalog, phrase, sim, k, t);
        ghost var before := Best(bestScore, bestItem);
        if score > bestScore && score >= Threshold {
          bestScore := score;
          bestItem := Some(item);
        }
        assert Best(bestScore, bestItem) == Step(before, m[k][t], catalog[k]);
        assert Scan(catalog, m, k, t + 1) == Step(Scan(catalog, m, k, t), m[k][t], catalog[k]);
        t := t + 1;
      }
      k := k + 1;
    }
    r := bestItem;
  }

  /** Pair (k, t) is the first, in scan order, of the pairs whose score is
      the largest of all scores reaching the threshold. */
  ghost predicate IsFirstBest(m: seq<seq<real>>, k: int, t: int) {
    && ValidPair(m, k, t)
    && m[k][t] >= Threshold
    && (forall k', t' | ValidPair(m, k', t') && m[k'][t'] >= Threshold :: m[k'][t'] <= m[k][t])
    && (forall k', t' | ValidPair(m, k', t') && Before(k', t', k, t) :: m[k'][t'] < m[k][t])
  }

  /** `b` is the best of the pairs before (k, t), won by pair (k0, t0). */
  ghost predicate WonBy(catalog: seq<Item>, m: seq<seq<real>>, k: int, t: int, b: Best, k0: int, t0: int)
    requires |m| == |catalog|
  {
    && ValidPair(m, k0, t0) && Before(k0, t0, k, t)
    && b.item == Some(catalog[k0]) && b.score == m[k0][t0] && b.score >= Threshold
    && (forall k', t' | ValidPair(m, k', t') && Before(k', t', k, t) && m[k'][t'] >= Threshold :: m[k'][t'] <= b.score)
    && (forall k', t' | ValidPair(m, k', t') && Before(k', t', k0, t0) :: m[k'][t'] < b.score)
  }

  /** What the scan state says about the pairs before (k, t). */
  ghost predicate Describes(catalog: seq<Item>, m: seq<seq<real>>, k: int, t: int, b: Best)
    requires |m| == |catalog|
  {
    && (b.item.None? <==> forall k', t' | ValidPair(m, k', t') && Before(k', t', k, t) :: m[k'][t'] < Threshold)
    && (b.item.None? ==> b.score == 0.0)
    && (b.item.Some? ==> exists k0, t0 :: WonBy(catalog, m, k, t, b, k0, t0))
  }

  lemma {:induction false} ScanDescribed(catalog: seq<Item>, m: seq<seq<real>>, k: nat, t: nat)
    requires |m| == |catalog| && k <= |m|
    requires if k < |m| then t <= |m[k]| else t == 0
    ensures Describes(catalog, m, k, t, Scan(catalog, m, k, t))
    decreases k, t
  {
    if t > 0 {
      ScanDescribed(catalog, m, k, t - 1);
      StepDescribed(catalog, m, k, t - 1, Scan(catalog, m, k, t - 1));
    } else if k > 0 {
      var n := |m[k - 1]|;
      ScanDescribed(catalog, m, k - 1, n);
      SameBefore(m, k, n);
      var b := Scan(catalog, m, k, t);
      if b.item.Some? {
        var k0, t0 :| WonBy(catalog, m, k - 1, n, b, k0, t0);
        assert WonBy(catalog, m, k, 0, b, k0, t0);
      }
    }
  }

  /** Among existing pairs, those before (k, 0) are those before the end of
      item k - 1. */
  lemma SameBefore(m: seq<seq<real>>, k: nat, n: nat)
    requires 0 < k <= |m| && n == |m[k - 1]|
    ensures forall k', t' | ValidPair(m, k', t') :: Before(k', t', k, 0) <==> Before(k', t', k - 1, n)
  {
  }

  /** One replacement test keeps the description: the pairs before (k, t + 1)
      are those before (k, t) and (k, t) itself. */
  lemma StepDescribed(catalog: seq<Item>, m: seq<seq<real>>, k: nat, t: nat, b: Best)
    requires |m| == |catalog| && ValidPair(m, k, t)
    requires Describes(catalog, m, k, t, b)
    ensures Describes(catalog, m, k, t + 1, Step(b, m[k][t], catalog[k]))
  {
    var s := m[k][t];
    var b' := Step(b, s, catalog[k]);
    if s > b.score && s >= Threshold {
      assert WonBy(catalog, m, k, t + 1, b', k, t);
    } else if b.item.Some? {
      var k0, t0 :| WonBy(catalog, m, k, t, b, k0, t0);
      assert WonBy(catalog, m, k, t + 1, b', k0, t0);
    }
  }

  /** `encontrarItem` returns null exactly when no name or synonym of any item
      scores at least 0.7 against the phrase. */
  lemma BestItemNoneIff(catalog: seq<Item>, phrase: string, sim: Similarity)
    ensures var m := Scores(catalog, phrase, sim);
      BestItem(catalog, phrase, sim).None? <==> forall k, t | ValidPair(m, k, t) :: m[k][t] < Threshold
  {
    var m := Scores(catalog, phrase, sim);
    ScanDescribed(catalog, m, |catalog|, 0);
  }

  /** Otherwise it returns the catalog item owning the first best term. */
  lemma BestItemIsFirstBest(catalog: seq<Item>, phrase: string, sim: Similarity)
    ensures var m := Scores(catalog, phrase, sim);
      BestItem(catalog, phrase, sim).Some? ==>
        exists k, t :: IsFirstBest(m, k, t) && BestItem(catalog, phrase, sim) == Some(catalog[k])
  {
    ScanFirstBest(catalog, Scores(catalog, phrase, sim));
  }

  /** The full scan, over any table of scores, ends on the first best pair. */
  lemma ScanFirstBest(catalog: seq<Item>, m: seq<seq<real>>)
    requires |m| == |catalog|
    ensures Scan(catalog, m, |catalog|, 0).item.Some? ==>
      exists k, t :: IsFirstBest(m, k, t) && Scan(catalog, m, |catalog|, 0).item == Some(catalog[k])
  {
    var b := Scan(catalog, m, |catalog|, 0);
    ScanDescribed(catalog, m, |catalog|, 0);
    if b.item.Some? {
      var k0, t0 :| WonBy(catalog, m, |catalog|, 0, b, k0, t0);
      assert IsFirstBest(m, k0, t0);
    }
  }

  /** At most one pair is the first best one. */
  lemma FirstBestUnique(m: seq<seq<real>>, k1: int, t1: int, k2: int, t2: int)
    requires IsFirstBest(m, k1, t1) && IsFirstBest(m, k2, t2)
    ensures k1 == k2 && t1 == t2
  {
  }

  /** Conversely, the item owning the first best term is what is returned:
      ties go to the earlier item, then to the earlier term. */
  lemma FirstBestIsResult(catalog: seq<Item>, phrase: string, sim: Similarity, k: int, t: int)
    requires IsFirstBest(Scores(catalog, phrase, sim), k, t)
    ensures BestItem(catalog, phrase, sim) == Some(catalog[k])
  {
    var m := Scores(catalog, phrase, sim);
    BestItemNoneIff(catalog, phrase, sim);
    BestItemIsFirstBest(catalog, phrase, sim);
    var k0, t0 :| IsFirstBest(m, k0, t0) && BestItem(catalog, phrase, sim) == Some(catalog[k0]);
    FirstBestUnique(m, k, t, k0, t0);
  }
}

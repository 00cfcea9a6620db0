/**
 * The first pass of the tool: every page 1..nbPages gets a contrast score, and
 * the ordinals of the pages whose score is below the threshold are collected
 * in a list, in page order. The score of page `i` is `scores[i - 1]`; how it is
 * computed from the rendered pixels is not part of this model.
 */
module ContrastScan {
  import opened Ordinals

  /** Minimal contrast for a page to count as not blank (`SEUIL_CONTRASTE`). */
  const ContrastThreshold: real := 0.01

  /** A page is blank when its contrast is strictly below the threshold. */
  predicate IsBlank(contrast: real) {
    contrast < ContrastThreshold
  }

  /** Specification of the first pass: the blank ordinals among pages 1..|scores|, in page order. */
  function BlankOrdinals(scores: seq<real>): seq<int>
    decreases |scores|
  {
    if |scores| == 0 then []
    else
      var n := |scores|;
      BlankOrdinals(scores[..n - 1]) + (if IsBlank(scores[n - 1]) then [n] else [])
  }

  /** Ordinal `k` is collected exactly when it names a page and that page's score is below the threshold. */
  lemma {:induction false} BlankOrdinalsMembership(scores: seq<real>, k: int)
    ensures k in BlankOrdinals(scores) <==> 1 <= k <= |scores| && IsBlank(scores[k - 1])
    decreases |scores|
  {
    if |scores| > 0 {
      var n := |scores|;
      BlankOrdinalsMembership(scores[..n - 1], k);
    }
  }

  /** The collected ordinals are strictly ascending, hence free of repeats. */
  lemma {:induction false} BlankOrdinalsAscending(scores: seq<real>)
    ensures StrictlyAscending(BlankOrdinals(scores))
    decreases |scores|
  {
    if |scores| > 0 {
      var n := |scores|;
      var prefix := BlankOrdinals(scores[..n - 1]);
      BlankOrdinalsAscending(scores[..n - 1]);
      forall i | 0 <= i < |prefix| ensures prefix[i] < n {
        BlankOrdinalsMembership(scores[..n - 1], prefix[i]);
      }
    }
  }

  /**
   * An ascending list holding exactly the blank ordinals is the collected list:
   * ascending order and membership in both directions pin the result down.
   */
  lemma BlankOrdinalsUnique(scores: seq<real>, s: seq<int>)
    requires StrictlyAscending(s)
    requires forall k :: k in s <==> 1 <= k <= |scores| && IsBlank(scores[k - 1])
    ensures s == BlankOrdinals(scores)
  {
    BlankOrdinalsAscending(scores);
    forall k ensures k in Elements(s) <==> k in Elements(BlankOrdinals(scores)) {
      BlankOrdinalsMembership(scores, k);
    }
    AscendingDeterminedByElements(s, BlankOrdinals(scores));
  }

  /** A page whose score equals the threshold exactly is kept. */
  lemma ScoreAtThresholdIsKept(scores: seq<real>, k: int)
    requires 1 <= k <= |scores| && scores[k - 1] == ContrastThreshold
    ensures k !in BlankOrdinals(scores)
  {
    BlankOrdinalsMembership(scores, k);
  }

  /** When no score is below the threshold, nothing is collected. */
  lemma {:induction false} NoBlankScoreCollectsNothing(scores: seq<real>)
    requires forall i :: 0 <= i < |scores| ==> !IsBlank(scores[i])
    ensures BlankOrdinals(scores) == []
  {
    var r := BlankOrdinals(scores);
    if |r| > 0 {
      BlankOrdinalsMembership(scores, r[0]);
    }
  }

  /** When every score is below the threshold, every ordinal 1..|scores| is collected. */
  lemma {:induction false} AllBlankCollectsEveryOrdinal(scores: seq<real>)
    requires forall i :: 0 <= i < |scores| ==> IsBlank(scores[i])
    ensures BlankOrdinals(scores) == seq(|scores|, i => i + 1)
    decreases |scores|
  {
    if |scores| > 0 {
      var n := |scores|;
      AllBlankCollectsEveryOrdinal(scores[..n - 1]);
      assert seq(n, i => i + 1) == seq(n - 1, i => i + 1) + [n];
    }
  }

  /**
   * The accumulation loop: pages are visited in order 1..nbPages and the
   * ordinal of each blank one is pushed onto the list.
   */
  method CollectBlankOrdinals(scores: seq<real>) returns (blank: seq<int>)
    ensures blank == BlankOrdinals(scores)
    ensures StrictlyAscending(blank)
    ensures forall k :: k in blank <==> 1 <= k <= |scores| && IsBlank(scores[k - 1])
  {
    var nbPages := |scores|;
    blank := [];
    var i := 1;
    while i <= nbPages
      invariant 1 <= i <= nbPages + 1
      invariant blank == BlankOrdinals(scores[..i - 1])
    {
      var contrast := scores[i - 1];
      assert scores[..i][..i - 1] == scores[..i - 1];
      if contrast < ContrastThreshold {
        blank := blank + [i];
      }
      i := i + 1;
    }
    assert scores[..nbPages] == scores;
    BlankOrdinalsAscending(scores);
    forall k ensures k in blank <==> 1 <= k <= |scores| && IsBlank(scores[k - 1]) {
      BlankOrdinalsMembership(scores, k);
    }
  }
}

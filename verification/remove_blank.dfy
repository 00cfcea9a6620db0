/**
 * The whole tool on one document: score every page, collect the blank
 * ordinals, then remove them highest first. The result is stated against a
 * reference that looks at each page's own score.
 */
module RemoveBlank {
  import opened Ordinals
  import opened ContrastScan
  import opened PageRemoval

  /** Reference: the pages whose own score is not below the threshold, in order. */
  function NonBlankPages<P>(pages: seq<P>, scores: seq<real>): seq<P>
    requires |scores| == |pages|
    decreases |pages|
  {
    if |pages| == 0 then []
    else
      var n := |pages|;
      NonBlankPages(pages[..n - 1], scores[..n - 1]) + (if IsBlank(scores[n - 1]) then [] else [pages[n - 1]])
  }

  /** Dropping the collected ordinals keeps exactly the pages whose score is not below the threshold. */
  lemma {:induction false} DroppingBlankOrdinalsKeepsNonBlankPages<P>(pages: seq<P>, scores: seq<real>)
    requires |scores| == |pages|
    ensures Retained(pages, Elements(BlankOrdinals(scores))) == NonBlankPages(pages, scores)
    decreases |pages|
  {
    if |pages| > 0 {
      var n := |pages|;
      var drop := Elements(BlankOrdinals(scores));
      var drop' := Elements(BlankOrdinals(scores[..n - 1]));
      forall k | 1 <= k <= n - 1 ensures k in drop <==> k in drop' {
        BlankOrdinalsMembership(scores, k);
        BlankOrdinalsMembership(scores[..n - 1], k);
      }
      RetainedAgreeingDrops(pages[..n - 1], drop, drop');
      DroppingBlankOrdinalsKeepsNonBlankPages(pages[..n - 1], scores[..n - 1]);
      BlankOrdinalsMembership(scores, n);
    }
  }

  /** When no page scores below the threshold, the document keeps every page. */
  lemma {:induction false} NoBlankPageKeepsDocument<P>(pages: seq<P>, scores: seq<real>)
    requires |scores| == |pages|
    requires forall i :: 0 <= i < |scores| ==> !IsBlank(scores[i])
    ensures NonBlankPages(pages, scores) == pages
    decreases |pages|
  {
    if |pages| > 0 {
      var n := |pages|;
      var front, frontScores := pages[..n - 1], scores[..n - 1];
      forall i | 0 <= i < |frontScores| ensures !IsBlank(frontScores[i]) {
        assert frontScores[i] == scores[i];
      }
      NoBlankPageKeepsDocument(front, frontScores);
      assert !IsBlank(scores[n - 1]);
      assert NonBlankPages(pages, scores) == front + [pages[n - 1]];
      assert front + [pages[n - 1]] == pages;
    }
  }

  /**
   * Both passes over a loaded document whose page count is that of the
   * scored document: returns the collected ordinals and leaves the document
   * with its non-blank pages only. `removedAt` records the 0-based positions
   * removed, in call order: highest first.
   */
  method RemoveBlankPages<P>(doc: PdfDocument<P>, scores: seq<real>) returns (blank: seq<int>, ghost removedAt: seq<int>)
    requires |scores| == |doc.pages|
    modifies doc
    ensures blank == BlankOrdinals(scores)
    ensures doc.pages == NonBlankPages(old(doc.pages), scores)
    ensures |doc.pages| == |old(doc.pages)| - |blank|
    ensures |removedAt| == |blank| && StrictlyDescending(removedAt)
    ensures forall j :: 0 <= j < |blank| ==> removedAt[j] == Reverse(blank)[j] - 1
  {
    blank := CollectBlankOrdinals(scores);
    forall i | 0 <= i < |blank| ensures 1 <= blank[i] <= |doc.pages| {
      assert blank[i] in blank;
    }
    removedAt := RemoveOrdinals(doc, blank);
    DroppingBlankOrdinalsKeepsNonBlankPages(old(doc.pages), scores);
  }

  /** Removing ordinals 2 and 4 from a five-page document leaves pages 1, 3 and 5. */
  lemma TwoAndFourOfFive<P>(p1: P, p2: P, p3: P, p4: P, p5: P)
    ensures Retained([p1, p2, p3, p4, p5], {2, 4}) == [p1, p3, p5]
  {
    var drop := {2, 4};
    assert [p1, p2, p3, p4, p5][..4] == [p1, p2, p3, p4];
    assert [p1, p2, p3, p4][..3] == [p1, p2, p3];
    assert [p1, p2, p3][..2] == [p1, p2];
    assert [p1, p2][..1] == [p1];
    assert [p1][..0] == [];
    assert Retained([p1], drop) == [p1];
    assert Retained([p1, p2], drop) == [p1];
    assert Retained([p1, p2, p3], drop) == [p1, p3];
    assert Retained([p1, p2, p3, p4], drop) == [p1, p3];
  }

  /**
   * Why the list is reversed first: removing ordinals 2 then 4 at positions
   * 1 then 3 deletes original page 5 instead of page 4.
   */
  lemma AscendingRemovalHitsWrongPage()
    ensures var pages := [1, 2, 3, 4, 5];
            var afterFirst := pages[..1] + pages[2..];
            var afterSecond := afterFirst[..3] + afterFirst[4..];
            afterSecond == [1, 3, 4] && afterSecond != Retained(pages, {2, 4})
  {
    TwoAndFourOfFive(1, 2, 3, 4, 5);
  }

  /** Three pages, the outer two white: ordinals 1 and 3 are collected, positions 2 then 0 are removed, and only page 2 is left. */
  method ThreePageDocument<P>(p1: P, p2: P, p3: P)
  {
    var doc := new PdfDocument.Load([p1, p2, p3]);
    var scores := [0.0, 0.15, 0.0];
    assert scores[..2] == [0.0, 0.15] && scores[..2][..1] == [0.0];
    assert [p1, p2, p3][..2] == [p1, p2] && [p1, p2, p3][..2][..1] == [p1];
    var blank, removedAt := RemoveBlankPages(doc, scores);
    assert blank == [1, 3];
    assert removedAt == [2, 0];
    assert doc.pages == [p2];
  }
}

/**
 * The second pass of the tool: the list of blank ordinals is reversed and each
 * ordinal `i` is removed from the re-loaded document with `removePage(i - 1)`.
 * A document is an ordered sequence of opaque pages; page ordinal `k` is the
 * page at 0-based position `k - 1` of the document as it was loaded.
 */
module PageRemoval {
  import opened Ordinals

  /**
   * Specification of the removal: the pages whose ordinal is not in `drop`,
   * in their original relative order.
   */
  function Retained<P>(pages: seq<P>, drop: set<int>): seq<P>
    decreases |pages|
  {
    if |pages| == 0 then []
    else
      var n := |pages|;
      Retained(pages[..n - 1], drop) + (if n in drop then [] else [pages[n - 1]])
  }

  /** The ordinals of `drop` that name a page of an n-page document. */
  function OrdinalsWithin(drop: set<int>, n: nat): set<int> {
    set k | k in drop && 1 <= k <= n
  }

  /** Dropping ordinals that name no page of the document leaves it as it is. */
  lemma {:induction false} RetainedNothingDropped<P>(pages: seq<P>, drop: set<int>)
    requires forall k :: k in drop ==> !(1 <= k <= |pages|)
    ensures Retained(pages, drop) == pages
    decreases |pages|
  {
    if |pages| > 0 {
      var n := |pages|;
      RetainedNothingDropped(pages[..n - 1], drop);
      assert pages[..n - 1] + [pages[n - 1]] == pages;
    }
  }

  /** Only the ordinals that name a page of the document matter. */
  lemma {:induction false} RetainedAgreeingDrops<P>(pages: seq<P>, drop: set<int>, drop': set<int>)
    requires forall k :: 1 <= k <= |pages| ==> (k in drop <==> k in drop')
    ensures Retained(pages, drop) == Retained(pages, drop')
    decreases |pages|
  {
    if |pages| > 0 {
      RetainedAgreeingDrops(pages[..|pages| - 1], drop, drop');
    }
  }

  /** The page count after removal is the original count minus the number of dropped ordinals that name a page. */
  lemma {:induction false} RetainedLength<P>(pages: seq<P>, drop: set<int>)
    ensures |Retained(pages, drop)| == |pages| - |OrdinalsWithin(drop, |pages|)|
    decreases |pages|
  {
    var n := |pages|;
    if n == 0 {
      assert OrdinalsWithin(drop, 0) == {};
    } else {
      RetainedLength(pages[..n - 1], drop);
      var below := OrdinalsWithin(drop, n - 1);
      assert n !in below;
      if n in drop {
        assert OrdinalsWithin(drop, n) == below + {n};
      } else {
        assert OrdinalsWithin(drop, n) == below;
      }
    }
  }

  /** Deleting position `k - 1` commutes with appending after it. */
  lemma DeleteBeforeAppended<P>(front: seq<P>, last: seq<P>, k: int)
    requires 1 <= k <= |front|
    ensures (front + last)[k - 1] == front[k - 1]
    ensures (front + last)[..k - 1] + (front + last)[k..] == front[..k - 1] + front[k..] + last
  {
  }

  /** The base case of `RemoveBelowDropped`: `k` is the last ordinal of the document. */
  lemma RemoveLastBelowDropped<P>(pages: seq<P>, drop: set<int>, k: int)
    requires 1 <= k == |pages|
    requires forall r :: r in drop ==> r > k
    ensures k <= |Retained(pages, drop)|
    ensures Retained(pages, drop)[k - 1] == pages[k - 1]
    ensures Retained(pages, drop + {k}) == Retained(pages, drop)[..k - 1] + Retained(pages, drop)[k..]
  {
    var front := pages[..k - 1];
    RetainedNothingDropped(front, drop);
    RetainedNothingDropped(front, drop + {k});
    assert Retained(pages, drop) == front + [pages[k - 1]];
    assert Retained(pages, drop + {k}) == front;
    assert (front + [pages[k - 1]])[..k - 1] == front;
  }

  /**
   * Removing the highest pending ordinal. When every ordinal already dropped is
   * above `k`, the page at position `k - 1` is still original page `k`, and
   * deleting that position is the same as dropping `k` as well.
   */
  lemma {:induction false} RemoveBelowDropped<P>(pages: seq<P>, drop: set<int>, k: int)
    requires 1 <= k <= |pages|
    requires forall r :: r in drop ==> r > k
    ensures k <= |Retained(pages, drop)|
    ensures Retained(pages, drop)[k - 1] == pages[k - 1]
    ensures Retained(pages, drop + {k}) == Retained(pages, drop)[..k - 1] + Retained(pages, drop)[k..]
    decreases |pages|
  {
    var n := |pages|;
    if n == k {
      RemoveLastBelowDropped(pages, drop, k);
    } else {
      var front := pages[..n - 1];
      var last := if n in drop then [] else [pages[n - 1]];
      RemoveBelowDropped(front, drop, k);
      assert Retained(pages, drop) == Retained(front, drop) + last;
      assert Retained(pages, drop + {k}) == Retained(front, drop + {k}) + last;
      DeleteBeforeAppended(Retained(front, drop), last, k);
    }
  }

  /** A loaded PDF document, as far as page removal sees it: its ordered pages. */
  class PdfDocument<P> {
    var pages: seq<P>

    /** The document decoded from the file's bytes. */
    constructor Load(decoded: seq<P>)
      ensures pages == decoded
    {
      pages := decoded;
    }

    /**
     * `removePage`: deletes the page at 0-based `index`. An index that names
     * no page is refused (`removed` is false) and the document is unchanged.
     */
    method RemovePage(index: int) returns (removed: bool)
      modifies this
      ensures removed <==> 0 <= index < |old(pages)|
      ensures removed ==> pages == old(pages)[..index] + old(pages)[index + 1..]
      ensures !removed ==> pages == old(pages)
    {
      removed := 0 <= index < |pages|;
      if removed {
        pages := pages[..index] + pages[index + 1..];
      }
    }
  }

  /**
   * One step of the removal loop: with the first `j` entries of the descending
   * plan already removed, position `plan[j] - 1` is in bounds, and deleting it
   * leaves the pages that survive the first `j + 1` entries.
   */
  lemma RemovalStep<P>(original: seq<P>, plan: seq<int>, j: nat)
    requires StrictlyDescending(plan)
    requires forall t :: 0 <= t < |plan| ==> 1 <= plan[t] <= |original|
    requires j < |plan|
    ensures plan[j] <= |Retained(original, Elements(plan[..j]))|
    ensures Retained(original, Elements(plan[..j + 1]))
         == Retained(original, Elements(plan[..j]))[..plan[j] - 1] + Retained(original, Elements(plan[..j]))[plan[j]..]
  {
    var done := Elements(plan[..j]);
    forall r | r in done ensures r > plan[j] {
      var t :| 0 <= t < j && plan[t] == r;
    }
    RemoveBelowDropped(original, done, plan[j]);
    assert plan[..j + 1] == plan[..j] + [plan[j]];
    assert Elements(plan[..j + 1]) == done + {plan[j]};
  }

  /** Positions one below a descending list of ordinals are descending too. */
  lemma PositionsDescending(plan: seq<int>, positions: seq<int>)
    requires StrictlyDescending(plan)
    requires |positions| == |plan| && forall t :: 0 <= t < |plan| ==> positions[t] == plan[t] - 1
    ensures StrictlyDescending(positions)
  {
  }

  /**
   * The `forEach` over the reversed list: each ordinal `i` of the descending
   * plan is removed at position `i - 1`. Highest first, every removal hits
   * the page it means and is in bounds. `removedAt` records the 0-based
   * positions passed to `RemovePage`, in call order.
   */
  method RemoveInPlanOrder<P>(doc: PdfDocument<P>, plan: seq<int>) returns (ghost removedAt: seq<int>)
    requires StrictlyDescending(plan)
    requires forall t :: 0 <= t < |plan| ==> 1 <= plan[t] <= |doc.pages|
    modifies doc
    ensures doc.pages == Retained(old(doc.pages), Elements(plan))
    ensures |doc.pages| == |old(doc.pages)| - |plan|
    ensures |removedAt| == |plan| && forall t :: 0 <= t < |plan| ==> removedAt[t] == plan[t] - 1
  {
    removedAt := [];
    ghost var original := doc.pages;
    var j := 0;
    RetainedNothingDropped(original, Elements(plan[..j]));
    while j < |plan|
      invariant 0 <= j <= |plan|
      invariant doc.pages == Retained(original, Elements(plan[..j]))
      invariant |doc.pages| == |original| - j
      invariant |removedAt| == j && forall t :: 0 <= t < j ==> removedAt[t] == plan[t] - 1
    {
      var i := plan[j];
      RemovalStep(original, plan, j);
      var removed := doc.RemovePage(i - 1);
      assert removed;
      removedAt := removedAt + [i - 1];
      j := j + 1;
    }
    assert plan[..j] == plan;
  }

  /**
   * The removal pass: the ascending list of ordinals is reversed and then
   * removed in that order, so the positions removed are strictly descending.
   */
  method RemoveOrdinals<P>(doc: PdfDocument<P>, blank: seq<int>) returns (ghost removedAt: seq<int>)
    requires StrictlyAscending(blank)
    requires forall i :: 0 <= i < |blank| ==> 1 <= blank[i] <= |doc.pages|
    modifies doc
    ensures doc.pages == Retained(old(doc.pages), Elements(blank))
    ensures |doc.pages| == |old(doc.pages)| - |blank|
    ensures |removedAt| == |blank| && StrictlyDescending(removedAt)
    ensures forall j :: 0 <= j < |blank| ==> removedAt[j] == Reverse(blank)[j] - 1
  {
    var plan := Reverse(blank);
    ReverseOfAscending(blank);
    removedAt := RemoveInPlanOrder(doc, plan);
    PositionsDescending(plan, removedAt);
  }
}

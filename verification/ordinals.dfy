/** Lists of 1-based page ordinals: their order, their elements, and reversal. */
module Ordinals {

  /** Every ordinal is smaller than every ordinal after it (so none repeats). */
  predicate StrictlyAscending(s: seq<int>) {
    forall i, j :: 0 <= i < j < |s| ==> s[i] < s[j]
  }

  /** Every ordinal is larger than every ordinal after it. */
  predicate StrictlyDescending(s: seq<int>) {
    forall i, j :: 0 <= i < j < |s| ==> s[i] > s[j]
  }

  /** The set of ordinals a list holds. */
  function Elements(s: seq<int>): set<int> {
    set k | k in s
  }

  /** What `Array.prototype.reverse` leaves in the list: the same ordinals, last first. */
  function Reverse(s: seq<int>): (r: seq<int>)
    ensures |r| == |s|
    ensures forall i :: 0 <= i < |s| ==> r[i] == s[|s| - 1 - i]
  {
    if |s| == 0 then [] else Reverse(s[1..]) + [s[0]]
  }

  /** Reversing an ascending list gives a descending list of the same ordinals. */
  lemma ReverseOfAscending(s: seq<int>)
    requires StrictlyAscending(s)
    ensures StrictlyDescending(Reverse(s))
    ensures Elements(Reverse(s)) == Elements(s)
  {
    var r := Reverse(s);
    forall k | k in s ensures k in r {
      var i :| 0 <= i < |s| && s[i] == k;
      assert r[|s| - 1 - i] == k;
    }
  }

  /** A list holds no ordinal exactly when it is empty. */
  lemma NoElementsOnlyWhenEmpty(s: seq<int>)
    ensures Elements(s) == {} <==> |s| == 0
  {
    if |s| > 0 {
      assert s[0] in Elements(s);
    }
  }

  /** An ascending list is fixed by its set of ordinals: two with the same set are equal. */
  lemma {:induction false} AscendingDeterminedByElements(s: seq<int>, t: seq<int>)
    requires StrictlyAscending(s) && StrictlyAscending(t)
    requires Elements(s) == Elements(t)
    ensures s == t
    decreases |s|
  {
    NoElementsOnlyWhenEmpty(s);
    NoElementsOnlyWhenEmpty(t);
    if |s| == 0 {
    } else {
      assert s[0] in Elements(t);
      assert t[0] in Elements(s);
      assert s[0] == t[0];
      forall k ensures k in Elements(s[1..]) <==> k in Elements(t[1..]) {
        if k in s[1..] {
          assert k in Elements(t) && k != t[0];
        }
        if k in t[1..] {
          assert k in Elements(s) && k != s[0];
        }
      }
      AscendingDeterminedByElements(s[1..], t[1..]);
      assert s == [s[0]] + s[1..];
      assert t == [t[0]] + t[1..];
    }
  }
}

/** Counting different numbers: heights in open intervals, hashes in a list. */
module Heights {

  ghost predicate AllDifferent(hs: seq<int>) {
    forall i, j :: 0 <= i < j < |hs| ==> hs[i] != hs[j]
  }

  /** The heights strictly between two bounds. */
  function Between(lo: int, hi: int): (s: set<int>)
    ensures forall x :: x in s <==> lo < x < hi
    decreases hi - lo
  {
    if hi <= lo + 1 then {} else Between(lo, hi - 1) + {hi - 1}
  }

  lemma {:induction false} BetweenSize(lo: int, hi: int)
    requires lo < hi
    ensures |Between(lo, hi)| == hi - lo - 1
    decreases hi - lo
  {
    if lo + 1 < hi {
      BetweenSize(lo, hi - 1);
    }
  }

  function ToSet(hs: seq<int>): set<int> {
    set i | 0 <= i < |hs| :: hs[i]
  }

  lemma {:induction false} DifferentCount(hs: seq<int>)
    requires AllDifferent(hs)
    ensures |ToSet(hs)| == |hs|
  {
    if |hs| > 0 {
      var init := hs[..|hs| - 1];
      DifferentCount(init);
      assert ToSet(hs) == ToSet(init) + {hs[|hs| - 1]};
    }
  }

  /** Different heights in two open intervals are no more than the intervals hold. */
  lemma FewHeights(hs: seq<int>, a: int, b: int, c: int, d: int)
    requires AllDifferent(hs) && a < b && c < d
    requires forall i :: 0 <= i < |hs| ==> a < hs[i] < b || c < hs[i] < d
    ensures |hs| <= (b - a - 1) + (d - c - 1)
  {
    var room := Between(a, b) + Between(c, d);
    DifferentCount(hs);
    BetweenSize(a, b);
    BetweenSize(c, d);
    var taken := ToSet(hs);
    assert taken <= room;
    assert room == taken + (room - taken);
  }
}

/** The gas-limit rule between a header and its parent (src/node/consensus.rs). */
module GasLimit {

  const GAS_LIMIT_CAPACITY: nat := 0x7fff_ffff_ffff_ffff
  const MINIMUM_GAS_LIMIT: nat := 5000
  const GAS_LIMIT_BOUND_DIVISOR: nat := 1024
  const GAS_LIMIT_BOUND_DIVISOR_BEFORE_LORENTZ: nat := 256

  /** `millis` is the timestamp in milliseconds and `lorentz` the fork schedule's answer. */
  datatype Header = Header(
    number: nat, hash: nat, parentHash: nat, millis: nat, lorentz: bool, gasLimit: nat, gasUsed: nat)

  datatype Verdict =
    | Accepted | WrongNumberOrParent | TimestampInPast
    | AboveCapacity | UsedExceedsLimit | OutOfBound

  function Divisor(lorentz: bool): nat {
    if lorentz then GAS_LIMIT_BOUND_DIVISOR else GAS_LIMIT_BOUND_DIVISOR_BEFORE_LORENTZ
  }

  function AbsDiff(a: nat, b: nat): nat {
    if a < b then b - a else a - b
  }

  function ValidateGasLimit(header: Header, parent: Header): Verdict {
    if header.gasLimit > GAS_LIMIT_CAPACITY then AboveCapacity
    else if header.gasUsed > header.gasLimit then UsedExceedsLimit
    else
      var diff := AbsDiff(parent.gasLimit, header.gasLimit);
      var limit := parent.gasLimit / Divisor(header.lorentz);
      if diff >= limit || header.gasLimit < MINIMUM_GAS_LIMIT then OutOfBound else Accepted
  }

  function ValidateAgainstParent(header: Header, parent: Header): Verdict {
    if header.number != parent.number + 1 || header.parentHash != parent.hash then WrongNumberOrParent
    else if header.millis <= parent.millis then TimestampInPast
    else ValidateGasLimit(header, parent)
  }

  /** Every header after the first was accepted against the one before it. */
  ghost predicate IsChain(hs: seq<Header>) {
    |hs| > 0 && forall i :: 0 < i < |hs| ==> ValidateAgainstParent(hs[i], hs[i - 1]).Accepted?
  }

  /** The verdict on a header from its fields: which check fails first, and that a header passes
      exactly when none does. */
  lemma VerdictExactly(header: Header, parent: Header)
    ensures var verdict := ValidateAgainstParent(header, parent);
            var linked := header.number == parent.number + 1 && header.parentHash == parent.hash;
            var late := header.millis > parent.millis;
            var small := header.gasLimit <= 9_223_372_036_854_775_807;
            var share := parent.gasLimit / (if header.lorentz then 1024 else 256);
            var close := parent.gasLimit - share < header.gasLimit < parent.gasLimit + share && header.gasLimit >= 5000;
            && (verdict == WrongNumberOrParent <==> !linked)
            && (verdict == TimestampInPast <==> linked && !late)
            && (verdict == AboveCapacity <==> linked && late && !small)
            && (verdict == UsedExceedsLimit <==> linked && late && small && header.gasUsed > header.gasLimit)
            && (verdict == OutOfBound <==> linked && late && small && header.gasUsed <= header.gasLimit && !close)
            && (verdict == Accepted <==> linked && late && small && header.gasUsed <= header.gasLimit && close)
  {
  }

  // ----- along a chain -----

  /** Bounds that every accepted header keeps, and the order of the whole chain. */
  lemma {:induction false} ChainKeepsBounds(hs: seq<Header>, i: nat)
    requires IsChain(hs) && 0 < i < |hs|
    ensures MINIMUM_GAS_LIMIT <= hs[i].gasLimit <= GAS_LIMIT_CAPACITY
    ensures hs[i].gasUsed <= hs[i].gasLimit
    ensures hs[i].number == hs[0].number + i && hs[0].millis + i <= hs[i].millis
    ensures hs[i].parentHash == hs[i - 1].hash
    ensures forall j :: 0 <= j < i ==> hs[j].millis < hs[i].millis
  {
    assert ValidateAgainstParent(hs[i], hs[i - 1]).Accepted?;
    if i > 1 {
      ChainKeepsBounds(hs, i - 1);
    }
  }

  /** Products of the divisors a chain was checked with, and of the divisors moved by one. */
  function Product(hs: seq<Header>, delta: int): int {
    if |hs| <= 1 then 1
    else Product(hs[..|hs| - 1], delta) * (Divisor(hs[|hs| - 1].lorentz) + delta)
  }

  lemma {:induction false} ProductPositive(hs: seq<Header>, delta: int)
    requires -1 <= delta <= 1
    ensures Product(hs, delta) > 0
  {
    if |hs| > 1 {
      ProductPositive(hs[..|hs| - 1], delta);
      PositiveProduct(Product(hs[..|hs| - 1], delta), Divisor(hs[|hs| - 1].lorentz) + delta);
    }
  }

  lemma PositiveProduct(a: int, b: int)
    requires a > 0 && b > 0
    ensures a * b > 0
  {
  }

  lemma StepBound(g: nat, g': nat, lorentz: bool)
    requires AbsDiff(g, g') < g / Divisor(lorentz)
    ensures (Divisor(lorentz) - 1) * g <= Divisor(lorentz) * g' <= (Divisor(lorentz) + 1) * g
  {
    if lorentz {
      assert 1023 * g <= 1024 * g' <= 1025 * g;
    } else {
      assert 255 * g <= 256 * g' <= 257 * g;
    }
  }

  lemma ScaleLe(a: int, b: int, c: int)
    requires a <= b && c >= 0
    ensures c * a <= c * b
  {
  }

  /** One step of the compounded bound: from p*g <= q*g0 and d*g' <= e*g to (p*d)*g' <= (q*e)*g0. */
  lemma Compound(p: int, g: int, q: int, g0: int, d: int, g': int, e: int)
    requires p >= 0 && e >= 0
    requires p * g <= q * g0 && d * g' <= e * g
    ensures (p * d) * g' <= (q * e) * g0
  {
    ScaleLe(d * g', e * g, p);
    ScaleLe(p * g, q * g0, e);
    assert (p * d) * g' == p * (d * g') by { Assoc(p, d, g'); }
    assert p * (e * g) == e * (p * g) by { Assoc(p, e, g); Assoc(e, p, g); }
    assert (q * e) * g0 == e * (q * g0) by { Assoc(e, q, g0); }
  }

  lemma Assoc(a: int, b: int, c: int)
    ensures (a * b) * c == a * (b * c)
  {
  }

  /** The lower half of the step. */
  lemma CompoundLow(a: int, g0: int, p: int, g: int, d: int, g': int)
    requires a >= 0 && p >= 0 && d >= 1
    requires a * g0 <= p * g && (d - 1) * g <= d * g'
    ensures (a * (d - 1)) * g0 <= (p * d) * g'
  {
    ScaleLe(a * g0, p * g, d - 1);
    ScaleLe((d - 1) * g, d * g', p);
    assert (a * (d - 1)) * g0 == (d - 1) * (a * g0) by { Assoc(d - 1, a, g0); }
    assert (d - 1) * (p * g) == p * ((d - 1) * g) by { Assoc(d - 1, p, g); Assoc(p, d - 1, g); }
    assert p * (d * g') == (p * d) * g' by { Assoc(p, d, g'); }
  }

  lemma ChainPrefix(hs: seq<Header>)
    requires IsChain(hs) && |hs| > 1
    ensures IsChain(hs[..|hs| - 1])
    ensures ValidateAgainstParent(hs[|hs| - 1], hs[|hs| - 2]).Accepted?
  {
    var init := hs[..|hs| - 1];
    forall i | 0 < i < |init| ensures ValidateAgainstParent(init[i], init[i - 1]).Accepted? {
      assert ValidateAgainstParent(hs[i], hs[i - 1]).Accepted?;
    }
  }

  /** The limit compounds within the divisor's bound, whatever the fork schedule: multiplied
      out, it lies between the factors (d-1)/d and (d+1)/d of every accepted header. */
  lemma {:induction false} LimitCompounds(hs: seq<Header>)
    requires IsChain(hs)
    ensures Product(hs, -1) * hs[0].gasLimit <= Product(hs, 0) * hs[|hs| - 1].gasLimit
    ensures Product(hs, 0) * hs[|hs| - 1].gasLimit <= Product(hs, 1) * hs[0].gasLimit
  {
    if |hs| > 1 {
      hide IsChain, Divisor;
      var init, last := hs[..|hs| - 1], hs[|hs| - 1];
      ChainPrefix(hs);
      LimitCompounds(init);
      var g0, g, g', d := hs[0].gasLimit, hs[|hs| - 2].gasLimit, last.gasLimit, Divisor(last.lorentz);
      DivisorPositive(last.lorentz);
      StepBound(g, g', last.lorentz);
      ProductPositive(init, 0);
      ProductPositive(init, -1);
      Compound(Product(init, 0), g, Product(init, 1), g0, d, g', d + 1);
      CompoundLow(Product(init, -1), g0, Product(init, 0), g, d, g');
    }
  }

  lemma DivisorPositive(lorentz: bool)
    ensures Divisor(lorentz) > 1
  {
  }

  function Power(b: int, k: nat): int {
    if k == 0 then 1 else Power(b, k - 1) * b
  }

  lemma {:induction false} ProductIsPower(hs: seq<Header>, delta: int, lorentz: bool)
    requires |hs| > 0 && forall i :: 0 < i < |hs| ==> hs[i].lorentz == lorentz
    ensures Product(hs, delta) == Power(Divisor(lorentz) + delta, |hs| - 1)
  {
    if |hs| > 1 {
      ProductIsPower(hs[..|hs| - 1], delta, lorentz);
    }
  }

  /** On a stretch of k headers after Lorentz, 1024^k limits stay within 1023^k and 1025^k;
      before Lorentz the same holds with 256, 255 and 257. */
  lemma LimitCompoundsOnStretch(hs: seq<Header>, lorentz: bool)
    requires IsChain(hs) && forall i :: 0 < i < |hs| ==> hs[i].lorentz == lorentz
    ensures var k, d, g0, g := |hs| - 1, Divisor(lorentz), hs[0].gasLimit, hs[|hs| - 1].gasLimit;
            Power(d - 1, k) * g0 <= Power(d, k) * g <= Power(d + 1, k) * g0
  {
    hide Power, Product;
    LimitCompounds(hs);
    ProductIsPower(hs, -1, lorentz);
    ProductIsPower(hs, 0, lorentz);
    ProductIsPower(hs, 1, lorentz);
  }

  // ----- which limits can be reached -----

  /** A limit that may follow another one. */
  predicate MayFollow(next: nat, limit: nat, d: nat)
    requires d > 0
  {
    MINIMUM_GAS_LIMIT <= next <= GAS_LIMIT_CAPACITY && AbsDiff(limit, next) < limit / d
  }

  lemma MayFollowIsAccepted(header: Header, parent: Header)
    ensures MayFollow(header.gasLimit, parent.gasLimit, Divisor(header.lorentz)) && header.gasUsed <= header.gasLimit
            <==> ValidateGasLimit(header, parent).Accepted?
  {
  }

  /** Exactly k accepted steps lead from one limit to the other. */
  ghost predicate ReachableIn(from: nat, to: nat, d: nat, k: nat)
    requires d > 0
    decreases k
  {
    if k == 0 then from == to
    else exists mid :: ReachableIn(from, mid, d, k - 1) && MayFollow(to, mid, d)
  }

  function Raise(limit: nat, d: nat): int
    requires d > 0
  {
    var up := limit + limit / d - 1;
    if up > GAS_LIMIT_CAPACITY then GAS_LIMIT_CAPACITY else up
  }

  function Lower(limit: nat, d: nat): int
    requires d > 0
  {
    var down := limit - (limit / d - 1);
    if down < MINIMUM_GAS_LIMIT then MINIMUM_GAS_LIMIT else down
  }

  predicate InRange(limit: int) {
    MINIMUM_GAS_LIMIT <= limit <= GAS_LIMIT_CAPACITY
  }

  predicate IsDivisor(d: nat) {
    d == GAS_LIMIT_BOUND_DIVISOR || d == GAS_LIMIT_BOUND_DIVISOR_BEFORE_LORENTZ
  }

  function Highest(limit: nat, d: nat, k: nat): (h: nat)
    requires IsDivisor(d) && InRange(limit)
    ensures InRange(h) && h >= limit
  {
    if k == 0 then limit else Raise(Highest(limit, d, k - 1), d)
  }

  function Lowest(limit: nat, d: nat, k: nat): (l: nat)
    requires IsDivisor(d) && InRange(limit)
    ensures InRange(l) && l <= limit
  {
    if k == 0 then limit else Lower(Lowest(limit, d, k - 1), d)
  }

  lemma RaiseMonotone(a: nat, b: nat, d: nat)
    requires IsDivisor(d) && a <= b
    ensures Raise(a, d) <= Raise(b, d) && Lower(a, d) <= Lower(b, d)
  {
  }

  /** The limits that k headers can reach are exactly an interval, whose ends are the fastest
      rise and the fastest fall. */
  lemma {:induction false} ReachableExactly(from: nat, to: nat, d: nat, k: nat)
    requires IsDivisor(d) && InRange(from)
    ensures ReachableIn(from, to, d, k) <==> Lowest(from, d, k) <= to <= Highest(from, d, k)
    decreases k
  {
    hide MayFollow, Raise, Lower, IsDivisor, InRange;
    DivisorIsPositive(d);
    if k > 0 {
      var low, high := Lowest(from, d, k - 1), Highest(from, d, k - 1);
      if ReachableIn(from, to, d, k) {
        var mid :| ReachableIn(from, mid, d, k - 1) && MayFollow(to, mid, d);
        ReachableExactly(from, mid, d, k - 1);
        StaysBetween(low, mid, high, to, d);
      }
      if Lowest(from, d, k) <= to <= Highest(from, d, k) {
        var mid := if to > high then high else if to < low then low else to;
        ReachableExactly(from, mid, d, k - 1);
        NoGap(low, mid, high, to, d);
      }
    }
  }

  lemma DivisorIsPositive(d: nat)
    requires IsDivisor(d)
    ensures d > 0
  {
  }

  lemma StaysBetween(low: nat, mid: nat, high: nat, to: nat, d: nat)
    requires IsDivisor(d) && low <= mid <= high && MayFollow(to, mid, d)
    ensures Lower(low, d) <= to <= Raise(high, d)
  {
    RaiseMonotone(mid, high, d);
    RaiseMonotone(low, mid, d);
  }

  lemma NoGap(low: nat, mid: nat, high: nat, to: nat, d: nat)
    requires IsDivisor(d) && InRange(low) && InRange(high) && low <= high
    requires Lower(low, d) <= to <= Raise(high, d)
    requires mid == if to > high then high else if to < low then low else to
    ensures MayFollow(to, mid, d)
  {
  }

  lemma {:induction false} HighestGrows(from: nat, d: nat, k: nat)
    requires IsDivisor(d) && InRange(from)
    ensures Highest(from, d, k) >= from + k || Highest(from, d, k) == GAS_LIMIT_CAPACITY
    ensures Lowest(from, d, k) <= from - k || Lowest(from, d, k) == MINIMUM_GAS_LIMIT
  {
    if k > 0 {
      HighestGrows(from, d, k - 1);
    }
  }

  /** Any two limits in range are joined by a chain no longer than their distance. */
  lemma AnyLimitIsReachable(from: nat, to: nat, d: nat)
    requires IsDivisor(d) && InRange(from) && InRange(to)
    ensures ReachableIn(from, to, d, AbsDiff(from, to))
  {
    hide ReachableIn;
    HighestGrows(from, d, AbsDiff(from, to));
    ReachableExactly(from, to, d, AbsDiff(from, to));
  }

  /** Limits reachable in k steps are the limits of chains of k accepted headers, whose hashes
      are all different. */
  lemma {:induction false} ReachableByChain(base: Header, to: nat, lorentz: bool, k: nat) returns (hs: seq<Header>)
    requires ReachableIn(base.gasLimit, to, Divisor(lorentz), k)
    ensures IsChain(hs) && |hs| == k + 1 && hs[0] == base && hs[k].gasLimit == to
    ensures forall i :: 0 < i < |hs| ==> hs[i].lorentz == lorentz
    ensures forall i :: 0 <= i < |hs| ==> hs[i].hash == base.hash + i
    decreases k
  {
    if k == 0 {
      hs := [base];
    } else {
      var mid :| ReachableIn(base.gasLimit, mid, Divisor(lorentz), k - 1) && MayFollow(to, mid, Divisor(lorentz));
      hs := ReachableByChain(base, mid, lorentz, k - 1);
      var last := hs[k - 1];
      var next := Header(last.number + 1, last.hash + 1, last.hash, last.millis + 1, lorentz, to, 0);
      MayFollowIsAccepted(next, last);
      hs := hs + [next];
    }
  }

  lemma {:induction false} ChainReaches(hs: seq<Header>, lorentz: bool)
    requires IsChain(hs) && forall i :: 0 < i < |hs| ==> hs[i].lorentz == lorentz
    ensures ReachableIn(hs[0].gasLimit, hs[|hs| - 1].gasLimit, Divisor(lorentz), |hs| - 1)
  {
    if |hs| > 1 {
      ChainPrefix(hs);
      ChainReaches(hs[..|hs| - 1], lorentz);
      MayFollowIsAccepted(hs[|hs| - 1], hs[|hs| - 2]);
    }
  }
}

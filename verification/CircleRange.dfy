/**
 Sets of integers as strided arcs `[left, right)` on a modular ring
 (pkg/pcode/circlerange.go).

 `Arc` is the value of a `circleRange`; `CircleRange` is the object whose methods
 rewrite it in place.  What an arc means is `Contains`, the program's own test,
 and `Member`, an independent enumeration; `ContainsIsMember` ties the two.
 */
module CircleRanges {
  import opened Words

  /** The 64-entry table from six boundary comparisons to an overlap category, eight to a row. */
  const ARRANGE: seq<string> := [
    "gcgbegda", "ggggggge", "ggggcgbg", "gggggggc",
    "dfgggggg", "gegdgggg", "bgggfggg", "gcgbegda"
  ]

  /** Membership in the arc `[l, r)`, strides aside; `l == r` is the whole ring. */
  predicate Between(l: int, r: int, v: int) {
    if l < r then l <= v < r else if r < l then v < r || v >= l else true
  }

  datatype Arc = Arc(left: nat, right: nat, mask: nat, step: nat, isempty: bool) {

    ghost predicate WellFormed() {
      && IsPow2(mask + 1) && IsPow2(step) && step <= mask + 1
      && (!isempty ==> left <= mask && right <= mask && left % step == right % step)
    }

    predicate Contains(v: nat)
      requires step > 0
    {
      !isempty && left % step == v % step && Between(left, right, v)
    }

    /** How many values the arc enumerates. */
    ghost function Count(): nat
      requires step > 0
    {
      if isempty then 0
      else if left == right then (mask + 1) / step
      else Fold(right - left, mask) / step
    }

    /** The value `i` steps from `left`. */
    ghost function Nth(i: nat): nat {
      Fold(left + i * step, mask)
    }

    /** `v` is one of the values met when stepping from `left` towards `right`. */
    ghost predicate Member(v: nat)
      requires step > 0
    {
      exists i: nat :: i < Count() && Nth(i) == v
    }
  }

  lemma WellFormedStep(a: Arc)
    requires a.WellFormed()
    ensures a.step > 0 && (a.mask + 1) % a.step == 0
  {
    var j: nat :| Pow2(j) == a.step;
    PowersDivide(a.step, a.mask + 1);
  }

  /** The length of the arc as a distance on the ring. */
  ghost function Span(a: Arc): nat {
    if a.left == a.right then a.mask + 1 else Fold(a.right - a.left, a.mask)
  }

  /** The program's membership test is exactly the enumeration. */
  lemma ContainsIsMember(a: Arc, v: nat)
    requires a.WellFormed() && v <= a.mask
    ensures a.step > 0 && (a.Contains(v) <==> a.Member(v))
  {
    WellFormedStep(a);
    if a.isempty {
    } else {
      ContainsIsDistance(a, v);
      if a.Contains(v) {
        MemberAt(a, v);
      }
      if a.Member(v) {
        var i: nat :| i < a.Count() && a.Nth(i) == v;
        MemberIsContained(a, v, i);
      }
    }
  }

  lemma ContainsIsDistance(a: Arc, v: nat)
    requires a.WellFormed() && v <= a.mask && !a.isempty
    ensures a.step > 0 && Span(a) % a.step == 0
    ensures a.Contains(v) <==> Fold(v - a.left, a.mask) < Span(a) && Fold(v - a.left, a.mask) % a.step == 0
  {
    WellFormedStep(a);
    BetweenIsDistance(a.left, a.right, v, a.mask + 1);
    EqualRemainders(a.right, a.left, a.step);
    ModOfMultiple(a.right - a.left, a.mask + 1, a.step);
    EqualRemainders(v, a.left, a.step);
    ModOfMultiple(v - a.left, a.mask + 1, a.step);
  }

  lemma MemberAt(a: Arc, v: nat)
    requires a.step > 0 && !a.isempty && v <= a.mask
    requires Span(a) % a.step == 0
    requires Fold(v - a.left, a.mask) < Span(a) && Fold(v - a.left, a.mask) % a.step == 0
    ensures a.Member(v)
  {
    var d := Fold(v - a.left, a.mask);
    QuotientBelow(d, Span(a), a.step);
    NthAt(a, v, d / a.step);
  }

  lemma NthAt(a: Arc, v: nat, i: nat)
    requires v <= a.mask && i * a.step == Fold(v - a.left, a.mask)
    ensures a.Nth(i) == v
  {
    ModOfSum(a.left, v - a.left, a.mask + 1);
    SmallMod(v, a.mask + 1);
  }

  lemma MemberIsContained(a: Arc, v: nat, i: nat)
    requires a.WellFormed() && !a.isempty && a.step > 0
    requires i < a.Count() && a.Nth(i) == v <= a.mask
    ensures a.Contains(v)
  {
    ContainsIsDistance(a, v);
    assert a.Count() == Span(a) / a.step;
    ProductBelow(i, Span(a), a.step);
    NthDistance(a, i);
    MultipleHasNoRemainder(i, a.step);
  }

  lemma NthDistance(a: Arc, i: nat)
    requires i * a.step <= a.mask
    ensures Fold(a.Nth(i) - a.left, a.mask) == i * a.step
  {
    ModOfDifference(a.left + i * a.step, a.left, a.mask + 1);
    SmallMod(i * a.step, a.mask + 1);
  }

  lemma QuotientBelow(d: nat, span: nat, s: nat)
    requires s > 0 && d < span && d % s == 0 && span % s == 0
    ensures d / s < span / s
  {
    if d / s >= span / s {
      assert (d / s) * s >= (span / s) * s by { MulMonotone(span / s, d / s, s); }
      assert false;
    }
  }

  lemma ProductBelow(i: nat, span: nat, s: nat)
    requires s > 0 && i < span / s
    ensures i * s < span
  {
    MulMonotone(i + 1, span / s, s);
    assert (i + 1) * s == i * s + s;
  }

  lemma MulMonotone(x: nat, y: nat, s: nat)
    requires x <= y
    ensures x * s <= y * s
  {
    assert y * s == x * s + (y - x) * s;
  }

  /** Arc membership read as a distance walked from `l`. */
  lemma BetweenIsDistance(l: nat, r: nat, v: nat, n: nat)
    requires l < n && r < n && v < n
    ensures Between(l, r, v) <==> (v - l) % n < (if l == r then n else (r - l) % n)
  {
    RingDistance(l, v, n);
    RingDistance(l, r, n);
  }

  lemma RingDistance(x: int, y: int, n: int)
    requires 0 <= x < n && 0 <= y < n
    ensures (y - x) % n == if x <= y then y - x else y - x + n
  {
    if x <= y {
      RemainderUnique(y - x, n, 0, y - x);
    } else {
      RemainderUnique(y - x, n, -1, y - x + n);
    }
  }

  // ----- the overlap table -----

  function Bit(b: bool, weight: nat): nat { if b then weight else 0 }

  /** The comparisons from most to least significant select the entry. */
  function EncodeOverlap(l1: int, r1: int, l2: int, r2: int): char {
    ARRANGE[Bit(l1 <= r1, 4) + Bit(l1 <= l2, 2) + Bit(l1 <= r2, 1)]
           [Bit(r1 <= l2, 4) + Bit(r1 <= r2, 2) + Bit(l2 <= r2, 1)]
  }

  /** The 24 entries two proper arcs can select; the other 40 are contradictory orders. */
  lemma ReachableEntries()
    ensures ARRANGE[0][0] == 'g' && ARRANGE[0][1] == 'c' && ARRANGE[0][3] == 'b' && ARRANGE[0][4] == 'e'
    ensures ARRANGE[0][6] == 'd' && ARRANGE[0][7] == 'a' && ARRANGE[1][3] == 'g' && ARRANGE[1][7] == 'e'
    ensures ARRANGE[2][4] == 'c' && ARRANGE[2][6] == 'b' && ARRANGE[3][6] == 'g' && ARRANGE[3][7] == 'c'
    ensures ARRANGE[4][0] == 'd' && ARRANGE[4][1] == 'f' && ARRANGE[5][1] == 'e' && ARRANGE[5][3] == 'd'
    ensures ARRANGE[6][0] == 'b' && ARRANGE[6][4] == 'f' && ARRANGE[7][0] == 'g' && ARRANGE[7][1] == 'c'
    ensures ARRANGE[7][3] == 'b' && ARRANGE[7][4] == 'e' && ARRANGE[7][6] == 'd' && ARRANGE[7][7] == 'a'
  {
  }

  /** What each category says about the common part of two proper arcs, ties included. */
  predicate MeetOf(c: char, l1: int, r1: int, l2: int, r2: int, v: int) {
    match c
    case 'a' => false
    case 'f' => false
    case 'b' => l2 != r1 && Between(l2, r1, v)
    case 'c' => Between(l2, r2, v)
    case 'd' => Between(l1, r1, v)
    case 'e' => l1 != r2 && Between(l1, r2, v)
    case _ => (l2 != r1 && Between(l2, r1, v)) || (l1 != r2 && Between(l1, r2, v))
  }

  lemma OverlapMeet(l1: int, r1: int, l2: int, r2: int, v: int)
    requires l1 != r1 && l2 != r2
    ensures EncodeOverlap(l1, r1, l2, r2) in {'a', 'b', 'c', 'd', 'e', 'f', 'g'}
    ensures (Between(l1, r1, v) && Between(l2, r2, v)) <==> MeetOf(EncodeOverlap(l1, r1, l2, r2), l1, r1, l2, r2, v)
  {
    ReachableEntries();
  }

  /** What each category says about the joint extent of two proper arcs. */
  predicate JoinOf(c: char, l1: int, r1: int, l2: int, r2: int, v: int) {
    match c
    case 'b' => Between(l1, r2, v)
    case 'c' => Between(l1, r1, v)
    case 'd' => Between(l2, r2, v)
    case 'e' => Between(l2, r1, v)
    case 'g' => true
    case _ =>
      if r1 == l2 then Between(l1, r2, v)
      else if l1 == r2 then Between(l2, r1, v)
      else Between(l1, r1, v) || Between(l2, r2, v)
  }

  lemma OverlapJoin(l1: int, r1: int, l2: int, r2: int, v: int)
    requires l1 != r1 && l2 != r2
    ensures (Between(l1, r1, v) || Between(l2, r2, v)) <==> JoinOf(EncodeOverlap(l1, r1, l2, r2), l1, r1, l2, r2, v)
  {
    ReachableEntries();
  }

  /** Category `g` with no shared end leaves two pieces: no arc holds both starts and neither end. */
  lemma TwoPieceMeet(l1: int, r1: int, l2: int, r2: int, l: int, r: int)
    requires l1 != r1 && l2 != r2 && l1 != r2 && l2 != r1
    requires EncodeOverlap(l1, r1, l2, r2) == 'g'
    ensures Between(l1, r1, l1) && Between(l2, r2, l1) && Between(l1, r1, l2) && Between(l2, r2, l2)
    ensures !Between(l1, r1, r1) && !Between(l2, r2, r2)
    ensures Between(l, r, l1) && Between(l, r, l2) ==> Between(l, r, r1) || Between(l, r, r2)
  {
    ReachableEntries();
  }

  lemma TwoPieceJoin(l1: int, r1: int, l2: int, r2: int, l: int, r: int)
    requires l1 != r1 && l2 != r2 && l1 != r2 && l2 != r1
    requires EncodeOverlap(l1, r1, l2, r2) in {'a', 'f'}
    ensures Between(l1, r1, l1) && Between(l2, r2, l2)
    ensures !Between(l1, r1, r1) && !Between(l2, r2, r1) && !Between(l1, r1, r2) && !Between(l2, r2, r2)
    ensures Between(l, r, l1) && Between(l, r, l2) ==> Between(l, r, r1) || Between(l, r, r2)
  {
    ReachableEntries();
  }

  // ----- changing the stride or the domain of an arc -----

  /** Moves an edge up to the next value in phase `rem`, before folding. */
  function RoundUp(x: nat, step: nat, rem: nat): nat
    requires rem < step
  {
    x + (if x % step > rem then rem + step - x % step else rem - x % step)
  }

  lemma RoundUpFacts(x: nat, step: nat, rem: nat)
    requires rem < step
    ensures RoundUp(x, step, rem) % step == rem
    ensures x <= RoundUp(x, step, rem) < x + step
    ensures forall v: nat {:trigger v % step} :: v % step == rem ==> (v < x <==> v < RoundUp(x, step, rem))
  {
    var up := RoundUp(x, step, rem);
    RoundUpPhase(x, step, rem);
    forall v: nat | v % step == rem ensures v < x <==> v < up {
      if x <= v < up {
        PhaseGap(v, up, step);
      }
    }
  }

  lemma RoundUpPhase(x: nat, step: nat, rem: nat)
    requires rem < step
    ensures RoundUp(x, step, rem) % step == rem
  {
    var q := x / step;
    assert x == q * step + x % step;
    if x % step > rem {
      assert RoundUp(x, step, rem) == (q + 1) * step + rem by { assert (q + 1) * step == q * step + step; }
      RemainderUnique(RoundUp(x, step, rem), step, q + 1, rem);
    } else {
      assert RoundUp(x, step, rem) == q * step + rem;
      RemainderUnique(RoundUp(x, step, rem), step, q, rem);
    }
  }

  /** Distinct values in one phase are a step apart. */
  lemma PhaseGap(v: nat, w: nat, step: nat)
    requires step > 0 && v % step == w % step && v < w
    ensures v + step <= w
  {
    EqualRemainders(w, v, step);
    var k := (w - v) / step;
    assert w - v == k * step;
    MultipleIsLarge(k, step);
  }

  /** The values of the arc `[l, r)` that lie in phase `rem` of a coarser stride. */
  ghost predicate InPhase(l: nat, r: nat, oldStep: nat, step: nat, rem: nat, v: nat)
    requires oldStep > 0 && step > 0
  {
    v % step == rem && v % oldStep == l % oldStep && Between(l, r, v)
  }

  /** An edge above the last value in phase rounds past the top of the ring and wraps to `rem`. */
  predicate RoundsPast(x: nat, mask: nat, step: nat, rem: nat)
    requires rem < step
  {
    RoundUp(x, step, rem) > mask
  }

  /**
   When the coarsened arc is the right one: the phases disagree outright, or
   both edges round past the top of the ring, or neither does.
   */
  predicate StrideSafe(mask: nat, step: nat, oldStep: nat, rem: nat, l: nat, r: nat)
    requires rem < step && oldStep > 0
  {
    l % oldStep != rem % oldStep || (RoundsPast(l, mask, step, rem) <==> RoundsPast(r, mask, step, rem))
  }

  /** The new edges hold exactly the values of `[l, r)` in phase `rem`. */
  ghost predicate StrideExact(mask: nat, step: nat, oldStep: nat, rem: nat, l: nat, r: nat, gone: bool, l': nat, r': nat)
    requires oldStep > 0 && step > 0
  {
    forall v: nat {:trigger InPhase(l, r, oldStep, step, rem, v)} :: v <= mask ==>
      (InPhase(l, r, oldStep, step, rem, v) <==> !gone && v % step == rem && Between(l', r', v))
  }

  /**
   Coarsens the stride of `[l, r)` to the values in phase `rem`.  The result is
   exact if and only if `StrideSafe`: with one edge wrapping alone the order test
   on the folded edges loses the set.
   */
  method NewStride(mask: nat, step: nat, oldStep: nat, rem: nat, l: nat, r: nat)
    returns (gone: bool, l': nat, r': nat)
    requires 0 < oldStep && rem < step && step % oldStep == 0 && (mask + 1) % step == 0
    requires l <= mask && r <= mask && l % oldStep == r % oldStep
    ensures l % oldStep == rem % oldStep ==>
              l' == Fold(RoundUp(l, step, rem), mask) && r' == Fold(RoundUp(r, step, rem), mask)
    ensures l % oldStep != rem % oldStep ==> gone
    ensures !gone ==> l' <= mask && r' <= mask && l' % step == rem && r' % step == rem
    ensures StrideSafe(mask, step, oldStep, rem, l, r) <==> StrideExact(mask, step, oldStep, rem, l, r, gone, l', r')
  {
    if l % oldStep != rem % oldStep {
      forall v: nat | v <= mask ensures !InPhase(l, r, oldStep, step, rem, v) {
        ModOfMultiple(v, step, oldStep);
      }
      return true, l, r;
    }
    var origOrder := l < r;
    l' := Fold(l + (if l % step > rem then rem + step - l % step else rem - l % step), mask);
    r' := Fold(r + (if r % step > rem then rem + step - r % step else rem - r % step), mask);
    gone := origOrder != (l' < r');
    StrideExactness(mask, step, oldStep, rem, l, r);
  }

  lemma FoldedRoundUp(x: nat, mask: nat, step: nat, rem: nat)
    requires rem < step && (mask + 1) % step == 0 && x <= mask
    ensures var up := RoundUp(x, step, rem);
      && Fold(up, mask) % step == rem
      && Fold(up, mask) == if RoundsPast(x, mask, step, rem) then rem else up
    ensures RoundsPast(x, mask, step, rem) ==> forall v: nat {:trigger v % step} :: v <= mask && v % step == rem ==> v < x
    ensures rem <= mask
  {
    var up, n := RoundUp(x, step, rem), mask + 1;
    RoundUpFacts(x, step, rem);
    ModOfMultiple(up, n, step);
    StepWithinRing(mask, step);
    if RoundsPast(x, mask, step, rem) {
      assert up < n + step;
      assert Fold(up, mask) == up - n by { RemainderUnique(up, n, 1, up - n); }
      SmallMod(up - n, step);
    } else {
      SmallMod(up, n);
    }
  }

  lemma StepWithinRing(mask: nat, step: nat)
    requires step > 0 && (mask + 1) % step == 0
    ensures step <= mask + 1
  {
    if step > mask + 1 {
      SmallMod(mask + 1, step);
    }
  }

  lemma StrideExactness(mask: nat, step: nat, oldStep: nat, rem: nat, l: nat, r: nat)
    requires 0 < oldStep && rem < step && step % oldStep == 0 && (mask + 1) % step == 0
    requires l <= mask && r <= mask && l % oldStep == r % oldStep == rem % oldStep
    ensures var l', r' := Fold(RoundUp(l, step, rem), mask), Fold(RoundUp(r, step, rem), mask);
      var gone := (l < r) != (l' < r');
      && l' % step == rem && r' % step == rem
      && (StrideSafe(mask, step, oldStep, rem, l, r) <==> StrideExact(mask, step, oldStep, rem, l, r, gone, l', r'))
  {
    FoldedRoundUp(l, mask, step, rem);
    FoldedRoundUp(r, mask, step, rem);
    RoundUpOrder(l, r, step, rem);
    var l', r' := Fold(RoundUp(l, step, rem), mask), Fold(RoundUp(r, step, rem), mask);
    var gone := (l < r) != (l' < r');
    if StrideSafe(mask, step, oldStep, rem, l, r) {
      forall v: nat | v <= mask
        ensures InPhase(l, r, oldStep, step, rem, v) <==> !gone && v % step == rem && Between(l', r', v)
      {
        if v % step == rem {
          ModOfMultiple(v, step, oldStep);
          RoundUpFacts(l, step, rem);
          RoundUpFacts(r, step, rem);
          SmallestInPhase(step);
          EdgesKeepOrder(mask, rem, l, r, RoundUp(l, step, rem), RoundUp(r, step, rem), v);
        }
      }
    } else {
      StrideLosesSet(mask, step, oldStep, rem, l, r);
    }
  }

  lemma RoundUpOrder(x: nat, y: nat, step: nat, rem: nat)
    requires rem < step
    ensures x <= y ==> RoundUp(x, step, rem) <= RoundUp(y, step, rem)
    ensures y <= x ==> RoundUp(y, step, rem) <= RoundUp(x, step, rem)
  {
    RoundUpFacts(x, step, rem);
    RoundUpFacts(y, step, rem);
    assert RoundUp(x, step, rem) % step == rem && RoundUp(y, step, rem) % step == rem;
  }

  /** Membership survives rounding when the edges wrap together or not at all. */
  lemma EdgesKeepOrder(mask: nat, rem: nat, l: nat, r: nat, upl: nat, upr: nat, v: nat)
    requires rem <= v <= mask && l <= upl && r <= upr
    requires (v < l <==> v < upl) && (v < r <==> v < upr)
    requires (l <= r ==> upl <= upr) && (r <= l ==> upr <= upl)
    requires upl > mask <==> upr > mask
    ensures var l' := if upl > mask then rem else upl;
      var r' := if upr > mask then rem else upr;
      Between(l, r, v) <==> (l < r) == (l' < r') && Between(l', r', v)
  {
  }

  lemma StrideLosesSet(mask: nat, step: nat, oldStep: nat, rem: nat, l: nat, r: nat)
    requires 0 < oldStep && rem < step && step % oldStep == 0 && (mask + 1) % step == 0
    requires l <= mask && r <= mask && l % oldStep == r % oldStep == rem % oldStep
    requires !StrideSafe(mask, step, oldStep, rem, l, r)
    ensures var l', r' := Fold(RoundUp(l, step, rem), mask), Fold(RoundUp(r, step, rem), mask);
      exists v: nat {:trigger InPhase(l, r, oldStep, step, rem, v)} :: v <= mask &&
        InPhase(l, r, oldStep, step, rem, v) != ((l < r) == (l' < r') && v % step == rem && Between(l', r', v))
  {
    FoldedRoundUp(l, mask, step, rem);
    FoldedRoundUp(r, mask, step, rem);
    RoundUpOrder(l, r, step, rem);
    var l', r' := Fold(RoundUp(l, step, rem), mask), Fold(RoundUp(r, step, rem), mask);
    var w := if l < r then l' else rem;
    SmallMod(rem, step);
    SmallestInPhase(step);
    ModOfMultiple(w, step, oldStep);
    RoundUpFacts(l, step, rem);
    RoundUpFacts(r, step, rem);
    assert w % step == rem && w <= mask;
    assert InPhase(l, r, oldStep, step, rem, w) <==> Between(l, r, w);
  }

  /** When cutting `[l, r)` down to a smaller ring is exact. */
  predicate DomainSafe(newMask: nat, newStep: nat, l: nat, r: nat) {
    !(l > newMask && r < newStep)
  }

  ghost predicate DomainExact(newMask: nat, newStep: nat, l: nat, r: nat, gone: bool, l': nat, r': nat)
    requires newStep > 0
  {
    forall v: nat {:trigger Between(l, r, v)} :: v <= newMask && v % newStep == l % newStep ==>
      (Between(l, r, v) <==> !gone && Between(l', r', v))
  }

  /**
   Truncates `[l, r)` to the ring of `newMask`.  Exact if and only if
   `DomainSafe`: an arc above the new ring that ends on the first value of the
   phase is turned into everything.
   */
  method NewDomain(newMask: nat, newStep: nat, l: nat, r: nat) returns (gone: bool, l': nat, r': nat)
    requires 0 < newStep <= newMask + 1 && l % newStep == r % newStep
    ensures !gone ==> l' <= newMask && r' <= newMask && l' % newStep == l % newStep == r' % newStep
    ensures DomainSafe(newMask, newStep, l, r) <==> DomainExact(newMask, newStep, l, r, gone, l', r')
  {
    var rem := l % newStep;
    SmallMod(rem, newStep);
    SmallestInPhase(newStep);
    l', r', gone := l, r, false;
    assert !DomainSafe(newMask, newStep, l, r) ==> r == rem && !Between(l, r, rem) by {
      if r < newStep { SmallMod(r, newStep); }
    }
    if l' > newMask {
      if r' > newMask {
        if l' < r' {
          return true, l', r';
        }
        l', r' := rem, rem;
        return;
      }
      l' := rem;
    }
    if r' > newMask {
      r' := rem;
    }
    if l' == r' {
      l', r' := rem, rem;
    }
  }

  lemma SmallestInPhase(step: nat)
    requires step > 0
    ensures forall v: nat {:trigger v % step} :: v % step <= v
    ensures forall v: nat {:trigger v % step} :: v < step ==> v % step == v
  {
  }

  // ----- combining two arcs -----

  /** The stride, and the phase of that stride, an intersection works in. */
  function CommonStep(a: Arc, b: Arc): nat { if a.step < b.step then b.step else a.step }

  function CommonPhase(a: Arc, b: Arc): nat
    requires CommonStep(a, b) > 0
  {
    (if a.step < b.step then b.left else a.left) % CommonStep(a, b)
  }

  function Min(x: nat, y: nat): nat { if x <= y then x else y }

  /** An edge of `a` once its stride has been brought to the common one. */
  function Edge(a: Arc, b: Arc, x: nat): nat
    requires a.step > 0 && b.step > 0
  {
    if a.step < b.step then Fold(RoundUp(x, b.step, b.left % b.step), a.mask) else x
  }

  /** `a` can be restated in the common stride and ring without losing or gaining values. */
  ghost predicate Restatable(a: Arc, b: Arc)
    requires a.step > 0 && b.step > 0
  {
    && (a.step < b.step ==> StrideSafe(a.mask, b.step, a.step, b.left % b.step, a.left, a.right))
    && (a.step == b.step ==> a.left % a.step == b.left % b.step)
    && (a.mask > b.mask ==> DomainSafe(b.mask, CommonStep(a, b), Edge(a, b, a.left), Edge(a, b, a.right)))
  }

  /**
   The pairs of arcs whose intersection the program computes exactly.  For
   equal rings and strides this is equality of phase, and nothing more.
   */
  ghost predicate Meetable(a: Arc, b: Arc)
    requires a.step > 0 && b.step > 0
  {
    a.isempty || b.isempty || (Restatable(a, b) && Restatable(b, a))
  }

  /** The two arcs have no position in common, strides aside. */
  ghost predicate Apart(a: Arc, b: Arc) {
    forall v: nat {:trigger Between(a.left, a.right, v)} :: !(Between(a.left, a.right, v) && Between(b.left, b.right, v))
  }

  /** `c` denotes the common values of `a` and `b`. */
  ghost predicate IsMeet(c: Arc, a: Arc, b: Arc)
    requires a.step > 0 && b.step > 0 && c.step > 0
  {
    forall v: nat {:trigger c.Contains(v)} :: v <= Min(a.mask, b.mask) ==> (c.Contains(v) <==> a.Contains(v) && b.Contains(v))
  }

  /** `c` denotes the values of `a` and of `b`. */
  ghost predicate IsJoin(c: Arc, a: Arc, b: Arc)
    requires a.step > 0 && b.step > 0 && c.step > 0
  {
    forall v: nat {:trigger c.Contains(v)} :: v <= a.mask ==> (c.Contains(v) <==> a.Contains(v) || b.Contains(v))
  }

  /** No single arc of stride `step` on the ring of `mask` denotes the common values. */
  ghost predicate NoArcIsMeet(mask: nat, step: nat, a: Arc, b: Arc)
    requires a.step > 0 && b.step > 0 && step > 0
  {
    forall c: Arc :: c.WellFormed() && c.mask == mask && c.step == step ==> !IsMeet(c, a, b)
  }

  ghost predicate NoArcIsJoin(mask: nat, step: nat, a: Arc, b: Arc)
    requires a.step > 0 && b.step > 0 && step > 0
  {
    forall c: Arc :: c.WellFormed() && c.mask == mask && c.step == step ==> !IsJoin(c, a, b)
  }

  /** The edges of `a` after the stride and ring changes describe `a` in the common phase. */
  ghost predicate Restates(a: Arc, l: nat, r: nat, mask: nat, step: nat, rem: nat)
    requires a.step > 0 && step > 0
  {
    && l <= mask && r <= mask && l % step == rem && r % step == rem
    && forall v: nat {:trigger Between(l, r, v)} :: v <= mask && v % step == rem ==> (a.Contains(v) <==> Between(l, r, v))
  }

  /** The stride change and the ring change applied to the edges of one operand. */
  method Restate(a: Arc, b: Arc) returns (gone: bool, l: nat, r: nat)
    requires a.WellFormed() && b.WellFormed() && !a.isempty && a.step <= b.mask + 1 && b.step <= a.mask + 1
    ensures a.step > 0 && b.step > 0
    ensures !gone ==> var m, s, rem := Min(a.mask, b.mask), CommonStep(a, b), CommonPhase(a, b);
              l <= m && r <= m && l % s == rem && r % s == rem
    ensures a.step == b.step && a.mask == b.mask ==> !gone && l == a.left && r == a.right
    ensures Restatable(a, b) && !gone ==> Restates(a, l, r, Min(a.mask, b.mask), CommonStep(a, b), CommonPhase(a, b))
    ensures Restatable(a, b) && gone ==>
              forall v: nat {:trigger a.Contains(v)} :: v <= Min(a.mask, b.mask) && v % CommonStep(a, b) == CommonPhase(a, b) ==> !a.Contains(v)
  {
    WellFormedStep(a);
    WellFormedStep(b);
    gone, l, r := RestateStride(a, b);
    if !gone && a.mask > b.mask {
      ghost var l0, r0 := l, r;
      gone, l, r := NewDomain(b.mask, CommonStep(a, b), l, r);
      if Restatable(a, b) {
        NarrowRestated(a, l0, r0, b.mask, CommonStep(a, b), CommonPhase(a, b), gone, l, r);
      }
    }
  }

  lemma NarrowRestated(a: Arc, l: nat, r: nat, newMask: nat, step: nat, rem: nat, gone: bool, l': nat, r': nat)
    requires a.step > 0 && step > 0 && newMask <= a.mask
    requires Restates(a, l, r, a.mask, step, rem) && DomainExact(newMask, step, l, r, gone, l', r')
    ensures forall v: nat {:trigger Between(l', r', v)} :: v <= newMask && v % step == rem ==> (a.Contains(v) <==> !gone && Between(l', r', v))
    ensures forall v: nat {:trigger a.Contains(v)} :: v <= newMask && v % step == rem ==> (a.Contains(v) <==> !gone && Between(l', r', v))
  {
    forall v: nat | v <= newMask && v % step == rem ensures a.Contains(v) <==> !gone && Between(l', r', v) {
      assert Between(l, r, v) || !Between(l, r, v);
    }
  }

  method RestateStride(a: Arc, b: Arc) returns (gone: bool, l: nat, r: nat)
    requires a.WellFormed() && b.WellFormed() && !a.isempty && 0 < a.step <= b.mask + 1 && 0 < b.step <= a.mask + 1
    ensures !gone ==> l == Edge(a, b, a.left) && r == Edge(a, b, a.right)
    ensures a.step == b.step ==> !gone
    ensures !gone ==> l <= a.mask && r <= a.mask && l % CommonStep(a, b) == CommonPhase(a, b) == r % CommonStep(a, b)
    ensures Restatable(a, b) && !gone ==> Restates(a, l, r, a.mask, CommonStep(a, b), CommonPhase(a, b))
    ensures Restatable(a, b) && gone ==>
              forall v: nat {:trigger a.Contains(v)} :: v <= a.mask && v % CommonStep(a, b) == CommonPhase(a, b) ==> !a.Contains(v)
  {
    l, r, gone := a.left, a.right, false;
    if a.step < b.step {
      PowersDivide(a.step, b.step);
      PowersDivide(b.step, a.mask + 1);
      gone, l, r := NewStride(a.mask, b.step, a.step, b.left % b.step, l, r);
      if Restatable(a, b) {
        CoarseMembers(a, b.step, b.left % b.step, gone, l, r);
      }
    }
  }

  lemma CoarseMembers(a: Arc, step: nat, rem: nat, gone: bool, l: nat, r: nat)
    requires a.step > 0 && step > 0 && !a.isempty
    requires StrideExact(a.mask, step, a.step, rem, a.left, a.right, gone, l, r)
    ensures forall v: nat {:trigger Between(l, r, v)} :: v <= a.mask && v % step == rem ==> (a.Contains(v) <==> !gone && Between(l, r, v))
    ensures forall v: nat {:trigger a.Contains(v)} :: v <= a.mask && v % step == rem ==> (a.Contains(v) <==> !gone && Between(l, r, v))
  {
    forall v: nat | v <= a.mask && v % step == rem ensures a.Contains(v) <==> !gone && Between(l, r, v) {
      assert InPhase(a.left, a.right, a.step, step, rem, v) <==> a.Contains(v);
    }
  }

  /** Common values lie in the phase of both strides, so in the common phase. */
  lemma CommonValuePhase(a: Arc, b: Arc, v: nat)
    requires a.step > 0 && b.step > 0 && a.Contains(v) && b.Contains(v)
    ensures v % CommonStep(a, b) == CommonPhase(a, b) == CommonPhase(b, a)
  {
  }

  /** The final stage of an intersection, on edges already in one stride and one ring. */
  method MeetEdges(l1: nat, r1: nat, l2: nat, r2: nat) returns (code: int, empty: bool, l: nat, r: nat)
    ensures code == 0 || code == 2
    ensures code == 0 ==> forall v: nat {:trigger Between(l1, r1, v)} ::
              (Between(l1, r1, v) && Between(l2, r2, v)) <==> !empty && Between(l, r, v)
    ensures code == 0 && !empty ==> l in {l1, l2} && r in {r1, r2}
    ensures code == 2 ==> l1 != r1 && l2 != r2 && l1 != r2 && l2 != r1 && EncodeOverlap(l1, r1, l2, r2) == 'g'
  {
    code, empty, l, r := 0, false, l1, r1;
    if l1 == r1 {
      l, r := l2, r2;
      return;
    }
    if l2 == r2 {
      return;
    }
    forall v: nat
      ensures (Between(l1, r1, v) && Between(l2, r2, v)) <==> MeetOf(EncodeOverlap(l1, r1, l2, r2), l1, r1, l2, r2, v)
    {
      OverlapMeet(l1, r1, l2, r2, v);
    }
    OverlapMeet(l1, r1, l2, r2, 0);
    match EncodeOverlap(l1, r1, l2, r2) {
      case 'b' =>
        l, r := l2, r1;
        empty := l == r;
      case 'c' => l, r := l2, r2;
      case 'd' => l, r := l1, r1;
      case 'e' =>
        l, r := l1, r2;
        empty := l == r;
      case 'g' =>
        if l1 == r2 {
          l, r := l2, r1;
          empty := l == r;
        } else if l2 == r1 {
          l, r := l1, r2;
          empty := l == r;
        } else {
          code := 2;
        }
      case _ => empty := true;
    }
  }

  /** The intersection of two nonempty arcs; `c` keeps the fields of `a` where it has no answer of its own. */
  method MeetArcs(a: Arc, b: Arc) returns (code: int, c: Arc)
    requires a.WellFormed() && b.WellFormed() && !a.isempty && !b.isempty
    requires a.step <= b.mask + 1 && b.step <= a.mask + 1
    ensures code == 0 || code == 2
    ensures a.step > 0 && b.step > 0 && c.step > 0
    ensures code == 2 ==> c == a
    ensures code == 0 && Meetable(a, b) ==> c.WellFormed() && IsMeet(c, a, b)
    ensures code == 0 && !c.isempty ==> c.mask == Min(a.mask, b.mask) && c.step == CommonStep(a, b)
    ensures a.mask == b.mask && a.step == b.step ==> c.mask == a.mask && c.step == a.step
    ensures code == 2 && Meetable(a, b) ==> NoArcIsMeet(Min(a.mask, b.mask), CommonStep(a, b), a, b)
    ensures code == 0 && a.mask == b.mask && a.step == b.step ==>
              (IsMeet(c, a, b) <==> a.left % b.step == b.left % b.step || Apart(a, b))
    ensures code == 0 && a.mask == b.mask && a.step == b.step && c.isempty ==> Apart(a, b)
  {
    WellFormedStep(a);
    WellFormedStep(b);
    code, c := 0, a.(isempty := true);
    var gone1, l1, r1 := Restate(a, b);
    if gone1 {
      return;
    }
    var gone2, l2, r2 := Restate(b, a);
    if gone2 {
      return;
    }
    var empty, l, r;
    code, empty, l, r := MeetEdges(l1, r1, l2, r2);
    if code == 2 {
      c := a;
      if Meetable(a, b) {
        TwoPieces(a, b, l1, r1, l2, r2);
      }
      return;
    }
    c := Arc(l, r, Min(a.mask, b.mask), CommonStep(a, b), empty);
    if Meetable(a, b) {
      MeetOfRestated(a, b, l1, r1, l2, r2, c);
    } else if a.mask == b.mask && a.step == b.step {
      WrongPhaseMeet(a, b, c);
    }
  }

  class CircleRange {
    var left: nat
    var right: nat
    var mask: nat
    var step: nat
    var isempty: bool

    constructor (a: Arc)
      ensures View() == a
    {
      left, right, mask, step, isempty := a.left, a.right, a.mask, a.step, a.isempty;
    }

    function View(): Arc
      reads this
    {
      Arc(left, right, mask, step, isempty)
    }

    /**
     Sets this to its intersection with `op2`: 0 when that is one arc (possibly
     empty), 2 when it would be two pieces.
     */
    method Intersect(op2: Arc) returns (code: int)
      requires View().WellFormed() && op2.WellFormed()
      requires step <= op2.mask + 1 && op2.step <= mask + 1
      modifies this
      ensures code == 0 || code == 2
      ensures step > 0 && old(step) > 0 && op2.step > 0
      ensures code == 2 ==> View() == old(View())
      ensures code == 0 && Meetable(old(View()), op2) ==> View().WellFormed() && IsMeet(View(), old(View()), op2)
      ensures code == 0 && !isempty ==> mask == Min(old(mask), op2.mask) && step == CommonStep(old(View()), op2)
      ensures old(mask) == op2.mask && old(step) == op2.step ==> mask == old(mask) && step == old(step)
      ensures code == 2 && Meetable(old(View()), op2) ==>
                NoArcIsMeet(Min(old(mask), op2.mask), CommonStep(old(View()), op2), old(View()), op2)
      // On one ring and stride the answer is exact if and only if the phases agree or the arcs lie apart.
      ensures code == 0 && !old(isempty) && !op2.isempty && old(mask) == op2.mask && old(step) == op2.step ==>
                (IsMeet(View(), old(View()), op2) <==>
                 old(left) % op2.step == op2.left % op2.step || Apart(old(View()), op2))
      ensures code == 0 && isempty && !old(isempty) && !op2.isempty && old(mask) == op2.mask && old(step) == op2.step ==>
                Apart(old(View()), op2)
    {
      WellFormedStep(View());
      WellFormedStep(op2);
      if isempty {
        return 0;
      }
      if op2.isempty {
        isempty := true;
        return 0;
      }
      var c;
      code, c := MeetArcs(View(), op2);
      left, right, mask, step, isempty := c.left, c.right, c.mask, c.step, c.isempty;
    }

    /** Sets this to its complement; strides are not complemented. */
    method Complement()
      requires View().WellFormed() && step == 1
      modifies this
      ensures View().WellFormed() && step == 1 && mask == old(mask)
      ensures forall v: nat {:trigger View().Contains(v)} :: v <= mask ==> (View().Contains(v) <==> !old(View()).Contains(v))
    {
      if isempty {
        left, right, isempty := 0, 0, false;
        return;
      }
      if left == right {
        isempty := true;
        return;
      }
      left, right := right, left;
    }

    /** Keeps the booleans of this range; the result says that both were present. */
    method ConvertToBoolean() returns (both: bool)
      requires View().WellFormed()
      modifies this
      ensures View().WellFormed() && old(step) > 0 && step > 0
      ensures !old(isempty) ==> mask == 0xff && step == 1
      ensures forall v: nat {:trigger View().Contains(v)} :: View().Contains(v) <==> v < 2 && old(View()).Contains(v)
      ensures both <==> old(View()).Contains(0) && old(View()).Contains(1)
      ensures !old(isempty) && !both ==> (left == 0 <==> old(View()).Contains(0)) && (isempty <==> !old(View()).Contains(0) && !old(View()).Contains(1))
      ensures both ==> left == 0 && right == 2 && !isempty
      ensures !old(isempty) && !both && !isempty ==> left < 2 && right == left + 1
    {
      WellFormedStep(View());
      ByteMask();
      if isempty {
        return false;
      }
      var containsZero := View().Contains(0);
      var containsOne := View().Contains(1);
      assert left == 0 ==> containsZero;
      mask, step := 0xff, 1;
      both := false;
      if containsZero && containsOne {
        left, right, isempty, both := 0, 2, false, true;
      } else if containsZero {
        left, right, isempty := 0, 1, false;
      } else if containsOne {
        left, right, isempty := 1, 2, false;
      } else {
        isempty := true;
      }
    }

    /**
     Sets this to its union with `op2`: 0 when that is one arc.  On one ring, and on one
     stride or with a single value in the finer one, 2 means that it is not; otherwise
     the answer is always 2.
     */
    method CircleUnion(op2: Arc) returns (code: int)
      requires View().WellFormed() && op2.WellFormed()
      modifies this
      ensures code == 0 || code == 2
      ensures step > 0 && old(step) > 0 && op2.step > 0
      ensures code == 0 ==> View().WellFormed() && IsJoin(View(), old(View()), op2)
      ensures old(mask) == op2.mask && old(step) == op2.step ==> mask == old(mask) && step == old(step)
      ensures code == 2 ==> View() == old(View())
      ensures !old(isempty) && !op2.isempty && !Joinable(old(View()), op2) ==> code == 2
      ensures !old(isempty) && !op2.isempty && code == 0 ==> mask == old(mask) && step == CommonStep(old(View()), op2)
      ensures code == 2 && Joinable(old(View()), op2) ==> NoArcIsJoin(old(mask), CommonStep(old(View()), op2), old(View()), op2)
    {
      ghost var a := View();
      WellFormedStep(a);
      WellFormedStep(op2);
      if op2.isempty {
        return 0;
      }
      if isempty {
        left, right, mask, step, isempty := op2.left, op2.right, op2.mask, op2.step, op2.isempty;
        return 0;
      }
      if mask != op2.mask {
        return 2;
      }
      var aRight, bRight, newStep := right, op2.right, step;
      if step < op2.step {
        if !IsSingle(View()) {
          return 2;
        }
        newStep := op2.step;
        aRight := Fold(left + newStep, mask);
        SingleInStride(a, newStep);
      } else if op2.step < step {
        if !IsSingle(op2) {
          return 2;
        }
        bRight := Fold(op2.left + newStep, mask);
        SingleInStride(op2, newStep);
      }
      ghost var a', b' := Arc(left, aRight, mask, newStep, false), Arc(op2.left, bRight, mask, newStep, false);
      assert SameSet(a', a) && SameSet(b', op2);
      if left % newStep != op2.left % newStep {
        PhasesApart(a', b');
        SameJoins(newStep, a', b', a, op2);
        return 2;
      }
      code := JoinEdges(newStep, aRight, op2.left, bRight);
      if code == 0 {
        assert IsJoin(View(), a', b');
      } else {
        TwoPieceUnion(a', b');
        SameJoins(newStep, a', b', a, op2);
      }
    }

    /** The final stage of `CircleUnion`, on edges in one stride and phase. */
    method JoinEdges(newStep: nat, aRight: nat, l2: nat, r2: nat) returns (code: int)
      requires var a, b := Arc(left, aRight, mask, newStep, false), Arc(l2, r2, mask, newStep, false);
        a.WellFormed() && b.WellFormed() && newStep > 0 && left % newStep == l2 % newStep
      requires !isempty
      modifies this`left, this`right, this`step
      ensures code == 0 || code == 2
      ensures code == 0 ==> step == newStep
      ensures code == 0 ==> View().WellFormed()
      ensures code == 0 ==> IsJoin(View(), Arc(old(left), aRight, mask, newStep, false), Arc(l2, r2, mask, newStep, false))
      ensures code == 2 ==> View() == old(View()) && EncodeOverlap(left, aRight, l2, r2) in {'a', 'f'}
      ensures code == 2 ==> left != aRight && l2 != r2 && left != r2 && l2 != aRight
    {
      var rem := left % newStep;
      SmallMod(rem, newStep);
      SmallestInPhase(newStep);
      var l1, r1 := left, aRight;
      if l1 == r1 || l2 == r2 {
        left, right, step := rem, rem, newStep;
        return 0;
      }
      forall v: nat
        ensures (Between(l1, r1, v) || Between(l2, r2, v)) <==> JoinOf(EncodeOverlap(l1, r1, l2, r2), l1, r1, l2, r2, v)
      {
        OverlapJoin(l1, r1, l2, r2, v);
      }
      OverlapMeet(l1, r1, l2, r2, 0);
      code := 0;
      match EncodeOverlap(l1, r1, l2, r2) {
        case 'b' => right, step := r2, newStep;
        case 'c' => right, step := r1, newStep;
        case 'd' => left, right, step := l2, r2, newStep;
        case 'e' => left, right, step := l2, r1, newStep;
        case 'g' => left, right, step := rem, rem, newStep;
        case _ =>
          if r1 == l2 {
            right, step := r2, newStep;
          } else if l1 == r2 {
            left, right, step := l2, r1, newStep;
          } else {
            code := 2;
          }
      }
    }
  }

  lemma ByteMask()
    ensures IsPow2(0x100) && IsPow2(1)
  {
    assert Pow2(0) == 1;
    assert Pow2(8) == 0x100;
  }

  /** The range holds exactly one value. */
  predicate IsSingle(a: Arc) {
    !a.isempty && a.right == Fold(a.left + a.step, a.mask)
  }

  ghost predicate SameSet(a: Arc, b: Arc)
    requires a.step > 0 && b.step > 0
  {
    forall v: nat {:trigger a.Contains(v)} {:trigger b.Contains(v)} :: v <= a.mask ==> (a.Contains(v) <==> b.Contains(v))
  }

  /** A single-valued range can be read in any coarser stride. */
  lemma SingleInStride(a: Arc, newStep: nat)
    requires a.WellFormed() && IsSingle(a) && IsPow2(newStep) && a.step <= newStep <= a.mask + 1
    ensures var c := Arc(a.left, Fold(a.left + newStep, a.mask), a.mask, newStep, false);
      newStep > 0 && a.step > 0 && c.WellFormed() && SameSet(c, a)
  {
    WellFormedStep(a);
    SingleValue(a);
    var c := Arc(a.left, Fold(a.left + newStep, a.mask), a.mask, newStep, false);
    assert c.WellFormed() by {
      PowersDivide(newStep, a.mask + 1);
      ModOfMultiple(a.left + newStep, a.mask + 1, newStep);
      ShiftByMultiple(a.left, 1, newStep);
    }
    SingleValue(c);
  }

  lemma SingleValue(a: Arc)
    requires a.WellFormed() && IsSingle(a)
    ensures a.step > 0
    ensures forall v: nat {:trigger a.Contains(v)} :: v <= a.mask ==> (a.Contains(v) <==> v == a.left)
  {
    WellFormedStep(a);
    forall v: nat | v <= a.mask ensures a.Contains(v) <==> v == a.left {
      ContainsIsDistance(a, v);
      RingDistance(a.left, v, a.mask + 1);
      assert Span(a) == a.step by {
        if a.left + a.step > a.mask {
          RemainderUnique(a.left + a.step, a.mask + 1, 1, a.left + a.step - (a.mask + 1));
        } else {
          SmallMod(a.left + a.step, a.mask + 1);
        }
        RingDistance(a.left, a.right, a.mask + 1);
      }
      SmallestInPhase(a.step);
    }
  }

  /** The strides are equal, or the finer range is a single value. */
  predicate Joinable(a: Arc, b: Arc) {
    a.mask == b.mask && (a.step == b.step || (a.step < b.step && IsSingle(a)) || (b.step < a.step && IsSingle(b)))
  }

  lemma SameJoins(step: nat, a: Arc, b: Arc, p: Arc, q: Arc)
    requires a.step > 0 && b.step > 0 && p.step > 0 && q.step > 0 && step > 0 && a.mask == b.mask == p.mask == q.mask
    requires SameSet(a, p) && SameSet(b, q) && NoArcIsJoin(a.mask, step, a, b)
    ensures NoArcIsJoin(p.mask, step, p, q)
  {
    forall c: Arc | c.WellFormed() && c.mask == p.mask && c.step == step ensures !IsJoin(c, p, q) {
      if IsJoin(c, p, q) {
        JoinOfSame(c, a, b, p, q);
        assert false;
      }
    }
  }

  lemma JoinOfSame(c: Arc, a: Arc, b: Arc, p: Arc, q: Arc)
    requires a.step > 0 && b.step > 0 && p.step > 0 && q.step > 0 && c.step > 0 && a.mask == b.mask == p.mask == q.mask
    requires SameSet(a, p) && SameSet(b, q) && IsJoin(c, p, q)
    ensures IsJoin(c, a, b)
  {
  }

  /** Two phases of one stride never make one arc of that stride. */
  lemma PhasesApart(a: Arc, b: Arc)
    requires a.WellFormed() && b.WellFormed() && !a.isempty && !b.isempty && a.mask == b.mask && 0 < a.step == b.step
    requires a.left % a.step != b.left % b.step
    ensures NoArcIsJoin(a.mask, a.step, a, b)
  {
    forall c: Arc | c.WellFormed() && c.mask == a.mask && c.step == a.step ensures !IsJoin(c, a, b) {
      assert a.Contains(a.left) && b.Contains(b.left);
      assert !(c.Contains(a.left) && c.Contains(b.left));
    }
  }

  lemma TwoPieceUnion(a: Arc, b: Arc)
    requires a.WellFormed() && b.WellFormed() && !a.isempty && !b.isempty && a.mask == b.mask && 0 < a.step == b.step
    requires a.left % a.step == b.left % b.step
    requires a.left != a.right && b.left != b.right && a.left != b.right && b.left != a.right
    requires EncodeOverlap(a.left, a.right, b.left, b.right) in {'a', 'f'}
    ensures NoArcIsJoin(a.mask, a.step, a, b)
  {
    forall c: Arc | c.WellFormed() && c.mask == a.mask && c.step == a.step ensures !IsJoin(c, a, b) {
      TwoPieceJoin(a.left, a.right, b.left, b.right, c.left, c.right);
      assert a.Contains(a.left) && b.Contains(b.left);
      assert !a.Contains(a.right) && !b.Contains(a.right) && !a.Contains(b.right) && !b.Contains(b.right);
      assert !(c.Contains(a.left) && c.Contains(b.left) && !c.Contains(a.right) && !c.Contains(b.right));
    }
  }

  lemma MeetOfRestated(a: Arc, b: Arc, l1: nat, r1: nat, l2: nat, r2: nat, c: Arc)
    requires a.WellFormed() && b.WellFormed() && a.step > 0 && b.step > 0
    requires c.mask == Min(a.mask, b.mask) && c.step == CommonStep(a, b) && CommonPhase(a, b) == CommonPhase(b, a)
    requires Restates(a, l1, r1, c.mask, c.step, CommonPhase(a, b)) && Restates(b, l2, r2, c.mask, c.step, CommonPhase(a, b))
    requires forall v: nat {:trigger Between(l1, r1, v)} ::
              (Between(l1, r1, v) && Between(l2, r2, v)) <==> (!c.isempty && Between(c.left, c.right, v))
    requires !c.isempty ==> c.left in {l1, l2} && c.right in {r1, r2}
    requires a.step <= b.mask + 1 && b.step <= a.mask + 1
    ensures c.WellFormed() && IsMeet(c, a, b)
  {
    forall v: nat | v <= c.mask ensures c.Contains(v) <==> a.Contains(v) && b.Contains(v) {
      if a.Contains(v) && b.Contains(v) {
        CommonValuePhase(a, b, v);
      }
      assert Between(l1, r1, v) || !Between(l1, r1, v);
      assert Between(l2, r2, v) || !Between(l2, r2, v);
    }
  }

  /** With different phases there is no common value, so only an empty answer is right. */
  lemma WrongPhaseMeet(a: Arc, b: Arc, c: Arc)
    requires a.mask == b.mask == c.mask && 0 < a.step == b.step == c.step && !a.isempty && !b.isempty
    requires a.left % a.step != b.left % b.step
    requires !c.isempty ==> c.left <= c.mask
    requires forall v: nat {:trigger Between(a.left, a.right, v)} ::
              (Between(a.left, a.right, v) && Between(b.left, b.right, v)) <==> (!c.isempty && Between(c.left, c.right, v))
    ensures IsMeet(c, a, b) <==> c.isempty
    ensures Apart(a, b) <==> c.isempty
  {
    if !c.isempty {
      assert c.Contains(c.left);
      assert Between(a.left, a.right, c.left);
    }
  }

  lemma TwoPieces(a: Arc, b: Arc, l1: nat, r1: nat, l2: nat, r2: nat)
    requires a.step > 0 && b.step > 0 && CommonPhase(a, b) == CommonPhase(b, a)
    requires Restates(a, l1, r1, Min(a.mask, b.mask), CommonStep(a, b), CommonPhase(a, b))
    requires Restates(b, l2, r2, Min(a.mask, b.mask), CommonStep(a, b), CommonPhase(a, b))
    requires l1 != r1 && l2 != r2 && l1 != r2 && l2 != r1 && EncodeOverlap(l1, r1, l2, r2) == 'g'
    ensures NoArcIsMeet(Min(a.mask, b.mask), CommonStep(a, b), a, b)
  {
    forall c: Arc | c.WellFormed() && c.mask == Min(a.mask, b.mask) && c.step == CommonStep(a, b) ensures !IsMeet(c, a, b) {
      TwoPieceMeet(l1, r1, l2, r2, c.left, c.right);
      assert a.Contains(l1) && b.Contains(l1) && a.Contains(l2) && b.Contains(l2);
      assert !a.Contains(r1) && !b.Contains(r2);
      assert !(c.Contains(l1) && c.Contains(l2) && !c.Contains(r1) && !c.Contains(r2));
    }
  }
}

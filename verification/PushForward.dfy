/**
 Pushing two ranges forward through INT_ADD (pkg/pcode/circlerange_push.go:256-298).
 */
module PushForwards {
  import opened Words
  import opened CircleRanges
  import opened PullBacks

  /** Every sum of a member of `a` and a member of `b` lies in `c`. */
  ghost predicate CoversSums(c: Arc, a: Arc, b: Arc)
    requires a.step > 0 && b.step > 0 && c.step > 0
  {
    forall v: nat, w: nat {:trigger a.Contains(v), b.Contains(w)} :: v <= a.mask && w <= b.mask && a.Contains(v) && b.Contains(w) ==>
      c.Contains(Fold(v + w, c.mask))
  }

  /** `u` is a sum of a member of `a` and a member of `b`. */
  ghost predicate IsSum(u: nat, a: Arc, b: Arc)
    requires a.step > 0 && b.step > 0
  {
    exists v: nat, w: nat :: v <= a.mask && w <= b.mask && a.Contains(v) && b.Contains(w) && Fold(v + w, a.mask) == u
  }

  /** Every member of `c` is a sum. */
  ghost predicate OnlySums(c: Arc, a: Arc, b: Arc)
    requires a.step > 0 && b.step > 0 && c.step > 0
  {
    forall u: nat {:trigger c.Contains(u)} :: u <= c.mask && c.Contains(u) ==> IsSum(u, a, b)
  }

  /** The program's measure of an arc's length; it overstates a wrapped strided arc by `step - 1`. */
  function RawSize(l: nat, r: nat, mask: nat, step: nat): nat {
    if l < r then r - l else (mask - (l - r) + step) % WORD
  }

  // ----- what the sum comes to -----

  /** From the sum of the left edges to just past the last sum, in the smaller stride, as if the ring were endless. */
  ghost function Total(a: Arc, b: Arc): int { Span(a) - a.step + Span(b) - b.step + Min(a.step, b.step) }

  /** The finer operand reaches from one value of the coarser one to the next. */
  ghost predicate NoGaps(a: Arc, b: Arc) {
    if a.step >= b.step then Span(b) >= a.step else Span(a) >= b.step
  }

  /** What the program's measure adds to the length of an arc that runs past the top of the ring. */
  function Excess(left: nat, span: int, mask: nat, step: nat): int { if left + span > mask then step - 1 else 0 }

  /** Sums that do not fill the ring measure less than the first operand and are taken for an overflow. */
  ghost predicate Collapses(a: Arc, b: Arc) {
    && Total(a, b) <= a.mask
    && Total(a, b) + Excess(Fold(a.left + b.left, a.mask), Total(a, b), a.mask, Min(a.step, b.step))
       < Span(a) + Excess(a.left, Span(a), a.mask, a.step)
  }

  ghost predicate SumIsWhole(a: Arc, b: Arc) {
    || a.left == a.right || b.left == b.right
    || (!IsSingle(a) && !IsSingle(b) && (Total(a, b) > a.mask || Collapses(a, b)))
  }

  /** Exactly when the result holds nothing but sums. */
  ghost predicate SumsExactly(a: Arc, b: Arc) {
    if a.left == a.right then Span(b) >= a.step
    else if b.left == b.right then Span(a) >= b.step
    else IsSingle(a) || IsSingle(b) || (NoGaps(a, b) && !Collapses(a, b))
  }

  /** The smaller stride, but for a single value, whose stride is not looked at when the other range is proper. */
  function SumStep(a: Arc, b: Arc): nat {
    if a.left == a.right || b.left == b.right then Min(a.step, b.step)
    else if IsSingle(b) then a.step
    else if IsSingle(a) then b.step
    else Min(a.step, b.step)
  }

  /** `d` covers the sums in the stride of `c`. */
  ghost predicate Covering(d: Arc, c: Arc, a: Arc, b: Arc)
    requires a.step > 0 && b.step > 0 && c.step > 0
  {
    d.WellFormed() && !d.isempty && d.mask == c.mask && d.step == c.step && CoversSums(d, a, b)
  }

  ghost predicate NoShorter(d: Arc, c: Arc, a: Arc, b: Arc)
    requires a.step > 0 && b.step > 0 && c.step > 0
  {
    Covering(d, c, a, b) ==> Span(c) < Span(d) || (d.left == c.left && d.right == c.right)
  }

  /** Every other arc of this stride that covers the sums is longer. */
  ghost predicate Shortest(c: Arc, a: Arc, b: Arc)
    requires a.step > 0 && b.step > 0 && c.step > 0
  {
    forall d: Arc :: NoShorter(d, c, a, b)
  }

  /** Collapses every whole-phase representation to the canonical one. */
  function Normalize(a: Arc): (c: Arc)
    requires a.step > 0
    ensures c.step == a.step && c.mask == a.mask && c.isempty == a.isempty
    ensures a.WellFormed() && !a.isempty ==> c.WellFormed()
    ensures forall v: nat {:trigger c.Contains(v)} {:trigger a.Contains(v)} :: c.Contains(v) <==> a.Contains(v)
  {
    if a.left == a.right then
      SmallMod(a.left % a.step, a.step);
      SmallestInPhase(a.step);
      a.(left := a.left % a.step, right := a.left % a.step)
    else a
  }

  /**
   Sets `r` to the sums of two ranges of one ring.  Sound for all strides and
   wrap-arounds.  What else it holds is decided by the operands' edges and strides: it is
   exactly the set of sums when `SumsExactly`; it is a whole phase when `SumIsWhole`; and
   the sums of two ranges of several values are otherwise put in the shortest arc there is.
   */
  method PushForwardAdd(r: CircleRange, in1: Arc, in2: Arc)
    requires in1.WellFormed() && in2.WellFormed() && in1.mask == in2.mask < WORD
    modifies r
    ensures in1.step > 0 && in2.step > 0
    ensures r.isempty || (r.View().WellFormed() && r.mask == in1.mask && r.step == SumStep(in1, in2))
    ensures r.isempty <==> in1.isempty || in2.isempty
    ensures !r.isempty ==> CoversSums(r.View(), in1, in2)
    ensures !r.isempty ==> (OnlySums(r.View(), in1, in2) <==> SumsExactly(in1, in2))
    ensures !r.isempty ==> (r.left == r.right <==> SumIsWhole(in1, in2))
    ensures !r.isempty && !IsSingle(in1) && !IsSingle(in2) && r.left != r.right ==> Shortest(r.View(), in1, in2)
  {
    WellFormedStep(in1);
    WellFormedStep(in2);
    if in1.isempty || in2.isempty {
      r.isempty := true;
      return;
    }
    var c;
    if in1.left == in1.right || in2.left == in2.right {
      c := WholeSum(in1, in2);
    } else if IsSingle(in2) {
      c := Arc(Fold(in1.left + in2.left, in1.mask), Fold(in1.right + in2.left, in1.mask), in1.mask, in1.step, false);
      ShiftedSum(in1, in2);
    } else if IsSingle(in1) {
      c := Arc(Fold(in2.left + in1.left, in1.mask), Fold(in2.right + in1.left, in1.mask), in1.mask, in2.step, false);
      ShiftedSum(in2, in1);
      SwapSums(c, in2, in1);
    } else {
      c := ProperSum(in1, in2);
    }
    r.left, r.right, r.mask, r.step, r.isempty := c.left, c.right, c.mask, c.step, false;
  }

  /** The result lies inside every arc of its stride that covers the sums exactly when it holds nothing but sums. */
  lemma InsideEveryCover(c: Arc, a: Arc, b: Arc)
    requires a.step > 0 && b.step > 0 && c.WellFormed() && !c.isempty && c.step > 0 && a.mask == b.mask == c.mask
    requires a.WellFormed() && b.WellFormed() && !a.isempty && !b.isempty && CoversSums(c, a, b)
    ensures OnlySums(c, a, b) <==> forall d: Arc :: HoldsAll(d, c, a, b)
  {
    if OnlySums(c, a, b) {
      forall d: Arc ensures HoldsAll(d, c, a, b) { SumsAreHeld(d, c, a, b); }
    } else {
      var u: nat :| u <= c.mask && c.Contains(u) && !IsSum(u, a, b);
      AllButCovers(c, u, a, b);
      assert !HoldsAll(AllBut(c, u), c, a, b);
    }
  }

  ghost predicate HoldsAll(d: Arc, c: Arc, a: Arc, b: Arc)
    requires a.step > 0 && b.step > 0 && c.step > 0
  {
    Covering(d, c, a, b) ==> forall u: nat {:trigger c.Contains(u)} {:trigger d.Contains(u)} :: u <= c.mask && c.Contains(u) ==> d.Contains(u)
  }

  lemma SumsAreHeld(d: Arc, c: Arc, a: Arc, b: Arc)
    requires a.step > 0 && b.step > 0 && c.step > 0 && a.mask == c.mask && OnlySums(c, a, b)
    ensures HoldsAll(d, c, a, b)
  {
    if Covering(d, c, a, b) {
      forall u: nat | u <= c.mask && c.Contains(u) ensures d.Contains(u) { SumIsHeld(d, a, b, u); }
    }
  }

  lemma SumIsHeld(d: Arc, a: Arc, b: Arc, u: nat)
    requires a.step > 0 && b.step > 0 && d.step > 0 && a.mask == d.mask && CoversSums(d, a, b) && IsSum(u, a, b)
    ensures d.Contains(u)
  {
    var v: nat, w: nat :| v <= a.mask && w <= b.mask && a.Contains(v) && b.Contains(w) && Fold(v + w, a.mask) == u;
    assert d.Contains(Fold(v + w, d.mask));
  }

  /** The phase of `c` without the one value `u`. */
  function AllBut(c: Arc, u: nat): Arc { Arc(Fold(u + c.step, c.mask), u, c.mask, c.step, false) }

  lemma AllButHolds(c: Arc, u: nat, x: nat)
    requires c.WellFormed() && !c.isempty && c.step > 0 && u <= c.mask && x <= c.mask && c.Contains(u) && c.Contains(x) && x != u
    ensures AllBut(c, u).WellFormed() && AllBut(c, u).Contains(x) && !AllBut(c, u).Contains(u)
  {
    var n, s := c.mask + 1, c.step;
    WellFormedStep(c);
    ModOfMultiple(u + s, n, s);
    ShiftByMultiple(u, 1, s);
    NextInPhase(u, x, n, s);
  }

  /** The value after `u` in its phase, around the ring: every other value of the phase lies between it and `u`. */
  lemma NextInPhase(u: nat, x: nat, n: nat, s: nat)
    requires 0 < s && u < n && x < n && n % s == 0 && u % s == x % s && x != u
    ensures Between((u + s) % n, u, x) && !Between((u + s) % n, u, u)
  {
    if x < u { PhaseGap(x, u, s); } else { PhaseGap(u, x, s); }
    if u + s >= n {
      TopOfPhase(u, n, s);
      RemainderUnique(u + s, n, 1, u + s - n);
      FirstOfPhase(u, x, s);
    } else {
      SmallMod(u + s, n);
    }
  }

  lemma FirstOfPhase(u: nat, x: nat, s: nat)
    requires s > 0 && u % s == x % s
    ensures u % s <= x && u % s <= u && (u % s == u ==> u <= x)
  {
    SmallestInPhase(s);
  }

  /** The last value of a phase is less than a step below the top, so what follows it is the phase's first. */
  lemma TopOfPhase(u: nat, n: nat, s: nat)
    requires 0 < s && u < n && u + s >= n && n % s == 0
    ensures u + s - n == u % s
  {
    ShiftByMultiple(u + s - n, n / s, s);
    ShiftByMultiple(u, 1, s);
    SmallMod(u + s - n, s);
  }

  lemma LeastSum(c: Arc, a: Arc, b: Arc, u: nat)
    requires a.WellFormed() && b.WellFormed() && !a.isempty && !b.isempty && a.step > 0 && b.step > 0 && c.step > 0 && a.mask == b.mask == c.mask
    requires CoversSums(c, a, b) && !IsSum(u, a, b)
    ensures c.Contains(Fold(a.left + b.left, c.mask)) && Fold(a.left + b.left, c.mask) != u
  {
    assert a.Contains(a.left) && b.Contains(b.left);
  }

  lemma AllButCovers(c: Arc, u: nat, a: Arc, b: Arc)
    requires a.step > 0 && b.step > 0 && c.WellFormed() && !c.isempty && c.step > 0 && a.mask == b.mask == c.mask && CoversSums(c, a, b)
    requires a.WellFormed() && b.WellFormed() && !a.isempty && !b.isempty
    requires u <= c.mask && c.Contains(u) && !IsSum(u, a, b)
    ensures Covering(AllBut(c, u), c, a, b) && !AllBut(c, u).Contains(u)
  {
    var d := AllBut(c, u);
    forall v: nat, w: nat | v <= a.mask && w <= b.mask && a.Contains(v) && b.Contains(w) ensures d.Contains(Fold(v + w, d.mask)) {
      AllButHolds(c, u, Fold(v + w, c.mask));
    }
    AllButHolds(c, u, Fold(a.left + b.left, c.mask)) by { LeastSum(c, a, b, u); }
  }

  /**
   In one byte, `{0, 8, 16}` plus `{0, 1}` is taken for an overflow and answered with
   everything; with the operands exchanged the answer is `[0, 18)`, and not exact either.
   Added to a constant, `{0, 4, 8}` keeps its stride.
   */
  lemma OrderMatters()
    ensures var coarse, fine := Arc(0, 24, 0xff, 8, false), Arc(0, 2, 0xff, 1, false);
      && SumIsWhole(coarse, fine) && !SumIsWhole(fine, coarse)
      && !SumsExactly(coarse, fine) && !SumsExactly(fine, coarse)
    ensures SumsExactly(Arc(0, 12, 0xff, 4, false), Arc(100, 101, 0xff, 1, false))
    ensures SumStep(Arc(0, 12, 0xff, 4, false), Arc(100, 101, 0xff, 1, false)) == 4
  {
  }

  lemma SwapSum(u: nat, a: Arc, b: Arc)
    requires a.step > 0 && b.step > 0 && a.mask == b.mask && IsSum(u, a, b)
    ensures IsSum(u, b, a)
  {
    var v: nat, w: nat :| v <= a.mask && w <= b.mask && a.Contains(v) && b.Contains(w) && Fold(v + w, a.mask) == u;
    assert Fold(w + v, b.mask) == u;
  }

  lemma SwapCovers(c: Arc, a: Arc, b: Arc)
    requires a.step > 0 && b.step > 0 && c.step > 0 && a.mask == b.mask == c.mask && CoversSums(c, a, b)
    ensures CoversSums(c, b, a)
  {
    forall w: nat, v: nat | w <= b.mask && v <= a.mask && b.Contains(w) && a.Contains(v) ensures c.Contains(Fold(w + v, c.mask)) {
      assert c.Contains(Fold(v + w, c.mask));
    }
  }

  lemma SwapSums(c: Arc, a: Arc, b: Arc)
    requires a.step > 0 && b.step > 0 && c.step > 0 && a.mask == b.mask == c.mask
    ensures CoversSums(c, a, b) ==> CoversSums(c, b, a)
    ensures OnlySums(c, a, b) ==> OnlySums(c, b, a)
  {
    if CoversSums(c, a, b) { SwapCovers(c, a, b); }
    if OnlySums(c, a, b) {
      forall u: nat | u <= c.mask && c.Contains(u) ensures IsSum(u, b, a) { SwapSum(u, a, b); }
    }
  }

  /** One operand is a whole phase, so the result is one too. */
  method WholeSum(in1: Arc, in2: Arc) returns (c: Arc)
    requires in1.WellFormed() && in2.WellFormed() && in1.mask == in2.mask && !in1.isempty && !in2.isempty && in1.step > 0 && in2.step > 0
    requires in1.left == in1.right || in2.left == in2.right
    ensures c.WellFormed() && !c.isempty && c.mask == in1.mask && c.left == c.right && c.step == Min(in1.step, in2.step)
    ensures CoversSums(c, in1, in2)
    ensures OnlySums(c, in1, in2) <==> SumsExactly(in1, in2)
  {
    var s := Min(in1.step, in2.step);
    c := Arc((in1.left + in2.left) % s, (in1.left + in2.left) % s, in1.mask, s, false);
    PowersDivide(s, in1.step);
    PowersDivide(s, in2.step);
    WellFormedStep(in1);
    WellFormedStep(c) by { SmallMod((in1.left + in2.left) % s, s); }
    forall v: nat, w: nat | in1.Contains(v) && in2.Contains(w) ensures c.Contains(Fold(v + w, c.mask)) {
      SumPhase(v, w, in1, in2, s);
      SmallMod((in1.left + in2.left) % s, s);
    }
    if in1.left == in1.right {
      WholeExact(c, in1, in2);
    } else {
      WholeExact(c, in2, in1);
      SwapSums(c, in2, in1);
      SwapSums(c, in1, in2);
    }
  }

  /** Adding to a whole phase gives the whole phase of the smaller stride when the other operand reaches over a step. */
  lemma WholeExact(c: Arc, a: Arc, b: Arc)
    requires a.WellFormed() && b.WellFormed() && a.mask == b.mask == c.mask && !a.isempty && !b.isempty && a.step > 0 && b.step > 0
    requires c.step == Min(a.step, b.step) && c.WellFormed() && !c.isempty && c.left == c.right == (a.left + b.left) % c.step && a.left == a.right
    ensures OnlySums(c, a, b) <==> Span(b) >= a.step
  {
    SpanBounds(b);
    if a.step <= b.step {
      WholeOnlySums(c, a, b);
    } else {
      var n, s := a.mask + 1, c.step;
      var l := Fold(a.left + b.left, a.mask);
      var whole := Arc(l, l, a.mask, s, false);
      WellFormedStep(c);
      ModOfMultiple(a.left + b.left, n, s);
      SmallMod((a.left + b.left) % s, s);
      if Span(b) >= a.step {
        FilledSums(whole, a, b);
        SameOnly(whole, c, a, b);
      } else {
        WellFormedStep(a);
        SpanBounds(a);
        AtReach(whole, Span(b));
        GapLeft(c, a, b);
      }
    }
  }

  lemma SameOnly(c: Arc, d: Arc, a: Arc, b: Arc)
    requires a.step > 0 && b.step > 0 && c.step > 0 && d.step > 0 && c.mask == d.mask
    requires forall u: nat {:trigger d.Contains(u)} :: u <= d.mask && d.Contains(u) ==> c.Contains(u)
    ensures OnlySums(c, a, b) ==> OnlySums(d, a, b)
  {
  }

  lemma SumPhase(v: nat, w: nat, a: Arc, b: Arc, s: nat)
    requires s > 0 && a.step > 0 && b.step > 0 && a.step % s == 0 && b.step % s == 0 && (a.mask + 1) % s == 0
    requires v % a.step == a.left % a.step && w % b.step == b.left % b.step
    ensures Fold(v + w, a.mask) % s == (a.left + b.left) % s
  {
    ModOfMultiple(v + w, a.mask + 1, s);
    ModOfMultiple(v, a.step, s);
    ModOfMultiple(a.left, a.step, s);
    ModOfMultiple(w, b.step, s);
    ModOfMultiple(b.left, b.step, s);
    ModOfSum(v, w, s);
    ModOfSum(a.left, b.left, s);
  }

  lemma WholeOnlySums(c: Arc, a: Arc, b: Arc)
    requires a.WellFormed() && b.WellFormed() && a.mask == b.mask == c.mask && !a.isempty && !b.isempty && 0 < a.step == c.step && b.step > 0
    requires a.left == a.right && !c.isempty && c.left == (a.left + b.left) % a.step
    ensures OnlySums(c, a, b)
  {
    WellFormedStep(a);
    forall u: nat | u <= c.mask && c.Contains(u) ensures IsSum(u, a, b) {
      assert u % a.step == c.left % a.step;
      WholeSummand(a, b, u);
    }
  }

  lemma WholeSummand(a: Arc, b: Arc, u: nat)
    requires a.step > 0 && b.step > 0 && (a.mask + 1) % a.step == 0 && a.mask == b.mask && !a.isempty && !b.isempty && b.left <= b.mask && a.left == a.right
    requires u <= a.mask && u % a.step == ((a.left + b.left) % a.step) % a.step
    ensures IsSum(u, a, b)
  {
    var v := Fold(u - b.left, a.mask);
    Undone(u, a.left, b.left, a.mask + 1, a.step);
    assert a.Contains(v) && b.Contains(b.left) && v <= a.mask;
  }

  /** Taking `k` off a value in the phase of `l + k` gives a value in the phase of `l`. */
  lemma Undone(u: nat, l: nat, k: nat, n: nat, s: nat)
    requires u < n && s > 0 && n % s == 0 && u % s == ((l + k) % s) % s
    ensures ((u - k) % n + k) % n == u && ((u - k) % n) % s == l % s
  {
    UndoRotation(u, -(k as int), n);
    SmallMod((l + k) % s, s);
    ModOfMultiple(u - k, n, s);
    ModOfDifference(u, k, s);
    ModOfDifference(l + k, k, s);
  }

  /** Adding a single value rotates the other range. */
  lemma ShiftedSum(a: Arc, b: Arc)
    requires a.WellFormed() && b.WellFormed() && a.mask == b.mask && !a.isempty && IsSingle(b)
    ensures var c := Arc(Fold(a.left + b.left, a.mask), Fold(a.right + b.left, a.mask), a.mask, a.step, false);
      a.step > 0 && b.step > 0 && c.WellFormed() && CoversSums(c, a, b) && OnlySums(c, a, b) && (c.left == c.right ==> a.left == a.right)
  {
    var n, k := a.mask + 1, b.left;
    var c := Arc(Fold(a.left + k, a.mask), Fold(a.right + k, a.mask), a.mask, a.step, false);
    WellFormedStep(a);
    RotateArc(a, k, 0);
    UndoRotation(a.left, k, n);
    UndoRotation(a.right, k, n);
    ShiftedCovers(c, a, b);
    ShiftedOnly(c, a, b);
  }

  lemma ShiftedCovers(c: Arc, a: Arc, b: Arc)
    requires a.WellFormed() && b.WellFormed() && a.mask == b.mask && !a.isempty && IsSingle(b) && a.step > 0 && b.step > 0
    requires c == a.(left := Fold(a.left + b.left, a.mask), right := Fold(a.right + b.left, a.mask))
    ensures CoversSums(c, a, b)
  {
    SingleValue(b);
    forall v: nat, w: nat | v <= a.mask && w <= b.mask && a.Contains(v) && b.Contains(w) ensures c.Contains(Fold(v + w, c.mask)) {
      RotatedMember(a, b.left, v);
    }
  }

  lemma ShiftedOnly(c: Arc, a: Arc, b: Arc)
    requires a.WellFormed() && b.left <= b.mask && a.mask == b.mask && !a.isempty && !b.isempty && a.step > 0 && b.step > 0
    requires c == a.(left := Fold(a.left + b.left, a.mask), right := Fold(a.right + b.left, a.mask))
    ensures OnlySums(c, a, b)
  {
    forall u: nat | u <= c.mask && c.Contains(u) ensures IsSum(u, a, b)
    {
      RotatedBack(a, b.left, u);
      SummandOf(c, a, b, Fold(u - b.left, a.mask), b.left, u);
    }
  }

  lemma SummandOf(c: Arc, a: Arc, b: Arc, v: nat, w: nat, u: nat)
    requires a.step > 0 && b.step > 0 && a.mask == c.mask && v <= a.mask && a.Contains(v) && !b.isempty && w == b.left <= b.mask && Fold(v + w, c.mask) == u
    ensures IsSum(u, a, b)
  {
    assert b.Contains(w);
  }

  lemma RotatedMember(a: Arc, k: nat, v: nat)
    requires a.WellFormed() && !a.isempty && a.step > 0 && v <= a.mask && a.Contains(v)
    ensures a.(left := Fold(a.left + k, a.mask), right := Fold(a.right + k, a.mask)).Contains(Fold(v + k, a.mask))
  {
    RotateArc(a, k, Fold(v + k, a.mask));
    UndoRotation(v, k, a.mask + 1);
  }

  lemma RotatedBack(a: Arc, k: nat, u: nat)
    requires a.WellFormed() && !a.isempty && a.step > 0 && u <= a.mask
    requires a.(left := Fold(a.left + k, a.mask), right := Fold(a.right + k, a.mask)).Contains(u)
    ensures a.Contains(Fold(u - k, a.mask)) && Fold(Fold(u - k, a.mask) + k, a.mask) == u
  {
    RotateArc(a, k, u);
    Unshift(u, k, a.mask);
  }

  lemma Unshift(u: nat, k: nat, mask: nat)
    requires u <= mask
    ensures Fold(Fold(u - k, mask) + k, mask) == u
  {
    ModOfSum(u - k, k, mask + 1);
    SmallMod(u, mask + 1);
  }

  /** Two proper ranges of several values each: the sizes decide whether the sum covers the ring. */
  method ProperSum(in1: Arc, in2: Arc) returns (c: Arc)
    requires in1.WellFormed() && in2.WellFormed() && in1.mask == in2.mask < WORD && !in1.isempty && !in2.isempty && in1.step > 0 && in2.step > 0
    requires in1.left != in1.right && in2.left != in2.right && !IsSingle(in1) && !IsSingle(in2)
    ensures c.WellFormed() && !c.isempty && c.mask == in1.mask && c.step == Min(in1.step, in2.step)
    ensures CoversSums(c, in1, in2)
    ensures OnlySums(c, in1, in2) <==> NoGaps(in1, in2) && !Collapses(in1, in2)
    ensures c.left == c.right <==> Total(in1, in2) > in1.mask || Collapses(in1, in2)
    ensures c.left != c.right ==> Shortest(c, in1, in2)
  {
    var step := Min(in1.step, in2.step);
    var size1 := RawSize(in1.left, in1.right, in1.mask, in1.step);
    var left := Fold(in1.left + in2.left, in1.mask);
    var right := Fold(in1.right - in1.step + in2.right - in2.step + step, in1.mask);
    var sizenew := RawSize(left, right, in1.mask, step);
    ProperSpan(in1, in2, step, left, right);
    if sizenew < size1 {
      right := left;
    }
    c := Arc(left, right, in1.mask, step, false);
    WellFormedStep(in1);
    SeveralSteps(in1);
    SeveralSteps(in2);
    SumsBySpan(c, in1, in2);
    ProperExact(c, in1, in2);
    if c.left != c.right { ProperShortest(c, in1, in2); }
    ghost var sum := c;
    c := Normalize(c);
    SameOnly(sum, c, in1, in2);
    SameOnly(c, sum, in1, in2);
  }

  // ----- distances -----

  /** How far `v` lies from the left edge, in ring distance. */
  ghost function Reach(a: Arc, v: nat): nat { Fold(v - a.left, a.mask) }

  lemma ReachOfSum(a: Arc, b: Arc, v: nat, w: nat)
    requires a.mask == b.mask
    ensures var l := Fold(a.left + b.left, a.mask);
      Fold(Fold(v + w, a.mask) - l, a.mask) == Fold(Reach(a, v) + Reach(b, w), a.mask)
  {
    var n := a.mask + 1;
    SameDifference(a.left + b.left, v + w, a.left + b.left, v + w, n);
    ModOfSum(v - a.left, w - b.left, n);
  }

  /** What the new edges and the two raw sizes say about the span of the sums. */
  lemma ProperSpan(a: Arc, b: Arc, s: nat, l: nat, r: nat)
    requires a.WellFormed() && b.WellFormed() && a.mask == b.mask < WORD && !a.isempty && !b.isempty && a.step > 0 && b.step > 0
    requires a.left != a.right && b.left != b.right && !IsSingle(a) && !IsSingle(b) && s == Min(a.step, b.step)
    requires l == Fold(a.left + b.left, a.mask) && r == Fold(a.right - a.step + b.right - b.step + s, a.mask)
    ensures var size1, sizenew := RawSize(a.left, a.right, a.mask, a.step), RawSize(l, r, a.mask, s);
      && l % s == r % s
      && (sizenew < size1 || l == r <==> Total(a, b) > a.mask || Collapses(a, b))
      && (sizenew >= size1 && l != r ==> Fold(r - l, a.mask) == Total(a, b))
  {
    SeveralSteps(a);
    SeveralSteps(b);
    SumPhaseOfEdges(a, b, s, l, r);
    ProperSizes(a, b, s, l, r);
  }

  lemma ProperSizes(a: Arc, b: Arc, s: nat, l: nat, r: nat)
    requires a.mask == b.mask < WORD && a.left <= a.mask && a.right <= a.mask && b.left <= a.mask && b.right <= a.mask && a.left != a.right && b.left != b.right
    requires l == Fold(a.left + b.left, a.mask) && r == Fold(a.right - a.step + b.right - b.step + s, a.mask)
    requires a.step > 0 && b.step > 0 && s == Min(a.step, b.step) && l % s == r % s
    requires 2 * a.step <= Span(a) <= a.mask + 1 - a.step && 2 * b.step <= Span(b) <= a.mask + 1 - b.step
    ensures var size1, sizenew := RawSize(a.left, a.right, a.mask, a.step), RawSize(l, r, a.mask, s);
      && (sizenew < size1 || l == r <==> Total(a, b) > a.mask || Collapses(a, b))
      && (sizenew >= size1 && l != r ==> Fold(r - l, a.mask) == Total(a, b))
  {
    GapOfEdges(a, b, s, l, r);
    FirstSize(a);
    NewSize(l, r, a.mask, s, Fold(r - l, a.mask));
    var size1, sizenew := RawSize(a.left, a.right, a.mask, a.step), RawSize(l, r, a.mask, s);
    SizesDecide(a.mask + 1, Total(a, b), Fold(r - l, a.mask), Span(a), a.step, Span(b), b.step, s, size1, sizenew, l, a.left, l == r);
  }

  lemma GapOfEdges(a: Arc, b: Arc, s: nat, l: nat, r: nat)
    requires a.mask == b.mask && a.left <= a.mask && a.right <= a.mask && b.left <= a.mask && b.right <= a.mask && a.left != a.right && b.left != b.right
    requires l == Fold(a.left + b.left, a.mask) && r == Fold(a.right - a.step + b.right - b.step + s, a.mask) && s == Min(a.step, b.step)
    requires a.step > 0 && b.step > 0 && 2 * a.step <= Span(a) <= a.mask + 1 - a.step && 2 * b.step <= Span(b) <= a.mask + 1 - b.step
    ensures Fold(r - l, a.mask) == if Total(a, b) <= a.mask then Total(a, b) else Total(a, b) - a.mask - 1
  {
    SumDistance(a, b, s, l, r);
    FoldedTotal(Total(a, b), a.mask + 1);
  }

  lemma FirstSize(a: Arc)
    requires a.left != a.right && a.left <= a.mask && a.right <= a.mask < WORD && a.step > 0 && Span(a) + a.step <= a.mask + 1
    ensures RawSize(a.left, a.right, a.mask, a.step) == Span(a) + Excess(a.left, Span(a), a.mask, a.step)
  {
    RingDistance(a.left, a.right, a.mask + 1);
    RawSizes(a.left, a.right, a.mask, a.step, Span(a));
  }

  lemma NewSize(l: nat, r: nat, mask: nat, s: nat, gap: nat)
    requires l <= mask && r <= mask < WORD && 0 < s && l % s == r % s && gap == Fold(r - l, mask)
    ensures l == r <==> gap == 0
    ensures l != r ==> RawSize(l, r, mask, s) == gap + Excess(l, gap, mask, s)
  {
    RingDistance(l, r, mask + 1);
    if l > r {
      PhaseGap(r, l, s);
      RawSizes(l, r, mask, s, gap);
    }
  }

  /** The arithmetic of the size test. */
  lemma SizesDecide(n: nat, t: int, gap: nat, span1: nat, s1: nat, span2: nat, s2: nat, s: nat, size1: nat, sizenew: nat, l: nat, l1: nat, same: bool)
    requires 0 < s <= s1 && s <= s2 && (s == s1 || s == s2) && 2 * s1 <= span1 <= n - s1 && 2 * s2 <= span2 <= n - s2
    requires t == span1 - s1 + span2 - s2 + s && gap == if t < n then t else t - n
    requires size1 == span1 + Excess(l1, span1, n - 1, s1)
    requires same <==> gap == 0
    requires !same ==> sizenew == gap + Excess(l, gap, n - 1, s)
    ensures sizenew >= size1 && !same ==> gap == t < n
    ensures (sizenew < size1 || same) <==> t >= n || t + Excess(l, t, n - 1, s) < span1 + Excess(l1, span1, n - 1, s1)
  {
  }

  lemma FoldedTotal(t: int, n: nat)
    requires 0 < t < 2 * n
    ensures t % n == if t < n then t else t - n
  {
    if t < n {
      SmallMod(t, n);
    } else {
      RemainderUnique(t, n, 1, t - n);
    }
  }

  lemma RawSizes(l: nat, r: nat, mask: nat, step: nat, span: nat)
    requires l != r && l <= mask && r <= mask < WORD && span == (if l < r then r - l else mask + 1 - (l - r)) && span + step <= mask + 1 && step > 0
    ensures RawSize(l, r, mask, step) == span + Excess(l, span, mask, step)
  {
    if l > r {
      SmallMod(mask - (l - r) + step, WORD);
    }
  }

  /** A proper arc of several values. */
  lemma SeveralSteps(a: Arc)
    requires a.WellFormed() && !a.isempty && a.step > 0 && a.left != a.right && !IsSingle(a)
    ensures Span(a) >= 2 * a.step && Span(a) + a.step <= a.mask + 1 && Span(a) % a.step == 0
  {
    SpanBounds(a);
    SpanOfSingle(a);
    WellFormedStep(a);
    RingDistance(a.left, a.right, a.mask + 1);
    MultipleHasNoRemainder(1, a.step);
    PhaseGap(a.step, Span(a), a.step);
    PhaseGap(Span(a), a.mask + 1, a.step);
  }

  lemma SumPhaseOfEdges(a: Arc, b: Arc, s: nat, l: nat, r: nat)
    requires a.WellFormed() && b.WellFormed() && a.mask == b.mask && !a.isempty && !b.isempty && a.step > 0 && b.step > 0 && s == Min(a.step, b.step)
    requires l == Fold(a.left + b.left, a.mask) && r == Fold(a.right - a.step + b.right - b.step + s, a.mask)
    ensures l % s == r % s
  {
    var n := a.mask + 1;
    PowersDivide(s, a.step);
    PowersDivide(s, b.step);
    PowersDivide(s, n);
    SumPhase(a.left, b.left, a, b, s);
    SumPhase(a.right, b.right, a, b, s);
    ModOfMultiple(a.right + b.right, n, s);
    ModOfMultiple(a.right - a.step + b.right - b.step + s, n, s);
    var d := s - a.step - b.step;
    MultipleHasNoRemainder(1, s);
    ModOfDifference(s, a.step, s);
    ModOfDifference(s - a.step, b.step, s);
    ModOfSum(a.right + b.right, d, s);
  }

  lemma SumDistance(a: Arc, b: Arc, s: nat, l: nat, r: nat)
    requires a.mask == b.mask && a.left <= a.mask && a.right <= a.mask && b.left <= a.mask && b.right <= a.mask && a.left != a.right && b.left != b.right
    requires l == Fold(a.left + b.left, a.mask) && r == Fold(a.right - a.step + b.right - b.step + s, a.mask)
    ensures Fold(r - l, a.mask) == Fold(Span(a) - a.step + Span(b) - b.step + s, a.mask)
  {
    var n := a.mask + 1;
    SameDifference(a.left + b.left, a.right - a.step + b.right - b.step + s, a.left + b.left, a.right - a.step + b.right - b.step + s, n);
    ModOfSum(a.right - a.left, (b.right - b.left) + (s - a.step - b.step), n);
    ModOfSum(b.right - b.left, Span(a) + (s - a.step - b.step), n);
  }

  lemma SumsBySpan(c: Arc, a: Arc, b: Arc)
    requires a.WellFormed() && b.WellFormed() && c.WellFormed() && a.mask == b.mask == c.mask && !a.isempty && !b.isempty && !c.isempty && a.step > 0 && b.step > 0
    requires c.step == Min(a.step, b.step) && c.left == Fold(a.left + b.left, a.mask)
    requires Span(c) == Total(a, b) || Span(c) == a.mask + 1
    ensures CoversSums(c, a, b)
  {
    forall v: nat, w: nat | v <= a.mask && w <= b.mask && a.Contains(v) && b.Contains(w) ensures c.Contains(Fold(v + w, c.mask)) {
      SumCovered(c, a, b, v, w);
    }
  }

  lemma LastReach(a: Arc, v: nat)
    requires a.WellFormed() && !a.isempty && a.step > 0 && v <= a.mask && a.Contains(v)
    ensures Reach(a, v) + a.step <= Span(a) && Reach(a, v) % a.step == 0
  {
    ContainsIsDistance(a, v);
    PhaseGap(Reach(a, v), Span(a), a.step);
  }

  lemma SumCovered(c: Arc, a: Arc, b: Arc, v: nat, w: nat)
    requires a.WellFormed() && b.WellFormed() && c.WellFormed() && a.mask == b.mask == c.mask && !a.isempty && !b.isempty && !c.isempty && a.step > 0 && b.step > 0
    requires c.step == Min(a.step, b.step) && c.left == Fold(a.left + b.left, a.mask)
    requires Span(c) == Span(a) - a.step + Span(b) - b.step + c.step || Span(c) == a.mask + 1
    requires v <= a.mask && w <= b.mask && a.Contains(v) && b.Contains(w)
    ensures c.Contains(Fold(v + w, c.mask))
  {
    var n, s, d := a.mask + 1, c.step, Reach(a, v) + Reach(b, w);
    LastReach(a, v);
    LastReach(b, w);
    SpanBounds(c);
    ReachOfSum(a, b, v, w);
    ContainsIsDistance(c, Fold(v + w, c.mask));
    PowersDivide(s, a.step);
    PowersDivide(s, b.step);
    WellFormedStep(c);
    ModOfMultiple(Reach(a, v), a.step, s);
    ModOfMultiple(Reach(b, w), b.step, s);
    ModOfSum(Reach(a, v), Reach(b, w), s);
    ModOfMultiple(d, n, s);
    if Span(c) != n {
      SmallMod(d, n);
    }
  }

  // ----- nothing but sums -----

  /** The sum of the values at two distances lies at their total from the sum of the left edges. */
  lemma SumAtReach(a: Arc, b: Arc, d1: nat, d2: nat) returns (v: nat, w: nat)
    requires a.WellFormed() && b.WellFormed() && a.mask == b.mask && !a.isempty && !b.isempty && a.step > 0 && b.step > 0
    requires d1 % a.step == 0 && d1 < Span(a) && d2 % b.step == 0 && d2 < Span(b)
    ensures v <= a.mask && w <= b.mask && a.Contains(v) && b.Contains(w)
    ensures Fold(v + w, a.mask) == Fold(Fold(a.left + b.left, a.mask) + d1 + d2, a.mask)
  {
    var n := a.mask + 1;
    v, w := Fold(a.left + d1, a.mask), Fold(b.left + d2, a.mask);
    AtReach(a, d1);
    AtReach(b, d2);
    ModOfSum(a.left + d1, b.left + d2, n);
    ModOfSum(a.left + b.left, d1 + d2, n);
  }

  /** A distance as a multiple of the coarser stride and a rest. */
  lemma SplitReach(d: nat, span1: nat, s1: nat, span2: nat, s: nat) returns (d1: nat, d2: nat)
    requires 0 < s && 0 < s1 <= span1 && s1 % s == 0 && span1 % s1 == 0 && s1 <= span2 && d % s == 0 && d < span1 - s1 + span2
    ensures d1 + d2 == d && d1 % s1 == 0 && d1 < span1 && d2 < span2 && d2 % s == 0
  {
    WholeSteps(d, s1);
    ShiftByMultiple(span1, -1, s1);
    d1 := if d - d % s1 <= span1 - s1 then d - d % s1 else span1 - s1;
    d2 := d - d1;
    WholeRest(d, d1, s1, s);
  }

  lemma WholeSteps(d: nat, s: nat)
    requires s > 0
    ensures 0 <= d - d % s <= d < d - d % s + s && (d - d % s) % s == 0
  {
    EqualRemainders(d, d % s, s);
    SmallMod(d % s, s);
    SmallestInPhase(s);
  }

  lemma WholeRest(d: nat, d1: nat, s1: nat, s: nat)
    requires 0 < s && 0 < s1 && s1 % s == 0 && d % s == 0 && d1 % s1 == 0
    ensures (d - d1) % s == 0
  {
    ModOfMultiple(d1, s1, s);
    ModOfDifference(d, d1, s);
  }

  /** With no gaps, an arc no longer than the sums holds nothing else. */
  lemma FilledSums(c: Arc, a: Arc, b: Arc)
    requires a.WellFormed() && b.WellFormed() && c.WellFormed() && a.mask == b.mask == c.mask && !a.isempty && !b.isempty && !c.isempty
    requires 0 < c.step == b.step <= a.step <= Span(b) && c.left == Fold(a.left + b.left, a.mask) && Span(c) <= Span(a) - a.step + Span(b)
    ensures OnlySums(c, a, b)
  {
    forall u: nat | u <= c.mask && c.Contains(u) ensures IsSum(u, a, b)
    {
      var d := Reach(c, u);
      LastReach(c, u);
      SpanBounds(a);
      PowersDivide(b.step, a.step);
      var d1, d2 := SplitReach(d, Span(a), a.step, Span(b), b.step);
      var v, w := SumAtReach(a, b, d1, d2);
      AtDistance(c.left, u, a.mask + 1);
    }
  }

  lemma AtDistance(l: nat, u: nat, n: nat)
    requires u < n
    ensures (l + (u - l) % n) % n == u
  {
    ModOfSum(l, u - l, n);
    SmallMod(u, n);
  }

  /** Just past the values of the finer operand no sum is found before the next value of the coarser one. */
  lemma GapIsNoSum(a: Arc, b: Arc, v: nat, w: nat)
    requires a.WellFormed() && b.WellFormed() && a.mask == b.mask && !a.isempty && !b.isempty && a.step > Span(b) && b.step > 0
    requires v <= a.mask && w <= b.mask && a.Contains(v) && b.Contains(w)
    ensures Fold(v + w, a.mask) != Fold(Fold(a.left + b.left, a.mask) + Span(b), a.mask)
  {
    var n, d := a.mask + 1, Reach(b, w);
    WellFormedStep(a);
    LastReach(b, w);
    ModOfMultiple(v + w, n, a.step);
    ModOfMultiple(Fold(a.left + b.left, a.mask) + Span(b), n, a.step);
    PhaseOfSum(a.left, b.left, v, w, d, Span(b), a.step, n);
  }

  lemma PhaseOfSum(l1: nat, l2: nat, v: nat, w: nat, d: nat, e: nat, s: nat, n: nat)
    requires n > 0 && s > 0 && n % s == 0 && v % s == l1 % s && d == (w - l2) % n && d < e < s
    ensures (v + w) % s != ((l1 + l2) % n + e) % s
  {
    EqualRemainders(v, l1, s);
    ModOfMultiple(w - l2, n, s);
    ModOfSum(v - l1, w - l2, s);
    SmallMod(d, s);
    SmallMod(e, s);
    EqualRemainders(v + w, l1 + l2 + e, s);
    ModOfMultiple(l1 + l2, n, s);
    ModOfSum((l1 + l2) % n, e, s);
    ModOfSum(l1 + l2, e, s);
    ModOfDifference(v + w - l1 - l2, e, s);
    SmallMod(0, s);
    if (d - e) % s == 0 { ShiftByMultiple(d - e, 1, s); SmallMod(d - e + s, s); }
  }

  lemma GapLeft(c: Arc, a: Arc, b: Arc)
    requires a.WellFormed() && b.WellFormed() && a.mask == b.mask == c.mask && !a.isempty && !b.isempty && a.step > Span(b) && b.step > 0 && c.step > 0
    requires c.Contains(Fold(Fold(a.left + b.left, a.mask) + Span(b), a.mask))
    ensures !OnlySums(c, a, b)
  {
    if OnlySums(c, a, b) {
      var u := Fold(Fold(a.left + b.left, a.mask) + Span(b), a.mask);
      var v: nat, w: nat :| v <= a.mask && w <= b.mask && a.Contains(v) && b.Contains(w) && Fold(v + w, c.mask) == u;
      GapIsNoSum(a, b, v, w);
      assert false;
    }
  }

  /** The last value of the whole phase is no sum when the sums end before it. */
  lemma TopIsNoSum(c: Arc, a: Arc, b: Arc)
    requires a.WellFormed() && b.WellFormed() && c.WellFormed() && a.mask == b.mask == c.mask && !a.isempty && !b.isempty && !c.isempty && a.step > 0 && b.step > 0
    requires c.step == Min(a.step, b.step) && c.left == Fold(a.left + b.left, a.mask)
    requires Span(c) == a.mask + 1 > Total(a, b)
    ensures !OnlySums(c, a, b)
  {
    var top := a.mask + 1 - c.step;
    WellFormedStep(c);
    ShiftByMultiple(a.mask + 1, -1, c.step);
    AtReach(c, top);
    if OnlySums(c, a, b) {
      var v: nat, w: nat :| v <= a.mask && w <= b.mask && a.Contains(v) && b.Contains(w) && Fold(v + w, a.mask) == Fold(c.left + top, c.mask);
      SumIsBelow(c, a, b, v, w, top);
      assert false;
    }
  }

  lemma SumIsBelow(c: Arc, a: Arc, b: Arc, v: nat, w: nat, top: nat)
    requires a.WellFormed() && b.WellFormed() && a.mask == b.mask == c.mask && !a.isempty && !b.isempty && a.step > 0 && b.step > 0
    requires c.left == Fold(a.left + b.left, a.mask) && Total(a, b) - Min(a.step, b.step) < top <= a.mask
    requires v <= a.mask && w <= b.mask && a.Contains(v) && b.Contains(w)
    ensures Fold(v + w, a.mask) != Fold(c.left + top, a.mask)
  {
    var n := a.mask + 1;
    LastReach(a, v);
    LastReach(b, w);
    ReachOfSum(a, b, v, w);
    SmallMod(Reach(a, v) + Reach(b, w), n);
    DistanceBack(c.left, top, n);
  }

  lemma ProperExact(c: Arc, a: Arc, b: Arc)
    requires a.WellFormed() && b.WellFormed() && c.WellFormed() && a.mask == b.mask == c.mask && !a.isempty && !b.isempty && !c.isempty && a.step > 0 && b.step > 0
    requires 2 * a.step <= Span(a) <= a.mask + 1 - a.step && 2 * b.step <= Span(b) <= a.mask + 1 - b.step
    requires c.step == Min(a.step, b.step) && c.left == Fold(a.left + b.left, a.mask)
    requires Span(c) == Total(a, b) || Span(c) == a.mask + 1
    ensures OnlySums(c, a, b) <==> NoGaps(a, b) && Span(c) <= Total(a, b)
  {
    if a.step >= b.step {
      CoarserExact(c, a, b);
    } else {
      CoarserExact(c, b, a);
      SwapSums(c, a, b);
      SwapSums(c, b, a);
    }
  }

  lemma ProperShortest(c: Arc, a: Arc, b: Arc)
    requires a.WellFormed() && b.WellFormed() && c.WellFormed() && a.mask == b.mask == c.mask && !a.isempty && !b.isempty && !c.isempty && a.step > 0 && b.step > 0
    requires 2 * a.step <= Span(a) <= a.mask + 1 - a.step && 2 * b.step <= Span(b) <= a.mask + 1 - b.step
    requires c.step == Min(a.step, b.step) && c.left == Fold(a.left + b.left, a.mask) && Span(c) == Total(a, b) < a.mask + 1
    ensures Shortest(c, a, b)
  {
    forall d: Arc ensures NoShorter(d, c, a, b) {
      if a.step >= b.step {
        CoverIsLonger(d, c, a, b);
      } else {
        CoverIsLonger(d, c, b, a);
        SwapNoShorter(d, c, a, b);
      }
    }
  }

  lemma SwapNoShorter(d: Arc, c: Arc, a: Arc, b: Arc)
    requires a.step > 0 && b.step > 0 && c.step > 0 && a.mask == b.mask == c.mask && NoShorter(d, c, b, a)
    ensures NoShorter(d, c, a, b)
  {
    if Covering(d, c, a, b) { SwapCovers(d, a, b); }
  }

  lemma CoarserExact(c: Arc, a: Arc, b: Arc)
    requires a.WellFormed() && b.WellFormed() && c.WellFormed() && a.mask == b.mask == c.mask && !a.isempty && !b.isempty && !c.isempty && a.step > 0 && b.step > 0
    requires 2 * a.step <= Span(a) <= a.mask + 1 - a.step
    requires c.step == b.step <= a.step && c.left == Fold(a.left + b.left, a.mask)
    requires Span(c) == Total(a, b) || Span(c) == a.mask + 1
    ensures OnlySums(c, a, b) <==> Span(b) >= a.step && Span(c) <= Total(a, b)
  {
    SpanBounds(b);
    if Span(b) < a.step {
      AtReach(c, Span(b));
      GapLeft(c, a, b);
    } else if Span(c) <= Total(a, b) {
      FilledSums(c, a, b);
    } else {
      TopIsNoSum(c, a, b);
    }
  }

  // ----- no shorter arc -----

  /** An arc that covers the sums reaches over the sum of the values at two distances. */
  lemma CoveredReach(d: Arc, a: Arc, b: Arc, d1: nat, d2: nat)
    requires a.WellFormed() && b.WellFormed() && d.WellFormed() && a.mask == b.mask == d.mask && !a.isempty && !b.isempty && !d.isempty
    requires a.step > 0 && b.step > 0 && d.step > 0 && CoversSums(d, a, b)
    requires d1 % a.step == 0 && d1 < Span(a) && d2 % b.step == 0 && d2 < Span(b)
    ensures var l, n := Fold(a.left + b.left, a.mask), a.mask + 1;
      (d1 + d2 - (d.left - l) % n) % n + d.step <= Span(d)
  {
    var l, n := Fold(a.left + b.left, a.mask), a.mask + 1;
    var v, w := SumAtReach(a, b, d1, d2);
    LastReach(d, Fold(v + w, a.mask));
    FromOtherStart(l, d1 + d2, d.left, n);
  }

  lemma FromOtherStart(l: int, y: int, start: int, n: nat)
    requires n > 0
    ensures ((l + y) % n - start) % n == (y - (start - l) % n) % n
  {
    SameDifferenceLeft(l + y, start, n);
    SameDifferenceRight(y, start - l, n);
  }

  lemma SameDifferenceRight(x: int, y: int, n: nat)
    requires n > 0
    ensures (x - y % n) % n == (x - y) % n
  {
    ModOfDifference(x, y, n);
  }

  /** `y` steps past the sum of the left edges lies a sum. */
  ghost predicate SumAtDistance(a: Arc, b: Arc, y: int)
    requires a.step > 0 && b.step > 0
  {
    exists d1: nat, d2: nat :: d1 % a.step == 0 && d1 < Span(a) && d2 % b.step == 0 && d2 < Span(b) && d1 + d2 == y
  }

  lemma CoveredDistance(d: Arc, a: Arc, b: Arc, x: nat, y: int)
    requires a.WellFormed() && b.WellFormed() && d.WellFormed() && a.mask == b.mask == d.mask && !a.isempty && !b.isempty && !d.isempty
    requires a.step > 0 && b.step > 0 && d.step > 0 && CoversSums(d, a, b)
    requires x == Fold(d.left - Fold(a.left + b.left, a.mask), a.mask) && SumAtDistance(a, b, y) && 0 <= y <= a.mask
    ensures (if x <= y then y - x else y - x + a.mask + 1) + d.step <= Span(d)
  {
    var d1: nat, d2: nat :| d1 % a.step == 0 && d1 < Span(a) && d2 % b.step == 0 && d2 < Span(b) && d1 + d2 == y;
    assert Fold(y - x, a.mask) + d.step <= Span(d) by { CoveredReach(d, a, b, d1, d2); }
    RingDistance(x, y, a.mask + 1);
  }

  /** Where sums are found: before the gap that follows `y`'s step of the coarser operand, and after it. */
  lemma SumsAround(a: Arc, b: Arc, y: nat)
    requires a.WellFormed() && b.WellFormed() && !a.isempty && !b.isempty && a.step > 0 && b.step > 0 && b.step <= a.step
    requires y % b.step == 0 && y < Span(a) - a.step + Span(b)
    ensures var q := y - y % a.step;
      SumAtDistance(a, b, y) || (q + Span(b) <= y && q + 2 * a.step <= Span(a) && SumAtDistance(a, b, q + a.step))
  {
    var q, last := y - y % a.step, Span(a) - a.step;
    SpanBounds(a);
    SpanBounds(b);
    PowersDivide(b.step, a.step);
    WholeSteps(y, a.step);
    ShiftByMultiple(Span(a), -1, a.step);
    if q >= last {
      AddsUp(a, b, last, y - last, y);
    } else if y - q < Span(b) {
      AddsUp(a, b, q, y - q, y);
    } else {
      PhaseGap(q, last, a.step);
      ShiftByMultiple(q, 1, a.step);
      WholeRest(0, q + a.step, a.step, b.step);
      EqualRemainders(0, q + a.step, b.step);
      AddsUp(a, b, q + a.step, 0, q + a.step);
    }
  }

  lemma AddsUp(a: Arc, b: Arc, d1: nat, d2: nat, y: nat)
    requires a.step > 0 && b.step > 0 && a.step % b.step == 0 && y % b.step == 0 && d1 + d2 == y
    requires d1 % a.step == 0 && d1 < Span(a) && d2 < Span(b)
    ensures SumAtDistance(a, b, y)
  {
    WholeRest(y, d1, a.step, b.step);
  }

  /** Any other arc that covers the sums is longer: what it leaves out fits in a gap between two sums. */
  lemma CoverIsLonger(d: Arc, c: Arc, a: Arc, b: Arc)
    requires a.WellFormed() && b.WellFormed() && c.WellFormed() && a.mask == b.mask == c.mask && !a.isempty && !b.isempty && !c.isempty && a.step > 0 && b.step > 0
    requires 2 * a.step <= Span(a) <= a.mask + 1 - a.step
    requires c.step == b.step <= a.step && c.left == Fold(a.left + b.left, a.mask) && Span(c) == Total(a, b) < a.mask + 1
    ensures NoShorter(d, c, a, b)
  {
    if Covering(d, c, a, b) {
      var n, s, t, x := a.mask + 1, c.step, Span(c), Fold(d.left - c.left, a.mask);
      SpanBounds(c);
      SpanBounds(d);
      EndsAreSums(a, b);
      CoveredDistance(d, a, b, x, 0);
      CoveredDistance(d, a, b, x, t - s);
      if x == 0 {
        SameEdges(c, d);
      } else if x < t && Span(d) < n {
        SameDistancePhase(c, d, a, b, x);
        InnerGap(d, a, b, x, t);
      }
    }
  }

  lemma EndsAreSums(a: Arc, b: Arc)
    requires a.WellFormed() && b.WellFormed() && !a.isempty && !b.isempty && 0 < b.step <= a.step
    ensures SumAtDistance(a, b, 0) && SumAtDistance(a, b, Span(a) - a.step + Span(b) - b.step)
  {
    SpanBounds(a);
    SpanBounds(b);
    PowersDivide(b.step, a.step);
    MultipleHasNoRemainder(0, b.step);
    AddsUp(a, b, 0, 0, 0) by { MultipleHasNoRemainder(0, a.step); }
    ShiftByMultiple(Span(a), -1, a.step);
    ShiftByMultiple(Span(b), -1, b.step);
    var d1: nat, d2: nat := Span(a) - a.step, Span(b) - b.step;
    assert d1 % a.step == 0 && d1 < Span(a) && d2 % b.step == 0 && d2 < Span(b);
  }

  /** Arcs of one start that are equally long have the same end. */
  lemma SameEdges(c: Arc, d: Arc)
    requires c.WellFormed() && d.WellFormed() && c.mask == d.mask && !c.isempty && !d.isempty && Fold(d.left - c.left, c.mask) == 0
    ensures d.left == c.left && (Span(c) == Span(d) ==> d.right == c.right)
  {
    RingDistance(c.left, d.left, c.mask + 1);
    RingDistance(c.left, c.right, c.mask + 1);
    RingDistance(d.left, d.right, c.mask + 1);
  }

  /** The start of `d` and what it leaves out are whole steps from the sum of the left edges. */
  lemma SameDistancePhase(c: Arc, d: Arc, a: Arc, b: Arc, x: nat)
    requires a.WellFormed() && b.WellFormed() && c.WellFormed() && a.mask == b.mask == c.mask && !a.isempty && !b.isempty && !c.isempty && 0 < b.step == c.step <= a.step
    requires c.left == Fold(a.left + b.left, a.mask) && Covering(d, c, a, b) && x == Fold(d.left - c.left, a.mask)
    ensures x % b.step == 0 && (x + Span(d) - (a.mask + 1)) % b.step == 0
  {
    var n, s := a.mask + 1, b.step;
    WellFormedStep(c);
    SpanBounds(d);
    EndsAreSums(a, b);
    CoveredDistance(d, a, b, x, 0);
    var d1: nat, d2: nat :| d1 % a.step == 0 && d1 < Span(a) && d2 % b.step == 0 && d2 < Span(b) && d1 + d2 == 0;
    var v, w := SumAtReach(a, b, d1, d2);
    SmallMod(c.left, n);
    LastReach(d, c.left);
    EqualRemainders(c.left, d.left, s);
    EqualRemainders(d.left, c.left, s);
    ModOfMultiple(d.left - c.left, n, s);
    ModOfSum(x, Span(d), s);
    ModOfDifference(x + Span(d), n, s);
  }

  lemma InnerGap(d: Arc, a: Arc, b: Arc, x: nat, t: nat)
    requires a.WellFormed() && b.WellFormed() && d.WellFormed() && a.mask == b.mask == d.mask && !a.isempty && !b.isempty && !d.isempty
    requires 0 < b.step == d.step <= a.step && CoversSums(d, a, b) && Span(a) <= a.mask + 1 - a.step
    requires x == Fold(d.left - Fold(a.left + b.left, a.mask), a.mask) && t == Span(a) - a.step + Span(b) <= a.mask
    requires 0 < x < t && Span(d) < a.mask + 1 && x + Span(d) > a.mask + 1 && (x + Span(d) - (a.mask + 1)) % b.step == 0
    ensures Span(d) > t
  {
    var n := a.mask + 1;
    var m := x + Span(d) - n;
    SumsAround(a, b, m);
    if SumAtDistance(a, b, m) {
      CoveredDistance(d, a, b, x, m);
      assert false;
    }
    var q := m - m % a.step;
    CoveredDistance(d, a, b, x, q + a.step);
  }

  lemma AtReach(a: Arc, d: nat)
    requires a.WellFormed() && !a.isempty && a.step > 0 && d % a.step == 0 && d < Span(a)
    ensures a.Contains(Fold(a.left + d, a.mask))
  {
    assert d <= a.mask by { SpanBounds(a); }
    HoldsAtDistance(a, DistantValue(a, d), d);
  }

  /** The value `d` past the left edge. */
  ghost function DistantValue(a: Arc, d: nat): (v: nat)
    requires d <= a.mask
    ensures v <= a.mask && Reach(a, v) == d
  {
    DistanceBack(a.left, d, a.mask + 1);
    Fold(a.left + d, a.mask)
  }

  lemma HoldsAtDistance(a: Arc, v: nat, d: nat)
    requires a.WellFormed() && !a.isempty && a.step > 0 && v <= a.mask && Reach(a, v) == d && d % a.step == 0 && d < Span(a)
    ensures a.Contains(v)
  {
    ContainsIsDistance(a, v);
  }

  lemma DistanceBack(left: nat, d: nat, n: nat)
    requires d < n
    ensures ((left + d) % n - left) % n == d
  {
    SameDifferenceLeft(left + d, left, n);
    SmallMod(d, n);
  }
}

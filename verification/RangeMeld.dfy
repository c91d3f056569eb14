/**
 Melding two conditions on one variable into a single comparison: a range back
 to a comparison (pkg/pcode/circlerange.go:747-776) and the rule built on it
 (pkg/pcode/rules_ghidra_port.go:1229-1323).
 */
module RangeMelds {
  import opened Words
  import opened CircleRanges
  import opened PullBacks

  /** A comparison with the constant `c` in slot `cslot`, or a verdict without one. */
  datatype Verdict = Comparison(op: BinaryOp, c: nat, cslot: nat) | AlwaysTrue | NotPossible | AlwaysFalse

  function Translate2Op(a: Arc): Verdict {
    if a.isempty then AlwaysFalse
    else if a.step != 1 then NotPossible
    else if a.right == Fold(a.left + 1, a.mask) then Comparison(Equal, a.left, 0)
    else if a.left == Fold(a.right + 1, a.mask) then Comparison(NotEqual, a.right, 0)
    else if a.left == a.right then AlwaysTrue
    else if a.left == 0 then Comparison(Less, a.right, 1)
    else if a.right == 0 then Comparison(Less, Fold(a.left - 1, a.mask), 0)
    else if a.left == a.mask / 2 + 1 then Comparison(SLess, a.right, 1)
    else if a.right == a.mask / 2 + 1 then Comparison(SLess, Fold(a.left - 1, a.mask), 0)
    else NotPossible
  }

  /** The truth of a verdict at `x`. */
  predicate Holds(v: Verdict, x: nat, mask: nat) {
    match v
    case Comparison(op, c, cslot) => CompareAt(op, x, c, 1 - (if cslot == 0 then 0 else 1), mask)
    case AlwaysTrue => true
    case _ => false
  }

  /** The comparison with the constant `c` is true exactly on the range. */
  ghost predicate Describes(op: BinaryOp, c: nat, slot: nat, a: Arc)
    requires a.step > 0
  {
    forall x: nat {:trigger a.Contains(x)} {:trigger CompareAt(op, x, c, slot, a.mask)} :: x <= a.mask ==>
      (a.Contains(x) <==> CompareAt(op, x, c, slot, a.mask))
  }

  /** No comparison of the variable with a constant, on either side, describes the range. */
  ghost predicate NoComparison(a: Arc)
    requires a.step > 0
  {
    forall op, c: nat, slot: nat :: IsComparison(op) && c <= a.mask && slot < 2 ==> !Describes(op, c, slot, a)
  }

  ghost predicate RingOfBytes(mask: nat) {
    mask >= 255 && mask % 2 == 1 && IsPow2(mask + 1)
  }

  ghost predicate VerdictMeans(v: Verdict, a: Arc)
    requires a.step > 0
  {
    forall x: nat {:trigger a.Contains(x)} {:trigger Holds(v, x, a.mask)} :: x <= a.mask ==> (a.Contains(x) <==> Holds(v, x, a.mask))
  }

  /**
   The translation means the range, and gives up at stride 1 only on a range that
   no comparison describes.
   */
  lemma TranslateExact(a: Arc)
    requires a.WellFormed() && RingOfBytes(a.mask) && (a.step == 1 || a.isempty)
    ensures var v := Translate2Op(a);
      && a.step > 0
      && (v.Comparison? ==> v.c <= a.mask && v.cslot < 2 && IsComparison(v.op))
      && (!v.NotPossible? ==> VerdictMeans(v, a))
      && (v.NotPossible? ==> NoComparison(a))
  {
    WellFormedStep(a);
    if !a.isempty {
      TranslatedMeaning(a);
      if Translate2Op(a).NotPossible? {
        NotRepresentable(a);
      }
    }
  }

  lemma TranslatedMeaning(a: Arc)
    requires a.WellFormed() && RingOfBytes(a.mask) && a.step == 1 && !a.isempty
    ensures var v := Translate2Op(a);
      && (v.Comparison? ==> v.c <= a.mask && v.cslot < 2 && IsComparison(v.op))
      && (!v.NotPossible? ==> VerdictMeans(v, a))
  {
    Successor(a.left, a.mask);
    Successor(a.right, a.mask);
    if a.left > 0 {
      SmallMod(a.left - 1, a.mask + 1);
    }
  }

  lemma NotRepresentable(a: Arc)
    requires a.WellFormed() && RingOfBytes(a.mask) && a.step == 1 && Translate2Op(a).NotPossible?
    ensures NoComparison(a)
  {
    Successor(a.left, a.mask);
    Successor(a.right, a.mask);
    var l, r := a.left, a.right;
    assert 0 < l && 0 < r && l != a.mask / 2 + 1 && r != a.mask / 2 + 1 && r != l + 1 && l != r + 1;
    forall op, c: nat, slot: nat | IsComparison(op) && c <= a.mask && slot < 2 ensures !Describes(op, c, slot, a) {
      NotDescribed(op, c, slot, a);
    }
  }

  lemma NotDescribed(op: BinaryOp, c: nat, slot: nat, a: Arc)
    requires IsComparison(op) && c <= a.mask && slot < 2 && a.mask % 2 == 1 && a.step == 1 && !a.isempty && a.left != a.right
    requires 0 < a.left <= a.mask && 0 < a.right <= a.mask && a.left != a.mask / 2 + 1 && a.right != a.mask / 2 + 1
    requires a.right != a.left + 1 && a.left != a.right + 1
    ensures !Describes(op, c, slot, a)
  {
    EdgeOfTruth(op, c, slot, a.mask, a.left, a.right);
    var outL, inR := a.left - 1, a.right - 1;
    assert a.Contains(a.left) && !a.Contains(outL) && a.Contains(inR) && !a.Contains(a.right);
  }

  /** Away from the least and greatest values, a comparison cannot turn on at `l` and off at `r`. */
  lemma EdgeOfTruth(op: BinaryOp, c: nat, slot: nat, mask: nat, l: nat, r: nat)
    requires IsComparison(op) && c <= mask && slot < 2 && mask % 2 == 1
    requires 0 < l <= mask && 0 < r <= mask && l != mask / 2 + 1 && r != mask / 2 + 1 && r != l + 1 && l != r + 1
    ensures CompareAt(op, l, c, slot, mask) && CompareAt(op, r - 1, c, slot, mask) ==>
              CompareAt(op, l - 1, c, slot, mask) || CompareAt(op, r, c, slot, mask)
  {
  }

  /**
   A wider stride is always given up, and rightly so except on a single value, which an
   equality describes.
   */
  lemma StridedExact(a: Arc)
    requires a.WellFormed() && RingOfBytes(a.mask) && a.step > 1 && !a.isempty
    ensures Translate2Op(a).NotPossible? && (NoComparison(a) <==> Span(a) != a.step)
  {
    ContainsIsDistance(a, a.left);
    if Span(a) == a.step {
      OneValue(a);
    } else {
      var q := SecondValue(a);
      forall op, c: nat, slot: nat | IsComparison(op) && c <= a.mask && slot < 2 ensures !Describes(op, c, slot, a) {
        if Describes(op, c, slot, a) {
          TwoAreAdjacent(op, c, slot, a.mask, a.left, q);
          NoneAdjacent(a, op, c, slot);
        }
      }
    }
  }

  lemma OneValue(a: Arc)
    requires a.WellFormed() && a.step > 1 && !a.isempty && Span(a) == a.step
    ensures Describes(Equal, a.left, 0, a) && !NoComparison(a)
  {
    forall x: nat | x <= a.mask ensures a.Contains(x) <==> CompareAt(Equal, x, a.left, 0, a.mask) { OnlyLeft(a, x); }
  }

  lemma OnlyLeft(a: Arc, x: nat)
    requires a.WellFormed() && a.step > 1 && !a.isempty && Span(a) == a.step && x <= a.mask
    ensures a.Contains(x) <==> x == a.left
  {
    ContainsIsDistance(a, x);
    NoDistance(x, a.left, a.mask + 1);
    var d := Fold(x - a.left, a.mask);
    if d < a.step { SmallMod(d, a.step); }
    SmallMod(0, a.step);
  }

  lemma NoDistance(x: nat, y: nat, ring: nat)
    requires x < ring && y < ring
    ensures (x - y) % ring == 0 <==> x == y
  {
    EqualRemainders(x, y, ring);
    SmallMod(x, ring);
    SmallMod(y, ring);
  }

  lemma SecondValue(a: Arc) returns (q: nat)
    requires a.WellFormed() && !a.isempty && Span(a) != a.step
    ensures q <= a.mask && q != a.left && a.Contains(q) && a.Contains(a.left)
  {
    WellFormedStep(a);
    ContainsIsDistance(a, a.left);
    SmallMod(0, a.mask + 1);
    NoDistance(a.right, a.left, a.mask + 1);
    ManySteps(Span(a), a.step);
    q := a.Nth(1);
    assert 1 < a.Count() && a.Nth(1) == q;
    ContainsIsMember(a, q);
    StepLeaves(a.left, a.step, a.mask + 1);
  }

  lemma ManySteps(span: nat, step: nat)
    requires step > 0 && span > 0 && span % step == 0 && span != step
    ensures span / step > 1 && span > step
  {
    assert span == step * (span / step);
  }

  lemma StepLeaves(x: nat, step: nat, ring: nat)
    requires x < ring && 0 < step < ring
    ensures (x + step) % ring != x
  {
    EqualRemainders(x + step, x, ring);
    SmallMod(step, ring);
    SmallMod(x, ring);
  }

  /** A comparison true of two values is true of two neighbours, at an end of one of the orders. */
  lemma TwoAreAdjacent(op: BinaryOp, c: nat, slot: nat, mask: nat, p: nat, q: nat)
    requires IsComparison(op) && c <= mask && slot < 2 && mask >= 255 && mask % 2 == 1 && p <= mask && q <= mask && p != q
    requires CompareAt(op, p, c, slot, mask) && CompareAt(op, q, c, slot, mask)
    ensures var half := mask / 2 + 1;
      || BothTrue(op, c, slot, mask, 0) || BothTrue(op, c, slot, mask, mask - 1)
      || BothTrue(op, c, slot, mask, half) || BothTrue(op, c, slot, mask, half - 2)
  {
  }

  predicate BothTrue(op: BinaryOp, c: nat, slot: nat, mask: nat, x: nat) {
    CompareAt(op, x, c, slot, mask) && CompareAt(op, x + 1, c, slot, mask)
  }

  /** No two neighbours are on a wider stride. */
  lemma NoneAdjacent(a: Arc, op: BinaryOp, c: nat, slot: nat)
    requires a.WellFormed() && a.step > 1 && Describes(op, c, slot, a)
    ensures forall x: nat :: x < a.mask ==> !BothTrue(op, c, slot, a.mask, x)
  {
    forall x: nat | x < a.mask ensures !BothTrue(op, c, slot, a.mask, x) {
      if a.Contains(x) && a.Contains(x + 1) { EqualRemainders(x + 1, x, a.step); }
    }
  }

  const TRUE_ARC := Arc(1, 2, 0xff, 1, false)

  /** Translating a range and pulling `true` back through the comparison recovers the range. */
  method RoundTrip(a: Arc, size: int) returns (back: Arc)
    requires a.WellFormed() && 1 <= size <= 8 && a.mask == MaskForSize(size) && a.step == 1 && Translate2Op(a).Comparison?
    ensures back.step > 0 && SameSet(back, a) && back.mask == a.mask
  {
    SizedRing(size);
    TranslateExact(a);
    var v := Translate2Op(a);
    ByteMask();
    var r := new CircleRange(TRUE_ARC);
    var ok := PullBackBinary(r, v.op, v.c, 1 - v.cslot, size);
    back := r.View();
    forall x: nat | x <= a.mask ensures back.Contains(x) <==> a.Contains(x) {
      assert Holds(v, x, a.mask) <==> CompareAt(v.op, x, v.c, 1 - v.cslot, a.mask);
    }
  }

  lemma SizedRing(size: int)
    requires 1 <= size <= 8
    ensures RingOfBytes(MaskForSize(size))
  {
    MaskIsPow2(size);
    OddMask(size);
  }

  // ----- the rule -----

  /** One condition on the variable: a comparison with a constant, possibly negated. */
  datatype Test = Test(op: BinaryOp, val: nat, slot: nat, negated: bool)

  ghost predicate ValidTest(t: Test, size: int) {
    IsComparison(t.op) && t.val <= MaskForSize(size) && t.slot < 2
  }

  predicate Meets(t: Test, x: nat, mask: nat) {
    CompareAt(t.op, x, t.val, t.slot, mask) != t.negated
  }

  /** BOOL_AND or BOOL_OR of the two conditions. */
  predicate Melded(conj: bool, t1: Test, t2: Test, x: nat, mask: nat) {
    if conj then Meets(t1, x, mask) && Meets(t2, x, mask) else Meets(t1, x, mask) || Meets(t2, x, mask)
  }

  /** The values that satisfy one condition, by pulling `true` back through it. */
  method TestRange(t: Test, size: int) returns (r: CircleRange)
    requires 1 <= size <= 8 && ValidTest(t, size)
    ensures fresh(r) && r.View().WellFormed() && r.step == 1 && r.mask == MaskForSize(size)
    ensures var a := r.View(); forall x: nat {:trigger a.Contains(x)} {:trigger Meets(t, x, r.mask)} :: x <= r.mask ==> (a.Contains(x) <==> Meets(t, x, r.mask))
  {
    ByteMask();
    r := new CircleRange(TRUE_ARC);
    if t.negated {
      PullBackSimpleUnary(r, BoolNegate);
      assert r.View().Contains(0) && !r.View().Contains(1) by {
        assert r.View().Contains(0) <==> TRUE_ARC.Contains(1);
        assert r.View().Contains(1) <==> TRUE_ARC.Contains(0);
      }
    } else {
      assert r.View().Contains(1) && !r.View().Contains(0);
    }
    ghost var truth := r.View();
    PullBackCompare(r, t.op, t.val, t.slot, size);
    ghost var a := r.View();
    forall x: nat | x <= r.mask ensures a.Contains(x) <==> Meets(t, x, r.mask) {
      assert a.Contains(x) <==> truth.Contains(EvalBinary(t.op, x, t.val, t.slot, r.mask));
    }
  }

  /** The comparison is true exactly where the melded condition is. */
  ghost predicate DescribesMeld(op: BinaryOp, c: nat, slot: nat, conj: bool, t1: Test, t2: Test, mask: nat) {
    forall x: nat {:trigger CompareAt(op, x, c, slot, mask)} {:trigger Melded(conj, t1, t2, x, mask)} :: x <= mask ==>
      (CompareAt(op, x, c, slot, mask) <==> Melded(conj, t1, t2, x, mask))
  }

  /**
   Melds two conditions on a variable of `size` bytes.  A verdict is equivalent to
   the AND or OR of the two for every value; the rule gives up if and only if no
   single comparison with a constant is.
   */
  method RangeMeld(conj: bool, t1: Test, t2: Test, size: int) returns (v: Verdict)
    requires 1 <= size <= 8 && ValidTest(t1, size) && ValidTest(t2, size)
    ensures !v.NotPossible? ==> forall x: nat {:trigger Holds(v, x, MaskForSize(size))} :: x <= MaskForSize(size) ==>
              (Holds(v, x, MaskForSize(size)) <==> Melded(conj, t1, t2, x, MaskForSize(size)))
    ensures v.NotPossible? ==> forall op, c: nat, slot: nat :: IsComparison(op) && c <= MaskForSize(size) && slot < 2 ==>
              !DescribesMeld(op, c, slot, conj, t1, t2, MaskForSize(size))
  {
    SizedRing(size);
    var r1 := TestRange(t1, size);
    var r2 := TestRange(t2, size);
    ghost var a, b, mask := r1.View(), r2.View(), MaskForSize(size);
    var code;
    if conj {
      SameRingMeetable(a, b);
      code := r1.Intersect(r2.View());
    } else {
      code := r1.CircleUnion(r2.View());
    }
    if code == 2 {
      NotOneArc(conj, t1, t2, a, b);
      return NotPossible;
    }
    v := Translate2Op(r1.View());
    MeldedVerdict(conj, t1, t2, a, b, r1.View());
  }

  lemma MeldedVerdict(conj: bool, t1: Test, t2: Test, a: Arc, b: Arc, m: Arc)
    requires RingOfBytes(a.mask) && a.mask == b.mask == m.mask && a.step == b.step == m.step == 1 && m.WellFormed()
    requires forall x: nat {:trigger a.Contains(x)} :: x <= a.mask ==> (a.Contains(x) <==> Meets(t1, x, a.mask))
    requires forall x: nat {:trigger b.Contains(x)} :: x <= a.mask ==> (b.Contains(x) <==> Meets(t2, x, a.mask))
    requires if conj then IsMeet(m, a, b) else IsJoin(m, a, b)
    ensures var v := Translate2Op(m);
      && (!v.NotPossible? ==> forall x: nat {:trigger Holds(v, x, a.mask)} :: x <= a.mask ==>
           (Holds(v, x, a.mask) <==> Melded(conj, t1, t2, x, a.mask)))
      && (v.NotPossible? ==> forall op, c: nat, slot: nat :: IsComparison(op) && c <= a.mask && slot < 2 ==>
           !DescribesMeld(op, c, slot, conj, t1, t2, a.mask))
  {
    forall x: nat | x <= a.mask ensures m.Contains(x) <==> Melded(conj, t1, t2, x, a.mask) {
      assert a.Contains(x) <==> Meets(t1, x, a.mask);
      assert b.Contains(x) <==> Meets(t2, x, a.mask);
    }
    TranslateExact(m);
    forall op, c: nat, slot: nat | Translate2Op(m).NotPossible? && IsComparison(op) && c <= a.mask && slot < 2
      ensures !DescribesMeld(op, c, slot, conj, t1, t2, a.mask)
    {
      assert !Describes(op, c, slot, m);
    }
  }

  /** A two-piece answer is no comparison either, since every comparison is one arc. */
  lemma NotOneArc(conj: bool, t1: Test, t2: Test, a: Arc, b: Arc)
    requires RingOfBytes(a.mask) && a.mask == b.mask && a.step == b.step == 1
    requires forall x: nat {:trigger a.Contains(x)} :: x <= a.mask ==> (a.Contains(x) <==> Meets(t1, x, a.mask))
    requires forall x: nat {:trigger b.Contains(x)} :: x <= a.mask ==> (b.Contains(x) <==> Meets(t2, x, a.mask))
    requires if conj then NoArcIsMeet(a.mask, 1, a, b) else NoArcIsJoin(a.mask, 1, a, b)
    ensures forall op, c: nat, slot: nat :: IsComparison(op) && c <= a.mask && slot < 2 ==> !DescribesMeld(op, c, slot, conj, t1, t2, a.mask)
  {
    forall op, c: nat, slot: nat | IsComparison(op) && c <= a.mask && slot < 2
      ensures !DescribesMeld(op, c, slot, conj, t1, t2, a.mask)
    {
      var t := TruthArc(op, c, slot, a.mask);
      TruthArcExact(op, c, slot, a.mask);
      if conj {
        assert !IsMeet(t, a, b);
        var x: nat :| x <= a.mask && t.Contains(x) != (a.Contains(x) && b.Contains(x));
        assert CompareAt(op, x, c, slot, a.mask) != Melded(conj, t1, t2, x, a.mask);
      } else {
        assert !IsJoin(t, a, b);
        var x: nat :| x <= a.mask && t.Contains(x) != (a.Contains(x) || b.Contains(x));
        assert CompareAt(op, x, c, slot, a.mask) != Melded(conj, t1, t2, x, a.mask);
      }
    }
  }
}

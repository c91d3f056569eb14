/**
 Pulling a range of outputs back to the range of inputs
 (pkg/pcode/circlerange.go:437-692).

 `EvalUnary` and `EvalBinary` are the p-code operators on ring values.  A pull-back
 is exact when the new range holds exactly the inputs the operator maps into the
 old one.
 */
module PullBacks {
  import opened Words
  import opened CircleRanges

  datatype UnaryOp = BoolNegate | Copy | TwosComplement | Negate | ZeroExtend | SignExtend | OtherUnary

  datatype BinaryOp = Equal | NotEqual | Less | LessEqual | SLess | SLessEqual | Carry
                    | Add | Sub | Right | SRight | OtherBinary

  function AsBit(b: bool): nat { if b then 1 else 0 }

  function EvalUnary(op: UnaryOp, x: nat, inMask: nat, outMask: nat): nat {
    match op
    case BoolNegate => AsBit(x == 0)
    case TwosComplement => Fold(0 - x, outMask)
    case Negate => Fold(-1 - x, outMask)
    case SignExtend => if x > inMask / 2 then x + Natural(outMask - inMask) else x
    case _ => x
  }

  function Natural(x: int): nat { if x < 0 then 0 else x }

  /** The truth value of a comparison with operands `a` and `b`. */
  predicate Compare(op: BinaryOp, a: nat, b: nat, mask: nat) {
    match op
    case Equal => a == b
    case NotEqual => a != b
    case Less => a < b
    case LessEqual => a <= b
    case SLess => Signed(a, mask) < Signed(b, mask)
    case SLessEqual => Signed(a, mask) <= Signed(b, mask)
    case Carry => a + b > mask
    case _ => false
  }

  predicate IsComparison(op: BinaryOp) {
    op in {Equal, NotEqual, Less, LessEqual, SLess, SLessEqual, Carry}
  }

  /** The operator with the unknown `x` in `slot` and the constant `val` in the other one. */
  predicate CompareAt(op: BinaryOp, x: nat, val: nat, slot: nat, mask: nat) {
    if slot == 0 then Compare(op, x, val, mask) else Compare(op, val, x, mask)
  }

  function EvalBinary(op: BinaryOp, x: nat, val: nat, slot: nat, mask: nat): nat {
    match op
    case Add => Fold(x + val, mask)
    case Sub => if slot == 0 then Fold(x - val, mask) else Fold(val - x, mask)
    case Right => if slot == 0 then Shr(x, Pow2(val)) else Shr(val, Pow2(x))
    case SRight => if slot == 0 then Fold(Signed(x, mask) / Pow2(val), mask) else Fold(Signed(val, mask) / Pow2(x), mask)
    case _ => AsBit(CompareAt(op, x, val, slot, mask))
  }

  // ----- moving an arc around the ring -----

  /** Adding `k` to both edges is subtracting `k` from the value. */
  lemma RotateArc(a: Arc, k: int, x: nat)
    requires a.WellFormed() && !a.isempty && x <= a.mask
    ensures var c := a.(left := Fold(a.left + k, a.mask), right := Fold(a.right + k, a.mask));
      c.WellFormed() && a.step > 0 && (c.Contains(x) <==> a.Contains(Fold(x - k, a.mask)))
  {
    var c := a.(left := Fold(a.left + k, a.mask), right := Fold(a.right + k, a.mask));
    var n, y := a.mask + 1, Fold(x - k, a.mask);
    WellFormedStep(a);
    assert c.left % c.step == c.right % c.step by {
      ModOfMultiple(a.left + k, n, a.step);
      ModOfMultiple(a.right + k, n, a.step);
      ModOfSum(a.left, k, a.step);
      ModOfSum(a.right, k, a.step);
    }
    RotatedDistance(a.left, k, x, n);
    RotatedDistance(a.left, k, c.right, n);
    assert Fold(c.right - k, a.mask) == a.right by { UndoRotation(a.right, k, n); }
    ContainsIsDistance(c, x);
    ContainsIsDistance(a, y);
    assert c.left == c.right <==> a.left == a.right by {
      UndoRotation(a.left, k, n);
      UndoRotation(a.right, k, n);
    }
  }

  lemma UndoRotation(x: nat, k: int, n: nat)
    requires x < n
    ensures ((x + k) % n - k) % n == x
  {
    ModOfDifference(x + k, k, n);
    SmallMod(x, n);
  }

  lemma RotatedDistance(l: nat, k: int, x: nat, n: nat)
    requires n > 0
    ensures (x - (l + k) % n) % n == ((x - k) % n - l) % n
  {
    ModOfDifference(x, l + k, n);
    ModOfDifference(x - k, l, n);
  }

  /** Reflecting the arc in `k`, with a stride's correction, is subtracting the value from `k`. */
  lemma ReflectArc(a: Arc, k: int, x: nat)
    requires a.WellFormed() && !a.isempty && x <= a.mask
    ensures var c := a.(left := Fold(k - a.right + a.step, a.mask), right := Fold(k - a.left + a.step, a.mask));
      c.WellFormed() && a.step > 0 && (c.Contains(x) <==> a.Contains(Fold(k - x, a.mask)))
  {
    var c := a.(left := Fold(k - a.right + a.step, a.mask), right := Fold(k - a.left + a.step, a.mask));
    var n, y := a.mask + 1, Fold(k - x, a.mask);
    WellFormedStep(a);
    assert c.left % c.step == c.right % c.step by {
      ModOfMultiple(k - a.left + a.step, n, a.step);
      ModOfMultiple(k - a.right + a.step, n, a.step);
      ModOfDifference(k + a.step, a.left, a.step);
      ModOfDifference(k + a.step, a.right, a.step);
    }
    ContainsIsDistance(a, y);
    ContainsIsDistance(c, x);
    ReflectedSpan(a, c, k);
    var d, e := Fold(y - a.left, a.mask), Fold(x - c.left, a.mask);
    assert e == Fold(Span(a) - a.step - d, a.mask) by { ReflectedDistance(a, c, k, x); }
    SpanBounds(a);
    MirrorStep(d, Span(a), a.step, n);
  }

  lemma SpanBounds(a: Arc)
    requires a.WellFormed() && !a.isempty
    ensures 0 < a.step <= Span(a) <= a.mask + 1 && Span(a) % a.step == 0
  {
    WellFormedStep(a);
    ContainsIsDistance(a, a.left);
    RingDistance(a.left, a.right, a.mask + 1);
    if Span(a) < a.step {
      SmallMod(Span(a), a.step);
    }
  }

  lemma ReflectedSpan(a: Arc, c: Arc, k: int)
    requires a.left <= a.mask && a.right <= a.mask && a.mask == c.mask
    requires c.left == Fold(k - a.right + a.step, a.mask) && c.right == Fold(k - a.left + a.step, a.mask)
    ensures Span(c) == Span(a)
  {
    var n := a.mask + 1;
    SameDifference(k - a.right + a.step, k - a.left + a.step, a.left, a.right, n);
    RingDistance(c.left, c.right, n);
    RingDistance(a.left, a.right, n);
  }

  lemma SameDifference(x: int, y: int, l: int, r: int, n: nat)
    requires n > 0 && y - x == r - l
    ensures (y % n - x % n) % n == (r - l) % n
  {
    ModOfDifference(y, x, n);
  }

  lemma ReflectedDistance(a: Arc, c: Arc, k: int, x: nat)
    requires a.left <= a.mask && a.right <= a.mask && a.mask == c.mask
    requires c.left == Fold(k - a.right + a.step, a.mask)
    ensures Fold(x - c.left, a.mask) == Fold(Span(a) - a.step - Fold(Fold(k - x, a.mask) - a.left, a.mask), a.mask)
  {
    var n := a.mask + 1;
    ModOfDifference(x, k - a.right + a.step, n);
    ModOfDifference(k - x, a.left, n);
    var d := Fold(Fold(k - x, a.mask) - a.left, a.mask);
    assert d == Fold(k - x - a.left, a.mask);
    ModOfDifference(Span(a) - a.step, k - x - a.left, n);
    assert Fold(Span(a) - a.step - d, a.mask) == Fold(Span(a) - a.step - (k - x - a.left), a.mask);
    if a.left == a.right {
      ShiftByMultiple(x - (k - a.right + a.step), 1, n);
    } else {
      ModOfSum(a.right - a.left, 0 - a.step - (k - x - a.left), n);
    }
  }

  /** Counting steps from the other end of the span. */
  lemma MirrorStep(d: nat, span: nat, s: nat, n: nat)
    requires 0 < s <= span <= n && span % s == 0 && n % s == 0 && d < n
    ensures var e := (span - s - d) % n;
      (d < span && d % s == 0) <==> (e < span && e % s == 0)
  {
    var e := (span - s - d) % n;
    assert e % s == 0 <==> d % s == 0 by {
      ModOfMultiple(span - s - d, n, s);
      ShiftByMultiple(span - d, -1, s);
      EqualRemainders(span, d, s);
    }
    if d <= span - s {
      SmallMod(span - s - d, n);
    } else {
      RemainderUnique(span - s - d, n, -1, n + span - s - d);
      if d % s == 0 {
        if d < span {
          PhaseGap(d, span, s);
        } else {
          SmallMod(0, s);
          PhaseGap(d, n, s);
        }
      }
    }
  }

  // ----- exactness -----

  /** `c` holds exactly the inputs up to `top` that the operator maps into `a`. */
  ghost predicate UnaryPreimage(c: Arc, a: Arc, op: UnaryOp, inMask: nat, outMask: nat, top: nat)
    requires a.step > 0 && c.step > 0
  {
    forall x: nat {:trigger c.Contains(x)} :: x <= top ==> (c.Contains(x) <==> a.Contains(EvalUnary(op, x, inMask, outMask)))
  }

  lemma ReflectAll(a: Arc, k: int, op: UnaryOp)
    requires a.WellFormed() && !a.isempty && ((op == TwosComplement && k == 0) || (op == Negate && k == -1))
    ensures var c := a.(left := Fold(k - a.right + a.step, a.mask), right := Fold(k - a.left + a.step, a.mask));
      c.WellFormed() && a.step > 0 && UnaryPreimage(c, a, op, a.mask, a.mask, a.mask)
  {
    var c := a.(left := Fold(k - a.right + a.step, a.mask), right := Fold(k - a.left + a.step, a.mask));
    ReflectArc(a, k, 0);
    forall x: nat | x <= a.mask ensures c.Contains(x) <==> a.Contains(EvalUnary(op, x, a.mask, a.mask)) {
      ReflectArc(a, k, x);
    }
  }

  /** Flips the one truth value the range holds; both or neither stay as they are. */
  method PullBackBoolNegate(r: CircleRange)
    requires r.View().WellFormed() && !r.isempty
    modifies r
    ensures r.View().WellFormed() && r.step > 0 && old(r.step) > 0
    ensures UnaryPreimage(r.View(), old(r.View()), BoolNegate, old(r.mask), old(r.mask), 1)
  {
    WellFormedStep(r.View());
    var both := r.ConvertToBoolean();
    if !both && !r.isempty {
      r.left := 1 - r.left;
      r.right := r.left + 1;
    }
  }

  /** COPY, INT_2COMP, INT_NEGATE on any stride, and BOOL_NEGATE on boolean inputs. */
  method PullBackSimpleUnary(r: CircleRange, op: UnaryOp)
    requires r.View().WellFormed() && op in {BoolNegate, Copy, TwosComplement, Negate}
    modifies r
    ensures r.View().WellFormed() && r.step > 0 && old(r.step) > 0
    ensures op != BoolNegate ==> r.mask == old(r.mask) && r.step == old(r.step)
    ensures UnaryPreimage(r.View(), old(r.View()), op, old(r.mask), old(r.mask), if op == BoolNegate then 1 else old(r.mask))
  {
    WellFormedStep(r.View());
    if r.isempty {
      return;
    }
    match op {
      case BoolNegate => PullBackBoolNegate(r);
      case TwosComplement =>
        ReflectAll(r.View(), 0, op);
        var val := Fold(0 - r.left + r.step, r.mask);
        r.left := Fold(0 - r.right + r.step, r.mask);
        r.right := val;
      case Negate =>
        ReflectAll(r.View(), -1, op);
        var val := Fold(-1 - r.left + r.step, r.mask);
        r.left := Fold(-1 - r.right + r.step, r.mask);
        r.right := val;
      case _ =>
    }
  }

  // ----- comparisons -----

  /** The inputs for which the comparison is true, case by case as the program lists them. */
  function TruthArc(op: BinaryOp, val: nat, slot: nat, mask: nat): Arc {
    var (empty, l, r) :=
      match op
      case Equal => (false, val, Fold(val + 1, mask))
      case NotEqual => (false, Fold(val + 1, mask), val)
      case Less =>
        if slot == 0 then (val == 0, 0, val) else (val == mask, Fold(val + 1, mask), 0)
      case LessEqual =>
        if slot == 0 then (false, 0, Fold(val + 1, mask)) else (false, val, 0)
      case SLess =>
        if slot == 0 then (val == mask / 2 + 1, mask / 2 + 1, val) else (val == mask / 2, Fold(val + 1, mask), mask / 2 + 1)
      case SLessEqual =>
        if slot == 0 then (false, mask / 2 + 1, Fold(val + 1, mask)) else (false, val, mask / 2 + 1)
      case _ => (val == 0, Fold(mask - val + 1, mask), 0);
    Arc(l, r, mask, 1, empty)
  }

  lemma TruthArcExact(op: BinaryOp, val: nat, slot: nat, mask: nat)
    requires IsComparison(op) && slot < 2 && val <= mask && mask % 2 == 1 && IsPow2(mask + 1)
    ensures var t := TruthArc(op, val, slot, mask);
      && t.WellFormed()
      && forall x: nat {:trigger t.Contains(x)} {:trigger CompareAt(op, x, val, slot, mask)} :: x <= mask ==>
          (t.Contains(x) <==> CompareAt(op, x, val, slot, mask))
  {
    Successor(val, mask);
    ByteMask();
  }

  /**
   Every equality and ordering comparison, and INT_CARRY, with the constant on
   either side.  The result is exact if and only if the range does not hold both
   truth values: from both, it keeps [0,2) in the new ring, which is never all of it.
   */
  method PullBackCompare(r: CircleRange, op: BinaryOp, val: nat, slot: nat, inSize: int)
    requires r.View().WellFormed() && !r.isempty && IsComparison(op) && slot < 2 && 1 <= inSize <= 8 && val <= MaskForSize(inSize)
    modifies r
    ensures r.View().WellFormed() && r.step == 1 && r.mask == MaskForSize(inSize) && old(r.step) > 0
    ensures BinaryPreimage(r.View(), old(r.View()), op, val, slot, r.mask) <==>
            !(old(r.View()).Contains(0) && old(r.View()).Contains(1))
  {
    ghost var a := r.View();
    WellFormedStep(a);
    MaskIsPow2(inSize);
    OddMask(inSize);
    var both := r.ConvertToBoolean();
    r.mask := MaskForSize(inSize);
    assert IsPow2(r.mask + 1);
    if both {
      assert !r.View().Contains(2) && a.Contains(EvalBinary(op, 2, val, slot, r.mask));
      return;
    }
    var yescomplement := r.left == 0;
    var truth := TruthArc(op, val, slot, r.mask);
    TruthArcExact(op, val, slot, r.mask);
    ghost var none := r.isempty;
    r.left, r.right, r.isempty := truth.left, truth.right, r.isempty || truth.isempty;
    ghost var t := r.View();
    assert forall x: nat {:trigger t.Contains(x)} :: x <= r.mask ==> (t.Contains(x) <==> !none && CompareAt(op, x, val, slot, r.mask));
    if yescomplement {
      r.Complement();
    }
    ghost var c := r.View();
    assert forall x: nat {:trigger c.Contains(x)} :: x <= r.mask ==> (c.Contains(x) <==> a.Contains(AsBit(CompareAt(op, x, val, slot, r.mask))));
  }

  lemma OddMask(size: int)
    requires 1 <= size <= 8
    ensures MaskForSize(size) % 2 == 1
  {
    MaskIsPow2(size);
    assert Pow2(8 * size) == 2 * Pow2(8 * size - 1);
  }

  lemma Successor(x: nat, mask: nat)
    requires x <= mask
    ensures Fold(x + 1, mask) == if x == mask then 0 else x + 1
    ensures Fold(mask - x + 1, mask) == if x == 0 then 0 else mask - x + 1
  {
    if x == mask {
      RemainderUnique(x + 1, mask + 1, 1, 0);
    } else {
      SmallMod(x + 1, mask + 1);
    }
    if x == 0 {
      RemainderUnique(mask + 1, mask + 1, 1, 0);
    } else {
      SmallMod(mask - x + 1, mask + 1);
    }
  }

  /** `c` holds exactly the inputs that the operator maps into `a`. */
  ghost predicate BinaryPreimage(c: Arc, a: Arc, op: BinaryOp, val: nat, slot: nat, mask: nat)
    requires a.step > 0 && c.step > 0
  {
    forall x: nat {:trigger c.Contains(x)} :: x <= mask ==> (c.Contains(x) <==> a.Contains(EvalBinary(op, x, val, slot, mask)))
  }

  // ----- addition and subtraction -----

  /** INT_ADD in either slot and INT_SUB in slot 0 rotate the range, on any stride. */
  method PullBackSum(r: CircleRange, op: BinaryOp, val: nat)
    requires r.View().WellFormed() && !r.isempty && op in {Add, Sub}
    modifies r
    ensures r.View().WellFormed() && r.mask == old(r.mask) && r.step == old(r.step) > 0
    ensures BinaryPreimage(r.View(), old(r.View()), op, val, 0, r.mask)
  {
    ghost var a := r.View();
    WellFormedStep(a);
    ghost var k: int := if op == Add then 0 - val else val;
    if op == Add {
      r.left := Fold(r.left - val, r.mask);
      r.right := Fold(r.right - val, r.mask);
    } else {
      r.left := Fold(r.left + val, r.mask);
      r.right := Fold(r.right + val, r.mask);
    }
    RotateArc(a, k, 0);
    ghost var c := r.View();
    forall x: nat | x <= a.mask ensures c.Contains(x) <==> a.Contains(EvalBinary(op, x, val, 0, a.mask)) {
      RotateArc(a, k, x);
    }
  }

  /**
   INT_SUB with the unknown in slot 1 keeps the edges in the order of a
   rotation although the map is a reflection, so it is exact only for the whole
   phase or for one of two values.
   */
  method PullBackMinuend(r: CircleRange, val: nat)
    requires r.View().WellFormed() && !r.isempty
    modifies r
    ensures r.View().WellFormed() && r.mask == old(r.mask) && r.step == old(r.step) > 0
    ensures BinaryPreimage(r.View(), old(r.View()), Sub, val, 1, r.mask) <==>
            old(r.left) == old(r.right) || (IsSingle(old(r.View())) && r.mask + 1 == 2 * r.step)
  {
    ghost var a := r.View();
    WellFormedStep(a);
    SwappedEdges(a, val);
    r.left := Fold(val - r.left, r.mask);
    r.right := Fold(val - r.right, r.mask);
  }

  lemma SwappedEdges(a: Arc, val: int)
    requires a.WellFormed() && !a.isempty && val >= 0
    ensures var c := a.(left := Fold(val - a.left, a.mask), right := Fold(val - a.right, a.mask));
      && a.step > 0 && c.WellFormed()
      && (BinaryPreimage(c, a, Sub, val, 1, a.mask) <==> a.left == a.right || (IsSingle(a) && a.mask + 1 == 2 * a.step))
  {
    var n := a.mask + 1;
    var c := a.(left := Fold(val - a.left, a.mask), right := Fold(val - a.right, a.mask));
    WellFormedStep(a);
    assert c.WellFormed() by {
      ModOfMultiple(val - a.left, n, a.step);
      ModOfMultiple(val - a.right, n, a.step);
      ModOfDifference(val, a.left, a.step);
      ModOfDifference(val, a.right, a.step);
    }
    SpanBounds(a);
    SwappedSpan(a, c, val);
    SpanOfSingle(a);
    if a.left == a.right || (IsSingle(a) && n == 2 * a.step) {
      forall x: nat | x <= a.mask ensures c.Contains(x) <==> a.Contains(EvalBinary(Sub, x, val, 1, a.mask)) {
        SwapHarmless(a, c, val, x);
      }
    } else {
      var w := SwapHarmful(a, c, val);
      assert c.Contains(w) != a.Contains(EvalBinary(Sub, w, val, 1, a.mask));
    }
  }

  lemma SwapHarmless(a: Arc, c: Arc, val: int, x: nat)
    requires a.WellFormed() && !a.isempty && a.step > 0 && val >= 0 && x <= a.mask
    requires c == a.(left := Fold(val - a.left, a.mask), right := Fold(val - a.right, a.mask))
    requires a.left == a.right || (IsSingle(a) && a.mask + 1 == 2 * a.step)
    ensures c.Contains(x) <==> a.Contains(Fold(val - x, a.mask))
  {
    var t := a.(left := Fold(val - a.right + a.step, a.mask), right := Fold(val - a.left + a.step, a.mask));
    ReflectArc(a, val, x);
    if a.left == a.right {
      WellFormedStep(a);
      ModOfMultiple(val - a.left, a.mask + 1, a.step);
      ModOfMultiple(val - a.left + a.step, a.mask + 1, a.step);
      ShiftByMultiple(val - a.left, 1, a.step);
    } else {
      HalfRing(a, val);
      assert t == c;
    }
  }

  lemma SwapHarmful(a: Arc, c: Arc, val: int) returns (w: nat)
    requires a.WellFormed() && c.WellFormed() && !a.isempty && a.step > 0 && val >= 0
    requires c == a.(left := Fold(val - a.left, a.mask), right := Fold(val - a.right, a.mask))
    requires a.left != a.right && a.step <= Span(a) && Span(c) == a.mask + 1 - Span(a)
    requires Span(a) == a.step ==> a.mask + 1 != 2 * a.step
    ensures w <= a.mask && c.Contains(w) != a.Contains(Fold(val - w, a.mask))
  {
    var n := a.mask + 1;
    MultipleHasNoRemainder(1, a.step);
    RingDistance(a.left, a.right, n);
    var s: int := if Span(a) > a.step then a.step else 0 - a.step;
    w := Fold(val - a.left - s, a.mask);
    StepBack(val, a.left, s, n);
    StepForth(val, a.left, s, n);
    ContainsIsDistance(c, w);
    ContainsIsDistance(a, Fold(val - w, a.mask));
    assert Span(a) == a.step ==> n >= 2 * a.step by {
      WellFormedStep(a);
      if Span(a) == a.step {
        PhaseGap(a.step, n, a.step);
      }
    }
  }

  lemma SpanOfSingle(a: Arc)
    requires a.WellFormed() && !a.isempty && a.step > 0
    ensures a.left != a.right ==> (IsSingle(a) <==> Span(a) == a.step)
  {
    var n := a.mask + 1;
    RingDistance(a.left, a.right, n);
    if a.left + a.step > a.mask {
      RemainderUnique(a.left + a.step, n, 1, a.left + a.step - n);
    } else {
      SmallMod(a.left + a.step, n);
    }
  }

  lemma SwappedSpan(a: Arc, c: Arc, val: int)
    requires a.left <= a.mask && a.right <= a.mask && c.mask == a.mask
    requires c.left == Fold(val - a.left, a.mask) && c.right == Fold(val - a.right, a.mask)
    ensures a.left != a.right ==> Span(c) == a.mask + 1 - Span(a)
  {
    var n := a.mask + 1;
    SameDifference(val - a.left, val - a.right, a.right, a.left, n);
    RingDistance(a.left, a.right, n);
    RingDistance(a.right, a.left, n);
    RingDistance(c.left, c.right, n);
  }

  lemma HalfRing(a: Arc, val: int)
    requires a.WellFormed() && a.step > 0 && IsSingle(a) && a.mask + 1 == 2 * a.step
    ensures Fold(val - a.right + a.step, a.mask) == Fold(val - a.left, a.mask)
    ensures Fold(val - a.left + a.step, a.mask) == Fold(val - a.right, a.mask)
  {
    var n := a.mask + 1;
    ModOfDifference(val + a.step, a.left + a.step, n);
    ModOfDifference(val, a.left + a.step, n);
    ShiftByMultiple(val - a.left - a.step, 1, n);
  }

  /** The distance of `val - l - s` from `val - l`. */
  lemma StepBack(val: int, l: nat, s: int, n: nat)
    requires 0 - n < s < n && s != 0
    ensures ((val - l - s) % n - (val - l) % n) % n == if s > 0 then n - s else -s
  {
    SameDifference(val - l, val - l - s, s, 0, n);
    if s > 0 {
      RemainderUnique(-s, n, -1, n - s);
    } else {
      SmallMod(-s, n);
    }
  }

  /** Subtracting `val - l - s` from `val` lands `s` above `l`. */
  lemma StepForth(val: int, l: nat, s: int, n: nat)
    requires 0 - n < s < n && s != 0
    ensures ((val - (val - l - s) % n) % n - l) % n == if s > 0 then s else n + s
  {
    ModOfDifference(val, val - l - s, n);
    assert (val - (val - l - s) % n) % n == (l + s) % n;
    SameDifferenceLeft(l + s, l, n);
    if s > 0 {
      SmallMod(s, n);
    } else {
      RemainderUnique(s, n, -1, n + s);
    }
  }

  lemma SameDifferenceLeft(x: int, y: int, n: nat)
    requires n > 0
    ensures (x % n - y) % n == (x - y) % n
  {
    ModOfDifference(x, y, n);
  }

  // ----- extensions -----

  lemma NestedMasks(inSize: int, outSize: int, i: nat, o: nat)
    requires 1 <= inSize < outSize <= 8 && i == MaskForSize(inSize) && o == MaskForSize(outSize)
    ensures IsPow2(i + 1) && IsPow2(o + 1) && 256 <= i + 1 && 256 * (i + 1) <= o + 1
    ensures (o - i) % (i + 1) == 0 && i % 2 == 1
  {
    MaskIsPow2(inSize);
    MaskIsPow2(outSize);
    OddMask(inSize);
    MaskRatio(inSize, outSize);
    assert IsPow2(i + 1) && IsPow2(o + 1);
    RingWithinRing(i + 1, o + 1);
  }

  lemma RingWithinRing(i: nat, o: nat)
    requires IsPow2(i) && IsPow2(o) && 0 < i <= o
    ensures o % i == 0 && (o - i) % i == 0
  {
    PowersDivide(i, o);
    ShiftByMultiple(o, -1, i);
  }

  lemma MaskRatio(inSize: int, outSize: int)
    requires 1 <= inSize < outSize <= 8
    ensures 256 * Pow2(8 * inSize) <= Pow2(8 * outSize)
  {
    Pow2Add(8, 8 * inSize);
    Pow2Monotone(8 + 8 * inSize, 8 * outSize);
    assert Pow2(8) == 256;
  }

  /** INT_ZEXT: the outputs are cut down to the input's ring; the stride must fit in it. */
  method PullBackZeroExtend(r: CircleRange, inSize: int, outSize: int) returns (ok: bool)
    requires r.View().WellFormed() && !r.isempty && 1 <= inSize < outSize <= 8
    requires r.mask == MaskForSize(outSize) && r.step <= MaskForSize(inSize) + 1
    modifies r
    ensures r.step > 0 && old(r.step) > 0
    ensures ok ==> r.View().WellFormed() && r.mask == MaskForSize(inSize)
    ensures ok ==> UnaryPreimage(r.View(), old(r.View()), ZeroExtend, MaskForSize(inSize), old(r.mask), MaskForSize(inSize))
    ensures !ok ==> NoArcUpTo(old(r.View()), MaskForSize(inSize))
  {
    ghost var a := r.View();
    WellFormedStep(a);
    var val := MaskForSize(inSize);
    NestedMasks(inSize, outSize, val, r.mask);
    var rem := r.left % r.step;
    var zext := Arc(rem, val + 1 + rem, r.mask, r.step, false);
    ZextWellFormed(zext, val, rem);
    var code := r.Intersect(zext);
    if code != 0 {
      NoArcBelow(a, zext, val);
      return false;
    }
    FoldedMeet(r.View(), zext, a, val);
    r.left := Fold(r.left, val);
    r.right := Fold(r.right, val);
    r.mask := val;
    return true;
  }

  lemma FoldedMeet(m: Arc, z: Arc, a: Arc, val: nat)
    requires m.WellFormed() && !a.isempty && m.mask == z.mask == a.mask && m.step == z.step == a.step > 0
    requires z.left == z.left % z.step == a.left % a.step && z.right == val + 1 + z.left <= z.mask && 2 * (val + 1) <= m.mask && m.step <= val + 1
    requires IsPow2(val + 1) && IsMeet(m, a, z)
    requires forall v: nat {:trigger z.Contains(v)} :: v <= z.mask ==> (z.Contains(v) <==> v <= val && v % z.step == z.left)
    ensures var c := Arc(Fold(m.left, val), Fold(m.right, val), val, m.step, m.isempty);
      c.WellFormed() && UnaryPreimage(c, a, ZeroExtend, val, a.mask, val)
  {
    if m.isempty {
      EmptyBelow(m, z, a, val);
    } else {
      PowersDivide(m.step, val + 1);
      WellFormedStep(m);
      CutToRing(m, z, a, val);
    }
  }

  /** The values of `a` up to `val` are not one arc of the stride of `a`. */
  ghost predicate NoArcUpTo(a: Arc, val: nat)
    requires a.step > 0
  {
    forall c: Arc :: c.WellFormed() && c.mask == a.mask && c.step == a.step ==>
      exists v: nat :: v <= a.mask && c.Contains(v) != (a.Contains(v) && v <= val)
  }

  lemma NoArcBelow(a: Arc, z: Arc, val: nat)
    requires a.step == z.step > 0 && a.mask == z.mask && !a.isempty && z.left == a.left % a.step
    requires NoArcIsMeet(a.mask, a.step, a, z)
    requires forall v: nat {:trigger z.Contains(v)} :: v <= z.mask ==> (z.Contains(v) <==> v <= val && v % z.step == z.left)
    ensures NoArcUpTo(a, val)
  {
    forall c: Arc | c.WellFormed() && c.mask == a.mask && c.step == a.step
      ensures exists v: nat :: v <= a.mask && c.Contains(v) != (a.Contains(v) && v <= val)
    {
      assert !IsMeet(c, a, z);
      var v: nat :| v <= a.mask && c.Contains(v) != (a.Contains(v) && z.Contains(v));
      assert z.Contains(v) <==> v <= val && v % z.step == z.left;
    }
  }

  lemma EmptyBelow(m: Arc, z: Arc, a: Arc, val: nat)
    requires m.isempty && m.mask == z.mask == a.mask && m.step == z.step == a.step > 0 && !a.isempty && z.left == a.left % a.step && val <= a.mask
    requires IsMeet(m, a, z)
    requires forall v: nat {:trigger z.Contains(v)} :: v <= z.mask ==> (z.Contains(v) <==> v <= val && v % z.step == z.left)
    ensures forall x: nat {:trigger a.Contains(x)} :: x <= val ==> !a.Contains(x)
  {
    forall x: nat | x <= val ensures !a.Contains(x) {
      assert !m.Contains(x);
      assert z.Contains(x) <==> x % z.step == z.left;
    }
  }

  lemma ZextWellFormed(z: Arc, val: nat, rem: nat)
    requires IsPow2(z.mask + 1) && IsPow2(z.step) && IsPow2(val + 1) && z.step <= val + 1 && 2 * (val + 1) <= z.mask
    requires 0 <= rem < z.step && z.left == rem && z.right == val + 1 + rem && !z.isempty
    ensures z.WellFormed() && z.left % z.step == rem
    ensures forall v: nat {:trigger z.Contains(v)} :: v <= z.mask ==> (z.Contains(v) <==> v <= val && v % z.step == rem)
  {
    SmallMod(rem, z.step);
    PowersDivide(z.step, val + 1);
    ModOfSum(val + 1, rem, z.step);
    ZextRange(z, val, rem);
  }

  lemma ZextRange(z: Arc, val: nat, rem: nat)
    requires z.step > 0 && rem < z.step && (val + 1) % z.step == 0 && z.left == rem && z.right == val + 1 + rem <= z.mask && !z.isempty
    ensures forall v: nat {:trigger z.Contains(v)} :: v <= z.mask ==> (z.Contains(v) <==> v <= val && v % z.step == rem)
  {
    SmallMod(rem, z.step);
    SmallestInPhase(z.step);
    ModOfSum(val + 1, rem, z.step);
    forall v: nat | v <= z.mask ensures z.Contains(v) <==> v <= val && v % z.step == rem {
      if val < v < z.right && v % z.step == rem {
        PhaseGap(v, z.right, z.step);
      }
    }
  }

  /** A nonempty arc inside `[rem, val + 1 + rem)` keeps its values when its edges are folded to `val`. */
  lemma CutToRing(m: Arc, z: Arc, a: Arc, val: nat)
    requires m.WellFormed() && !m.isempty && m.mask == z.mask == a.mask && m.step == z.step == a.step > 0
    requires z.left == z.left % z.step && z.right == val + 1 + z.left <= z.mask && 2 * (val + 1) <= m.mask && m.step <= val + 1
    requires IsPow2(val + 1) && (val + 1) % m.step == 0 && (m.mask + 1) % m.step == 0
    requires IsMeet(m, a, z)
    requires forall v: nat {:trigger z.Contains(v)} :: v <= z.mask ==> (z.Contains(v) <==> v <= val && v % z.step == z.left)
    ensures var c := Arc(Fold(m.left, val), Fold(m.right, val), val, m.step, false);
      c.WellFormed() && forall x: nat {:trigger c.Contains(x)} :: x <= val ==> (c.Contains(x) <==> a.Contains(x))
  {
    var rem, s := z.left, m.step;
    assert m.Contains(m.left);
    assert m.left <= val && m.left % s == rem && a.left % s == rem by { assert a.Contains(m.left) && z.Contains(m.left); }
    CutEdges(m, z, a, val);
    CutRightEdge(m.right, val, rem, s);
    SmallMod(m.left, val + 1);
    var c := Arc(Fold(m.left, val), Fold(m.right, val), val, s, false);
    SmallMod(rem, s);
    SmallestInPhase(s);
    forall x: nat | x <= val ensures c.Contains(x) <==> a.Contains(x) {
      assert m.Contains(x) <==> a.Contains(x) && z.Contains(x);
      assert z.Contains(x) <==> x % s == rem;
    }
  }

  lemma CutEdges(m: Arc, z: Arc, a: Arc, val: nat)
    requires m.WellFormed() && !m.isempty && m.mask == z.mask == a.mask && m.step == z.step == a.step > 0
    requires z.left < z.step && val + 1 + z.left <= z.mask && 2 * (val + 1) <= m.mask && m.step <= val + 1
    requires (val + 1) % m.step == 0 && (m.mask + 1) % m.step == 0 && m.left % m.step == z.left && m.left <= val
    requires IsMeet(m, a, z)
    requires forall v: nat {:trigger z.Contains(v)} :: v <= z.mask ==> (z.Contains(v) <==> v <= val && v % z.step == z.left)
    ensures m.left < m.right <= val + 1 + z.left
  {
    var rem: int, s: int := z.left, m.step;
    var top := m.mask + 1 - s + rem;
    assert top % s == rem && (val + 1 + rem) % s == rem by {
      SmallMod(rem, s);
      ModOfSum(m.mask + 1, rem - s, s);
      ShiftByMultiple(rem, -1, s);
      ModOfSum(val + 1, rem, s);
    }
    assert !z.Contains(top) && !m.Contains(top);
    assert !z.Contains(val + 1 + rem) && !m.Contains(val + 1 + rem);
  }

  lemma CutRightEdge(r: nat, val: nat, rem: nat, s: nat)
    requires s > 0 && rem < s && (val + 1) % s == 0 && r % s == rem && r <= val + 1 + rem && s <= val + 1
    ensures Fold(r, val) == if r == val + 1 + rem then rem else r
    ensures r != val + 1 + rem ==> r <= val
  {
    if r == val + 1 + rem {
      RemainderUnique(r, val + 1, 1, rem);
    } else {
      if r > val {
        ModOfSum(val + 1, rem, s);
        SmallMod(rem, s);
        PhaseGap(r, val + 1 + rem, s);
      }
      SmallMod(r, val + 1);
    }
  }

  /** The value one phase above the bare sign bit: the first of the range's phase that is no sign extension. */
  function BareSign(a: Arc, half: nat): nat
    requires a.step > 0
  {
    half + a.left % a.step
  }

  /**
   INT_SEXT.  The phase of the excluded range is computed with `&` instead of `%`, so
   the range starts a step too high when the left edge is an odd number of steps; a
   successful pull-back is exact if and only if the range does not hold the bare sign
   bit, raised to its phase.
   */
  method PullBackSignExtend(r: CircleRange, inSize: int, outSize: int) returns (ok: bool)
    requires r.View().WellFormed() && !r.isempty && 1 <= inSize < outSize <= 8
    requires r.mask == MaskForSize(outSize) && r.step < (MaskForSize(inSize) + 1) / 2
    modifies r
    ensures r.step == old(r.step) > 0
    ensures ok ==> r.View().WellFormed() && r.mask == MaskForSize(inSize)
    ensures ok ==> (UnaryPreimage(r.View(), old(r.View()), SignExtend, MaskForSize(inSize), old(r.mask), MaskForSize(inSize)) <==>
                    !old(r.View()).Contains(BareSign(old(r.View()), (MaskForSize(inSize) + 1) / 2)))
    ensures ok && (old(r.left) / old(r.step)) % 2 == 0 ==>
              !old(r.View()).Contains(BareSign(old(r.View()), (MaskForSize(inSize) + 1) / 2))
  {
    var val := MaskForSize(inSize);
    NestedMasks(inSize, outSize, val, r.mask);
    ok := SignExtendRing(r, val);
  }

  /** The same on the ring of `val` inside the ring of `r`. */
  method SignExtendRing(r: CircleRange, val: nat) returns (ok: bool)
    requires r.View().WellFormed() && !r.isempty && r.step < (val + 1) / 2
    requires IsPow2(val + 1) && 256 <= val + 1 && 256 * (val + 1) <= r.mask + 1 && (r.mask - val) % (val + 1) == 0 && val % 2 == 1
    modifies r
    ensures r.step == old(r.step) > 0
    ensures ok ==> r.View().WellFormed() && r.mask == val
    ensures ok ==> (UnaryPreimage(r.View(), old(r.View()), SignExtend, val, old(r.mask), val) <==>
                    !old(r.View()).Contains(BareSign(old(r.View()), (val + 1) / 2)))
    ensures ok && (old(r.left) / old(r.step)) % 2 == 0 ==> !old(r.View()).Contains(BareSign(old(r.View()), (val + 1) / 2))
  {
    WellFormedStep(r.View());
    var rem := if (r.left / r.step) % 2 == 1 then r.step else 0;
    var lo := (val + 1) / 2 + rem;
    var sextrange := Arc(lo, lo + (r.mask - val), r.mask, r.step, false);
    SextWellFormed(r.View(), sextrange, val, rem);
    var excluded := new CircleRange(sextrange);
    var code := excluded.Intersect(r.View());
    if code != 0 || !excluded.isempty {
      return false;
    }
    SignFold(r.View(), sextrange, val, rem);
    r.left := Fold(r.left, val);
    r.right := Fold(r.right, val);
    r.mask := val;
    return true;
  }

  lemma SignBounds(val: nat, mask: nat, h: nat, k: int)
    requires val % 2 == 1 && 256 <= val + 1 && 256 * (val + 1) <= mask + 1 && h == (val + 1) / 2 && k == mask - val
    ensures val + 1 == 2 * h && 1 < h && k >= 2 * h
  {
  }

  /** The step divides the input ring, and so the gap between the rings. */
  lemma StepDividesGap(s: nat, val: nat, k: nat)
    requires IsPow2(s) && IsPow2(val + 1) && 0 < s <= val + 1 && k % (val + 1) == 0
    ensures (val + 1) % s == 0 && k % s == 0
  {
    PowersDivide(s, val + 1);
    ModOfMultiple(k, val + 1, s);
    SmallMod(0, s);
  }

  lemma SextWellFormed(a: Arc, z: Arc, val: nat, rem: nat)
    requires a.WellFormed() && !a.isempty && a.step < (val + 1) / 2 && 0 < a.step && rem <= a.step
    requires IsPow2(val + 1) && 256 <= val + 1 && 256 * (val + 1) <= a.mask + 1 && (a.mask - val) % (val + 1) == 0 && val % 2 == 1
    requires z == Arc((val + 1) / 2 + rem, (val + 1) / 2 + rem + (a.mask - val), a.mask, a.step, false)
    ensures z.WellFormed()
  {
    var h, k := (val + 1) / 2, a.mask - val;
    SignBounds(val, a.mask, h, k);
    StepDividesGap(a.step, val, k);
    ModOfSum(h + rem, k, a.step);
    assert (h + rem + k) % a.step == (h + rem) % a.step;
  }

  lemma SignFold(a: Arc, z: Arc, val: nat, rem: nat)
    requires a.WellFormed() && !a.isempty && 0 < a.step < (val + 1) / 2 && (rem == a.step || rem == 0)
    requires IsPow2(val + 1) && 256 <= val + 1 && 256 * (val + 1) <= a.mask + 1 && (a.mask - val) % (val + 1) == 0 && val % 2 == 1
    requires z.left == (val + 1) / 2 + rem && z.right == z.left + (a.mask - val) && Apart(z, a)
    ensures var c := a.(left := Fold(a.left, val), right := Fold(a.right, val), mask := val);
      c.WellFormed() && (UnaryPreimage(c, a, SignExtend, val, a.mask, val) <==> !a.Contains(BareSign(a, (val + 1) / 2)))
    ensures rem == 0 ==> !a.Contains(BareSign(a, (val + 1) / 2))
  {
    var h, k := (val + 1) / 2, a.mask - val;
    var c := a.(left := Fold(a.left, val), right := Fold(a.right, val), mask := val);
    SignBounds(val, a.mask, h, k);
    StepDividesGap(a.step, val, k);
    FoldedIsArc(a, c, val);
    FoldEdge(a.left, k, val);
    FoldEdge(a.right, k, val);
    SignGap(a, z, h + rem, k);
    SignFoldBody(a, c, val, rem, h, k);
  }

  lemma SignGap(a: Arc, z: Arc, lo: nat, k: nat)
    requires z.left == lo && z.right == lo + k && k > 0 && Apart(z, a)
    ensures forall v: nat {:trigger Between(a.left, a.right, v)} :: lo <= v < lo + k ==> !Between(a.left, a.right, v)
  {
    forall v: nat | lo <= v < lo + k ensures !Between(a.left, a.right, v) {
      assert Between(z.left, z.right, v);
    }
  }

  lemma FoldedIsArc(a: Arc, c: Arc, val: nat)
    requires a.WellFormed() && !a.isempty && 0 < a.step <= val + 1 && IsPow2(val + 1) && (val + 1) % a.step == 0
    requires c == a.(left := Fold(a.left, val), right := Fold(a.right, val), mask := val)
    ensures c.WellFormed() && c.left % c.step == a.left % a.step
  {
    ModOfMultiple(a.left, val + 1, a.step);
    ModOfMultiple(a.right, val + 1, a.step);
  }

  lemma SignFoldBody(a: Arc, c: Arc, val: nat, rem: nat, h: nat, k: nat)
    requires a.step == c.step > 0 && !a.isempty && !c.isempty && a.mask == val + k && val + 1 == 2 * h && k >= 2 * h
    requires a.step < h && (rem == a.step || rem == 0) && k % a.step == 0 && (2 * h) % a.step == 0 && IsPow2(a.step) && IsPow2(2 * h)
    requires a.left <= a.mask && a.right <= a.mask && c.left % c.step == a.left % a.step
    requires (a.left < 2 * h ==> c.left == a.left) && (k <= a.left ==> c.left == a.left - k)
    requires (a.right < 2 * h ==> c.right == a.right) && (k <= a.right ==> c.right == a.right - k)
    requires forall v: nat {:trigger Between(a.left, a.right, v)} :: h + rem <= v < h + rem + k ==> !Between(a.left, a.right, v)
    ensures UnaryPreimage(c, a, SignExtend, val, a.mask, val) <==> !a.Contains(BareSign(a, h))
    ensures rem == 0 ==> !a.Contains(BareSign(a, h))
  {
    var bare := BareSign(a, h);
    HalfPhase(a.step, h, a.left % a.step);
    SignFoldAt(a.left, a.right, h, h + rem, k, c.left, c.right, bare);
    assert rem == 0 ==> !Between(a.left, a.right, bare);
    if a.Contains(bare) {
      assert EvalUnary(SignExtend, bare, val, a.mask) == bare + k;
      assert !Between(a.left, a.right, bare + k);
      assert c.Contains(bare) && !a.Contains(bare + k);
    } else {
      forall x: nat | x <= val ensures c.Contains(x) <==> a.Contains(EvalUnary(SignExtend, x, val, a.mask)) {
        SignFoldPoint(a, c, val, rem, h, k, x);
      }
    }
  }

  /** Half of a ring of whole steps is whole steps, so a phase above it stays below the next step. */
  lemma HalfPhase(s: nat, h: nat, phase: nat)
    requires IsPow2(s) && IsPow2(2 * h) && 0 < s < h && phase < s
    ensures h % s == 0 && (h + phase) % s == phase && h + phase < 2 * h
  {
    HalfIsPow2(h);
    PowersDivide(s, h);
    ModOfSum(h, phase, s);
    SmallMod(phase, s);
  }

  lemma HalfIsPow2(h: nat)
    requires IsPow2(2 * h) && h > 0
    ensures IsPow2(h)
  {
    var j: nat :| Pow2(j) == 2 * h;
    assert j > 0;
    assert Pow2(j - 1) == h;
  }

  lemma SignFoldPoint(a: Arc, c: Arc, val: nat, rem: nat, h: nat, k: nat, x: nat)
    requires a.step == c.step > 0 && !a.isempty && !c.isempty && a.mask == val + k && val + 1 == 2 * h && k >= 2 * h && x <= val
    requires a.step < h && (rem == a.step || rem == 0) && k % a.step == 0 && h % a.step == 0
    requires a.left <= a.mask && a.right <= a.mask && c.left % c.step == a.left % a.step
    requires (a.left < 2 * h ==> c.left == a.left) && (k <= a.left ==> c.left == a.left - k)
    requires (a.right < 2 * h ==> c.right == a.right) && (k <= a.right ==> c.right == a.right - k)
    requires forall v: nat {:trigger Between(a.left, a.right, v)} :: h + rem <= v < h + rem + k ==> !Between(a.left, a.right, v)
    requires !a.Contains(BareSign(a, h))
    ensures c.Contains(x) <==> a.Contains(EvalUnary(SignExtend, x, val, a.mask))
  {
    SignFoldAt(a.left, a.right, h, h + rem, k, c.left, c.right, x);
    ModOfSum(x, k, a.step);
    assert (x + k) % a.step == x % a.step;
    if h <= x < h + rem && x % a.step == a.left % a.step {
      OnePhaseAbove(h, a.step, x);
      assert !Between(a.left, a.right, x + k);
    }
  }

  /** In a step there is one value of each phase. */
  lemma OnePhaseAbove(h: nat, s: nat, x: nat)
    requires s > 0 && h % s == 0 && h <= x < h + s
    ensures x == h + x % s
  {
    ModOfSum(h, x - h, s);
    SmallMod(x - h, s);
  }

  /** Folding the two ends of the big ring together, away from a gap that starts at `cut`. */
  lemma SignFoldAt(l: nat, r: nat, h: nat, cut: nat, k: nat, l': nat, r': nat, x: nat)
    requires 0 < cut < 2 * h && l < 2 * h + k && r < 2 * h + k && x < 2 * h && k >= 2 * h
    requires forall v: nat {:trigger Between(l, r, v)} :: cut <= v < cut + k ==> !Between(l, r, v)
    requires (l < 2 * h ==> l' == l) && (k <= l ==> l' == l - k)
    requires (r < 2 * h ==> r' == r) && (k <= r ==> r' == r - k)
    ensures Between(l', r', x) <==> Between(l, r, if x >= cut then x + k else x)
  {
    assert !Between(l, r, cut) && !Between(l, r, cut + k - 1);
    assert Between(l, r, l);
    assert cut < r <= cut + k ==> !Between(l, r, r - 1);
  }

  lemma SameRingMeetable(a: Arc, b: Arc)
    requires a.step == b.step == 1 && a.mask == b.mask
    ensures Meetable(a, b)
  {
  }

  lemma FoldEdge(x: nat, k: nat, val: nat)
    requires k % (val + 1) == 0
    ensures x <= val ==> Fold(x, val) == x
    ensures k <= x <= k + val ==> Fold(x, val) == x - k
  {
    if x <= val {
      SmallMod(x, val + 1);
    }
    if k <= x <= k + val {
      RemainderUnique(x, val + 1, k / (val + 1), x - k);
    }
  }

  // ----- right shifts -----

  /** Dividing by `n` and comparing with `t` is comparing with `t * n`. */
  lemma QuotientOrder(x: int, n: int, t: int)
    requires n > 0
    ensures x / n < t <==> x < t * n
  {
    var q := x / n;
    assert x == q * n + x % n;
    if q < t {
      assert t * n == q * n + (t - q) * n;
      MultipleIsLarge(t - q, n);
    } else {
      assert q * n == t * n + (q - t) * n;
      if q > t {
        MultipleIsLarge(q - t, n);
      }
    }
  }

  /** `[l', r')`, or nothing, holds exactly the values the shift maps into `[l, r)`. */
  ghost predicate RightShiftExact(l: nat, r: nat, mask: nat, n: nat, empty: bool, l': nat, r': nat)
    requires n > 0
  {
    forall x: nat {:trigger Between(l', r', x)} {:trigger Between(l, r, x / n)} :: x <= mask ==>
      (!empty && Between(l', r', x) <==> Between(l, r, x / n))
  }

  /**
   The edges of the range shifted back through INT_RIGHT.  Exact for every
   shift, except that a shift by 0 of an eight-byte value overflows the bound.
   */
  method RightShiftEdges(l: nat, r: nat, mask: nat, val: nat, k: nat) returns (empty: bool, l': nat, r': nat)
    requires mask + 1 == Pow2(k) && k <= 64 && l <= mask && r <= mask
    ensures l' <= mask && r' <= mask
    ensures RightShiftExact(l, r, mask, Pow2(val), empty, l', r') <==> !(k == 64 && val == 0) || l == r
    ensures k == 64 && val == 0 ==> l' == r' == 0 && (empty <==> 0 < l < r)
  {
    var rightBound := (Shr(mask, Pow2(val)) + 1) % WORD;
    if k == 64 && val == 0 {
      ZeroShift(l, r, mask, val, k);
      empty, l', r' := RightShiftFrom(l, r, mask, rightBound, 1);
    } else {
      RightBound(rightBound, mask, val, k);
      empty, l', r' := RightShiftFrom(l, r, mask, rightBound, Pow2(val));
    }
  }

  /** The case analysis, from the maximal right bound; a bound of 0 renders no proper arc right. */
  method RightShiftFrom(l: nat, r: nat, mask: nat, rightBound: nat, n: nat) returns (empty: bool, l': nat, r': nat)
    requires n > 0 && l <= mask && r <= mask && (Runs(rightBound, n, mask) || (rightBound == 0 && n == 1))
    ensures l' <= mask && r' <= mask
    ensures RightShiftExact(l, r, mask, n, empty, l', r') <==> rightBound != 0 || l == r
    ensures rightBound == 0 ==> l' == r' == 0 && (empty <==> 0 < l < r)
  {
    if l == r {
      return false, 0, 0;
    }
    if (l >= rightBound && r >= rightBound && l >= r) || (l == 0 && r >= rightBound) {
      empty, l', r' := false, 0, 0;
    } else {
      l', r' := l, r;
      if l' > rightBound { l' := rightBound; }
      if r' > rightBound { r' := 0; }
      l' := Fold(l' * n, mask);
      r' := Fold(r' * n, mask);
      empty := l' == r';
    }
    if rightBound == 0 {
      assert Between(l, r, l / n) && !Between(l, r, r / n);
      assert Between(l', r', l) && Between(l', r', r);
    } else {
      RightShiftAll(l, r, rightBound, n, mask, empty, l', r');
    }
  }

  lemma RightShiftAll(l: nat, r: nat, q: nat, n: nat, mask: nat, empty: bool, l': nat, r': nat)
    requires Runs(q, n, mask) && l != r
    requires if (l >= q && r >= q && l >= r) || (l == 0 && r >= q) then !empty && l' == r'
             else l' == Fold((if l > q then q else l) * n, mask)
                  && r' == Fold((if r > q then 0 else r) * n, mask) && empty == (l' == r')
    ensures RightShiftExact(l, r, mask, n, empty, l', r')
  {
    if (l >= q && r >= q && l >= r) || (l == 0 && r >= q) {
      forall x: nat | x <= mask ensures Between(l, r, x / n) {
        ShiftedEdge(0, q, n, mask, x, 0);
      }
    } else {
      RightShiftProper(l, r, q, n, mask, empty, l', r');
    }
  }

  lemma RightShiftProper(l: nat, r: nat, q: nat, n: nat, mask: nat, empty: bool, l': nat, r': nat)
    requires Runs(q, n, mask) && l != r && !((l >= q && r >= q && l >= r) || (l == 0 && r >= q))
    requires l' == Fold((if l > q then q else l) * n, mask)
    requires r' == Fold((if r > q then 0 else r) * n, mask) && empty == (l' == r')
    ensures RightShiftExact(l, r, mask, n, empty, l', r')
  {
    forall x: nat | x <= mask ensures !empty && Between(l', r', x) <==> Between(l, r, x / n) {
      RightShiftPoint(l, r, q, n, mask, empty, l', r', x);
    }
  }

  lemma RightShiftPoint(l: nat, r: nat, q: nat, n: nat, mask: nat, empty: bool, l': nat, r': nat, x: nat)
    requires Runs(q, n, mask) && l != r && !((l >= q && r >= q && l >= r) || (l == 0 && r >= q)) && x <= mask
    requires l' == Fold((if l > q then q else l) * n, mask)
    requires r' == Fold((if r > q then 0 else r) * n, mask) && empty == (l' == r')
    ensures !empty && Between(l', r', x) <==> Between(l, r, x / n)
  {
    RightShiftAt(l, r, q, n, mask, x, l', r');
    ClampedShift(l, r, q, l', r', x, x / n);
  }

  /** A shift by 0 on eight bytes: the bound overflows to 0. */
  lemma ZeroShift(l: nat, r: nat, mask: nat, val: nat, k: nat)
    requires mask + 1 == Pow2(k) && k == 64 && val == 0
    ensures Pow2(val) == 1 && (Shr(mask, Pow2(val)) + 1) % WORD == 0
  {
    WordIsPow2();
    assert Pow2(0) == 1;
  }

  /** What the shifted edge `e` of `t` says about the value `x` and its shift `y`. */
  predicate EdgeShifts(t: nat, q: nat, e: nat, x: nat, y: nat) {
    && y < q && (t < q ==> (y < t <==> x < e)) && (t >= q ==> e == 0) && (t < q ==> (t == 0 <==> e == 0))
  }

  /** A shift by `n` splits the ring into `q` runs of equal result. */
  predicate Runs(q: nat, n: nat, mask: nat) {
    n > 0 && q > 0 && (q * n == mask + 1 || (q == 1 && n > mask && n % (mask + 1) == 0))
  }

  lemma RightShiftAt(l: nat, r: nat, q: nat, n: nat, mask: nat, x: nat, hi: nat, lo: nat)
    requires Runs(q, n, mask) && x <= mask
    requires hi == Fold((if l > q then q else l) * n, mask)
    requires lo == Fold((if r > q then 0 else r) * n, mask)
    ensures EdgeShifts(l, q, hi, x, x / n) && EdgeShifts(r, q, lo, x, x / n)
    ensures l < q && r < q ==> (l < r <==> hi < lo) && (r < l <==> lo < hi)
  {
    ShiftedEdge(if l > q then q else l, q, n, mask, x, hi);
    ShiftedEdge(if r > q then 0 else r, q, n, mask, x, lo);
    if l < q && r < q {
      ShiftedEdges(l, r, q, n, mask, x, hi, lo);
    }
  }

  lemma ShiftedEdges(l: nat, r: nat, q: nat, n: nat, mask: nat, x: nat, hi: nat, lo: nat)
    requires Runs(q, n, mask) && x <= mask && l < q && r < q
    requires hi == Fold(l * n, mask) && lo == Fold(r * n, mask)
    ensures (l < r <==> hi < lo) && (r < l <==> lo < hi)
  {
    EdgeValue(l, q, n, mask);
    EdgeValue(r, q, n, mask);
    ShiftedOrder(l, r, n);
  }

  lemma RightBound(q: nat, mask: nat, val: nat, k: nat)
    requires mask + 1 == Pow2(k) && k <= 64 && (k < 64 || val > 0) && q == (Shr(mask, Pow2(val)) + 1) % WORD
    ensures Runs(q, Pow2(val), mask)
  {
    WordIsPow2();
    Pow2Monotone(k, 64);
    if k < 64 { Pow2StrictlyMonotone(k, 64); }
    ShiftBound(mask, val, k);
    SmallMod(Shr(mask, Pow2(val)) + 1, WORD);
    if val > k {
      Pow2Divides(k, val);
    }
  }

  lemma EdgeValue(t: nat, q: nat, n: nat, mask: nat)
    requires Runs(q, n, mask) && t <= q
    ensures t < q ==> Fold(t * n, mask) == t * n
    ensures t == q ==> Fold(t * n, mask) == 0
    ensures 0 < t < q ==> t * n > 0
  {
    if t == 0 {
      assert t * n == 0;
    } else if q * n != mask + 1 {
      assert t * n == n;
    } else if t == q {
      RemainderUnique(t * n, mask + 1, 1, 0);
    } else {
      MulMonotone(t + 1, q, n);
      assert (t + 1) * n == t * n + n;
      SmallMod(t * n, mask + 1);
      MulAtLeast(t, n);
    }
  }

  /** An edge `t` up to the bound `q` shifts to `t * n`, or wraps to 0 at the bound. */
  lemma ShiftedEdge(t: nat, q: nat, n: nat, mask: nat, x: nat, e: nat)
    requires Runs(q, n, mask) && x <= mask && t <= q && e == Fold(t * n, mask)
    ensures EdgeShifts(t, q, e, x, x / n)
  {
    EdgeValue(t, q, n, mask);
    QuotientOrder(x, n, t);
    QuotientOrder(x, n, q);
    if q == 1 {
      assert q * n == n;
    }
  }

  lemma ShiftedOrder(s: nat, t: nat, n: nat)
    requires n > 0
    ensures s < t <==> s * n < t * n
    ensures s == t <==> s * n == t * n
  {
    if s < t {
      assert t * n == s * n + (t - s) * n;
      MultipleIsLarge(t - s, n);
    } else if t < s {
      assert s * n == t * n + (s - t) * n;
      MultipleIsLarge(s - t, n);
    }
  }

  /** With every shifted value below `q`, clamping the edges to `q` changes nothing. */
  lemma ClampedShift(l: nat, r: nat, q: nat, hi: nat, lo: nat, x: nat, y: nat)
    requires !((l >= q && r >= q && l >= r) || (l == 0 && r >= q) || l == r)
    requires EdgeShifts(l, q, hi, x, y) && EdgeShifts(r, q, lo, x, y)
    requires l < q && r < q ==> (l < r <==> hi < lo) && (r < l <==> lo < hi)
    ensures hi != lo && Between(hi, lo, x) <==> Between(l, r, y)
  {
  }

  lemma ShiftBound(mask: nat, val: nat, k: nat)
    requires mask + 1 == Pow2(k) <= WORD && !(mask + 1 == WORD && val == 0)
    ensures Shr(mask, Pow2(val)) + 1 == (if val <= k then Pow2(k - val) else 1) < WORD
    ensures val <= k ==> Pow2(k - val) * Pow2(val) == mask + 1
    ensures val > k ==> Pow2(val) > mask
  {
    if val <= k {
      Pow2Add(k - val, val);
      LastQuotient(mask, Pow2(val), Pow2(k - val));
      if val > 0 {
        Pow2StrictlyMonotone(k - val, k);
      }
    } else {
      Pow2StrictlyMonotone(k, val);
      RemainderUnique(mask, Pow2(val), 0, mask);
    }
  }

  lemma LastQuotient(mask: nat, n: nat, q: nat)
    requires n > 0 && q > 0 && q * n == mask + 1
    ensures mask / n == q - 1
  {
    assert mask == (q - 1) * n + (n - 1) by { assert (q - 1) * n == q * n - n; }
    RemainderUnique(mask, n, q - 1, n - 1);
  }

  // ----- arithmetic right shifts -----

  /** INT_SRIGHT of `x` by a shift of weight `n`. */
  function ShiftSigned(x: nat, n: nat, mask: nat): nat
    requires n > 0
  {
    Fold(Signed(x, mask) / n, mask)
  }

  ghost predicate SignedShiftExact(l: nat, r: nat, mask: nat, n: nat, empty: bool, l': nat, r': nat)
    requires n > 0
  {
    forall x: nat {:trigger Between(l', r', x)} {:trigger ShiftSigned(x, n, mask)} :: x <= mask ==>
      (!empty && Between(l', r', x) <==> Between(l, r, ShiftSigned(x, n, mask)))
  }

  /**
   When the arithmetic shift is pulled back exactly: below the width always; from the
   width on when 0 and -1 are treated alike; and at the largest shift, where the
   program's `val + 1` wraps to 0, when both are outside or the range is full.
   */
  predicate SignedShiftSafe(l: nat, r: nat, mask: nat, val: nat, k: int) {
    if val == WORD - 1 then l == r || !(Between(l, r, 0) || Between(l, r, mask))
    else val < k || (Between(l, r, 0) <==> Between(l, r, mask))
  }

  /** The edges of the range shifted back through INT_SRIGHT, exact if and only if `SignedShiftSafe`. */
  method SignedShiftEdges(l: nat, r: nat, mask: nat, val: nat, k: nat) returns (empty: bool, l': nat, r': nat)
    requires mask + 1 == Pow2(k) && 1 <= k <= 64 && l <= mask && r <= mask && val < WORD
    ensures l' <= mask && r' <= mask
    ensures SignedShiftExact(l, r, mask, Pow2(val), empty, l', r') <==> SignedShiftSafe(l, r, mask, val, k)
    ensures !SignedShiftSafe(l, r, mask, val, k) ==> empty
  {
    var low := Shr(mask, Pow2((val + 1) % WORD));
    ShrAtMost(mask, Pow2((val + 1) % WORD));
    empty, l', r' := SignedShiftFrom(l, r, mask, (low + 1) % WORD, mask - low, Pow2(val));
    SignedShiftDecides(l, r, mask, val, k, low, empty, l', r');
    if !SignedShiftSafe(l, r, mask, val, k) { UnsafeIsEmpty(l, r, mask, val, k, low, empty, l', r'); }
  }

  /** Where the arithmetic shift is not pulled back exactly, nothing is left. */
  lemma UnsafeIsEmpty(l: nat, r: nat, mask: nat, val: nat, k: nat, low: nat, empty: bool, l': nat, r': nat)
    requires mask + 1 == Pow2(k) && 1 <= k <= 64 && l <= mask && r <= mask && val < WORD
    requires low == Shr(mask, Pow2((val + 1) % WORD)) && low <= mask && !SignedShiftSafe(l, r, mask, val, k)
    requires ShiftedFrom(l, r, mask, (low + 1) % WORD, mask - low, Pow2(val), empty, l', r')
    ensures empty
  {
    WideBound(mask, val, k);
    TopBound(mask, k);
    WideEdges(l, r, (low + 1) % WORD, mask - low, Pow2(val), mask, empty, l', r');
    if val == WORD - 1 {
      assert low == mask;
    } else {
      SmallMod(val + 1, WORD);
      SmallMod(1, WORD);
    }
  }

  lemma WideEdges(l: nat, r: nat, leftb: nat, rightb: nat, n: nat, mask: nat, empty: bool, l': nat, r': nat)
    requires n > mask && n % (mask + 1) == 0 && l != r && ShiftedFrom(l, r, mask, leftb, rightb, n, empty, l', r')
    requires l <= mask && r <= mask
    ensures empty || (leftb <= l <= rightb && leftb <= r <= rightb && l >= r)
  {
    WideEdge(if leftb < l < rightb then leftb else l, n, mask);
    WideEdge(if leftb < r < rightb then rightb else r, n, mask);
  }

  lemma ShrAtMost(x: nat, n: nat)
    requires n > 0
    ensures Shr(x, n) <= x
  {
    MulAtLeast(x / n, n);
  }

  lemma SignedShiftDecides(l: nat, r: nat, mask: nat, val: nat, k: nat, low: nat, empty: bool, l': nat, r': nat)
    requires mask + 1 == Pow2(k) && 1 <= k <= 64 && l <= mask && r <= mask && val < WORD
    requires low == Shr(mask, Pow2((val + 1) % WORD)) && low <= mask
    requires ShiftedFrom(l, r, mask, (low + 1) % WORD, mask - low, Pow2(val), empty, l', r')
    ensures SignedShiftExact(l, r, mask, Pow2(val), empty, l', r') <==> SignedShiftSafe(l, r, mask, val, k)
  {
    if val == WORD - 1 {
      LargestShift(l, r, mask, val, k, low, empty, l', r');
    } else {
      SmallMod(val + 1, WORD);
      if val < k {
        NarrowShift(l, r, mask, val, k, low, (low + 1) % WORD, empty, l', r');
      } else {
        WiderShift(l, r, mask, val, k, low, (low + 1) % WORD, empty, l', r');
      }
    }
  }

  lemma LargestShift(l: nat, r: nat, mask: nat, val: nat, k: nat, low: nat, empty: bool, l': nat, r': nat)
    requires mask + 1 == Pow2(k) && 1 <= k <= 64 && l <= mask && r <= mask && val == WORD - 1
    requires low == Shr(mask, Pow2((val + 1) % WORD)) && low <= mask
    requires ShiftedFrom(l, r, mask, (low + 1) % WORD, mask - low, Pow2(val), empty, l', r')
    ensures SignedShiftExact(l, r, mask, Pow2(val), empty, l', r') <==> l == r || !(Between(l, r, 0) || Between(l, r, mask))
  {
    WideBound(mask, val, k);
    TopBound(mask, k);
    TopShift(l, r, (mask + 1) % WORD, Pow2(val), mask, empty, l', r');
  }

  lemma NarrowShift(l: nat, r: nat, mask: nat, val: nat, k: nat, low: nat, leftb: nat, empty: bool, l': nat, r': nat)
    requires mask + 1 == Pow2(k) && k <= 64 && l <= mask && r <= mask && val < k
    requires low == Shr(mask, Pow2(val + 1)) && low <= mask && leftb == (low + 1) % WORD
    requires ShiftedFrom(l, r, mask, leftb, mask - low, Pow2(val), empty, l', r')
    ensures SignedShiftExact(l, r, mask, Pow2(val), empty, l', r')
  {
    SignedRuns(mask, val, k);
    SmallBound(mask, low, val, k);
    SignedShiftAll(l, r, leftb, Pow2(val), mask, empty, l', r');
  }

  lemma WiderShift(l: nat, r: nat, mask: nat, val: nat, k: nat, low: nat, leftb: nat, empty: bool, l': nat, r': nat)
    requires mask + 1 == Pow2(k) && 1 <= k <= val && l <= mask && r <= mask
    requires low == Shr(mask, Pow2(val + 1)) && low <= mask && leftb == (low + 1) % WORD
    requires ShiftedFrom(l, r, mask, leftb, mask - low, Pow2(val), empty, l', r')
    ensures SignedShiftExact(l, r, mask, Pow2(val), empty, l', r') <==> (Between(l, r, 0) <==> Between(l, r, mask))
  {
    WideBound(mask, val, k);
    WideShift(l, r, Pow2(val), mask, empty, l', r');
  }

  /** On eight bytes INT_SRIGHT by 2^64 - 1 pulls [5, 3), which holds 0 and -1, back to nothing. */
  lemma LargestShiftIsEmpty()
    ensures var mask, n := WORD - 1, Pow2(WORD - 1);
      && ShiftedFrom(5, 3, mask, 0, 0, n, true, 0, 0) && !SignedShiftExact(5, 3, mask, n, true, 0, 0)
      && Between(5, 3, 0) && Between(5, 3, mask)
  {
    var mask, n := WORD - 1, Pow2(WORD - 1);
    WordIsPow2();
    WideBound(mask, WORD - 1, 64);
    WideEdge(5, n, mask);
    WideEdge(3, n, mask);
    TopShift(5, 3, 0, n, mask, true, 0, 0);
  }

  /** The case analysis, from the first and the last result that is not a shifted value. */
  method SignedShiftFrom(l: nat, r: nat, mask: nat, leftb: nat, rightb: nat, n: nat) returns (empty: bool, l': nat, r': nat)
    ensures l' <= mask && r' <= mask
    ensures ShiftedFrom(l, r, mask, leftb, rightb, n, empty, l', r')
  {
    if (leftb <= l <= rightb && leftb <= r <= rightb && l >= r) || l == r {
      empty, l', r' := false, 0, 0;
    } else {
      l', r' := l, r;
      if leftb < l' < rightb { l' := leftb; }
      if leftb < r' < rightb { r' := rightb; }
      l' := Fold(l' * n, mask);
      r' := Fold(r' * n, mask);
      empty := l' == r';
    }
  }

  predicate ShiftedFrom(l: nat, r: nat, mask: nat, leftb: nat, rightb: nat, n: nat, empty: bool, l': nat, r': nat) {
    if (leftb <= l <= rightb && leftb <= r <= rightb && l >= r) || l == r then !empty && l' == r' == 0
    else
      && l' == Fold((if leftb < l < rightb then leftb else l) * n, mask)
      && r' == Fold((if leftb < r < rightb then rightb else r) * n, mask) && empty == (l' == r')
  }

  /** Below the width the bounds do not wrap. */
  lemma SmallBound(mask: nat, low: nat, val: nat, k: nat)
    requires mask + 1 == Pow2(k) && val < k <= 64 && low == Shr(mask, Pow2(val + 1))
    ensures (low + 1) % WORD == low + 1 <= mask
  {
    SignedRuns(mask, val, k);
    WordIsPow2();
    Pow2Monotone(k, 64);
    MulAtLeast(low + 1, Pow2(val));
    SmallMod(low + 1, WORD);
  }

  /** At the largest shift the bound is the whole ring. */
  lemma TopBound(mask: nat, k: nat)
    requires mask + 1 == Pow2(k) && 1 <= k <= 64
    ensures Shr(mask, Pow2(WORD % WORD)) == mask && ((mask + 1) % WORD == 0 || (mask + 1) % WORD == mask + 1)
  {
    assert Pow2(0) == 1;
    WordIsPow2();
    Pow2Monotone(k, 64);
    if mask + 1 < WORD { SmallMod(mask + 1, WORD); }
  }

  /** There every proper range comes out empty. */
  lemma TopShift(l: nat, r: nat, leftb: nat, n: nat, mask: nat, empty: bool, l': nat, r': nat)
    requires n > mask && n % (mask + 1) == 0 && mask % 2 == 1 && l <= mask && r <= mask && (leftb == 0 || leftb > mask)
    requires ShiftedFrom(l, r, mask, leftb, 0, n, empty, l', r')
    ensures SignedShiftExact(l, r, mask, n, empty, l', r') <==> l == r || !(Between(l, r, 0) || Between(l, r, mask))
  {
    WideEdge(l, n, mask);
    WideEdge(r, n, mask);
    WideResult(0, n, mask);
    WideResult(mask, n, mask);
    assert ShiftSigned(0, n, mask) == 0 && ShiftSigned(mask, n, mask) == mask;
    forall x: nat | x <= mask ensures ShiftSigned(x, n, mask) == 0 || ShiftSigned(x, n, mask) == mask {
      WideResult(x, n, mask);
    }
  }

  lemma WideBound(mask: nat, val: nat, k: nat)
    requires mask + 1 == Pow2(k) && 1 <= k <= val
    ensures Shr(mask, Pow2(val + 1)) == 0 && Pow2(val) > mask && Pow2(val) % (mask + 1) == 0 && mask % 2 == 1
  {
    Pow2StrictlyMonotone(k, val + 1);
    Pow2Monotone(k, val);
    SmallQuotient(mask, Pow2(val + 1));
    Pow2Divides(k, val);
    EvenPower(k);
  }

  lemma SmallQuotient(x: nat, n: nat)
    requires x < n
    ensures x / n == 0
  {
    RemainderUnique(x, n, 0, x);
  }

  lemma EvenPower(k: nat)
    requires k >= 1
    ensures (Pow2(k) - 1) % 2 == 1
  {
    RemainderUnique(Pow2(k) - 1, 2, Pow2(k - 1) - 1, 1);
  }

  lemma SignedRuns(mask: nat, val: nat, k: nat)
    requires mask + 1 == Pow2(k) && val < k
    ensures var p := Shr(mask, Pow2(val + 1)) + 1;
      p > 0 && p * Pow2(val) * 2 == mask + 1 && Pow2(val) <= mask
  {
    var n, p := Pow2(val), Pow2(k - 1 - val);
    Pow2Add(k - 1 - val, val + 1);
    assert Pow2(val + 1) == 2 * n;
    assert p * (2 * n) == p * n * 2;
    LastQuotient(mask, 2 * n, p);
    Pow2Monotone(val + 1, k);
  }

  /** The two bands of results: nonnegative below `p`, negative from `mask + 1 - p`. */
  lemma SignedBands(p: nat, n: nat, mask: nat, x: nat)
    requires n > 0 && p > 0 && p * n * 2 == mask + 1 && x <= mask
    ensures var y := ShiftSigned(x, n, mask);
      && p + p <= mask + 1 && (x < p * n ==> y == x / n < p)
      && (x >= p * n ==> y == mask + 1 + (x - (mask + 1)) / n && y >= mask + 1 - p)
  {
    var h := p * n;
    MulAtLeast(p, n);
    QuotientOrder(x, n, p);
    if x < h {
      SmallMod(x / n, mask + 1);
    } else {
      var z := x - (mask + 1);
      QuotientOrder(z, n, 0 - p);
      assert (0 - p) * n == 0 - h;
      QuotientOrder(z, n, 0);
      RemainderUnique(z / n, mask + 1, -1, mask + 1 + z / n);
    }
  }

  /** Where an edge goes: monotone on both bands, with the gap between them collapsed. */
  lemma SignedEdge(t: nat, p: nat, n: nat, mask: nat, e: nat)
    requires n > 0 && p > 0 && p * n * 2 == mask + 1 && e == Fold(t * n, mask)
    requires t <= p || mask + 1 - p <= t <= mask
    ensures t <= p ==> e == t * n <= p * n
    ensures t >= mask + 1 - p ==> e == mask + 1 - (mask + 1 - t) * n >= p * n
  {
    if t <= p {
      MulMonotone(t, p, n);
      SmallMod(t * n, mask + 1);
    }
    if t >= mask + 1 - p {
      UpperEdge(mask + 1 - t, p, n, mask);
    }
  }

  lemma UpperEdge(u: nat, p: nat, n: nat, mask: nat)
    requires n > 0 && 0 < u <= p && p * n * 2 == mask + 1 && u <= mask + 1
    ensures Fold((mask + 1 - u) * n, mask) == mask + 1 - u * n >= p * n
  {
    MulMonotone(u, p, n);
    MulAtLeast(u, n);
    UpperProduct(mask + 1, u, n);
    RemainderUnique((mask + 1 - u) * n, mask + 1, n - 1, mask + 1 - u * n);
  }

  lemma UpperProduct(m: nat, u: nat, n: nat)
    requires n > 0
    ensures (m - u) * n == (n - 1) * m + (m - u * n)
  {
    assert (m - u) * n == m * n - u * n;
    assert (n - 1) * m == m * n - m;
  }

  /** Comparing the result with `t` is comparing the value with the shifted edge. */
  lemma SignedEdgeOrder(t: nat, p: nat, n: nat, mask: nat, e: nat, x: nat)
    requires n > 0 && p > 0 && p * n * 2 == mask + 1 && e == Fold(t * n, mask) && x <= mask
    requires t <= p || mask + 1 - p <= t <= mask
    ensures ShiftSigned(x, n, mask) < t <==> x < e
  {
    SignedBands(p, n, mask, x);
    SignedEdge(t, p, n, mask, e);
    if t <= p {
      QuotientOrder(x, n, t);
    } else {
      var u := mask + 1 - t;
      QuotientOrder(x - (mask + 1), n, 0 - u);
      assert (0 - u) * n == 0 - u * n;
    }
  }

  lemma SignedShiftAll(l: nat, r: nat, p: nat, n: nat, mask: nat, empty: bool, l': nat, r': nat)
    requires n > 0 && p > 0 && p * n * 2 == mask + 1 && l <= mask && r <= mask
    requires var b := mask + 1 - p;
      if (p <= l <= b && p <= r <= b && l >= r) || l == r then !empty && l' == r'
      else l' == Fold((if p < l < b then p else l) * n, mask)
           && r' == Fold((if p < r < b then b else r) * n, mask) && empty == (l' == r')
    ensures SignedShiftExact(l, r, mask, n, empty, l', r')
  {
    var b := mask + 1 - p;
    forall x: nat | x <= mask ensures !empty && Between(l', r', x) <==> Between(l, r, ShiftSigned(x, n, mask)) {
      SignedBands(p, n, mask, x);
      if !((p <= l <= b && p <= r <= b && l >= r) || l == r) {
        var l1, r1 := if p < l < b then p else l, if p < r < b then b else r;
        SignedEdgeOrder(l1, p, n, mask, l', x);
        SignedEdgeOrder(r1, p, n, mask, r', x);
        SignedOrder(l1, r1, p, n, mask, l', r');
        SignedClamp(l, r, p, b, l', r', x, ShiftSigned(x, n, mask));
      }
    }
  }

  lemma SignedOrder(s: nat, t: nat, p: nat, n: nat, mask: nat, e: nat, f: nat)
    requires n > 0 && p > 0 && p * n * 2 == mask + 1 && e == Fold(s * n, mask) && f == Fold(t * n, mask)
    requires (s <= p || mask + 1 - p <= s <= mask) && (t <= p || mask + 1 - p <= t <= mask)
    ensures p <= s <= mask + 1 - p && p <= t <= mask + 1 - p ==> e == f
    ensures s < t && !(p <= s && t <= mask + 1 - p) ==> e < f
    ensures t < s && !(p <= t && s <= mask + 1 - p) ==> f < e
  {
    SignedEdge(s, p, n, mask, e);
    SignedEdge(t, p, n, mask, f);
    SignedBands(p, n, mask, 0);
    ShiftedOrder(s, t, n);
    ShiftedOrder(s, p, n);
    ShiftedOrder(t, p, n);
    if s >= mask + 1 - p { ShiftedOrder(mask + 1 - s, p, n); }
    if t >= mask + 1 - p { ShiftedOrder(mask + 1 - t, p, n); }
    if s >= mask + 1 - p && t >= mask + 1 - p { ShiftedOrder(mask + 1 - s, mask + 1 - t, n); }
  }

  lemma SignedClamp(l: nat, r: nat, p: nat, b: nat, hi: nat, lo: nat, x: nat, y: nat)
    requires p <= b && (y < p || y >= b) && l != r && !(p <= l <= b && p <= r <= b && l >= r)
    requires var l1, r1 := if p < l < b then p else l, if p < r < b then b else r;
      && (y < l1 <==> x < hi) && (y < r1 <==> x < lo)
      && (p <= l1 <= b && p <= r1 <= b ==> hi == lo)
      && (l1 < r1 && !(p <= l1 && r1 <= b) ==> hi < lo) && (r1 < l1 && !(p <= r1 && l1 <= b) ==> lo < hi)
    ensures hi != lo && Between(hi, lo, x) <==> Between(l, r, y)
  {
  }

  /** A shift by the width or more: every result is 0 or -1 and every edge shifts to 0. */
  lemma WideShift(l: nat, r: nat, n: nat, mask: nat, empty: bool, l': nat, r': nat)
    requires n > mask && n % (mask + 1) == 0 && mask % 2 == 1 && l <= mask && r <= mask
    requires if (1 <= l <= mask && 1 <= r <= mask && l >= r) || l == r then !empty && l' == r' == 0
             else l' == Fold((if 1 < l < mask then 1 else l) * n, mask)
                  && r' == Fold((if 1 < r < mask then mask else r) * n, mask) && empty == (l' == r')
    ensures SignedShiftExact(l, r, mask, n, empty, l', r') <==> (Between(l, r, 0) <==> Between(l, r, mask))
  {
    WideEdge(if 1 < l < mask then 1 else l, n, mask);
    WideEdge(if 1 < r < mask then mask else r, n, mask);
    WideResult(0, n, mask);
    WideResult(mask, n, mask);
    assert ShiftSigned(0, n, mask) == 0 && ShiftSigned(mask, n, mask) == mask;
    if Between(l, r, 0) <==> Between(l, r, mask) {
      forall x: nat | x <= mask ensures !empty && Between(l', r', x) <==> Between(l, r, ShiftSigned(x, n, mask)) {
        WideResult(x, n, mask);
      }
    } else {
      assert Between(l', r', 0) && Between(l', r', mask);
    }
  }

  lemma WideEdge(t: nat, n: nat, mask: nat)
    requires n % (mask + 1) == 0
    ensures Fold(t * n, mask) == 0
  {
    var q := n / (mask + 1);
    assert t * n == (t * q) * (mask + 1) by { assert t * (q * (mask + 1)) == (t * q) * (mask + 1); }
    MultipleHasNoRemainder(t * q, mask + 1);
  }

  lemma WideResult(x: nat, n: nat, mask: nat)
    requires n > mask >= x && mask % 2 == 1
    ensures ShiftSigned(x, n, mask) == if x > mask / 2 then mask else 0
  {
    if x > mask / 2 {
      RemainderUnique(x - (mask + 1), n, -1, n + x - (mask + 1));
      RemainderUnique(-1, mask + 1, -1, mask);
    } else {
      RemainderUnique(x, n, 0, x);
    }
  }

  // ----- the two entry points -----

  /**
   When the pull-back through a binary operator is exact, as a test on the
   range and the operands: everything but both truth values under a comparison, a
   constant minuend, an eight-byte shift by 0, and an arithmetic shift by the width.
   */
  ghost predicate BinarySafe(a: Arc, op: BinaryOp, val: nat, slot: nat, inSize: int)
    requires a.step > 0
  {
    a.isempty ||
    match op
    case Add => true
    case Sub => slot == 0 || a.left == a.right || (IsSingle(a) && a.mask + 1 == 2 * a.step)
    case Right => !(inSize == 8 && val == 0) || a.left == a.right
    case SRight => SignedShiftSafe(a.left, a.right, a.mask, val, 8 * inSize)
    case _ => !(a.Contains(0) && a.Contains(1))
  }

  /** The size of the output of `op` on inputs of `inSize` bytes. */
  function OutputMask(op: BinaryOp, inSize: int, mask: nat): nat {
    if IsComparison(op) then mask else MaskForSize(inSize)
  }

  /**
   Pulls the range back through `op`; a successful pull-back is exact if and only if
   `BinarySafe`, and for a shifted constant, whose slot is not looked at, if and only if
   `ConstantSafe`.
   */
  method PullBackBinary(r: CircleRange, op: BinaryOp, val: nat, slot: nat, inSize: int) returns (ok: bool)
    requires r.View().WellFormed() && 1 <= inSize <= 8 && slot < 2
    requires if op in {Right, SRight} then val < WORD else val <= MaskForSize(inSize)
    requires r.mask == OutputMask(op, inSize, r.mask)
    modifies r
    ensures r.step > 0 && old(r.step) > 0
    ensures ok <==> old(r.isempty) || (op != OtherBinary && (op in {Right, SRight} ==> old(r.step) == 1))
    ensures ok ==> r.View().WellFormed()
    ensures ok && !old(r.isempty) ==> r.mask == MaskForSize(inSize) && (IsComparison(op) ==> r.step == 1)
    ensures ok && !ShiftsConstant(op, slot) ==>
              (BinaryPreimage(r.View(), old(r.View()), op, val, slot, MaskForSize(inSize)) <==>
               BinarySafe(old(r.View()), op, val, slot, inSize))
    ensures ok && ShiftsConstant(op, slot) && val <= MaskForSize(inSize) ==>
              (BinaryPreimage(r.View(), old(r.View()), op, val, slot, MaskForSize(inSize)) <==>
               old(r.isempty) || ConstantSafe(old(r.left), old(r.right), op, val, inSize, MaskForSize(inSize)))
    ensures !ok ==> r.View() == old(r.View())
  {
    WellFormedStep(r.View());
    if r.isempty {
      return true;
    }
    ok := op != OtherBinary;
    match op {
      case Add => PullBackSum(r, op, val);
        AddCommutes(r.View(), old(r.View()), val, slot, r.mask);
      case Sub =>
        if slot == 0 { PullBackSum(r, op, val); } else { PullBackMinuend(r, val); }
      case Right => ok := PullBackShift(r, op, val, slot, inSize);
      case SRight => ok := PullBackShift(r, op, val, slot, inSize);
      case OtherBinary =>
      case _ => PullBackCompare(r, op, val, slot, inSize);
    }
  }

  /** The unknown is the amount by which a constant is shifted. */
  predicate ShiftsConstant(op: BinaryOp, slot: nat) { op in {Right, SRight} && slot != 0 }

  /**
   The program does not look at the slot of a shift: for `4 >> x` it answers, of the
   result 1, what holds of `x >> 4`.
   */
  lemma ShiftedConstantIsConfused()
    ensures var a, c := Arc(1, 2, 0xff, 1, false), Arc(16, 32, 0xff, 1, false);
      BinaryPreimage(c, a, Right, 4, 0, 0xff) && !BinaryPreimage(c, a, Right, 4, 1, 0xff)
  {
    var a, c := Arc(1, 2, 0xff, 1, false), Arc(16, 32, 0xff, 1, false);
    assert Pow2(4) == 16 && Pow2(2) == 4;
    assert a.Contains(EvalBinary(Right, 2, 4, 1, 0xff)) && !c.Contains(2);
  }

  // ----- a shifted constant -----

  /** The value is in the range exactly when 0 is. */
  predicate LikeZero(l: nat, r: nat, v: int) { Between(l, r, v) <==> Between(l, r, 0) }

  /** No end of the range separates the values from 0 to `m`. */
  predicate UpToAlike(l: nat, r: nat, m: nat) { l == r || (!(1 <= l <= m) && !(1 <= r <= m)) }

  /** No end of the range separates the values from `-p - 1` to `p`. */
  predicate AroundAlike(l: nat, r: nat, p: nat, mask: nat) { l == r || (p < l <= mask - p && p < r <= mask - p) }

  /** `v`, `v / 2` and so on down to 0, or their complements, are all treated like 0. */
  predicate HalvesAlike(l: nat, r: nat, v: nat, mask: nat, neg: bool)
    requires v <= mask
  {
    LikeZero(l, r, if neg then mask - v else v) && (v == 0 || HalvesAlike(l, r, v / 2, mask, neg))
  }

  /**
   The range treats 0, what `x >> val` gives and what `val >> x` gives alike: a test on
   its ends, and on the constant and its halves.
   */
  predicate TreatsAlike(l: nat, r: nat, op: BinaryOp, val: nat, mask: nat)
    requires val <= mask
  {
    if op == Right then UpToAlike(l, r, Shr(mask, Pow2(val))) && HalvesAlike(l, r, val, mask, false)
    else
      && AroundAlike(l, r, Shr(mask / 2, Pow2(val)), mask)
      && if val <= mask / 2 then HalvesAlike(l, r, val, mask, false) else HalvesAlike(l, r, mask - val, mask, true)
  }

  /** When a shift of the constant is pulled back exactly, whichever way the shift by it went. */
  predicate ConstantSafe(l: nat, r: nat, op: BinaryOp, val: nat, inSize: int, mask: nat)
    requires val <= mask
  {
    if op == Right then (if inSize == 8 && val == 0 && l != r then r != 0 else TreatsAlike(l, r, op, val, mask))
    else if SignedShiftSafe(l, r, mask, val, 8 * inSize) then TreatsAlike(l, r, op, val, mask)
    else !Between(l, r, val) && !Between(l, r, if val <= mask / 2 then 0 else mask)
  }

  lemma UpToTest(l: nat, r: nat, m: nat, mask: nat)
    requires l <= mask && r <= mask && m <= mask
    ensures UpToAlike(l, r, m) <==> forall k: nat :: k <= m ==> LikeZero(l, r, k)
  {
    if !UpToAlike(l, r, m) {
      var e := if 1 <= l <= m then l else r;
      var d := e - 1;
      assert !LikeZero(l, r, e) || !LikeZero(l, r, d);
    }
  }

  ghost predicate AroundAt(l: nat, r: nat, mask: nat, k: nat) { k <= mask && LikeZero(l, r, k) && LikeZero(l, r, mask - k) }

  lemma AroundTest(l: nat, r: nat, p: nat, mask: nat)
    requires l <= mask && r <= mask && p <= mask / 2
    ensures AroundAlike(l, r, p, mask) <==> forall k: nat :: k <= p ==> AroundAt(l, r, mask, k)
  {
    if !AroundAlike(l, r, p, mask) {
      var e := if p < l <= mask - p then r else l;
      if e == 0 {
        assert !AroundAt(l, r, mask, 0);
      } else if e <= p {
        var d := e - 1;
        assert !AroundAt(l, r, mask, e) || !AroundAt(l, r, mask, d);
      } else {
        var d := mask - e;
        var d' := mask - e + 1;
        assert !AroundAt(l, r, mask, d) || !AroundAt(l, r, mask, d');
      }
    }
  }

  /** `v`, or its complement, after `x` halvings. */
  function Halved(v: nat, mask: nat, neg: bool, x: nat): int {
    if neg then mask - Shr(v, Pow2(x)) else Shr(v, Pow2(x))
  }

  ghost predicate HalfAt(l: nat, r: nat, v: nat, mask: nat, neg: bool, x: nat) { LikeZero(l, r, Halved(v, mask, neg, x)) }

  lemma {:induction false} HalvesTest(l: nat, r: nat, v: nat, mask: nat, neg: bool)
    requires v <= mask
    ensures HalvesAlike(l, r, v, mask, neg) <==> forall x: nat :: x <= mask ==> HalfAt(l, r, v, mask, neg, x)
    decreases v
  {
    HalvesHold(l, r, v, mask, neg);
    if forall x: nat :: x <= mask ==> HalfAt(l, r, v, mask, neg, x) {
      HalvesFollow(l, r, v, mask, neg, 0, v);
    }
  }

  lemma {:induction false} HalvesHold(l: nat, r: nat, v: nat, mask: nat, neg: bool)
    requires v <= mask
    ensures HalvesAlike(l, r, v, mask, neg) ==> forall x: nat :: HalfAt(l, r, v, mask, neg, x)
    decreases v
  {
    if HalvesAlike(l, r, v, mask, neg) {
      if v > 0 { HalvesHold(l, r, v / 2, mask, neg); }
      forall x: nat ensures HalfAt(l, r, v, mask, neg, x) {
        if v == 0 {
          SmallQuotient(0, Pow2(x));
        } else if x > 0 {
          var y := x - 1;
          HalfOfPower(v, y);
          assert HalfAt(l, r, v / 2, mask, neg, y);
        }
      }
    }
  }

  /** `v` is what `x` halvings leave of `top`. */
  lemma {:induction false} HalvesFollow(l: nat, r: nat, top: nat, mask: nat, neg: bool, x: nat, v: nat)
    requires top <= mask && v == top / Pow2(x) && v <= mask && (x <= top || v == 0)
    requires forall y: nat :: y <= mask ==> HalfAt(l, r, top, mask, neg, y)
    ensures HalvesAlike(l, r, v, mask, neg)
    decreases v
  {
    BelowPow2(top);
    if x <= top {
      assert HalfAt(l, r, top, mask, neg, x);
    } else {
      SmallQuotient(top, Pow2(top));
      assert HalfAt(l, r, top, mask, neg, top);
    }
    if v > 0 {
      HalfAgain(top, x);
      if x == top { SmallQuotient(top, Pow2(x)); }
      HalvesFollow(l, r, top, mask, neg, x + 1, v / 2);
    }
  }

  lemma HalfOfPower(v: nat, x: nat)
    ensures v / Pow2(x + 1) == v / 2 / Pow2(x)
  {
    var n, q := Pow2(x), v / 2 / Pow2(x);
    assert v == 2 * (v / 2) + v % 2 && v / 2 == q * n + (v / 2) % n;
    assert v == q * (2 * n) + (2 * ((v / 2) % n) + v % 2) by {
      assert 2 * (q * n) == q * (2 * n);
    }
    RemainderUnique(v, 2 * n, q, 2 * ((v / 2) % n) + v % 2);
  }

  lemma {:induction false} HalfAgain(v: nat, x: nat)
    ensures v / Pow2(x + 1) == v / Pow2(x) / 2
  {
    if x > 0 {
      HalfOfPower(v, x);
      HalfAgain(v / 2, x - 1);
      HalfOfPower(v, x - 1);
    }
  }

  /** Shifting a negative value is shifting its complement. */
  lemma SignedQuotient(x: nat, n: nat, mask: nat)
    requires x <= mask && mask % 2 == 1 && n > 0
    ensures ShiftSigned(x, n, mask) == if x <= mask / 2 then x / n else mask - (mask - x) / n
    ensures x <= mask / 2 ==> x / n <= mask / 2
    ensures x > mask / 2 ==> (mask - x) / n <= mask / 2
  {
    if x <= mask / 2 {
      MulAtLeast(x / n, n);
      SmallMod(x / n, mask + 1);
    } else {
      var z := mask - x;
      MulAtLeast(z / n, n);
      assert Signed(x, mask) == (-1 - z / n) * n + (n - 1 - z % n) by {
        assert z == (z / n) * n + z % n;
        assert (-1 - z / n) * n == 0 - n - (z / n) * n;
      }
      RemainderUnique(Signed(x, mask), n, -1 - z / n, n - 1 - z % n);
      RemainderUnique(-1 - z / n, mask + 1, -1, mask - z / n);
    }
  }

  /** What the tests mean: the range treats like 0 whatever either shift can give. */
  ghost predicate AlikeAt(a: Arc, op: BinaryOp, val: nat, mask: nat, x: nat)
    requires a.step > 0
  {
    && (a.Contains(EvalBinary(op, x, val, 0, mask)) <==> a.Contains(0))
    && (a.Contains(EvalBinary(op, x, val, 1, mask)) <==> a.Contains(0))
  }

  ghost predicate AllAlike(a: Arc, op: BinaryOp, val: nat, mask: nat)
    requires a.step > 0
  {
    forall x: nat :: x <= mask ==> AlikeAt(a, op, val, mask, x)
  }

  lemma RightAlike(a: Arc, val: nat, mask: nat)
    requires a.step == 1 && !a.isempty && a.left <= mask && a.right <= mask && val <= mask
    ensures AllAlike(a, Right, val, mask) <==> TreatsAlike(a.left, a.right, Right, val, mask)
  {
    var l, r, n := a.left, a.right, Pow2(val);
    var m := Shr(mask, n);
    MulAtLeast(m, n);
    UpToTest(l, r, m, mask);
    HalvesTest(l, r, val, mask, false);
    if TreatsAlike(l, r, Right, val, mask) {
      forall x: nat | x <= mask ensures AlikeAt(a, Right, val, mask, x) {
        QuotientGrows(x, mask, n);
        RightAlikeAt(a, val, mask, x);
      }
    }
    if AllAlike(a, Right, val, mask) {
      forall k: nat | k <= m ensures LikeZero(l, r, k) {
        MultipleFits(k, mask, n);
        assert AlikeAt(a, Right, val, mask, k * n);
        RightAlikeAt(a, val, mask, k * n);
      }
      forall x: nat | x <= mask ensures HalfAt(l, r, val, mask, false, x) {
        assert AlikeAt(a, Right, val, mask, x);
        RightAlikeAt(a, val, mask, x);
      }
    }
  }

  lemma RightAlikeAt(a: Arc, val: nat, mask: nat, x: nat)
    requires a.step == 1 && !a.isempty
    ensures AlikeAt(a, Right, val, mask, x) <==> LikeZero(a.left, a.right, Shr(x, Pow2(val))) && HalfAt(a.left, a.right, val, mask, false, x)
  {
  }

  lemma QuotientGrows(x: nat, y: nat, n: nat)
    requires x <= y && n > 0
    ensures x / n <= y / n
  {
    if x / n > y / n {
      MulAtLeast(x / n - y / n - 1, n);
    }
  }

  /** A multiple of `n` up to `y` is `n` times a quotient. */
  lemma MultipleFits(k: nat, y: nat, n: nat)
    requires n > 0 && k <= y / n
    ensures k * n <= y && (k * n) / n == k
  {
    assert y == (y / n) * n + y % n;
    assert (y / n) * n == k * n + (y / n - k) * n;
    RemainderUnique(k * n, n, k, 0);
  }

  lemma SignedAlike(a: Arc, val: nat, mask: nat)
    requires a.step == 1 && !a.isempty && a.left <= mask && a.right <= mask && val <= mask && mask % 2 == 1
    ensures AllAlike(a, SRight, val, mask) <==> TreatsAlike(a.left, a.right, SRight, val, mask)
  {
    var l, r, n, half := a.left, a.right, Pow2(val), mask / 2;
    var p := Shr(half, n);
    MulAtLeast(p, n);
    AroundTest(l, r, p, mask);
    if val <= half { HalvesTest(l, r, val, mask, false); } else { HalvesTest(l, r, mask - val, mask, true); }
    if TreatsAlike(l, r, SRight, val, mask) {
      forall x: nat | x <= mask ensures AlikeAt(a, SRight, val, mask, x) { SignedAlikeAt(a, val, mask, p, x); }
    }
    if AllAlike(a, SRight, val, mask) {
      forall k: nat | k <= p ensures AroundAt(l, r, mask, k) { SignedAround(a, val, mask, k); }
      if val <= half {
        forall x: nat | x <= mask ensures HalfAt(l, r, val, mask, false, x) { SignedHalf(a, val, mask, x); }
      } else {
        var z := mask - val;
        forall x: nat | x <= mask ensures HalfAt(l, r, z, mask, true, x) { SignedHalf(a, val, mask, x); }
      }
    }
  }

  lemma SignedAlikeAt(a: Arc, val: nat, mask: nat, p: nat, x: nat)
    requires a.step == 1 && !a.isempty && val <= mask && mask % 2 == 1 && x <= mask && p == Shr(mask / 2, Pow2(val))
    requires forall k: nat :: k <= p ==> AroundAt(a.left, a.right, mask, k)
    requires if val <= mask / 2 then HalfAt(a.left, a.right, val, mask, false, x) else HalfAt(a.left, a.right, mask - val, mask, true, x)
    ensures AlikeAt(a, SRight, val, mask, x)
  {
    SignedQuotient(x, Pow2(val), mask);
    SignedQuotient(val, Pow2(x), mask);
    var z := if x <= mask / 2 then x else mask - x;
    QuotientGrows(z, mask / 2, Pow2(val));
    assert AroundAt(a.left, a.right, mask, z / Pow2(val));
  }

  lemma SignedAround(a: Arc, val: nat, mask: nat, k: nat)
    requires a.step == 1 && !a.isempty && val <= mask && mask % 2 == 1 && k <= Shr(mask / 2, Pow2(val)) && AllAlike(a, SRight, val, mask)
    ensures AroundAt(a.left, a.right, mask, k)
  {
    var n := Pow2(val);
    MultipleFits(k, mask / 2, n);
    SignedQuotient(k * n, n, mask);
    SignedQuotient(mask - k * n, n, mask);
    MulAtLeast(k, n);
    assert AlikeAt(a, SRight, val, mask, k * n) && AlikeAt(a, SRight, val, mask, mask - k * n);
  }

  lemma SignedHalf(a: Arc, val: nat, mask: nat, x: nat)
    requires a.step == 1 && !a.isempty && val <= mask && mask % 2 == 1 && x <= mask && AllAlike(a, SRight, val, mask)
    ensures if val <= mask / 2 then HalfAt(a.left, a.right, val, mask, false, x) else HalfAt(a.left, a.right, mask - val, mask, true, x)
  {
    assert AlikeAt(a, SRight, val, mask, x);
    SignedQuotient(val, Pow2(x), mask);
  }

  /** For a shifted constant, the answer for the other slot is right if and only if the range treats both shifts alike. */
  lemma ShiftedConstantExact(c: Arc, a: Arc, op: BinaryOp, val: nat, slot: nat)
    requires a.step > 0 && c.step > 0 && op in {Right, SRight} && slot != 0 && val <= a.mask && a.mask >= 255 && a.mask % 2 == 1
    requires BinaryPreimage(c, a, op, val, 0, a.mask)
    ensures BinaryPreimage(c, a, op, val, slot, a.mask) <==> AllAlike(a, op, val, a.mask)
  {
    var mask := a.mask;
    if AllAlike(a, op, val, mask) {
      forall x: nat | x <= mask ensures c.Contains(x) <==> a.Contains(EvalBinary(op, x, val, slot, mask)) {
        assert AlikeAt(a, op, val, mask, x);
      }
    }
    if BinaryPreimage(c, a, op, val, slot, mask) {
      forall x: nat | x <= mask ensures a.Contains(EvalBinary(op, x, val, 0, mask)) <==> a.Contains(EvalBinary(op, x, val, 1, mask)) {
        assert c.Contains(x) <==> a.Contains(EvalBinary(op, x, val, 0, mask));
      }
      forall x: nat | x <= mask ensures AlikeAt(a, op, val, mask, x) {
        EitherVanishes(op, x, val, mask);
        EitherVanishes(op, mask / 2, val, mask);
      }
    }
  }

  /** One of the two shifts gives 0, or both give -1; and halfway round one gives 0 and the other -1. */
  lemma EitherVanishes(op: BinaryOp, x: nat, val: nat, mask: nat)
    requires op in {Right, SRight} && x <= mask && val <= mask && mask >= 255 && mask % 2 == 1
    ensures var f, g := EvalBinary(op, x, val, 0, mask), EvalBinary(op, x, val, 1, mask);
      || f == 0 || g == 0 || (op == SRight && val > mask / 2 && f == g == mask)
    ensures op == SRight && val > mask / 2 && x == mask / 2 ==>
      EvalBinary(op, x, val, 0, mask) == 0 && EvalBinary(op, x, val, 1, mask) == mask
  {
    if op == Right || (x <= mask / 2 && val <= mask / 2) {
      RightVanishes(x, val, mask);
    } else if val <= mask / 2 {
      ConstantVanishes(val, x, mask);
    } else if x <= mask / 2 {
      ConstantVanishes(x, val, mask);
      if x == mask / 2 { BecomesMinusOne(val, x, mask); }
    } else {
      BecomesMinusOne(x, val, mask);
      BecomesMinusOne(val, x, mask);
    }
  }

  /** A value below the shift is shifted out. */
  lemma RightVanishes(x: nat, val: nat, mask: nat)
    requires mask > 0
    ensures Shr(x, Pow2(val)) == 0 || Shr(val, Pow2(x)) == 0
    ensures Fold(x / Pow2(val), mask) == 0 || Fold(val / Pow2(x), mask) == 0
  {
    BelowPow2(x);
    BelowPow2(val);
    if x <= val { SmallQuotient(x, Pow2(val)); } else { SmallQuotient(val, Pow2(x)); }
    SmallMod(0, mask + 1);
  }

  lemma ConstantVanishes(x: nat, val: nat, mask: nat)
    requires x <= mask / 2 < val <= mask
    ensures Fold(Signed(x, mask) / Pow2(val), mask) == 0
  {
    BelowPow2(val);
    SmallQuotient(x, Pow2(val));
    SmallMod(0, mask + 1);
  }

  /** A negative value is shifted down to -1. */
  lemma BecomesMinusOne(x: nat, val: nat, mask: nat)
    requires mask / 2 < x <= mask && mask / 2 <= val && mask % 2 == 1
    ensures Fold(Signed(x, mask) / Pow2(val), mask) == mask
  {
    BelowPow2(val);
    NegativeQuotient(mask + 1 - x, Pow2(val), mask);
  }

  lemma {:induction false} BelowPow2(x: nat)
    ensures x < Pow2(x)
  {
    if x > 0 { BelowPow2(x - 1); }
  }

  lemma NegativeQuotient(x: nat, n: nat, mask: nat)
    requires 0 < x <= n && mask > 0
    ensures (0 - x) / n == -1 && Fold((0 - x) / n, mask) == mask
  {
    var q := (0 - x) / n;
    assert 0 - x == q * n + (0 - x) % n;
    if q >= 0 { MulAtLeast(q, n); }
    RemainderUnique(-1, mask + 1, -1, mask);
  }

  lemma AddCommutes(c: Arc, a: Arc, val: nat, slot: nat, mask: nat)
    requires a.step > 0 && c.step > 0
    ensures BinaryPreimage(c, a, Add, val, slot, mask) <==> BinaryPreimage(c, a, Add, val, 0, mask)
  {
  }

  /** A shift, whichever operand is the unknown: the slot is not looked at. */
  method PullBackShift(r: CircleRange, op: BinaryOp, val: nat, slot: nat, inSize: int) returns (ok: bool)
    requires r.View().WellFormed() && !r.isempty && op in {Right, SRight} && 1 <= inSize <= 8 && r.mask == MaskForSize(inSize)
    requires val < WORD
    modifies r
    ensures r.step > 0 && old(r.step) > 0
    ensures ok <==> old(r.step) == 1
    ensures ok ==> r.View().WellFormed() && r.mask == MaskForSize(inSize)
    ensures ok && slot == 0 ==> (BinaryPreimage(r.View(), old(r.View()), op, val, slot, r.mask) <==> BinarySafe(old(r.View()), op, val, slot, inSize))
    ensures ok && slot != 0 && val <= r.mask ==>
              (BinaryPreimage(r.View(), old(r.View()), op, val, slot, r.mask) <==> ConstantSafe(old(r.left), old(r.right), op, val, inSize, r.mask))
    ensures !ok ==> r.View() == old(r.View())
  {
    ghost var a := r.View();
    WellFormedStep(a);
    ok := PullBackRight(r, op, val, inSize);
    if ok && slot != 0 && val <= r.mask {
      MaskIsPow2(inSize);
      OddMask(inSize);
      ConstantExact(r.View(), a, op, val, slot, inSize);
    }
  }

  /** What a shift of the unknown that is not pulled back exactly comes to: all or nothing. */
  predicate AllOrNothing(c: Arc, a: Arc, op: BinaryOp) {
    if op == Right then c.left == c.right == 0 && (c.isempty <==> 0 < a.left < a.right) else c.isempty
  }

  /** For a shifted constant the answer for the other slot is right if and only if `ConstantSafe`. */
  lemma ConstantExact(c: Arc, a: Arc, op: BinaryOp, val: nat, slot: nat, inSize: int)
    requires a.step == c.step == 1 && c.mask == a.mask && !a.isempty && a.left <= a.mask && a.right <= a.mask && op in {Right, SRight}
    requires slot != 0 && val <= a.mask && a.mask >= 255 && a.mask % 2 == 1 && 1 <= inSize <= 8 && a.mask == MaskForSize(inSize)
    requires BinaryPreimage(c, a, op, val, 0, a.mask) <==> BinarySafe(a, op, val, 0, inSize)
    requires !BinarySafe(a, op, val, 0, inSize) ==> AllOrNothing(c, a, op)
    ensures BinaryPreimage(c, a, op, val, slot, a.mask) <==> ConstantSafe(a.left, a.right, op, val, inSize, a.mask)
  {
    if BinarySafe(a, op, val, 0, inSize) {
      SafeConstantExact(c, a, op, val, slot);
      if op == Right && a.left == a.right { HalvesOfAll(a.left, val, a.mask); }
    } else if op == Right {
      ZeroShifted(c, a, slot);
    } else {
      MaskIsPow2(inSize);
      SignShifted(c, a, val, slot, inSize);
    }
  }

  lemma SafeConstantExact(c: Arc, a: Arc, op: BinaryOp, val: nat, slot: nat)
    requires a.step == c.step == 1 && !a.isempty && a.left <= a.mask && a.right <= a.mask && op in {Right, SRight}
    requires slot != 0 && val <= a.mask && a.mask >= 255 && a.mask % 2 == 1 && BinaryPreimage(c, a, op, val, 0, a.mask)
    ensures BinaryPreimage(c, a, op, val, slot, a.mask) <==> TreatsAlike(a.left, a.right, op, val, a.mask)
  {
    ShiftedConstantExact(c, a, op, val, slot);
    if op == Right { RightAlike(a, val, a.mask); } else { SignedAlike(a, val, a.mask); }
  }

  /** A full range treats everything alike. */
  lemma {:induction false} HalvesOfAll(l: nat, v: nat, mask: nat)
    requires v <= mask
    ensures HalvesAlike(l, l, v, mask, false)
    decreases v
  {
    if v > 0 { HalvesOfAll(l, v / 2, mask); }
  }

  /** Zero shifted by anything is zero: all or nothing is right unless the range ends at the top. */
  lemma ZeroShifted(c: Arc, a: Arc, slot: nat)
    requires a.step == c.step == 1 && !a.isempty && a.left <= a.mask && a.right <= a.mask && a.left != a.right && slot != 0
    requires AllOrNothing(c, a, Right)
    ensures BinaryPreimage(c, a, Right, 0, slot, a.mask) <==> a.right != 0
  {
    forall x: nat ensures EvalBinary(Right, x, 0, slot, a.mask) == 0 && (c.Contains(x) <==> !c.isempty) {
      SmallQuotient(0, Pow2(x));
    }
    if BinaryPreimage(c, a, Right, 0, slot, a.mask) {
      assert c.Contains(0) <==> a.Contains(EvalBinary(Right, 0, 0, slot, a.mask));
    }
  }

  /** Where nothing is left, that is right when the range holds neither the constant nor what its sign fills up to. */
  lemma SignShifted(c: Arc, a: Arc, val: nat, slot: nat, inSize: int)
    requires a.step == c.step == 1 && !a.isempty && a.left <= a.mask && a.right <= a.mask && slot != 0 && c.isempty
    requires val <= a.mask && a.mask % 2 == 1 && a.mask > 0 && !SignedShiftSafe(a.left, a.right, a.mask, val, 8 * inSize) && a.mask < WORD
    ensures BinaryPreimage(c, a, SRight, val, slot, a.mask) <==>
      !Between(a.left, a.right, val) && !Between(a.left, a.right, if val <= a.mask / 2 then 0 else a.mask)
  {
    var mask, l, r := a.mask, a.left, a.right;
    ShiftsOfConstant(val, mask);
    if BinaryPreimage(c, a, SRight, val, slot, mask) {
      assert !c.Contains(0) && !c.Contains(mask);
    }
    if !Between(l, r, val) && !Between(l, r, if val <= mask / 2 then 0 else mask) {
      forall x: nat | x <= mask ensures !a.Contains(EvalBinary(SRight, x, val, slot, mask)) {
        ShiftsBetween(val, mask, x);
      }
    }
  }

  /** Shifting by nothing leaves the constant, and far enough only its sign. */
  lemma ShiftsOfConstant(val: nat, mask: nat)
    requires val <= mask && mask % 2 == 1
    ensures ShiftSigned(val, Pow2(0), mask) == val && ShiftSigned(val, Pow2(mask), mask) == if val <= mask / 2 then 0 else mask
  {
    assert Pow2(0) == 1;
    SignedQuotient(val, 1, mask);
    BelowPow2(mask);
    SignedQuotient(val, Pow2(mask), mask);
    SmallQuotient(if val <= mask / 2 then val else mask - val, Pow2(mask));
  }

  /** Whatever the shift, the result lies between the constant and its sign. */
  lemma ShiftsBetween(val: nat, mask: nat, x: nat)
    requires val <= mask && mask % 2 == 1
    ensures if val <= mask / 2 then ShiftSigned(val, Pow2(x), mask) <= val else val <= ShiftSigned(val, Pow2(x), mask) <= mask
  {
    SignedQuotient(val, Pow2(x), mask);
    if val <= mask / 2 { ShrAtMost(val, Pow2(x)); } else { ShrAtMost(mask - val, Pow2(x)); }
  }

  /** The range shifted back through a shift of the unknown by the constant. */
  method PullBackRight(r: CircleRange, op: BinaryOp, val: nat, inSize: int) returns (ok: bool)
    requires r.View().WellFormed() && !r.isempty && op in {Right, SRight} && 1 <= inSize <= 8 && r.mask == MaskForSize(inSize)
    requires val < WORD
    modifies r
    ensures r.step == old(r.step) > 0
    ensures ok <==> old(r.step) == 1
    ensures ok ==> r.View().WellFormed() && r.mask == MaskForSize(inSize)
    ensures ok ==> (BinaryPreimage(r.View(), old(r.View()), op, val, 0, r.mask) <==> BinarySafe(old(r.View()), op, val, 0, inSize))
    ensures ok && !BinarySafe(old(r.View()), op, val, 0, inSize) ==> AllOrNothing(r.View(), old(r.View()), op)
    ensures !ok ==> r.View() == old(r.View())
  {
    ghost var a := r.View();
    WellFormedStep(a);
    MaskIsPow2(inSize);
    if r.step != 1 {
      return false;
    }
    var empty, l, rt;
    if op == Right {
      empty, l, rt := RightShiftEdges(r.left, r.right, r.mask, val, 8 * inSize);
    } else {
      empty, l, rt := SignedShiftEdges(r.left, r.right, r.mask, val, 8 * inSize);
    }
    r.left, r.right, r.isempty := l, rt, empty;
    ShiftExactness(r.View(), a, op, val, 0);
    return true;
  }

  lemma ShiftExactness(c: Arc, a: Arc, op: BinaryOp, val: nat, slot: nat)
    requires c.mask == a.mask && c.step == a.step == 1 && !a.isempty && op in {Right, SRight} && slot == 0
    ensures op == Right ==> (BinaryPreimage(c, a, op, val, slot, a.mask) <==> RightShiftExact(a.left, a.right, a.mask, Pow2(val), c.isempty, c.left, c.right))
    ensures op == SRight ==> (BinaryPreimage(c, a, op, val, slot, a.mask) <==> SignedShiftExact(a.left, a.right, a.mask, Pow2(val), c.isempty, c.left, c.right))
  {
    var n := Pow2(val);
    forall x: nat
      ensures op == Right ==> (a.Contains(EvalBinary(op, x, val, slot, a.mask)) <==> Between(a.left, a.right, x / n))
      ensures op == SRight ==> (a.Contains(EvalBinary(op, x, val, slot, a.mask)) <==> Between(a.left, a.right, ShiftSigned(x, n, a.mask)))
      ensures c.Contains(x) <==> !c.isempty && Between(c.left, c.right, x)
    {
    }
  }

  /** Inputs of a unary operator: booleans under BOOL_NEGATE, the whole ring otherwise. */
  function UnaryTop(op: UnaryOp, inSize: int): nat { if op == BoolNegate then 1 else MaskForSize(inSize) }

  /** Pulls the range back through `op`; exact, except for INT_SEXT of a range holding the bare sign bit. */
  method PullBackUnary(r: CircleRange, op: UnaryOp, inSize: int, outSize: int) returns (ok: bool)
    requires r.View().WellFormed() && 1 <= inSize <= outSize <= 8 && r.mask == MaskForSize(outSize)
    requires if op in {ZeroExtend, SignExtend} then inSize < outSize else inSize == outSize
    requires op == ZeroExtend ==> r.step <= MaskForSize(inSize) + 1
    requires op == SignExtend ==> r.step < (MaskForSize(inSize) + 1) / 2
    modifies r
    ensures r.step > 0 && old(r.step) > 0
    ensures ok ==> r.View().WellFormed()
    ensures ok ==> (UnaryPreimage(r.View(), old(r.View()), op, MaskForSize(inSize), old(r.mask), UnaryTop(op, inSize)) <==>
                    !(op == SignExtend && old(r.View()).Contains(BareSign(old(r.View()), (MaskForSize(inSize) + 1) / 2))))
    ensures op in {BoolNegate, Copy, TwosComplement, Negate} ==> ok
  {
    WellFormedStep(r.View());
    if r.isempty {
      return true;
    }
    match op {
      case ZeroExtend => ok := PullBackZeroExtend(r, inSize, outSize);
      case SignExtend => ok := PullBackSignExtend(r, inSize, outSize);
      case OtherUnary => ok := false;
      case _ =>
        PullBackSimpleUnary(r, op);
        ok := true;
    }
  }
}

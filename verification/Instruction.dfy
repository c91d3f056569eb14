/**
 The control flow inside one instruction (pkg/bridge/bridge.go:2101-2162, 2400-2416):
 relative branches of its p-code, the cut into basic-block pieces, the ops dropped
 behind an end, and whether control can leave to the next instruction.
 */
module Instructions {
  import opened Options
  import opened Words

  datatype Address = Address(space: nat, offset: nat)

  datatype Code = BRANCH | CBRANCH | BRANCHIND | RETURN | OTHER

  /** The first input of an op; a branch to a constant is relative. */
  datatype Input = NoInput | ConstantInput(offset: nat, size: nat) | AddressInput(addr: Address)

  datatype RawOp = RawOp(code: Code, input: Input) {
    predicate IsHard() { code == BRANCH || code == BRANCHIND || code == RETURN }
    predicate IsBranch() { code == BRANCH || code == CBRANCH }
  }

  /** The constant read as a signed number of its size. */
  function Displacement(offset: nat, size: nat): int {
    if 0 < size < 8 then Signed(offset % Pow2(8 * size), Pow2(8 * size) - 1) else Signed(offset % WORD, WORD - 1)
  }

  /** The op a relative branch at `ops[i]` goes to; `|ops|` is the next instruction. */
  function RelativeTarget(ops: seq<RawOp>, i: int): (t: Option<nat>)
    ensures t.Some? ==> t.value <= |ops| && 0 <= i < |ops| && ops[i].IsBranch()
  {
    if i < 0 || i >= |ops| || !ops[i].IsBranch() || !ops[i].input.ConstantInput? then None
    else
      var t := i + Displacement(ops[i].input.offset, ops[i].input.size);
      if t < 0 || t > |ops| then None else Some(t)
  }

  // ----- runs -----

  /** Control can go from op `i` to position `j` of the same instruction (`|ops|`: the next one). */
  predicate Step(ops: seq<RawOp>, i: nat, j: nat) {
    && i < |ops|
    && (RelativeTarget(ops, i) == Some(j) || (j == i + 1 && !ops[i].IsHard()))
  }

  /** A run from op 0. */
  ghost predicate IsRun(ops: seq<RawOp>, p: seq<nat>) {
    && p != [] && p[0] == 0
    && forall k :: 0 <= k < |p| - 1 ==> Step(ops, p[k], p[k + 1])
  }

  ghost predicate Runs(ops: seq<RawOp>, j: nat) {
    exists p :: IsRun(ops, p) && p[|p| - 1] == j
  }

  // ----- the cut -----

  /** No relative branch of ops `0..i` goes past `i` inside the instruction. */
  ghost predicate Bounded(ops: seq<RawOp>, i: nat) {
    forall k: nat :: k <= i ==> TargetBounded(ops, k, i)
  }

  ghost predicate TargetBounded(ops: seq<RawOp>, k: nat, i: nat) {
    var t := RelativeTarget(ops, k);
    t.Some? && t.value < |ops| ==> t.value <= i
  }

  ghost predicate EndsAt(ops: seq<RawOp>, i: nat) {
    i < |ops| && ops[i].IsHard() && Bounded(ops, i)
  }

  /** The ops kept are those up to the first end. */
  ghost predicate IsCut(ops: seq<RawOp>, n: nat) {
    && n <= |ops|
    && (forall i: nat :: i + 1 < n ==> !EndsAt(ops, i))
    && (n < |ops| ==> n > 0)
    && (n > 0 && !EndsAt(ops, n - 1) ==> n == |ops|)
  }

  /** Op `i` must start a piece: a kept branch targets it or ends just before it. */
  ghost predicate Boundary(ops: seq<RawOp>, n: nat, i: nat) {
    0 < i < n && i <= |ops| && (ops[i - 1].IsBranch() || exists k: nat :: k < n && RelativeTarget(ops, k) == Some(i))
  }

  /** The pieces cover `[0, n)` in order, and only the last piece of no ops is empty. */
  ghost predicate Partition(segs: seq<(nat, nat)>, n: nat) {
    && segs != [] && segs[0].0 == 0 && segs[|segs| - 1].1 == n
    && (forall k :: 0 <= k < |segs| - 1 ==> segs[k].1 == segs[k + 1].0)
    && (forall k :: 0 <= k < |segs| ==> segs[k].0 < segs[k].1 || (n == 0 && segs[k].0 == segs[k].1 == 0))
  }

  ghost predicate IsStart(segs: seq<(nat, nat)>, i: nat) {
    exists k :: 0 <= k < |segs| && segs[k].0 == i
  }

  /** What the split promises: the kept ops in pieces that start exactly where they must. */
  ghost predicate IsSplit(ops: seq<RawOp>, segs: seq<(nat, nat)>, n: nat) {
    && IsCut(ops, n)
    && Partition(segs, n)
    && forall i: nat :: 0 < i < n ==> (IsStart(segs, i) <==> Boundary(ops, n, i))
  }

  // ----- marking -----

  ghost predicate TargetedBy(ops: seq<RawOp>, i: nat, j: nat) {
    exists k: nat :: k < i && RelativeTarget(ops, k) == Some(j)
  }

  /** Position `j` is marked once the targets of `i` ops and the ends of `e` ops are. */
  ghost predicate MarkedBy(ops: seq<RawOp>, i: nat, e: nat, j: nat) {
    || (0 < j <= e && j <= |ops| && ops[j - 1].IsBranch())
    || (j < |ops| && TargetedBy(ops, i, j))
  }

  ghost predicate MarkAt(ops: seq<RawOp>, start: seq<bool>, i: nat, e: nat, j: nat) {
    0 < j < |start| ==> (start[j] <==> MarkedBy(ops, i, e, j))
  }

  ghost predicate Marked(ops: seq<RawOp>, start: seq<bool>, maxTarget: nat, i: nat, e: nat) {
    && |start| == |ops| + 1
    && (forall j: nat :: j < |start| ==> MarkAt(ops, start, i, e, j))
    && (forall k: nat :: k < i ==> TargetBounded(ops, k, maxTarget))
    && (maxTarget == 0 || (maxTarget < |ops| && TargetedBy(ops, i, maxTarget)))
  }

  lemma TargetedMore(ops: seq<RawOp>, i: nat, j: nat)
    ensures TargetedBy(ops, i + 1, j) <==> TargetedBy(ops, i, j) || RelativeTarget(ops, i) == Some(j)
  {
  }

  /** Marking the target of op `i`. */
  lemma MarkTarget(ops: seq<RawOp>, start: seq<bool>, maxTarget: nat, i: nat, start': seq<bool>, maxTarget': nat)
    requires Marked(ops, start, maxTarget, i, i) && i < |ops|
    requires var t := RelativeTarget(ops, i);
      if t.Some? && t.value < |ops| then start' == start[t.value := true] && maxTarget' == (if t.value > maxTarget then t.value else maxTarget)
      else start' == start && maxTarget' == maxTarget
    ensures Marked(ops, start', maxTarget', i + 1, i)
  {
    var next := i + 1;
    forall j: nat | j < |start'| ensures MarkAt(ops, start', next, i, j) {
      assert MarkAt(ops, start, i, i, j);
      TargetedMore(ops, i, j);
    }
    forall k: nat | k < i + 1 ensures TargetBounded(ops, k, maxTarget') {
      if k < i { assert TargetBounded(ops, k, maxTarget); }
    }
    TargetedMore(ops, i, maxTarget');
  }

  lemma MarkEnd(ops: seq<RawOp>, start: seq<bool>, maxTarget: nat, i: nat)
    requires Marked(ops, start, maxTarget, i + 1, i) && i < |ops|
    ensures Marked(ops, if ops[i].IsBranch() then start[i + 1 := true] else start, maxTarget, i + 1, i + 1)
  {
    var start' := if ops[i].IsBranch() then start[i + 1 := true] else start;
    var next := i + 1;
    forall j: nat | j < |start'| ensures MarkAt(ops, start', next, next, j) {
      assert MarkAt(ops, start, i + 1, i, j);
    }
  }

  /** The test for an end is exact. */
  lemma EndTest(ops: seq<RawOp>, start: seq<bool>, maxTarget: nat, i: nat)
    requires Marked(ops, start, maxTarget, i + 1, i) && i < |ops|
    ensures ops[i].IsHard() && i >= maxTarget <==> EndsAt(ops, i)
  {
    if i >= maxTarget {
      forall k: nat | k <= i ensures TargetBounded(ops, k, i) { assert TargetBounded(ops, k, maxTarget); }
    } else {
      var k: nat :| k < i + 1 && RelativeTarget(ops, k) == Some(maxTarget);
      assert !TargetBounded(ops, k, i);
    }
  }

  /** The marks below the cut are the boundaries. */
  lemma MarksAreBoundaries(ops: seq<RawOp>, start: seq<bool>, maxTarget: nat, n: nat, e: nat)
    requires Marked(ops, start, maxTarget, n, e) && n <= |ops| && (e == n || e + 1 == n)
    ensures forall i: nat :: 0 < i < n ==> (start[i] <==> Boundary(ops, n, i))
  {
    forall i: nat | 0 < i < n ensures start[i] <==> Boundary(ops, n, i) {
      assert MarkAt(ops, start, n, e, i);
    }
  }

  /** Marks where pieces start and finds the first end. */
  method MarkStarts(ops: seq<RawOp>) returns (start: seq<bool>, n: nat)
    ensures |start| == |ops| + 1 && IsCut(ops, n)
    ensures forall i: nat :: 0 < i < n ==> (start[i] <==> Boundary(ops, n, i))
  {
    n := |ops|;
    start := seq(n + 1, i => false);
    var maxTarget: nat := 0;
    var i: nat := 0;
    while i < |ops|
      invariant 0 <= i <= |ops| && n == |ops|
      invariant Marked(ops, start, maxTarget, i, i)
      invariant forall k: nat :: k < i ==> !EndsAt(ops, k)
    {
      ghost var start0, max0 := start, maxTarget;
      var t := RelativeTarget(ops, i);
      if t.Some? && t.value < n {
        start := start[t.value := true];
        if t.value > maxTarget { maxTarget := t.value; }
      }
      MarkTarget(ops, start0, max0, i, start, maxTarget);
      EndTest(ops, start, maxTarget, i);
      if ops[i].IsHard() && i >= maxTarget {
        n := i + 1;
        MarksAreBoundaries(ops, start, maxTarget, n, i);
        return;
      }
      MarkEnd(ops, start, maxTarget, i);
      if ops[i].IsBranch() { start := start[i + 1 := true]; }
      i := i + 1;
    }
    MarksAreBoundaries(ops, start, maxTarget, n, n);
  }

  // ----- cutting -----

  /** The pieces finished and the one begun at `from`, after positions below `i`. */
  ghost predicate Cutting(segs: seq<(nat, nat)>, from: nat, start: seq<bool>, i: nat) {
    && from < i <= |start|
    && Chain(segs, from)
    && (forall j: nat :: 0 < j < i ==> (start[j] <==> (j == from || IsStart(segs, j))))
    && (from == 0 <==> segs == [])
  }

  ghost predicate Chain(segs: seq<(nat, nat)>, end: nat) {
    && (segs != [] ==> segs[0].0 == 0 && segs[|segs| - 1].1 == end)
    && (forall k :: 0 <= k < |segs| - 1 ==> segs[k].1 == segs[k + 1].0)
    && (forall k :: 0 <= k < |segs| ==> segs[k].0 < segs[k].1)
  }

  lemma StartsAppend(segs: seq<(nat, nat)>, s: (nat, nat), j: nat)
    ensures IsStart(segs + [s], j) <==> IsStart(segs, j) || s.0 == j
  {
    var all := segs + [s];
    if IsStart(segs, j) {
      var k :| 0 <= k < |segs| && segs[k].0 == j;
      assert all[k].0 == j;
    }
    if s.0 == j { assert all[|segs|].0 == j; }
  }

  lemma CutHere(segs: seq<(nat, nat)>, from: nat, start: seq<bool>, i: nat)
    requires Cutting(segs, from, start, i) && i < |start| && start[i]
    ensures Cutting(segs + [(from, i)], i, start, i + 1)
  {
    var all := segs + [(from, i)];
    ChainAppend(segs, from, i);
    forall j: nat | 0 < j < i + 1 ensures start[j] <==> (j == i || IsStart(all, j)) {
      StartsAppend(segs, (from, i), j);
      if j == i && IsStart(segs, j) { StartsBelow(segs, from, j); }
    }
  }

  lemma StartsBelow(segs: seq<(nat, nat)>, from: nat, j: nat)
    requires Chain(segs, from) && IsStart(segs, j)
    ensures j < from
  {
    var k :| 0 <= k < |segs| && segs[k].0 == j;
    EndsBelow(segs, from, k);
  }

  lemma {:induction false} EndsBelow(segs: seq<(nat, nat)>, from: nat, k: nat)
    requires Chain(segs, from) && k < |segs|
    ensures segs[k].1 <= from
    decreases |segs| - k
  {
    if k < |segs| - 1 { EndsBelow(segs, from, k + 1); }
  }

  lemma ChainAppend(segs: seq<(nat, nat)>, from: nat, i: nat)
    requires Chain(segs, from) && from < i && (segs == [] ==> from == 0)
    ensures Chain(segs + [(from, i)], i)
  {
  }

  lemma CutNotHere(segs: seq<(nat, nat)>, from: nat, start: seq<bool>, i: nat)
    requires Cutting(segs, from, start, i) && i < |start| && !start[i]
    ensures Cutting(segs, from, start, i + 1)
  {
    if IsStart(segs, i) { StartsBelow(segs, from, i); }
  }

  /** Cuts the ops of an instruction into basic-block pieces `[start, end)`. */
  method SplitInstruction(ops: seq<RawOp>) returns (segs: seq<(nat, nat)>)
    ensures segs != [] && IsSplit(ops, segs, segs[|segs| - 1].1)
  {
    var start, n := MarkStarts(ops);
    segs := [];
    var from := 0;
    var i := 1;
    while i < n
      invariant 1 <= i && (n > 0 ==> i <= n)
      invariant Cutting(segs, from, start, i) && (n == 0 ==> segs == [])
    {
      if start[i] {
        CutHere(segs, from, start, i);
        segs := segs + [(from, i)];
        from := i;
      } else {
        CutNotHere(segs, from, start, i);
      }
      i := i + 1;
    }
    if n > 0 { ChainAppend(segs, from, n); }
    forall i: nat | 0 < i < n ensures IsStart(segs + [(from, n)], i) <==> Boundary(ops, n, i) {
      StartsAppend(segs, (from, n), i);
    }
    segs := segs + [(from, n)];
  }

  // ----- what the cut keeps -----

  lemma StepStaysKept(ops: seq<RawOp>, n: nat, i: nat, j: nat)
    requires IsCut(ops, n) && i < n && Step(ops, i, j)
    ensures j < n || j == |ops|
  {
    if n < |ops| {
      assert EndsAt(ops, n - 1);
      assert TargetBounded(ops, i, n - 1);
    }
  }

  lemma {:induction false} RunStaysKeptAt(ops: seq<RawOp>, n: nat, p: seq<nat>, k: nat)
    requires IsCut(ops, n) && IsRun(ops, p) && k < |p|
    ensures p[k] < n || p[k] == |ops|
  {
    if k > 0 {
      RunStaysKeptAt(ops, n, p, k - 1);
      assert Step(ops, p[k - 1], p[k - 1 + 1]);
      StepStaysKept(ops, n, p[k - 1], p[k]);
    }
  }

  /** No run reaches a dropped op. */
  lemma DroppedIsUnreachable(ops: seq<RawOp>, segs: seq<(nat, nat)>, n: nat, j: nat)
    requires IsSplit(ops, segs, n) && Runs(ops, j)
    ensures j < n || j == |ops|
  {
    var p :| IsRun(ops, p) && p[|p| - 1] == j;
    RunStaysKeptAt(ops, n, p, |p| - 1);
  }

  /** Every kept op a kept relative branch goes to starts a piece. */
  lemma TargetStartsPiece(ops: seq<RawOp>, segs: seq<(nat, nat)>, n: nat, i: nat, t: nat)
    requires IsSplit(ops, segs, n) && i < n && RelativeTarget(ops, i) == Some(t) && t < n
    ensures IsStart(segs, t)
  {
    if t == 0 {
      assert segs[0].0 == 0;
    } else {
      assert Boundary(ops, n, t);
    }
  }

  lemma StartEndsPiece(segs: seq<(nat, nat)>, n: nat, i: nat)
    requires Partition(segs, n) && i > 0 && (i == n || IsStart(segs, i))
    ensures exists k :: 0 <= k < |segs| && segs[k].1 == i
  {
    if i == n {
      assert segs[|segs| - 1].1 == i;
    } else {
      var k :| 0 <= k < |segs| && segs[k].0 == i;
      assert segs[k - 1].1 == segs[k - 1 + 1].0;
      assert segs[k - 1].1 == i;
    }
  }

  /** Every kept branch ends a piece. */
  lemma BranchEndsPiece(ops: seq<RawOp>, segs: seq<(nat, nat)>, n: nat, i: nat)
    requires IsSplit(ops, segs, n) && i < n && ops[i].IsBranch()
    ensures exists k :: 0 <= k < |segs| && segs[k].1 == i + 1
  {
    if i + 1 < n { assert Boundary(ops, n, i + 1); }
    StartEndsPiece(segs, n, i + 1);
  }

  ghost predicate InPiece(segs: seq<(nat, nat)>, k: nat, i: nat) {
    k < |segs| && segs[k].0 <= i < segs[k].1
  }

  lemma {:induction false} PieceOf(segs: seq<(nat, nat)>, n: nat, i: nat, k: nat) returns (at: nat)
    requires Partition(segs, n) && k < |segs| && segs[k].0 <= i < n
    ensures InPiece(segs, at, i)
    decreases |segs| - k
  {
    if i < segs[k].1 {
      at := k;
    } else {
      assert segs[k].1 == segs[k + 1].0;
      at := PieceOf(segs, n, i, k + 1);
    }
  }

  /** Control enters a piece only at its start: the pieces are basic blocks. */
  lemma PiecesAreBlocks(ops: seq<RawOp>, segs: seq<(nat, nat)>, n: nat, i: nat, j: nat)
    requires IsSplit(ops, segs, n) && i < n && Step(ops, i, j) && j < n
    ensures IsStart(segs, j) || (j == i + 1 && exists k :: InPiece(segs, k, i) && InPiece(segs, k, j))
  {
    if RelativeTarget(ops, i) == Some(j) {
      TargetStartsPiece(ops, segs, n, i, j);
    } else {
      var k := PieceOf(segs, n, i, 0);
      if segs[k].1 == j {
        assert k < |segs| - 1;
        assert segs[k].1 == segs[k + 1].0;
      } else {
        assert InPiece(segs, k, j);
      }
    }
  }

  // ----- falling through -----

  /** Some kept op can pass control to the next instruction. */
  ghost predicate Leaves(ops: seq<RawOp>, n: nat) {
    |ops| == 0 || exists i: nat :: i < n && Step(ops, i, |ops|)
  }

  /** Whenever a run leaves to the next instruction, some kept op does. */
  lemma RunLeaves(ops: seq<RawOp>, n: nat)
    requires IsCut(ops, n) && Runs(ops, |ops|)
    ensures Leaves(ops, n)
  {
    if |ops| > 0 { LeaverOfRun(ops, n); }
  }

  // ----- which ops are reached -----

  /** The positions one step away from `seen`, and `seen` itself. */
  function Spread(ops: seq<RawOp>, seen: set<nat>): set<nat> {
    seen + set j: nat | j <= |ops| && EnteredFrom(ops, seen, j)
  }

  predicate EnteredFrom(ops: seq<RawOp>, seen: set<nat>, j: nat) {
    exists i :: i in seen && Step(ops, i, j)
  }

  function UpTo(n: nat): (s: set<nat>)
    ensures |s| == n + 1 && forall k: nat :: k in s <==> k <= n
  {
    if n == 0 then {0} else UpTo(n - 1) + {n}
  }

  /** The positions that runs get to from `seen`. */
  function Closure(ops: seq<RawOp>, seen: set<nat>): set<nat>
    requires seen <= UpTo(|ops|)
    decreases |UpTo(|ops|) - seen|
  {
    var more := Spread(ops, seen);
    if more == seen then seen
    else
      SpreadGrows(ops, seen);
      Closure(ops, more)
  }

  lemma SpreadGrows(ops: seq<RawOp>, seen: set<nat>)
    requires seen <= UpTo(|ops|)
    ensures Spread(ops, seen) <= UpTo(|ops|)
    ensures Spread(ops, seen) != seen ==> |UpTo(|ops|) - Spread(ops, seen)| < |UpTo(|ops|) - seen|
  {
    var all, more := UpTo(|ops|), Spread(ops, seen);
    if more != seen {
      var x :| x in more && x !in seen;
      assert all - more <= (all - seen) - {x};
      SmallerSet(all - more, (all - seen) - {x});
    }
  }

  lemma SmallerSet(a: set<nat>, b: set<nat>)
    requires a <= b
    ensures |a| <= |b|
  {
    assert b == a + (b - a);
  }

  /** The ops a run from op 0 gets to, computed. */
  function Reached(ops: seq<RawOp>): set<nat> { Closure(ops, {0}) }

  /** Closed under steps. */
  lemma {:induction false} ClosureIsClosed(ops: seq<RawOp>, seen: set<nat>, i: nat, j: nat)
    requires seen <= UpTo(|ops|) && i in Closure(ops, seen) && Step(ops, i, j)
    ensures j in Closure(ops, seen)
    decreases |UpTo(|ops|) - seen|
  {
    var more := Spread(ops, seen);
    if more == seen {
      assert EnteredFrom(ops, seen, j) && j in Spread(ops, seen);
    } else {
      SpreadGrows(ops, seen);
      ClosureIsClosed(ops, more, i, j);
    }
  }

  lemma {:induction false} ClosureHolds(ops: seq<RawOp>, seen: set<nat>)
    requires seen <= UpTo(|ops|)
    ensures seen <= Closure(ops, seen)
    decreases |UpTo(|ops|) - seen|
  {
    var more := Spread(ops, seen);
    if more != seen {
      SpreadGrows(ops, seen);
      ClosureHolds(ops, more);
    }
  }

  /** Nothing gets into the closure that runs do not reach. */
  lemma {:induction false} ClosureIsReached(ops: seq<RawOp>, seen: set<nat>, j: nat)
    requires seen <= UpTo(|ops|) && (forall i :: i in seen ==> Runs(ops, i)) && j in Closure(ops, seen)
    ensures Runs(ops, j)
    decreases |UpTo(|ops|) - seen|
  {
    var more := Spread(ops, seen);
    if more != seen {
      forall k | k in more ensures Runs(ops, k) {
        if k !in seen {
          var i :| i in seen && Step(ops, i, k);
          RunsOn(ops, i, k);
        }
      }
      SpreadGrows(ops, seen);
      ClosureIsReached(ops, more, j);
    }
  }

  lemma RunsOn(ops: seq<RawOp>, i: nat, j: nat)
    requires Runs(ops, i) && Step(ops, i, j)
    ensures Runs(ops, j)
  {
    var p :| IsRun(ops, p) && p[|p| - 1] == i;
    var q := p + [j];
    forall k | 0 <= k < |q| - 1 ensures Step(ops, q[k], q[k + 1]) {
      if k < |p| - 1 { assert Step(ops, p[k], p[k + 1]); }
    }
    assert IsRun(ops, q) && q[|q| - 1] == j;
  }

  lemma {:induction false} RunIsInClosure(ops: seq<RawOp>, p: seq<nat>, k: nat)
    requires IsRun(ops, p) && k < |p|
    ensures p[k] in Reached(ops)
  {
    ClosureHolds(ops, {0});
    if k > 0 {
      RunIsInClosure(ops, p, k - 1);
      assert Step(ops, p[k - 1], p[k - 1 + 1]);
      ClosureIsClosed(ops, {0}, p[k - 1], p[k]);
    }
  }

  /** The computed set is exactly where runs get to. */
  lemma ReachedIsRuns(ops: seq<RawOp>, j: nat)
    ensures j in Reached(ops) <==> Runs(ops, j)
  {
    if Runs(ops, j) {
      var p :| IsRun(ops, p) && p[|p| - 1] == j;
      RunIsInClosure(ops, p, |p| - 1);
    }
    if j in Reached(ops) {
      assert IsRun(ops, [0]) && [0][0] == 0;
      ClosureIsReached(ops, {0}, j);
    }
  }

  /** A kept op that can pass control to the next instruction is reached, or there is none that can. */
  predicate LeaversReached(ops: seq<RawOp>, n: nat) {
    || |ops| == 0
    || (forall i: nat :: i < n ==> !Step(ops, i, |ops|))
    || exists i: nat :: i < n && i in Reached(ops) && Step(ops, i, |ops|)
  }

  /**
   The answer "some kept op can leave" is the answer "some run leaves" exactly when no
   kept op can leave, or a reached one can.
   */
  lemma LeavingExactly(ops: seq<RawOp>, n: nat)
    requires IsCut(ops, n)
    ensures (Leaves(ops, n) <==> Runs(ops, |ops|)) <==> LeaversReached(ops, n)
  {
    if |ops| == 0 {
      assert IsRun(ops, [0]) && [0][0] == 0;
    } else {
      if Runs(ops, |ops|) { LeaverOfRun(ops, n); }
      if i: nat :| i < n && i in Reached(ops) && Step(ops, i, |ops|) {
        ReachedIsRuns(ops, i);
        RunsOn(ops, i, |ops|);
      }
    }
  }

  /** A run that leaves does so from a reached kept op. */
  lemma LeaverOfRun(ops: seq<RawOp>, n: nat)
    requires IsCut(ops, n) && Runs(ops, |ops|) && |ops| > 0
    ensures exists i: nat :: i < n && i in Reached(ops) && Step(ops, i, |ops|)
  {
    var p :| IsRun(ops, p) && p[|p| - 1] == |ops|;
    var k := |p| - 2;
    RunStaysKeptAt(ops, n, p, k);
    RunIsInClosure(ops, p, k);
    assert Step(ops, p[k], p[k + 1]);
  }

  /** The converse fails: here op 1 branches out of the instruction but no run gets to it. */
  lemma LeavingMayBeDead()
    ensures var ops := [RawOp(BRANCH, ConstantInput(2, 8)), RawOp(BRANCH, ConstantInput(2, 8)), RawOp(RETURN, NoInput)];
      IsCut(ops, 3) && Leaves(ops, 3) && !Runs(ops, 3)
  {
    var ops := [RawOp(BRANCH, ConstantInput(2, 8)), RawOp(BRANCH, ConstantInput(2, 8)), RawOp(RETURN, NoInput)];
    assert RelativeTarget(ops, 0) == Some(2) && RelativeTarget(ops, 1) == Some(3) && RelativeTarget(ops, 2) == None;
    assert !TargetBounded(ops, 0, 0) && !TargetBounded(ops, 0, 1);
    assert Step(ops, 1, 3);
    if Runs(ops, 3) {
      var p :| IsRun(ops, p) && p[|p| - 1] == 3;
      DeadRun(ops, p, |p| - 1);
    }
  }

  lemma {:induction false} DeadRun(ops: seq<RawOp>, p: seq<nat>, k: nat)
    requires ops == [RawOp(BRANCH, ConstantInput(2, 8)), RawOp(BRANCH, ConstantInput(2, 8)), RawOp(RETURN, NoInput)]
    requires IsRun(ops, p) && k < |p|
    ensures p[k] == 0 || p[k] == 2
  {
    if k > 0 {
      DeadRun(ops, p, k - 1);
      assert Step(ops, p[k - 1], p[k - 1 + 1]);
      assert RelativeTarget(ops, 0) == Some(2) && RelativeTarget(ops, 2) == None;
    }
  }

  /** Whether control can leave the instruction to the next one. */
  method InstructionFallsThrough(ops: seq<RawOp>) returns (falls: bool)
    ensures Runs(ops, |ops|) ==> falls
    ensures (falls <==> Runs(ops, |ops|)) <==> exists n: nat :: IsCut(ops, n) && LeaversReached(ops, n)
    ensures falls <==> exists n: nat :: IsCut(ops, n) && Leaves(ops, n)
  {
    var segs := SplitInstruction(ops);
    var n := segs[|segs| - 1].1;
    LeavesOnce(ops, n);
    LeavingExactly(ops, n);
    if Runs(ops, |ops|) { RunLeaves(ops, n); }
    for i := 0 to n
      invariant forall k: nat :: k < i ==> RelativeTarget(ops, k) != Some(|ops|)
    {
      if RelativeTarget(ops, i) == Some(|ops|) {
        assert Step(ops, i, |ops|);
        return true;
      }
    }
    if n == 0 { return true; }
    if ops[n - 1].IsHard() { return false; }
    assert !EndsAt(ops, n - 1);
    assert Step(ops, n - 1, |ops|);
    return true;
  }

  /** There is one cut. */
  lemma LeavesOnce(ops: seq<RawOp>, n: nat)
    requires IsCut(ops, n)
    ensures forall m: nat :: IsCut(ops, m) ==> m == n
  {
    forall m: nat | IsCut(ops, m) ensures m == n {
      if m < n { CutIsFirst(ops, m, n); }
      if n < m { CutIsFirst(ops, n, m); }
    }
  }

  lemma CutIsFirst(ops: seq<RawOp>, m: nat, n: nat)
    requires IsCut(ops, m) && IsCut(ops, n)
    ensures m >= n
  {
    if m > 0 { assert EndsAt(ops, m - 1) || m == |ops|; }
  }
}

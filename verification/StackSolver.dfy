/**
 The solver for stack-pointer offsets (pkg/pcode/action_stackptrflow.go:25-118):
 difference equations between variables, propagated from variable 0, with guesses
 taken wherever a connected part is still unknown.
 */
module StackSolvers {
  import opened Options
  import opened Words
  import opened Sorting

  const UNKNOWN: int := 65535
  const RING: int := 0x1_0000_0000

  /** The value as an `int32`. */
  function Wrap(x: int): int {
    Signed(x % RING, RING - 1)
  }

  /** Equal as `int32`. */
  ghost predicate Same(a: int, b: int) { exists k: int :: Turns(a, b, k) }

  ghost predicate Turns(a: int, b: int, k: int) { a == b + k * RING }

  lemma WrapIsSame(x: int)
    ensures Same(Wrap(x), x)
  {
    var k := (Wrap(x) - x) / RING;
    assert Turns(Wrap(x), x, k);
  }

  /** `var1 - var2 = rhs`. */
  datatype Eqn = Eqn(var1: nat, var2: nat, rhs: int)

  function Mirror(e: Eqn): Eqn { Eqn(e.var2, e.var1, Wrap(-e.rhs)) }

  function Mirrored(s: seq<Eqn>): (r: seq<Eqn>)
    ensures forall e :: e in s ==> e in r && Mirror(e) in r
    ensures forall e :: e in r ==> e in s || exists f :: f in s && e == Mirror(f)
  {
    var back := seq(|s|, i requires 0 <= i < |s| => Mirror(s[i]));
    assert forall i :: 0 <= i < |s| ==> back[i] == Mirror(s[i]);
    s + back
  }

  // ----- what a solution is -----

  /** The system as it is given. */
  datatype System = System(vars: nat, eqs: seq<Eqn>, guess: seq<Eqn>) {
    ghost predicate Valid() {
      vars > 0 && InRange(eqs) && InRange(guess)
    }
    ghost predicate InRange(s: seq<Eqn>) {
      forall e :: e in s ==> e.var1 < vars && e.var2 < vars
    }
    ghost predicate Link(e: Eqn) {
      e in Mirrored(eqs) || e in Mirrored(guess)
    }
  }

  /** A walk from variable 0 to `v` along equations and guesses, either way round. */
  ghost predicate IsWalk(sys: System, p: seq<Eqn>, v: nat) {
    if p == [] then v == 0
    else
      var e := p[|p| - 1];
      sys.Link(e) && e.var2 == v && IsWalk(sys, p[..|p| - 1], e.var1)
  }

  function Along(p: seq<Eqn>): int {
    if p == [] then 0 else Wrap(Along(p[..|p| - 1]) - p[|p| - 1].rhs)
  }

  ghost predicate Connected(sys: System, v: nat) { exists p :: IsWalk(sys, p, v) }

  /** A walk that visits each variable of `s` once, and no other. */
  ghost predicate IsPath(sys: System, p: seq<Eqn>, v: nat, s: set<nat>) {
    if p == [] then v == 0 && s == {0}
    else
      var e := p[|p| - 1];
      v in s && sys.Link(e) && e.var2 == v && IsPath(sys, p[..|p| - 1], e.var1, s - {v})
  }

  /** No offset that a walk without repeated variables produces is the mark of an unknown. */
  ghost predicate NoSentinel(sys: System) {
    forall p, v, s :: IsPath(sys, p, v, s) ==> Along(p) != UNKNOWN
  }

  ghost predicate Holds(e: Eqn, x: seq<int>)
    requires e.var1 < |x| && e.var2 < |x|
  {
    Same(x[e.var1] - x[e.var2], e.rhs)
  }

  /** `x` satisfies every equation of the part connected to variable 0. */
  ghost predicate Satisfies(sys: System, x: seq<int>) {
    |x| == sys.vars &&
    forall e :: e in sys.eqs && e.var1 < |x| && e.var2 < |x| && Connected(sys, e.var1) ==> Holds(e, x)
  }

  ghost predicate Known(soln: seq<int>, v: nat) { v < |soln| && soln[v] != UNKNOWN }

  // ----- the invariant between calls -----

  /** `val` is the offset of some walk to `v` through the variables of `s`, each once. */
  ghost predicate Reaches(sys: System, v: nat, val: int, s: set<nat>) {
    exists p :: IsPath(sys, p, v, s) && Along(p) == val
  }

  /** A relation between variables, values and sets; the proofs below only use that it is a `Cover`. */
  type Reach = (nat, int, set<nat>) -> bool

  ghost predicate ReachedAs(reach: Reach, v: nat, val: int) { exists s :: reach(v, val, s) }

  /**
   `reach` follows the links to new variables and never meets the mark, and `x`, when it
   `fits`, satisfies the equations wherever `reach` goes.
   */
  ghost predicate Cover(sys: System, reach: Reach, x: seq<int>, fits: bool) {
    && (forall v: nat, val: int, s :: reach(v, val, s) ==> val != UNKNOWN)
    && (forall e: Eqn, val: int, s :: FollowsAt(sys, reach, e, val, s))
    && (fits ==> |x| == sys.vars)
    && (fits ==> forall e: Eqn, val: int :: FitsFrom(sys, reach, e, val, x))
  }

  ghost predicate FollowsAt(sys: System, reach: Reach, e: Eqn, val: int, s: set<nat>) {
    sys.Link(e) && reach(e.var1, val, s) && e.var2 !in s ==> reach(e.var2, Wrap(val - e.rhs), s + {e.var2})
  }

  ghost predicate FitsFrom(sys: System, reach: Reach, e: Eqn, val: int, x: seq<int>) {
    e in sys.eqs && (ReachedAs(reach, e.var1, val) || ReachedAs(reach, e.var2, val)) ==> FitsAt(e, x)
  }

  ghost predicate FitsAt(e: Eqn, x: seq<int>) { e.var1 < |x| && e.var2 < |x| && Holds(e, x) }

  /** Reached through variables that are known. */
  ghost predicate Grounded(reach: Reach, soln: seq<int>, v: nat, val: int) {
    exists s :: GroundedBy(reach, soln, v, val, s)
  }

  ghost predicate GroundedBy(reach: Reach, soln: seq<int>, v: nat, val: int, s: set<nat>) {
    reach(v, val, s) && forall u :: u in s && u != v ==> Known(soln, u)
  }

  ghost predicate JustifiedAt(reach: Reach, soln: seq<int>, v: nat) {
    Known(soln, v) ==> Grounded(reach, soln, v, soln[v])
  }

  ghost predicate Justified(reach: Reach, soln: seq<int>) {
    forall v :: 0 <= v < |soln| ==> JustifiedAt(reach, soln, v)
  }

  ghost predicate ClosedAt(soln: seq<int>, e: Eqn) { Known(soln, e.var1) <==> Known(soln, e.var2) }

  ghost predicate Closed(eqs: seq<Eqn>, soln: seq<int>) {
    forall e :: e in eqs ==> ClosedAt(soln, e)
  }

  ghost predicate AgreesAt(soln: seq<int>, e: Eqn) {
    Known(soln, e.var1) && Known(soln, e.var2) ==> Holds(e, soln)
  }

  ghost predicate Agrees(eqs: seq<Eqn>, soln: seq<int>) {
    forall e :: e in eqs ==> AgreesAt(soln, e)
  }

  /** What every call of `propagate` keeps. */
  ghost predicate Settled(sys: System, soln: seq<int>, reach: Reach, fits: bool) {
    && |soln| == sys.vars
    && Justified(reach, soln)
    && Closed(sys.eqs, soln)
    && (fits ==> Agrees(sys.eqs, soln))
  }

  ghost predicate KeptAt(before: seq<int>, soln: seq<int>, v: nat) {
    Known(before, v) ==> Known(soln, v) && soln[v] == before[v]
  }

  ghost predicate Kept(before: seq<int>, soln: seq<int>) {
    |soln| == |before| && forall v :: 0 <= v < |soln| ==> KeptAt(before, soln, v)
  }

  // ----- walks -----

  lemma {:induction false} Step(sys: System, v: nat, val: int, s: set<nat>, e: Eqn)
    requires sys.Link(e) && e.var1 == v && Reaches(sys, v, val, s) && e.var2 !in s
    ensures Reaches(sys, e.var2, Wrap(val - e.rhs), s + {e.var2})
  {
    var p :| IsPath(sys, p, v, s) && Along(p) == val;
    PathMore(sys, p, s, e);
  }

  lemma {:induction false} PathMore(sys: System, p: seq<Eqn>, s: set<nat>, e: Eqn)
    requires sys.Link(e) && IsPath(sys, p, e.var1, s) && e.var2 !in s
    ensures IsPath(sys, p + [e], e.var2, s + {e.var2}) && Along(p + [e]) == Wrap(Along(p) - e.rhs)
  {
    assert (p + [e])[..|p|] == p && s + {e.var2} - {e.var2} == s;
  }

  lemma {:induction false} PathIsWalk(sys: System, p: seq<Eqn>, v: nat, s: set<nat>)
    requires IsPath(sys, p, v, s)
    ensures IsWalk(sys, p, v)
  {
    if p != [] { PathIsWalk(sys, p[..|p| - 1], p[|p| - 1].var1, s - {v}); }
  }

  lemma ReachedIsConnected(sys: System, v: nat, val: int, s: set<nat>)
    requires Reaches(sys, v, val, s)
    ensures Connected(sys, v)
  {
    var p :| IsPath(sys, p, v, s) && Along(p) == val;
    PathIsWalk(sys, p, v, s);
  }

  lemma LinkConnects(sys: System, e: Eqn)
    requires sys.Link(e) && Connected(sys, e.var1)
    ensures Connected(sys, e.var2)
  {
    var p :| IsWalk(sys, p, e.var1);
    var q := p + [e];
    assert q[..|q| - 1] == p;
    assert IsWalk(sys, q, e.var2);
  }

  // ----- what is known stays grounded -----

  lemma GroundedKept(reach: Reach, soln: seq<int>, next: seq<int>, v: nat, val: int)
    requires Grounded(reach, soln, v, val) && forall u: nat :: Known(soln, u) ==> Known(next, u)
    ensures Grounded(reach, next, v, val)
  {
    var s :| GroundedBy(reach, soln, v, val, s);
    assert GroundedBy(reach, next, v, val, s);
  }

  /** From a known variable a link leads to an unknown one, which the way there has not met. */
  lemma GroundedStep(sys: System, reach: Reach, x: seq<int>, fits: bool, soln: seq<int>, e: Eqn)
    requires Cover(sys, reach, x, fits) && sys.Link(e) && Justified(reach, soln)
    requires Known(soln, e.var1) && !Known(soln, e.var2)
    ensures Grounded(reach, soln, e.var2, Wrap(soln[e.var1] - e.rhs)) && Wrap(soln[e.var1] - e.rhs) != UNKNOWN
  {
    assert JustifiedAt(reach, soln, e.var1);
    var s :| GroundedBy(reach, soln, e.var1, soln[e.var1], s);
    assert FollowsAt(sys, reach, e, soln[e.var1], s);
    assert GroundedBy(reach, soln, e.var2, Wrap(soln[e.var1] - e.rhs), s + {e.var2});
  }

  lemma GroundedIsReached(reach: Reach, soln: seq<int>, v: nat)
    requires Justified(reach, soln) && Known(soln, v)
    ensures ReachedAs(reach, v, soln[v])
  {
    assert JustifiedAt(reach, soln, v);
    var s :| GroundedBy(reach, soln, v, soln[v], s);
  }

  /** A set of variables closed under the links holds all that is connected. */
  lemma {:induction false} ClosedHoldsConnected(sys: System, soln: seq<int>, p: seq<Eqn>, v: nat)
    requires IsWalk(sys, p, v) && Known(soln, 0)
    requires Closed(sys.eqs, soln) && Closed(sys.guess, soln)
    ensures Known(soln, v)
  {
    if p != [] {
      var e := p[|p| - 1];
      ClosedHoldsConnected(sys, soln, p[..|p| - 1], e.var1);
      LinkIsClosed(sys, soln, e);
    }
  }

  lemma LinkIsClosed(sys: System, soln: seq<int>, e: Eqn)
    requires sys.Link(e) && Closed(sys.eqs, soln) && Closed(sys.guess, soln)
    ensures ClosedAt(soln, e)
  {
    if e in Mirrored(sys.eqs) && e !in sys.eqs {
      var f :| f in sys.eqs && e == Mirror(f);
      assert ClosedAt(soln, f);
    } else if e !in sys.eqs && e !in sys.guess {
      var f :| f in sys.guess && e == Mirror(f);
      assert ClosedAt(soln, f);
    }
  }

  // ----- sorting and searching -----

  ghost predicate Sorted(s: seq<Eqn>) {
    forall i, j :: 0 <= i < j < |s| ==> s[i].var1 <= s[j].var1
  }

  predicate ByFirst(e: Eqn, f: Eqn) { e.var1 <= f.var1 }

  function SortStable(s: seq<Eqn>): (r: seq<Eqn>)
    ensures Sorted(r)
    ensures forall f :: f in r <==> f in s
  {
    var r := SortBy(s, ByFirst);
    assert forall i, j :: 0 <= i < j < |r| ==> ByFirst(r[i], r[j]);
    r
  }

  /** The first equation whose variable is at least `v`. */
  method LowerBound(eqs: seq<Eqn>, v: nat) returns (i: nat)
    requires Sorted(eqs)
    ensures i <= |eqs|
    ensures forall k :: 0 <= k < i ==> eqs[k].var1 < v
    ensures forall k :: i <= k < |eqs| ==> eqs[k].var1 >= v
  {
    i := 0;
    var j := |eqs|;
    while i < j
      invariant 0 <= i <= j <= |eqs|
      invariant forall k :: 0 <= k < i ==> eqs[k].var1 < v
      invariant forall k :: j <= k < |eqs| ==> eqs[k].var1 >= v
    {
      var h := (i + j) / 2;
      if eqs[h].var1 < v { i := h + 1; } else { j := h; }
    }
  }

  // ----- counting -----

  function Unknowns(soln: seq<int>): nat {
    if soln == [] then 0 else Unknowns(soln[..|soln| - 1]) + if soln[|soln| - 1] == UNKNOWN then 1 else 0
  }

  lemma {:induction false} SolvingCounts(soln: seq<int>, next: seq<int>)
    requires |soln| == |next| && forall v :: 0 <= v < |soln| ==> KeptAt(soln, next, v)
    ensures Unknowns(next) <= Unknowns(soln)
    ensures Unknowns(next) < Unknowns(soln) || forall v :: 0 <= v < |soln| && Known(next, v) ==> Known(soln, v)
  {
    if soln != [] {
      var n := |soln| - 1;
      forall v | 0 <= v < n ensures KeptAt(soln[..n], next[..n], v) { assert KeptAt(soln, next, v); }
      SolvingCounts(soln[..n], next[..n]);
      assert KeptAt(soln, next, n);
      if Unknowns(next) >= Unknowns(soln) {
        forall v | 0 <= v < |soln| && Known(next, v) ensures Known(soln, v) {
          if v < n { assert Known(next[..n], v); }
        }
      }
    }
  }

  // ----- one propagation -----

  /** In step with `x`, shifted so that it fits at `start`. */
  ghost predicate InStepAt(before: seq<int>, soln: seq<int>, x: seq<int>, start: nat, v: nat) {
    var solved := start < |x| && v < |x| && Known(soln, start) && Known(soln, v) && !Known(before, v);
    solved ==> Same(soln[v] - x[v], soln[start] - x[start])
  }

  /** An equation of a variable solved in this call, and not pending, has its other end solved. */
  ghost predicate SpreadAt(before: seq<int>, soln: seq<int>, work: seq<nat>, e: Eqn) {
    Known(soln, e.var1) && !Known(before, e.var1) && e.var1 !in work ==> Known(soln, e.var2)
  }

  ghost predicate Pending(before: seq<int>, soln: seq<int>, work: seq<nat>) {
    forall i :: 0 <= i < |work| ==> Known(soln, work[i]) && !Known(before, work[i])
  }

  ghost predicate Spreading(sys: System, before: seq<int>, soln: seq<int>, reach: Reach, x: seq<int>, fits: bool, start: nat, first: int) {
    && |soln| == sys.vars
    && Kept(before, soln)
    && Justified(reach, soln)
    && Known(soln, start) && soln[start] == first
    && (fits ==> forall v :: 0 <= v < |soln| ==> InStepAt(before, soln, x, start, v))
  }

  /** The equations the solver works on are those of the system and their mirrors, sorted. */
  ghost predicate Doubled(sys: System, eqs: seq<Eqn>) {
    Sorted(eqs) && forall e :: DoubledAt(sys, eqs, e)
  }

  ghost predicate DoubledAt(sys: System, eqs: seq<Eqn>, e: Eqn) { e in eqs <==> e in Mirrored(sys.eqs) }

  lemma DoubledFacts(sys: System, eqs: seq<Eqn>, e: Eqn)
    requires sys.Valid() && Doubled(sys, eqs) && e in eqs
    ensures e.var1 < sys.vars && e.var2 < sys.vars && sys.Link(e)
  {
    assert DoubledAt(sys, eqs, e);
    if e !in sys.eqs {
      var f :| f in sys.eqs && e == Mirror(f);
    }
  }

  lemma DoubledIsClosed(sys: System, eqs: seq<Eqn>, before: seq<int>, e: Eqn)
    requires Doubled(sys, eqs) && e in eqs && Closed(sys.eqs, before)
    ensures ClosedAt(before, e)
  {
    assert DoubledAt(sys, eqs, e);
    if e !in sys.eqs {
      var f :| f in sys.eqs && e == Mirror(f);
      assert ClosedAt(before, f);
    }
  }

  /** A solution satisfies the mirrored equations too. */
  lemma MirrorHolds(sys: System, eqs: seq<Eqn>, e: Eqn, reach: Reach, x: seq<int>, val: int)
    requires Cover(sys, reach, x, true) && Doubled(sys, eqs) && e in eqs && ReachedAs(reach, e.var1, val)
    ensures FitsAt(e, x)
  {
    assert DoubledAt(sys, eqs, e);
    if e in sys.eqs {
      assert FitsFrom(sys, reach, e, val, x);
    } else {
      var f :| f in sys.eqs && e == Mirror(f);
      assert FitsFrom(sys, reach, f, val, x);
      MirrorOfHolds(f, x);
    }
  }

  lemma MirrorOfHolds(f: Eqn, x: seq<int>)
    requires FitsAt(f, x)
    ensures FitsAt(Mirror(f), x)
  {
    WrapIsSame(-f.rhs);
    MirroredDifference(x[f.var1], x[f.var2], f.rhs, Wrap(-f.rhs));
  }

  lemma MirroredDifference(x1: int, x2: int, rhs: int, back: int)
    requires Same(x1 - x2, rhs) && Same(back, -rhs)
    ensures Same(x2 - x1, back)
  {
    var i :| Turns(x1 - x2, rhs, i);
    var j :| Turns(back, -rhs, j);
    assert Turns(x2 - x1, back, -i - j);
  }

  /** Solving the other end of an equation. */
  lemma SpreadStep(sys: System, eqs: seq<Eqn>, before: seq<int>, soln: seq<int>, reach: Reach, x: seq<int>, fits: bool, start: nat, first: int, e: Eqn)
    requires sys.Valid() && Cover(sys, reach, x, fits) && Doubled(sys, eqs) && e in eqs
    requires Spreading(sys, before, soln, reach, x, fits, start, first)
    requires Known(soln, e.var1) && !Known(before, e.var1) && e.var2 < |soln| && soln[e.var2] == UNKNOWN
    ensures Wrap(soln[e.var1] - e.rhs) != UNKNOWN
    ensures Spreading(sys, before, soln[e.var2 := Wrap(soln[e.var1] - e.rhs)], reach, x, fits, start, first)
  {
    StepGrounded(sys, eqs, soln, reach, x, fits, e);
    if fits { StepFits(sys, eqs, before, soln, reach, x, start, first, e); }
    SpreadBy(sys, before, soln, reach, x, fits, start, first, e.var2, Wrap(soln[e.var1] - e.rhs));
  }

  lemma StepGrounded(sys: System, eqs: seq<Eqn>, soln: seq<int>, reach: Reach, x: seq<int>, fits: bool, e: Eqn)
    requires sys.Valid() && Cover(sys, reach, x, fits) && Doubled(sys, eqs) && e in eqs
    requires Justified(reach, soln) && Known(soln, e.var1) && !Known(soln, e.var2)
    ensures Grounded(reach, soln, e.var2, Wrap(soln[e.var1] - e.rhs)) && Wrap(soln[e.var1] - e.rhs) != UNKNOWN
  {
    DoubledFacts(sys, eqs, e);
    GroundedStep(sys, reach, x, fits, soln, e);
  }

  lemma StepFits(sys: System, eqs: seq<Eqn>, before: seq<int>, soln: seq<int>, reach: Reach, x: seq<int>, start: nat, first: int, e: Eqn)
    requires sys.Valid() && Cover(sys, reach, x, true) && Doubled(sys, eqs) && e in eqs
    requires Spreading(sys, before, soln, reach, x, true, start, first)
    requires Known(soln, e.var1) && !Known(before, e.var1)
    ensures |x| == |soln| && e.var2 < |x| && Same(Wrap(soln[e.var1] - e.rhs) - x[e.var2], soln[start] - x[start])
  {
    GroundedIsReached(reach, soln, e.var1);
    MirrorHolds(sys, eqs, e, reach, x, soln[e.var1]);
    assert InStepAt(before, soln, x, start, e.var1);
    NewInStep(before, soln, x, start, e);
  }

  lemma NewInStep(before: seq<int>, soln: seq<int>, x: seq<int>, start: nat, e: Eqn)
    requires FitsAt(e, x) && Known(soln, e.var1) && !Known(before, e.var1) && Known(soln, start) && |soln| == |x|
    requires InStepAt(before, soln, x, start, e.var1)
    ensures Same(Wrap(soln[e.var1] - e.rhs) - x[e.var2], soln[start] - x[start])
  {
    WrapIsSame(soln[e.var1] - e.rhs);
    ShiftedStep(soln[e.var1], x[e.var1], x[e.var2], e.rhs, Wrap(soln[e.var1] - e.rhs), soln[start] - x[start]);
  }

  lemma SpreadBy(sys: System, before: seq<int>, soln: seq<int>, reach: Reach, x: seq<int>, fits: bool, start: nat, first: int, w: nat, val: int)
    requires Spreading(sys, before, soln, reach, x, fits, start, first)
    requires w < |soln| && soln[w] == UNKNOWN && val != UNKNOWN && Grounded(reach, soln, w, val)
    requires fits ==> |x| == |soln| && Same(val - x[w], soln[start] - x[start])
    ensures Spreading(sys, before, soln[w := val], reach, x, fits, start, first)
  {
    var next := soln[w := val];
    JustifiedMore(reach, soln, w, val);
    forall u | 0 <= u < |next| ensures KeptAt(before, next, u) {
      assert KeptAt(before, soln, u);
    }
    if fits {
      forall v | 0 <= v < |next| ensures InStepAt(before, next, x, start, v) {
        assert InStepAt(before, soln, x, start, v);
      }
    }
  }

  lemma JustifiedMore(reach: Reach, soln: seq<int>, w: nat, val: int)
    requires Justified(reach, soln) && w < |soln| && soln[w] == UNKNOWN && val != UNKNOWN && Grounded(reach, soln, w, val)
    ensures Justified(reach, soln[w := val])
  {
    var next := soln[w := val];
    forall u | 0 <= u < |next| ensures JustifiedAt(reach, next, u) {
      assert JustifiedAt(reach, soln, u);
      if Known(next, u) { GroundedKept(reach, soln, next, u, next[u]); }
    }
  }

  lemma ShiftedStep(s1: int, x1: int, x2: int, rhs: int, s2: int, shift: int)
    requires Same(s1 - x1, shift) && Same(x1 - x2, rhs) && Same(s2, s1 - rhs)
    ensures Same(s2 - x2, shift)
  {
    var i :| Turns(s1 - x1, shift, i);
    var j :| Turns(x1 - x2, rhs, j);
    var k :| Turns(s2, s1 - rhs, k);
    assert Turns(s2 - x2, shift, i + j + k);
  }

  /** When nothing is pending, the system is settled again. */
  lemma SpreadEnds(sys: System, eqs: seq<Eqn>, before: seq<int>, soln: seq<int>, reach: Reach, x: seq<int>, fits: bool, start: nat, first: int)
    requires sys.Valid() && Cover(sys, reach, x, fits) && Doubled(sys, eqs) && Settled(sys, before, reach, fits)
    requires Spreading(sys, before, soln, reach, x, fits, start, first)
    requires forall e :: e in eqs ==> SpreadAt(before, soln, [], e)
    ensures Settled(sys, soln, reach, fits)
  {
    forall e | e in sys.eqs ensures ClosedAt(soln, e) {
      var f := Mirror(e);
      assert DoubledAt(sys, eqs, e) && DoubledAt(sys, eqs, f);
      assert SpreadAt(before, soln, [], e) && SpreadAt(before, soln, [], f);
      assert ClosedAt(before, e);
      assert KeptAt(before, soln, e.var1) && KeptAt(before, soln, e.var2);
    }
    if fits {
      forall e | e in sys.eqs ensures AgreesAt(soln, e) {
        if Known(soln, e.var1) && Known(soln, e.var2) {
          SpreadAgrees(sys, before, soln, reach, x, start, first, e);
        }
      }
    }
  }

  lemma SpreadAgrees(sys: System, before: seq<int>, soln: seq<int>, reach: Reach, x: seq<int>, start: nat, first: int, e: Eqn)
    requires sys.Valid() && Cover(sys, reach, x, true) && Settled(sys, before, reach, true) && e in sys.eqs
    requires Spreading(sys, before, soln, reach, x, true, start, first)
    requires Known(soln, e.var1) && Known(soln, e.var2)
    ensures Holds(e, soln)
  {
    assert ClosedAt(before, e);
    GroundedIsReached(reach, soln, e.var1);
    assert FitsFrom(sys, reach, e, soln[e.var1], x);
    if Known(before, e.var1) {
      assert AgreesAt(before, e);
      assert KeptAt(before, soln, e.var1) && KeptAt(before, soln, e.var2);
    } else {
      assert InStepAt(before, soln, x, start, e.var1) && InStepAt(before, soln, x, start, e.var2);
      SameShift(soln[e.var1], x[e.var1], soln[e.var2], x[e.var2], soln[start] - x[start], e.rhs);
    }
  }

  lemma SameShift(s1: int, x1: int, s2: int, x2: int, shift: int, rhs: int)
    requires Same(s1 - x1, shift) && Same(s2 - x2, shift) && Same(x1 - x2, rhs)
    ensures Same(s1 - s2, rhs)
  {
    var i :| Turns(s1 - x1, shift, i);
    var j :| Turns(s2 - x2, shift, j);
    var k :| Turns(x1 - x2, rhs, k);
    assert Turns(s1 - s2, rhs, i - j + k);
  }

  // ----- pieces of the loops -----

  lemma SpreadStarts(sys: System, eqs: seq<Eqn>, before: seq<int>, reach: Reach, x: seq<int>, fits: bool, start: nat, val: int)
    requires Cover(sys, reach, x, fits) && Settled(sys, before, reach, fits)
    requires start < |before| && before[start] == UNKNOWN && Grounded(reach, before, start, val)
    ensures Spreading(sys, before, before[start := val], reach, x, fits, start, val)
    ensures forall e :: e in eqs ==> SpreadAt(before, before[start := val], [start], e)
  {
    var s :| GroundedBy(reach, before, start, val, s);
    JustifiedMore(reach, before, start, val);
    if fits { assert Turns(val - x[start], val - x[start], 0); }
  }

  lemma SpreadKept(eqs: seq<Eqn>, before: seq<int>, soln: seq<int>, work: seq<nat>, cur: nat, w: nat, val: int)
    requires w < |soln| && val != UNKNOWN
    requires forall e :: e in eqs && e.var1 != cur ==> SpreadAt(before, soln, work, e)
    ensures forall e :: e in eqs && e.var1 != cur ==> SpreadAt(before, soln[w := val], work + [w], e)
  {
    forall e | e in eqs && e.var1 != cur ensures SpreadAt(before, soln[w := val], work + [w], e) {
      assert SpreadAt(before, soln, work, e);
      assert w in work + [w];
    }
  }

  /** What stays fixed during one call of `propagate`. */
  datatype Call = Call(sys: System, eqs: seq<Eqn>, before: seq<int>, reach: Reach, x: seq<int>, fits: bool, start: nat, first: int) {
    ghost predicate Valid() {
      sys.Valid() && Cover(sys, reach, x, fits) && Doubled(sys, eqs) && Settled(sys, before, reach, fits)
    }

    /** The state between two turns of the outer loop. */
    ghost predicate Running(soln: seq<int>, work: seq<nat>) {
      && Spreading(sys, before, soln, reach, x, fits, start, first)
      && Pending(before, soln, work)
      && forall e :: e in eqs ==> SpreadAt(before, soln, work, e)
    }
  }

  /** The state while the equations of `cur` before `top` are done. */
  ghost predicate Sweeping(c: Call, soln: seq<int>, work: seq<nat>, cur: nat, top: nat) {
    && Spreading(c.sys, c.before, soln, c.reach, c.x, c.fits, c.start, c.first)
    && Pending(c.before, soln, work)
    && Known(soln, cur) && !Known(c.before, cur)
    && (forall e :: e in c.eqs && e.var1 != cur ==> SpreadAt(c.before, soln, work, e))
    && Swept(c.eqs, soln, cur, top)
  }

  /** One turn of the inner loop. */
  lemma SweepStep(c: Call, soln: seq<int>, work: seq<nat>, cur: nat, top: nat)
    requires c.Valid() && Sweeping(c, soln, work, cur, top) && top < |c.eqs| && c.eqs[top].var1 == cur
    ensures cur < |soln| && c.eqs[top].var2 < |soln|
    ensures soln[c.eqs[top].var2] != UNKNOWN ==> Sweeping(c, soln, work, cur, top + 1)
    ensures soln[c.eqs[top].var2] == UNKNOWN ==>
      Sweeping(c, soln[c.eqs[top].var2 := Wrap(soln[cur] - c.eqs[top].rhs)], work + [c.eqs[top].var2], cur, top + 1)
  {
    DoubledFacts(c.sys, c.eqs, c.eqs[top]);
    if soln[c.eqs[top].var2] == UNKNOWN {
      EdgeStep(c, soln, work, cur, top, Wrap(soln[cur] - c.eqs[top].rhs));
    }
  }

  lemma EdgeStep(c: Call, soln: seq<int>, work: seq<nat>, cur: nat, top: nat, val: int)
    requires c.Valid() && Sweeping(c, soln, work, cur, top) && top < |c.eqs| && c.eqs[top].var1 == cur
    requires c.eqs[top].var2 < |soln| && soln[c.eqs[top].var2] == UNKNOWN && val == Wrap(soln[cur] - c.eqs[top].rhs)
    ensures Sweeping(c, soln[c.eqs[top].var2 := val], work + [c.eqs[top].var2], cur, top + 1)
  {
    var e := c.eqs[top];
    SpreadStep(c.sys, c.eqs, c.before, soln, c.reach, c.x, c.fits, c.start, c.first, e);
    DoubledIsClosed(c.sys, c.eqs, c.before, e);
    EdgeSolved(c, soln, work, cur, top, val);
  }

  lemma EdgeSolved(c: Call, soln: seq<int>, work: seq<nat>, cur: nat, top: nat, val: int)
    requires Sweeping(c, soln, work, cur, top) && top < |c.eqs| && c.eqs[top].var2 < |soln|
    requires soln[c.eqs[top].var2] == UNKNOWN && val != UNKNOWN && !Known(c.before, c.eqs[top].var2)
    requires Spreading(c.sys, c.before, soln[c.eqs[top].var2 := val], c.reach, c.x, c.fits, c.start, c.first)
    ensures Sweeping(c, soln[c.eqs[top].var2 := val], work + [c.eqs[top].var2], cur, top + 1)
  {
    var v2 := c.eqs[top].var2;
    SpreadKept(c.eqs, c.before, soln, work, cur, v2, val);
    PendingStep(c.before, soln, work, v2, val);
    SweptStep(c.eqs, soln, cur, top, val);
  }

  lemma PopWork(c: Call, soln: seq<int>, work: seq<nat>, cur: nat)
    requires c.Running(soln, work + [cur])
    ensures Sweeping(c, soln, work, cur, 0)
  {
    assert (work + [cur])[|work|] == cur;
    forall e | e in c.eqs && e.var1 != cur ensures SpreadAt(c.before, soln, work, e) {
      assert SpreadAt(c.before, soln, work + [cur], e);
    }
    forall i | 0 <= i < |work| ensures Known(soln, work[i]) && !Known(c.before, work[i]) {
      assert (work + [cur])[i] == work[i];
    }
  }

  lemma PendingStep(before: seq<int>, soln: seq<int>, work: seq<nat>, w: nat, val: int)
    requires Pending(before, soln, work) && w < |soln| && val != UNKNOWN && !Known(before, w)
    ensures Pending(before, soln[w := val], work + [w])
  {
  }

  /** The equations of `cur` before `top` have their other ends solved. */
  ghost predicate Swept(eqs: seq<Eqn>, soln: seq<int>, cur: nat, top: nat) {
    top <= |eqs| && forall k :: 0 <= k < top && eqs[k].var1 == cur ==> Known(soln, eqs[k].var2)
  }

  lemma SweptStep(eqs: seq<Eqn>, soln: seq<int>, cur: nat, top: nat, val: int)
    requires Swept(eqs, soln, cur, top) && top < |eqs| && eqs[top].var2 < |soln| && val != UNKNOWN
    ensures Swept(eqs, soln[eqs[top].var2 := val], cur, top + 1)
  {
  }

  lemma SweepEnds(c: Call, soln: seq<int>, work: seq<nat>, cur: nat)
    requires Sweeping(c, soln, work, cur, |c.eqs|)
    ensures c.Running(soln, work)
  {
    forall e | e in c.eqs ensures SpreadAt(c.before, soln, work, e) {
      if e.var1 == cur {
        var k :| 0 <= k < |c.eqs| && c.eqs[k] == e;
      }
    }
  }

  ghost predicate BothKnown(soln: seq<int>, g: Eqn) { Known(soln, g.var1) && Known(soln, g.var2) }

  ghost predicate BothUnknown(soln: seq<int>, g: Eqn) { !Known(soln, g.var1) && !Known(soln, g.var2) }

  lemma BothKnownKept(before: seq<int>, soln: seq<int>, g: Eqn)
    requires Kept(before, soln) && BothKnown(before, g)
    ensures BothKnown(soln, g)
  {
    assert KeptAt(before, soln, g.var1) && KeptAt(before, soln, g.var2);
  }

  lemma {:induction false} WalksCover(sys: System, x: seq<int>, fits: bool)
    requires sys.Valid() && NoSentinel(sys) && (fits ==> Satisfies(sys, x))
    ensures Cover(sys, Paths(sys), x, fits)
  {
    var reach := Paths(sys);
    forall e: Eqn, val: int, s ensures FollowsAt(sys, reach, e, val, s) {
      if sys.Link(e) && reach(e.var1, val, s) && e.var2 !in s { Step(sys, e.var1, val, s, e); }
    }
    if fits {
      forall e: Eqn, val: int ensures FitsFrom(sys, reach, e, val, x) {
        if e in sys.eqs && (ReachedAs(reach, e.var1, val) || ReachedAs(reach, e.var2, val)) { ReachedFits(sys, e, val, x); }
      }
    }
  }

  ghost function Paths(sys: System): Reach { (v: nat, val: int, s: set<nat>) => Reaches(sys, v, val, s) }

  lemma ReachedFits(sys: System, e: Eqn, val: int, x: seq<int>)
    requires sys.Valid() && Satisfies(sys, x) && e in sys.eqs
    requires ReachedAs(Paths(sys), e.var1, val) || ReachedAs(Paths(sys), e.var2, val)
    ensures FitsAt(e, x)
  {
    if s :| Paths(sys)(e.var1, val, s) {
      ReachedIsConnected(sys, e.var1, val, s);
    } else {
      var s :| Paths(sys)(e.var2, val, s);
      ReachedIsConnected(sys, e.var2, val, s);
      LinkConnects(sys, Mirror(e));
    }
  }

  /** What `solve` promises. */
  ghost predicate Solved(sys: System, soln: seq<int>) {
    && |soln| == sys.vars
    && |soln| > 0 && soln[0] == 0
    && (forall v: nat :: v < sys.vars ==> (Known(soln, v) <==> Connected(sys, v)))
    && (forall v: nat :: Known(soln, v) ==> ReachedAs(Paths(sys), v, soln[v]))
    && ((exists x :: Satisfies(sys, x)) <==> Satisfies(sys, soln))
    && Closed(sys.guess, soln)
  }

  lemma SettledIsSolved(sys: System, soln: seq<int>, fits: bool)
    requires sys.Valid() && Settled(sys, soln, Paths(sys), fits)
    requires fits <==> exists x :: Satisfies(sys, x)
    requires Known(soln, 0) && soln[0] == 0 && Closed(sys.guess, soln)
    ensures Solved(sys, soln)
  {
    var reach := Paths(sys);
    forall v: nat | v < sys.vars ensures Known(soln, v) <==> Connected(sys, v) {
      if Known(soln, v) {
        GroundedIsReached(reach, soln, v);
        var s :| reach(v, soln[v], s);
        ReachedIsConnected(sys, v, soln[v], s);
      }
      if Connected(sys, v) {
        var p :| IsWalk(sys, p, v);
        ClosedHoldsConnected(sys, soln, p, v);
      }
    }
    forall v: nat | Known(soln, v) ensures ReachedAs(reach, v, soln[v]) { GroundedIsReached(reach, soln, v); }
    if fits { AgreesSatisfies(sys, soln); }
  }

  lemma AgreesSatisfies(sys: System, soln: seq<int>)
    requires sys.Valid() && |soln| == sys.vars && Agrees(sys.eqs, soln) && Closed(sys.eqs, soln)
    requires forall v: nat :: v < sys.vars ==> (Known(soln, v) <==> Connected(sys, v))
    ensures Satisfies(sys, soln)
  {
    forall e | e in sys.eqs && Connected(sys, e.var1) ensures Holds(e, soln) {
      assert AgreesAt(soln, e) && ClosedAt(soln, e);
    }
  }

  // ----- the guess loop -----

  /** Every guess that the last round did not count has both ends known. */
  ghost predicate Covered(guess: seq<Eqn>, soln: seq<int>, counted: set<nat>) {
    forall k: nat :: k < |guess| && k !in counted ==> BothKnown(soln, guess[k])
  }

  /** Half way through a round: `left` are the guesses counted so far, `last` those of the round before. */
  ghost predicate InRound(guess: seq<Eqn>, before: seq<int>, soln: seq<int>, last: set<nat>, left: set<nat>, i: nat) {
    && i <= |guess|
    && left <= last
    && (forall k :: k in left ==> k < i)
    && (forall k: nat :: k < i && k !in left ==> BothKnown(soln, guess[k]))
    && Kept(before, soln)
    && (Idle(guess, before, soln, left) || Moved(last, left, i))
  }

  ghost predicate Idle(guess: seq<Eqn>, before: seq<int>, soln: seq<int>, left: set<nat>) {
    soln == before && forall k :: k in left && k < |guess| ==> BothUnknown(soln, guess[k])
  }

  /** Some guess of the last round was used in this one. */
  ghost predicate Moved(last: set<nat>, left: set<nat>, i: nat) {
    exists h: nat :: h < i && h in last && h !in left
  }

  /** A guess with one end known is used: it was counted last time and is not now. */
  lemma RoundMoves(guess: seq<Eqn>, before: seq<int>, soln: seq<int>, next: seq<int>, last: set<nat>, left: set<nat>, i: nat)
    requires InRound(guess, before, soln, last, left, i) && i < |guess| && Covered(guess, before, last)
    requires !BothKnown(soln, guess[i]) && Kept(soln, next) && BothKnown(next, guess[i])
    ensures InRound(guess, before, next, last, left, i + 1)
  {
    forall k: nat | k < i + 1 && k !in left ensures BothKnown(next, guess[k]) {
      if k < i { BothKnownKept(soln, next, guess[k]); }
    }
    if BothKnown(before, guess[i]) { BothKnownKept(before, soln, guess[i]); }
    assert i in last && i !in left;
    KeptTrans(before, soln, next);
  }

  lemma KeptTrans(a: seq<int>, b: seq<int>, c: seq<int>)
    requires Kept(a, b) && Kept(b, c)
    ensures Kept(a, c)
  {
    forall v | 0 <= v < |c| ensures KeptAt(a, c, v) {
      assert KeptAt(a, b, v) && KeptAt(b, c, v);
    }
  }

  lemma RoundCounts(guess: seq<Eqn>, before: seq<int>, soln: seq<int>, last: set<nat>, left: set<nat>, i: nat)
    requires InRound(guess, before, soln, last, left, i) && i < |guess| && Covered(guess, before, last)
    requires BothUnknown(soln, guess[i])
    ensures InRound(guess, before, soln, last, left + {i}, i + 1) && i !in left
  {
    if BothKnown(before, guess[i]) { BothKnownKept(before, soln, guess[i]); }
    assert i in last;
    if Moved(last, left, i) {
      var h: nat :| h < i && h in last && h !in left;
      assert h !in left + {i};
    }
  }

  lemma RoundSkips(guess: seq<Eqn>, before: seq<int>, soln: seq<int>, last: set<nat>, left: set<nat>, i: nat)
    requires InRound(guess, before, soln, last, left, i) && i < |guess| && BothKnown(soln, guess[i])
    ensures InRound(guess, before, soln, last, left, i + 1)
  {
    if Moved(last, left, i) {
      var h: nat :| h < i && h in last && h !in left;
      assert h < i + 1;
    }
  }

  lemma RoundStep(guess: seq<Eqn>, before: seq<int>, soln: seq<int>, next: seq<int>, last: set<nat>, left: set<nat>, i: nat, unknown: bool)
    requires InRound(guess, before, soln, last, left, i) && i < |guess| && Covered(guess, before, last)
    requires Kept(soln, next) && unknown == BothUnknown(soln, guess[i]) && (!unknown ==> BothKnown(next, guess[i]))
    requires unknown || BothKnown(soln, guess[i]) ==> next == soln
    ensures InRound(guess, before, next, last, if unknown then left + {i} else left, i + 1) && i !in left
  {
    if unknown {
      RoundCounts(guess, before, soln, last, left, i);
    } else if BothKnown(soln, guess[i]) {
      RoundSkips(guess, before, soln, last, left, i);
    } else {
      RoundMoves(guess, before, soln, next, last, left, i);
    }
  }

  /** A round that counts as many as the last one has used no guess: none is half known. */
  lemma SameCountIsIdle(guess: seq<Eqn>, before: seq<int>, soln: seq<int>, last: set<nat>, left: set<nat>)
    requires InRound(guess, before, soln, last, left, |guess|) && |left| == |last|
    ensures Closed(guess, soln)
  {
    SubsetOfSameSize(left, last);
    assert !Moved(last, left, |guess|);
    forall g | g in guess ensures ClosedAt(soln, g) {
      var k: nat :| k < |guess| && guess[k] == g;
      assert k in left || BothKnown(soln, guess[k]);
    }
  }

  lemma SubsetOfSameSize(a: set<nat>, b: set<nat>)
    requires a <= b && |a| == |b|
    ensures a == b
  {
    assert b == a + (b - a);
    assert |b| == |a| + |b - a|;
  }

  lemma NoneLeftIsClosed(guess: seq<Eqn>, soln: seq<int>)
    requires Covered(guess, soln, {})
    ensures Closed(guess, soln)
  {
    forall g | g in guess ensures ClosedAt(soln, g) {
      var k: nat :| k < |guess| && guess[k] == g;
      assert BothKnown(soln, guess[k]);
    }
  }

  /** A guess leads from its known end to the other. */
  lemma GuessReaches(sys: System, reach: Reach, x: seq<int>, fits: bool, soln: seq<int>, g: Eqn)
    requires Cover(sys, reach, x, fits) && Justified(reach, soln) && g in sys.guess
    ensures Known(soln, g.var1) && !Known(soln, g.var2) ==> Grounded(reach, soln, g.var2, Wrap(soln[g.var1] - g.rhs))
    ensures Known(soln, g.var2) && !Known(soln, g.var1) ==> Grounded(reach, soln, g.var1, Wrap(soln[g.var2] + g.rhs))
  {
    assert g in Mirrored(sys.guess) && Mirror(g) in Mirrored(sys.guess);
    if Known(soln, g.var1) && !Known(soln, g.var2) {
      GroundedStep(sys, reach, x, fits, soln, g);
    } else if Known(soln, g.var2) && !Known(soln, g.var1) {
      GroundedStep(sys, reach, x, fits, soln, Mirror(g));
      BackAlong(soln[g.var2], g.rhs);
    }
  }

  lemma BackAlong(val: int, rhs: int)
    ensures Wrap(val - Wrap(-rhs)) == Wrap(val + rhs)
  {
    WrapIsSame(-rhs);
    var k :| Turns(Wrap(-rhs), -rhs, k);
    WrapShift(val + rhs, -k);
  }

  lemma WrapShift(x: int, k: int)
    ensures Wrap(x + k * RING) == Wrap(x)
  {
    ShiftByMultiple(x, k, RING);
  }

  lemma AllUnknown(sys: System, soln: seq<int>, reach: Reach, fits: bool)
    requires |soln| == sys.vars && forall v :: 0 <= v < |soln| ==> soln[v] == UNKNOWN
    ensures Settled(sys, soln, reach, fits)
  {
    forall e | e in sys.eqs ensures ClosedAt(soln, e) && AgreesAt(soln, e) {
    }
  }

  // ----- the worklist as a function -----

  /** One equation of `cur` handled: its other end, when unknown, is solved and becomes pending. */
  function Use(e: Eqn, soln: seq<int>, work: seq<nat>, cur: nat): (seq<int>, seq<nat>) {
    if e.var1 == cur && cur < |soln| && e.var2 < |soln| && soln[e.var2] == UNKNOWN then
      (soln[e.var2 := Wrap(soln[cur] - e.rhs)], work + [e.var2])
    else (soln, work)
  }

  /** The first `top` equations looked at for `cur`. */
  function Sweep(eqs: seq<Eqn>, soln: seq<int>, work: seq<nat>, cur: nat, top: nat): (seq<int>, seq<nat>)
    requires top <= |eqs|
  {
    if top == 0 then (soln, work)
    else
      var (x, w) := Sweep(eqs, soln, work, cur, top - 1);
      Use(eqs[top - 1], x, w, cur)
  }

  /** Solution and pending variables after `n` turns of the loop. */
  function After(eqs: seq<Eqn>, soln: seq<int>, work: seq<nat>, n: nat): (seq<int>, seq<nat>) {
    if n == 0 then (soln, work)
    else
      var (x, w) := After(eqs, soln, work, n - 1);
      if w == [] then (x, w) else Sweep(eqs, x, w[..|w| - 1], w[|w| - 1], |eqs|)
  }

  ghost predicate EndsAfter(eqs: seq<Eqn>, soln: seq<int>, work: seq<nat>, n: nat, end: seq<int>) {
    After(eqs, soln, work, n) == (end, [])
  }

  ghost predicate Ends(eqs: seq<Eqn>, soln: seq<int>, work: seq<nat>, end: seq<int>) {
    exists n :: EndsAfter(eqs, soln, work, n, end)
  }

  lemma OneMore(eqs: seq<Eqn>, soln: seq<int>, work: seq<nat>, n: nat, x: seq<int>, w: seq<nat>, cur: nat)
    requires After(eqs, soln, work, n) == (x, w + [cur])
    ensures After(eqs, soln, work, n + 1) == Sweep(eqs, x, w, cur, |eqs|)
  {
    assert (w + [cur])[..|w|] == w;
  }

  /** Once nothing is pending nothing changes. */
  lemma {:induction false} StaysEnded(eqs: seq<Eqn>, soln: seq<int>, work: seq<nat>, n: nat, m: nat)
    requires n <= m && After(eqs, soln, work, n).1 == []
    ensures After(eqs, soln, work, m) == After(eqs, soln, work, n)
  {
    if n < m { StaysEnded(eqs, soln, work, n, m - 1); }
  }

  lemma EndsOnce(eqs: seq<Eqn>, soln: seq<int>, work: seq<nat>, end: seq<int>, end': seq<int>)
    requires Ends(eqs, soln, work, end) && Ends(eqs, soln, work, end')
    ensures end == end'
  {
    var n :| EndsAfter(eqs, soln, work, n, end);
    var m :| EndsAfter(eqs, soln, work, m, end');
    if n <= m { StaysEnded(eqs, soln, work, n, m); } else { StaysEnded(eqs, soln, work, m, n); }
  }

  lemma UseKeeps(e: Eqn, before: seq<int>, soln: seq<int>, work: seq<nat>, cur: nat)
    requires Kept(before, soln)
    ensures var (x, w) := Use(e, soln, work, cur);
      && Kept(before, x) && ((x, w) == (soln, work) || (w != [] && w[|w| - 1] < |before| && !Known(before, w[|w| - 1])))
  {
    var (x, w) := Use(e, soln, work, cur);
    if e.var2 < |soln| { assert KeptAt(before, soln, e.var2); }
    forall v | 0 <= v < |x| ensures KeptAt(before, x, v) { assert KeptAt(before, soln, v); }
  }

  /** A sweep keeps what is known; when it does anything, the last pending variable was unknown. */
  lemma {:induction false} SweepGrows(eqs: seq<Eqn>, soln: seq<int>, work: seq<nat>, cur: nat, top: nat)
    requires top <= |eqs|
    ensures var (x, w) := Sweep(eqs, soln, work, cur, top);
      && Kept(soln, x) && ((x, w) == (soln, work) || (w != [] && w[|w| - 1] < |soln| && !Known(soln, w[|w| - 1])))
  {
    if top > 0 {
      SweepGrows(eqs, soln, work, cur, top - 1);
      var (x, w) := Sweep(eqs, soln, work, cur, top - 1);
      UseKeeps(eqs[top - 1], soln, x, w, cur);
    }
  }

  lemma SweepCounts(eqs: seq<Eqn>, soln: seq<int>, work: seq<nat>, cur: nat, x: seq<int>, w: seq<nat>)
    requires (x, w) == Sweep(eqs, soln, work, cur, |eqs|) && (w != [] ==> Known(x, w[|w| - 1]))
    ensures Unknowns(x) < Unknowns(soln) || (x == soln && w == work)
  {
    SweepGrows(eqs, soln, work, cur, |eqs|);
    SolvingCounts(soln, x);
  }

  /** The loop keeps what is known, whatever the equations. */
  lemma {:induction false} AfterKeeps(eqs: seq<Eqn>, soln: seq<int>, work: seq<nat>, n: nat)
    ensures Kept(soln, After(eqs, soln, work, n).0)
  {
    if n > 0 {
      AfterKeeps(eqs, soln, work, n - 1);
      var (x, w) := After(eqs, soln, work, n - 1);
      if w != [] {
        SweepGrows(eqs, x, w[..|w| - 1], w[|w| - 1], |eqs|);
        KeptTrans(soln, x, After(eqs, soln, work, n).0);
      }
    }
  }

  ghost predicate Within(work: seq<nat>, n: nat) { forall i :: 0 <= i < |work| ==> work[i] < n }

  lemma {:induction false} SweepWithin(eqs: seq<Eqn>, soln: seq<int>, work: seq<nat>, cur: nat, top: nat)
    requires top <= |eqs| && Within(work, |soln|)
    ensures var (x, w) := Sweep(eqs, soln, work, cur, top);
      |x| == |soln| && Within(w, |soln|)
  {
    if top > 0 { SweepWithin(eqs, soln, work, cur, top - 1); }
  }

  /** Equations of other variables are passed over. */
  lemma {:induction false} SweepSkips(eqs: seq<Eqn>, soln: seq<int>, work: seq<nat>, cur: nat, lo: nat, hi: nat)
    requires lo <= hi <= |eqs| && forall k :: lo <= k < hi ==> eqs[k].var1 != cur
    ensures Sweep(eqs, soln, work, cur, lo) == Sweep(eqs, soln, work, cur, hi)
    decreases hi
  {
    if lo < hi { SweepSkips(eqs, soln, work, cur, lo, hi - 1); }
  }

  /** In sorted equations, those of `cur` end at the first of another variable. */
  lemma SweepLast(eqs: seq<Eqn>, soln: seq<int>, work: seq<nat>, cur: nat, top: nat)
    requires Sorted(eqs) && top <= |eqs| && (top < |eqs| ==> eqs[top].var1 > cur)
    ensures Sweep(eqs, soln, work, cur, top) == Sweep(eqs, soln, work, cur, |eqs|)
  {
    SweepSkips(eqs, soln, work, cur, top, |eqs|);
  }

  // ----- the solver as a function: what it comes to, if it ends -----

  /** The solution when the worklist is empty, if it ever is. */
  ghost function Ended(eqs: seq<Eqn>, soln: seq<int>, work: seq<nat>): (r: Option<seq<int>>)
    ensures forall end :: Ends(eqs, soln, work, end) <==> r == Some(end)
  {
    if exists end :: Ends(eqs, soln, work, end) then
      var end :| Ends(eqs, soln, work, end);
      assert forall end' :: Ends(eqs, soln, work, end') ==> end' == end by {
        forall end' | Ends(eqs, soln, work, end') ensures end' == end { EndsOnce(eqs, soln, work, end, end'); }
      }
      Some(end)
    else None
  }

  ghost function Propagated(eqs: seq<Eqn>, soln: seq<int>, v: nat, val: int): (r: Option<seq<int>>)
    requires v < |soln|
    ensures r.Some? ==> |r.value| == |soln| && Kept(soln, r.value)
  {
    if soln[v] != UNKNOWN then Some(soln)
    else
      var r := Ended(eqs, soln[v := val], [v]);
      assert r.Some? ==> Kept(soln, r.value) by { if r.Some? { PropagatedKeeps(eqs, soln, v, val, r.value); } }
      r
  }

  lemma PropagatedKeeps(eqs: seq<Eqn>, soln: seq<int>, v: nat, val: int, end: seq<int>)
    requires v < |soln| && soln[v] == UNKNOWN && Ends(eqs, soln[v := val], [v], end)
    ensures Kept(soln, end)
  {
    var n :| EndsAfter(eqs, soln[v := val], [v], n, end);
    AfterKeeps(eqs, soln[v := val], [v], n);
    assert Kept(soln, soln[v := val]);
    KeptTrans(soln, soln[v := val], end);
  }

  /** What a guess with one end known is used for. */
  ghost function Guessed(eqs: seq<Eqn>, soln: seq<int>, g: Eqn): (r: Option<seq<int>>)
    requires g.var1 < |soln| && g.var2 < |soln|
    ensures r.Some? ==> |r.value| == |soln| && Kept(soln, r.value)
  {
    if soln[g.var1] != UNKNOWN && soln[g.var2] == UNKNOWN then Propagated(eqs, soln, g.var2, Wrap(soln[g.var1] - g.rhs))
    else if soln[g.var1] == UNKNOWN && soln[g.var2] != UNKNOWN then Propagated(eqs, soln, g.var1, Wrap(soln[g.var2] + g.rhs))
    else Some(soln)
  }

  ghost predicate InBounds(eqs: seq<Eqn>, n: nat) { forall i :: 0 <= i < |eqs| ==> eqs[i].var1 < n && eqs[i].var2 < n }

  /** The solution after the first `i` guesses of a round, and the guesses met with both ends unknown. */
  ghost function RoundTo(eqs: seq<Eqn>, guess: seq<Eqn>, soln: seq<int>, i: nat): (r: Option<(seq<int>, set<nat>)>)
    requires i <= |guess| && InBounds(guess, |soln|)
    ensures r.Some? ==> |r.value.0| == |soln| && Kept(soln, r.value.0)
  {
    if i == 0 then Some((soln, {}))
    else
      match RoundTo(eqs, guess, soln, i - 1)
      case None => None
      case Some((x, left)) =>
        match Guessed(eqs, x, guess[i - 1])
        case None => None
        case Some(y) =>
          KeptTrans(soln, x, y);
          Some((y, if BothUnknown(x, guess[i - 1]) then left + {i - 1} else left))
  }

  /** The rounds until one counts no fewer than the one before, or none. */
  ghost function Rounds(eqs: seq<Eqn>, guess: seq<Eqn>, soln: seq<int>, last: nat): (r: Option<seq<int>>)
    requires InBounds(guess, |soln|)
    decreases last
  {
    match RoundTo(eqs, guess, soln, |guess|)
    case None => None
    case Some((x, left)) => if |left| >= last || |left| == 0 then Some(x) else Rounds(eqs, guess, x, |left|)
  }

  function Nothing(n: nat): (s: seq<int>)
    ensures |s| == n && forall v :: 0 <= v < n ==> s[v] == UNKNOWN
  {
    seq(n, i => UNKNOWN)
  }

  /** What `solve` comes to; nothing when it does not end. */
  ghost function Solution(sys: System): Option<seq<int>>
    requires sys.Valid()
  {
    var eqs := SortStable(Mirrored(sys.eqs));
    match Propagated(eqs, Nothing(sys.vars), 0, 0)
    case None => None
    case Some(x) =>
      assert InBounds(sys.guess, |x|);
      Rounds(eqs, sys.guess, x, |sys.guess| + 2)
  }

  /** What is counted in a round was unknown before it, and what is unknown after it is counted. */
  lemma {:induction false} RoundLeaves(eqs: seq<Eqn>, guess: seq<Eqn>, soln: seq<int>, i: nat)
    requires i <= |guess| && InBounds(guess, |soln|) && RoundTo(eqs, guess, soln, i).Some?
    ensures var (x, left) := RoundTo(eqs, guess, soln, i).value;
      && (forall k :: k in left ==> k < i && BothUnknown(soln, guess[k]))
      && (forall k: nat :: k < i && BothUnknown(x, guess[k]) ==> k in left)
  {
    if i > 0 {
      RoundLeaves(eqs, guess, soln, i - 1);
      var (x, left) := RoundTo(eqs, guess, soln, i - 1).value;
      var (y, left') := RoundTo(eqs, guess, soln, i).value;
      forall k: nat | k < i && BothUnknown(y, guess[k]) ensures k in left' { UnknownBefore(x, y, guess[k]); }
      if BothUnknown(x, guess[i - 1]) { UnknownBefore(soln, x, guess[i - 1]); }
    }
  }

  lemma UnknownBefore(before: seq<int>, soln: seq<int>, g: Eqn)
    requires Kept(before, soln) && BothUnknown(soln, g)
    ensures BothUnknown(before, g)
  {
    if g.var1 < |soln| { assert KeptAt(before, soln, g.var1); }
    if g.var2 < |soln| { assert KeptAt(before, soln, g.var2); }
  }

  /** A round counts no more than the one before it. */
  lemma CountShrinks(left: set<nat>, last: set<nat>)
    requires left <= last
    ensures |left| <= |last|
  {
    assert last == left + (last - left);
    assert |last| == |left| + |last - left|;
  }

  ghost function AllGuesses(n: nat): (s: set<nat>)
    ensures |s| == n && forall k: nat :: k in s <==> k < n
  {
    if n == 0 then {} else AllGuesses(n - 1) + {n - 1}
  }

  // ----- without the mark the solver ends and solves -----

  /** A sweep of a pending variable. */
  lemma {:induction false} SweepRuns(c: Call, soln: seq<int>, work: seq<nat>, cur: nat, top: nat)
    requires c.Valid() && Sweeping(c, soln, work, cur, 0) && top <= |c.eqs|
    ensures var (x, w) := Sweep(c.eqs, soln, work, cur, top);
      Sweeping(c, x, w, cur, top)
  {
    if top > 0 {
      SweepRuns(c, soln, work, cur, top - 1);
      var (x, w) := Sweep(c.eqs, soln, work, cur, top - 1);
      if c.eqs[top - 1].var1 == cur { SweepStep(c, x, w, cur, top - 1); }
    }
  }

  /** The loop ends, and its invariant holds then. */
  lemma {:induction false} RunEnds(c: Call, from: seq<int>, n: nat, soln: seq<int>, work: seq<nat>)
    requires c.Valid() && c.Running(soln, work) && After(c.eqs, from, [c.start], n) == (soln, work)
    ensures exists end :: Ends(c.eqs, from, [c.start], end) && c.Running(end, [])
    decreases Unknowns(soln), |work|
  {
    if work == [] {
      assert EndsAfter(c.eqs, from, [c.start], n, soln);
    } else {
      var rest, cur := work[..|work| - 1], work[|work| - 1];
      assert rest + [cur] == work;
      OneMore(c.eqs, from, [c.start], n, soln, rest, cur);
      PopWork(c, soln, rest, cur);
      SweepRuns(c, soln, rest, cur, |c.eqs|);
      var (x, w) := Sweep(c.eqs, soln, rest, cur, |c.eqs|);
      SweepEnds(c, x, w, cur);
      SweepCounts(c.eqs, soln, rest, cur, x, w);
      RunEnds(c, from, n + 1, x, w);
    }
  }

  /** Pushing a value that `reach` allows keeps the system settled. */
  lemma PropagateSettles(sys: System, eqs: seq<Eqn>, soln: seq<int>, v: nat, val: int, reach: Reach, x: seq<int>, fits: bool)
    requires sys.Valid() && Cover(sys, reach, x, fits) && Doubled(sys, eqs) && Settled(sys, soln, reach, fits)
    requires v < sys.vars && (soln[v] == UNKNOWN ==> Grounded(reach, soln, v, val))
    ensures var r := Propagated(eqs, soln, v, val);
      r.Some? && Settled(sys, r.value, reach, fits) && Known(r.value, v) && (soln[v] == UNKNOWN ==> r.value[v] == val)
  {
    if soln[v] == UNKNOWN {
      var c := Call(sys, eqs, soln, reach, x, fits, v, val);
      SpreadStarts(sys, eqs, soln, reach, x, fits, v, val);
      assert Pending(soln, soln[v := val], [v]);
      RunEnds(c, soln[v := val], 0, soln[v := val], [v]);
      var end :| Ends(eqs, soln[v := val], [v], end) && c.Running(end, []);
      SpreadEnds(sys, eqs, soln, end, reach, x, fits, v, val);
    }
  }

  lemma GuessSettles(sys: System, eqs: seq<Eqn>, soln: seq<int>, g: Eqn, reach: Reach, x: seq<int>, fits: bool)
    requires sys.Valid() && Cover(sys, reach, x, fits) && Doubled(sys, eqs) && Settled(sys, soln, reach, fits) && g in sys.guess
    ensures var r := Guessed(eqs, soln, g);
      && r.Some? && Settled(sys, r.value, reach, fits) && (!BothUnknown(soln, g) ==> BothKnown(r.value, g))
      && (BothUnknown(soln, g) || BothKnown(soln, g) ==> r.value == soln)
  {
    GuessReaches(sys, reach, x, fits, soln, g);
    if soln[g.var1] != UNKNOWN && soln[g.var2] == UNKNOWN {
      PropagateSettles(sys, eqs, soln, g.var2, Wrap(soln[g.var1] - g.rhs), reach, x, fits);
      assert KeptAt(soln, Guessed(eqs, soln, g).value, g.var1);
    } else if soln[g.var1] == UNKNOWN && soln[g.var2] != UNKNOWN {
      PropagateSettles(sys, eqs, soln, g.var1, Wrap(soln[g.var2] + g.rhs), reach, x, fits);
      assert KeptAt(soln, Guessed(eqs, soln, g).value, g.var2);
    }
  }

  lemma {:induction false} RoundSettles(sys: System, eqs: seq<Eqn>, soln: seq<int>, last: set<nat>, i: nat, reach: Reach, x: seq<int>, fits: bool)
    requires sys.Valid() && Cover(sys, reach, x, fits) && Doubled(sys, eqs) && Settled(sys, soln, reach, fits)
    requires i <= |sys.guess| && InBounds(sys.guess, |soln|) && Covered(sys.guess, soln, last)
    ensures var r := RoundTo(eqs, sys.guess, soln, i);
      r.Some? && Settled(sys, r.value.0, reach, fits) && InRound(sys.guess, soln, r.value.0, last, r.value.1, i)
  {
    if i > 0 {
      RoundSettles(sys, eqs, soln, last, i - 1, reach, x, fits);
      var (y, left) := RoundTo(eqs, sys.guess, soln, i - 1).value;
      var g := sys.guess[i - 1];
      GuessSettles(sys, eqs, y, g, reach, x, fits);
      RoundStep(sys.guess, soln, y, Guessed(eqs, y, g).value, last, left, i - 1, BothUnknown(y, g));
    }
  }

  lemma {:induction false} RoundsSettle(sys: System, eqs: seq<Eqn>, soln: seq<int>, last: set<nat>, count: nat, reach: Reach, x: seq<int>, fits: bool)
    requires sys.Valid() && Cover(sys, reach, x, fits) && Doubled(sys, eqs) && Settled(sys, soln, reach, fits)
    requires InBounds(sys.guess, |soln|) && Covered(sys.guess, soln, last) && (count == |last| || count > |last| + 1)
    ensures var r := Rounds(eqs, sys.guess, soln, count);
      r.Some? && Settled(sys, r.value, reach, fits) && Kept(soln, r.value) && Closed(sys.guess, r.value)
    decreases count
  {
    RoundSettles(sys, eqs, soln, last, |sys.guess|, reach, x, fits);
    var (y, left) := RoundTo(eqs, sys.guess, soln, |sys.guess|).value;
    CountShrinks(left, last);
    if |left| >= count {
      SameCountIsIdle(sys.guess, soln, y, last, left);
    } else if |left| == 0 {
      NoneLeftIsClosed(sys.guess, y);
    } else {
      RoundsSettle(sys, eqs, y, left, |left|, reach, x, fits);
      KeptTrans(soln, y, Rounds(eqs, sys.guess, y, |left|).value);
    }
  }

  lemma SortedIsDoubled(sys: System)
    ensures Doubled(sys, SortStable(Mirrored(sys.eqs)))
  {
    forall e ensures DoubledAt(sys, SortStable(Mirrored(sys.eqs)), e) {
    }
  }

  /** When no walk without repeated variables meets the mark, the solver ends and solves the system. */
  lemma UnmarkedIsSolved(sys: System)
    requires sys.Valid() && NoSentinel(sys)
    ensures Solution(sys).Some? && Solved(sys, Solution(sys).value)
  {
    var fits := exists x :: Satisfies(sys, x);
    var x: seq<int> := [];
    if fits { x :| Satisfies(sys, x); }
    WalksCover(sys, x, fits);
    UnmarkedSettles(sys, x, fits);
    SettledIsSolved(sys, Solution(sys).value, fits);
  }

  lemma UnmarkedSettles(sys: System, x: seq<int>, fits: bool)
    requires sys.Valid() && Cover(sys, Paths(sys), x, fits)
    ensures var r := Solution(sys);
      r.Some? && Settled(sys, r.value, Paths(sys), fits) && Known(r.value, 0) && r.value[0] == 0 && Closed(sys.guess, r.value)
  {
    var eqs, none, reach := SortStable(Mirrored(sys.eqs)), Nothing(sys.vars), Paths(sys);
    SortedIsDoubled(sys);
    AllUnknown(sys, none, reach, fits);
    Origin(sys, none);
    PropagateSettles(sys, eqs, none, 0, 0, reach, x, fits);
    var y := Propagated(eqs, none, 0, 0).value;
    assert InBounds(sys.guess, |y|);
    RoundsSettle(sys, eqs, y, AllGuesses(|sys.guess|), |sys.guess| + 2, reach, x, fits);
    assert KeptAt(y, Rounds(eqs, sys.guess, y, |sys.guess| + 2).value, 0);
  }

  lemma Origin(sys: System, soln: seq<int>)
    ensures Grounded(Paths(sys), soln, 0, 0)
  {
    assert IsPath(sys, [], 0, {0}) && Along([]) == 0;
    assert GroundedBy(Paths(sys), soln, 0, 0, {0});
  }

  // ----- the solver -----

  class StackSolver {
    var eqs: seq<Eqn>
    var guess: seq<Eqn>
    var vars: nat
    var soln: seq<int>

    constructor (vars: nat, eqs: seq<Eqn>, guess: seq<Eqn>)
      ensures this.vars == vars && this.eqs == eqs && this.guess == guess && soln == []
    {
      this.vars, this.eqs, this.guess, soln := vars, eqs, guess, [];
    }

    function Given(): System
      reads this
    {
      System(vars, eqs, guess)
    }

    /** Handles every equation of `cur`: the variables it solves become pending. */
    method Spread(cur: nat, work: seq<nat>) returns (more: seq<nat>)
      requires Sorted(eqs) && InBounds(eqs, |soln|) && cur < |soln|
      modifies this`soln
      ensures (soln, more) == Sweep(eqs, old(soln), work, cur, |eqs|) && |soln| == |old(soln)|
    {
      more := work;
      var top := LowerBound(eqs, cur);
      SweepSkips(eqs, soln, work, cur, 0, top);
      while top < |eqs| && eqs[top].var1 == cur
        invariant top <= |eqs| && |soln| == |old(soln)|
        invariant (soln, more) == Sweep(eqs, old(soln), work, cur, top)
        invariant forall k :: top <= k < |eqs| ==> eqs[k].var1 >= cur
      {
        var v2 := eqs[top].var2;
        if soln[v2] == UNKNOWN {
          soln := soln[v2 := Wrap(soln[cur] - eqs[top].rhs)];
          more := more + [v2];
        }
        top := top + 1;
      }
      SweepLast(eqs, old(soln), work, cur, top);
    }

    /** Pushes a known solution through every equation it touches. */
    method Propagate(varnum: nat, val: int)
      requires Sorted(eqs) && InBounds(eqs, |soln|) && varnum < |soln| && Propagated(eqs, soln, varnum, val).Some?
      modifies this`soln
      ensures Some(soln) == Propagated(eqs, old(soln), varnum, val)
    {
      if soln[varnum] != UNKNOWN { return; }
      soln := soln[varnum := val];
      ghost var from := soln;
      var work := [varnum];
      ghost var end := Propagated(eqs, old(soln), varnum, val).value;
      ghost var n: nat :| EndsAfter(eqs, from, [varnum], n, end);
      ghost var k: nat := 0;
      while |work| > 0
        invariant After(eqs, from, [varnum], k) == (soln, work) && k <= n
        invariant |soln| == |from| && Within(work, |soln|)
        decreases n - k
      {
        if k == n { assert false; }
        var cur := work[|work| - 1];
        assert work[..|work| - 1] + [cur] == work;
        work := work[..|work| - 1];
        OneMore(eqs, from, [varnum], k, soln, work, cur);
        SweepWithin(eqs, soln, work, cur, |eqs|);
        work := Spread(cur, work);
        k := k + 1;
      }
      StaysEnded(eqs, from, [varnum], k, n);
    }

    /** Adds the negated mirror of every equation and sorts by the first variable. */
    method Duplicate()
      modifies this`eqs
      ensures eqs == SortStable(Mirrored(old(eqs))) && Doubled(System(vars, old(eqs), guess), eqs)
    {
      var n := |eqs|;
      for i := 0 to n
        invariant |eqs| == n + i && eqs[..n] == old(eqs)
        invariant forall k :: 0 <= k < i ==> eqs[n + k] == Mirror(old(eqs)[k])
      {
        eqs := eqs + [Mirror(eqs[i])];
      }
      assert eqs == Mirrored(old(eqs));
      eqs := SortStable(eqs);
    }

    /** Uses a guess with one end known; reports whether both ends are unknown. */
    method TryGuess(g: Eqn) returns (unknown: bool)
      requires Sorted(eqs) && InBounds(eqs, |soln|) && g.var1 < |soln| && g.var2 < |soln| && Guessed(eqs, soln, g).Some?
      modifies this`soln
      ensures Some(soln) == Guessed(eqs, old(soln), g) && unknown == BothUnknown(old(soln), g)
    {
      unknown := false;
      if soln[g.var1] != UNKNOWN && soln[g.var2] == UNKNOWN {
        Propagate(g.var2, Wrap(soln[g.var1] - g.rhs));
      } else if soln[g.var1] == UNKNOWN && soln[g.var2] != UNKNOWN {
        Propagate(g.var1, Wrap(soln[g.var2] + g.rhs));
      } else if soln[g.var1] == UNKNOWN && soln[g.var2] == UNKNOWN {
        unknown := true;
      }
    }

    /** One pass over the guesses, counting those met with both ends unknown. */
    method Round() returns (count: nat)
      requires Sorted(eqs) && InBounds(eqs, |soln|) && InBounds(guess, |soln|) && RoundTo(eqs, guess, soln, |guess|).Some?
      modifies this`soln
      ensures var r := RoundTo(eqs, guess, old(soln), |guess|).value;
        soln == r.0 && count == |r.1|
    {
      count := 0;
      ghost var was := soln;
      RoundLeaves(eqs, guess, soln, |guess|);
      for i := 0 to |guess|
        invariant |soln| == |was| && RoundTo(eqs, guess, was, i).Some?
        invariant var r := RoundTo(eqs, guess, was, i).value;
          soln == r.0 && count == |r.1|
      {
        RoundPrefix(eqs, guess, was, i + 1, |guess|);
        RoundLeaves(eqs, guess, was, i);
        var unknown := TryGuess(guess[i]);
        if unknown { count := count + 1; }
      }
    }

    /** Resolves the system, with guesses for the parts the equations leave open. */
    method Solve()
      requires Given().Valid() && Solution(Given()).Some?
      modifies this
      ensures Some(soln) == Solution(old(Given()))
      ensures NoSentinel(old(Given())) ==> Solved(old(Given()), soln)
    {
      ghost var sys := Given();
      soln := Nothing(vars);
      Duplicate();
      DoubledInBounds(sys, eqs);
      Propagate(0, 0);
      assert InBounds(guess, |soln|);
      SolveGuesses();
      if NoSentinel(sys) { UnmarkedIsSolved(sys); }
    }

    method SolveGuesses()
      requires Sorted(eqs) && InBounds(eqs, |soln|) && InBounds(guess, |soln|) && Rounds(eqs, guess, soln, |guess| + 2).Some?
      modifies this`soln
      ensures Some(soln) == Rounds(eqs, guess, old(soln), |guess| + 2)
    {
      var size := |guess|;
      var lastcount: nat := size + 2;
      ghost var last := AllGuesses(size);
      ghost var goal := Rounds(eqs, guess, soln, lastcount);
      while true
        invariant |soln| == |old(soln)| && Rounds(eqs, guess, soln, lastcount) == goal
        invariant |last| <= lastcount && forall k: nat :: k < |guess| && BothUnknown(soln, guess[k]) ==> k in last
        decreases lastcount
      {
        ghost var left := RoundTo(eqs, guess, soln, |guess|).value.1;
        RoundLeaves(eqs, guess, soln, |guess|);
        CountShrinks(left, last);
        var count := Round();
        if count == lastcount { break; }
        lastcount := count;
        last := left;
        if count <= 0 { break; }
      }
    }
  }

  /** A round that is gone through has begun. */
  lemma {:induction false} RoundPrefix(eqs: seq<Eqn>, guess: seq<Eqn>, soln: seq<int>, i: nat, n: nat)
    requires i <= n <= |guess| && InBounds(guess, |soln|) && RoundTo(eqs, guess, soln, n).Some?
    ensures RoundTo(eqs, guess, soln, i).Some?
  {
    if i < n { RoundPrefix(eqs, guess, soln, i, n - 1); }
  }

  lemma DoubledInBounds(sys: System, eqs: seq<Eqn>)
    requires sys.Valid() && Doubled(sys, eqs)
    ensures InBounds(eqs, sys.vars)
  {
    forall i | 0 <= i < |eqs| ensures eqs[i].var1 < sys.vars && eqs[i].var2 < sys.vars { DoubledFacts(sys, eqs, eqs[i]); }
  }
}

/**
 The stack solver and its mark (pkg/pcode/action_stackptrflow.go:57-118): a variable whose
 offset is 65535 looks unsolved.  For systems whose equations and guesses agree, when the
 solver ends and what it leaves.
 */
module StackMarks {
  import opened Options
  import opened Words
  import opened Sorting
  import opened StackSolvers

  // ----- one worklist -----

  /** A worklist from `start`, with what is known before it and the offset that each variable has. */
  datatype Run = Run(eqs: seq<Eqn>, before: seq<int>, start: nat, pot: seq<int>) {
    ghost predicate Valid() {
      && |pot| == |before| && InBounds(eqs, |before|) && start < |before| && before[start] == UNKNOWN
      && (forall e :: HasBack(eqs, e)) && (forall e :: CarriesTouched(this, e))
    }
    function First(): seq<int>
      requires start < |before| && start < |pot|
    {
      before[start := pot[start]]
    }
  }

  /** The equation takes the offset of its first variable to that of its second. */
  predicate Carries(pot: seq<int>, e: Eqn) {
    e.var1 < |pot| && e.var2 < |pot| && pot[e.var2] == Wrap(pot[e.var1] - e.rhs)
  }

  ghost predicate CarriesTouched(r: Run, e: Eqn) { e in r.eqs && Touches(r, e.var1) ==> Carries(r.pot, e) }

  /** The equation comes with one between the same variables the other way round. */
  ghost predicate HasBack(eqs: seq<Eqn>, e: Eqn) { e in eqs ==> exists f :: f in eqs && f.var1 == e.var2 && f.var2 == e.var1 }

  predicate LooksUnknown(soln: seq<int>, v: nat) { v < |soln| && soln[v] == UNKNOWN }

  /** A way from the start through variables that look unknown. */
  ghost predicate IsTrail(r: Run, p: seq<Eqn>, v: nat) {
    if p == [] then v == r.start
    else
      var e := p[|p| - 1];
      e in r.eqs && e.var2 == v && LooksUnknown(r.before, v) && IsTrail(r, p[..|p| - 1], e.var1)
  }

  ghost predicate Touches(r: Run, v: nat) { exists p :: IsTrail(r, p, v) }

  lemma TouchesNext(r: Run, e: Eqn)
    requires e in r.eqs && Touches(r, e.var1) && LooksUnknown(r.before, e.var2)
    ensures Touches(r, e.var2)
  {
    var p :| IsTrail(r, p, e.var1);
    var q := p + [e];
    assert q[..|p|] == p;
    assert IsTrail(r, q, e.var2);
  }

  lemma TouchedLooksUnknown(r: Run, v: nat)
    requires r.Valid() && Touches(r, v)
    ensures LooksUnknown(r.before, v)
  {
    var p :| IsTrail(r, p, v);
  }

  predicate Marked(pot: seq<int>, v: nat) { v < |pot| && pot[v] == UNKNOWN }

  /** The equation joins two variables at the mark that are touched. */
  ghost predicate Clash(r: Run, e: Eqn) {
    e in r.eqs && Touches(r, e.var1) && Touches(r, e.var2) && Marked(r.pot, e.var1) && Marked(r.pot, e.var2)
  }

  // ----- what the loop keeps -----

  ghost function Elements(s: seq<nat>): set<nat> { set x | x in s }

  ghost predicate PlacedAt(r: Run, soln: seq<int>, seen: set<nat>, v: nat) {
    v < |soln| && v < |r.pot| && v < |r.before| && soln[v] == if v in seen then r.pot[v] else r.before[v]
  }

  /** The variables seen have their offset, all others are as before. */
  ghost predicate Holding(r: Run, soln: seq<int>, work: seq<nat>, seen: set<nat>) {
    && |soln| == |r.before|
    && (forall v: nat :: v < |soln| ==> PlacedAt(r, soln, seen, v))
    && (forall v :: v in seen ==> Touches(r, v))
    && Elements(work) <= seen
  }

  /** The other end of an equation of a variable seen and no longer pending has been seen. */
  ghost predicate SpreadFrom(r: Run, work: seq<nat>, seen: set<nat>, e: Eqn) {
    e.var1 in seen && e.var1 !in work && LooksUnknown(r.before, e.var2) ==> e.var2 in seen
  }

  ghost predicate Between(r: Run, soln: seq<int>, work: seq<nat>, seen: set<nat>) {
    Holding(r, soln, work, seen) && r.start in seen && forall e :: e in r.eqs ==> SpreadFrom(r, work, seen, e)
  }

  ghost predicate During(r: Run, soln: seq<int>, work: seq<nat>, seen: set<nat>, cur: nat, top: nat) {
    && Holding(r, soln, work, seen) && r.start in seen && cur in seen && top <= |r.eqs|
    && (forall e :: e in r.eqs && e.var1 != cur ==> SpreadFrom(r, work, seen, e))
    && (forall k :: 0 <= k < top ==> LookedAt(r, seen, cur, r.eqs[k]))
  }

  ghost predicate LookedAt(r: Run, seen: set<nat>, cur: nat, e: Eqn) {
    e.var1 == cur && LooksUnknown(r.before, e.var2) ==> e.var2 in seen
  }

  /** A variable seen at the mark, or not seen and unknown before, looks unknown. */
  lemma StillUnknown(r: Run, soln: seq<int>, work: seq<nat>, seen: set<nat>, v: nat)
    requires r.Valid() && Holding(r, soln, work, seen) && v < |soln|
    ensures soln[v] == UNKNOWN <==> (if v in seen then Marked(r.pot, v) else LooksUnknown(r.before, v))
  {
    assert PlacedAt(r, soln, seen, v);
  }

  /** Handling one equation. */
  lemma UseHolds(r: Run, soln: seq<int>, work: seq<nat>, seen: set<nat>, cur: nat, top: nat)
    requires r.Valid() && During(r, soln, work, seen, cur, top) && top < |r.eqs|
    ensures var (x, w) := Use(r.eqs[top], soln, work, cur);
      During(r, x, w, seen + Elements(w), cur, top + 1)
  {
    var e := r.eqs[top];
    var (x, w) := Use(e, soln, work, cur);
    if e.var1 == cur && soln[e.var2] == UNKNOWN {
      UsePushes(r, soln, work, seen, cur, e);
      assert seen + Elements(w) == seen + {e.var2};
      forall f | f in r.eqs && f.var1 != cur ensures SpreadFrom(r, w, seen + {e.var2}, f) {
        assert SpreadFrom(r, work, seen, f);
        assert e.var2 in w;
      }
    } else {
      assert seen + Elements(w) == seen;
      if e.var1 == cur { StillUnknown(r, soln, work, seen, e.var2); }
    }
    forall k | 0 <= k < top + 1 ensures LookedAt(r, seen + Elements(w), cur, r.eqs[k]) {
      if k < top { assert LookedAt(r, seen, cur, r.eqs[k]); }
    }
  }

  lemma UsePushes(r: Run, soln: seq<int>, work: seq<nat>, seen: set<nat>, cur: nat, e: Eqn)
    requires r.Valid() && Holding(r, soln, work, seen) && cur in seen && e in r.eqs && e.var1 == cur
    requires e.var2 < |soln| && soln[e.var2] == UNKNOWN
    ensures var (x, w) := Use(e, soln, work, cur);
      && Holding(r, x, w, seen + {e.var2}) && w == work + [e.var2] && x == soln[e.var2 := r.pot[e.var2]]
  {
    StillUnknown(r, soln, work, seen, e.var2);
    assert Touches(r, cur) && CarriesTouched(r, e) && PlacedAt(r, soln, seen, cur);
    if e.var2 !in seen { TouchesNext(r, e); }
    var (x, w) := Use(e, soln, work, cur);
    forall v: nat | v < |x| ensures PlacedAt(r, x, seen + {e.var2}, v) { assert PlacedAt(r, soln, seen, v); }
  }

  lemma {:induction false} SweepHolds(r: Run, soln: seq<int>, work: seq<nat>, seen: set<nat>, cur: nat, top: nat)
    requires r.Valid() && During(r, soln, work, seen, cur, 0) && top <= |r.eqs|
    ensures var (x, w) := Sweep(r.eqs, soln, work, cur, top);
      During(r, x, w, seen + Elements(w), cur, top)
  {
    if top == 0 {
      assert seen + Elements(work) == seen;
    } else {
      SweepHolds(r, soln, work, seen, cur, top - 1);
      var (x, w) := Sweep(r.eqs, soln, work, cur, top - 1);
      UseHolds(r, x, w, seen + Elements(w), cur, top - 1);
      var (x', w') := Sweep(r.eqs, soln, work, cur, top);
      assert w <= w';
      assert seen + Elements(w) + Elements(w') == seen + Elements(w');
    }
  }

  /** A whole turn. */
  lemma TurnHolds(r: Run, soln: seq<int>, rest: seq<nat>, cur: nat, seen: set<nat>)
    requires r.Valid() && Between(r, soln, rest + [cur], seen)
    ensures During(r, soln, rest, seen, cur, 0)
    ensures var (x, w) := Sweep(r.eqs, soln, rest, cur, |r.eqs|);
      Between(r, x, w, seen + Elements(w))
  {
    assert cur in rest + [cur] && cur in Elements(rest + [cur]) && Elements(rest) <= Elements(rest + [cur]);
    forall e | e in r.eqs && e.var1 != cur ensures SpreadFrom(r, rest, seen, e) { assert SpreadFrom(r, rest + [cur], seen, e); }
    SweepHolds(r, soln, rest, seen, cur, |r.eqs|);
    var (x, w) := Sweep(r.eqs, soln, rest, cur, |r.eqs|);
    var seen' := seen + Elements(w);
    forall e | e in r.eqs ensures SpreadFrom(r, w, seen', e) {
      if e.var1 == cur {
        var k :| 0 <= k < |r.eqs| && r.eqs[k] == e;
        assert LookedAt(r, seen', cur, r.eqs[k]);
      }
    }
  }

  lemma FirstHolds(r: Run)
    requires r.Valid()
    ensures Between(r, r.First(), [r.start], {r.start})
  {
    assert IsTrail(r, [], r.start);
    forall v: nat | v < |r.before| ensures PlacedAt(r, r.First(), {r.start}, v) {
    }
  }

  /** When nothing is pending, exactly what is touched has been seen. */
  lemma {:induction false} TouchedIsSeen(r: Run, soln: seq<int>, seen: set<nat>, p: seq<Eqn>, v: nat)
    requires r.Valid() && Between(r, soln, [], seen) && IsTrail(r, p, v)
    ensures v in seen
  {
    if p != [] {
      var e := p[|p| - 1];
      TouchedIsSeen(r, soln, seen, p[..|p| - 1], e.var1);
      assert SpreadFrom(r, [], seen, e);
    }
  }

  /** What the worklist leaves when it ends. */
  ghost predicate Outcome(r: Run, end: seq<int>) {
    |end| == |r.before| && forall v: nat :: v < |end| ==> OutcomeAt(r, end, v)
  }

  ghost predicate OutcomeAt(r: Run, end: seq<int>, v: nat) {
    v < |end| && v < |r.pot| && v < |r.before| && end[v] == if Touches(r, v) then r.pot[v] else r.before[v]
  }

  lemma EndIsOutcome(r: Run, end: seq<int>, seen: set<nat>)
    requires r.Valid() && Between(r, end, [], seen)
    ensures Outcome(r, end)
  {
    forall v: nat | v < |end| ensures OutcomeAt(r, end, v) {
      assert PlacedAt(r, end, seen, v);
      if Touches(r, v) {
        var p :| IsTrail(r, p, v);
        TouchedIsSeen(r, end, seen, p, v);
      }
    }
  }

  // ----- the loop ends when no equation joins two variables at the mark -----

  /** Variables that will be known and are not yet. */
  function Hidden(pot: seq<int>, soln: seq<int>): nat
    requires |pot| == |soln|
  {
    if soln == [] then 0
    else
      var n := |soln| - 1;
      Hidden(pot[..n], soln[..n]) + if soln[n] == UNKNOWN && pot[n] != UNKNOWN then 1 else 0
  }

  lemma {:induction false} SolvingUncovers(pot: seq<int>, soln: seq<int>, v: nat)
    requires |pot| == |soln| && v < |soln| && soln[v] == UNKNOWN
    ensures Hidden(pot, soln[v := pot[v]]) == Hidden(pot, soln) - if pot[v] != UNKNOWN then 1 else 0
  {
    var n := |soln| - 1;
    if v == n {
      assert soln[v := pot[v]][..n] == soln[..n];
    } else {
      assert soln[v := pot[v]][..n] == soln[..n][v := pot[v]];
      SolvingUncovers(pot[..n], soln[..n], v);
    }
  }

  /** Pending variables that are not at the mark. */
  function Plain(pot: seq<int>, work: seq<nat>): nat {
    if work == [] then 0 else Plain(pot, work[..|work| - 1]) + if Marked(pot, work[|work| - 1]) then 0 else 1
  }

  lemma PlainMore(pot: seq<int>, work: seq<nat>, v: nat)
    ensures Plain(pot, work + [v]) == Plain(pot, work) + if Marked(pot, v) then 0 else 1
  {
    assert (work + [v])[..|work|] == work;
  }

  /** A sweep uncovers a variable, or pushes only variables at the mark, and none of those from one at the mark. */
  ghost predicate Lighter(r: Run, soln: seq<int>, rest: seq<nat>, cur: nat, x: seq<int>, w: seq<nat>) {
    && |x| == |soln| == |r.pot|
    && (Hidden(r.pot, x) < Hidden(r.pot, soln)
    || (x == soln && Plain(r.pot, w) == Plain(r.pot, rest) && (Marked(r.pot, cur) ==> w == rest)))
  }

  lemma {:induction false} SweepIsLighter(r: Run, soln: seq<int>, rest: seq<nat>, seen: set<nat>, cur: nat, top: nat)
    requires r.Valid() && During(r, soln, rest, seen, cur, 0) && top <= |r.eqs| && forall e :: !Clash(r, e)
    ensures var (x, w) := Sweep(r.eqs, soln, rest, cur, top);
      Lighter(r, soln, rest, cur, x, w)
  {
    if top > 0 {
      SweepIsLighter(r, soln, rest, seen, cur, top - 1);
      SweepHolds(r, soln, rest, seen, cur, top - 1);
      var (x, w) := Sweep(r.eqs, soln, rest, cur, top - 1);
      UseIsLighter(r, soln, rest, x, w, seen + Elements(w), cur, r.eqs[top - 1]);
    }
  }

  lemma UseIsLighter(r: Run, soln: seq<int>, rest: seq<nat>, x: seq<int>, w: seq<nat>, seen: set<nat>, cur: nat, e: Eqn)
    requires r.Valid() && Holding(r, x, w, seen) && cur in seen && e in r.eqs && !Clash(r, e) && Lighter(r, soln, rest, cur, x, w)
    ensures var (x', w') := Use(e, x, w, cur);
      Lighter(r, soln, rest, cur, x', w')
  {
    if e.var1 == cur && x[e.var2] == UNKNOWN {
      UsePushes(r, x, w, seen, cur, e);
      SolvingUncovers(r.pot, x, e.var2);
      PlainMore(r.pot, w, e.var2);
      assert e.var2 in seen + {e.var2};
      assert Touches(r, e.var2) && Touches(r, cur);
      if Marked(r.pot, e.var2) { assert x[e.var2 := r.pot[e.var2]] == x; }
    }
  }

  lemma {:induction false} ApartEnds(r: Run, n: nat, soln: seq<int>, work: seq<nat>, seen: set<nat>)
    requires r.Valid() && Between(r, soln, work, seen) && (forall e :: !Clash(r, e))
    requires After(r.eqs, r.First(), [r.start], n) == (soln, work)
    ensures exists end :: Ends(r.eqs, r.First(), [r.start], end)
    decreases Hidden(r.pot, soln), Plain(r.pot, work), |work|
  {
    if work == [] {
      assert EndsAfter(r.eqs, r.First(), [r.start], n, soln);
      assert Ends(r.eqs, r.First(), [r.start], soln);
    } else {
      var rest, cur := work[..|work| - 1], work[|work| - 1];
      assert rest + [cur] == work;
      OneMore(r.eqs, r.First(), [r.start], n, soln, rest, cur);
      TurnHolds(r, soln, rest, cur, seen);
      SweepIsLighter(r, soln, rest, seen, cur, |r.eqs|);
      PlainMore(r.pot, rest, cur);
      var (x, w) := Sweep(r.eqs, soln, rest, cur, |r.eqs|);
      ApartEnds(r, n + 1, x, w, seen + Elements(w));
    }
  }

  // ----- the loop does not end when one does -----

  /** Once one of the two is seen, one of them is pending. */
  ghost predicate Stuck(work: seq<nat>, seen: set<nat>, u: nat, v: nat) {
    u in seen || v in seen ==> u in work || v in work
  }

  /** A sweep of `cur` pushes whatever at the mark it is joined to. */
  lemma {:induction false} SweepPushes(r: Run, soln: seq<int>, rest: seq<nat>, seen: set<nat>, cur: nat, top: nat, k: nat)
    requires r.Valid() && During(r, soln, rest, seen, cur, 0) && k < top <= |r.eqs|
    requires r.eqs[k].var1 == cur && Touches(r, r.eqs[k].var2) && Marked(r.pot, r.eqs[k].var2)
    ensures r.eqs[k].var2 in Sweep(r.eqs, soln, rest, cur, top).1
  {
    if k < top - 1 {
      SweepPushes(r, soln, rest, seen, cur, top - 1, k);
    } else {
      SweepHolds(r, soln, rest, seen, cur, k);
      var (x, w) := Sweep(r.eqs, soln, rest, cur, k);
      TouchedLooksUnknown(r, r.eqs[k].var2);
      StillUnknown(r, x, w, seen + Elements(w), r.eqs[k].var2);
      assert cur in seen + Elements(w) && Touches(r, cur);
      TouchedLooksUnknown(r, cur);
    }
  }

  lemma {:induction false} SweepKeepsPending(eqs: seq<Eqn>, soln: seq<int>, rest: seq<nat>, cur: nat, top: nat)
    requires top <= |eqs|
    ensures rest <= Sweep(eqs, soln, rest, cur, top).1
  {
    if top > 0 { SweepKeepsPending(eqs, soln, rest, cur, top - 1); }
  }

  lemma TurnStaysStuck(r: Run, soln: seq<int>, rest: seq<nat>, cur: nat, seen: set<nat>, e: Eqn)
    requires r.Valid() && Between(r, soln, rest + [cur], seen) && Clash(r, e) && Stuck(rest + [cur], seen, e.var1, e.var2)
    ensures var (x, w) := Sweep(r.eqs, soln, rest, cur, |r.eqs|);
      Stuck(w, seen + Elements(w), e.var1, e.var2)
  {
    TurnHolds(r, soln, rest, cur, seen);
    SweepKeepsPending(r.eqs, soln, rest, cur, |r.eqs|);
    var w := Sweep(r.eqs, soln, rest, cur, |r.eqs|).1;
    if cur == e.var1 {
      var k :| 0 <= k < |r.eqs| && r.eqs[k] == e;
      SweepPushes(r, soln, rest, seen, cur, |r.eqs|, k);
    } else if cur == e.var2 {
      assert HasBack(r.eqs, e);
      var f :| f in r.eqs && f.var1 == e.var2 && f.var2 == e.var1;
      var k :| 0 <= k < |r.eqs| && r.eqs[k] == f;
      SweepPushes(r, soln, rest, seen, cur, |r.eqs|, k);
    } else {
      assert forall u :: u in rest + [cur] && u != cur ==> u in rest;
      assert forall u :: u in rest ==> u in w;
    }
  }

  /** The state after `n` turns. */
  lemma {:induction false} RunHolds(r: Run, n: nat) returns (seen: set<nat>)
    requires r.Valid()
    ensures var (soln, work) := After(r.eqs, r.First(), [r.start], n);
      Between(r, soln, work, seen) && forall e :: Clash(r, e) ==> Stuck(work, seen, e.var1, e.var2)
  {
    if n == 0 {
      FirstHolds(r);
      seen := {r.start};
    } else {
      seen := RunHolds(r, n - 1);
      var (soln, work) := After(r.eqs, r.First(), [r.start], n - 1);
      if work != [] {
        var rest, cur := work[..|work| - 1], work[|work| - 1];
        assert rest + [cur] == work;
        OneMore(r.eqs, r.First(), [r.start], n - 1, soln, rest, cur);
        TurnHolds(r, soln, rest, cur, seen);
        forall e | Clash(r, e) ensures Stuck(Sweep(r.eqs, soln, rest, cur, |r.eqs|).1, seen + Elements(Sweep(r.eqs, soln, rest, cur, |r.eqs|).1), e.var1, e.var2) {
          TurnStaysStuck(r, soln, rest, cur, seen, e);
        }
        seen := seen + Elements(Sweep(r.eqs, soln, rest, cur, |r.eqs|).1);
      }
    }
  }

  /**
   The worklist ends if and only if no equation joins two touched variables at the mark;
   it then leaves every touched variable at its offset, and so those at the mark, and no
   others of them, looking unsolved.
   */
  lemma WorklistExactly(r: Run)
    requires r.Valid()
    ensures Ended(r.eqs, r.First(), [r.start]).Some? <==> forall e :: !Clash(r, e)
    ensures Ended(r.eqs, r.First(), [r.start]).Some? ==> Outcome(r, Ended(r.eqs, r.First(), [r.start]).value)
  {
    if forall e :: !Clash(r, e) {
      FirstHolds(r);
      ApartEnds(r, 0, r.First(), [r.start], {r.start});
    }
    var ended := Ended(r.eqs, r.First(), [r.start]);
    if ended.Some? {
      assert Ends(r.eqs, r.First(), [r.start], ended.value);
      var n :| EndsAfter(r.eqs, r.First(), [r.start], n, ended.value);
      var seen := RunHolds(r, n);
      EndIsOutcome(r, ended.value, seen);
      forall e ensures !Clash(r, e) {
        if Clash(r, e) {
          var p :| IsTrail(r, p, e.var1);
          TouchedIsSeen(r, ended.value, seen, p, e.var1);
          assert false;
        }
      }
    }
  }

  // ----- the whole solver -----

  /** A guess is used from an end that looks known, an equation from either. */
  ghost predicate Leads(sys: System, pot: seq<int>, e: Eqn) {
    e in Mirrored(sys.eqs) || (e in Mirrored(sys.guess) && !Marked(pot, e.var1))
  }

  ghost predicate IsRoute(sys: System, pot: seq<int>, p: seq<Eqn>, v: nat) {
    if p == [] then v == 0
    else
      var e := p[|p| - 1];
      Leads(sys, pot, e) && e.var2 == v && IsRoute(sys, pot, p[..|p| - 1], e.var1)
  }

  /** The solver gets to the variable. */
  ghost predicate InReach(sys: System, pot: seq<int>, v: nat) { exists p :: IsRoute(sys, pot, p, v) }

  lemma ReachNext(sys: System, pot: seq<int>, e: Eqn)
    requires Leads(sys, pot, e) && InReach(sys, pot, e.var1)
    ensures InReach(sys, pot, e.var2)
  {
    var p :| IsRoute(sys, pot, p, e.var1);
    var q := p + [e];
    assert q[..|p|] == p;
    assert IsRoute(sys, pot, q, e.var2);
  }

  /** `pot` gives the offsets of the variables reached, by every equation and guess that leads there. */
  ghost predicate Offsets(sys: System, pot: seq<int>) {
    |pot| == sys.vars && |pot| > 0 && pot[0] == 0 && forall e :: OffsetAt(sys, pot, e)
  }

  ghost predicate OffsetAt(sys: System, pot: seq<int>, e: Eqn) {
    Leads(sys, pot, e) && InReach(sys, pot, e.var1) ==> Carries(pot, e)
  }

  /** The equation joins two variables reached that are both at the mark. */
  ghost predicate MarkedPair(sys: System, pot: seq<int>, e: Eqn) {
    e in sys.eqs && InReach(sys, pot, e.var1) && Marked(pot, e.var1) && Marked(pot, e.var2)
  }

  ghost predicate NoPairs(sys: System, pot: seq<int>) { forall e :: !MarkedPair(sys, pot, e) }

  /** What the worklists have got to so far, and what they have left there. */
  ghost predicate Placed(sys: System, eqs: seq<Eqn>, pot: seq<int>, soln: seq<int>, got: set<nat>) {
    && |soln| == |pot| == sys.vars
    && (forall v: nat :: v < |soln| ==> GotAt(pot, soln, got, v))
    && (forall v :: GotInReach(sys, pot, got, v))
    && (forall e :: ClosedUnder(eqs, got, e))
    && (forall e :: !PairIn(eqs, pot, got, e))
  }

  ghost predicate GotAt(pot: seq<int>, soln: seq<int>, got: set<nat>, v: nat) {
    v < |soln| && v < |pot| && soln[v] == if v in got then pot[v] else UNKNOWN
  }

  ghost predicate GotInReach(sys: System, pot: seq<int>, got: set<nat>, v: nat) { v in got ==> InReach(sys, pot, v) && v < |pot| }

  ghost predicate ClosedUnder(eqs: seq<Eqn>, got: set<nat>, e: Eqn) { e in eqs && e.var1 in got ==> e.var2 in got }

  ghost predicate PairIn(eqs: seq<Eqn>, pot: seq<int>, got: set<nat>, e: Eqn) {
    e in eqs && e.var1 in got && e.var2 in got && Marked(pot, e.var1) && Marked(pot, e.var2)
  }

  /** The equations as the solver works on them. */
  ghost predicate Working(sys: System, eqs: seq<Eqn>, pot: seq<int>) {
    sys.Valid() && Offsets(sys, pot) && Doubled(sys, eqs) && InBounds(eqs, sys.vars)
  }

  lemma BackOf(sys: System, eqs: seq<Eqn>, e: Eqn)
    requires Doubled(sys, eqs)
    ensures HasBack(eqs, e)
  {
    assert DoubledAt(sys, eqs, e);
    if e in sys.eqs {
      assert DoubledAt(sys, eqs, Mirror(e));
      assert Mirror(e) in eqs;
    } else if e in eqs {
      var f :| f in sys.eqs && e == Mirror(f);
      assert DoubledAt(sys, eqs, f);
      assert f in eqs;
    }
  }

  lemma {:induction false} TouchedInReach(sys: System, r: Run, p: seq<Eqn>, v: nat)
    requires Doubled(sys, r.eqs) && InReach(sys, r.pot, r.start) && IsTrail(r, p, v)
    ensures InReach(sys, r.pot, v)
  {
    if p != [] {
      var e := p[|p| - 1];
      TouchedInReach(sys, r, p[..|p| - 1], e.var1);
      assert DoubledAt(sys, r.eqs, e);
      ReachNext(sys, r.pot, e);
    }
  }

  lemma RunIsValid(sys: System, eqs: seq<Eqn>, pot: seq<int>, soln: seq<int>, v: nat)
    requires Working(sys, eqs, pot) && |soln| == sys.vars && v < |soln| && soln[v] == UNKNOWN && InReach(sys, pot, v)
    ensures Run(eqs, soln, v, pot).Valid()
  {
    var r := Run(eqs, soln, v, pot);
    forall e ensures HasBack(eqs, e) { BackOf(sys, eqs, e); }
    forall e ensures CarriesTouched(r, e) {
      if e in eqs && Touches(r, e.var1) {
        var p :| IsTrail(r, p, e.var1);
        TouchedInReach(sys, r, p, e.var1);
        assert DoubledAt(sys, eqs, e) && OffsetAt(sys, pot, e);
      }
    }
  }

  ghost function Touched(r: Run): set<nat> { set v: nat | v < |r.before| && Touches(r, v) }

  /** One worklist: it ends if no pair at the mark is met, and then what it touched has been got to as well. */
  lemma PropagatePlaces(sys: System, eqs: seq<Eqn>, pot: seq<int>, soln: seq<int>, got: set<nat>, v: nat)
    requires Working(sys, eqs, pot) && Placed(sys, eqs, pot, soln, got) && v < |soln| && soln[v] == UNKNOWN && InReach(sys, pot, v)
    ensures var out := Propagated(eqs, soln, v, pot[v]);
      && (NoPairs(sys, pot) ==> out.Some?)
      && (out.Some? ==> Placed(sys, eqs, pot, out.value, got + Touched(Run(eqs, soln, v, pot))))
    ensures v in Touched(Run(eqs, soln, v, pot))
  {
    var r := Run(eqs, soln, v, pot);
    RunIsValid(sys, eqs, pot, soln, v);
    WorklistExactly(r);
    assert IsTrail(r, [], v);
    forall u | u in Touched(r) ensures InReach(sys, pot, u) {
      var p :| IsTrail(r, p, u);
      TouchedInReach(sys, r, p, u);
    }
    if NoPairs(sys, pot) {
      forall e ensures !Clash(r, e) { if Clash(r, e) { ClashIsPair(sys, r, e); } }
    }
    var out := Propagated(eqs, soln, v, pot[v]);
    if out.Some? {
      TouchedIsPlaced(sys, r, got, out.value);
    }
  }

  lemma ClashIsPair(sys: System, r: Run, e: Eqn)
    requires Working(sys, r.eqs, r.pot) && Clash(r, e) && forall u :: u in Touched(r) ==> InReach(sys, r.pot, u)
    requires r.Valid()
    ensures exists f :: MarkedPair(sys, r.pot, f)
  {
    assert DoubledAt(sys, r.eqs, e);
    TouchedLooksUnknown(r, e.var1);
    TouchedLooksUnknown(r, e.var2);
    if e in sys.eqs {
      assert MarkedPair(sys, r.pot, e);
    } else {
      var f :| f in sys.eqs && e == Mirror(f);
      assert MarkedPair(sys, r.pot, f);
    }
  }

  lemma TouchedIsPlaced(sys: System, r: Run, got: set<nat>, end: seq<int>)
    requires r.Valid() && |r.pot| == sys.vars && Placed(sys, r.eqs, r.pot, r.before, got) && Outcome(r, end)
    requires (forall e :: !Clash(r, e)) && forall u :: u in Touched(r) ==> InReach(sys, r.pot, u)
    ensures Placed(sys, r.eqs, r.pot, end, got + Touched(r))
  {
    var more := got + Touched(r);
    forall u ensures GotInReach(sys, r.pot, more, u) { assert GotInReach(sys, r.pot, got, u); }
    forall u: nat | u < |end| ensures GotAt(r.pot, end, more, u) {
      assert GotAt(r.pot, r.before, got, u) && OutcomeAt(r, end, u);
    }
    forall e ensures ClosedUnder(r.eqs, more, e) && !PairIn(r.eqs, r.pot, more, e) { TouchedIsClosed(sys, r, got, e); }
  }

  lemma TouchedIsClosed(sys: System, r: Run, got: set<nat>, e: Eqn)
    requires r.Valid() && Placed(sys, r.eqs, r.pot, r.before, got) && !Clash(r, e)
    ensures ClosedUnder(r.eqs, got + Touched(r), e) && !PairIn(r.eqs, r.pot, got + Touched(r), e)
  {
    assert ClosedUnder(r.eqs, got, e) && !PairIn(r.eqs, r.pot, got, e);
    if e in r.eqs {
      assert e.var1 < |r.before| && e.var2 < |r.before| by { var k :| 0 <= k < |r.eqs| && r.eqs[k] == e; }
      assert GotAt(r.pot, r.before, got, e.var1) && GotAt(r.pot, r.before, got, e.var2);
      if e.var1 in Touched(r) && LooksUnknown(r.before, e.var2) { TouchesNext(r, e); }
    }
  }

  /** A variable already got to, at the mark, touches nothing new. */
  lemma RepeatIsIdle(sys: System, eqs: seq<Eqn>, pot: seq<int>, soln: seq<int>, got: set<nat>, v: nat)
    requires Working(sys, eqs, pot) && Placed(sys, eqs, pot, soln, got) && v in got && v < |soln| && soln[v] == UNKNOWN
    ensures Propagated(eqs, soln, v, pot[v]) == Some(soln)
  {
    var r := Run(eqs, soln, v, pot);
    assert GotInReach(sys, pot, got, v);
    RunIsValid(sys, eqs, pot, soln, v);
    WorklistExactly(r);
    forall u | Touches(r, u) ensures u == v {
      var p :| IsTrail(r, p, u);
      OnlyItself(sys, r, got, p, u);
    }
    assert GotAt(pot, soln, got, v);
    forall e ensures !Clash(r, e) { assert !PairIn(eqs, pot, got, e); }
    var end := Propagated(eqs, soln, v, pot[v]).value;
    forall u: nat | u < |end| ensures end[u] == soln[u] { assert OutcomeAt(r, end, u); }
    assert end == soln;
  }

  lemma {:induction false} OnlyItself(sys: System, r: Run, got: set<nat>, p: seq<Eqn>, u: nat)
    requires r.Valid() && Placed(sys, r.eqs, r.pot, r.before, got) && r.start in got && IsTrail(r, p, u)
    ensures u == r.start
  {
    if p != [] {
      var e := p[|p| - 1];
      OnlyItself(sys, r, got, p[..|p| - 1], e.var1);
      FromMarkToKnown(sys, r, got, e);
    }
  }

  /** From a variable at the mark that has been got to, equations lead to known variables only. */
  lemma FromMarkToKnown(sys: System, r: Run, got: set<nat>, e: Eqn)
    requires r.Valid() && Placed(sys, r.eqs, r.pot, r.before, got) && r.start in got && e in r.eqs && e.var1 == r.start
    ensures !LooksUnknown(r.before, e.var2)
  {
    assert ClosedUnder(r.eqs, got, e) && !PairIn(r.eqs, r.pot, got, e);
    assert GotAt(r.pot, r.before, got, e.var1) && GotAt(r.pot, r.before, got, e.var2);
  }

  // ----- rounds of guesses -----

  ghost predicate BothGot(got: set<nat>, g: Eqn) { g.var1 in got && g.var2 in got }

  /** What is not counted has both ends got to, and what looks unknown is counted. */
  ghost predicate Accounted(guess: seq<Eqn>, soln: seq<int>, got: set<nat>, last: set<nat>) {
    && (forall k: nat :: k < |guess| && k !in last ==> BothGot(got, guess[k]))
    && (forall k: nat :: k < |guess| && BothUnknown(soln, guess[k]) ==> k in last)
  }

  /** Half way through a round that began with `soln` and `got`. */
  ghost predicate MidRound(guess: seq<Eqn>, soln: seq<int>, got: set<nat>, x: seq<int>, now: set<nat>, last: set<nat>, left: set<nat>, i: nat) {
    && i <= |guess| && left <= last && got <= now
    && (forall k :: k in left ==> k < i)
    && (forall k: nat :: k < i && k !in left ==> BothGot(now, guess[k]))
    && ((x == soln && now == got) || Moved(last, left, i))
  }

  /** What a guess comes to, and what has been got to with it. */
  ghost predicate GuessGets(sys: System, eqs: seq<Eqn>, pot: seq<int>, soln: seq<int>, got: set<nat>, out: Option<seq<int>>, now: set<nat>) {
    && (NoPairs(sys, pot) ==> out.Some?)
    && (out.Some? ==> Placed(sys, eqs, pot, out.value, now) && got <= now)
  }

  /** One guess, its value being the offset whichever end is known. */
  lemma GuessPlaces(sys: System, eqs: seq<Eqn>, pot: seq<int>, soln: seq<int>, got: set<nat>, g: Eqn) returns (now: set<nat>)
    requires Working(sys, eqs, pot) && Placed(sys, eqs, pot, soln, got) && g in sys.guess && g.var1 < |soln| && g.var2 < |soln|
    ensures GuessGets(sys, eqs, pot, soln, got, Guessed(eqs, soln, g), now)
    ensures !BothUnknown(soln, g) ==> BothGot(now, g)
    ensures BothUnknown(soln, g) || BothGot(got, g) ==> Guessed(eqs, soln, g) == Some(soln) && now == got
  {
    KnownIsGot(sys, eqs, pot, soln, got, g);
    GuessCarries(sys, eqs, pot, soln, got, g);
    if soln[g.var1] != UNKNOWN && soln[g.var2] == UNKNOWN {
      now := EndPlaces(sys, eqs, pot, soln, got, g);
    } else if soln[g.var1] == UNKNOWN && soln[g.var2] != UNKNOWN {
      BackAlong(soln[g.var2], g.rhs);
      now := EndPlaces(sys, eqs, pot, soln, got, Mirror(g));
    } else {
      now := got;
    }
  }

  lemma KnownIsGot(sys: System, eqs: seq<Eqn>, pot: seq<int>, soln: seq<int>, got: set<nat>, g: Eqn)
    requires Placed(sys, eqs, pot, soln, got)
    ensures (Known(soln, g.var1) ==> g.var1 in got) && (Known(soln, g.var2) ==> g.var2 in got)
  {
    if g.var1 < |soln| { assert GotAt(pot, soln, got, g.var1); }
    if g.var2 < |soln| { assert GotAt(pot, soln, got, g.var2); }
  }

  lemma GuessCarries(sys: System, eqs: seq<Eqn>, pot: seq<int>, soln: seq<int>, got: set<nat>, g: Eqn)
    requires Offsets(sys, pot) && Placed(sys, eqs, pot, soln, got) && g in sys.guess
    ensures Known(soln, g.var1) ==> Carries(pot, g) && InReach(sys, pot, g.var2)
    ensures Known(soln, g.var2) ==> Carries(pot, Mirror(g)) && InReach(sys, pot, g.var1)
  {
    assert g in Mirrored(sys.guess) && Mirror(g) in Mirrored(sys.guess);
    if Known(soln, g.var1) { KnownCarries(sys, eqs, pot, soln, got, g); }
    if Known(soln, g.var2) { KnownCarries(sys, eqs, pot, soln, got, Mirror(g)); }
  }

  lemma KnownCarries(sys: System, eqs: seq<Eqn>, pot: seq<int>, soln: seq<int>, got: set<nat>, e: Eqn)
    requires Offsets(sys, pot) && Placed(sys, eqs, pot, soln, got) && e in Mirrored(sys.guess) && Known(soln, e.var1)
    ensures Carries(pot, e) && InReach(sys, pot, e.var2)
  {
    assert GotAt(pot, soln, got, e.var1) && GotInReach(sys, pot, got, e.var1) && Leads(sys, pot, e) && OffsetAt(sys, pot, e);
    ReachNext(sys, pot, e);
  }

  /** From a known end of a guess to the other. */
  lemma EndPlaces(sys: System, eqs: seq<Eqn>, pot: seq<int>, soln: seq<int>, got: set<nat>, e: Eqn) returns (now: set<nat>)
    requires Working(sys, eqs, pot) && Placed(sys, eqs, pot, soln, got) && Carries(pot, e) && InReach(sys, pot, e.var2)
    requires e.var1 < |soln| && e.var2 < |soln| && soln[e.var1] != UNKNOWN && soln[e.var2] == UNKNOWN
    ensures GuessGets(sys, eqs, pot, soln, got, Propagated(eqs, soln, e.var2, Wrap(soln[e.var1] - e.rhs)), now)
    ensures e.var2 in got ==> Propagated(eqs, soln, e.var2, Wrap(soln[e.var1] - e.rhs)) == Some(soln) && now == got
    ensures e.var1 in got && e.var2 in now && got <= now
  {
    assert GotAt(pot, soln, got, e.var1);
    if e.var2 in got {
      RepeatIsIdle(sys, eqs, pot, soln, got, e.var2);
      now := got;
    } else {
      PropagatePlaces(sys, eqs, pot, soln, got, e.var2);
      now := got + Touched(Run(eqs, soln, e.var2, pot));
    }
  }

  lemma {:induction false} RoundPlaces(sys: System, eqs: seq<Eqn>, pot: seq<int>, soln: seq<int>, got: set<nat>, last: set<nat>, i: nat)
    returns (now: set<nat>)
    requires Working(sys, eqs, pot) && Placed(sys, eqs, pot, soln, got) && InBounds(sys.guess, |soln|)
    requires i <= |sys.guess| && Accounted(sys.guess, soln, got, last)
    ensures var out := RoundTo(eqs, sys.guess, soln, i);
      && (NoPairs(sys, pot) ==> out.Some?)
      && (out.Some? ==> Placed(sys, eqs, pot, out.value.0, now) && MidRound(sys.guess, soln, got, out.value.0, now, last, out.value.1, i))
  {
    now := got;
    if i > 0 {
      now := RoundPlaces(sys, eqs, pot, soln, got, last, i - 1);
      if RoundTo(eqs, sys.guess, soln, i - 1).Some? {
        now := NextPlaces(sys, eqs, pot, soln, got, now, last, i - 1);
      }
    }
  }

  lemma NextPlaces(sys: System, eqs: seq<Eqn>, pot: seq<int>, soln: seq<int>, got: set<nat>, was: set<nat>, last: set<nat>, i: nat)
    returns (now: set<nat>)
    requires Working(sys, eqs, pot) && InBounds(sys.guess, |soln|) && i < |sys.guess| && Accounted(sys.guess, soln, got, last)
    requires var out := RoundTo(eqs, sys.guess, soln, i);
      out.Some? && Placed(sys, eqs, pot, out.value.0, was) && MidRound(sys.guess, soln, got, out.value.0, was, last, out.value.1, i)
    ensures var out := RoundTo(eqs, sys.guess, soln, i + 1);
      && (NoPairs(sys, pot) ==> out.Some?)
      && (out.Some? ==> Placed(sys, eqs, pot, out.value.0, now) && MidRound(sys.guess, soln, got, out.value.0, now, last, out.value.1, i + 1))
  {
    var (x, left) := RoundTo(eqs, sys.guess, soln, i).value;
    var g := sys.guess[i];
    now := GuessPlaces(sys, eqs, pot, x, was, g);
    if BothUnknown(x, g) { UnknownBefore(soln, x, g); }
    var y := Guessed(eqs, x, g);
    if y.Some? { MidRoundStep(sys.guess, soln, got, x, was, y.value, now, last, left, i); }
  }

  lemma MidRoundStep(guess: seq<Eqn>, soln: seq<int>, got: set<nat>, x: seq<int>, was: set<nat>, y: seq<int>, now: set<nat>, last: set<nat>, left: set<nat>, i: nat)
    requires MidRound(guess, soln, got, x, was, last, left, i) && i < |guess| && Accounted(guess, soln, got, last) && was <= now
    requires BothUnknown(x, guess[i]) ==> i in last
    requires !BothUnknown(x, guess[i]) ==> BothGot(now, guess[i])
    requires BothUnknown(x, guess[i]) || BothGot(was, guess[i]) ==> y == x && now == was
    ensures MidRound(guess, soln, got, y, now, last, if BothUnknown(x, guess[i]) then left + {i} else left, i + 1)
  {
    var left' := if BothUnknown(x, guess[i]) then left + {i} else left;
    if Moved(last, left, i) {
      var h: nat :| h < i && h in last && h !in left;
      assert h < i + 1 && h in last && h !in left';
    } else if !BothUnknown(x, guess[i]) && !BothGot(was, guess[i]) {
      assert i in last && i !in left';
      assert Moved(last, left', i + 1);
    }
  }

  /** Nothing more is to be got from the guesses. */
  ghost predicate GuessesDone(guess: seq<Eqn>, soln: seq<int>, got: set<nat>) {
    forall g :: g in guess && !BothUnknown(soln, g) ==> BothGot(got, g)
  }

  lemma {:induction false} RoundsPlace(sys: System, eqs: seq<Eqn>, pot: seq<int>, soln: seq<int>, got: set<nat>, last: set<nat>, count: nat)
    returns (now: set<nat>)
    requires Working(sys, eqs, pot) && Placed(sys, eqs, pot, soln, got) && InBounds(sys.guess, |soln|)
    requires Accounted(sys.guess, soln, got, last) && (count == |last| || count > |last| + 1) && 0 in got
    ensures var out := Rounds(eqs, sys.guess, soln, count);
      && (NoPairs(sys, pot) ==> out.Some?)
      && (out.Some? ==> Placed(sys, eqs, pot, out.value, now) && 0 in now && GuessesDone(sys.guess, out.value, now))
    decreases count
  {
    now := RoundPlaces(sys, eqs, pot, soln, got, last, |sys.guess|);
    var out := RoundTo(eqs, sys.guess, soln, |sys.guess|);
    if out.Some? {
      var (x, left) := out.value;
      RoundLeaves(eqs, sys.guess, soln, |sys.guess|);
      CountShrinks(left, last);
      if |left| >= count {
        SubsetOfSameSize(left, last);
        DoneAtEnd(sys.guess, soln, got, x, now, last, left);
      } else if |left| == 0 {
        DoneAtEnd(sys.guess, soln, got, x, now, last, left);
      } else {
        now := RoundsPlace(sys, eqs, pot, x, now, left, |left|);
      }
    }
  }

  lemma DoneAtEnd(guess: seq<Eqn>, soln: seq<int>, got: set<nat>, x: seq<int>, now: set<nat>, last: set<nat>, left: set<nat>)
    requires MidRound(guess, soln, got, x, now, last, left, |guess|) && (left == last || left == {})
    requires forall k :: k in left ==> BothUnknown(soln, guess[k])
    ensures GuessesDone(guess, x, now)
  {
    if left == last { assert !Moved(last, left, |guess|); }
    forall g | g in guess && !BothUnknown(x, g) ensures BothGot(now, g) {
      var k: nat :| k < |guess| && guess[k] == g;
    }
  }

  lemma {:induction false} ReachedIsGot(sys: System, eqs: seq<Eqn>, pot: seq<int>, soln: seq<int>, got: set<nat>, p: seq<Eqn>, v: nat)
    requires Working(sys, eqs, pot) && Placed(sys, eqs, pot, soln, got) && 0 in got && GuessesDone(sys.guess, soln, got) && IsRoute(sys, pot, p, v)
    ensures v in got
  {
    if p != [] {
      var e := p[|p| - 1];
      ReachedIsGot(sys, eqs, pot, soln, got, p[..|p| - 1], e.var1);
      assert DoubledAt(sys, eqs, e) && ClosedUnder(eqs, got, e) && GotAt(pot, soln, got, e.var1);
      if e !in Mirrored(sys.eqs) {
        if e !in sys.guess {
          var f :| f in sys.guess && e == Mirror(f);
          assert Known(soln, f.var2);
        } else {
          assert Known(soln, e.var1);
        }
      }
    }
  }

  /** What the solver leaves: the offset of every variable reached, and nothing of the others. */
  ghost predicate LeavesAt(sys: System, pot: seq<int>, soln: seq<int>, v: nat) {
    v < |soln| && v < |pot| && soln[v] == if InReach(sys, pot, v) then pot[v] else UNKNOWN
  }

  /**
   For equations and guesses that agree, the solver ends if and only if no equation joins
   two variables reached that are both at 65535, and then every variable reached has its
   offset: of those, exactly the ones at 65535 look unsolved.
   */
  lemma SolvesExactly(sys: System, pot: seq<int>)
    requires sys.Valid() && Offsets(sys, pot)
    ensures Solution(sys).Some? <==> NoPairs(sys, pot)
    ensures Solution(sys).Some? ==> |Solution(sys).value| == sys.vars && forall v: nat :: v < sys.vars ==> LeavesAt(sys, pot, Solution(sys).value, v)
  {
    var now := SolvePlaces(sys, pot);
    var out := Solution(sys);
    if out.Some? {
      var eqs := SortStable(Mirrored(sys.eqs));
      SortedIsDoubled(sys);
      DoubledInBounds(sys, eqs);
      forall v: nat | InReach(sys, pot, v) ensures v in now {
        var p :| IsRoute(sys, pot, p, v);
        ReachedIsGot(sys, eqs, pot, out.value, now, p, v);
      }
      forall v: nat | v < sys.vars ensures LeavesAt(sys, pot, out.value, v) { assert GotAt(pot, out.value, now, v) && GotInReach(sys, pot, now, v); }
      forall e ensures !MarkedPair(sys, pot, e) { NoPairGot(sys, eqs, pot, out.value, now, e); }
    }
  }

  lemma NoPairGot(sys: System, eqs: seq<Eqn>, pot: seq<int>, soln: seq<int>, now: set<nat>, e: Eqn)
    requires Doubled(sys, eqs) && Placed(sys, eqs, pot, soln, now) && forall v: nat :: InReach(sys, pot, v) ==> v in now
    ensures !MarkedPair(sys, pot, e)
  {
    assert DoubledAt(sys, eqs, e) && ClosedUnder(eqs, now, e) && !PairIn(eqs, pot, now, e);
  }

  lemma SolvePlaces(sys: System, pot: seq<int>) returns (now: set<nat>)
    requires sys.Valid() && Offsets(sys, pot)
    ensures var out, eqs := Solution(sys), SortStable(Mirrored(sys.eqs));
      && (NoPairs(sys, pot) ==> out.Some?)
      && (out.Some? ==> Placed(sys, eqs, pot, out.value, now) && 0 in now && GuessesDone(sys.guess, out.value, now))
  {
    var eqs := SortStable(Mirrored(sys.eqs));
    now := FirstPlaces(sys, pot, eqs);
    var first := Propagated(eqs, Nothing(sys.vars), 0, 0);
    if first.Some? {
      assert InBounds(sys.guess, |first.value|);
      now := RoundsPlace(sys, eqs, pot, first.value, now, AllGuesses(|sys.guess|), |sys.guess| + 2);
    }
  }

  lemma FirstPlaces(sys: System, pot: seq<int>, eqs: seq<Eqn>) returns (now: set<nat>)
    requires sys.Valid() && Offsets(sys, pot) && eqs == SortStable(Mirrored(sys.eqs))
    ensures Working(sys, eqs, pot) && 0 in now
    ensures var out := Propagated(eqs, Nothing(sys.vars), 0, 0);
      && (NoPairs(sys, pot) ==> out.Some?)
      && (out.Some? ==> Placed(sys, eqs, pot, out.value, now))
  {
    var none := Nothing(sys.vars);
    SortedIsDoubled(sys);
    DoubledInBounds(sys, eqs);
    assert IsRoute(sys, pot, [], 0);
    PropagatePlaces(sys, eqs, pot, none, {}, 0);
    now := {} + Touched(Run(eqs, none, 0, pot));
  }

  // ----- offsets from a solution -----

  /** `x` satisfies the equations and guesses of the part connected to variable 0. */
  ghost predicate Agreeing(sys: System, x: seq<int>) {
    |x| == sys.vars && forall e :: AgreeingAt(sys, x, e)
  }

  ghost predicate AgreeingAt(sys: System, x: seq<int>, e: Eqn) {
    (e in sys.eqs || e in sys.guess) && Connected(sys, e.var1) ==> FitsAt(e, x)
  }

  function OffsetsOf(x: seq<int>): (pot: seq<int>)
    requires |x| > 0
    ensures |pot| == |x| && forall v :: 0 <= v < |x| ==> pot[v] == Wrap(x[v] - x[0])
  {
    seq(|x|, v requires 0 <= v < |x| => Wrap(x[v] - x[0]))
  }

  lemma {:induction false} RouteIsWalk(sys: System, pot: seq<int>, p: seq<Eqn>, v: nat)
    requires IsRoute(sys, pot, p, v)
    ensures IsWalk(sys, p, v)
  {
    if p != [] { RouteIsWalk(sys, pot, p[..|p| - 1], p[|p| - 1].var1); }
  }

  /** A link is an equation or a guess, or the mirror of one. */
  lemma LinkOrigin(sys: System, e: Eqn) returns (f: Eqn)
    requires sys.Link(e)
    ensures (f in sys.eqs || f in sys.guess) && (e == f || e == Mirror(f))
  {
    if e in sys.eqs || e in sys.guess {
      f := e;
    } else if e in Mirrored(sys.eqs) {
      f :| f in sys.eqs && e == Mirror(f);
    } else {
      f :| f in sys.guess && e == Mirror(f);
    }
  }

  lemma OriginFits(sys: System, x: seq<int>, e: Eqn, f: Eqn)
    requires Agreeing(sys, x) && (f in sys.eqs || f in sys.guess) && (e == f || e == Mirror(f)) && Connected(sys, f.var1)
    ensures FitsAt(e, x)
  {
    assert AgreeingAt(sys, x, f);
    if e != f { MirrorOfHolds(f, x); }
  }

  lemma FittingCarries(x: seq<int>, e: Eqn)
    requires |x| > 0 && FitsAt(e, x)
    ensures Carries(OffsetsOf(x), e)
  {
    var i :| Turns(x[e.var1] - x[e.var2], e.rhs, i);
    WrapIsSame(x[e.var1] - x[0]);
    var j :| Turns(Wrap(x[e.var1] - x[0]), x[e.var1] - x[0], j);
    WrapShift(x[e.var2] - x[0], i + j);
    assert Wrap(x[e.var1] - x[0]) - e.rhs == x[e.var2] - x[0] + (i + j) * RING;
  }

  /** A solution gives the offsets. */
  lemma AgreeingHasOffsets(sys: System, x: seq<int>)
    requires sys.Valid() && Agreeing(sys, x)
    ensures Offsets(sys, OffsetsOf(x))
  {
    var pot := OffsetsOf(x);
    forall e ensures OffsetAt(sys, pot, e) {
      if Leads(sys, pot, e) && InReach(sys, pot, e.var1) {
        var p :| IsRoute(sys, pot, p, e.var1);
        RouteIsWalk(sys, pot, p, e.var1);
        LinkConnects(sys, e);
        var f := LinkOrigin(sys, e);
        OriginFits(sys, x, e, f);
        FittingCarries(x, e);
      }
    }
  }

  /** Without guesses it is enough that the equations have a solution. */
  lemma SatisfiedIsAgreeing(sys: System, x: seq<int>)
    requires sys.Valid() && sys.guess == [] && Satisfies(sys, x)
    ensures Agreeing(sys, x)
  {
    forall e ensures AgreeingAt(sys, x, e) {
    }
  }

  // ----- two systems with a variable at the mark -----

  /** The equations and their mirrors, sorted, of `x0 - x1 = -65535` and `x1 - x2 = 0`. */
  function MarkedEqs(): seq<Eqn> { [Eqn(0, 1, -65535), Eqn(1, 2, 0), Eqn(1, 0, 65535), Eqn(2, 1, 0)] }

  lemma MarkedIsDoubled()
    ensures SortStable(Mirrored([Eqn(0, 1, -65535), Eqn(1, 2, 0)])) == MarkedEqs()
  {
    var given := [Eqn(0, 1, -65535), Eqn(1, 2, 0)];
    assert Mirror(given[0]) == Eqn(1, 0, 65535) && Mirror(given[1]) == Eqn(2, 1, 0);
    assert Mirrored(given) == MarkedEqs();
    SortedStays(MarkedEqs(), ByFirst);
  }

  /** The one variable pending after `n` turns. */
  function MarkedWork(n: nat): nat { if n == 0 then 0 else if n % 2 == 1 then 1 else 2 }

  /** A variable at the mark looks unsolved for ever: after any number of turns one is pending. */
  lemma {:induction false} MarkNeverEnds(n: nat)
    ensures After(MarkedEqs(), [0, UNKNOWN, UNKNOWN], [0], n) == ([0, UNKNOWN, UNKNOWN], [MarkedWork(n)])
  {
    if n > 0 {
      MarkNeverEnds(n - 1);
      var cur := MarkedWork(n - 1);
      assert [] + [cur] == [cur];
      OneMore(MarkedEqs(), [0, UNKNOWN, UNKNOWN], [0], n - 1, [0, UNKNOWN, UNKNOWN], [], cur);
      MarkedTurn(cur);
    }
  }

  lemma MarkedTurn(cur: nat)
    requires cur < 3
    ensures Sweep(MarkedEqs(), [0, UNKNOWN, UNKNOWN], [], cur, 4) == ([0, UNKNOWN, UNKNOWN], [if cur == 1 then 2 else 1])
  {
    var eqs, soln := MarkedEqs(), [0, UNKNOWN, UNKNOWN];
    assert soln[1 := Wrap(65535)] == soln && soln[2 := Wrap(65535)] == soln && [] + [1] == [1] && [] + [2] == [2];
    if cur == 0 {
      assert Sweep(eqs, soln, [], 0, 1) == Use(eqs[0], soln, [], 0) == (soln, [1]);
      SweepSkips(eqs, soln, [], 0, 1, 4);
    } else if cur == 1 {
      SweepSkips(eqs, soln, [], 1, 0, 1);
      assert Sweep(eqs, soln, [], 1, 2) == Use(eqs[1], soln, [], 1) == (soln, [2]);
      assert Sweep(eqs, soln, [], 1, 3) == Use(eqs[2], soln, [2], 1) == (soln, [2]);
      SweepSkips(eqs, soln, [], 1, 3, 4);
    } else {
      SweepSkips(eqs, soln, [], 2, 0, 3);
      assert Sweep(eqs, soln, [], 2, 4) == Use(eqs[3], soln, [], 2) == (soln, [1]);
    }
  }

  lemma MarkedNeverEnds()
    ensures Ended(MarkedEqs(), [0, UNKNOWN, UNKNOWN], [0]).None?
  {
    var r := Ended(MarkedEqs(), [0, UNKNOWN, UNKNOWN], [0]);
    if r.Some? {
      assert Ends(MarkedEqs(), [0, UNKNOWN, UNKNOWN], [0], r.value);
      var n :| EndsAfter(MarkedEqs(), [0, UNKNOWN, UNKNOWN], [0], n, r.value);
      MarkNeverEnds(n);
    }
  }

  /** So the solver does not end on them. */
  lemma MarkedHasNoSolution()
    ensures Solution(System(3, [Eqn(0, 1, -65535), Eqn(1, 2, 0)], [])).None?
  {
    MarkedIsDoubled();
    MarkedNeverEnds();
    assert Nothing(3)[0 := 0] == [0, UNKNOWN, UNKNOWN];
    assert Propagated(MarkedEqs(), Nothing(3), 0, 0) == Ended(MarkedEqs(), [0, UNKNOWN, UNKNOWN], [0]);
  }

  /** `x0 - x1 = -65535` alone. */
  function Lone(): System { System(2, [Eqn(0, 1, -65535)], []) }

  lemma LoneOffsets()
    ensures Offsets(Lone(), OffsetsOf([0, 65535]))
  {
    assert Turns(0 - 65535, -65535, 0);
    assert Satisfies(Lone(), [0, 65535]);
    SatisfiedIsAgreeing(Lone(), [0, 65535]);
    AgreeingHasOffsets(Lone(), [0, 65535]);
  }

  lemma LoneReach(pot: seq<int>)
    ensures InReach(Lone(), pot, 0) && InReach(Lone(), pot, 1) && Connected(Lone(), 1)
  {
    assert IsRoute(Lone(), pot, [], 0);
    assert Lone().eqs[0] in Mirrored(Lone().eqs);
    ReachNext(Lone(), pot, Lone().eqs[0]);
    var p :| IsRoute(Lone(), pot, p, 1);
    RouteIsWalk(Lone(), pot, p, 1);
  }

  /** The solver ends, and variable 1 looks unsolved. */
  lemma LoneMarkEnds()
    ensures Solution(Lone()) == Some([0, UNKNOWN]) && Connected(Lone(), 1)
  {
    var pot := OffsetsOf([0, 65535]);
    assert pot == [0, UNKNOWN];
    LoneOffsets();
    LoneReach(pot);
    SolvesExactly(Lone(), pot);
    LoneHasNoPair(pot);
    var soln := Solution(Lone()).value;
    assert LeavesAt(Lone(), pot, soln, 0) && LeavesAt(Lone(), pot, soln, 1);
    assert soln == [0, UNKNOWN];
  }

  lemma LoneHasNoPair(pot: seq<int>)
    requires pot == [0, UNKNOWN]
    ensures NoPairs(Lone(), pot)
  {
    forall e ensures !MarkedPair(Lone(), pot, e) {
    }
  }
}

/**
 Immediate dominators of a control-flow graph whose blocks are in reverse
 post-order (pkg/pcode/block_graph.go:423-521).

 A block is its index.  Nil is -1 and the virtual root is `n`; the virtual root keeps
 index 0, so a finger that reaches it stands on block 0.  What the iteration computes
 is therefore the dominator tree of the graph with an extra edge from block 0 to
 every listed root (`Edge`), which for a single root is the graph itself.
 */
module Dominators {

  datatype Flow = Flow(n: nat, outs: seq<seq<nat>>, ins: seq<seq<nat>>) {
    ghost predicate Valid() {
      && |outs| == n && |ins| == n
      && (forall u, i :: 0 <= u < n && 0 <= i < |outs[u]| ==> outs[u][i] < n)
      && (forall u, i :: 0 <= u < n && 0 <= i < |ins[u]| ==> ins[u][i] < n)
      && (forall u, v :: 0 <= u < n && 0 <= v < n ==> (v in outs[u] <==> u in ins[v]))
    }
  }

  /** The program adds a virtual root for several roots, or for an entry with in-edges. */
  predicate NeedsVirtual(g: Flow, roots: seq<nat>)
    requires g.n > 0 && |g.ins| == g.n
  {
    |roots| > 1 || |g.ins[0]| != 0
  }

  /** Blocks whose dominator is settled before the iteration. */
  predicate Anchor(g: Flow, roots: seq<nat>, x: nat)
    requires g.n > 0 && |g.ins| == |g.outs| == g.n
  {
    if NeedsVirtual(g, roots) then x in roots else x == 0 || x in g.outs[0]
  }

  /** What the analysis needs of its caller: block 0 is a root and every other block has an earlier predecessor or is a root. */
  ghost predicate Ordered(g: Flow, roots: seq<nat>) {
    && g.Valid() && g.n > 0
    && (forall r :: r in roots ==> r < g.n)
    && 0 in roots
    && (forall x :: 0 < x < g.n ==> x in roots || exists p :: p in g.ins[x] && p < x)
  }

  /** An edge of the graph in which block 0 leads to every root. */
  predicate Edge(g: Flow, roots: seq<nat>, u: nat, v: nat)
    requires |g.ins| == g.n
  {
    u < g.n && v < g.n && (u in g.ins[v] || (u == 0 && v in roots))
  }

  ghost predicate Path(g: Flow, roots: seq<nat>, p: seq<nat>)
    requires |g.ins| == g.n
  {
    && |p| > 0 && (forall i :: 0 <= i < |p| ==> p[i] < g.n)
    && (forall i :: 0 <= i < |p| - 1 ==> Edge(g, roots, p[i], p[i + 1]))
  }

  ghost predicate PathFromTo(g: Flow, roots: seq<nat>, p: seq<nat>, u: nat, v: nat)
    requires |g.ins| == g.n
  {
    Path(g, roots, p) && p[0] == u && p[|p| - 1] == v
  }

  /** Every way from block 0 to `b` passes `d`. */
  ghost predicate Dominates(g: Flow, roots: seq<nat>, d: nat, b: nat)
    requires |g.ins| == g.n
  {
    forall p :: PathFromTo(g, roots, p, 0, b) ==> d in p
  }

  lemma PathThenEdge(g: Flow, roots: seq<nat>, p: seq<nat>, u: nat, v: nat, w: nat)
    requires |g.ins| == g.n && PathFromTo(g, roots, p, u, v) && Edge(g, roots, v, w)
    ensures PathFromTo(g, roots, p + [w], u, w)
  {
  }

  lemma PathThenPath(g: Flow, roots: seq<nat>, p: seq<nat>, q: seq<nat>, u: nat, v: nat, w: nat)
    requires |g.ins| == g.n && PathFromTo(g, roots, p, u, v) && PathFromTo(g, roots, q, v, w)
    ensures PathFromTo(g, roots, p + q[1..], u, w)
  {
    var r := p + q[1..];
    forall i | 0 <= i < |r| - 1 ensures Edge(g, roots, r[i], r[i + 1]) {
      if i >= |p| - 1 {
        assert r[i] == q[i - (|p| - 1)] && r[i + 1] == q[i + 1 - (|p| - 1)];
      }
    }
  }

  /** A strict dominator of a block dominates each predecessor. */
  lemma DominatesPredecessor(g: Flow, roots: seq<nat>, d: nat, b: nat, p: nat)
    requires |g.ins| == g.n && Dominates(g, roots, d, b) && d != b && Edge(g, roots, p, b)
    ensures Dominates(g, roots, d, p)
  {
    forall w | PathFromTo(g, roots, w, 0, p) ensures d in w {
      PathThenEdge(g, roots, w, 0, p, b);
      assert d in w + [b];
    }
  }

  // ----- the tree held in the parent pointers -----

  /** `a` is `x` or above it in the tree of parents; -1 has no parent. */
  predicate Anc(par: seq<int>, a: int, x: int)
    decreases x
  {
    a == x || (0 < x < |par| && 0 <= par[x] < x && Anc(par, a, par[x]))
  }

  lemma {:induction false} AncLe(par: seq<int>, a: int, x: int)
    requires Anc(par, a, x)
    ensures a <= x
    decreases x
  {
    if a != x {
      AncLe(par, a, par[x]);
    }
  }

  lemma {:induction false} AncTrans(par: seq<int>, a: int, b: int, x: int)
    requires Anc(par, a, b) && Anc(par, b, x)
    ensures Anc(par, a, x)
    decreases x
  {
    if b != x {
      AncTrans(par, a, b, par[x]);
    }
  }

  /** Two ancestors of one node are ordered. */
  lemma {:induction false} AncLinear(par: seq<int>, a: int, b: int, x: int)
    requires Anc(par, a, x) && Anc(par, b, x) && a <= b
    ensures Anc(par, a, b)
    decreases x
  {
    if b == x {
    } else {
      AncLe(par, b, par[x]);
      AncLinear(par, a, b, par[x]);
    }
  }

  /** `x` is unprocessed, or hangs below a processed node of smaller index. */
  ghost predicate Hung(par: seq<int>, x: nat)
    requires x < |par|
  {
    par[x] == -1 || (0 <= par[x] < x && par[par[x]] != -1)
  }

  ghost predicate Shape(par: seq<int>, n: nat) {
    |par| == n > 0 && par[0] == 0 && forall x: nat :: 0 < x < n ==> Hung(par, x)
  }

  lemma {:induction false} AncZero(par: seq<int>, n: nat, x: int)
    requires Shape(par, n) && 0 <= x < n && par[x] != -1
    ensures Anc(par, 0, x)
    decreases x
  {
    if x > 0 {
      assert Hung(par, x);
      AncZero(par, n, par[x]);
    }
  }

  lemma {:induction false} AncProcessed(par: seq<int>, n: nat, a: int, x: int)
    requires Shape(par, n) && 0 <= x < n && par[x] != -1 && Anc(par, a, x)
    ensures 0 <= a < n && par[a] != -1
    decreases x
  {
    if a != x {
      assert Hung(par, x);
      AncProcessed(par, n, a, par[x]);
    }
  }

  /** Re-hanging `b` changes the ancestors below `b` of the nodes under `b`, and nothing else. */
  lemma {:induction false} AncUpdate(par: seq<int>, n: nat, b: nat, z: nat, a: int, x: int)
    requires |par| == n && z < b < n && 0 <= x < n
    ensures Anc(par[b := z], a, x) <==>
            if Anc(par, b, x) then (Anc(par, a, x) && a >= b) || Anc(par, a, z) else Anc(par, a, x)
    decreases x
  {
    var par' := par[b := z];
    if x < b {
      AncBelow(par, n, b, z, a, x);
      if Anc(par, b, x) { AncLe(par, b, x); }
    } else if x == b {
      AncBelow(par, n, b, z, a, z);
      if Anc(par, a, b) { AncLe(par, a, b); }
    } else if 0 <= par[x] < x {
      AncUpdate(par, n, b, z, a, par[x]);
      if a == x && Anc(par, b, x) { AncLe(par, b, x); }
    }
  }

  lemma {:induction false} AncBelow(par: seq<int>, n: nat, b: nat, z: nat, a: int, x: int)
    requires |par| == n && b < n && 0 <= x < b
    ensures Anc(par[b := z], a, x) <==> Anc(par, a, x)
    decreases x
  {
    if 0 < x && 0 <= par[x] < x {
      AncBelow(par, n, b, z, a, par[x]);
    }
  }

  // ----- what the iteration keeps -----

  /** A way from `u` up to `x` that only meets larger indices after `u`. */
  ghost predicate Rises(g: Flow, roots: seq<nat>, p: seq<nat>, u: nat, x: nat)
    requires |g.ins| == g.n
  {
    PathFromTo(g, roots, p, u, x) && forall i :: 1 <= i < |p| ==> p[i] > u
  }

  ghost predicate Rise(g: Flow, roots: seq<nat>, u: nat, x: nat)
    requires |g.ins| == g.n
  {
    exists p :: Rises(g, roots, p, u, x)
  }

  /** Each parent reaches its child without meeting anything above the parent. */
  ghost predicate Rooted(g: Flow, roots: seq<nat>, par: seq<int>)
    requires |g.ins| == g.n == |par|
  {
    forall x :: 0 < x < g.n && par[x] >= 0 ==> Rise(g, roots, par[x], x)
  }

  /** No dominator has been missed. */
  ghost predicate Complete(g: Flow, roots: seq<nat>, par: seq<int>)
    requires |g.ins| == g.n == |par|
  {
    forall d: nat, x :: 0 <= x < g.n && par[x] != -1 && Dominates(g, roots, d, x) ==> Anc(par, d, x)
  }

  /** `c` is above every processed predecessor of `y`. */
  ghost predicate Common(g: Flow, par: seq<int>, c: int, y: int)
    requires |g.ins| == g.n == |par| && 0 <= y < g.n
    requires forall i :: 0 <= i < |g.ins[y]| ==> g.ins[y][i] < g.n
  {
    forall p :: p in g.ins[y] && par[p] != -1 ==> Anc(par, c, p)
  }

  /** The parent of a block never lies above the meeting point of its predecessors. */
  ghost predicate Settling(g: Flow, roots: seq<nat>, par: seq<int>)
    requires g.Valid() && g.n == |par| > 0
  {
    forall y, c: nat {:trigger Common(g, par, c, y)} :: 0 < y < g.n && !Anchor(g, roots, y) && par[y] != -1 && Common(g, par, c, y) ==> Anc(par, c, par[y])
  }

  /**
   At position `i` of a pass: the parents of blocks already visited in this pass
   are above their earlier predecessors; for the others this still holds of the part
   of the tree from index `i` on.
   */
  ghost predicate Forward(g: Flow, par: seq<int>, i: nat)
    requires g.Valid() && g.n == |par|
  {
    forall y, p, a: nat {:trigger Anc(par, a, par[y]), p in g.ins[y]} ::
      (0 < y < g.n && par[y] != -1 && p in g.ins[y] && p < y && par[p] != -1 && (y < i || a >= i) && Anc(par, a, par[y]))
      ==> Anc(par, a, p)
  }

  ghost predicate Inv(g: Flow, roots: seq<nat>, par: seq<int>, i: nat) {
    && Ordered(g, roots) && Shape(par, g.n) && 1 <= i <= g.n
    && (forall x :: 0 <= x < i ==> par[x] != -1)
    && (forall x :: 0 <= x < g.n && Anchor(g, roots, x) ==> par[x] == 0)
    && (forall x, y :: 0 <= x < y < g.n && par[y] != -1 && !Anchor(g, roots, y) ==> par[x] != -1)
    && Rooted(g, roots, par) && Complete(g, roots, par) && Settling(g, roots, par) && Forward(g, par, i)
  }

  lemma {:induction false} AncRise(g: Flow, roots: seq<nat>, par: seq<int>, a: nat, x: nat) returns (p: seq<nat>)
    requires |g.ins| == g.n && Shape(par, g.n) && Rooted(g, roots, par) && x < g.n && par[x] != -1 && Anc(par, a, x)
    ensures Rises(g, roots, p, a, x)
    decreases x
  {
    if a == x {
      p := [x];
    } else {
      assert Hung(par, x);
      var y: nat := par[x];
      AncLe(par, a, y);
      var q := AncRise(g, roots, par, a, y);
      assert Rise(g, roots, y, x);
      var r :| Rises(g, roots, r, y, x);
      PathThenPath(g, roots, q, r, a, y, x);
      p := q + r[1..];
    }
  }

  /** The first visit of a block with an earlier predecessor finds one processed. */
  lemma EarlierPredecessor(g: Flow, roots: seq<nat>, par: seq<int>, b: nat) returns (p: nat)
    requires Inv(g, roots, par, b) && 0 < b < g.n && !Anchor(g, roots, b)
    ensures p in g.ins[b] && p < b && par[p] != -1
  {
    assert NeedsVirtual(g, roots) || roots == [0];
    p :| p in g.ins[b] && p < b;
  }

  /** A processed block stays within its own subtree when `b` is re-hung higher. */
  lemma CompleteAfter(g: Flow, roots: seq<nat>, par: seq<int>, b: nat, z: nat, d: nat, x: nat)
    requires Inv(g, roots, par, b) && 0 < b < g.n && !Anchor(g, roots, b) && Meets(g, par, b, z) && x < g.n
    requires par[x] != -1 || x == b
    requires Dominates(g, roots, d, x)
    ensures Anc(par[b := z], d, x)
  {
    AncUpdate(par, g.n, b, z, d, x);
    if x == b {
      if d != b {
        DominatorIsCommon(g, roots, par, b, d);
      }
    } else if Anc(par, b, x) && d < b {
      var up := AncRise(g, roots, par, b, x) by { AncProcessed(par, g.n, b, x); }
      forall p | PathFromTo(g, roots, p, 0, b) ensures d in p {
        PathThenPath(g, roots, p, up, 0, b, x);
        assert d in p + up[1..];
      }
      DominatorIsCommon(g, roots, par, b, d);
    }
  }

  lemma DominatorIsCommon(g: Flow, roots: seq<nat>, par: seq<int>, b: nat, d: nat)
    requires Inv(g, roots, par, b) && 0 < b < g.n && d != b && Dominates(g, roots, d, b)
    ensures Common(g, par, d, b)
  {
    forall p | p in g.ins[b] && par[p] != -1 ensures Anc(par, d, p) {
      DominatesPredecessor(g, roots, d, b, p);
    }
  }

  /** When `b` is re-hung, common ancestors of other blocks' predecessors stay above their parents. */
  lemma SettlingAfter(g: Flow, roots: seq<nat>, par: seq<int>, b: nat, z: nat, y: nat, c: nat)
    requires Inv(g, roots, par, b) && 0 < b < g.n && !Anchor(g, roots, b) && Meets(g, par, b, z) && y < g.n
    requires 0 < y && !Anchor(g, roots, y) && (par[y] != -1 || y == b)
    requires Common(g, par[b := z], c, y)
    ensures Anc(par[b := z], c, par[b := z][y])
  {
    var par' := par[b := z];
    if par[b] != -1 {
      assert Anc(par, z, z);
      assert Common(g, par, z, b);
      assert Anc(par, z, par[b]);
    }
    assert Common(g, par, c, y) by {
      forall p | p in g.ins[y] && par[p] != -1 ensures Anc(par, c, p) {
        assert Anc(par', c, p);
        AncUpdate(par, g.n, b, z, c, p);
        if Anc(par, b, p) && Anc(par, c, z) {
          AncProcessed(par, g.n, b, p);
          AncTrans(par, c, z, par[b]);
          AncTrans(par, c, b, p);
        }
      }
    }
    if y == b {
      AncBelow(par, g.n, b, z, c, z);
    } else {
      assert Anc(par, c, par[y]);
      AncUpdate(par, g.n, b, z, c, par[y]);
      if Anc(par, b, par[y]) && c < b {
        AncLe(par, b, par[y]);
        var p := EarlierOf(g, roots, par, y, b);
        assert Anc(par', c, p);
        AncUpdate(par, g.n, b, z, c, p);
      }
    }
  }

  /** A block under `b` that waits for its visit has an earlier predecessor under `b`. */
  lemma EarlierOf(g: Flow, roots: seq<nat>, par: seq<int>, y: nat, b: nat) returns (p: nat)
    requires Inv(g, roots, par, b) && 0 < b < y < g.n && !Anchor(g, roots, y) && par[y] != -1 && Anc(par, b, par[y])
    ensures p in g.ins[y] && p < y && par[p] != -1 && Anc(par, b, p)
  {
    assert NeedsVirtual(g, roots) || roots == [0];
    p :| p in g.ins[y] && p < y;
  }

  /** `z` is the meeting point of the processed predecessors of `b`. */
  ghost predicate Meets(g: Flow, par: seq<int>, b: nat, z: nat)
    requires g.Valid() && g.n == |par| && b < g.n
  {
    z < b && par[z] != -1 && forall c: nat {:trigger Anc(par, c, z)} {:trigger Common(g, par, c, b)} :: Common(g, par, c, b) <==> Anc(par, c, z)
  }

  /** The parent of the visited block becomes the meeting point of its predecessors. */
  lemma VisitKeeps(g: Flow, roots: seq<nat>, par: seq<int>, b: nat, z: nat)
    requires Inv(g, roots, par, b) && 0 < b < g.n && !Anchor(g, roots, b) && Meets(g, par, b, z)
    ensures Inv(g, roots, par[b := z], b + 1)
    ensures par[b] == -1 || z <= par[b]
  {
    ParentRises(g, roots, par, b, z);
    RootedAfterVisit(g, roots, par, b, z);
    CompleteAfterVisit(g, roots, par, b, z);
    SettlingAfterVisit(g, roots, par, b, z);
    ForwardAfterVisit(g, roots, par, b, z);
    var par' := par[b := z];
    forall x: nat | 0 < x < g.n ensures Hung(par', x) {
      assert Hung(par, x);
    }
    assert forall x :: 0 <= x < b + 1 ==> par'[x] != -1;
    assert forall x :: 0 <= x < g.n && Anchor(g, roots, x) ==> par'[x] == 0;
    assert forall x, y :: 0 <= x < y < g.n && par'[y] != -1 && !Anchor(g, roots, y) ==> par'[x] != -1;
  }

  lemma ParentRises(g: Flow, roots: seq<nat>, par: seq<int>, b: nat, z: nat)
    requires Inv(g, roots, par, b) && 0 < b < g.n && !Anchor(g, roots, b) && Meets(g, par, b, z)
    ensures par[b] == -1 || z <= par[b]
  {
    assert Anc(par, z, z);
    assert Common(g, par, z, b);
    if par[b] != -1 {
      AncLe(par, z, par[b]);
    }
  }

  lemma RootedAfterVisit(g: Flow, roots: seq<nat>, par: seq<int>, b: nat, z: nat)
    requires Inv(g, roots, par, b) && 0 < b < g.n && !Anchor(g, roots, b) && Meets(g, par, b, z)
    ensures Rooted(g, roots, par[b := z])
  {
    assert Anc(par, z, z);
    assert Common(g, par, z, b);
    var p := EarlierPredecessor(g, roots, par, b);
    var q := AncRise(g, roots, par, z, p);
    PathThenEdge(g, roots, q, z, p, b);
    assert Rises(g, roots, q + [b], z, b);
  }

  lemma CompleteAfterVisit(g: Flow, roots: seq<nat>, par: seq<int>, b: nat, z: nat)
    requires Inv(g, roots, par, b) && 0 < b < g.n && !Anchor(g, roots, b) && Meets(g, par, b, z)
    ensures Complete(g, roots, par[b := z])
  {
    var par' := par[b := z];
    forall d: nat, x | 0 <= x < g.n && par'[x] != -1 && Dominates(g, roots, d, x) ensures Anc(par', d, x) {
      CompleteAfter(g, roots, par, b, z, d, x);
    }
  }

  lemma SettlingAfterVisit(g: Flow, roots: seq<nat>, par: seq<int>, b: nat, z: nat)
    requires Inv(g, roots, par, b) && 0 < b < g.n && !Anchor(g, roots, b) && Meets(g, par, b, z)
    ensures Settling(g, roots, par[b := z])
  {
    var par' := par[b := z];
    forall y, c: nat | 0 < y < g.n && !Anchor(g, roots, y) && par'[y] != -1 && Common(g, par', c, y) ensures Anc(par', c, par'[y]) {
      SettlingAfter(g, roots, par, b, z, y, c);
    }
  }

  lemma ForwardAfterVisit(g: Flow, roots: seq<nat>, par: seq<int>, b: nat, z: nat)
    requires Inv(g, roots, par, b) && 0 < b < g.n && !Anchor(g, roots, b) && Meets(g, par, b, z)
    ensures Forward(g, par[b := z], b + 1)
  {
    var par' := par[b := z];
    forall y, p, a: nat | 0 < y < g.n && par'[y] != -1 && p in g.ins[y] && p < y && par'[p] != -1 && (y < b + 1 || a >= b + 1) && Anc(par', a, par'[y])
      ensures Anc(par', a, p)
    {
      ForwardAfter(g, roots, par, b, z, y, p, a);
    }
  }

  lemma ForwardAfter(g: Flow, roots: seq<nat>, par: seq<int>, b: nat, z: nat, y: nat, p: nat, a: nat)
    requires Inv(g, roots, par, b) && 0 < b < g.n && !Anchor(g, roots, b) && Meets(g, par, b, z)
    requires 0 < y < g.n && par[b := z][y] != -1 && p in g.ins[y] && p < y && par[b := z][p] != -1
    requires (y < b + 1 || a >= b + 1) && Anc(par[b := z], a, par[b := z][y])
    ensures Anc(par[b := z], a, p)
  {
    if y < b {
      AncBelow(par, g.n, b, z, a, par[y]);
      AncBelow(par, g.n, b, z, a, p);
    } else if y == b {
      AncBelow(par, g.n, b, z, a, z);
      AncBelow(par, g.n, b, z, a, p);
      assert Common(g, par, a, b);
    } else {
      AncUpdate(par, g.n, b, z, a, par[y]);
      AncUpdate(par, g.n, b, z, a, p);
      if Anc(par, a, z) { AncLe(par, a, z); }
      if p == b {
        AncLe(par[b := z], a, par[y]);
      }
    }
  }

  // ----- the program -----

  function Index(n: nat, id: int): int { if id == n then 0 else id }

  /** The dominator pointers as parents: the virtual root stands on block 0. */
  function Parents(n: nat, dom: seq<int>): (par: seq<int>)
    ensures |par| == |dom| && forall x :: 0 <= x < |dom| ==> par[x] == Index(n, dom[x])
  {
    seq(|dom|, x requires 0 <= x < |dom| => Index(n, dom[x]))
  }

  /** Walks two fingers, numbered in post-order, up the tree until they meet. */
  method MeetFingers(n: nat, dom: seq<int>, rho: nat, sigma: nat) returns (z: nat)
    requires |dom| == n && Shape(Parents(n, dom), n) && rho < n && sigma < n && dom[rho] != -1 && dom[sigma] != -1
    ensures z < n && dom[z] != -1
    ensures forall c {:trigger Anc(Parents(n, dom), c, z)} :: Anc(Parents(n, dom), c, z) <==> Anc(Parents(n, dom), c, rho) && Anc(Parents(n, dom), c, sigma)
  {
    ghost var par := Parents(n, dom);
    var numnodes := n - 1;
    var f1, f2 := numnodes - rho, numnodes - sigma;
    while f1 != f2
      invariant 0 <= f1 < n && 0 <= f2 < n && dom[numnodes - f1] != -1 && dom[numnodes - f2] != -1
      invariant forall c {:trigger Anc(par, c, rho)} {:trigger Anc(par, c, numnodes - f1)} :: (Anc(par, c, rho) && Anc(par, c, sigma)) <==> (Anc(par, c, numnodes - f1) && Anc(par, c, numnodes - f2))
      decreases numnodes - f1 + numnodes - f2
    {
      ghost var before := f1 + f2;
      while f1 < f2
        invariant 0 <= f1 < n && 0 <= f2 < n && dom[numnodes - f1] != -1 && dom[numnodes - f2] != -1
        invariant f1 + f2 > before || (f1 + f2 == before && f1 != f2)
        invariant forall c {:trigger Anc(par, c, rho)} {:trigger Anc(par, c, numnodes - f1)} :: (Anc(par, c, rho) && Anc(par, c, sigma)) <==> (Anc(par, c, numnodes - f1) && Anc(par, c, numnodes - f2))
        decreases numnodes - f1
      {
        ghost var x := numnodes - f1;
        assert Hung(par, x);
        CommonSkipsLarger(par, x, numnodes - f2);
        f1 := numnodes - Index(n, dom[numnodes - f1]);
        assert numnodes - f1 == par[x];
      }
      while f2 < f1
        invariant 0 <= f1 < n && 0 <= f2 < n && dom[numnodes - f1] != -1 && dom[numnodes - f2] != -1
        invariant f1 + f2 > before || (f1 + f2 == before && f2 < f1)
        invariant forall c {:trigger Anc(par, c, rho)} {:trigger Anc(par, c, numnodes - f2)} :: (Anc(par, c, rho) && Anc(par, c, sigma)) <==> (Anc(par, c, numnodes - f1) && Anc(par, c, numnodes - f2))
        decreases numnodes - f2
      {
        ghost var x := numnodes - f2;
        assert Hung(par, x);
        CommonSkipsLarger(par, x, numnodes - f1);
        f2 := numnodes - Index(n, dom[numnodes - f2]);
        assert numnodes - f2 == par[x];
      }
    }
    z := numnodes - f1;
  }

  /** The larger of two nodes is above neither, so it can be left for its parent. */
  lemma CommonSkipsLarger(par: seq<int>, x: int, y: int)
    requires 0 < x < |par| && 0 <= par[x] < x && y < x
    ensures forall c {:trigger Anc(par, c, x)} {:trigger Anc(par, c, par[x])} :: (Anc(par, c, x) && Anc(par, c, y)) <==> (Anc(par, c, par[x]) && Anc(par, c, y))
  {
    forall c ensures (Anc(par, c, x) && Anc(par, c, y)) <==> (Anc(par, c, par[x]) && Anc(par, c, y)) {
      if Anc(par, c, y) {
        AncLe(par, c, y);
      }
    }
  }

  /** The meeting point of the processed predecessors of `b`. */
  method NewDominator(g: Flow, roots: seq<nat>, dom: seq<int>, b: nat) returns (z: nat)
    requires |dom| == g.n && Inv(g, roots, Parents(g.n, dom), b) && 0 < b < g.n && !Anchor(g, roots, b)
    ensures Meets(g, Parents(g.n, dom), b, z)
  {
    ghost var par := Parents(g.n, dom);
    ghost var early := EarlierPredecessor(g, roots, par, b);
    var preds := g.ins[b];
    z := 0;
    var j := 0;
    while j < |preds|
      invariant 0 <= j <= |preds|
      invariant forall k :: 0 <= k < j ==> dom[preds[k]] == -1
    {
      z := preds[j];
      if dom[z] != -1 {
        break;
      }
      j := j + 1;
    }
    assert j < |preds|;
    j := j + 1;
    while j < |preds|
      invariant 0 < j <= |preds|
      invariant z < g.n && dom[z] != -1
      invariant forall c: nat {:trigger Anc(par, c, z)} :: Anc(par, c, z) <==> forall k :: 0 <= k < j && dom[preds[k]] != -1 ==> Anc(par, c, preds[k])
    {
      var rho := preds[j];
      if dom[rho] != -1 {
        z := MeetFingers(g.n, dom, rho, z);
      }
      j := j + 1;
    }
    assert forall c: nat {:trigger Anc(par, c, z)} :: Anc(par, c, z) <==> Common(g, par, c, b);
    assert Anc(par, z, z);
    AncLe(par, z, early);
  }

  // ----- the fixpoint -----

  /** The parent of `x` is above all of its processed predecessors. */
  ghost predicate Stable(g: Flow, par: seq<int>, x: nat)
    requires g.Valid() && g.n == |par| && x < g.n
  {
    forall p :: p in g.ins[x] && par[p] != -1 ==> Anc(par, par[x], p)
  }

  /** In a stable tree everything above a block lies on every way to it. */
  lemma {:induction false} StableIsSound(g: Flow, roots: seq<nat>, par: seq<int>, a: int, b: nat, p: seq<nat>)
    requires Inv(g, roots, par, g.n) && (forall x :: 0 < x < g.n ==> Stable(g, par, x))
    requires b < g.n && Anc(par, a, b) && PathFromTo(g, roots, p, 0, b)
    ensures a in p
    decreases |p|
  {
    if a != b {
      assert |p| > 1;
      var u, q := p[|p| - 2], p[..|p| - 1];
      assert Edge(g, roots, u, p[|p| - 1]);
      assert Stable(g, par, b);
      assert Anc(par, par[b], u) by {
        if u !in g.ins[b] {
          assert NeedsVirtual(g, roots) || roots == [0];
          assert par[b] == 0;
          AncZero(par, g.n, u);
        }
      }
      AncTrans(par, a, par[b], u);
      StableIsSound(g, roots, par, a, u, q);
    }
  }

  /** In a stable tree the ancestors of a block are its dominators, no more and no fewer. */
  lemma StableIsDominance(g: Flow, roots: seq<nat>, par: seq<int>, d: nat, b: nat)
    requires Inv(g, roots, par, g.n) && (forall x :: 0 < x < g.n ==> Stable(g, par, x)) && b < g.n
    ensures Anc(par, d, b) <==> Dominates(g, roots, d, b)
  {
    if Anc(par, d, b) {
      forall p | PathFromTo(g, roots, p, 0, b) ensures d in p {
        StableIsSound(g, roots, par, d, b, p);
      }
    }
  }

  // ----- termination -----

  ghost function Height(par: seq<int>, n: nat): nat {
    if par == [] then 0 else (if par[0] < 0 then n else par[0]) + Height(par[1..], n)
  }

  lemma {:induction false} HeightUpdate(par: seq<int>, n: nat, b: nat, z: nat)
    requires b < |par| && z < n && (par[b] < 0 || z < par[b])
    ensures Height(par[b := z], n) < Height(par, n)
  {
    if b == 0 {
      assert par[b := z][1..] == par[1..];
    } else {
      HeightUpdate(par[1..], n, b - 1, z);
      assert par[b := z][1..] == par[1..][b - 1 := z];
    }
  }

  // ----- the whole computation -----

  lemma SkipKeeps(g: Flow, roots: seq<nat>, par: seq<int>, b: nat)
    requires Inv(g, roots, par, b) && b < g.n && par[b] == 0
    ensures Inv(g, roots, par, b + 1) && Stable(g, par, b)
  {
    forall p | p in g.ins[b] && par[p] != -1 ensures Anc(par, 0, p) {
      AncZero(par, g.n, p);
    }
  }

  /** The tree before the first pass: block 0 and the anchors right below it. */
  lemma StartKeeps(g: Flow, roots: seq<nat>, par: seq<int>)
    requires Ordered(g, roots) && |par| == g.n
    requires forall x :: 0 <= x < g.n ==> par[x] == if Anchor(g, roots, x) then 0 else -1
    ensures Inv(g, roots, par, 1)
  {
    assert Anchor(g, roots, 0);
    assert NeedsVirtual(g, roots) || roots == [0];
    forall x | 0 < x < g.n && par[x] >= 0 ensures Rise(g, roots, par[x], x) && Edge(g, roots, 0, x) {
      assert Edge(g, roots, 0, x);
      assert Rises(g, roots, [0, x], 0, x);
    }
    forall d: nat, x | 0 <= x < g.n && par[x] != -1 && Dominates(g, roots, d, x) ensures Anc(par, d, x) {
      var p := if x == 0 then [0] else [0, x];
      assert PathFromTo(g, roots, p, 0, x);
      assert d in p;
    }
  }

  lemma PassEnd(g: Flow, roots: seq<nat>, par: seq<int>)
    requires Inv(g, roots, par, g.n)
    ensures Inv(g, roots, par, 1)
  {
  }

  /** The dominator pointers record anchors by the top and everything else by a block. */
  ghost predicate Pointers(g: Flow, roots: seq<nat>, dom: seq<int>)
    requires g.Valid() && g.n > 0
  {
    |dom| == g.n && forall x :: 0 <= x < g.n ==>
      if NeedsVirtual(g, roots) then dom[x] == g.n <==> Anchor(g, roots, x) else dom[x] != g.n
  }

  /** One block's turn in a sweep. */
  method Visit(g: Flow, roots: seq<nat>, dom0: seq<int>, b: nat) returns (dom: seq<int>, changed: bool)
    requires Ordered(g, roots) && Pointers(g, roots, dom0) && 0 < b < g.n && Inv(g, roots, Parents(g.n, dom0), b)
    ensures Pointers(g, roots, dom) && Inv(g, roots, Parents(g.n, dom), b + 1)
    ensures changed ==> Height(Parents(g.n, dom), g.n) < Height(Parents(g.n, dom0), g.n)
    ensures !changed ==> dom == dom0 && Stable(g, Parents(g.n, dom), b)
  {
    var top := if NeedsVirtual(g, roots) then g.n else 0;
    ghost var par := Parents(g.n, dom0);
    if dom0[b] == top {
      SkipKeeps(g, roots, par, b);
      return dom0, false;
    }
    assert !Anchor(g, roots, b);
    var z := NewDominator(g, roots, dom0, b);
    VisitKeeps(g, roots, par, b, z);
    dom := dom0[b := z];
    changed := dom0[b] != z;
    assert Parents(g.n, dom) == par[b := z];
    if changed {
      HeightUpdate(par, g.n, b, z);
    } else {
      assert dom == dom0;
      MeetIsStable(g, par, b, z);
    }
  }

  lemma MeetIsStable(g: Flow, par: seq<int>, b: nat, z: nat)
    requires g.Valid() && g.n == |par| && b < g.n && Meets(g, par, b, z) && par[b] == z
    ensures Stable(g, par, b)
  {
    assert Anc(par, z, z);
    assert Common(g, par, z, b);
  }

  /** One sweep over the blocks in reverse post-order. */
  method Sweep(g: Flow, roots: seq<nat>, dom0: seq<int>) returns (dom: seq<int>, changed: bool)
    requires Ordered(g, roots) && Pointers(g, roots, dom0) && Inv(g, roots, Parents(g.n, dom0), 1)
    ensures Pointers(g, roots, dom) && Inv(g, roots, Parents(g.n, dom), g.n)
    ensures changed ==> Height(Parents(g.n, dom), g.n) < Height(Parents(g.n, dom0), g.n)
    ensures !changed ==> dom == dom0 && forall x :: 0 < x < g.n ==> Stable(g, Parents(g.n, dom), x)
  {
    dom, changed := dom0, false;
    // With a virtual root the sweep starts at block 0, an anchor that is passed over.
    var b := 1;
    while b < g.n
      invariant 1 <= b <= g.n && Pointers(g, roots, dom) && Inv(g, roots, Parents(g.n, dom), b)
      invariant changed ==> Height(Parents(g.n, dom), g.n) < Height(Parents(g.n, dom0), g.n)
      invariant !changed ==> dom == dom0
      invariant !changed ==> forall x :: 0 < x < b ==> Stable(g, Parents(g.n, dom), x)
    {
      var here;
      dom, here := Visit(g, roots, dom, b);
      changed := changed || here;
      b := b + 1;
    }
  }

  /** Block `d` lies on every way to `b` without being `b`. */
  ghost predicate StrictlyDominates(g: Flow, roots: seq<nat>, d: nat, b: nat)
    requires |g.ins| == g.n
  {
    d != b && Dominates(g, roots, d, b)
  }

  /** `d` is the strict dominator of `b` that every strict dominator of `b` dominates. */
  ghost predicate IsImmediate(g: Flow, roots: seq<nat>, d: int, b: nat)
    requires |g.ins| == g.n
  {
    0 <= d < b && StrictlyDominates(g, roots, d, b) && forall e: nat :: StrictlyDominates(g, roots, e, b) ==> Dominates(g, roots, e, d)
  }

  lemma StableIsImmediate(g: Flow, roots: seq<nat>, par: seq<int>, b: nat)
    requires Inv(g, roots, par, g.n) && (forall x :: 0 < x < g.n ==> Stable(g, par, x)) && 0 < b < g.n
    ensures IsImmediate(g, roots, par[b], b)
  {
    assert Hung(par, b);
    assert Anc(par, par[b], par[b]);
    StableIsDominance(g, roots, par, par[b], b);
    forall e: nat | StrictlyDominates(g, roots, e, b) ensures Dominates(g, roots, e, par[b]) {
      StableIsDominance(g, roots, par, e, b);
      StableIsDominance(g, roots, par, e, par[b]);
    }
  }

  /** The pointers before the first sweep. */
  method InitialPointers(g: Flow, roots: seq<nat>) returns (dom: seq<int>)
    requires Ordered(g, roots)
    ensures Pointers(g, roots, dom) && Inv(g, roots, Parents(g.n, dom), 1)
  {
    var virtual := NeedsVirtual(g, roots);
    var top := if virtual then g.n else 0;
    dom := seq(g.n, _ => -1);
    var start := if virtual then roots else [0] + g.outs[0];
    assert forall x: nat :: x < g.n ==> (x in start <==> Anchor(g, roots, x));
    forall i | 0 <= i < |start| ensures start[i] < g.n {
      assert virtual ==> start[i] in roots;
    }
    for i := 0 to |start|
      invariant |dom| == g.n
      invariant forall x :: 0 <= x < g.n ==> dom[x] == if x in start[..i] then top else -1
    {
      dom := dom[start[i] := top];
    }
    assert start[..|start|] == start;
    StartKeeps(g, roots, Parents(g.n, dom));
  }

  /**
   Computes the immediate dominator of every block.  The iteration terminates; a
   block with a dominator gets the immediate one, and exactly the roots (block 0 alone
   without a virtual root) get nil.
   */
  method CalcForwardDominator(g: Flow, roots: seq<nat>) returns (immedDom: seq<int>)
    requires Ordered(g, roots)
    ensures |immedDom| == g.n
    ensures forall b: nat :: b < g.n ==>
              (immedDom[b] == -1 <==> if NeedsVirtual(g, roots) then b in roots else b == 0)
    ensures forall b: nat :: b < g.n && immedDom[b] != -1 ==> IsImmediate(g, roots, immedDom[b], b)
  {
    var dom := InitialPointers(g, roots);
    var changed := true;
    while changed
      invariant Pointers(g, roots, dom) && Inv(g, roots, Parents(g.n, dom), 1)
      invariant !changed ==> Inv(g, roots, Parents(g.n, dom), g.n)
      invariant !changed ==> forall x :: 0 < x < g.n ==> Stable(g, Parents(g.n, dom), x)
      decreases Height(Parents(g.n, dom), g.n), changed
    {
      dom, changed := Sweep(g, roots, dom);
      PassEnd(g, roots, Parents(g.n, dom));
    }
    ghost var par := Parents(g.n, dom);
    var virtual := NeedsVirtual(g, roots);
    immedDom := dom;
    for x := 0 to g.n
      invariant |immedDom| == g.n && forall y :: 0 <= y < g.n ==>
                  immedDom[y] == if y < x && (if virtual then dom[y] == g.n else y == 0) then -1 else dom[y]
    {
      if if virtual then immedDom[x] == g.n else x == 0 {
        immedDom := immedDom[x := -1];
      }
    }
    forall b: nat | b < g.n && immedDom[b] != -1 ensures IsImmediate(g, roots, immedDom[b], b) {
      assert par[b] == immedDom[b];
      StableIsImmediate(g, roots, par, b);
    }
  }

  // ----- what this says about ways from the roots -----

  /** A way along edges of the graph itself, starting at a listed root. */
  ghost predicate RootPath(g: Flow, roots: seq<nat>, p: seq<nat>, b: nat)
    requires |g.ins| == g.n
  {
    && |p| > 0 && (forall i :: 0 <= i < |p| ==> p[i] < g.n) && p[0] in roots && p[|p| - 1] == b
    && (forall i :: 0 <= i < |p| - 1 ==> p[i] in g.ins[p[i + 1]])
  }

  ghost predicate OnEveryWay(g: Flow, roots: seq<nat>, d: nat, b: nat)
    requires |g.ins| == g.n
  {
    forall p :: RootPath(g, roots, p, b) ==> d in p
  }

  /** The part of a way after its last step from block 0 to a listed root. */
  lemma {:induction false} LastRoot(g: Flow, roots: seq<nat>, p: seq<nat>, b: nat) returns (k: nat)
    requires |g.ins| == g.n && 0 in roots && PathFromTo(g, roots, p, 0, b)
    ensures k < |p| && RootPath(g, roots, p[k..], b)
    decreases |p|
  {
    if |p| == 1 {
      k := 0;
    } else {
      var q, u := p[..|p| - 1], p[|p| - 2];
      assert Edge(g, roots, u, p[|p| - 1]);
      if u in g.ins[b] {
        k := LastRoot(g, roots, q, u);
        assert p[k..] == q[k..] + [b];
      } else {
        k := |p| - 1;
      }
    }
  }

  /**
   Dominance in the extended graph is lying on every way from every root, save
   that block 0 always qualifies.  So the computed dominator is the immediate one on
   all ways from the roots, unless it is block 0 and some way from another root avoids it.
   */
  lemma RootedDominance(g: Flow, roots: seq<nat>, d: nat, b: nat)
    requires g.Valid() && 0 in roots && b < g.n
    ensures Dominates(g, roots, d, b) <==> d == 0 || OnEveryWay(g, roots, d, b)
  {
    if Dominates(g, roots, d, b) && d != 0 {
      forall p | RootPath(g, roots, p, b) ensures d in p {
        var q := if p[0] == 0 then p else [0] + p;
        forall i | 0 <= i < |q| - 1 ensures Edge(g, roots, q[i], q[i + 1]) {
          if p[0] != 0 && i > 0 {
            assert q[i] == p[i - 1] && q[i + 1] == p[i];
          }
        }
        assert PathFromTo(g, roots, q, 0, b);
      }
    }
    if OnEveryWay(g, roots, d, b) {
      forall p | PathFromTo(g, roots, p, 0, b) ensures d in p {
        var k := LastRoot(g, roots, p, b);
        assert d in p[k..];
      }
    }
    forall p | PathFromTo(g, roots, p, 0, b) ensures 0 in p {
      assert p[0] == 0;
    }
  }

  /** `d` lies on every way from the roots to `b`, and every other such block on every way to `d`. */
  ghost predicate ImmediateOnWays(g: Flow, roots: seq<nat>, d: int, b: nat)
    requires |g.ins| == g.n
  {
    0 <= d && d != b && OnEveryWay(g, roots, d, b) && forall e: nat :: e != b && OnEveryWay(g, roots, e, b) ==> OnEveryWay(g, roots, e, d)
  }

  /** Every block is reached from a root. */
  lemma {:induction false} HasWay(g: Flow, roots: seq<nat>, b: nat) returns (p: seq<nat>)
    requires Ordered(g, roots) && b < g.n
    ensures RootPath(g, roots, p, b)
  {
    if b in roots {
      p := [b];
    } else {
      var u :| u in g.ins[b] && u < b;
      var q := HasWay(g, roots, u);
      p := q + [b];
    }
  }

  /** The way to `b` from the last time it passes `d`. */
  lemma LastPass(p: seq<nat>, d: nat) returns (j: nat)
    requires d in p
    ensures j < |p| && p[j] == d && d !in p[j + 1..]
    decreases |p|
  {
    if p[|p| - 1] == d {
      j := |p| - 1;
    } else {
      var q := p[..|p| - 1];
      j := LastPass(q, d);
      assert p[j + 1..] == q[j + 1..] + [p[|p| - 1]];
    }
  }

  lemma SuffixWay(g: Flow, roots: seq<nat>, w: seq<nat>, k: nat, b: nat)
    requires |g.ins| == g.n && RootPath(g, roots, w, b) && k < |w| && w[k] in roots
    ensures RootPath(g, roots, w[k..], b)
  {
  }

  /** If block 0 is on every way to `b`, and so is `d`, then it is on every way to `d`. */
  lemma EntryAbove(g: Flow, roots: seq<nat>, d: nat, b: nat)
    requires Ordered(g, roots) && b < g.n && d != 0 && OnEveryWay(g, roots, 0, b) && OnEveryWay(g, roots, d, b)
    ensures OnEveryWay(g, roots, 0, d)
  {
    var w := HasWay(g, roots, b);
    var j := LastPass(w, d);
    var tail := w[j + 1..];
    forall i | 0 <= i < |tail| ensures tail[i] != 0 {
      assert tail[i..] == w[j + 1 + i..];
      if tail[i] == 0 { SuffixWay(g, roots, w, j + 1 + i, b); }
    }
    forall p | RootPath(g, roots, p, d) ensures 0 in p {
      assert p + tail == p[..|p| - 1] + w[j..];
      assert RootPath(g, roots, p + tail, b);
    }
  }

  /**
   With any number of roots, the computed dominator of a block is the immediate one on
   the ways from the roots if and only if some other block is on all of them.
   */
  lemma RootedImmediate(g: Flow, roots: seq<nat>, d: int, b: nat)
    requires Ordered(g, roots) && b < g.n && IsImmediate(g, roots, d, b)
    ensures ImmediateOnWays(g, roots, d, b) <==> exists e: nat :: e != b && OnEveryWay(g, roots, e, b)
  {
    if e: nat :| e != b && OnEveryWay(g, roots, e, b) {
      RootedDominance(g, roots, e, b);
      RootedDominance(g, roots, d, b);
      if d == 0 {
        assert StrictlyDominates(g, roots, e, b) && Dominates(g, roots, e, 0);
        assert PathFromTo(g, roots, [0], 0, 0);
        assert e in [0];
      }
      forall f: nat | f != b && OnEveryWay(g, roots, f, b) ensures OnEveryWay(g, roots, f, d) {
        RootedDominance(g, roots, f, b);
        RootedDominance(g, roots, f, d);
        if f == 0 && d != 0 { EntryAbove(g, roots, d, b); }
      }
    }
  }

  /** With block 0 the only root the dominators are those of the graph itself. */
  lemma SingleRootDominance(g: Flow, d: nat, b: nat)
    requires g.Valid() && b < g.n
    ensures Dominates(g, [0], d, b) <==> OnEveryWay(g, [0], d, b)
  {
    RootedDominance(g, [0], d, b);
    forall p | RootPath(g, [0], p, b) ensures 0 in p {
      assert p[0] == 0;
    }
  }

  const TWO_ROOTS := Flow(3, [[2], [2], []], [[], [], [0, 1]])

  /**
   With two roots that share a block, every answer of `CalcForwardDominator` names
   block 0 as the dominator of the shared block, although it is on no way from the other root.
   */
  lemma SharedBlockOfTwoRoots(immedDom: int)
    requires IsImmediate(TWO_ROOTS, [0, 1], immedDom, 2)
    ensures Ordered(TWO_ROOTS, [0, 1]) && immedDom == 0 && !OnEveryWay(TWO_ROOTS, [0, 1], 0, 2)
  {
    assert 0 in TWO_ROOTS.ins[2] && 1 in TWO_ROOTS.ins[2];
    assert RootPath(TWO_ROOTS, [0, 1], [1, 2], 2);
    assert Edge(TWO_ROOTS, [0, 1], 0, 2);
    assert PathFromTo(TWO_ROOTS, [0, 1], [0, 2], 0, 2);
    assert immedDom in [0, 2];
  }
}

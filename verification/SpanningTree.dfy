/**
 The depth-first spanning tree of a control-flow graph: visit order, reverse
 post-order, subtree sizes and edge labels (pkg/pcode/block_graph.go:198-324).
 */
module SpanningTrees {
  import Dominators

  type Flow = Dominators.Flow

  datatype Label = Unlabelled | Tree | Back | Forward | Cross

  /**
   The state of the walk: `visit` is visitCount, `index` the reverse post-order
   number, `desc` numDesc, `labels` the label of each out-edge, `order` rpostorder,
   `plist` the blocks in pre-order, `stack` the frames (block, next edge), `post` rpostcount.
   -1 stands for a number not yet given.
   */
  datatype Walk = Walk(visit: seq<int>, index: seq<int>, desc: seq<int>, labels: seq<seq<Label>>,
                       order: seq<int>, plist: seq<nat>, stack: seq<(nat, nat)>, post: int)

  function Fresh(g: Flow): Walk
    requires |g.outs| == g.n
  {
    Walk(seq(g.n, _ => -1), seq(g.n, _ => -1), seq(g.n, _ => 0), seq(g.n, u requires 0 <= u < g.n => seq(|g.outs[u]|, _ => Unlabelled)),
         seq(g.n, _ => -1), [], [], g.n)
  }

  /** `v` lies in the subtree of `u` along the parents; a parent is visited before its child. */
  predicate Under(visit: seq<int>, parent: seq<int>, u: int, v: int)
    decreases if 0 <= v < |visit| && visit[v] >= 0 then visit[v] + 1 else 0
  {
    u == v ||
    (0 <= v < |visit| && |parent| == |visit| && 0 <= parent[v] < |visit| && 0 <= visit[parent[v]] < visit[v] && Under(visit, parent, u, parent[v]))
  }

  ghost predicate Sized(g: Flow, w: Walk, parent: seq<int>) {
    && g.Valid() && |w.visit| == |w.index| == |w.desc| == |w.labels| == |w.order| == |parent| == g.n
    && (forall u :: 0 <= u < g.n ==> |w.labels[u]| == |g.outs[u]|)
  }

  /** Visit numbers and the pre-order list are inverse to each other. */
  ghost predicate VisitAt(g: Flow, w: Walk, v: nat)
    requires v < |w.visit|
  {
    w.visit[v] == -1 || (0 <= w.visit[v] < |w.plist| && w.plist[w.visit[v]] == v)
  }

  ghost predicate ListAt(g: Flow, w: Walk, k: nat)
    requires k < |w.plist|
  {
    w.plist[k] < |w.visit| && w.visit[w.plist[k]] == k
  }

  ghost predicate VisitsOk(g: Flow, w: Walk)
    requires |w.visit| == g.n
  {
    (forall v: nat :: v < g.n ==> VisitAt(g, w, v)) && (forall k: nat :: k < |w.plist| ==> ListAt(g, w, k))
  }

  /** Post-order numbers are handed out downwards to visited blocks. */
  ghost predicate IndexAt(g: Flow, w: Walk, v: nat)
    requires v < |w.visit| == |w.index| == |w.order|
  {
    w.index[v] == -1 || (w.post <= w.index[v] < |w.order| && 0 <= w.index[v] && w.order[w.index[v]] == v && w.visit[v] >= 0)
  }

  ghost predicate OrderAt(g: Flow, w: Walk, k: nat)
    requires k < |w.order| == |w.index|
  {
    0 <= w.order[k] < |w.index| && w.index[w.order[k]] == k
  }

  ghost predicate IndexOk(g: Flow, w: Walk)
    requires |w.visit| == |w.index| == |w.order| == g.n
  {
    && 0 <= w.post <= g.n && g.n - w.post == |w.plist| - |w.stack|
    && (forall v: nat :: v < g.n ==> IndexAt(g, w, v))
    && (forall k: nat :: w.post <= k < g.n ==> OrderAt(g, w, k))
  }

  ghost predicate TreeEdge(g: Flow, w: Walk, u: int, v: int)
    requires |w.labels| == |g.outs|
  {
    0 <= u < |g.outs| && exists i :: 0 <= i < |g.outs[u]| && |w.labels[u]| == |g.outs[u]| && g.outs[u][i] == v && w.labels[u][i] == Tree
  }

  /** A parent is visited earlier and has a tree edge to its child. */
  ghost predicate ParentAt(g: Flow, w: Walk, parent: seq<int>, v: nat)
    requires Sized(g, w, parent) && v < g.n
  {
    && -1 <= parent[v] < g.n && (w.visit[v] == -1 ==> parent[v] == -1)
    && (parent[v] >= 0 ==> 0 <= w.visit[parent[v]] < w.visit[v] && TreeEdge(g, w, parent[v], v))
  }

  ghost predicate ParentsOk(g: Flow, w: Walk, parent: seq<int>)
    requires Sized(g, w, parent)
  {
    forall v: nat :: v < g.n ==> ParentAt(g, w, parent, v)
  }

  ghost predicate OnStack(w: Walk, v: int) {
    exists k :: 0 <= k < |w.stack| && w.stack[k].0 == v
  }

  /** A frame holds an open block, the parent of the next frame's; the size of its subtree so far ends where the next begins. */
  ghost predicate FrameAt(g: Flow, w: Walk, parent: seq<int>, k: nat)
    requires Sized(g, w, parent) && k < |w.stack|
  {
    var (x, e) := w.stack[k];
    && x < g.n && w.visit[x] >= 0 && w.index[x] == -1 && e <= |g.outs[x]|
    && if k + 1 < |w.stack| then
         var y := w.stack[k + 1].0;
         y < g.n && parent[y] == x && w.visit[x] < w.visit[y] && w.desc[x] == w.visit[y] - w.visit[x]
       else w.desc[x] == |w.plist| - w.visit[x]
  }

  ghost predicate StackOk(g: Flow, w: Walk, parent: seq<int>)
    requires Sized(g, w, parent)
  {
    && (forall k: nat :: k < |w.stack| ==> FrameAt(g, w, parent, k))
    && (forall v: nat {:trigger OnStack(w, v)} :: v < g.n && w.visit[v] >= 0 && w.index[v] == -1 ==> OnStack(w, v))
  }

  /** The subtree of `u` is an interval of visit numbers: closed, or still open at the end. */
  ghost predicate SubAt(g: Flow, w: Walk, parent: seq<int>, u: nat, v: nat)
    requires Sized(g, w, parent) && u < g.n && v < g.n
  {
    w.visit[u] >= 0 && w.visit[v] >= 0 ==>
      if w.index[u] != -1 then
        && (Under(w.visit, parent, u, v) <==> w.visit[u] <= w.visit[v] < w.visit[u] + w.desc[u])
        && (w.index[v] == -1 ==> !Under(w.visit, parent, u, v))
        && w.desc[u] >= 1 && w.visit[u] + w.desc[u] <= |w.plist|
      else Under(w.visit, parent, u, v) <==> w.visit[u] <= w.visit[v]
  }

  ghost predicate SubtreesOk(g: Flow, w: Walk, parent: seq<int>)
    requires Sized(g, w, parent)
  {
    forall u: nat, v: nat :: u < g.n && v < g.n ==> SubAt(g, w, parent, u, v)
  }

  /** What the label of a followed edge says about its ends, now and once they are closed. */
  ghost predicate EdgeOk(g: Flow, w: Walk, parent: seq<int>, u: nat, i: nat)
    requires Sized(g, w, parent) && u < g.n && i < |g.outs[u]|
  {
    var v := g.outs[u][i];
    && w.visit[u] >= 0 && w.visit[v] >= 0
    && match w.labels[u][i] {
         case Unlabelled => false
         case Tree => parent[v] == u && w.visit[u] < w.visit[v] && (w.index[u] != -1 ==> w.index[v] != -1 && w.index[u] < w.index[v])
         case Back => Under(w.visit, parent, v, u) && (w.index[v] != -1 ==> w.index[u] != -1 && w.index[v] <= w.index[u])
         case Forward => u != v && Under(w.visit, parent, u, v) && w.index[v] != -1 && (w.index[u] != -1 ==> w.index[u] < w.index[v])
         case Cross => !Under(w.visit, parent, u, v) && !Under(w.visit, parent, v, u) && w.index[v] != -1 && (w.index[u] != -1 ==> w.index[u] < w.index[v])
       }
  }

  /** The edge has been followed: its block is closed, or open and past it. */
  ghost predicate Followed(g: Flow, w: Walk, u: nat, i: nat)
    requires |w.index| == g.n
  {
    u < g.n && (w.index[u] != -1 || exists k :: 0 <= k < |w.stack| && w.stack[k].0 == u && i < w.stack[k].1)
  }

  ghost predicate EdgeAt(g: Flow, w: Walk, parent: seq<int>, u: nat, i: nat)
    requires Sized(g, w, parent) && u < g.n && i < |g.outs[u]|
  {
    if Followed(g, w, u, i) then EdgeOk(g, w, parent, u, i) else w.labels[u][i] == Unlabelled
  }

  ghost predicate EdgesOk(g: Flow, w: Walk, parent: seq<int>)
    requires Sized(g, w, parent)
  {
    forall u: nat, i: nat :: u < g.n && i < |g.outs[u]| ==> EdgeAt(g, w, parent, u, i)
  }

  ghost predicate Inv(g: Flow, w: Walk, parent: seq<int>) {
    Sized(g, w, parent) && VisitsOk(g, w) && IndexOk(g, w) && ParentsOk(g, w, parent) && StackOk(g, w, parent)
    && SubtreesOk(g, w, parent) && EdgesOk(g, w, parent)
  }

  lemma FreshInv(g: Flow)
    requires g.Valid()
    ensures Inv(g, Fresh(g), seq(g.n, _ => -1))
  {
  }

  // ----- the steps of the walk -----

  /** Gives `c` the next visit number and opens a frame for it. */
  function Open(w: Walk, c: nat): Walk
    requires c < |w.visit| == |w.desc|
  {
    w.(visit := w.visit[c := |w.plist|], desc := w.desc[c := 1], plist := w.plist + [c], stack := w.stack + [(c, 0)])
  }

  /** Labels the next edge of the top frame and moves past it. */
  function Advance(w: Walk, lab: Label): Walk
    requires |w.stack| > 0
    requires var (u, e) := w.stack[|w.stack| - 1]; u < |w.labels| && e < |w.labels[u]|
  {
    var k := |w.stack| - 1;
    var (u, e) := w.stack[k];
    w.(stack := w.stack[k := (u, e + 1)], labels := w.labels[u := w.labels[u][e := lab]])
  }

  /** Closes the top frame: its block gets the next post-order number and its size goes to its parent. */
  function Close(w: Walk): Walk
    requires |w.stack| > 0 && 1 <= w.post <= |w.order| == |w.index| == |w.desc|
    requires forall k :: 0 <= k < |w.stack| ==> w.stack[k].0 < |w.index|
  {
    var k := |w.stack| - 1;
    var u := w.stack[k].0;
    w.(stack := w.stack[..k], post := w.post - 1, index := w.index[u := w.post - 1], order := w.order[w.post - 1 := u],
       desc := if k == 0 then w.desc else w.desc[w.stack[k - 1].0 := w.desc[w.stack[k - 1].0] + w.desc[u]])
  }

  /** Visiting a new block does not touch the subtrees among the old ones. */
  lemma {:induction false} UnderStable(g: Flow, w: Walk, parent: seq<int>, c: nat, p: int, u: int, v: int)
    requires Inv(g, w, parent) && c < g.n && w.visit[c] == -1 && 0 <= v < g.n && w.visit[v] >= 0
    ensures Under(w.visit[c := |w.plist|], parent[c := p], u, v) <==> Under(w.visit, parent, u, v)
    decreases w.visit[v]
  {
    assert ParentAt(g, w, parent, v);
    if parent[v] >= 0 {
      UnderStable(g, w, parent, c, p, u, parent[v]);
    }
  }

  /** The subtrees that the new block `c` below `p` joins. */
  lemma UnderNew(g: Flow, w: Walk, parent: seq<int>, c: nat, p: int, u: int)
    requires Inv(g, w, parent) && c < g.n && w.visit[c] == -1 && -1 <= p < g.n && (p >= 0 ==> w.visit[p] >= 0)
    ensures Under(w.visit[c := |w.plist|], parent[c := p], u, c) <==> u == c || (p >= 0 && Under(w.visit, parent, u, p))
  {
    if p >= 0 {
      assert VisitAt(g, w, p);
      UnderStable(g, w, parent, c, p, u, p);
    }
  }

  /** An open block is visited no later than the top of the stack. */
  lemma TopIsLast(g: Flow, w: Walk, parent: seq<int>, v: int)
    requires Inv(g, w, parent) && |w.stack| > 0 && 0 <= v < g.n && w.visit[v] >= 0 && w.index[v] == -1
    ensures w.stack[|w.stack| - 1].0 < g.n && w.visit[v] <= w.visit[w.stack[|w.stack| - 1].0]
  {
    assert OnStack(w, v);
    var k :| 0 <= k < |w.stack| && w.stack[k].0 == v;
    FramesAscend(g, w, parent, k, |w.stack| - 1);
  }

  lemma {:induction false} FramesAscend(g: Flow, w: Walk, parent: seq<int>, j: nat, k: nat)
    requires Sized(g, w, parent) && StackOk(g, w, parent) && j <= k < |w.stack|
    ensures w.stack[j].0 < g.n && w.stack[k].0 < g.n && w.visit[w.stack[j].0] + (k - j) <= w.visit[w.stack[k].0]
    decreases k - j
  {
    assert FrameAt(g, w, parent, j) && FrameAt(g, w, parent, k);
    if j < k {
      FramesAscend(g, w, parent, j + 1, k);
    }
  }

  /** The visited blocks are distinct, so there is room for an unvisited one. */
  lemma VisitRoom(g: Flow, w: Walk)
    requires |w.visit| == g.n && VisitsOk(g, w)
    ensures |w.plist| <= g.n
    ensures |w.plist| == g.n ==> forall v :: 0 <= v < g.n ==> w.visit[v] >= 0
    ensures |w.plist| < g.n ==> exists v :: 0 <= v < g.n && w.visit[v] == -1
  {
    var seen := set k | 0 <= k < |w.plist| :: w.plist[k];
    forall j, k | 0 <= j < k < |w.plist| ensures w.plist[j] != w.plist[k] {
      assert ListAt(g, w, j) && ListAt(g, w, k);
    }
    forall k | 0 <= k < |w.plist| ensures w.plist[k] < g.n {
      assert ListAt(g, w, k);
    }
    var all := Below(g.n);
    Distinct(w.plist, seen);
    Subset(seen, all);
    if |w.plist| == g.n {
      assert seen == all by { SubsetOfEqualSize(seen, all); }
      forall v | 0 <= v < g.n ensures w.visit[v] >= 0 {
        assert v in seen;
        var k: nat :| k < |w.plist| && w.plist[k] == v;
        assert ListAt(g, w, k);
      }
    } else {
      assert seen != all;
      var v :| v in all && v !in seen;
      assert VisitAt(g, w, v);
      assert w.visit[v] == -1;
    }
  }

  lemma {:induction false} Distinct(s: seq<nat>, t: set<nat>)
    requires forall i, j :: 0 <= i < j < |s| ==> s[i] != s[j]
    requires t == set k | 0 <= k < |s| :: s[k]
    ensures |t| == |s|
    decreases |s|
  {
    if s != [] {
      var r := s[..|s| - 1];
      var q := set k | 0 <= k < |r| :: r[k];
      Distinct(r, q);
      assert t == q + {s[|s| - 1]} && s[|s| - 1] !in q;
    }
  }

  function Below(n: nat): (t: set<nat>)
    ensures |t| == n && forall v: nat :: v in t <==> v < n
  {
    if n == 0 then {} else
      var t := Below(n - 1);
      assert n - 1 !in t;
      t + {n - 1}
  }

  lemma {:induction false} Subset(a: set<nat>, b: set<nat>)
    requires a <= b
    ensures |a| <= |b|
    decreases a
  {
    if a != {} {
      var x :| x in a;
      Subset(a - {x}, b - {x});
    }
  }

  lemma SubsetOfEqualSize(a: set<nat>, b: set<nat>)
    requires a <= b && |a| == |b|
    ensures a == b
  {
    if a != b {
      var x :| x in b && x !in a;
      Subset(a, b - {x});
    }
  }

  // ----- opening a block -----

  /** Opening `c` below `p` (or as a root, `p == -1`), once the edge to it is labelled. */
  ghost predicate Openable(g: Flow, w: Walk, parent: seq<int>, c: nat, p: int) {
    && Inv(g, w, parent) && c < g.n && w.visit[c] == -1
    && if p == -1 then w.stack == [] else |w.stack| > 0 && p == w.stack[|w.stack| - 1].0 < g.n
  }

  lemma OpenUnder(g: Flow, w: Walk, parent: seq<int>, c: nat, p: int, u: nat, v: nat)
    requires Openable(g, w, parent, c, p) && u < g.n && v < g.n && (v == c || w.visit[v] >= 0)
    ensures Under(w.visit[c := |w.plist|], parent[c := p], u, v) <==>
            if v == c then u == c || (p >= 0 && Under(w.visit, parent, u, p)) else Under(w.visit, parent, u, v)
  {
    if p >= 0 { assert FrameAt(g, w, parent, |w.stack| - 1); }
    if v == c {
      UnderNew(g, w, parent, c, p, u);
    } else {
      UnderStable(g, w, parent, c, p, u, v);
    }
  }

  lemma OpenSub(g: Flow, w: Walk, w2: Walk, parent: seq<int>, c: nat, p: int, u: nat, v: nat)
    requires Openable(g, w, parent, c, p) && u < g.n && v < g.n && Sized(g, w2, parent[c := p])
    requires w2.visit == w.visit[c := |w.plist|] && w2.desc == w.desc[c := 1] && w2.index == w.index && |w2.plist| == |w.plist| + 1
    ensures SubAt(g, w2, parent[c := p], u, v)
  {
    assert SubAt(g, w, parent, u, v) && IndexAt(g, w, c) && VisitAt(g, w, u) && VisitAt(g, w, v);
    if w2.visit[u] >= 0 && w2.visit[v] >= 0 {
      OpenUnder(g, w, parent, c, p, u, v);
      if u == c && v != c {
        UnderUnvisited(g, w, parent, c, v);
      } else if v == c && u != c {
        if p >= 0 {
          assert FrameAt(g, w, parent, |w.stack| - 1);
          assert SubAt(g, w, parent, u, p) && VisitAt(g, w, p);
          if w.index[u] == -1 { TopIsLast(g, w, parent, u); }
        }
        assert w.index[u] == -1 ==> OnStack(w, u);
        assert SubAt(g, w, parent, u, u);
      }
    }
  }

  /** An unvisited block has nothing visited under it. */
  lemma {:induction false} UnderUnvisited(g: Flow, w: Walk, parent: seq<int>, c: nat, v: nat)
    requires Inv(g, w, parent) && c < g.n && w.visit[c] == -1 && v < g.n && w.visit[v] >= 0
    ensures !Under(w.visit, parent, c, v)
    decreases w.visit[v]
  {
    assert ParentAt(g, w, parent, v);
    if parent[v] >= 0 {
      UnderUnvisited(g, w, parent, c, parent[v]);
    }
  }

  lemma OpenEdge(g: Flow, w: Walk, w2: Walk, parent: seq<int>, c: nat, p: int, u: nat, i: nat)
    requires Openable(g, w, parent, c, p) && u < g.n && i < |g.outs[u]| && Sized(g, w2, parent[c := p])
    requires w2.visit == w.visit[c := |w.plist|] && w2.index == w.index && w2.labels[u][i] == w.labels[u][i]
    requires EdgeOk(g, w, parent, u, i)
    ensures EdgeOk(g, w2, parent[c := p], u, i)
  {
    var v := g.outs[u][i];
    OpenUnder(g, w, parent, c, p, u, v);
    OpenUnder(g, w, parent, c, p, v, u);
  }

  lemma OpenRootKeeps(g: Flow, w: Walk, parent: seq<int>, c: nat)
    requires Openable(g, w, parent, c, -1)
    ensures Inv(g, Open(w, c), parent)
  {
    var w2 := Open(w, c);
    assert ParentAt(g, w, parent, c);
    assert parent[c := -1] == parent;
    OpenNumbers(g, w, w2, parent, c);
    forall v: nat | v < g.n ensures ParentAt(g, w2, parent, v) {
      assert ParentAt(g, w, parent, v) && VisitAt(g, w, v);
      if parent[v] >= 0 { assert TreeEdge(g, w, parent[v], v); }
    }
    forall u: nat, v: nat | u < g.n && v < g.n ensures SubAt(g, w2, parent, u, v) {
      OpenSub(g, w, w2, parent, c, -1, u, v);
    }
    forall u: nat, i: nat | u < g.n && i < |g.outs[u]| ensures EdgeAt(g, w2, parent, u, i) {
      assert EdgeAt(g, w, parent, u, i);
      assert Followed(g, w2, u, i) <==> Followed(g, w, u, i);
      if Followed(g, w2, u, i) {
        OpenEdge(g, w, w2, parent, c, -1, u, i);
      }
    }
    assert IndexAt(g, w, c);
    assert FrameAt(g, w2, parent, 0);
    forall v: nat | v < g.n && w2.visit[v] >= 0 && w2.index[v] == -1 ensures OnStack(w2, v) {
      assert v != c ==> OnStack(w, v);
      assert w2.stack[0].0 == c;
    }
  }

  lemma OpenNumbers(g: Flow, w: Walk, w2: Walk, parent: seq<int>, c: nat)
    requires Inv(g, w, parent) && c < g.n && w.visit[c] == -1 && |w2.visit| == |w2.index| == |w2.order| == g.n
    requires w2.visit == w.visit[c := |w.plist|] && w2.plist == w.plist + [c] && w2.index == w.index && w2.order == w.order && w2.post == w.post
    requires |w2.stack| == |w.stack| + 1
    ensures VisitsOk(g, w2) && IndexOk(g, w2)
  {
    forall v: nat | v < g.n ensures VisitAt(g, w2, v) && IndexAt(g, w2, v) {
      assert VisitAt(g, w, v) && IndexAt(g, w, v);
    }
    forall k: nat | k < |w2.plist| ensures ListAt(g, w2, k) {
      if k < |w.plist| { assert ListAt(g, w, k); }
    }
    forall k: nat | w2.post <= k < g.n ensures OrderAt(g, w2, k) {
      assert OrderAt(g, w, k);
    }
  }

  // ----- following an edge to an unvisited block -----

  /** The next edge of the top frame: its block, its number and its target. */
  ghost predicate NextEdge(g: Flow, w: Walk, parent: seq<int>, u: nat, e: nat, v: nat) {
    && Inv(g, w, parent) && |w.stack| > 0 && w.stack[|w.stack| - 1] == (u, e)
    && u < g.n && e < |g.outs[u]| && g.outs[u][e] == v && v < g.n
  }

  lemma DescendKeeps(g: Flow, w: Walk, parent: seq<int>, u: nat, e: nat, c: nat)
    requires NextEdge(g, w, parent, u, e, c) && w.visit[c] == -1
    ensures Inv(g, Open(Advance(w, Tree), c), parent[c := u])
  {
    var w1 := Advance(w, Tree);
    var w2, parent2 := Open(w1, c), parent[c := u];
    assert FrameAt(g, w, parent, |w.stack| - 1) && IndexAt(g, w, c) && VisitAt(g, w, u);
    OpenNumbers(g, w, w2, parent, c);
    forall v: nat | v < g.n ensures ParentAt(g, w2, parent2, v) {
      DescendParent(g, w, parent, u, e, c, v);
    }
    forall x: nat, v: nat | x < g.n && v < g.n ensures SubAt(g, w2, parent2, x, v) {
      OpenSub(g, w, w2, parent, c, u, x, v);
    }
    forall x: nat, i: nat | x < g.n && i < |g.outs[x]| ensures EdgeAt(g, w2, parent2, x, i) {
      DescendEdge(g, w, parent, u, e, c, x, i);
    }
    forall k: nat | k < |w2.stack| ensures FrameAt(g, w2, parent2, k) {
      DescendFrame(g, w, parent, u, e, c, k);
    }
    forall v: nat | v < g.n && w2.visit[v] >= 0 && w2.index[v] == -1 ensures OnStack(w2, v) {
      if v == c {
        assert w2.stack[|w.stack|].0 == c;
      } else {
        assert OnStack(w, v);
        var k :| 0 <= k < |w.stack| && w.stack[k].0 == v;
        assert w2.stack[k].0 == v;
      }
    }
  }

  lemma DescendParent(g: Flow, w: Walk, parent: seq<int>, u: nat, e: nat, c: nat, v: nat)
    requires NextEdge(g, w, parent, u, e, c) && w.visit[c] == -1 && v < g.n
    ensures ParentAt(g, Open(Advance(w, Tree), c), parent[c := u], v)
  {
    var w2, parent2 := Open(Advance(w, Tree), c), parent[c := u];
    assert ParentAt(g, w, parent, v) && VisitAt(g, w, v) && VisitAt(g, w, u) && FrameAt(g, w, parent, |w.stack| - 1);
    if v == c {
      assert w2.labels[u][e] == Tree && g.outs[u][e] == c;
      assert TreeEdge(g, w2, u, c);
    } else if parent[v] >= 0 {
      var i :| 0 <= i < |g.outs[parent[v]]| && g.outs[parent[v]][i] == v && w.labels[parent[v]][i] == Tree;
      assert w2.labels[parent[v]][i] == Tree;
      assert TreeEdge(g, w2, parent[v], v);
    }
  }

  lemma DescendEdge(g: Flow, w: Walk, parent: seq<int>, u: nat, e: nat, c: nat, x: nat, i: nat)
    requires NextEdge(g, w, parent, u, e, c) && w.visit[c] == -1 && x < g.n && i < |g.outs[x]|
    ensures EdgeAt(g, Open(Advance(w, Tree), c), parent[c := u], x, i)
  {
    var w2, parent2 := Open(Advance(w, Tree), c), parent[c := u];
    assert EdgeAt(g, w, parent, x, i) && FrameAt(g, w, parent, |w.stack| - 1);
    assert VisitAt(g, w, u) && IndexAt(g, w, u) && IndexAt(g, w, c) && ParentAt(g, w, parent, c);
    if x == u && i == e {
      assert w2.stack[|w.stack| - 1] == (u, e + 1);
    } else {
      AdvanceFollows(g, w, parent, Tree, x, i);
      assert Followed(g, w2, x, i) <==> Followed(g, Advance(w, Tree), x, i) by {
        if Followed(g, Advance(w, Tree), x, i) && w.index[x] == -1 {
          var k :| 0 <= k < |w.stack| && Advance(w, Tree).stack[k].0 == x && i < Advance(w, Tree).stack[k].1;
          assert w2.stack[k].0 == x && i < w2.stack[k].1;
        }
      }
      if Followed(g, w2, x, i) {
        OpenEdge(g, w, w2, parent, c, u, x, i);
      }
    }
  }

  /** Advancing follows the next edge of the top frame and no other. */
  lemma AdvanceFollows(g: Flow, w: Walk, parent: seq<int>, lab: Label, x: nat, i: nat)
    requires Inv(g, w, parent) && |w.stack| > 0 && x < g.n && i < |g.outs[x]|
    requires var (u, e) := w.stack[|w.stack| - 1]; u < g.n && e < |g.outs[u]|
    ensures var (u, e) := w.stack[|w.stack| - 1];
      && !Followed(g, w, u, e) && Followed(g, Advance(w, lab), u, e)
      && ((x, i) != (u, e) ==> (Followed(g, Advance(w, lab), x, i) <==> Followed(g, w, x, i)))
  {
    var t := |w.stack| - 1;
    var (u, e) := w.stack[t];
    var w2 := Advance(w, lab);
    assert FrameAt(g, w, parent, t);
    assert w2.stack[t] == (u, e + 1);
    assert !Followed(g, w, u, e) by {
      if Followed(g, w, u, e) {
        var k :| 0 <= k < |w.stack| && w.stack[k].0 == u && e < w.stack[k].1;
        UniqueFrame(g, w, parent, k);
      }
    }
    if (x, i) != (u, e) && w.index[x] == -1 {
      if Followed(g, w2, x, i) {
        var k :| 0 <= k < |w2.stack| && w2.stack[k].0 == x && i < w2.stack[k].1;
        assert w.stack[k].0 == x && i < w.stack[k].1;
      }
      if Followed(g, w, x, i) {
        var k :| 0 <= k < |w.stack| && w.stack[k].0 == x && i < w.stack[k].1;
        assert w2.stack[k].0 == x && i < w2.stack[k].1;
      }
    }
  }

  /** Each open block has one frame. */
  lemma UniqueFrame(g: Flow, w: Walk, parent: seq<int>, k: nat)
    requires Inv(g, w, parent) && k < |w.stack|
    ensures k < |w.stack| - 1 ==> w.stack[k].0 != w.stack[|w.stack| - 1].0
  {
    FramesAscend(g, w, parent, k, |w.stack| - 1);
  }

  lemma DescendFrame(g: Flow, w: Walk, parent: seq<int>, u: nat, e: nat, c: nat, k: nat)
    requires NextEdge(g, w, parent, u, e, c) && w.visit[c] == -1 && k <= |w.stack|
    ensures FrameAt(g, Open(Advance(w, Tree), c), parent[c := u], k)
  {
    assert IndexAt(g, w, c);
    if k < |w.stack| {
      assert FrameAt(g, w, parent, k);
      var x := w.stack[k].0;
      assert VisitAt(g, w, x);
      if k + 1 < |w.stack| {
        assert FrameAt(g, w, parent, k + 1);
      }
    }
  }

  // ----- following an edge to a visited block -----

  /** The label of an edge to a visited block, as the program decides it. */
  function SeenLabel(w: Walk, u: nat, v: nat): Label
    requires u < |w.visit| == |w.index| && v < |w.visit|
  {
    if w.index[v] == -1 then Back else if w.visit[u] < w.visit[v] then Forward else Cross
  }

  lemma MarkKeeps(g: Flow, w: Walk, parent: seq<int>, u: nat, e: nat, v: nat)
    requires NextEdge(g, w, parent, u, e, v) && w.visit[v] >= 0
    ensures Inv(g, Advance(w, SeenLabel(w, u, v)), parent)
  {
    var w2 := Advance(w, SeenLabel(w, u, v));
    assert FrameAt(g, w, parent, |w.stack| - 1);
    forall x: nat | x < g.n ensures VisitAt(g, w2, x) && IndexAt(g, w2, x) && ParentAt(g, w2, parent, x) {
      assert VisitAt(g, w, x) && IndexAt(g, w, x);
      MarkParent(g, w, parent, u, e, v, x);
    }
    forall k: nat | k < |w2.plist| ensures ListAt(g, w2, k) { assert ListAt(g, w, k); }
    forall k: nat | w2.post <= k < g.n ensures OrderAt(g, w2, k) { assert OrderAt(g, w, k); }
    forall x: nat, y: nat | x < g.n && y < g.n ensures SubAt(g, w2, parent, x, y) { assert SubAt(g, w, parent, x, y); }
    forall x: nat, i: nat | x < g.n && i < |g.outs[x]| ensures EdgeAt(g, w2, parent, x, i) {
      MarkEdge(g, w, parent, u, e, v, x, i);
    }
    forall k: nat | k < |w2.stack| ensures FrameAt(g, w2, parent, k) {
      assert FrameAt(g, w, parent, k);
    }
    forall x: nat | x < g.n && w2.visit[x] >= 0 && w2.index[x] == -1 ensures OnStack(w2, x) {
      assert OnStack(w, x);
      var k :| 0 <= k < |w.stack| && w.stack[k].0 == x;
      assert w2.stack[k].0 == x;
    }
  }

  lemma MarkParent(g: Flow, w: Walk, parent: seq<int>, u: nat, e: nat, v: nat, x: nat)
    requires NextEdge(g, w, parent, u, e, v) && w.visit[v] >= 0 && x < g.n
    ensures ParentAt(g, Advance(w, SeenLabel(w, u, v)), parent, x)
  {
    var w2 := Advance(w, SeenLabel(w, u, v));
    assert ParentAt(g, w, parent, x);
    if parent[x] >= 0 {
      var p := parent[x];
      var i :| 0 <= i < |g.outs[p]| && g.outs[p][i] == x && w.labels[p][i] == Tree;
      assert FrameAt(g, w, parent, |w.stack| - 1) && EdgeAt(g, w, parent, u, e);
      AdvanceFollows(g, w, parent, SeenLabel(w, u, v), u, e);
      assert w2.labels[p][i] == Tree;
      assert TreeEdge(g, w2, p, x);
    }
  }

  lemma MarkEdge(g: Flow, w: Walk, parent: seq<int>, u: nat, e: nat, v: nat, x: nat, i: nat)
    requires NextEdge(g, w, parent, u, e, v) && w.visit[v] >= 0 && x < g.n && i < |g.outs[x]|
    ensures EdgeAt(g, Advance(w, SeenLabel(w, u, v)), parent, x, i)
  {
    assert EdgeAt(g, w, parent, x, i) && FrameAt(g, w, parent, |w.stack| - 1);
    AdvanceFollows(g, w, parent, SeenLabel(w, u, v), x, i);
    if x == u && i == e {
      assert SubAt(g, w, parent, u, v) && SubAt(g, w, parent, v, u) && VisitAt(g, w, u) && VisitAt(g, w, v);
      if w.index[v] == -1 {
        TopIsLast(g, w, parent, v);
      }
    }
  }

  // ----- closing a block -----

  ghost predicate Closable(g: Flow, w: Walk, parent: seq<int>, u: nat) {
    Inv(g, w, parent) && |w.stack| > 0 && u < g.n && w.stack[|w.stack| - 1] == (u, |g.outs[u]|) && 1 <= w.post
  }

  lemma CloseKeeps(g: Flow, w: Walk, parent: seq<int>, u: nat)
    requires Closable(g, w, parent, u) && forall k :: 0 <= k < |w.stack| ==> w.stack[k].0 < g.n
    ensures Inv(g, Close(w), parent)
  {
    var w2, t := Close(w), |w.stack| - 1;
    assert FrameAt(g, w, parent, t);
    forall x: nat | x < g.n ensures VisitAt(g, w2, x) && IndexAt(g, w2, x) && ParentAt(g, w2, parent, x) {
      assert VisitAt(g, w, x) && IndexAt(g, w, x) && ParentAt(g, w, parent, x);
      assert parent[x] >= 0 ==> TreeEdge(g, w, parent[x], x);
    }
    forall k: nat | k < |w2.plist| ensures ListAt(g, w2, k) { assert ListAt(g, w, k); }
    forall k: nat | w2.post <= k < g.n ensures OrderAt(g, w2, k) {
      if k >= w.post {
        assert OrderAt(g, w, k);
      }
    }
    forall x: nat, y: nat | x < g.n && y < g.n ensures SubAt(g, w2, parent, x, y) { CloseSub(g, w, parent, u, x, y); }
    forall x: nat, i: nat | x < g.n && i < |g.outs[x]| ensures EdgeAt(g, w2, parent, x, i) { CloseEdge(g, w, parent, u, x, i); }
    forall k: nat | k < |w2.stack| ensures FrameAt(g, w2, parent, k) { CloseFrame(g, w, parent, u, k); }
    forall x: nat | x < g.n && w2.visit[x] >= 0 && w2.index[x] == -1 ensures OnStack(w2, x) {
      assert OnStack(w, x);
      var k :| 0 <= k < |w.stack| && w.stack[k].0 == x;
      assert w2.stack[k].0 == x;
    }
  }

  lemma CloseSub(g: Flow, w: Walk, parent: seq<int>, u: nat, x: nat, y: nat)
    requires Closable(g, w, parent, u) && x < g.n && y < g.n && forall k :: 0 <= k < |w.stack| ==> w.stack[k].0 < g.n
    ensures SubAt(g, Close(w), parent, x, y)
  {
    var t := |w.stack| - 1;
    assert SubAt(g, w, parent, x, y) && FrameAt(g, w, parent, t) && VisitAt(g, w, x) && VisitAt(g, w, y) && VisitAt(g, w, u);
    if t > 0 {
      assert FrameAt(g, w, parent, t - 1);
      UniqueFrame(g, w, parent, t - 1);
    }
    if x == u && w.visit[y] >= 0 && w.index[y] == -1 {
      TopIsLast(g, w, parent, y);
    }
  }

  lemma CloseFrame(g: Flow, w: Walk, parent: seq<int>, u: nat, k: nat)
    requires Closable(g, w, parent, u) && k < |w.stack| - 1 && forall k :: 0 <= k < |w.stack| ==> w.stack[k].0 < g.n
    ensures FrameAt(g, Close(w), parent, k)
  {
    var t := |w.stack| - 1;
    assert FrameAt(g, w, parent, k) && FrameAt(g, w, parent, t) && FrameAt(g, w, parent, t - 1);
    UniqueFrame(g, w, parent, k);
    if k < t - 1 {
      FramesAscend(g, w, parent, k, t - 1);
    }
  }

  lemma CloseEdge(g: Flow, w: Walk, parent: seq<int>, u: nat, x: nat, i: nat)
    requires Closable(g, w, parent, u) && x < g.n && i < |g.outs[x]| && forall k :: 0 <= k < |w.stack| ==> w.stack[k].0 < g.n
    ensures EdgeAt(g, Close(w), parent, x, i)
  {
    var w2, t, v := Close(w), |w.stack| - 1, g.outs[x][i];
    assert EdgeAt(g, w, parent, x, i) && FrameAt(g, w, parent, t);
    assert Followed(g, w2, x, i) <==> Followed(g, w, x, i) by {
      if x == u {
        assert w.stack[t].0 == u && i < w.stack[t].1;
      } else if w.index[x] == -1 {
        if Followed(g, w, x, i) {
          var k :| 0 <= k < |w.stack| && w.stack[k].0 == x && i < w.stack[k].1;
          assert w2.stack[k].0 == x && i < w2.stack[k].1;
        }
        if Followed(g, w2, x, i) {
          var k :| 0 <= k < |w2.stack| && w2.stack[k].0 == x && i < w2.stack[k].1;
          assert w.stack[k].0 == x && i < w.stack[k].1;
        }
      }
    }
    if Followed(g, w, x, i) {
      CloseFollowed(g, w, parent, u, x, i);
    }
  }

  lemma CloseFollowed(g: Flow, w: Walk, parent: seq<int>, u: nat, x: nat, i: nat)
    requires Closable(g, w, parent, u) && x < g.n && i < |g.outs[x]| && forall k :: 0 <= k < |w.stack| ==> w.stack[k].0 < g.n
    requires EdgeOk(g, w, parent, x, i)
    ensures EdgeOk(g, Close(w), parent, x, i)
  {
    var v := g.outs[x][i];
    assert FrameAt(g, w, parent, |w.stack| - 1) && IndexAt(g, w, v) && IndexAt(g, w, x) && IndexAt(g, w, u);
    if x == u && w.index[v] == -1 {
      TopIsLast(g, w, parent, v);
    }
    if v == u {
      assert SubAt(g, w, parent, u, x) && VisitAt(g, w, u) && VisitAt(g, w, x);
      if w.index[x] == -1 {
        TopIsLast(g, w, parent, x);
      }
    }
  }

  // ----- each block has one tree edge into it -----

  /** The `i`-th edge of `u` is a tree edge to `v`. */
  ghost predicate TreeTo(g: Flow, w: Walk, u: nat, i: nat, v: nat)
    requires |w.labels| == |g.outs|
  {
    u < |g.outs| && i < |g.outs[u]| == |w.labels[u]| && g.outs[u][i] == v && w.labels[u][i] == Tree
  }

  /** Two tree edges to one block are the same edge. */
  ghost predicate OnceAt(g: Flow, w: Walk, u: nat, i: nat, x: nat, k: nat, v: nat)
    requires |w.labels| == |g.outs|
  {
    TreeTo(g, w, u, i, v) && TreeTo(g, w, x, k, v) ==> u == x && i == k
  }

  ghost predicate TreeOnce(g: Flow, w: Walk)
    requires |w.labels| == |g.outs|
  {
    forall u: nat, i: nat, x: nat, k: nat, v: nat :: OnceAt(g, w, u, i, x, k, v)
  }

  lemma UnvisitedHasNone(g: Flow, w: Walk, parent: seq<int>, u: nat, i: nat, v: nat)
    requires Inv(g, w, parent) && v < g.n && w.visit[v] == -1
    ensures !TreeTo(g, w, u, i, v)
  {
    if u < g.n && i < |g.outs[u]| { assert EdgeAt(g, w, parent, u, i); }
  }

  /** A new tree edge leads to a block that had none. */
  lemma DescendOnce(g: Flow, w: Walk, parent: seq<int>, u: nat, e: nat, c: nat)
    requires NextEdge(g, w, parent, u, e, c) && w.visit[c] == -1 && TreeOnce(g, w)
    ensures TreeOnce(g, Open(Advance(w, Tree), c))
  {
    var w2 := Open(Advance(w, Tree), c);
    forall x: nat, i: nat, y: nat, k: nat, v: nat ensures OnceAt(g, w2, x, i, y, k, v) {
      assert OnceAt(g, w, x, i, y, k, v);
      UnvisitedHasNone(g, w, parent, x, i, c);
      UnvisitedHasNone(g, w, parent, y, k, c);
      DescendTreeTo(g, w, parent, u, e, c, x, i, v);
      DescendTreeTo(g, w, parent, u, e, c, y, k, v);
    }
  }

  lemma DescendTreeTo(g: Flow, w: Walk, parent: seq<int>, u: nat, e: nat, c: nat, x: nat, i: nat, v: nat)
    requires NextEdge(g, w, parent, u, e, c) && w.visit[c] == -1
    ensures TreeTo(g, Open(Advance(w, Tree), c), x, i, v) ==> TreeTo(g, w, x, i, v) || (x == u && i == e && v == c)
  {
  }

  lemma MarkOnce(g: Flow, w: Walk, parent: seq<int>, u: nat, e: nat, v: nat)
    requires NextEdge(g, w, parent, u, e, v) && w.visit[v] >= 0 && TreeOnce(g, w)
    ensures TreeOnce(g, Advance(w, SeenLabel(w, u, v)))
  {
    var w2 := Advance(w, SeenLabel(w, u, v));
    forall x: nat, i: nat, y: nat, k: nat, z: nat ensures OnceAt(g, w2, x, i, y, k, z) {
      assert OnceAt(g, w, x, i, y, k, z);
      MarkTreeTo(g, w, parent, u, e, v, x, i, z);
      MarkTreeTo(g, w, parent, u, e, v, y, k, z);
    }
  }

  lemma MarkTreeTo(g: Flow, w: Walk, parent: seq<int>, u: nat, e: nat, v: nat, x: nat, i: nat, z: nat)
    requires NextEdge(g, w, parent, u, e, v) && w.visit[v] >= 0
    ensures TreeTo(g, Advance(w, SeenLabel(w, u, v)), x, i, z) ==> TreeTo(g, w, x, i, z)
  {
  }

  lemma SameLabelsOnce(g: Flow, w: Walk, w2: Walk)
    requires |w.labels| == |g.outs| && w2.labels == w.labels && TreeOnce(g, w)
    ensures TreeOnce(g, w2)
  {
    forall x: nat, i: nat, y: nat, k: nat, v: nat ensures OnceAt(g, w2, x, i, y, k, v) { assert OnceAt(g, w, x, i, y, k, v); }
  }

  // ----- one tree of the walk -----

  /** What a finished or unfinished tree leaves alone: blocks visited before it. */
  ghost predicate Extends(g: Flow, w0: Walk, parent0: seq<int>, w: Walk, parent: seq<int>)
    requires Sized(g, w0, parent0) && Sized(g, w, parent)
  {
    forall v: nat {:trigger w.visit[v]} :: v < g.n && w0.visit[v] >= 0 ==> w.visit[v] == w0.visit[v] && w.index[v] == w0.index[v] && parent[v] == parent0[v]
  }

  /** New blocks are under `start`, the bottom of the stack or, at the end, the last block closed. */
  ghost predicate TreeOf(g: Flow, w0: Walk, w: Walk, parent: seq<int>, start: nat)
    requires |w0.visit| == g.n && Sized(g, w, parent)
  {
    && start < g.n && w.visit[start] >= 0 && parent[start] == -1
    && (forall v: nat {:trigger Under(w.visit, parent, start, v)} :: v < g.n && w0.visit[v] == -1 && w.visit[v] >= 0 ==> Under(w.visit, parent, start, v))
    && if |w.stack| > 0 then w.stack[0].0 == start else w.index[start] == w.post
  }

  /** The edges the top frame has still to follow. */
  ghost function EdgesLeft(g: Flow, w: Walk): int {
    if |w.stack| > 0 && w.stack[|w.stack| - 1].0 < |g.outs| then |g.outs[w.stack[|w.stack| - 1].0]| - w.stack[|w.stack| - 1].1 else 0
  }

  /** Between trees every visited block is closed. */
  lemma IdleIsClosed(g: Flow, w: Walk, parent: seq<int>)
    requires Inv(g, w, parent) && w.stack == []
    ensures forall v: nat {:trigger w.index[v]} {:trigger w.visit[v]} :: v < g.n && w.visit[v] >= 0 ==> w.index[v] != -1
  {
    forall v: nat | v < g.n && w.visit[v] >= 0 ensures w.index[v] != -1 {
      assert w.index[v] == -1 ==> OnStack(w, v);
    }
  }

  /** Walks the whole tree of the unvisited block `start`. */
  method WalkTree(g: Flow, w0: Walk, start: nat, ghost parent0: seq<int>) returns (w: Walk, ghost parent: seq<int>)
    requires Inv(g, w0, parent0) && w0.stack == [] && start < g.n && w0.visit[start] == -1 && TreeOnce(g, w0)
    ensures Inv(g, w, parent) && w.stack == [] && |w.plist| > |w0.plist| && TreeOnce(g, w)
    ensures Extends(g, w0, parent0, w, parent) && TreeOf(g, w0, w, parent, start)
  {
    assert ParentAt(g, w0, parent0, start);
    OpenRootKeeps(g, w0, parent0, start);
    w, parent := Open(w0, start), parent0;
    IdleIsClosed(g, w0, parent0);
    StartsTree(g, w0, parent0, start);
    SameLabelsOnce(g, w0, w);
    while |w.stack| > 0
      invariant Inv(g, w, parent) && |w.plist| > |w0.plist| && TreeOnce(g, w)
      invariant Extends(g, w0, parent0, w, parent) && TreeOf(g, w0, w, parent, start)
      decreases g.n - |w.plist|, |w.stack|, EdgesLeft(g, w)
    {
      var t := |w.stack| - 1;
      var (u, e) := w.stack[t];
      assert FrameAt(g, w, parent, t);
      VisitRoom(g, w);
      if e >= |g.outs[u]| {
        forall k: nat | k < |w.stack| ensures w.stack[k].0 < g.n { assert FrameAt(g, w, parent, k); }
        FramesBounded(g, w, parent);
        CloseKeeps(g, w, parent, u);
        CloseInTree(g, w0, parent0, w, parent, start, u);
        SameLabelsOnce(g, w, Close(w));
        w := Close(w);
      } else {
        var v := g.outs[u][e];
        assert VisitAt(g, w, v);
        if w.visit[v] == -1 {
          DescendKeeps(g, w, parent, u, e, v);
          DescendInTree(g, w0, parent0, w, parent, start, u, e, v);
          DescendOnce(g, w, parent, u, e, v);
          w, parent := Open(Advance(w, Tree), v), parent[v := u];
        } else {
          MarkKeeps(g, w, parent, u, e, v);
          MarkInTree(g, w0, parent0, w, parent, start, u, e, v);
          MarkOnce(g, w, parent, u, e, v);
          w := Advance(w, SeenLabel(w, u, v));
        }
      }
    }
  }

  lemma StartsTree(g: Flow, w0: Walk, parent0: seq<int>, start: nat)
    requires Inv(g, w0, parent0) && w0.stack == [] && start < g.n && w0.visit[start] == -1
    ensures Sized(g, Open(w0, start), parent0)
    ensures Extends(g, w0, parent0, Open(w0, start), parent0) && TreeOf(g, w0, Open(w0, start), parent0, start)
  {
    assert ParentAt(g, w0, parent0, start);
    var w := Open(w0, start);
    forall v: nat | v < g.n && w0.visit[v] == -1 && w.visit[v] >= 0 ensures Under(w.visit, parent0, start, v) {
      assert v == start;
    }
  }

  /** There is a post-order number left for every open block. */
  lemma FramesBounded(g: Flow, w: Walk, parent: seq<int>)
    requires Inv(g, w, parent) && |w.stack| > 0
    ensures 1 <= w.post
  {
    VisitRoom(g, w);
  }

  lemma CloseInTree(g: Flow, w0: Walk, parent0: seq<int>, w: Walk, parent: seq<int>, start: nat, u: nat)
    requires Sized(g, w0, parent0) && Closable(g, w, parent, u) && (forall k :: 0 <= k < |w.stack| ==> w.stack[k].0 < g.n)
    requires Inv(g, Close(w), parent) && Extends(g, w0, parent0, w, parent) && TreeOf(g, w0, w, parent, start)
    requires forall v: nat :: v < g.n && w0.visit[v] >= 0 ==> w0.index[v] != -1
    ensures Extends(g, w0, parent0, Close(w), parent) && TreeOf(g, w0, Close(w), parent, start)
  {
    assert FrameAt(g, w, parent, |w.stack| - 1);
    var w2 := Close(w);
    forall v: nat | v < g.n && w0.visit[v] >= 0
      ensures w2.visit[v] == w0.visit[v] && w2.index[v] == w0.index[v] && parent[v] == parent0[v]
    {
      assert w.visit[v] == w0.visit[v] && w.index[v] != -1;
      assert v != w.stack[|w.stack| - 1].0;
    }
    forall v: nat | v < g.n && w0.visit[v] == -1 && w2.visit[v] >= 0 ensures Under(w2.visit, parent, start, v) {
      assert Under(w.visit, parent, start, v);
    }
  }

  lemma MarkInTree(g: Flow, w0: Walk, parent0: seq<int>, w: Walk, parent: seq<int>, start: nat, u: nat, e: nat, v: nat)
    requires Sized(g, w0, parent0) && NextEdge(g, w, parent, u, e, v) && w.visit[v] >= 0
    requires Extends(g, w0, parent0, w, parent) && TreeOf(g, w0, w, parent, start)
    ensures Sized(g, Advance(w, SeenLabel(w, u, v)), parent)
    ensures Extends(g, w0, parent0, Advance(w, SeenLabel(w, u, v)), parent) && TreeOf(g, w0, Advance(w, SeenLabel(w, u, v)), parent, start)
  {
    var w2 := Advance(w, SeenLabel(w, u, v));
    forall x: nat | x < g.n && w0.visit[x] == -1 && w2.visit[x] >= 0 ensures Under(w2.visit, parent, start, x) {
      assert Under(w.visit, parent, start, x);
    }
  }

  lemma DescendInTree(g: Flow, w0: Walk, parent0: seq<int>, w: Walk, parent: seq<int>, start: nat, u: nat, e: nat, c: nat)
    requires Inv(g, w0, parent0) && w0.stack == [] && NextEdge(g, w, parent, u, e, c) && w.visit[c] == -1
    requires Extends(g, w0, parent0, w, parent) && TreeOf(g, w0, w, parent, start)
    ensures Sized(g, Open(Advance(w, Tree), c), parent[c := u])
    ensures Extends(g, w0, parent0, Open(Advance(w, Tree), c), parent[c := u]) && TreeOf(g, w0, Open(Advance(w, Tree), c), parent[c := u], start)
  {
    var w2, parent2 := Open(Advance(w, Tree), c), parent[c := u];
    assert FrameAt(g, w, parent, |w.stack| - 1) && FrameAt(g, w, parent, 0) && VisitAt(g, w, u);
    forall v: nat | v < g.n && w0.visit[v] == -1 && w2.visit[v] >= 0 ensures Under(w2.visit, parent2, start, v) {
      if v != c {
        assert Under(w.visit, parent, start, v);
        UnderStable(g, w, parent, c, u, start, v);
      } else {
        UnderNew(g, w, parent, c, u, start);
        assert SubAt(g, w, parent, start, u);
        FramesAscend(g, w, parent, 0, |w.stack| - 1);
      }
    }
  }

  // ----- reachability -----

  /** A way along the edges of the graph. */
  ghost predicate Way(g: Flow, p: seq<nat>, u: nat, v: nat)
    requires |g.outs| == g.n
  {
    && |p| > 0 && p[0] == u && p[|p| - 1] == v && (forall i :: 0 <= i < |p| ==> p[i] < g.n)
    && (forall i :: 0 <= i < |p| - 1 ==> p[i + 1] in g.outs[p[i]])
  }

  ghost predicate Reach(g: Flow, u: nat, v: nat)
    requires |g.outs| == g.n
  {
    exists p :: Way(g, p, u, v)
  }

  lemma ReachSelf(g: Flow, u: nat)
    requires |g.outs| == g.n && u < g.n
    ensures Reach(g, u, u)
  {
    assert Way(g, [u], u, u);
  }

  lemma ReachStep(g: Flow, u: nat, v: nat, x: nat)
    requires |g.outs| == g.n && Reach(g, u, v) && v < g.n && x in g.outs[v] && x < g.n
    ensures Reach(g, u, x)
  {
    var p :| Way(g, p, u, v);
    assert Way(g, p + [x], u, x);
  }

  lemma ReachTrans(g: Flow, u: nat, v: nat, x: nat)
    requires |g.outs| == g.n && Reach(g, u, v) && Reach(g, v, x)
    ensures Reach(g, u, x)
  {
    var p :| Way(g, p, u, v);
    var q :| Way(g, q, v, x);
    var r := p + q[1..];
    forall i | 0 <= i < |r| - 1 ensures r[i + 1] in g.outs[r[i]] {
      if i >= |p| - 1 {
        assert r[i] == q[i - (|p| - 1)] && r[i + 1] == q[i + 1 - (|p| - 1)];
      }
    }
    assert Way(g, r, u, x);
  }

  lemma {:induction false} UnderReach(g: Flow, w: Walk, parent: seq<int>, u: nat, v: nat)
    requires Inv(g, w, parent) && u < g.n && v < g.n && w.visit[v] >= 0 && Under(w.visit, parent, u, v)
    ensures Reach(g, u, v)
    decreases w.visit[v]
  {
    if u == v {
      ReachSelf(g, u);
    } else {
      assert ParentAt(g, w, parent, v);
      var p := parent[v];
      UnderReach(g, w, parent, u, p);
      assert TreeEdge(g, w, p, v);
      ReachStep(g, u, p, v);
    }
  }

  /** Between trees the visited blocks are closed under edges. */
  lemma {:induction false} ClosedUnderWays(g: Flow, w: Walk, parent: seq<int>, p: seq<nat>, u: nat, v: nat)
    requires Inv(g, w, parent) && w.stack == [] && u < g.n && w.visit[u] >= 0 && Way(g, p, u, v)
    ensures v < g.n && w.visit[v] >= 0
    decreases |p|
  {
    if |p| > 1 {
      var q, x := p[..|p| - 1], p[|p| - 2];
      ClosedUnderWays(g, w, parent, q, u, x);
      IdleIsClosed(g, w, parent);
      assert v in g.outs[x];
      var i :| 0 <= i < |g.outs[x]| && g.outs[x][i] == v;
      assert EdgeAt(g, w, parent, x, i);
    }
  }

  lemma VisitedReach(g: Flow, w: Walk, parent: seq<int>, u: nat, v: nat)
    requires Inv(g, w, parent) && w.stack == [] && u < g.n && w.visit[u] >= 0 && Reach(g, u, v)
    ensures v < g.n && w.visit[v] >= 0
  {
    var p :| Way(g, p, u, v);
    ClosedUnderWays(g, w, parent, p, u, v);
  }

  /** A block reached from another has an in-edge. */
  lemma ReachedHasPredecessor(g: Flow, u: nat, v: nat)
    requires g.Valid() && u < g.n && v < g.n && u != v && Reach(g, u, v)
    ensures g.ins[v] != []
  {
    var p :| Way(g, p, u, v);
    assert v in g.outs[p[|p| - 2]];
    assert p[|p| - 2] in g.ins[v];
  }

  // ----- which blocks are listed -----

  /** The blocks of the list that none before them leads to. */
  ghost function Kept(g: Flow, list: seq<nat>): (kept: seq<nat>)
    requires |g.outs| == g.n
  {
    if list == [] then []
    else
      var kept, r := Kept(g, list[..|list| - 1]), list[|list| - 1];
      if ReachedFrom(g, kept, r) then kept else kept + [r]
  }

  /** The first block that the list does not reach. */
  ghost predicate FirstUnreached(g: Flow, roots: seq<nat>, v: nat)
    requires |g.outs| == g.n
  {
    v < g.n && !ReachedFrom(g, roots, v) && forall x: nat :: x < v ==> ReachedFrom(g, roots, x)
  }

  /** Beyond `base`, each block is the first that those before it do not reach. */
  ghost predicate Scanned(g: Flow, base: seq<nat>, roots: seq<nat>)
    requires |g.outs| == g.n
  {
    base <= roots && forall k: nat :: |base| <= k < |roots| ==> FirstUnreached(g, roots[..k], roots[k])
  }

  lemma KeptMore(g: Flow, list: seq<nat>, j: nat)
    requires |g.outs| == g.n && j < |list|
    ensures Kept(g, list[..j + 1]) == if ReachedFrom(g, Kept(g, list[..j]), list[j]) then Kept(g, list[..j]) else Kept(g, list[..j]) + [list[j]]
  {
    assert list[..j + 1][..j] == list[..j];
  }

  /** Blocks that are reached already add nothing. */
  lemma {:induction false} KeptSkips(g: Flow, list: seq<nat>, i: nat, j: nat)
    requires |g.outs| == g.n && i <= j <= |list| && forall k :: i <= k < j ==> ReachedFrom(g, Kept(g, list[..i]), list[k])
    ensures Kept(g, list[..j]) == Kept(g, list[..i])
    decreases j
  {
    if i < j {
      KeptSkips(g, list, i, j - 1);
      KeptMore(g, list, j - 1);
    }
  }

  /** Of an independent list every block is kept. */
  lemma {:induction false} IndependentIsKept(g: Flow, list: seq<nat>)
    requires |g.outs| == g.n && Independent(g, list)
    ensures Kept(g, list) == list
  {
    if list != [] {
      var n := |list| - 1;
      LastIsUnreached(g, list[..n], list[n], list);
      IndependentIsKept(g, list[..n]);
      assert list == list[..n] + [list[n]];
    }
  }

  lemma LastIsUnreached(g: Flow, init: seq<nat>, last: nat, list: seq<nat>)
    requires |g.outs| == g.n && Independent(g, list) && list == init + [last]
    ensures Independent(g, init) && !ReachedFrom(g, init, last)
  {
    forall j, k | 0 <= j < k < |init| ensures !Reach(g, init[j], init[k]) { assert list[j] == init[j] && list[k] == init[k]; }
    forall j | 0 <= j < |init| ensures !Reach(g, init[j], last) { assert list[j] == init[j] && list[|init|] == last; }
  }

  lemma {:induction false} KeptIsListed(g: Flow, list: seq<nat>, r: nat)
    requires |g.outs| == g.n && r in Kept(g, list)
    ensures r in list
  {
    var n := |list| - 1;
    if r in Kept(g, list[..n]) {
      KeptIsListed(g, list[..n], r);
      assert r in list[..n];
    }
  }

  // ----- one pass over the roots -----

  lemma {:induction false} UnderExtends(g: Flow, w0: Walk, parent0: seq<int>, w: Walk, parent: seq<int>, u: int, v: nat)
    requires Inv(g, w0, parent0) && Sized(g, w, parent) && Extends(g, w0, parent0, w, parent) && v < g.n && w0.visit[v] >= 0
    ensures Under(w.visit, parent, u, v) <==> Under(w0.visit, parent0, u, v)
    decreases w0.visit[v]
  {
    assert ParentAt(g, w0, parent0, v);
    assert w.visit[v] == w0.visit[v];
    if parent0[v] >= 0 {
      UnderExtends(g, w0, parent0, w, parent, u, parent0[v]);
      assert w.visit[parent0[v]] == w0.visit[parent0[v]];
    }
  }

  ghost predicate HasRoot(w: Walk, parent: seq<int>, roots: seq<nat>, v: nat) {
    exists k :: 0 <= k < |roots| && Under(w.visit, parent, roots[k], v)
  }

  /** The roots walked so far: every visited block is under one, none is reached from an earlier one, the last was closed last. */
  ghost predicate RootsOk(g: Flow, w: Walk, parent: seq<int>, roots: seq<nat>)
    requires Sized(g, w, parent)
  {
    && (forall k :: 0 <= k < |roots| ==> roots[k] < g.n && w.visit[roots[k]] >= 0 && parent[roots[k]] == -1)
    && (forall v: nat :: v < g.n && w.visit[v] >= 0 ==> HasRoot(w, parent, roots, v))
    && Independent(g, roots)
    && (|roots| > 0 ==> w.index[roots[|roots| - 1]] == w.post)
  }

  /** No block of the list is reached from an earlier one. */
  ghost predicate Independent(g: Flow, roots: seq<nat>)
    requires |g.outs| == g.n
  {
    forall j, k :: 0 <= j < k < |roots| ==> !Reach(g, roots[j], roots[k])
  }

  ghost predicate ReachedFrom(g: Flow, roots: seq<nat>, v: nat)
    requires |g.outs| == g.n
  {
    exists k :: 0 <= k < |roots| && Reach(g, roots[k], v)
  }

  /** Every block is reached from the list. */
  ghost predicate Covers(g: Flow, roots: seq<nat>)
    requires |g.outs| == g.n
  {
    forall v: nat :: v < g.n ==> ReachedFrom(g, roots, v)
  }

  lemma TreeAdded(g: Flow, w0: Walk, parent0: seq<int>, w: Walk, parent: seq<int>, roots: seq<nat>, start: nat)
    requires Inv(g, w0, parent0) && w0.stack == [] && Inv(g, w, parent) && w.stack == [] && RootsOk(g, w0, parent0, roots)
    requires start < g.n && w0.visit[start] == -1 && Extends(g, w0, parent0, w, parent) && TreeOf(g, w0, w, parent, start)
    ensures RootsOk(g, w, parent, roots + [start])
  {
    var roots2 := roots + [start];
    forall v: nat | v < g.n && w.visit[v] >= 0 ensures HasRoot(w, parent, roots2, v) {
      if w0.visit[v] >= 0 {
        assert HasRoot(w0, parent0, roots, v);
        var k :| 0 <= k < |roots| && Under(w0.visit, parent0, roots[k], v);
        UnderExtends(g, w0, parent0, w, parent, roots[k], v);
        assert roots2[k] == roots[k];
      } else {
        assert VisitAt(g, w0, v);
        assert Under(w.visit, parent, start, v);
        assert roots2[|roots|] == start;
      }
    }
    forall j, k | 0 <= j < k < |roots2| ensures !Reach(g, roots2[j], roots2[k]) {
      if k == |roots| && Reach(g, roots[j], start) {
        VisitedReach(g, w0, parent0, roots[j], start);
      }
    }
  }

  /** Reached blocks of a list all of which are visited are visited. */
  lemma CoveredIsVisited(g: Flow, w: Walk, parent: seq<int>, roots: seq<nat>)
    requires Inv(g, w, parent) && w.stack == [] && Covers(g, roots)
    requires forall k :: 0 <= k < |roots| ==> roots[k] < g.n && w.visit[roots[k]] >= 0
    ensures |w.plist| == g.n
  {
    forall v: nat | v < g.n ensures w.visit[v] >= 0 {
      assert ReachedFrom(g, roots, v);
      var k :| 0 <= k < |roots| && Reach(g, roots[k], v);
      VisitedReach(g, w, parent, roots[k], v);
    }
    VisitRoom(g, w);
  }

  /** A block that was not reached from any walked root is unvisited. */
  lemma UnreachedIsUnvisited(g: Flow, w: Walk, parent: seq<int>, roots: seq<nat>, v: nat)
    requires Inv(g, w, parent) && RootsOk(g, w, parent, roots) && v < g.n
    requires forall k :: 0 <= k < |roots| ==> !Reach(g, roots[k], v)
    ensures w.visit[v] == -1
  {
    assert VisitAt(g, w, v);
    if w.visit[v] >= 0 {
      assert HasRoot(w, parent, roots, v);
      var k :| 0 <= k < |roots| && Under(w.visit, parent, roots[k], v);
      UnderReach(g, w, parent, roots[k], v);
    }
  }

  ghost predicate InRange(g: Flow, roots: seq<nat>) {
    forall k :: 0 <= k < |roots| ==> roots[k] < g.n
  }

  /** Where a pass stands in its list: the walked roots in front, the unexamined rest behind, `j` of the list examined. */
  ghost predicate ListAtPass(g: Flow, w: Walk, rootlist0: seq<nat>, rootlist: seq<nat>, roots: seq<nat>, j: nat, extra: bool)
    requires |w.visit| == |g.outs| == g.n && InRange(g, rootlist0)
  {
    && j <= |rootlist0| && rootlist == roots + rootlist0[j..] && (extra ==> j == |rootlist0|)
    && (forall i :: 0 <= i < j ==> w.visit[rootlist0[i]] >= 0)
    && (Covers(g, rootlist0) ==> !extra && (j > 0 && j == |rootlist0| ==> |roots| > 0 && roots[|roots| - 1] == rootlist0[j - 1]))
    && (!extra ==> forall k :: 0 <= k < |roots| ==> roots[k] in rootlist0[..j])
    && (Independent(g, rootlist0) ==> if extra then rootlist0 < roots else roots == rootlist0[..j])
  }

  /**
   The next root of the list that is still unvisited; visited ones are dropped
   from the list.  `orderly` says that the list in order names unvisited blocks only.
   */
  method NextRoot(visit: seq<int>, list: seq<nat>, rootlist0: seq<nat>, rootindex: nat, ghost roots: seq<nat>, ghost j0: nat, ghost orderly: bool)
    returns (startbl: int, rootlist: seq<nat>, ghost j: nat)
    requires (forall k :: 0 <= k < |visit| ==> visit[k] >= -1) && (forall k :: 0 <= k < |list| ==> list[k] < |visit|)
    requires j0 <= |list| && rootlist0 == roots + list[j0..] && rootindex == |roots|
    requires forall i :: 0 <= i < j0 ==> visit[list[i]] >= 0
    requires orderly ==> forall i :: j0 <= i < |list| && roots == list[..i] ==> visit[list[i]] == -1
    requires orderly ==> roots == list[..j0]
    ensures j0 <= j <= |list|
    ensures startbl == -1 ==> j == |list| && rootlist == roots
    ensures startbl != -1 ==> j0 < j && startbl == list[j - 1] && visit[startbl] == -1 && rootlist == roots + [startbl] + list[j..]
    ensures forall i :: 0 <= i < (if startbl == -1 then j else j - 1) ==> visit[list[i]] >= 0
    ensures orderly ==> roots == list[..if startbl == -1 then j else j - 1]
  {
    startbl, rootlist, j := -1, rootlist0, j0;
    var index := rootindex;
    while index < |rootlist|
      invariant j0 <= j <= |list| && index == |roots| && rootlist == roots + list[j..] && startbl == -1
      invariant forall i :: 0 <= i < j ==> visit[list[i]] >= 0
      invariant orderly ==> roots == list[..j]
      decreases |rootlist| - index
    {
      startbl := rootlist[index];
      SplitList(roots, list, j);
      j := j + 1;
      if visit[startbl] == -1 {
        return;
      }
      rootlist := rootlist[..index] + rootlist[index + 1..];
      startbl := -1;
    }
  }

  lemma SplitList(roots: seq<nat>, rest: seq<nat>, j: nat)
    requires j < |rest|
    ensures var l := roots + rest[j..];
      && l[|roots|] == rest[j] && l == roots + [rest[j]] + rest[j + 1..] && l[..|roots|] + l[|roots| + 1..] == roots + rest[j + 1..]
  {
    assert rest[j..] == [rest[j]] + rest[j + 1..];
  }

  /** The state of a pass between two trees. */
  ghost predicate PassAt(g: Flow, w: Walk, parent: seq<int>, list: seq<nat>, rootlist: seq<nat>, roots: seq<nat>, j: nat, extra: bool) {
    && Inv(g, w, parent) && w.stack == [] && RootsOk(g, w, parent, roots) && InRange(g, list) && TreeOnce(g, w)
    && ListAtPass(g, w, list, rootlist, roots, j, extra)
  }

  /** What `NextRoot` may rely on, drawn from the walk. */
  lemma BeforeNextRoot(g: Flow, w: Walk, parent: seq<int>, list: seq<nat>, rootlist: seq<nat>, roots: seq<nat>, j: nat, extra: bool)
    requires PassAt(g, w, parent, list, rootlist, roots, j, extra)
    ensures forall k :: 0 <= k < |w.visit| ==> w.visit[k] >= -1
    ensures Independent(g, list) ==> forall i :: j <= i < |list| && roots == list[..i] ==> w.visit[list[i]] == -1
  {
    forall k: nat | k < |w.visit| ensures w.visit[k] >= -1 {
      assert VisitAt(g, w, k);
    }
    forall i | j <= i < |list| && roots == list[..i] && Independent(g, list) ensures w.visit[list[i]] == -1 {
      UnreachedIsUnvisited(g, w, parent, roots, list[i]);
    }
  }

  /** The list is exhausted although a block is unvisited, so the list does not cover the graph. */
  lemma ExhaustedList(g: Flow, w: Walk, parent: seq<int>, list: seq<nat>)
    requires Inv(g, w, parent) && w.stack == [] && InRange(g, list) && |w.plist| < g.n
    requires forall i :: 0 <= i < |list| ==> w.visit[list[i]] >= 0
    ensures !Covers(g, list)
  {
    if Covers(g, list) {
      CoveredIsVisited(g, w, parent, list);
    }
  }

  /** The list after one more tree, rooted in the list or found by scanning. */
  lemma ListAfterTree(g: Flow, w0: Walk, parent0: seq<int>, w: Walk, parent: seq<int>, list: seq<nat>, rootlist0: seq<nat>, roots: seq<nat>, j0: nat, extra0: bool, start: nat, j: nat, scanned: bool)
    requires ListAtPassOk(g, w0, list, rootlist0, roots, j0, extra0) && |w.visit| == g.n && j0 <= j <= |list|
    requires forall v: nat {:trigger w.visit[v]} :: v < g.n && w0.visit[v] >= 0 ==> w.visit[v] >= 0
    requires start < g.n && w.visit[start] >= 0
    requires forall i :: 0 <= i < (if scanned then j else j - 1) ==> w0.visit[list[i]] >= 0
    requires if scanned then j == |list| && !Covers(g, list) else j0 < j && start == list[j - 1]
    requires Independent(g, list) && !extra0 ==> roots == list[..if scanned then j else j - 1]
    ensures ListAtPass(g, w, list, roots + [start] + list[j..], roots + [start], j, extra0 || scanned)
  {
    forall i | 0 <= i < j ensures w.visit[list[i]] >= 0 {
      assert i < (if scanned then j else j - 1) ==> w0.visit[list[i]] >= 0;
    }
    if Independent(g, list) && !scanned {
      assert list[..j] == list[..j - 1] + [list[j - 1]];
    }
  }

  ghost predicate ListAtPassOk(g: Flow, w: Walk, list: seq<nat>, rootlist: seq<nat>, roots: seq<nat>, j: nat, extra: bool) {
    |w.visit| == |g.outs| == g.n && InRange(g, list) && ListAtPass(g, w, list, rootlist, roots, j, extra)
  }

  /** The first unvisited block in list order. */
  method FirstUnvisited(visit: seq<int>) returns (v: nat)
    requires exists k :: 0 <= k < |visit| && visit[k] == -1
    ensures v < |visit| && visit[v] == -1 && forall k :: 0 <= k < v ==> visit[k] != -1
  {
    v := 0;
    while visit[v] != -1
      invariant v < |visit| && forall k :: 0 <= k < v ==> visit[k] != -1
      decreases |visit| - v
    {
      v := v + 1;
    }
  }

  /** What the choice of the next root tells about the list. */
  ghost predicate Chosen(g: Flow, w: Walk, list: seq<nat>, roots: seq<nat>, j0: nat, extra0: bool, start: int, rootlist: seq<nat>, j: nat, scanned: bool)
    requires |w.visit| == |g.outs| == g.n && InRange(g, list)
  {
    && 0 <= start < g.n && w.visit[start] == -1 && j0 <= j <= |list| && rootlist == roots + [start] + list[j..]
    && (forall i :: 0 <= i < (if scanned then j else j - 1) ==> w.visit[list[i]] >= 0)
    && (if scanned then j == |list| && !Covers(g, list) else j0 < j && start == list[j - 1])
    && (scanned ==> forall k: nat :: k < start ==> w.visit[k] != -1)
    && (Independent(g, list) && !extra0 ==> roots == list[..if scanned then j else j - 1])
  }

  method ChooseRoot(g: Flow, w: Walk, list: seq<nat>, rootlist0: seq<nat>, rootindex: nat, extra: bool, ghost parent: seq<int>, ghost roots: seq<nat>, ghost j0: nat)
    returns (start: int, rootlist: seq<nat>, scanned: bool, ghost j: nat)
    requires PassAt(g, w, parent, list, rootlist0, roots, j0, extra) && |w.plist| < g.n && rootindex == |roots|
    ensures Chosen(g, w, list, roots, j0, extra, start, rootlist, j, scanned)
  {
    BeforeNextRoot(g, w, parent, list, rootlist0, roots, j0, extra);
    start, rootlist, j := NextRoot(w.visit, list, rootlist0, rootindex, roots, j0, Independent(g, list) && !extra);
    scanned := start == -1;
    if scanned {
      ExhaustedList(g, w, parent, list);
      VisitRoom(g, w);
      start := FirstUnvisited(w.visit);
      rootlist := rootlist + [start];
      assert list[j..] == [];
    }
  }

  /** One more tree. */
  method PassStep(g: Flow, w0: Walk, list: seq<nat>, rootlist0: seq<nat>, rootindex: nat, extra0: bool, ghost parent0: seq<int>, ghost roots0: seq<nat>, ghost j0: nat)
    returns (w: Walk, rootlist: seq<nat>, extra: bool, ghost parent: seq<int>, ghost roots: seq<nat>, ghost j: nat)
    requires PassAt(g, w0, parent0, list, rootlist0, roots0, j0, extra0) && |w0.plist| < g.n && rootindex == |roots0|
    requires ExactAt(g, list, roots0, j0, extra0)
    ensures PassAt(g, w, parent, list, rootlist, roots, j, extra) && |w.plist| > |w0.plist| && |roots| == rootindex + 1
    ensures ExactAt(g, list, roots, j, extra)
  {
    var start, scanned;
    start, rootlist, scanned, j := ChooseRoot(g, w0, list, rootlist0, rootindex, extra0, parent0, roots0, j0);
    extra := extra0 || scanned;
    ExactAfterTree(g, w0, parent0, list, rootlist0, roots0, j0, extra0, start, rootlist, j, scanned);
    w, parent := WalkTree(g, w0, start, parent0);
    roots := roots0 + [start];
    TreeAdded(g, w0, parent0, w, parent, roots0, start);
    StillVisited(g, w0, parent0, w, parent);
    ListAfterTree(g, w0, parent0, w, parent, list, rootlist0, roots0, j0, extra0, start, j, scanned);
  }

  /** Between trees, visited is reached from the roots walked. */
  lemma VisitedIsReached(g: Flow, w: Walk, parent: seq<int>, roots: seq<nat>, v: nat)
    requires Inv(g, w, parent) && w.stack == [] && RootsOk(g, w, parent, roots) && v < g.n
    ensures w.visit[v] != -1 <==> ReachedFrom(g, roots, v)
  {
    assert VisitAt(g, w, v);
    if ReachedFrom(g, roots, v) {
      var k :| 0 <= k < |roots| && Reach(g, roots[k], v);
      VisitedReach(g, w, parent, roots[k], v);
    } else {
      UnreachedIsUnvisited(g, w, parent, roots, v);
    }
  }

  /** The roots walked so far, exactly: those kept of the list examined, the last just now, or all kept and then scanned ones. */
  ghost predicate ExactAt(g: Flow, list: seq<nat>, roots: seq<nat>, j: nat, extra: bool)
    requires |g.outs| == g.n
  {
    && j <= |list|
    && if extra then j == |list| && Scanned(g, Kept(g, list), roots)
       else roots == Kept(g, list[..j]) && (j > 0 ==> roots != Kept(g, list[..j - 1]))
  }

  lemma ExactAfterTree(g: Flow, w: Walk, parent: seq<int>, list: seq<nat>, rootlist0: seq<nat>, roots: seq<nat>, j0: nat, extra0: bool, start: nat, rootlist: seq<nat>, j: nat, scanned: bool)
    requires PassAt(g, w, parent, list, rootlist0, roots, j0, extra0) && ExactAt(g, list, roots, j0, extra0)
    requires Chosen(g, w, list, roots, j0, extra0, start, rootlist, j, scanned)
    ensures ExactAt(g, list, roots + [start], j, extra0 || scanned)
  {
    VisitedIsReached(g, w, parent, roots, start);
    var last := if scanned then j else j - 1;
    if !extra0 {
      forall k | j0 <= k < last ensures ReachedFrom(g, roots, list[k]) { VisitedIsReached(g, w, parent, roots, list[k]); }
    }
    if scanned {
      forall v: nat | v < start ensures ReachedFrom(g, roots, v) { VisitedIsReached(g, w, parent, roots, v); }
      ExactScanned(g, list, roots, j0, extra0, start);
    } else {
      ExactListed(g, list, roots, j0, j);
    }
  }

  /** A root found by scanning. */
  lemma ExactScanned(g: Flow, list: seq<nat>, roots: seq<nat>, j0: nat, extra0: bool, start: nat)
    requires |g.outs| == g.n && ExactAt(g, list, roots, j0, extra0) && FirstUnreached(g, roots, start)
    requires !extra0 ==> forall k :: j0 <= k < |list| ==> ReachedFrom(g, roots, list[k])
    ensures ExactAt(g, list, roots + [start], |list|, true)
  {
    assert list[..|list|] == list;
    if !extra0 { KeptSkips(g, list, j0, |list|); }
    ScannedMore(g, Kept(g, list), roots, start);
  }

  /** A root from the list. */
  lemma ExactListed(g: Flow, list: seq<nat>, roots: seq<nat>, j0: nat, j: nat)
    requires |g.outs| == g.n && ExactAt(g, list, roots, j0, false) && j0 < j <= |list| && !ReachedFrom(g, roots, list[j - 1])
    requires forall k :: j0 <= k < j - 1 ==> ReachedFrom(g, roots, list[k])
    ensures ExactAt(g, list, roots + [list[j - 1]], j, false)
  {
    KeptSkips(g, list, j0, j - 1);
    KeptMore(g, list, j - 1);
  }

  lemma ScannedMore(g: Flow, base: seq<nat>, roots: seq<nat>, v: nat)
    requires |g.outs| == g.n && Scanned(g, base, roots) && FirstUnreached(g, roots, v)
    ensures Scanned(g, base, roots + [v])
  {
    var more := roots + [v];
    forall k: nat | |base| <= k < |more| ensures FirstUnreached(g, more[..k], more[k]) {
      if k < |roots| {
        assert more[..k] == roots[..k];
      } else {
        assert more[..k] == roots;
      }
    }
  }

  lemma StillVisited(g: Flow, w0: Walk, parent0: seq<int>, w: Walk, parent: seq<int>)
    requires Sized(g, w0, parent0) && Sized(g, w, parent) && Extends(g, w0, parent0, w, parent)
    ensures forall v: nat {:trigger w.visit[v]} :: v < g.n && w0.visit[v] >= 0 ==> w.visit[v] >= 0
  {
  }

  lemma PassStart(g: Flow, list: seq<nat>)
    requires g.Valid() && InRange(g, list)
    ensures PassAt(g, Fresh(g), seq(g.n, _ => -1), list, list, [], 0, false) && ExactAt(g, list, [], 0, false)
  {
    FreshInv(g);
    assert list[..0] == [];
    forall u: nat, i: nat, x: nat, k: nat, v: nat ensures OnceAt(g, Fresh(g), u, i, x, k, v) {
    }
    assert [] + list[0..] == list;
  }

  /** One pass: walks trees from the listed roots, then from any block left, until all are visited. */
  method Pass(g: Flow, list: seq<nat>) returns (rootlist: seq<nat>, extra: bool, w: Walk, ghost parent: seq<int>, ghost roots: seq<nat>, ghost j: nat)
    requires g.Valid() && InRange(g, list)
    ensures PassAt(g, w, parent, list, rootlist, roots, j, extra) && |w.plist| >= g.n && ExactAt(g, list, roots, j, extra)
  {
    PassStart(g, list);
    w, parent, roots, j := Fresh(g), seq(g.n, _ => -1), [], 0;
    rootlist, extra := list, false;
    var rootindex := 0;
    while |w.plist| < g.n
      invariant PassAt(g, w, parent, list, rootlist, roots, j, extra) && rootindex == |roots| && ExactAt(g, list, roots, j, extra)
      decreases g.n - |w.plist|
    {
      w, rootlist, extra, parent, roots, j := PassStep(g, w, list, rootlist, rootindex, extra, parent, roots, j);
      rootindex := rootindex + 1;
    }
  }

  // ----- what the finished walk means -----

  /** A way down tree edges. */
  ghost predicate TreeWay(g: Flow, w: Walk, p: seq<nat>, u: nat, v: nat)
    requires |w.labels| == |g.outs|
  {
    |p| > 0 && p[0] == u && p[|p| - 1] == v && forall i :: 0 <= i < |p| - 1 ==> TreeEdge(g, w, p[i], p[i + 1])
  }

  /** `v` is in the depth-first subtree of `u`. */
  ghost predicate InSubtree(g: Flow, w: Walk, u: nat, v: nat)
    requires |w.labels| == |g.outs|
  {
    exists p :: TreeWay(g, w, p, u, v)
  }

  lemma {:induction false} UnderIsTreeWay(g: Flow, w: Walk, parent: seq<int>, u: nat, v: nat) returns (p: seq<nat>)
    requires Inv(g, w, parent) && u < g.n && v < g.n && w.visit[v] >= 0 && Under(w.visit, parent, u, v)
    ensures TreeWay(g, w, p, u, v)
    decreases w.visit[v]
  {
    if u == v {
      p := [u];
    } else {
      assert ParentAt(g, w, parent, v);
      var q := UnderIsTreeWay(g, w, parent, u, parent[v]);
      p := q + [v];
    }
  }

  lemma {:induction false} TreeWayIsUnder(g: Flow, w: Walk, parent: seq<int>, p: seq<nat>, u: nat, v: nat)
    requires Inv(g, w, parent) && TreeWay(g, w, p, u, v) && v < g.n
    ensures Under(w.visit, parent, u, v)
    decreases |p|
  {
    if |p| > 1 {
      var q, x := p[..|p| - 1], p[|p| - 2];
      assert TreeEdge(g, w, x, v);
      var i :| 0 <= i < |g.outs[x]| && g.outs[x][i] == v && w.labels[x][i] == Tree;
      assert EdgeAt(g, w, parent, x, i);
      assert ParentAt(g, w, parent, v);
      TreeWayIsUnder(g, w, parent, q, u, x);
    }
  }

  lemma SubtreeIsUnder(g: Flow, w: Walk, parent: seq<int>, u: nat, v: nat)
    requires Inv(g, w, parent) && u < g.n && v < g.n && w.visit[v] >= 0
    ensures InSubtree(g, w, u, v) <==> Under(w.visit, parent, u, v)
  {
    if Under(w.visit, parent, u, v) {
      var p := UnderIsTreeWay(g, w, parent, u, v);
    }
    if InSubtree(g, w, u, v) {
      var p :| TreeWay(g, w, p, u, v);
      TreeWayIsUnder(g, w, parent, p, u, v);
    }
  }

  /** Index and position in the reverse post-order are the same thing. */
  ghost predicate IsPermutation(g: Flow, w: Walk) {
    && |w.index| == |w.order| == g.n
    && (forall v: nat :: v < g.n ==> 0 <= w.index[v] < g.n && w.order[w.index[v]] == v)
    && (forall k: nat :: k < g.n ==> 0 <= w.order[k] < g.n && w.index[w.order[k]] == k)
  }

  /** A subtree is the interval of `desc` visit numbers that starts at its root. */
  ghost predicate SubtreeIsInterval(g: Flow, w: Walk, u: nat, v: nat)
    requires |w.labels| == |g.outs| && u < |w.visit| == |w.desc| && v < |w.visit|
  {
    InSubtree(g, w, u, v) <==> w.visit[u] <= w.visit[v] < w.visit[u] + w.desc[u]
  }

  /** What the label of the edge says: back edges alone lead to a smaller or equal index, and up the tree. */
  ghost predicate LabelMeans(g: Flow, w: Walk, u: nat, i: nat)
    requires |w.labels| == |g.outs| == |w.index| && u < |g.outs| && i < |g.outs[u]| == |w.labels[u]| && g.outs[u][i] < |w.index|
  {
    var v := g.outs[u][i];
    && w.labels[u][i] != Unlabelled
    && (w.labels[u][i] == Back <==> w.index[v] <= w.index[u])
    && (w.labels[u][i] == Back <==> InSubtree(g, w, v, u))
    && (w.labels[u][i] == Cross <==> !InSubtree(g, w, u, v) && !InSubtree(g, w, v, u))
  }

  ghost predicate IsSpanningTree(g: Flow, w: Walk) {
    && g.Valid() && |w.visit| == |w.desc| == |w.labels| == g.n && IsPermutation(g, w)
    && (forall u: nat :: u < g.n ==> |w.labels[u]| == |g.outs[u]|)
    && (forall u: nat, v: nat :: u < g.n && v < g.n ==> SubtreeIsInterval(g, w, u, v))
    && (forall u: nat, i: nat :: u < g.n && i < |g.outs[u]| ==> LabelMeans(g, w, u, i))
  }

  lemma FinishedIsTree(g: Flow, w: Walk, parent: seq<int>)
    requires Inv(g, w, parent) && w.stack == [] && |w.plist| >= g.n
    ensures IsSpanningTree(g, w) && w.post == 0
  {
    VisitRoom(g, w);
    IdleIsClosed(g, w, parent);
    forall v: nat | v < g.n ensures w.visit[v] >= 0 && 0 <= w.index[v] < g.n && w.order[w.index[v]] == v {
      assert IndexAt(g, w, v);
    }
    forall k: nat | k < g.n ensures 0 <= w.order[k] < g.n && w.index[w.order[k]] == k {
      assert OrderAt(g, w, k);
    }
    forall u: nat, v: nat | u < g.n && v < g.n ensures SubtreeIsInterval(g, w, u, v) {
      assert SubAt(g, w, parent, u, v);
      SubtreeIsUnder(g, w, parent, u, v);
    }
    forall u: nat, i: nat | u < g.n && i < |g.outs[u]| ensures LabelMeans(g, w, u, i) {
      LabelOfClosed(g, w, parent, u, i);
    }
  }

  lemma LabelOfClosed(g: Flow, w: Walk, parent: seq<int>, u: nat, i: nat)
    requires Inv(g, w, parent) && u < g.n && i < |g.outs[u]| && w.index[u] != -1 && w.index[g.outs[u][i]] != -1
    requires w.visit[u] >= 0 && w.visit[g.outs[u][i]] >= 0
    ensures LabelMeans(g, w, u, i)
  {
    var v := g.outs[u][i];
    assert EdgeAt(g, w, parent, u, i);
    assert Followed(g, w, u, i);
    SubtreeIsUnder(g, w, parent, u, v);
    SubtreeIsUnder(g, w, parent, v, u);
    assert SubAt(g, w, parent, u, v) && SubAt(g, w, parent, v, u) && SubAt(g, w, parent, u, u) && SubAt(g, w, parent, v, v);
    assert VisitAt(g, w, u) && VisitAt(g, w, v) && ParentAt(g, w, parent, v);
    if w.labels[u][i] == Tree {
      SubAtParent(g, w, parent, u, v);
    }
  }

  lemma SubAtParent(g: Flow, w: Walk, parent: seq<int>, u: nat, v: nat)
    requires Inv(g, w, parent) && u < g.n && v < g.n && parent[v] == u && w.visit[v] >= 0
    ensures Under(w.visit, parent, u, v) && !Under(w.visit, parent, v, u)
  {
    assert ParentAt(g, w, parent, v);
    assert Under(w.visit, parent, u, u);
    assert SubAt(g, w, parent, v, u);
  }

  // ----- the whole computation -----

  /** The blocks below `n` without in-edges, in list order. */
  function SourcesBelow(g: Flow, n: nat): seq<nat>
    requires n <= |g.ins|
  {
    if n == 0 then [] else SourcesBelow(g, n - 1) + if g.ins[n - 1] == [] then [n - 1] else []
  }

  function Sources(g: Flow): seq<nat>
    requires |g.ins| == g.n
  {
    SourcesBelow(g, g.n)
  }

  /** Blocks without in-edges, in list order. */
  method FindSources(g: Flow) returns (sources: seq<nat>)
    requires g.Valid()
    ensures sources == Sources(g)
    ensures InRange(g, sources) && (forall k :: 0 <= k < |sources| ==> g.ins[sources[k]] == [])
    ensures forall j, k :: 0 <= j < k < |sources| ==> sources[j] < sources[k]
    ensures forall v: nat :: v < g.n && g.ins[v] == [] ==> v in sources
  {
    sources := [];
    for v := 0 to g.n
      invariant sources == SourcesBelow(g, v)
      invariant InRange(g, sources) && (forall k :: 0 <= k < |sources| ==> g.ins[sources[k]] == [])
      invariant forall j, k :: 0 <= j < k < |sources| ==> sources[j] < sources[k]
      invariant forall k :: 0 <= k < |sources| ==> sources[k] < v
      invariant forall x: nat :: x < v && g.ins[x] == [] ==> x in sources
    {
      if |g.ins[v]| == 0 {
        sources := sources + [v];
      }
    }
  }

  /** The entry: the first block without in-edges, or else the first block. */
  ghost predicate IsEntry(g: Flow, e: nat)
    requires g.Valid()
  {
    && e < g.n
    && if exists v: nat :: v < g.n && g.ins[v] == [] then g.ins[e] == [] && (forall v: nat :: v < e ==> g.ins[v] != []) else e == 0
  }

  /** Every block that reaches `e` is reached from it. */
  ghost predicate NothingAbove(g: Flow, e: nat)
    requires g.Valid()
  {
    forall x: nat :: x < g.n && Reach(g, x, e) ==> Reach(g, e, x)
  }

  function SwapEnds(s: seq<nat>, i: nat): (t: seq<nat>)
    requires i < |s|
    ensures |t| == |s| && t[|s| - 1] == s[i] && t[i] == s[|s| - 1] && (forall k :: 0 <= k < |s| && k != i && k != |s| - 1 ==> t[k] == s[k])
    ensures forall x :: x in s <==> x in t
  {
    var t := s[i := s[|s| - 1]][|s| - 1 := s[i]];
    assert forall x :: x in s ==> x in t by {
      forall x | x in s ensures x in t {
        var k :| 0 <= k < |s| && s[k] == x;
        assert t[if k == i then |s| - 1 else if k == |s| - 1 then i else k] == x;
      }
    }
    t
  }

  /** The sources with the first one moved last, or the first block alone. */
  function EntryLast(g: Flow): seq<nat>
    requires |g.ins| == g.n
  {
    var sources := Sources(g);
    if |sources| > 1 then SwapEnds(sources, 0) else if sources == [] then [0] else sources
  }

  /** The list for the first pass: the sources with the entry moved last, or the first block alone. */
  method FirstRoots(g: Flow) returns (list: seq<nat>)
    requires g.Valid() && g.n > 0
    ensures list == EntryLast(g)
    ensures |list| > 0 && InRange(g, list) && Independent(g, list) && IsEntry(g, list[|list| - 1])
    ensures |list| > 1 ==> forall k :: 0 <= k < |list| ==> g.ins[list[k]] == []
    ensures (forall k :: 0 <= k < |list| ==> g.ins[list[k]] == []) || list == [0]
  {
    list := FindSources(g);
    ghost var sources := list;
    if |list| > 1 {
      list := SwapEnds(list, 0);
    } else if |list| == 0 {
      list := [0];
    }
    FirstListGood(g, sources, list);
  }

  lemma FirstListGood(g: Flow, sources: seq<nat>, list: seq<nat>)
    requires g.Valid() && g.n > 0 && InRange(g, sources) && (forall k :: 0 <= k < |sources| ==> g.ins[sources[k]] == [])
    requires forall j, k :: 0 <= j < k < |sources| ==> sources[j] < sources[k]
    requires forall v: nat :: v < g.n && g.ins[v] == [] ==> v in sources
    requires list == if |sources| > 1 then SwapEnds(sources, 0) else if sources == [] then [0] else sources
    ensures |list| > 0 && InRange(g, list) && Independent(g, list) && IsEntry(g, list[|list| - 1])
    ensures (forall k :: 0 <= k < |list| ==> g.ins[list[k]] == []) || list == [0]
    ensures |list| > 1 ==> forall k :: 0 <= k < |list| ==> g.ins[list[k]] == []
  {
    if |sources| > 1 { SourcesAreIndependent(g, sources, list); } else { AloneIsIndependent(g, list); }
    EntryIsFirstSource(g, sources, list[|list| - 1]);
  }

  lemma AloneIsIndependent(g: Flow, list: seq<nat>)
    requires |g.outs| == g.n && |list| <= 1
    ensures Independent(g, list)
  {
  }

  lemma SourcesAreIndependent(g: Flow, sources: seq<nat>, list: seq<nat>)
    requires g.Valid() && InRange(g, sources) && |sources| > 1 && list == SwapEnds(sources, 0)
    requires forall k :: 0 <= k < |sources| ==> g.ins[sources[k]] == []
    requires forall j, k :: 0 <= j < k < |sources| ==> sources[j] < sources[k]
    ensures Independent(g, list) && InRange(g, list) && forall k :: 0 <= k < |list| ==> g.ins[list[k]] == []
  {
    forall k | 0 <= k < |list| ensures list[k] < g.n && g.ins[list[k]] == [] { assert list[k] in sources; }
    forall j, k | 0 <= j < k < |list| ensures !Reach(g, list[j], list[k]) {
      assert list[j] != list[k];
      if Reach(g, list[j], list[k]) {
        ReachedHasPredecessor(g, list[j], list[k]);
      }
    }
  }

  lemma EntryIsFirstSource(g: Flow, sources: seq<nat>, e: nat)
    requires g.Valid() && g.n > 0 && InRange(g, sources) && (forall k :: 0 <= k < |sources| ==> g.ins[sources[k]] == [])
    requires forall j, k :: 0 <= j < k < |sources| ==> sources[j] < sources[k]
    requires forall v: nat :: v < g.n && g.ins[v] == [] ==> v in sources
    requires e == if sources == [] then 0 else sources[0]
    ensures IsEntry(g, e)
  {
    assert forall k :: 0 <= k < |sources| ==> sources[k] >= e;
  }

  /** A finished walk from `roots`. */
  ghost predicate Finished(g: Flow, w: Walk, parent: seq<int>, roots: seq<nat>) {
    Inv(g, w, parent) && w.stack == [] && |w.plist| >= g.n && RootsOk(g, w, parent, roots)
  }

  lemma FinishedCovers(g: Flow, w: Walk, parent: seq<int>, roots: seq<nat>)
    requires Finished(g, w, parent, roots)
    ensures Covers(g, roots)
  {
    VisitRoom(g, w);
    forall v: nat | v < g.n ensures ReachedFrom(g, roots, v) {
      assert HasRoot(w, parent, roots, v);
      var k :| 0 <= k < |roots| && Under(w.visit, parent, roots[k], v);
      UnderReach(g, w, parent, roots[k], v);
    }
  }

  lemma CoversSubset(g: Flow, a: seq<nat>, b: seq<nat>)
    requires g.Valid() && Covers(g, a) && forall x :: x in a ==> x in b
    ensures Covers(g, b)
  {
    forall v: nat | v < g.n ensures ReachedFrom(g, b, v) {
      assert ReachedFrom(g, a, v);
      var k :| 0 <= k < |a| && Reach(g, a[k], v);
      assert a[k] in b;
      var i :| 0 <= i < |b| && b[i] == a[k];
    }
  }

  /** Index 0 belongs to the last root, and to it alone. */
  lemma LastRootIsFirst(g: Flow, w: Walk, parent: seq<int>, roots: seq<nat>, e: nat)
    requires Finished(g, w, parent, roots) && e < g.n && g.n > 0
    ensures |roots| > 0 && (w.index[e] == 0 <==> e == roots[|roots| - 1])
  {
    FinishedIsTree(g, w, parent);
    VisitRoom(g, w);
    assert HasRoot(w, parent, roots, e);
    var r := roots[|roots| - 1];
    assert w.order[w.index[e]] == e && w.order[w.index[r]] == r;
  }

  /** The last root of an independent list of roots is reached only from blocks it does not reach, or from its own tree. */
  lemma LastRootHasNothingAbove(g: Flow, w: Walk, parent: seq<int>, roots: seq<nat>, x: nat)
    requires Finished(g, w, parent, roots) && |roots| > 0 && x < g.n && Reach(g, x, roots[|roots| - 1])
    ensures Reach(g, roots[|roots| - 1], x)
  {
    VisitRoom(g, w);
    var t := |roots| - 1;
    assert HasRoot(w, parent, roots, x);
    var k :| 0 <= k < |roots| && Under(w.visit, parent, roots[k], x);
    UnderReach(g, w, parent, roots[k], x);
    ReachTrans(g, roots[k], x, roots[t]);
  }

  /** The first pass walks its whole list in order, and then perhaps further blocks. */
  lemma FirstPassRoots(g: Flow, w: Walk, parent: seq<int>, list: seq<nat>, rootlist: seq<nat>, roots: seq<nat>, j: nat, extra: bool)
    requires PassAt(g, w, parent, list, rootlist, roots, j, extra) && |w.plist| >= g.n && Independent(g, list)
    ensures Finished(g, w, parent, roots) && rootlist == roots
    ensures if extra then list < roots else roots == list
  {
    VisitRoom(g, w);
    if !extra && j < |list| {
      UnreachedIsUnvisited(g, w, parent, roots, list[j]);
    }
  }

  lemma IndependentIsDistinct(g: Flow, list: seq<nat>)
    requires g.Valid() && InRange(g, list) && Independent(g, list)
    ensures forall j, k :: 0 <= j < k < |list| ==> list[j] != list[k]
  {
    forall j, k | 0 <= j < k < |list| ensures list[j] != list[k] {
      if list[j] == list[k] {
        ReachSelf(g, list[j]);
      }
    }
  }

  lemma SecondPassList(g: Flow, w: Walk, parent: seq<int>, roots: seq<nat>, i: nat)
    requires Finished(g, w, parent, roots) && i < |roots|
    ensures var list2 := SwapEnds(roots, i);
      InRange(g, list2) && Covers(g, list2) && forall j, k :: 0 <= j < k < |list2| ==> list2[j] != list2[k]
  {
    var list2 := SwapEnds(roots, i);
    forall k | 0 <= k < |list2| ensures list2[k] < g.n {
      assert list2[k] in roots;
    }
    FinishedCovers(g, w, parent, roots);
    CoversSubset(g, roots, list2);
    IndependentIsDistinct(g, roots);
  }

  /** The second pass needs no further blocks, and the entry stays last in its list. */
  lemma SecondPassRoots(g: Flow, w: Walk, parent: seq<int>, list: seq<nat>, rootlist: seq<nat>, roots: seq<nat>, j: nat, extra: bool)
    requires PassAt(g, w, parent, list, rootlist, roots, j, extra) && |w.plist| >= g.n && Covers(g, list) && |list| > 0
    requires forall i, k :: 0 <= i < k < |list| ==> list[i] != list[k]
    ensures Finished(g, w, parent, roots) && |rootlist| > 0 && rootlist[|rootlist| - 1] == list[|list| - 1]
    ensures (forall r :: r in roots ==> r in rootlist && r in list) && InRange(g, rootlist)
    ensures (|roots| > 0 && roots[|roots| - 1] == list[|list| - 1]) || list[|list| - 1] !in roots
  {
    ListDone(g, w, list, rootlist, roots, j, extra);
  }

  lemma ListDone(g: Flow, w: Walk, list: seq<nat>, rootlist: seq<nat>, roots: seq<nat>, j: nat, extra: bool)
    requires |w.visit| == |g.outs| == g.n && InRange(g, list) && InRange(g, roots) && ListAtPass(g, w, list, rootlist, roots, j, extra)
    requires Covers(g, list) && |list| > 0 && forall i, k :: 0 <= i < k < |list| ==> list[i] != list[k]
    ensures |rootlist| > 0 && rootlist[|rootlist| - 1] == list[|list| - 1]
    ensures (forall r :: r in roots ==> r in rootlist && r in list) && InRange(g, rootlist)
    ensures (|roots| > 0 && roots[|roots| - 1] == list[|list| - 1]) || list[|list| - 1] !in roots
  {
    JoinedList(g, list, roots, j);
    var e := list[|list| - 1];
    if j < |list| {
      assert e !in list[..j];
      assert rootlist[|rootlist| - 1] == list[j..][|list| - j - 1];
    } else {
      assert rootlist == roots;
    }
  }

  lemma JoinedList(g: Flow, list: seq<nat>, roots: seq<nat>, j: nat)
    requires j <= |list| && InRange(g, list) && InRange(g, roots) && forall k :: 0 <= k < |roots| ==> roots[k] in list[..j]
    ensures InRange(g, roots + list[j..]) && forall r :: r in roots ==> r in roots + list[j..] && r in list && r in list[..j]
  {
    var all := roots + list[j..];
    forall k | 0 <= k < |all| ensures all[k] < g.n {
      if k >= |roots| { assert all[k] == list[j + (k - |roots|)]; }
    }
    forall r | r in roots ensures r in all && r in list && r in list[..j] {
      var k :| 0 <= k < |roots| && roots[k] == r;
      assert all[k] == r && roots[k] in list[..j];
    }
  }

  lemma EntryOfLastRoot(g: Flow, w: Walk, parent: seq<int>, roots: seq<nat>, e: nat)
    requires Finished(g, w, parent, roots) && g.n > 0 && e < g.n
    ensures |roots| > 0 && (w.index[e] == 0 <==> e == roots[|roots| - 1])
    ensures w.index[e] == 0 ==> NothingAbove(g, e)
  {
    LastRootIsFirst(g, w, parent, roots, e);
    if w.index[e] == 0 {
      forall x: nat | x < g.n && Reach(g, x, e) ensures Reach(g, e, x) {
        LastRootHasNothingAbove(g, w, parent, roots, x);
      }
    }
  }

  /** After the second pass the entry is the last root exactly when nothing lies above it. */
  lemma EntryAfterSecondPass(g: Flow, w1: Walk, parent1: seq<int>, roots1: seq<nat>, list: seq<nat>, w: Walk, parent: seq<int>, roots: seq<nat>, e: nat)
    requires Finished(g, w1, parent1, roots1) && Finished(g, w, parent, roots) && g.n > 0
    requires |list| > 0 && list <= roots1 && InRange(g, list) && e == list[|list| - 1]
    requires |list| > 1 ==> forall k :: 0 <= k < |list| ==> g.ins[list[k]] == []
    requires forall r :: r in roots ==> r in roots1
    requires (|roots| > 0 && roots[|roots| - 1] == e) || e !in roots
    ensures w.index[e] == 0 <==> NothingAbove(g, e)
  {
    EntryOfLastRoot(g, w, parent, roots, e);
    if NothingAbove(g, e) && e != roots[|roots| - 1] {
      VisitRoom(g, w);
      assert HasRoot(w, parent, roots, e);
      var k :| 0 <= k < |roots| && Under(w.visit, parent, roots[k], e);
      var r := roots[k];
      UnderReach(g, w, parent, r, e);
      assert r in roots;
      var m :| 0 <= m < |roots1| && roots1[m] == r;
      ReachedRootIsEntry(g, roots1, list, m);
    }
  }

  /** Of the first pass's roots the entry reaches only itself. */
  lemma ReachedRootIsEntry(g: Flow, roots: seq<nat>, list: seq<nat>, m: nat)
    requires g.Valid() && InRange(g, roots) && Independent(g, roots) && 0 < |list| <= |roots| && list <= roots && m < |roots|
    requires |list| > 1 ==> forall k :: 0 <= k < |list| ==> g.ins[list[k]] == []
    requires Reach(g, list[|list| - 1], roots[m])
    ensures roots[m] == list[|list| - 1]
  {
    var e := list[|list| - 1];
    assert e == roots[|list| - 1];
    if m < |list| - 1 && roots[m] != e {
      assert roots[m] == list[m];
      ReachedHasPredecessor(g, e, roots[m]);
    }
  }

  lemma RootsAreListed(g: Flow, w: Walk, parent: seq<int>, roots: seq<nat>, rootlist: seq<nat>)
    requires Finished(g, w, parent, roots) && g.n > 0 && IsSpanningTree(g, w) && (forall r :: r in roots ==> r in rootlist)
    ensures w.order[0] in rootlist
    ensures forall v: nat :: v < g.n && v !in rootlist ==> exists p :: p in g.ins[v] && p < g.n && w.index[p] < w.index[v]
  {
    EntryOfLastRoot(g, w, parent, roots, w.order[0]);
    assert roots[|roots| - 1] in roots;
    forall v: nat | v < g.n && v !in rootlist ensures exists p :: p in g.ins[v] && p < g.n && w.index[p] < w.index[v] {
      ParentPrecedes(g, w, parent, roots, v);
    }
  }

  lemma ParentPrecedes(g: Flow, w: Walk, parent: seq<int>, roots: seq<nat>, v: nat)
    requires Finished(g, w, parent, roots) && v < g.n && v !in roots
    ensures exists p :: p in g.ins[v] && p < g.n && w.index[p] < w.index[v]
  {
    VisitRoom(g, w);
    IdleIsClosed(g, w, parent);
    assert HasRoot(w, parent, roots, v);
    var k :| 0 <= k < |roots| && Under(w.visit, parent, roots[k], v);
    assert roots[k] in roots;
    assert ParentAt(g, w, parent, v);
    var p: nat := parent[v];
    assert TreeEdge(g, w, p, v);
    var i :| 0 <= i < |g.outs[p]| && g.outs[p][i] == v && w.labels[p][i] == Tree;
    assert EdgeAt(g, w, parent, p, i) && Followed(g, w, p, i);
    assert p in g.ins[v];
  }

  // ----- the list of roots -----

  /** `all` is the list of a first pass that had to scan for further roots; the second pass goes through it as far as `j`. */
  ghost predicate SecondList(g: Flow, list: seq<nat>, all: seq<nat>, j: nat, rootlist: seq<nat>, roots: seq<nat>)
    requires |g.outs| == g.n && |list| > 0
  {
    && |list| <= |all| && Scanned(g, list, all) && Covers(g, all) && j <= |all|
    && var list2 := SwapEnds(all, |list| - 1);
       && roots == Kept(g, list2[..j]) && rootlist == roots + list2[j..]
       && Covers(g, roots) && forall i: nat :: i < j ==> !Covers(g, Kept(g, list2[..i]))
  }

  /**
   The list of roots, entry last, and those of the last walk among them.  A list that
   leads everywhere is kept; otherwise the first blocks not reached are added in turn,
   the entry is put last again, and of the list so made the blocks already reached are
   dropped until everything is; what then follows stays unexamined.
   */
  ghost predicate IsRootList(g: Flow, list: seq<nat>, rootlist: seq<nat>, roots: seq<nat>)
    requires |g.outs| == g.n && |list| > 0
  {
    if Covers(g, list) then rootlist == roots == list
    else exists all, j: nat :: SecondList(g, list, all, j, rootlist, roots)
  }

  ghost predicate NoRepeats(s: seq<nat>) { forall i, k :: 0 <= i < k < |s| ==> s[i] != s[k] }

  ghost predicate HasTreeEdge(g: Flow, w: Walk, v: nat)
    requires |w.labels| == |g.outs|
  {
    exists u: nat, i: nat :: TreeTo(g, w, u, i, v)
  }

  /** The roots of the walk are the blocks that no tree edge leads to. */
  lemma RootsAreTreeless(g: Flow, w: Walk, parent: seq<int>, roots: seq<nat>, v: nat)
    requires Finished(g, w, parent, roots) && v < g.n
    ensures v in roots <==> !HasTreeEdge(g, w, v)
  {
    VisitRoom(g, w);
    IdleIsClosed(g, w, parent);
    if HasTreeEdge(g, w, v) {
      var u: nat, i: nat :| TreeTo(g, w, u, i, v);
      assert EdgeAt(g, w, parent, u, i);
    }
    if v !in roots {
      assert HasRoot(w, parent, roots, v);
      var k :| 0 <= k < |roots| && Under(w.visit, parent, roots[k], v);
      assert roots[k] in roots;
      assert ParentAt(g, w, parent, v);
      assert TreeEdge(g, w, parent[v], v);
      var i :| 0 <= i < |g.outs[parent[v]]| && g.outs[parent[v]][i] == v && w.labels[parent[v]][i] == Tree;
      assert TreeTo(g, w, parent[v], i, v);
    }
  }

  lemma {:induction false} KeptGrows(g: Flow, list: seq<nat>, i: nat, j: nat)
    requires |g.outs| == g.n && i <= j <= |list|
    ensures Kept(g, list[..i]) <= Kept(g, list[..j])
    decreases j
  {
    if i < j {
      KeptGrows(g, list, i, j - 1);
      KeptMore(g, list, j - 1);
    }
  }

  /** What a longer list does not reach, a shorter one does not. */
  lemma PrefixReachesLess(g: Flow, a: seq<nat>, b: seq<nat>, v: nat)
    requires |g.outs| == g.n && a <= b && ReachedFrom(g, a, v)
    ensures ReachedFrom(g, b, v)
  {
    var k :| 0 <= k < |a| && Reach(g, a[k], v);
    assert b[k] == a[k];
  }

  /** The blocks examined are no more than needed. */
  lemma NoSoonerCovered(g: Flow, list: seq<nat>, roots: seq<nat>, j: nat, i: nat)
    requires |g.outs| == g.n && ExactAt(g, list, roots, j, false) && InRange(g, list) && i < j
    ensures !Covers(g, Kept(g, list[..i]))
  {
    var r, few, more := list[j - 1], Kept(g, list[..i]), Kept(g, list[..j - 1]);
    assert few <= more by { KeptGrows(g, list, i, j - 1); }
    assert !ReachedFrom(g, more, r) by { KeptMore(g, list, j - 1); }
    MissesMore(g, few, more, r);
  }

  lemma MissesMore(g: Flow, few: seq<nat>, more: seq<nat>, r: nat)
    requires |g.outs| == g.n && few <= more && r < g.n && !ReachedFrom(g, more, r)
    ensures !Covers(g, few)
  {
    if Covers(g, few) {
      assert ReachedFrom(g, few, r);
      PrefixReachesLess(g, few, more, r);
    }
  }

  lemma {:induction false} KeptNoRepeats(g: Flow, list: seq<nat>)
    requires |g.outs| == g.n && NoRepeats(list)
    ensures NoRepeats(Kept(g, list))
  {
    if list != [] {
      var n := |list| - 1;
      KeptNoRepeats(g, list[..n]);
      var kept := Kept(g, list[..n]);
      forall i | 0 <= i < |kept| ensures kept[i] != list[n] {
        KeptIsListed(g, list[..n], kept[i]);
        var m :| 0 <= m < n && list[m] == kept[i];
      }
    }
  }

  /** No block is listed twice. */
  lemma ListedOnce(g: Flow, list2: seq<nat>, roots: seq<nat>, j: nat)
    requires |g.outs| == g.n && NoRepeats(list2) && j <= |list2| && roots == Kept(g, list2[..j])
    ensures NoRepeats(roots + list2[j..])
  {
    KeptNoRepeats(g, list2[..j]);
    var all := roots + list2[j..];
    forall i, k | 0 <= i < k < |all| ensures all[i] != all[k] {
      if i < |roots| && k >= |roots| {
        KeptIsListed(g, list2[..j], roots[i]);
        var m :| 0 <= m < j && list2[m] == roots[i];
        assert all[k] == list2[j + (k - |roots|)];
      }
    }
  }

  /** The first list leads everywhere exactly when the first pass finds no further root. */
  lemma FirstIsExact(g: Flow, w: Walk, parent: seq<int>, list: seq<nat>, roots: seq<nat>, j: nat, extra: bool)
    requires Finished(g, w, parent, roots) && Independent(g, list) && ExactAt(g, list, roots, j, extra)
    requires (if extra then list < roots else roots == list) && (Covers(g, list) ==> !extra)
    ensures Covers(g, list) <==> !extra
    ensures extra ==> Scanned(g, list, roots) && Covers(g, roots)
  {
    FinishedCovers(g, w, parent, roots);
    IndependentIsKept(g, list);
  }

  /**
   Labels the spanning tree and puts the blocks in reverse post-order.  The entry
   comes first in the returned roots, but it gets index 0 if and only if every block
   that reaches it is reached from it: a second pass may find it inside another tree.
   The list of roots is the one described by `IsRootList`, the roots of the walk are the
   blocks without a tree edge into them, and every other block has exactly one.
   */
  method FindSpanningTree(g: Flow) returns (rootlist: seq<nat>, w: Walk, ghost e: nat, ghost roots: seq<nat>)
    requires g.Valid() && g.n > 0
    ensures IsSpanningTree(g, w) && TreeOnce(g, w)
    ensures |rootlist| > 0 && InRange(g, rootlist) && IsEntry(g, e) && rootlist[0] == e
    ensures w.index[e] == 0 <==> NothingAbove(g, e)
    ensures w.order[0] in rootlist
    ensures forall v: nat :: v < g.n && v !in rootlist ==> exists p :: p in g.ins[v] && p < g.n && w.index[p] < w.index[v]
    ensures IsRootList(g, EntryLast(g), EntryToBack(rootlist), roots) && NoRepeats(rootlist)
    ensures forall v: nat :: v < g.n ==> (v in roots <==> !HasTreeEdge(g, w, v))
    ensures forall r :: r in roots ==> r in rootlist
    ensures Covers(g, EntryLast(g)) ==> rootlist == if Sources(g) == [] then [0] else Sources(g)
  {
    rootlist, w, e, roots := WalkGraph(g);
    FinalList(g, rootlist, roots);
    rootlist := EntryToFront(g, rootlist);
  }

  /** The same with the entry last in the list. */
  method WalkGraph(g: Flow) returns (back: seq<nat>, w: Walk, ghost e: nat, ghost roots: seq<nat>)
    requires g.Valid() && g.n > 0
    ensures IsSpanningTree(g, w) && TreeOnce(g, w)
    ensures |back| > 0 && InRange(g, back) && IsEntry(g, e) && back[|back| - 1] == e && |EntryLast(g)| > 0
    ensures w.index[e] == 0 <==> NothingAbove(g, e)
    ensures w.order[0] in back
    ensures forall v: nat :: v < g.n && v !in back ==> exists p :: p in g.ins[v] && p < g.n && w.index[p] < w.index[v]
    ensures IsRootList(g, EntryLast(g), back, roots) && NoRepeats(back)
    ensures forall v: nat :: v < g.n ==> (v in roots <==> !HasTreeEdge(g, w, v))
    ensures forall r :: r in roots ==> r in back
  {
    var list := FirstRoots(g);
    e := list[|list| - 1];
    ghost var parent;
    back, w, parent, roots := TwoPasses(g, list);
    WalkMeans(g, w, parent, roots, back);
  }

  method EntryToFront(g: Flow, back: seq<nat>) returns (rootlist: seq<nat>)
    requires |back| > 0 && InRange(g, back)
    ensures rootlist == EntryToBack(back) && |rootlist| == |back| && rootlist[0] == back[|back| - 1]
    ensures forall x :: x in rootlist <==> x in back
    ensures InRange(g, rootlist)
  {
    rootlist := back;
    if |rootlist| > 1 {
      rootlist := SwapEnds(rootlist, 0);
    }
  }

  lemma WalkMeans(g: Flow, w: Walk, parent: seq<int>, roots: seq<nat>, rootlist: seq<nat>)
    requires Finished(g, w, parent, roots) && g.n > 0 && forall r :: r in roots ==> r in rootlist
    ensures IsSpanningTree(g, w) && w.order[0] in rootlist
    ensures forall v: nat :: v < g.n && v !in rootlist ==> exists p :: p in g.ins[v] && p < g.n && w.index[p] < w.index[v]
    ensures forall v: nat :: v < g.n ==> (v in roots <==> !HasTreeEdge(g, w, v))
  {
    FinishedIsTree(g, w, parent);
    RootsAreListed(g, w, parent, roots, rootlist);
    forall v: nat | v < g.n ensures v in roots <==> !HasTreeEdge(g, w, v) { RootsAreTreeless(g, w, parent, roots, v); }
  }

  lemma FinalList(g: Flow, rootlist: seq<nat>, roots: seq<nat>)
    requires g.Valid() && g.n > 0 && |EntryLast(g)| > 0 && IsRootList(g, EntryLast(g), rootlist, roots) && NoRepeats(rootlist)
    ensures var final := EntryToBack(rootlist);
      && IsRootList(g, EntryLast(g), EntryToBack(final), roots) && NoRepeats(final)
      && (Covers(g, EntryLast(g)) ==> final == if Sources(g) == [] then [0] else Sources(g))
  {
    SwappedBack(rootlist);
    SwappedBack(Sources(g));
  }

  /** The list with the entry last again. */
  function EntryToBack(rootlist: seq<nat>): seq<nat> { if |rootlist| > 1 then SwapEnds(rootlist, 0) else rootlist }

  lemma SwappedBack(s: seq<nat>)
    ensures EntryToBack(EntryToBack(s)) == s && (NoRepeats(s) ==> NoRepeats(EntryToBack(s)))
  {
  }

  /** The pass over the first list and, if it found further roots, the one that puts the entry last. */
  method TwoPasses(g: Flow, list: seq<nat>) returns (rootlist: seq<nat>, w: Walk, ghost parent: seq<int>, ghost roots: seq<nat>)
    requires g.Valid() && g.n > 0 && |list| > 0 && InRange(g, list) && Independent(g, list)
    requires |list| > 1 ==> forall k :: 0 <= k < |list| ==> g.ins[list[k]] == []
    ensures Finished(g, w, parent, roots) && (forall r :: r in roots ==> r in rootlist) && TreeOnce(g, w)
    ensures |rootlist| > 0 && InRange(g, rootlist) && rootlist[|rootlist| - 1] == list[|list| - 1]
    ensures w.index[list[|list| - 1]] == 0 <==> NothingAbove(g, list[|list| - 1])
    ensures IsRootList(g, list, rootlist, roots) && NoRepeats(rootlist)
  {
    var extra;
    ghost var j;
    rootlist, extra, w, parent, roots, j := Pass(g, list);
    FirstPassRoots(g, w, parent, list, rootlist, roots, j, extra);
    FirstIsExact(g, w, parent, list, roots, j, extra);
    if extra {
      rootlist, w, parent, roots := SecondPass(g, list, rootlist, w, parent);
    } else {
      FirstListEnough(g, w, parent, list);
    }
  }

  /** When the first pass finds no further root, its list is the answer. */
  lemma FirstListEnough(g: Flow, w: Walk, parent: seq<int>, list: seq<nat>)
    requires Finished(g, w, parent, list) && g.n > 0 && |list| > 0 && InRange(g, list) && Independent(g, list) && Covers(g, list)
    ensures w.index[list[|list| - 1]] == 0 <==> NothingAbove(g, list[|list| - 1])
    ensures IsRootList(g, list, list, list) && NoRepeats(list)
  {
    EntryOfLastRoot(g, w, parent, list, list[|list| - 1]);
    IndependentIsDistinct(g, list);
  }

  /** The second pass, over the roots found by the first with the entry put last. */
  method SecondPass(g: Flow, list: seq<nat>, roots1: seq<nat>, ghost w1: Walk, ghost parent1: seq<int>)
    returns (rootlist: seq<nat>, w: Walk, ghost parent: seq<int>, ghost roots: seq<nat>)
    requires Finished(g, w1, parent1, roots1) && g.n > 0 && 0 < |list| <= |roots1| && list <= roots1 && InRange(g, list)
    requires |list| > 1 ==> forall k :: 0 <= k < |list| ==> g.ins[list[k]] == []
    requires Scanned(g, list, roots1) && Covers(g, roots1)
    ensures Finished(g, w, parent, roots) && (forall r :: r in roots ==> r in rootlist) && TreeOnce(g, w)
    ensures |rootlist| > 0 && InRange(g, rootlist) && rootlist[|rootlist| - 1] == list[|list| - 1]
    ensures w.index[list[|list| - 1]] == 0 <==> NothingAbove(g, list[|list| - 1])
    ensures (exists j: nat :: SecondList(g, list, roots1, j, rootlist, roots)) && NoRepeats(rootlist)
  {
    var origrootpos := |list| - 1;
    SecondPassList(g, w1, parent1, roots1, origrootpos);
    var list2 := SwapEnds(roots1, origrootpos);
    var extra;
    ghost var j;
    rootlist, extra, w, parent, roots, j := Pass(g, list2);
    SecondPassRoots(g, w, parent, list2, rootlist, roots, j, extra);
    EntryAfterSecondPass(g, w1, parent1, roots1, list, w, parent, roots, list[origrootpos]);
    SecondIsExact(g, w, parent, list, roots1, list2, rootlist, roots, j, extra);
  }

  lemma SecondIsExact(g: Flow, w: Walk, parent: seq<int>, list: seq<nat>, all: seq<nat>, list2: seq<nat>, rootlist: seq<nat>, roots: seq<nat>, j: nat, extra: bool)
    requires PassAt(g, w, parent, list2, rootlist, roots, j, extra) && |w.plist| >= g.n && ExactAt(g, list2, roots, j, extra)
    requires 0 < |list| <= |all| && Scanned(g, list, all) && Covers(g, all) && Covers(g, list2) && NoRepeats(list2) && list2 == SwapEnds(all, |list| - 1)
    ensures SecondList(g, list, all, j, rootlist, roots) && NoRepeats(rootlist)
  {
    FinishedCovers(g, w, parent, roots);
    forall i: nat | i < j ensures !Covers(g, Kept(g, list2[..i])) { NoSoonerCovered(g, list2, roots, j, i); }
    ListedOnce(g, list2, roots, j);
  }
}

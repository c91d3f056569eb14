/**
 The spanning tree and the dominators put together: the order the walk finds is
 one the dominator iteration can rely on, whatever the graph
 (pkg/pcode/block_graph.go:528-553, without the irreducible-edge labelling).
 */
module FlowStructures {
  import Dominators
  import SpanningTrees

  type Flow = Dominators.Flow
  type Walk = SpanningTrees.Walk

  /** A list of blocks under their new numbers. */
  function Rename(index: seq<int>, s: seq<nat>): (t: seq<nat>)
    requires forall k :: 0 <= k < |s| ==> s[k] < |index| && index[s[k]] >= 0
    ensures |t| == |s| && forall k :: 0 <= k < |s| ==> t[k] == index[s[k]]
  {
    if s == [] then [] else [index[s[0]]] + Rename(index, s[1..])
  }

  lemma RenamedMember(index: seq<int>, order: seq<int>, s: seq<nat>, x: nat)
    requires |index| == |order| && (forall k :: 0 <= k < |s| ==> s[k] < |index|)
    requires forall k :: 0 <= k < |index| ==> 0 <= index[k] < |order| && order[index[k]] == k
    requires forall k :: 0 <= k < |order| ==> 0 <= order[k] < |index| && index[order[k]] == k
    ensures x in Rename(index, s) <==> x < |order| && order[x] in s
  {
    var t := Rename(index, s);
    if x in t {
      var k :| 0 <= k < |t| && t[k] == x;
      assert index[s[k]] == x;
    }
    if x < |order| && order[x] in s {
      var k :| 0 <= k < |s| && s[k] == order[x];
      assert t[k] == x;
    }
  }

  ghost predicate Inverse(n: nat, index: seq<int>, order: seq<int>) {
    && |index| == |order| == n
    && (forall k :: 0 <= k < n ==> 0 <= index[k] < n && order[index[k]] == k)
    && (forall k :: 0 <= k < n ==> 0 <= order[k] < n && index[order[k]] == k)
  }

  /** The rows of `to` are those of `from`, reordered and renamed. */
  ghost predicate RowAt(order: seq<int>, from: seq<seq<nat>>, to: seq<seq<nat>>, u: nat, v: nat)
    requires u < |order| == |from| == |to| && 0 <= order[u] < |from|
  {
    v in to[u] <==> v < |order| && order[v] in from[order[u]]
  }

  /** Puts the rows in the new order, under the new names. */
  method ReorderRows(n: nat, index: seq<int>, order: seq<int>, rows: seq<seq<nat>>) returns (res: seq<seq<nat>>)
    requires Inverse(n, index, order) && |rows| == n
    requires forall u, i :: 0 <= u < n && 0 <= i < |rows[u]| ==> rows[u][i] < n
    ensures |res| == n && forall u: nat, v: nat :: u < n ==> RowAt(order, rows, res, u, v)
  {
    res := [];
    for k := 0 to n
      invariant |res| == k
      invariant forall u: nat, v: nat {:trigger v in res[u]} :: u < k ==> (v in res[u] <==> v < n && order[v] in rows[order[u]])
    {
      var row := rows[order[k]];
      forall v: nat ensures v in Rename(index, row) <==> v < n && order[v] in row {
        RenamedMember(index, order, row, v);
      }
      res := res + [Rename(index, row)];
    }
    forall u: nat, v: nat | u < n ensures RowAt(order, rows, res, u, v) {
      assert v in res[u] <==> v < n && order[v] in rows[order[u]];
    }
  }

  /** `h` is `g` with its blocks in the new order. */
  ghost predicate IsReorder(g: Flow, h: Flow, order: seq<int>) {
    && g.Valid() && h.n == |h.outs| == |h.ins| == |order| == g.n && (forall k :: 0 <= k < g.n ==> 0 <= order[k] < g.n)
    && (forall u: nat, v: nat :: u < g.n ==> RowAt(order, g.outs, h.outs, u, v))
    && (forall u: nat, v: nat :: u < g.n ==> RowAt(order, g.ins, h.ins, u, v))
  }

  lemma ReorderedIsValid(g: Flow, h: Flow, order: seq<int>)
    requires IsReorder(g, h, order)
    ensures h.Valid()
  {
    forall u: nat, i | u < h.n && 0 <= i < |h.outs[u]| ensures h.outs[u][i] < h.n {
      assert RowAt(order, g.outs, h.outs, u, h.outs[u][i]);
    }
    forall u: nat, i | u < h.n && 0 <= i < |h.ins[u]| ensures h.ins[u][i] < h.n {
      assert RowAt(order, g.ins, h.ins, u, h.ins[u][i]);
    }
    forall u: nat, v: nat | u < h.n && v < h.n ensures v in h.outs[u] <==> u in h.ins[v] {
      assert RowAt(order, g.outs, h.outs, u, v) && RowAt(order, g.ins, h.ins, v, u);
    }
  }

  /** The walk's order is what the dominator iteration needs. */
  lemma WalkOrders(g: Flow, h: Flow, index: seq<int>, order: seq<int>, rootlist: seq<nat>)
    requires IsReorder(g, h, order) && Inverse(g.n, index, order) && g.n > 0
    requires (forall k :: 0 <= k < |rootlist| ==> rootlist[k] < g.n) && order[0] in rootlist
    requires forall v: nat :: v < g.n && v !in rootlist ==> exists p :: p in g.ins[v] && p < g.n && index[p] < index[v]
    ensures Dominators.Ordered(h, Rename(index, rootlist))
  {
    var roots := Rename(index, rootlist);
    ReorderedIsValid(g, h, order);
    RenamedMember(index, order, rootlist, 0);
    forall x: nat | 0 < x < h.n && x !in roots ensures exists p :: p in h.ins[x] && p < x {
      RenamedMember(index, order, rootlist, x);
      var p :| p in g.ins[order[x]] && p < g.n && index[p] < index[order[x]];
      assert RowAt(order, g.ins, h.ins, x, index[p]);
    }
  }

  /**
   From any graph: its blocks in reverse post-order and the immediate dominators
   in that order.  The blocks without a dominator are the listed roots of the walk under
   their new names; every other block gets its immediate dominator in the reordered graph.
   */
  method OrderAndDominate(g: Flow)
    returns (order: seq<int>, rootlist: seq<nat>, h: Flow, immedDom: seq<int>, ghost w: Walk, ghost listed: seq<nat>, ghost roots: seq<nat>)
    requires g.Valid() && g.n > 0
    ensures order == w.order && WalkedFrom(g, w, listed, roots)
    ensures |rootlist| == |listed| && forall k: nat :: k < |listed| ==> rootlist[k] < |order| && order[rootlist[k]] == listed[k]
    ensures IsReorder(g, h, order) && (forall i, j :: 0 <= i < j < g.n ==> order[i] != order[j])
    ensures |immedDom| == g.n && |rootlist| > 0
    ensures forall b: nat :: b < g.n ==> (immedDom[b] == -1 <==> b in rootlist)
    ensures forall b: nat :: b < g.n && immedDom[b] != -1 ==> Dominators.IsImmediate(h, rootlist, immedDom[b], b)
  {
    var blocks, index;
    order, index, blocks, w, roots := OrderOf(g);
    listed := blocks;
    var outs := ReorderRows(g.n, index, order, g.outs);
    var ins := ReorderRows(g.n, index, order, g.ins);
    rootlist, h := Rename(index, blocks), Dominators.Flow(g.n, outs, ins);
    WalkOrders(g, h, index, order, blocks);
    immedDom := Dominators.CalcForwardDominator(h, rootlist);
    assert 0 in rootlist;
  }

  /** The list of roots is the walk's: no block twice, and just the list that `IsRootList` describes. */
  ghost predicate WalkedFrom(g: Flow, w: Walk, listed: seq<nat>, roots: seq<nat>) {
    && SpanningTrees.IsSpanningTree(g, w) && SpanningTrees.TreeOnce(g, w) && |SpanningTrees.EntryLast(g)| > 0
    && SpanningTrees.IsRootList(g, SpanningTrees.EntryLast(g), SpanningTrees.EntryToBack(listed), roots)
    && SpanningTrees.NoRepeats(listed) && forall v: nat :: v < g.n ==> (v in roots <==> !SpanningTrees.HasTreeEdge(g, w, v))
  }

  /** The walk reduced to what the order is needed for. */
  method OrderOf(g: Flow) returns (order: seq<int>, index: seq<int>, rootlist: seq<nat>, ghost w: Walk, ghost roots: seq<nat>)
    requires g.Valid() && g.n > 0
    ensures order == w.order && WalkedFrom(g, w, rootlist, roots)
    ensures Inverse(g.n, index, order) && order[0] in rootlist && (forall k :: 0 <= k < |rootlist| ==> rootlist[k] < g.n)
    ensures forall v: nat :: v < g.n && v !in rootlist ==> exists p :: p in g.ins[v] && p < g.n && index[p] < index[v]
    ensures forall i, j :: 0 <= i < j < g.n ==> order[i] != order[j]
  {
    var walk;
    ghost var e;
    rootlist, walk, e, roots := SpanningTrees.FindSpanningTree(g);
    w := walk;
    order, index := walk.order, walk.index;
    forall i, j | 0 <= i < j < g.n ensures order[i] != order[j] {
      assert index[order[i]] == i && index[order[j]] == j;
    }
  }
}

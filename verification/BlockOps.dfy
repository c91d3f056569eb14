/**
 The ops of a basic block (pkg/pcode/block_basic.go:38-85, 206-285): a doubly linked
 list through the ops themselves, with a slice of it that is rebuilt, and the ops
 numbered, only when read after a change.
 */
module BlockOps {

  class PcodeOp {
    var inBlock: BlockBasic?
    var blockPrev: PcodeOp?
    var blockNext: PcodeOp?
    var blockPos: nat

    constructor ()
      ensures inBlock == null && blockPrev == null && blockNext == null
    {
      inBlock, blockPrev, blockNext, blockPos := null, null, null, 0;
    }
  }

  // ----- sequences -----

  ghost predicate Distinct(s: seq<PcodeOp>) {
    forall i: nat, j: nat :: i < j < |s| ==> Differ(s, i, j)
  }

  ghost predicate Differ(s: seq<PcodeOp>, i: nat, j: nat) {
    i < |s| && j < |s| && s[i] != s[j]
  }

  lemma DifferAt(s: seq<PcodeOp>, i: nat, j: nat)
    requires Distinct(s) && i < |s| && j < |s| && i != j
    ensures s[i] != s[j]
  {
    assert i < j ==> Differ(s, i, j);
    assert j < i ==> Differ(s, j, i);
  }

  function Before(s: seq<PcodeOp>, i: nat): PcodeOp?
    requires i <= |s|
  {
    if i == 0 then null else s[i - 1]
  }

  function After(s: seq<PcodeOp>, i: nat): PcodeOp?
    requires i <= |s|
  {
    if i == |s| then null else s[i]
  }

  ghost function Remove(s: seq<PcodeOp>, op: PcodeOp): (r: seq<PcodeOp>)
    ensures op !in r
    ensures op !in s ==> r == s
    ensures forall o :: o in r ==> o in s && o != op
    ensures forall o :: o in s && o != op ==> o in r
  {
    if s == [] then []
    else if s[|s| - 1] == op then Remove(s[..|s| - 1], op)
    else
      assert s == s[..|s| - 1] + [s[|s| - 1]];
      Remove(s[..|s| - 1], op) + [s[|s| - 1]]
  }

  lemma {:induction false} RemoveAt(s: seq<PcodeOp>, k: nat)
    requires Distinct(s) && k < |s|
    ensures Remove(s, s[k]) == s[..k] + s[k + 1..]
  {
    var n := |s| - 1;
    forall i: nat, j: nat | i < j < n ensures Differ(s[..n], i, j) { DifferAt(s, i, j); }
    if k == n {
      forall i: nat | i < n ensures s[i] != s[n] { DifferAt(s, i, n); }
    } else {
      DifferAt(s, n, k);
      RemoveAt(s[..n], k);
      assert s[..n][..k] == s[..k];
      assert s[k + 1..] == s[..n][k + 1..] + [s[n]];
    }
  }

  lemma {:induction false} RemoveAppend(a: seq<PcodeOp>, b: seq<PcodeOp>, op: PcodeOp)
    ensures Remove(a + b, op) == Remove(a, op) + Remove(b, op)
  {
    if b == [] {
      assert a + b == a;
    } else {
      assert (a + b)[..|a + b| - 1] == a + b[..|b| - 1];
      RemoveAppend(a, b[..|b| - 1], op);
    }
  }

  lemma WithoutIsDistinct(s: seq<PcodeOp>, k: nat)
    requires Distinct(s) && k < |s|
    ensures Distinct(s[..k] + s[k + 1..])
  {
    var r := s[..k] + s[k + 1..];
    forall i: nat, j: nat | i < j < |r| ensures Differ(r, i, j) {
      DifferAt(s, if i < k then i else i + 1, if j < k then j else j + 1);
    }
  }

  // ----- the block -----

  class BlockBasic {
    var head: PcodeOp?
    var tail: PcodeOp?
    var ops: seq<PcodeOp>
    var opsValid: bool
    ghost var list: seq<PcodeOp>      // the ops in order

    constructor ()
      ensures list == [] && head == null && tail == null && !opsValid
    {
      head, tail, ops, opsValid, list := null, null, [], false, [];
    }

    /** Forward and backward links of the `i`-th op agree with the order. */
    ghost predicate LinkedAt(i: nat)
      requires i < |list|
      reads this, list[i]
    {
      && list[i].inBlock == this
      && list[i].blockPrev == Before(list, i)
      && list[i].blockNext == After(list, i + 1)
    }

    ghost predicate NumberedAt(i: nat)
      requires i < |list|
      reads this, list[i]
    {
      list[i].blockPos == i
    }

    /** The links spell `list`, and the slice does when it is marked valid. */
    ghost predicate Valid()
      reads this, set o | o in list
    {
      && Distinct(list)
      && head == After(list, 0) && tail == Before(list, |list|)
      && (forall i: nat :: i < |list| ==> LinkedAt(i))
      && (opsValid ==> ops == list && forall i: nat :: i < |list| ==> NumberedAt(i))
    }

    /** Takes the op out of the list. */
    method Unlink(op: PcodeOp, ghost k: nat)
      requires Valid() && k < |list| && list[k] == op
      modifies this, op, op.blockPrev, op.blockNext
      ensures Valid() && list == old(list)[..k] + old(list)[k + 1..] && !opsValid
      ensures op.inBlock == null && op.blockPrev == null && op.blockNext == null
    {
      assert LinkedAt(k);
      if op.blockPrev != null {
        op.blockPrev.blockNext := op.blockNext;
      } else {
        head := op.blockNext;
      }
      if op.blockNext != null {
        op.blockNext.blockPrev := op.blockPrev;
      } else {
        tail := op.blockPrev;
      }
      op.inBlock, op.blockPrev, op.blockNext := null, null, null;
      opsValid := false;
      list := list[..k] + list[k + 1..];
      WithoutIsDistinct(old(list), k);
      forall i: nat | i < |list| ensures LinkedAt(i) {
        ghost var j := if i < k then i else i + 1;
        RemovedNear(old(list), k, i);
        assert old(LinkedAt(j));
        DifferAt(old(list), j, k);
        if k > 0 && j != k - 1 { DifferAt(old(list), j, k - 1); }
        if k + 1 < |old(list)| && j != k + 1 { DifferAt(old(list), j, k + 1); }
      }
    }

    /**
     Puts an op that is in no list between two neighbours, at place `k` when they are
     that place's; an op that is its own neighbour is linked to itself.
     */
    method Splice(op: PcodeOp, prev: PcodeOp?, next: PcodeOp?, ghost k: nat)
      requires Valid() && op !in list
      requires op != prev && op != next ==> k <= |list| && prev == Before(list, k) && next == After(list, k)
      modifies this, op, prev, next
      ensures op.inBlock == this
      ensures op != prev && op != next ==> Valid() && list == old(list)[..k] + [op] + old(list)[k..] && !opsValid
      ensures op == prev || op == next ==> op.blockPrev == op && op.blockNext == op
    {
      op.inBlock, op.blockPrev, op.blockNext := this, prev, next;
      if prev != null {
        prev.blockNext := op;
      } else {
        head := op;
      }
      if next != null {
        next.blockPrev := op;
      } else {
        tail := op;
      }
      opsValid := false;
      if op != prev && op != next {
        list := list[..k] + [op] + list[k..];
        InsertIsDistinct(old(list), k, op);
        forall i: nat | i < |list| ensures LinkedAt(i) {
          InsertedNear(old(list), k, op, i);
          if i != k {
            ghost var j := if i < k then i else i - 1;
            assert old(LinkedAt(j));
            if k > 0 && j != k - 1 { DifferAt(old(list), j, k - 1); }
            if k < |old(list)| && j != k { DifferAt(old(list), j, k); }
          }
        }
      }
    }

    /** Takes the op out of the list it is in, if any. */
    method Detach(op: PcodeOp, ghost blocks: set<BlockBasic>, ghost all: set<PcodeOp>)
      requires Consistent(blocks, all) && op in all
      modifies blocks, all
      ensures Consistent(blocks, all) && op.inBlock == null
      ensures forall b :: b in blocks ==> b.list == Remove(old(b.list), op)
    {
      if op.inBlock != null {
        ghost var from := op.inBlock;
        ListsApart(blocks, all, from);
        assert from.Valid();
        NeighboursInList(from, op);
        ghost var k: nat :| k < |from.list| && from.list[k] == op;
        RemoveAt(from.list, k);
        op.inBlock.Unlink(op, k);
        forall o | o in all ensures Placed(o, blocks) {
          if o in from.list { NamesItsBlock(from, o); }
          assert old(Placed(o, blocks));
        }
      } else {
        NotInAnyList(blocks, all, op);
      }
    }

    /**
     Links the op in at place `k` of this block's list, out of the list it was in.  The
     neighbours are taken before the op leaves its list, so the result is consistent
     exactly when the op is neither of them.
     */
    method Link(op: PcodeOp, prev: PcodeOp?, next: PcodeOp?, ghost k: nat, ghost blocks: set<BlockBasic>, ghost all: set<PcodeOp>)
      requires Consistent(blocks, all) && this in blocks && op in all
      requires k <= |list| && prev == Before(list, k) && next == After(list, k)
      modifies blocks, all
      ensures op != prev && op != next <==> Consistent(blocks, all)
      ensures op != prev && op != next ==> list == Remove(old(list)[..k], op) + [op] + Remove(old(list)[k..], op)
      ensures op != prev && op != next ==> forall b :: b in blocks && b != this ==> b.list == Remove(old(b.list), op)
    {
      Detach(op, blocks, all);
      if op != prev && op != next { StillNeighbours(old(list), k, op); }
      Attach(op, prev, next, |Remove(old(list)[..k], op)|, blocks, all);
    }

    /** Links in an op that is in no list. */
    method Attach(op: PcodeOp, prev: PcodeOp?, next: PcodeOp?, ghost k: nat, ghost blocks: set<BlockBasic>, ghost all: set<PcodeOp>)
      requires Consistent(blocks, all) && this in blocks && op in all && op.inBlock == null
      requires prev != null ==> prev in list || prev == op
      requires next != null ==> next in list || next == op
      requires op != prev && op != next ==> k <= |list| && prev == Before(list, k) && next == After(list, k)
      modifies this, op, prev, next
      ensures op != prev && op != next <==> Consistent(blocks, all)
      ensures op != prev && op != next ==> list == old(list)[..k] + [op] + old(list)[k..]
    {
      NotInAnyList(blocks, all, op);
      ListsApart(blocks, all, this);
      Splice(op, prev, next, k);
      if op != prev && op != next {
        forall o | o in all ensures Placed(o, blocks) {
          if o in list { NamesItsBlock(this, o); }
          assert old(Placed(o, blocks));
        }
      } else if Consistent(blocks, all) {
        NotItsOwnNeighbour(blocks, all, op);
      }
    }

    // ----- the operations -----

    method AddOp(op: PcodeOp, ghost blocks: set<BlockBasic>, ghost all: set<PcodeOp>)
      requires Consistent(blocks, all) && this in blocks && op in all
      modifies blocks, all
      ensures Moved(op, |old(list)|, old(list), old(map b | b in blocks :: b.list), blocks, all)
    {
      Link(op, tail, null, |list|, blocks, all);
    }

    method InsertOpBegin(op: PcodeOp, ghost blocks: set<BlockBasic>, ghost all: set<PcodeOp>)
      requires Consistent(blocks, all) && this in blocks && op in all
      modifies blocks, all
      ensures Moved(op, 0, old(list), old(map b | b in blocks :: b.list), blocks, all)
    {
      Link(op, null, head, 0, blocks, all);
    }

    method InsertOpEnd(op: PcodeOp, ghost blocks: set<BlockBasic>, ghost all: set<PcodeOp>)
      requires Consistent(blocks, all) && this in blocks && op in all
      modifies blocks, all
      ensures Moved(op, |old(list)|, old(list), old(map b | b in blocks :: b.list), blocks, all)
    {
      Link(op, tail, null, |list|, blocks, all);
    }

    /** Before `follow`, or at the end when `follow` is not an op of this block or is `op` itself. */
    method InsertOpBefore(op: PcodeOp, follow: PcodeOp?, ghost blocks: set<BlockBasic>, ghost all: set<PcodeOp>)
      requires Consistent(blocks, all) && this in blocks && op in all && (follow != null ==> follow in all)
      modifies blocks, all
      ensures var k := if follow != null && follow in old(list) && follow != op then IndexOf(old(list), follow) else |old(list)|;
        Moved(op, k, old(list), old(map b | b in blocks :: b.list), blocks, all)
    {
      if follow != null { Membership(this, follow, blocks, all); }
      if follow != null && follow.inBlock == this && follow != op {
        ghost var k := IndexOf(list, follow);
        assert LinkedAt(k);
        Link(op, follow.blockPrev, follow, k, blocks, all);
        return;
      }
      Link(op, tail, null, |list|, blocks, all);
    }

    /** After `prev`, or at the end when `prev` is not an op of this block or is `op` itself. */
    method InsertOpAfter(op: PcodeOp, prev: PcodeOp?, ghost blocks: set<BlockBasic>, ghost all: set<PcodeOp>)
      requires Consistent(blocks, all) && this in blocks && op in all && (prev != null ==> prev in all)
      modifies blocks, all
      ensures var k := if prev != null && prev in old(list) && prev != op then IndexOf(old(list), prev) + 1 else |old(list)|;
        Moved(op, k, old(list), old(map b | b in blocks :: b.list), blocks, all)
    {
      if prev != null { Membership(this, prev, blocks, all); }
      if prev != null && prev.inBlock == this && prev != op {
        ghost var k := IndexOf(list, prev);
        assert LinkedAt(k);
        Link(op, prev, prev.blockNext, k + 1, blocks, all);
        return;
      }
      Link(op, tail, null, |list|, blocks, all);
    }

    method RemoveOp(op: PcodeOp, ghost blocks: set<BlockBasic>, ghost all: set<PcodeOp>)
      requires Consistent(blocks, all) && this in blocks && op in all
      modifies blocks, all
      ensures Consistent(blocks, all) && list == Remove(old(list), op)
      ensures forall b :: b in blocks && b != this ==> b.list == old(b.list)
    {
      Membership(this, op, blocks, all);
      ListsApart(blocks, all, this);
      if op.inBlock == this {
        Detach(op, blocks, all);
      }
    }

    /** The ops as a slice, rebuilt and the ops numbered when the list has changed. */
    method OpSlice() returns (r: seq<PcodeOp>)
      requires Valid()
      modifies this`ops, this`opsValid, (set o | o in list)`blockPos
      ensures Valid() && opsValid && r == list
    {
      if !opsValid {
        ops := [];
        var op := head;
        while op != null
          invariant |ops| <= |list| && ops == list[..|ops|] && op == After(list, |ops|)
          invariant forall i :: 0 <= i < |ops| ==> list[i].blockPos == i
          invariant !opsValid
          decreases |list| - |ops|
        {
          ghost var k := |ops|;
          assert old(LinkedAt(k));
          forall i: nat | i < k ensures list[i] != list[k] { DifferAt(list, i, k); }
          op.blockPos := |ops|;
          ops := ops + [op];
          op := op.blockNext;
        }
        opsValid := true;
        forall i: nat | i < |list| ensures LinkedAt(i) && NumberedAt(i) { assert old(LinkedAt(i)); }
      }
      r := ops;
    }

    /** The position of the op in the block, or -1 when it is not in it. */
    method OpPosition(op: PcodeOp, ghost blocks: set<BlockBasic>, ghost all: set<PcodeOp>) returns (pos: int)
      requires Consistent(blocks, all) && this in blocks && op in all
      modifies this`ops, this`opsValid, (set o | o in list)`blockPos
      ensures Consistent(blocks, all) && pos == if op in list then IndexOf(list, op) as int else -1
    {
      Membership(this, op, blocks, all);
      ListsApart(blocks, all, this);
      if op.inBlock != this { return -1; }
      var _ := OpSlice();
      ghost var k := IndexOf(list, op);
      assert NumberedAt(k);
      pos := op.blockPos;
      forall o | o in all ensures Placed(o, blocks) { assert old(Placed(o, blocks)); }
    }

    /**
     What an insertion does: unless the op already is a neighbour of the place, it leaves
     whatever list it was in and stands at place `k` of this one.
     */
    ghost predicate Moved(op: PcodeOp, k: nat, before: seq<PcodeOp>, lists: map<BlockBasic, seq<PcodeOp>>, blocks: set<BlockBasic>, all: set<PcodeOp>)
      requires k <= |before|
      reads this, blocks, all
    {
      && (op != Before(before, k) && op != After(before, k) <==> Consistent(blocks, all))
      && (Consistent(blocks, all) ==> list == Remove(before[..k], op) + [op] + Remove(before[k..], op))
      && (Consistent(blocks, all) ==> forall b :: b in blocks && b != this && b in lists ==> b.list == Remove(lists[b], op))
    }
  }

  ghost function IndexOf(s: seq<PcodeOp>, op: PcodeOp): (k: nat)
    requires op in s
    ensures k < |s| && s[k] == op
  {
    var k: nat :| k < |s| && s[k] == op;
    k
  }

  lemma Membership(b: BlockBasic, op: PcodeOp, blocks: set<BlockBasic>, all: set<PcodeOp>)
    requires Consistent(blocks, all) && b in blocks && op in all
    ensures op.inBlock == b <==> op in b.list
  {
    assert Placed(op, blocks);
    if op in b.list { NamesItsBlock(b, op); }
  }

  /** No op of a proper list is linked to itself. */
  lemma NotItsOwnNeighbour(blocks: set<BlockBasic>, all: set<PcodeOp>, op: PcodeOp)
    requires Consistent(blocks, all) && op in all && op.inBlock != null
    ensures op.blockNext != op
  {
    var b := op.inBlock;
    assert Placed(op, blocks);
    var i: nat :| i < |b.list| && b.list[i] == op;
    assert b.LinkedAt(i);
    if i + 1 < |b.list| { DifferAt(b.list, i, i + 1); }
  }

  /** Removing an op that is not one of them leaves two neighbours next to each other. */
  lemma StillNeighbours(s: seq<PcodeOp>, k: nat, op: PcodeOp)
    requires k <= |s| && Before(s, k) != op && After(s, k) != op
    ensures var r, k' := Remove(s, op), |Remove(s[..k], op)|;
      && r == Remove(s[..k], op) + Remove(s[k..], op)
      && Before(r, k') == Before(s, k) && After(r, k') == After(s, k)
  {
    var a, b := s[..k], s[k..];
    assert s == a + b;
    RemoveAppend(a, b, op);
    if a != [] { assert a[|a| - 1] == s[k - 1]; }
    if b != [] { RemoveFirst(b, op); }
  }

  lemma {:induction false} RemoveFirst(s: seq<PcodeOp>, op: PcodeOp)
    requires s != [] && s[0] != op
    ensures Remove(s, op) != [] && Remove(s, op)[0] == s[0]
  {
    if |s| > 1 { RemoveFirst(s[..|s| - 1], op); }
  }

  lemma NeighboursInList(b: BlockBasic, op: PcodeOp)
    requires b.Valid() && op in b.list
    ensures op.blockPrev != null ==> op.blockPrev in b.list
    ensures op.blockNext != null ==> op.blockNext in b.list
  {
    var k: nat :| k < |b.list| && b.list[k] == op;
    assert b.LinkedAt(k);
  }

  lemma NamesItsBlock(b: BlockBasic, o: PcodeOp)
    requires b.Valid() && o in b.list
    ensures o.inBlock == b
  {
    var i: nat :| i < |b.list| && b.list[i] == o;
    assert b.LinkedAt(i);
  }

  lemma ListsApart(blocks: set<BlockBasic>, all: set<PcodeOp>, b: BlockBasic)
    requires Consistent(blocks, all) && b in blocks
    ensures forall c, o :: c in blocks && c != b && o in c.list ==> o !in b.list
  {
    forall c, o | c in blocks && c != b && o in c.list ensures o !in b.list {
      NamesItsBlock(c, o);
      if o in b.list { NamesItsBlock(b, o); }
    }
  }

  lemma NotInAnyList(blocks: set<BlockBasic>, all: set<PcodeOp>, op: PcodeOp)
    requires Consistent(blocks, all) && op.inBlock == null
    ensures forall b :: b in blocks ==> op !in b.list
  {
    forall b | b in blocks ensures op !in b.list {
      if op in b.list { NamesItsBlock(b, op); }
    }
  }

  /** The op at a place after an insertion, and the ones next to it. */
  lemma InsertedNear(s: seq<PcodeOp>, k: nat, op: PcodeOp, i: nat)
    requires k <= |s| && i <= |s|
    ensures var r := s[..k] + [op] + s[k..];
      && r[i] == (if i < k then s[i] else if i == k then op else s[i - 1])
      && Before(r, i) == (if i <= k then Before(s, i) else if i == k + 1 then op else s[i - 2])
      && After(r, i + 1) == (if i + 1 < k then s[i + 1] else if i + 1 == k then op else After(s, i))
  {
  }

  /** The op at a place after a removal, and the ones next to it. */
  lemma RemovedNear(s: seq<PcodeOp>, k: nat, i: nat)
    requires k < |s| && i < |s| - 1
    ensures var r := s[..k] + s[k + 1..];
      && r[i] == (if i < k then s[i] else s[i + 1])
      && Before(r, i) == (if i <= k then Before(s, i) else s[i])
      && After(r, i + 1) == (if i + 1 < k then s[i + 1] else After(s, i + 2))
  {
  }

  lemma InsertIsDistinct(s: seq<PcodeOp>, k: nat, op: PcodeOp)
    requires Distinct(s) && op !in s && k <= |s|
    ensures Distinct(s[..k] + [op] + s[k..])
  {
    var r := s[..k] + [op] + s[k..];
    forall i: nat, j: nat | i < j < |r| ensures Differ(r, i, j) {
      if i != k && j != k { DifferAt(s, if i < k then i else i - 1, if j < k then j else j - 1); }
    }
  }

  /** Every block is well linked, and an op is in the list of the block it names and of no other. */
  ghost predicate Consistent(blocks: set<BlockBasic>, all: set<PcodeOp>)
    reads blocks, all
  {
    && (forall b :: b in blocks ==> InUniverse(b.list, all) && b.Valid())
    && (forall o :: o in all ==> Placed(o, blocks))
  }

  ghost predicate InUniverse(list: seq<PcodeOp>, all: set<PcodeOp>) {
    forall o :: o in list ==> o in all
  }

  ghost predicate Placed(o: PcodeOp, blocks: set<BlockBasic>)
    reads o, blocks
  {
    o.inBlock != null ==> o.inBlock in blocks && o in o.inBlock.list
  }
}

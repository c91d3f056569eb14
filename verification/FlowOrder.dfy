/**
 Flow order (pkg/bridge/bridge.go:2427-2435): where an instruction leads, and what it
 means for the instructions of a function to be walked in the order of flow.
 */
module FlowOrders {
  import opened Options
  import opened Instructions

  /** A decoded instruction; `next` is empty when the address after it is not valid. */
  datatype Record = Record(addr: Address, next: Option<Address>, ops: seq<RawOp>)

  /** The instructions, the entry, and the jump tables by the offset of their instruction. */
  datatype Program = Program(records: seq<Record>, entry: Address, tables: map<nat, seq<nat>>)

  const CONSTANT_SPACE: nat := 0

  function InputAddress(input: Input): Option<Address> {
    match input
    case NoInput => None
    case ConstantInput(offset, _) => Some(Address(CONSTANT_SPACE, offset))
    case AddressInput(a) => Some(a)
  }

  // ----- where an instruction leads -----

  ghost predicate At(p: Program, q: nat, a: Address) { q < |p.records| && p.records[q].addr == a }

  ghost predicate Falls(ops: seq<RawOp>) { exists n: nat :: IsCut(ops, n) && Leaves(ops, n) }

  ghost predicate Kept(ops: seq<RawOp>, i: nat) { i < |ops| && exists n: nat :: IsCut(ops, n) && i < n }

  /** Op `i` branches out of the instruction to `a`. */
  predicate BranchesTo(ops: seq<RawOp>, i: nat, a: Address) {
    i < |ops| && ops[i].IsBranch() && RelativeTarget(ops, i).None? && InputAddress(ops[i].input) == Some(a)
  }

  ghost predicate FallsTo(p: Program, r: nat, a: Address) {
    r < |p.records| && Falls(p.records[r].ops) && p.records[r].next == Some(a)
  }

  ghost predicate JumpsTo(p: Program, r: nat, a: Address) {
    r < |p.records| && exists i: nat :: Kept(p.records[r].ops, i) && BranchesTo(p.records[r].ops, i, a)
  }

  /** The instruction ends in an indirect branch whose table `t` is known. */
  ghost predicate UsesTable(p: Program, r: nat, t: nat) {
    && r < |p.records| && t == p.records[r].addr.offset && t in p.tables
    && exists i: nat :: Kept(p.records[r].ops, i) && p.records[r].ops[i].code == BRANCHIND
  }

  ghost predicate InTable(p: Program, t: nat, a: Address) {
    t in p.tables && a.space == p.entry.space && a.offset in p.tables[t]
  }

  ghost predicate TablesTo(p: Program, r: nat, a: Address) { exists t: nat :: UsesTable(p, r, t) && InTable(p, t, a) }

  ghost predicate Leads(p: Program, r: nat, a: Address) { FallsTo(p, r, a) || JumpsTo(p, r, a) || TablesTo(p, r, a) }

  // ----- flow order -----

  /** One of the first `n` records walked leads to `a`. */
  ghost predicate LedTo(p: Program, walk: seq<nat>, n: nat, a: Address) {
    exists j: nat :: j < n && j < |walk| && Leads(p, walk[j], a)
  }

  /** The `k`-th record is the entry, or an earlier one leads to it. */
  ghost predicate ReachedAt(p: Program, walk: seq<nat>, k: nat) {
    k < |walk| && walk[k] < |p.records| && (p.records[walk[k]].addr == p.entry || LedTo(p, walk, k, p.records[walk[k]].addr))
  }

  ghost predicate Reached(p: Program, walk: seq<nat>) { forall k: nat :: k < |walk| ==> ReachedAt(p, walk, k) }

  /** What the `k`-th record falls through to comes right after it, or came before. */
  ghost predicate FallsNextAt(p: Program, walk: seq<nat>, k: nat) {
    k < |walk| && forall q: nat, a :: At(p, q, a) && FallsTo(p, walk[k], a) ==> q in walk[..k] || (k + 1 < |walk| && walk[k + 1] == q)
  }

  ghost predicate Flowing(p: Program, walk: seq<nat>) { forall k: nat :: k < |walk| ==> FallsNextAt(p, walk, k) }

  ghost predicate ClosedAt(p: Program, walk: seq<nat>, r: nat, q: nat, a: Address) {
    r in walk && Leads(p, r, a) && At(p, q, a) ==> q in walk
  }

  /**
   A walk in flow order: from the entry, each record led to by an earlier one, nothing
   that flow leads to left out, and fall-through first.
   */
  ghost predicate InFlowOrder(p: Program, walk: seq<nat>) {
    && (forall q: nat :: At(p, q, p.entry) ==> walk != [] && walk[0] == q)
    && Reached(p, walk)
    && (forall r: nat, q: nat, a :: ClosedAt(p, walk, r, q, a))
    && Flowing(p, walk)
  }

  // ----- what the walk has still to do -----

  /** A stacked address is the entry's, or one walked leads there. */
  ghost predicate Backed(p: Program, walk: seq<nat>, a: Address) { a == p.entry || LedTo(p, walk, |walk|, a) }

  ghost predicate TableBacked(p: Program, walk: seq<nat>, t: nat) { exists j: nat :: j < |walk| && UsesTable(p, walk[j], t) }

  ghost predicate Handled(p: Program, walk: seq<nat>, stack: seq<Address>, a: Address) {
    a in stack || forall q: nat :: At(p, q, a) ==> q in walk
  }

  /** The branch targets of `r` have been walked or are stacked. */
  ghost predicate JumpDone(p: Program, walk: seq<nat>, stack: seq<Address>, r: nat, a: Address) {
    JumpsTo(p, r, a) ==> Handled(p, walk, stack, a)
  }

  ghost predicate Emptied(p: Program, walk: seq<nat>, stack: seq<Address>, t: nat) {
    forall a :: InTable(p, t, a) ==> Handled(p, walk, stack, a)
  }

  /** The table of `r` waits, or its targets have been walked or are stacked. */
  ghost predicate TableDone(p: Program, walk: seq<nat>, stack: seq<Address>, waiting: set<nat>, r: nat, t: nat) {
    UsesTable(p, r, t) ==> t in waiting || Emptied(p, walk, stack, t)
  }

  ghost predicate Sound(p: Program, walk: seq<nat>, stack: seq<Address>, waiting: set<nat>) {
    && Reached(p, walk)
    && (forall a :: a in stack ==> Backed(p, walk, a))
    && (forall t :: t in waiting ==> TableBacked(p, walk, t))
  }

  /** Of the records `done`, nothing they lead to by a branch or a table is forgotten. */
  ghost predicate Complete(p: Program, done: seq<nat>, walk: seq<nat>, stack: seq<Address>, waiting: set<nat>) {
    && (forall r, a :: r in done ==> JumpDone(p, walk, stack, r, a))
    && (forall r, t :: r in done ==> TableDone(p, walk, stack, waiting, r, t))
  }

  ghost predicate Tracked(p: Program, walk: seq<nat>, stack: seq<Address>, waiting: set<nat>) {
    Sound(p, walk, stack, waiting) && Complete(p, walk, walk, stack, waiting)
  }

  // ----- longer walks -----

  lemma LedMore(p: Program, walk: seq<nat>, r: nat, n: nat, a: Address)
    requires LedTo(p, walk, n, a)
    ensures LedTo(p, walk + [r], n, a) && LedTo(p, walk + [r], |walk| + 1, a)
  {
    var j: nat :| j < n && j < |walk| && Leads(p, walk[j], a);
    assert (walk + [r])[j] == walk[j];
  }

  lemma BackedMore(p: Program, walk: seq<nat>, r: nat, a: Address)
    requires Backed(p, walk, a)
    ensures Backed(p, walk + [r], a)
  {
    if a != p.entry { LedMore(p, walk, r, |walk|, a); }
  }

  lemma TableBackedMore(p: Program, walk: seq<nat>, r: nat, t: nat)
    requires TableBacked(p, walk, t)
    ensures TableBacked(p, walk + [r], t)
  {
    var j: nat :| j < |walk| && UsesTable(p, walk[j], t);
    assert (walk + [r])[j] == walk[j];
  }

  lemma ReachedMore(p: Program, walk: seq<nat>, r: nat)
    requires Reached(p, walk) && r < |p.records| && Backed(p, walk, p.records[r].addr)
    ensures Reached(p, walk + [r])
  {
    var more := walk + [r];
    forall k: nat | k < |more| ensures ReachedAt(p, more, k) {
      if k < |walk| {
        assert ReachedAt(p, walk, k);
        if p.records[walk[k]].addr != p.entry { LedMore(p, walk, r, k, p.records[walk[k]].addr); }
      } else if p.records[r].addr != p.entry {
        LedMore(p, walk, r, |walk|, p.records[r].addr);
      }
    }
  }

  /** Walking the record on top of the stack. */
  lemma WalkTop(p: Program, walk: seq<nat>, stack: seq<Address>, waiting: set<nat>, r: nat)
    requires r < |p.records| && Tracked(p, walk, stack + [p.records[r].addr], waiting) && OneEach(p)
    ensures Sound(p, walk + [r], stack, waiting) && Complete(p, walk, walk + [r], stack, waiting)
  {
    var more, full, top := walk + [r], stack + [p.records[r].addr], p.records[r].addr;
    assert top in full && Backed(p, walk, top);
    ReachedMore(p, walk, r);
    forall a | a in stack ensures Backed(p, more, a) { assert a in full; BackedMore(p, walk, r, a); }
    forall t | t in waiting ensures TableBacked(p, more, t) { TableBackedMore(p, walk, r, t); }
    forall q: nat | At(p, q, top) ensures q in more { assert At(p, r, top); }
    CompleteShorter(p, walk, walk, more, stack, top, waiting);
  }

  /** No two records have the same address. */
  ghost predicate OneEach(p: Program) { forall q: nat, q': nat, a :: At(p, q, a) && At(p, q', a) ==> q == q' }

  lemma HandledShorter(p: Program, walk: seq<nat>, more: seq<nat>, stack: seq<Address>, top: Address, a: Address)
    requires Handled(p, walk, stack + [top], a) && (forall q :: q in walk ==> q in more) && forall q: nat :: At(p, q, top) ==> q in more
    ensures Handled(p, more, stack, a)
  {
  }

  /** What was stacked on top is walked, or is no record: it need not be stacked any more. */
  lemma CompleteShorter(p: Program, done: seq<nat>, walk: seq<nat>, more: seq<nat>, stack: seq<Address>, top: Address, waiting: set<nat>)
    requires Complete(p, done, walk, stack + [top], waiting)
    requires (forall q :: q in walk ==> q in more) && forall q: nat :: At(p, q, top) ==> q in more
    ensures Complete(p, done, more, stack, waiting)
  {
    forall r, a | r in done ensures JumpDone(p, more, stack, r, a) {
      assert JumpDone(p, walk, stack + [top], r, a);
      if JumpsTo(p, r, a) { HandledShorter(p, walk, more, stack, top, a); }
    }
    forall r, t | r in done ensures TableDone(p, more, stack, waiting, r, t) {
      assert TableDone(p, walk, stack + [top], waiting, r, t);
      if UsesTable(p, r, t) && t !in waiting {
        forall a | InTable(p, t, a) ensures Handled(p, more, stack, a) { HandledShorter(p, walk, more, stack, top, a); }
      }
    }
  }

  /** A top that is walked already, or is no record, is taken off. */
  lemma DropTop(p: Program, walk: seq<nat>, stack: seq<Address>, top: Address, waiting: set<nat>)
    requires Tracked(p, walk, stack + [top], waiting) && forall q: nat :: At(p, q, top) ==> q in walk
    ensures Tracked(p, walk, stack, waiting)
  {
    forall a | a in stack ensures Backed(p, walk, a) { assert a in stack + [top]; }
    CompleteShorter(p, walk, walk, walk, stack, top, waiting);
  }

  /** More may be stacked and more tables may wait. */
  lemma CompleteLonger(p: Program, done: seq<nat>, walk: seq<nat>, stack: seq<Address>, stack': seq<Address>, waiting: set<nat>, waiting': set<nat>)
    requires Complete(p, done, walk, stack, waiting) && (forall a :: a in stack ==> a in stack') && waiting <= waiting'
    ensures Complete(p, done, walk, stack', waiting')
  {
    forall r, a | r in done ensures JumpDone(p, walk, stack', r, a) { assert JumpDone(p, walk, stack, r, a); }
    forall r, t | r in done ensures TableDone(p, walk, stack', waiting', r, t) {
      assert TableDone(p, walk, stack, waiting, r, t);
      if Emptied(p, walk, stack, t) { EmptiedLonger(p, walk, stack, stack', t); }
    }
  }

  lemma EmptiedLonger(p: Program, walk: seq<nat>, stack: seq<Address>, stack': seq<Address>, t: nat)
    requires Emptied(p, walk, stack, t) && forall a :: a in stack ==> a in stack'
    ensures Emptied(p, walk, stack', t)
  {
    forall a | InTable(p, t, a) ensures Handled(p, walk, stack', a) { assert Handled(p, walk, stack, a); }
  }

  /** Stacking addresses that the walk leads to keeps it sound. */
  lemma SoundLonger(p: Program, walk: seq<nat>, stack: seq<Address>, stack': seq<Address>, waiting: set<nat>, waiting': set<nat>)
    requires Sound(p, walk, stack, waiting)
    requires forall a :: a in stack' ==> a in stack || Backed(p, walk, a)
    requires forall t :: t in waiting' ==> t in waiting || TableBacked(p, walk, t)
    ensures Sound(p, walk, stack', waiting')
  {
  }

  /** A table whose targets have been handled no longer waits. */
  lemma Release(p: Program, walk: seq<nat>, stack: seq<Address>, waiting: set<nat>, waiting': set<nat>, t: nat)
    requires Tracked(p, walk, stack, waiting) && Emptied(p, walk, stack, t) && waiting - {t} <= waiting' <= waiting
    ensures Tracked(p, walk, stack, waiting')
  {
    forall r, u | r in walk ensures TableDone(p, walk, stack, waiting', r, u) { assert TableDone(p, walk, stack, waiting, r, u); }
  }

  // ----- fall-through first -----

  /** Only the last record may still wait for what it falls through to, at `top`. */
  ghost predicate FlowingTo(p: Program, walk: seq<nat>, top: Address) {
    forall k: nat :: k < |walk| ==> FallsNextAt(p, walk, k) || (k == |walk| - 1 && OnlyTo(p, walk[k], top))
  }

  ghost predicate OnlyTo(p: Program, r: nat, top: Address) { forall a :: FallsTo(p, r, a) ==> a == top }

  lemma FallsNextMore(p: Program, walk: seq<nat>, k: nat, r: nat)
    requires FallsNextAt(p, walk, k)
    ensures FallsNextAt(p, walk + [r], k)
  {
    assert (walk + [r])[..k] == walk[..k];
  }

  /** The record at the top is walked: the one before it is served. */
  lemma ServeTop(p: Program, walk: seq<nat>, r: nat)
    requires r < |p.records| && FlowingTo(p, walk, p.records[r].addr) && OneEach(p)
    ensures forall k: nat :: k < |walk| ==> FallsNextAt(p, walk + [r], k)
  {
    forall k: nat | k < |walk| ensures FallsNextAt(p, walk + [r], k) {
      if FallsNextAt(p, walk, k) {
        FallsNextMore(p, walk, k, r);
      } else {
        assert At(p, r, p.records[r].addr);
      }
    }
  }

  /** What the last record falls through to is no record, or walked already. */
  lemma ServeLast(p: Program, walk: seq<nat>, top: Address)
    requires walk != [] && FlowingTo(p, walk, top) && forall q: nat :: At(p, q, top) ==> q in walk[..|walk| - 1]
    ensures Flowing(p, walk)
  {
    forall k: nat | k < |walk| ensures FallsNextAt(p, walk, k) {
      if k == |walk| - 1 && OnlyTo(p, walk[k], top) {
        forall q: nat, a | At(p, q, a) && FallsTo(p, walk[k], a) ensures q in walk[..k] {
        }
      }
    }
  }

  lemma WalkBegins(p: Program)
    ensures Tracked(p, [], [p.entry], {}) && Flowing(p, [])
  {
  }

  /** When nothing is stacked and no table waits, the walk is in flow order. */
  lemma WalkEnds(p: Program, walk: seq<nat>)
    requires Tracked(p, walk, [], {}) && Flowing(p, walk) && forall q: nat :: At(p, q, p.entry) ==> walk != [] && walk[0] == q
    ensures InFlowOrder(p, walk)
  {
    forall r: nat, q: nat, a ensures ClosedAt(p, walk, r, q, a) {
      if r in walk && Leads(p, r, a) && At(p, q, a) { LedIsWalked(p, walk, r, q, a); }
    }
  }

  lemma LedIsWalked(p: Program, walk: seq<nat>, r: nat, q: nat, a: Address)
    requires Tracked(p, walk, [], {}) && Flowing(p, walk) && r in walk && Leads(p, r, a) && At(p, q, a)
    ensures q in walk
  {
    if FallsTo(p, r, a) {
      var k: nat :| k < |walk| && walk[k] == r;
      assert FallsNextAt(p, walk, k);
    } else if JumpsTo(p, r, a) {
      assert JumpDone(p, walk, [], r, a);
    } else {
      var t: nat :| UsesTable(p, r, t) && InTable(p, t, a);
      assert TableDone(p, walk, [], {}, r, t);
      assert Handled(p, walk, [], a);
    }
  }
}

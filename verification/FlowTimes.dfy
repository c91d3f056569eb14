/**
 Numbering the ops of a function in flow order (pkg/bridge/bridge.go:2427-2556): from
 the entry, fall-through first, branch targets stacked, instructions already seen
 skipped, then the targets of jump tables, then whatever flow never reached.
 */
module FlowTimes {
  import opened Options
  import opened Sorting
  import opened Instructions
  import opened FlowOrders

  predicate Less(a: Address, b: Address) {
    a.space < b.space || (a.space == b.space && a.offset < b.offset)
  }

  /** Addresses are distinct and every instruction is followed by a later address. */
  ghost predicate WellFormed(records: seq<Record>) {
    && (forall i: nat, j: nat :: i < j < |records| ==> AddressesApart(records, i, j))
    && (forall i: nat :: i < |records| ==> Advances(records[i]))
  }

  ghost predicate AddressesApart(records: seq<Record>, i: nat, j: nat) {
    i < |records| && j < |records| && records[i].addr != records[j].addr
  }

  ghost predicate Advances(r: Record) { r.next.Some? ==> Less(r.addr, r.next.value) }

  // ----- what a numbering is -----

  function OpCount(records: seq<Record>, r: nat): nat { if r < |records| then |records[r].ops| else 0 }

  function OpsOf(records: seq<Record>, order: seq<nat>): nat {
    if order == [] then 0 else OpsOf(records, order[..|order| - 1]) + OpCount(records, order[|order| - 1])
  }

  function TotalOps(records: seq<Record>): nat {
    if records == [] then 0 else TotalOps(records[..|records| - 1]) + |records[|records| - 1].ops|
  }

  /** The ops of record `r` have the times from `from` on. */
  ghost predicate Consecutive(times: seq<nat>, from: nat) {
    forall i :: 0 <= i < |times| ==> times[i] == from + i
  }

  ghost predicate InOrder(records: seq<Record>, order: seq<nat>) {
    && (forall i :: 0 <= i < |order| ==> order[i] < |records|)
    && Distinct(order)
  }

  ghost predicate Distinct(order: seq<nat>) {
    forall i: nat, j: nat :: i < j < |order| ==> ApartIn(order, i, j)
  }

  ghost predicate ApartIn(order: seq<nat>, i: nat, j: nat) {
    i < |order| && j < |order| && order[i] != order[j]
  }

  lemma DistinctPrefix(order: seq<nat>, n: nat)
    requires Distinct(order) && n <= |order|
    ensures Distinct(order[..n])
  {
    forall i: nat, j: nat | i < j < n ensures ApartIn(order[..n], i, j) { assert ApartIn(order, i, j); }
  }

  lemma DistinctMore(order: seq<nat>, r: nat)
    requires Distinct(order) && r !in order
    ensures Distinct(order + [r])
  {
    forall i: nat, j: nat | i < j < |order| + 1 ensures ApartIn(order + [r], i, j) {
      if j < |order| { assert ApartIn(order, i, j); }
    }
  }

  ghost predicate NumberedAt(records: seq<Record>, times: seq<seq<nat>>, order: seq<nat>, k: nat)
    requires InOrder(records, order) && |times| == |records|
  {
    k < |order| ==> Consecutive(times[order[k]], OpsOf(records, order[..k]))
  }

  ghost predicate Shaped(records: seq<Record>, times: seq<seq<nat>>) {
    |times| == |records| && forall r :: 0 <= r < |records| ==> |times[r]| == |records[r].ops|
  }

  /** The records of `order` are numbered one after the other. */
  ghost predicate Numbered(records: seq<Record>, times: seq<seq<nat>>, order: seq<nat>, counter: nat) {
    && Shaped(records, times)
    && InOrder(records, order)
    && counter == OpsOf(records, order)
    && forall k: nat :: k < |order| ==> NumberedAt(records, times, order, k)
  }

  lemma {:induction false} OpsOfPrefix(records: seq<Record>, order: seq<nat>, k: nat)
    requires InOrder(records, order) && k < |order|
    ensures OpsOf(records, order[..k]) + OpCount(records, order[k]) == OpsOf(records, order[..k + 1])
    ensures OpsOf(records, order[..k + 1]) <= OpsOf(records, order)
    decreases |order|
  {
    var init := order[..|order| - 1];
    DistinctPrefix(order, |order| - 1);
    if k == |order| - 1 {
      assert order[..k + 1] == order;
    } else {
      assert init[..k] == order[..k] && init[..k + 1] == order[..k + 1] && init[k] == order[k];
      OpsOfPrefix(records, init, k);
    }
  }

  /** Numbering one more record. */
  lemma NumberNext(records: seq<Record>, times: seq<seq<nat>>, order: seq<nat>, counter: nat, r: nat, mine: seq<nat>)
    requires Numbered(records, times, order, counter) && r < |records| && r !in order
    requires |mine| == |records[r].ops| && Consecutive(mine, counter)
    ensures Numbered(records, times[r := mine], order + [r], counter + |mine|)
  {
    var order', times' := order + [r], times[r := mine];
    assert order'[..|order|] == order;
    DistinctMore(order, r);
    forall k: nat | k < |order'| ensures NumberedAt(records, times', order', k) {
      if k < |order| {
        assert order'[..k] == order[..k] && order'[k] == order[k];
        assert NumberedAt(records, times, order, k);
      }
    }
  }

  // ----- a complete numbering -----

  /** Every op has a time of its own, together they are `0..N-1`, and each instruction's are consecutive. */
  ghost predicate FlowNumbered(records: seq<Record>, times: seq<seq<nat>>) {
    && Shaped(records, times)
    && (forall r :: 0 <= r < |records| ==> RecordNumbered(records, times, r))
    && (forall r, r' :: 0 <= r < r' < |records| ==> TimesApart(times, r, r'))
    && (forall t: nat :: t < TotalOps(records) ==> TimeUsed(times, t))
  }

  ghost predicate RecordNumbered(records: seq<Record>, times: seq<seq<nat>>, r: nat) {
    r < |times| && exists from: nat :: Consecutive(times[r], from) && from + |times[r]| <= TotalOps(records)
  }

  ghost predicate TimesApart(times: seq<seq<nat>>, r: nat, r': nat) {
    r < |times| && r' < |times| && forall i, j :: 0 <= i < |times[r]| && 0 <= j < |times[r']| ==> times[r][i] != times[r'][j]
  }

  ghost predicate TimeUsed(times: seq<seq<nat>>, t: nat) {
    exists r: nat, i: nat :: UsedBy(times, t, r, i)
  }

  ghost predicate UsedBy(times: seq<seq<nat>>, t: nat, r: nat, i: nat) {
    r < |times| && i < |times[r]| && times[r][i] == t
  }

  lemma {:induction false} OpsOfLater(records: seq<Record>, order: seq<nat>, k: nat, k': nat)
    requires InOrder(records, order) && k < k' <= |order|
    ensures OpsOf(records, order[..k + 1]) <= OpsOf(records, order[..k'])
  {
    assert order[..k'][..k + 1] == order[..k + 1];
    DistinctPrefix(order, k');
    OpsOfPrefix(records, order[..k'], k);
  }

  lemma {:induction false} OrderedTimesApart(records: seq<Record>, times: seq<seq<nat>>, order: seq<nat>, counter: nat, k: nat, k': nat)
    requires Numbered(records, times, order, counter) && k < k' < |order|
    ensures TimesApart(times, order[k], order[k']) && TimesApart(times, order[k'], order[k])
  {
    assert NumberedAt(records, times, order, k) && NumberedAt(records, times, order, k');
    OpsOfPrefix(records, order, k);
    OpsOfLater(records, order, k, k');
  }

  /** The record whose run of times holds `t`. */
  lemma {:induction false} TimeIsUsed(records: seq<Record>, times: seq<seq<nat>>, order: seq<nat>, counter: nat, t: nat, n: nat)
    requires Numbered(records, times, order, counter) && n <= |order| && t < OpsOf(records, order[..n])
    ensures TimeUsed(times, t)
  {
    if n > 0 {
      var k := n - 1;
      OpsOfPrefix(records, order, k);
      assert NumberedAt(records, times, order, k);
      var from := OpsOf(records, order[..k]);
      if t < from {
        TimeIsUsed(records, times, order, counter, t, k);
      } else {
        assert UsedBy(times, t, order[k], t - from);
      }
    }
  }

  // ----- a permutation counts every op -----

  ghost predicate IsPermutation(order: seq<nat>, n: nat) {
    && (forall i :: 0 <= i < |order| ==> order[i] < n)
    && (forall k: nat :: k < n ==> k in order)
    && Distinct(order)
  }

  function Without(order: seq<nat>, p: nat): seq<nat>
    requires p < |order|
  {
    order[..p] + order[p + 1..]
  }

  lemma {:induction false} OpsOfAppend(records: seq<Record>, a: seq<nat>, b: seq<nat>)
    ensures OpsOf(records, a + b) == OpsOf(records, a) + OpsOf(records, b)
  {
    if b == [] {
      assert a + b == a;
    } else {
      var b' := b[..|b| - 1];
      assert (a + b)[..|a + b| - 1] == a + b';
      OpsOfAppend(records, a, b');
    }
  }

  lemma {:induction false} OpsOfWithout(records: seq<Record>, order: seq<nat>, p: nat)
    requires p < |order|
    ensures OpsOf(records, order) == OpsOf(records, Without(order, p)) + OpCount(records, order[p])
  {
    var a, b := order[..p], order[p + 1..];
    assert order == a + ([order[p]] + b);
    OpsOfAppend(records, a, [order[p]] + b);
    OpsOfAppend(records, [order[p]], b);
    OpsOfAppend(records, a, b);
    assert [order[p]][..0] == [];
  }

  lemma {:induction false} OpsOfFewer(records: seq<Record>, order: seq<nat>, n: nat)
    requires n <= |records| && forall i :: 0 <= i < |order| ==> order[i] < n
    ensures OpsOf(records, order) == OpsOf(records[..n], order)
  {
    if order != [] {
      OpsOfFewer(records, order[..|order| - 1], n);
    }
  }

  lemma {:induction false} PermutationCountsAll(records: seq<Record>, order: seq<nat>)
    requires IsPermutation(order, |records|)
    ensures OpsOf(records, order) == TotalOps(records)
  {
    if records != [] {
      var n := |records| - 1;
      assert n in order;
      var p: nat :| p < |order| && order[p] == n;
      var rest := Without(order, p);
      OpsOfWithout(records, order, p);
      RestIsPermutation(order, p, n);
      OpsOfFewer(records, rest, n);
      PermutationCountsAll(records[..n], rest);
    }
  }

  lemma {:induction false} RestIsPermutation(order: seq<nat>, p: nat, n: nat)
    requires IsPermutation(order, n + 1) && p < |order| && order[p] == n
    ensures IsPermutation(Without(order, p), n)
  {
    var rest := Without(order, p);
    forall i: nat, j: nat | i < j < |rest| ensures ApartIn(rest, i, j) {
      assert ApartIn(order, if i < p then i else i + 1, if j < p then j else j + 1);
    }
    forall i: nat | i < |rest| ensures rest[i] < n {
      var q := if i < p then i else i + 1;
      assert q < p ==> ApartIn(order, q, p);
      assert p < q ==> ApartIn(order, p, q);
    }
    forall i | 0 <= i < |rest| ensures rest[i] == order[if i < p then i else i + 1] {}
    forall k: nat | k < n ensures k in rest {
      assert k in order;
      var i :| 0 <= i < |order| && order[i] == k;
      assert rest[if i < p then i else i - 1] == k;
    }
  }

  lemma {:induction false} CompleteIsNumbered(records: seq<Record>, times: seq<seq<nat>>, order: seq<nat>, counter: nat)
    requires Numbered(records, times, order, counter) && IsPermutation(order, |records|)
    ensures FlowNumbered(records, times)
  {
    PermutationCountsAll(records, order);
    assert order[..|order|] == order;
    forall r: nat | r < |records| ensures RecordNumbered(records, times, r) {
      var k := PlaceOf(order, r);
      assert NumberedAt(records, times, order, k);
      OpsOfPrefix(records, order, k);
    }
    forall r: nat, r': nat | r < r' < |records| ensures TimesApart(times, r, r') {
      var k := PlaceOf(order, r);
      var k' := PlaceOf(order, r');
      OrderedTimesApart(records, times, order, counter, if k < k' then k else k', if k < k' then k' else k);
    }
    forall t: nat | t < TotalOps(records) ensures TimeUsed(times, t) {
      TimeIsUsed(records, times, order, counter, t, |order|);
    }
  }

  lemma PlaceOf(order: seq<nat>, r: nat) returns (k: nat)
    requires r in order
    ensures k < |order| && order[k] == r
  {
    k :| k < |order| && order[k] == r;
  }

  // ----- addresses in order -----

  ghost predicate Sorted(addrs: seq<Address>) {
    forall i, j :: 0 <= i < j < |addrs| ==> Less(addrs[i], addrs[j])
  }

  predicate NotAfter(a: Address, b: Address) { !Less(b, a) }

  /** The addresses in order; distinct ones come out strictly increasing. */
  function SortAddrs(addrs: seq<Address>): (r: seq<Address>)
    requires forall i, j :: 0 <= i < j < |addrs| ==> addrs[i] != addrs[j]
    ensures Sorted(r)
    ensures forall b :: b in r <==> b in addrs
  {
    var r := SortBy(addrs, NotAfter);
    PermutationOfDistinct(r, addrs);
    assert forall i, j :: 0 <= i < j < |r| ==> NotAfter(r[i], r[j]) && r[i] != r[j];
    r
  }

  ghost function KnownSet(records: seq<Record>): set<Address> {
    set i | 0 <= i < |records| :: records[i].addr
  }

  ghost predicate Indexed(records: seq<Record>, byAddr: map<Address, nat>) {
    && (forall i: nat :: i < |records| ==> IndexedAt(records, byAddr, i))
    && (forall a :: a in byAddr ==> IndexOf(records, byAddr, a))
  }

  ghost predicate IndexedAt(records: seq<Record>, byAddr: map<Address, nat>, i: nat) {
    i < |records| && records[i].addr in byAddr && byAddr[records[i].addr] == i
  }

  ghost predicate IndexOf(records: seq<Record>, byAddr: map<Address, nat>, a: Address) {
    a in byAddr && byAddr[a] < |records| && records[byAddr[a]].addr == a
  }

  /** The visited addresses are those of the records numbered. */
  ghost predicate Seen(records: seq<Record>, visited: set<Address>, order: seq<nat>) {
    && (forall r: nat :: r < |records| ==> SeenAt(records, visited, order, r))
    && visited <= KnownSet(records)
  }

  ghost predicate SeenAt(records: seq<Record>, visited: set<Address>, order: seq<nat>, r: nat) {
    r < |records| && (records[r].addr in visited <==> r in order)
  }

  lemma SeenNext(records: seq<Record>, visited: set<Address>, order: seq<nat>, r: nat)
    requires WellFormed(records) && Seen(records, visited, order) && r < |records|
    ensures Seen(records, visited + {records[r].addr}, order + [r])
  {
    var visited', order' := visited + {records[r].addr}, order + [r];
    forall q: nat | q < |records| ensures SeenAt(records, visited', order', q) {
      assert SeenAt(records, visited, order, q);
      assert q < r ==> AddressesApart(records, q, r);
      assert r < q ==> AddressesApart(records, r, q);
    }
    assert records[r].addr in KnownSet(records);
  }

  lemma VisitingCounts(known: set<Address>, visited: set<Address>, a: Address)
    requires a in known && a !in visited
    ensures |known - (visited + {a})| < |known - visited|
  {
    assert known - (visited + {a}) == (known - visited) - {a};
  }

  /** No visited address lies after `at` and before the bound. */
  ghost predicate Frontier(visited: set<Address>, at: Address, bound: Option<Address>) {
    && (forall v :: v in visited && Less(at, v) ==> bound.Some? && !Less(v, bound.value))
    && (bound.Some? ==> Less(at, bound.value) && bound.value in visited)
  }

  /** Moving on to a later address below the bound meets nothing visited. */
  lemma FrontierMoves(visited: set<Address>, at: Address, bound: Option<Address>, next: Address)
    requires Frontier(visited, at, bound) && Less(at, next)
    requires bound.None? || Less(next, bound.value)
    ensures Frontier(visited + {at}, next, bound) && next !in visited + {at}
  {
  }

  /** The first visited instruction past `addr`. */
  method NextVisited(addrs: seq<Address>, visited: set<Address>, addr: Address) returns (bound: Option<Address>)
    requires Sorted(addrs) && forall v :: v in visited ==> v in addrs
    ensures Frontier(visited, addr, bound)
  {
    var k, j := 0, |addrs|;
    while k < j
      invariant 0 <= k <= j <= |addrs|
      invariant forall i :: 0 <= i < k ==> !Less(addr, addrs[i])
      invariant forall i :: j <= i < |addrs| ==> Less(addr, addrs[i])
    {
      var h := (k + j) / 2;
      if Less(addr, addrs[h]) {
        j := h;
      } else {
        k := h + 1;
      }
    }
    while k < |addrs|
      invariant 0 <= k <= |addrs|
      invariant forall i :: 0 <= i < k && Less(addr, addrs[i]) ==> addrs[i] !in visited
      invariant forall i :: k <= i < |addrs| ==> Less(addr, addrs[i])
    {
      if addrs[k] in visited {
        BoundIsFirst(addrs, visited, addr, k);
        return Some(addrs[k]);
      }
      k := k + 1;
    }
    return None;
  }

  lemma BoundIsFirst(addrs: seq<Address>, visited: set<Address>, addr: Address, k: nat)
    requires Sorted(addrs) && k < |addrs| && Less(addr, addrs[k]) && addrs[k] in visited
    requires forall v :: v in visited ==> v in addrs
    requires forall i :: 0 <= i < k && Less(addr, addrs[i]) ==> addrs[i] !in visited
    ensures Frontier(visited, addr, Some(addrs[k]))
  {
    forall v | v in visited && Less(addr, v) ensures !Less(v, addrs[k]) {
      var i :| 0 <= i < |addrs| && addrs[i] == v;
    }
  }

  ghost predicate IndirectBy(ops: seq<RawOp>, n: nat) { exists i: nat :: i < n && i < |ops| && ops[i].code == BRANCHIND }

  lemma IndirectMore(ops: seq<RawOp>, i: nat)
    requires i < |ops|
    ensures IndirectBy(ops, i + 1) <==> IndirectBy(ops, i) || ops[i].code == BRANCHIND
  {
    if ops[i].code == BRANCHIND { assert i < i + 1; }
    if IndirectBy(ops, i) {
      var k: nat :| k < i && k < |ops| && ops[k].code == BRANCHIND;
      assert k < i + 1;
    }
  }

  /** The branch targets of the first `n` ops are stacked unless visited, and nothing else is. */
  ghost predicate Stacked(byAddr: map<Address, nat>, visited: set<Address>, ops: seq<RawOp>, n: nat, was: seq<Address>, now: seq<Address>) {
    && (forall a :: a in was ==> a in now)
    && (forall a :: a in now && a !in was ==> BranchedTo(ops, n, a))
    && (forall a :: BranchedTo(ops, n, a) && a in byAddr && a !in visited ==> a in now)
  }

  ghost predicate BranchedTo(ops: seq<RawOp>, n: nat, a: Address) { exists i: nat :: i < n && BranchesTo(ops, i, a) }

  lemma BranchedMore(ops: seq<RawOp>, i: nat, a: Address)
    ensures BranchedTo(ops, i + 1, a) <==> BranchedTo(ops, i, a) || BranchesTo(ops, i, a)
  {
    if BranchesTo(ops, i, a) { assert i < i + 1; }
    if BranchedTo(ops, i, a) {
      var k: nat :| k < i && BranchesTo(ops, k, a);
      assert k < i + 1;
    }
  }

  /** The instruction's own table is listed if one of the first `n` ops branches through it. */
  ghost predicate Listed(tables: map<nat, seq<nat>>, ops: seq<RawOp>, n: nat, own: nat, had: seq<nat>, has: seq<nat>) {
    && (forall t :: t in had ==> t in has)
    && (forall t :: t in has && t !in had ==> t == own && t in tables && IndirectBy(ops, n))
    && (IndirectBy(ops, n) && own in tables ==> own in has)
  }

  ghost function Elements(s: seq<nat>): set<nat> { set x | x in s }

  lemma OneFewer(s: seq<nat>, p: nat)
    requires p < |s|
    ensures Elements(s) - Elements(s[..p]) - {s[p]} == Elements(s) - Elements(s[..p + 1])
  {
    assert s[..p + 1] == s[..p] + [s[p]];
  }

  /** Every record at `a` has been walked. */
  ghost predicate Passed(p: Program, walk: seq<nat>, a: Address) { forall q: nat :: At(p, q, a) ==> q in walk }

  lemma KeptBelow(ops: seq<RawOp>, n: nat, i: nat)
    requires IsCut(ops, n) && i < |ops|
    ensures Kept(ops, i) <==> i < n
  {
    LeavesOnce(ops, n);
  }

  /** Once its targets are stacked and its table listed, nothing of the last record is forgotten. */
  lemma StackingTracks(p: Program, walk: seq<nat>, r: nat, n: nat, byAddr: map<Address, nat>, visited: set<Address>, was: seq<Address>, now: seq<Address>,
                       had: seq<nat>, has: seq<nat>, held: set<nat>)
    requires r < |p.records| && walk != [] && walk[|walk| - 1] == r && IsCut(p.records[r].ops, n)
    requires Sound(p, walk, was, held + Elements(had)) && Complete(p, walk[..|walk| - 1], walk, was, held + Elements(had))
    requires Stacked(byAddr, visited, p.records[r].ops, n, was, now) && Listed(p.tables, p.records[r].ops, n, p.records[r].addr.offset, had, has)
    requires forall a :: a !in byAddr || a in visited ==> Passed(p, walk, a)
    ensures Tracked(p, walk, now, held + Elements(has))
  {
    var waiting, waiting' := held + Elements(had), held + Elements(has);
    forall a | a in now && a !in was ensures Backed(p, walk, a) { NewIsBacked(p, walk, r, n, a); }
    forall t | t in waiting' && t !in waiting ensures TableBacked(p, walk, t) { NewTableIsBacked(p, walk, r, n, t); }
    SoundLonger(p, walk, was, now, waiting, waiting');
    CompleteLonger(p, walk[..|walk| - 1], walk, was, now, waiting, waiting');
    assert walk == walk[..|walk| - 1] + [r];
    forall a ensures JumpDone(p, walk, now, r, a) {
      if JumpsTo(p, r, a) {
        JumpIsBranched(p, r, n, a);
        assert a in now || Passed(p, walk, a);
      }
    }
    forall t ensures TableDone(p, walk, now, waiting', r, t) {
      if UsesTable(p, r, t) { TableIsListed(p, r, n, t); }
    }
  }

  lemma NewIsBacked(p: Program, walk: seq<nat>, r: nat, n: nat, a: Address)
    requires r < |p.records| && walk != [] && walk[|walk| - 1] == r && IsCut(p.records[r].ops, n) && BranchedTo(p.records[r].ops, n, a)
    ensures Backed(p, walk, a)
  {
    var i: nat :| i < n && BranchesTo(p.records[r].ops, i, a);
    KeptBelow(p.records[r].ops, n, i);
    assert JumpsTo(p, walk[|walk| - 1], a);
  }

  lemma NewTableIsBacked(p: Program, walk: seq<nat>, r: nat, n: nat, t: nat)
    requires r < |p.records| && walk != [] && walk[|walk| - 1] == r && IsCut(p.records[r].ops, n) && IndirectBy(p.records[r].ops, n)
    requires t == p.records[r].addr.offset && t in p.tables
    ensures TableBacked(p, walk, t)
  {
    var i: nat :| i < n && i < |p.records[r].ops| && p.records[r].ops[i].code == BRANCHIND;
    KeptBelow(p.records[r].ops, n, i);
    assert UsesTable(p, walk[|walk| - 1], t);
  }

  lemma JumpIsBranched(p: Program, r: nat, n: nat, a: Address)
    requires JumpsTo(p, r, a) && IsCut(p.records[r].ops, n)
    ensures BranchedTo(p.records[r].ops, n, a)
  {
    var i: nat :| Kept(p.records[r].ops, i) && BranchesTo(p.records[r].ops, i, a);
    KeptBelow(p.records[r].ops, n, i);
  }

  lemma TableIsListed(p: Program, r: nat, n: nat, t: nat)
    requires UsesTable(p, r, t) && IsCut(p.records[r].ops, n)
    ensures IndirectBy(p.records[r].ops, n)
  {
    var i: nat :| Kept(p.records[r].ops, i) && p.records[r].ops[i].code == BRANCHIND;
    KeptBelow(p.records[r].ops, n, i);
  }

  /** Stacking what the last record falls through to. */
  lemma PushNext(p: Program, walk: seq<nat>, stack: seq<Address>, waiting: set<nat>, a: Address)
    requires Tracked(p, walk, stack, waiting) && walk != [] && FallsTo(p, walk[|walk| - 1], a)
    ensures Tracked(p, walk, stack + [a], waiting)
  {
    assert Leads(p, walk[|walk| - 1], a);
    SoundLonger(p, walk, stack, stack + [a], waiting, waiting);
    CompleteLonger(p, walk, walk, stack, stack + [a], waiting, waiting);
  }

  lemma AddressesOnce(p: Program)
    requires WellFormed(p.records)
    ensures OneEach(p)
  {
    forall q: nat, q': nat, a ensures At(p, q, a) && At(p, q', a) ==> q == q' {
      if q < q' < |p.records| { assert AddressesApart(p.records, q, q'); }
      if q' < q < |p.records| { assert AddressesApart(p.records, q', q); }
    }
  }

  // ----- the walk -----

  class FlowNumbering {
    const records: seq<Record>
    const entry: Address
    const tables: map<nat, seq<nat>>      // by the offset of the BRANCHIND's instruction
    const byAddr: map<Address, nat>
    const addrs: seq<Address>
    var times: seq<seq<nat>>
    var visited: set<Address>
    var counter: nat
    var addrlist: seq<Address>
    var tablelist: seq<nat>
    ghost var order: seq<nat>             // the records in the order numbered
    ghost var held: set<nat>              // the tables taken off the list whose targets are not yet stacked

    ghost predicate Fixed() {
      && WellFormed(records)
      && Indexed(records, byAddr)
      && Sorted(addrs)
      && (forall a :: a in addrs <==> a in KnownSet(records))
      && OneEach(Prog())
    }

    function Prog(): Program { Program(records, entry, tables) }

    ghost function Waiting(): set<nat>
      reads this
    {
      held + Elements(tablelist)
    }

    /** What the walk has done and what it has still to do. */
    ghost predicate Tracks()
      reads this
    {
      Tracked(Prog(), order, addrlist, Waiting())
    }

    ghost predicate Valid()
      reads this
    {
      && Fixed()
      && Numbered(records, times, order, counter)
      && Seen(records, visited, order)
      && (forall k :: k in tablelist ==> k in tables)
    }

    ghost function Remaining(): nat
      reads this
    {
      |KnownSet(records) - visited|
    }

    constructor (records: seq<Record>, entry: Address, tables: map<nat, seq<nat>>, byAddr: map<Address, nat>, addrs: seq<Address>, times: seq<seq<nat>>)
      requires WellFormed(records) && Shaped(records, times) && Indexed(records, byAddr) && Sorted(addrs)
      requires forall a :: a in addrs <==> a in KnownSet(records)
      ensures Valid() && order == [] && addrlist == [] && visited == {} && tablelist == [] && held == {} && fresh(this)
      ensures this.records == records && this.entry == entry && this.tables == tables
    {
      this.records, this.entry, this.tables, this.byAddr, this.addrs, this.times := records, entry, tables, byAddr, addrs, times;
      visited, counter, addrlist, tablelist, order, held := {}, 0, [], [], [], {};
      AddressesOnce(Program(records, entry, tables));
    }

    method NewAddress(to: Address)
      modifies this`addrlist
      ensures addrlist == if to !in byAddr || to in visited then old(addrlist) else old(addrlist) + [to]
    {
      if to !in byAddr || to in visited { return; }
      addrlist := addrlist + [to];
    }

    /** Gives the ops of a record the next times. */
    method NumberOps(idx: nat)
      requires Numbered(records, times, order, counter) && idx < |records| && idx !in order
      modifies this`times, this`counter, this`order
      ensures Numbered(records, times, order, counter) && order == old(order) + [idx]
    {
      var n := |records[idx].ops|;
      var mine := times[idx];
      for i := 0 to n
        invariant counter == old(counter) + i && |mine| == n
        invariant forall k :: 0 <= k < i ==> mine[k] == old(counter) + k
        invariant times == old(times) && order == old(order)
      {
        mine := mine[i := counter];
        counter := counter + 1;
      }
      NumberNext(records, times, order, old(counter), idx, mine);
      times := times[idx := mine];
      order := order + [idx];
    }

    /** Stacks the branch targets and jump tables of the kept ops. */
    method StackTargets(ops: seq<RawOp>, cur: Address, n: nat)
      requires n <= |ops|
      modifies this`addrlist, this`tablelist
      ensures Stacked(byAddr, visited, ops, n, old(addrlist), addrlist) && Listed(tables, ops, n, cur.offset, old(tablelist), tablelist)
    {
      for i := 0 to n
        invariant Stacked(byAddr, visited, ops, i, old(addrlist), addrlist) && Listed(tables, ops, i, cur.offset, old(tablelist), tablelist)
      {
        StackOne(ops, cur, i, old(addrlist), old(tablelist));
      }
    }

    method StackOne(ops: seq<RawOp>, cur: Address, i: nat, ghost was: seq<Address>, ghost had: seq<nat>)
      requires i < |ops| && Stacked(byAddr, visited, ops, i, was, addrlist) && Listed(tables, ops, i, cur.offset, had, tablelist)
      modifies this`addrlist, this`tablelist
      ensures Stacked(byAddr, visited, ops, i + 1, was, addrlist) && Listed(tables, ops, i + 1, cur.offset, had, tablelist)
    {
      match ops[i].code {
        case BRANCH | CBRANCH =>
          if RelativeTarget(ops, i).None? {
            var to := InputAddress(ops[i].input);
            if to.Some? { NewAddress(to.value); }
          }
        case BRANCHIND =>
          if cur.offset in tables { tablelist := tablelist + [cur.offset]; }
        case _ =>
      }
      IndirectMore(ops, i);
      forall a ensures BranchedTo(ops, i + 1, a) <==> BranchedTo(ops, i, a) || BranchesTo(ops, i, a) { BranchedMore(ops, i, a); }
    }

    /** Numbers a record for the first time. */
    method Visit(cur: Address)
      requires Valid() && cur !in visited && cur in byAddr
      modifies this`times, this`counter, this`order, this`visited
      ensures Valid() && visited == old(visited) + {cur} && order == old(order) + [byAddr[cur]]
      ensures Remaining() < old(Remaining())
    {
      var idx := byAddr[cur];
      assert IndexOf(records, byAddr, cur) && SeenAt(records, visited, order, idx);
      SeenNext(records, visited, order, idx);
      VisitingCounts(KnownSet(records), visited, cur);
      NumberOps(idx);
      visited := visited + {cur};
    }

    /** Stacks where the instruction leads and reports whether flow falls through to the next. */
    method Follow(cur: Address) returns (falls: bool)
      requires Valid() && cur in byAddr && order != [] && order[|order| - 1] == byAddr[cur]
      requires Sound(Prog(), order, addrlist, Waiting()) && Complete(Prog(), order[..|order| - 1], order, addrlist, Waiting())
      modifies this`addrlist, this`tablelist
      ensures Valid() && Tracks()
      ensures falls ==> addrlist != [] && Less(cur, addrlist[|addrlist| - 1]) && FallsTo(Prog(), byAddr[cur], addrlist[|addrlist| - 1])
      ensures !falls ==> forall a :: !FallsTo(Prog(), byAddr[cur], a)
    {
      StackLeads(cur);
      assert IndexOf(records, byAddr, cur);
      var r := records[byAddr[cur]];
      var through := InstructionFallsThrough(r.ops);
      if !through || r.next.None? { return false; }
      assert Advances(r);
      PushNext(Prog(), order, addrlist, Waiting(), r.next.value);
      addrlist := addrlist + [r.next.value];
      return true;
    }

    /** Stacks where the instruction's branches lead. */
    method StackLeads(cur: Address)
      requires Valid() && cur in byAddr && order != [] && order[|order| - 1] == byAddr[cur]
      requires Sound(Prog(), order, addrlist, Waiting()) && Complete(Prog(), order[..|order| - 1], order, addrlist, Waiting())
      modifies this`addrlist, this`tablelist
      ensures Valid() && Tracks()
    {
      assert IndexOf(records, byAddr, cur);
      var ops := records[byAddr[cur]].ops;
      var bounds := SplitInstruction(ops);
      var n := bounds[|bounds| - 1].1;
      AllPassed();
      StackTargets(ops, cur, n);
      StackingTracks(Prog(), order, byAddr[cur], n, byAddr, visited, old(addrlist), addrlist, old(tablelist), tablelist, held);
    }

    lemma AllPassed()
      requires Fixed() && Seen(records, visited, order)
      ensures forall a :: a !in byAddr || a in visited ==> Passed(Prog(), order, a)
    {
      forall a, q: nat | (a !in byAddr || a in visited) && At(Prog(), q, a) ensures q in order {
        assert IndexedAt(records, byAddr, q) && SeenAt(records, visited, order, q);
      }
    }

    /** Numbers the instruction at `cur`, if there is one, and stacks where it leads. */
    method ProcessInstruction(cur: Address) returns (falls: bool)
      requires Valid() && cur !in visited && Tracked(Prog(), order, addrlist + [cur], Waiting())
      modifies this`times, this`counter, this`order, this`visited, this`addrlist, this`tablelist
      ensures Valid() && Tracks()
      ensures cur in byAddr ==> visited == old(visited) + {cur} && order == old(order) + [byAddr[cur]] && Remaining() < old(Remaining())
      ensures cur !in byAddr ==> !falls && visited == old(visited) && order == old(order) && tablelist == old(tablelist) && addrlist == old(addrlist)
      ensures falls ==> cur in byAddr && addrlist != [] && Less(cur, addrlist[|addrlist| - 1]) && FallsTo(Prog(), byAddr[cur], addrlist[|addrlist| - 1])
      ensures !falls && cur in byAddr ==> forall a :: !FallsTo(Prog(), byAddr[cur], a)
    {
      if cur !in byAddr {
        AllPassed();
        DropTop(Prog(), order, addrlist, cur, Waiting());
        return false;
      }
      assert IndexOf(records, byAddr, cur);
      WalkTop(Prog(), order, addrlist, Waiting(), byAddr[cur]);
      Visit(cur);
      assert order[..|order| - 1] == old(order);
      falls := Follow(cur);
    }

    lemma VisitedAreKnown()
      requires Fixed() && Seen(records, visited, order)
      ensures forall v :: v in visited ==> v in addrs
    {
    }

    /** The address on top has not been visited, nor anything between it and the bound, and flow may go on there. */
    ghost predicate Ready(bound: Option<Address>)
      reads this
    {
      && Valid() && Tracks() && addrlist != []
      && addrlist[|addrlist| - 1] !in visited
      && Frontier(visited, addrlist[|addrlist| - 1], bound)
      && FlowingTo(Prog(), order, addrlist[|addrlist| - 1])
    }

    /** Between two chains of fall-through. */
    ghost predicate Resting()
      reads this
    {
      Valid() && Tracks() && Flowing(Prog(), order)
    }

    /** The top, visited before the last record was, is taken off. */
    method TakeOff()
      requires Valid() && Tracks() && addrlist != [] && addrlist[|addrlist| - 1] in visited
      requires FlowingTo(Prog(), order, addrlist[|addrlist| - 1])
      requires order != [] && records[order[|order| - 1]].addr != addrlist[|addrlist| - 1]
      modifies this`addrlist
      ensures Resting() && addrlist == old(addrlist)[..|old(addrlist)| - 1]
    {
      var top := addrlist[|addrlist| - 1];
      AllPassed();
      assert Passed(Prog(), order, top);
      assert addrlist == addrlist[..|addrlist| - 1] + [top];
      DropTop(Prog(), order, addrlist[..|addrlist| - 1], top, Waiting());
      assert order == order[..|order| - 1] + [order[|order| - 1]];
      forall q: nat | At(Prog(), q, top) ensures q in order[..|order| - 1] { assert q in order; }
      ServeLast(Prog(), order, top);
      addrlist := addrlist[..|addrlist| - 1];
    }

    /** Whether the fall-through from `cur` goes on: not into an instruction already visited. */
    method Continue(cur: Address, bound: Option<Address>, ghost was: set<Address>) returns (go: bool, bound': Option<Address>)
      requires Valid() && Tracks() && addrlist != [] && Less(cur, addrlist[|addrlist| - 1])
      requires FlowingTo(Prog(), order, addrlist[|addrlist| - 1]) && order != [] && records[order[|order| - 1]].addr == cur
      requires Frontier(was, cur, bound) && visited == was + {cur}
      modifies this`addrlist
      ensures if go then Ready(bound') else Resting()
    {
      var next := addrlist[|addrlist| - 1];
      if bound.Some? && !Less(next, bound.value) {
        if next == bound.value || next in visited {
          TakeOff();
          return false, bound;
        }
        VisitedAreKnown();
        bound' := NextVisited(addrs, visited, next);
        return true, bound';
      }
      FrontierMoves(was, cur, bound, next);
      return true, bound;
    }

    /** Takes the top address off the stack and goes on to the one it falls through to. */
    method Advance(bound: Option<Address>) returns (go: bool, bound': Option<Address>)
      requires Ready(bound)
      modifies this`times, this`counter, this`order, this`visited, this`addrlist, this`tablelist
      ensures if go then Ready(bound') else Resting()
      ensures var top := old(addrlist)[|old(addrlist)| - 1];
        if top in byAddr then order == old(order) + [byAddr[top]] && Remaining() < old(Remaining())
        else !go && order == old(order) && Remaining() == old(Remaining()) && tablelist == old(tablelist) && |addrlist| < |old(addrlist)|
    {
      var cur := addrlist[|addrlist| - 1];
      assert addrlist == addrlist[..|addrlist| - 1] + [cur];
      addrlist := addrlist[..|addrlist| - 1];
      var falls := ProcessInstruction(cur);
      Served(cur, old(order), falls);
      if !falls || |addrlist| == 0 { return false, bound; }
      go, bound' := Continue(cur, bound, old(visited));
    }

    /** After the instruction at `cur`, only what it falls through to is owed. */
    lemma Served(cur: Address, was: seq<nat>, falls: bool)
      requires Fixed() && FlowingTo(Prog(), was, cur)
      requires order == if cur in byAddr then was + [byAddr[cur]] else was
      requires falls ==> cur in byAddr && addrlist != [] && FallsTo(Prog(), byAddr[cur], addrlist[|addrlist| - 1])
      requires !falls && cur in byAddr ==> forall a :: !FallsTo(Prog(), byAddr[cur], a)
      ensures falls ==> FlowingTo(Prog(), order, addrlist[|addrlist| - 1]) && records[order[|order| - 1]].addr == cur
      ensures !falls ==> Flowing(Prog(), order)
    {
      if cur in byAddr {
        assert IndexOf(records, byAddr, cur);
        ServeTop(Prog(), was, byAddr[cur]);
      } else if order != [] {
        forall q: nat ensures !At(Prog(), q, cur) { if q < |records| { assert IndexedAt(records, byAddr, q); } }
        ServeLast(Prog(), order, cur);
      }
    }

    /** Follows the fall-through from the top of the stack as far as it goes. */
    method Chase(from: Option<Address>)
      requires Ready(from)
      modifies this`times, this`counter, this`order, this`visited, this`addrlist, this`tablelist
      ensures Resting() && old(order) <= order
      ensures Remaining() < old(Remaining()) || (Remaining() == old(Remaining()) && |addrlist| < |old(addrlist)| && tablelist == old(tablelist))
      ensures var top := old(addrlist)[|old(addrlist)| - 1];
        top in byAddr ==> old(order) + [byAddr[top]] <= order
    {
      ghost var top, was, left := addrlist[|addrlist| - 1], order, Remaining();
      var go, bound := Advance(from);
      ghost var first := order;
      while go
        invariant (if go then Ready(bound) else Resting()) && first <= order
        invariant go ==> Remaining() < left
        invariant Remaining() < left || (Remaining() == left && |addrlist| < |old(addrlist)| && tablelist == old(tablelist))
        decreases go, Remaining()
      {
        go, bound := Advance(bound);
      }
    }

    /** The top, visited already, is dropped. */
    method DropVisited()
      requires Resting() && addrlist != [] && addrlist[|addrlist| - 1] in visited
      modifies this`addrlist
      ensures Resting() && addrlist == old(addrlist)[..|old(addrlist)| - 1]
    {
      var top := addrlist[|addrlist| - 1];
      AllPassed();
      assert Passed(Prog(), order, top);
      assert addrlist == addrlist[..|addrlist| - 1] + [top];
      DropTop(Prog(), order, addrlist[..|addrlist| - 1], top, Waiting());
      addrlist := addrlist[..|addrlist| - 1];
    }

    method Fallthru()
      requires Resting() && addrlist != []
      modifies this`times, this`counter, this`order, this`visited, this`addrlist, this`tablelist
      ensures Resting() && old(order) <= order
      ensures Remaining() < old(Remaining()) || (Remaining() == old(Remaining()) && |addrlist| < |old(addrlist)| && tablelist == old(tablelist))
      ensures var top := old(addrlist)[|old(addrlist)| - 1];
        top in byAddr && top !in old(visited) ==> old(order) + [byAddr[top]] <= order
    {
      var top := addrlist[|addrlist| - 1];
      if top in visited {
        DropVisited();
        return;
      }
      VisitedAreKnown();
      var bound := NextVisited(addrs, visited, top);
      Chase(bound);
    }

    method Drain()
      requires Resting()
      modifies this`times, this`counter, this`order, this`visited, this`addrlist, this`tablelist
      ensures Resting() && addrlist == [] && old(order) <= order
      ensures Remaining() < old(Remaining()) || (Remaining() == old(Remaining()) && tablelist == old(tablelist))
    {
      while |addrlist| > 0
        invariant Resting() && old(order) <= order
        invariant Remaining() < old(Remaining()) || (Remaining() == old(Remaining()) && tablelist == old(tablelist))
        decreases Remaining(), |addrlist|
      {
        Fallthru();
      }
    }

    /** Stacks the targets of a jump table. */
    method StackTable(t: nat)
      requires Resting() && t in tables && TableBacked(Prog(), order, t)
      modifies this`addrlist
      ensures Resting() && Emptied(Prog(), order, addrlist, t)
    {
      var jt := tables[t];
      AllPassed();
      for i := 0 to |jt|
        invariant Resting()
        invariant forall k :: 0 <= k < i ==> Handled(Prog(), order, addrlist, Address(entry.space, jt[k]))
      {
        var to := Address(entry.space, jt[i]);
        TablePush(Prog(), order, addrlist, Waiting(), t, to);
        assert to !in byAddr || to in visited ==> Passed(Prog(), order, to);
        NewAddress(to);
      }
      forall a | InTable(Prog(), t, a) ensures Handled(Prog(), order, addrlist, a) {
        var k :| 0 <= k < |jt| && jt[k] == a.offset;
        assert Handled(Prog(), order, addrlist, Address(entry.space, jt[k]));
      }
    }

    /** Decodes the targets of one jump table. */
    method FollowTable(t: nat)
      requires Resting() && addrlist == [] && t in tables && TableBacked(Prog(), order, t)
      modifies this`times, this`counter, this`order, this`visited, this`addrlist, this`tablelist, this`held
      ensures Resting() && addrlist == [] && old(order) <= order && held == old(held) - {t}
      ensures Remaining() < old(Remaining()) || (Remaining() == old(Remaining()) && tablelist == old(tablelist))
    {
      StackTable(t);
      ghost var left := (held - {t}) + Elements(tablelist);
      Release(Prog(), order, addrlist, Waiting(), left, t);
      held := held - {t};
      Drain();
    }

    /** Decodes the targets of the jump tables met, and of those met on the way. */
    method FollowTables()
      requires Resting() && addrlist == [] && held == {}
      modifies this`times, this`counter, this`order, this`visited, this`addrlist, this`tablelist, this`held
      ensures Resting() && old(order) <= order && addrlist == [] && tablelist == [] && held == {}
    {
      while |tablelist| > 0
        invariant Resting() && addrlist == [] && old(order) <= order && held == {}
        decreases Remaining(), |tablelist|
      {
        FollowListed();
      }
    }

    /** Decodes the targets of the jump tables listed now. */
    method FollowListed()
      requires Resting() && addrlist == [] && held == {} && tablelist != []
      modifies this`times, this`counter, this`order, this`visited, this`addrlist, this`tablelist, this`held
      ensures Resting() && addrlist == [] && old(order) <= order && held == {}
      ensures Remaining() < old(Remaining()) || (Remaining() == old(Remaining()) && tablelist == [])
    {
      var pending := tablelist;
      tablelist := [];
      held := Elements(pending);
      assert Waiting() == old(Waiting());
      forall p | 0 <= p < |pending| ensures TableBacked(Prog(), order, pending[p]) { assert pending[p] in Waiting(); }
      FollowPending(pending);
    }

    method FollowPending(pending: seq<nat>)
      requires Resting() && addrlist == [] && tablelist == [] && held == Elements(pending)
      requires forall p :: 0 <= p < |pending| ==> pending[p] in tables && TableBacked(Prog(), order, pending[p])
      modifies this`times, this`counter, this`order, this`visited, this`addrlist, this`tablelist, this`held
      ensures Resting() && addrlist == [] && old(order) <= order && held == {}
      ensures Remaining() < old(Remaining()) || (Remaining() == old(Remaining()) && tablelist == [])
    {
      ghost var was, left := order, Remaining();
      for p := 0 to |pending|
        invariant Resting() && addrlist == [] && was <= order
        invariant held == Elements(pending) - Elements(pending[..p])
        invariant Remaining() < left || (Remaining() == left && tablelist == [])
      {
        TableStaysBacked(Prog(), was, order, pending[p]);
        OneFewer(pending, p);
        FollowTable(pending[p]);
      }
      assert pending[..|pending|] == pending;
    }

    /** The whole numbering: from the entry, through the tables, then the rest. */
    method Run()
      requires Valid() && order == [] && addrlist == [] && visited == {} && tablelist == [] && held == {}
      modifies this
      ensures FlowNumbered(records, times)
      ensures InFlow(Prog(), times)
      ensures forall r: nat :: At(Prog(), r, entry) ==> Consecutive(times[r], 0)
    {
      Walk();
      ghost var walk := order;
      NumberRest();
      CompleteIsNumbered(records, times, order, counter);
      assert order[..|walk|] == walk;
      assert IsFlow(Prog(), times, order, |walk|, counter);
      EntryTimes(Prog(), times, order, |walk|, counter);
    }

    /** Everything that flow reaches. */
    method Walk()
      requires Valid() && order == [] && addrlist == [] && visited == {} && tablelist == [] && held == {}
      modifies this`times, this`counter, this`order, this`visited, this`addrlist, this`tablelist, this`held
      ensures Valid() && InFlowOrder(Prog(), order)
    {
      FromEntry();
      FollowTables();
      WalkEnded();
    }

    method FromEntry()
      requires Valid() && order == [] && addrlist == [] && visited == {} && tablelist == [] && held == {}
      modifies this`times, this`counter, this`order, this`visited, this`addrlist, this`tablelist
      ensures Resting() && addrlist == [] && (entry in byAddr ==> [byAddr[entry]] <= order)
    {
      StackEntry();
      Fallthru();
      ghost var first := order;
      assert entry in byAddr ==> [byAddr[entry]] <= first;
      Drain();
    }

    method StackEntry()
      requires Valid() && order == [] && addrlist == [] && tablelist == [] && held == {}
      modifies this`addrlist
      ensures Resting() && addrlist == [entry]
    {
      addrlist := addrlist + [entry];
      assert Waiting() == {};
      WalkBegins(Prog());
    }

    lemma WalkEnded()
      requires Resting() && addrlist == [] && tablelist == [] && held == {} && (entry in byAddr ==> [byAddr[entry]] <= order)
      ensures InFlowOrder(Prog(), order)
    {
      forall q: nat | At(Prog(), q, entry) ensures order != [] && order[0] == q { assert IndexedAt(records, byAddr, q); }
      assert Waiting() == {};
      WalkEnds(Prog(), order);
    }

    /** The records that flow never reached come after the rest, in address order. */
    method NumberRest()
      requires Valid()
      modifies this`times, this`counter, this`order
      ensures Numbered(records, times, order, counter) && IsPermutation(order, |records|) && old(order) <= order
      ensures Increasing(records, order, |old(order)|)
    {
      forall r: nat | r < |records| ensures RestAt(records, visited, order, [], r) {
        assert SeenAt(records, visited, order, r);
      }
      assert addrs[..0] == [];
      for k := 0 to |addrs|
        invariant Numbered(records, times, order, counter) && old(order) <= order
        invariant forall r: nat :: r < |records| ==> RestAt(records, visited, order, addrs[..k], r)
        invariant IncreasingBelow(records, order, |old(order)|, addrs, k)
      {
        var a := addrs[k];
        assert a in KnownSet(records);
        RestStep(records, visited, order, addrs, k, byAddr);
        RestIncreases(records, order, |old(order)|, addrs, k, byAddr[a]);
        if a !in visited {
          NumberOps(byAddr[a]);
        }
      }
      assert addrs[..|addrs|] == addrs;
      forall r: nat | r < |records| ensures r in order {
        assert RestAt(records, visited, order, addrs, r);
        assert records[r].addr in KnownSet(records);
      }
    }
  }

  /** From the `m`-th on, the records are in the order of their addresses. */
  ghost predicate Increasing(records: seq<Record>, order: seq<nat>, m: nat) {
    forall i: nat, j: nat :: m <= i < j < |order| ==> EarlierAt(records, order, i, j)
  }

  ghost predicate EarlierAt(records: seq<Record>, order: seq<nat>, i: nat, j: nat) {
    i < |order| && j < |order| && order[i] < |records| && order[j] < |records| && Less(records[order[i]].addr, records[order[j]].addr)
  }

  ghost predicate IncreasingBelow(records: seq<Record>, order: seq<nat>, m: nat, addrs: seq<Address>, k: nat) {
    && Increasing(records, order, m)
    && forall i: nat :: m <= i < |order| && k < |addrs| ==> BelowAt(records, order, i, addrs[k])
  }

  ghost predicate BelowAt(records: seq<Record>, order: seq<nat>, i: nat, a: Address) {
    i < |order| && order[i] < |records| && Less(records[order[i]].addr, a)
  }

  lemma RestIncreases(records: seq<Record>, order: seq<nat>, m: nat, addrs: seq<Address>, k: nat, r: nat)
    requires IncreasingBelow(records, order, m, addrs, k) && Sorted(addrs) && k < |addrs| && m <= |order|
    requires r < |records| && records[r].addr == addrs[k]
    ensures IncreasingBelow(records, order, m, addrs, k + 1) && IncreasingBelow(records, order + [r], m, addrs, k + 1)
  {
    var more := order + [r];
    forall i: nat, j: nat | m <= i < j < |more| ensures EarlierAt(records, more, i, j) {
      if j < |order| { assert EarlierAt(records, order, i, j); } else { assert BelowAt(records, order, i, addrs[k]); }
    }
    if k + 1 < |addrs| {
      var b := addrs[k + 1];
      assert Less(addrs[k], b);
      forall i: nat | m <= i < |more| ensures BelowAt(records, more, i, b) {
        if i < |order| { assert BelowAt(records, order, i, addrs[k]); }
      }
      forall i: nat | m <= i < |order| ensures BelowAt(records, order, i, b) { assert BelowAt(records, order, i, addrs[k]); }
    }
  }

  /** The times follow `order`: first a walk in flow order, then the rest by address. */
  ghost predicate IsFlow(p: Program, times: seq<seq<nat>>, order: seq<nat>, m: nat, counter: nat) {
    && Numbered(p.records, times, order, counter) && IsPermutation(order, |p.records|)
    && m <= |order| && InFlowOrder(p, order[..m]) && Increasing(p.records, order, m)
  }

  ghost predicate InFlow(p: Program, times: seq<seq<nat>>) { exists order, m: nat, counter: nat :: IsFlow(p, times, order, m, counter) }

  /** The times begin with the entry. */
  lemma EntryTimes(p: Program, times: seq<seq<nat>>, order: seq<nat>, m: nat, counter: nat)
    requires IsFlow(p, times, order, m, counter)
    ensures forall r: nat :: At(p, r, p.entry) ==> Consecutive(times[r], 0)
  {
    forall r: nat | At(p, r, p.entry) ensures Consecutive(times[r], 0) {
      assert order[0] == r && order[..0] == [];
      assert NumberedAt(p.records, times, order, 0);
    }
  }

  /** A target of a backed table may be stacked. */
  lemma TablePush(p: Program, walk: seq<nat>, stack: seq<Address>, waiting: set<nat>, t: nat, a: Address)
    requires Tracked(p, walk, stack, waiting) && TableBacked(p, walk, t) && InTable(p, t, a)
    ensures Tracked(p, walk, stack + [a], waiting)
  {
    var j: nat :| j < |walk| && UsesTable(p, walk[j], t);
    assert TablesTo(p, walk[j], a);
    SoundLonger(p, walk, stack, stack + [a], waiting, waiting);
    CompleteLonger(p, walk, walk, stack, stack + [a], waiting, waiting);
  }

  lemma TableStaysBacked(p: Program, walk: seq<nat>, more: seq<nat>, t: nat)
    requires TableBacked(p, walk, t) && walk <= more
    ensures TableBacked(p, more, t)
  {
    var j: nat :| j < |walk| && UsesTable(p, walk[j], t);
    assert more[j] == walk[j];
  }

  /** Numbered are the visited records and those whose address is done. */
  ghost predicate RestAt(records: seq<Record>, visited: set<Address>, order: seq<nat>, done: seq<Address>, r: nat) {
    r < |records| && (r in order <==> records[r].addr in visited || records[r].addr in done)
  }

  lemma RestStep(records: seq<Record>, visited: set<Address>, order: seq<nat>, addrs: seq<Address>, k: nat, byAddr: map<Address, nat>)
    requires WellFormed(records) && Indexed(records, byAddr) && Sorted(addrs) && k < |addrs| && addrs[k] in KnownSet(records)
    requires forall r: nat :: r < |records| ==> RestAt(records, visited, order, addrs[..k], r)
    ensures IndexOf(records, byAddr, addrs[k])
    ensures addrs[k] !in visited ==> byAddr[addrs[k]] !in order
    ensures var order', done' := if addrs[k] in visited then order else order + [byAddr[addrs[k]]], addrs[..k + 1];
      forall r: nat :: r < |records| ==> RestAt(records, visited, order', done', r)
  {
    var a := addrs[k];
    var i: nat :| i < |records| && records[i].addr == a;
    assert IndexedAt(records, byAddr, i);
    var order' := if a in visited then order else order + [i];
    var done, done' := addrs[..k], addrs[..k + 1];
    assert done' == done + [a];
    assert RestAt(records, visited, order, done, i);
    forall r: nat | r < |records| ensures RestAt(records, visited, order', done', r) {
      assert RestAt(records, visited, order, done, r);
      assert r < i ==> AddressesApart(records, r, i);
      assert i < r ==> AddressesApart(records, i, r);
    }
  }

  /** The address index and the sorted addresses. */
  method BuildIndex(records: seq<Record>) returns (byAddr: map<Address, nat>, addrs: seq<Address>)
    requires WellFormed(records)
    ensures Indexed(records, byAddr) && Sorted(addrs) && forall a :: a in addrs <==> a in KnownSet(records)
  {
    byAddr, addrs := map[], [];
    for i := 0 to |records|
      invariant |addrs| == i && forall k :: 0 <= k < i ==> addrs[k] == records[k].addr
      invariant forall k: nat :: k < i ==> IndexedAt(records, byAddr, k)
      invariant forall a :: a in byAddr ==> IndexOf(records, byAddr, a) && byAddr[a] < i
    {
      IndexNext(records, byAddr, i);
      byAddr := byAddr[records[i].addr := i];
      addrs := addrs + [records[i].addr];
    }
    forall i, j | 0 <= i < j < |addrs| ensures addrs[i] != addrs[j] {
      assert AddressesApart(records, i, j);
    }
    forall a ensures a in addrs <==> a in KnownSet(records) {
      if a in addrs { var k :| 0 <= k < |addrs| && addrs[k] == a; }
      if a in KnownSet(records) {
        var k: nat :| k < |records| && records[k].addr == a;
        assert addrs[k] == a;
      }
    }
    addrs := SortAddrs(addrs);
  }

  lemma IndexNext(records: seq<Record>, byAddr: map<Address, nat>, i: nat)
    requires WellFormed(records) && i < |records|
    requires forall k: nat :: k < i ==> IndexedAt(records, byAddr, k)
    requires forall a :: a in byAddr ==> IndexOf(records, byAddr, a) && byAddr[a] < i
    ensures var byAddr' := byAddr[records[i].addr := i];
      && (forall k: nat :: k < i + 1 ==> IndexedAt(records, byAddr', k))
      && (forall a :: a in byAddr' ==> IndexOf(records, byAddr', a) && byAddr'[a] < i + 1)
  {
    var byAddr' := byAddr[records[i].addr := i];
    forall k: nat | k < i + 1 ensures IndexedAt(records, byAddr', k) {
      if k < i {
        assert AddressesApart(records, k, i);
        assert IndexedAt(records, byAddr, k);
      }
    }
    forall a | a in byAddr' ensures IndexOf(records, byAddr', a) && byAddr'[a] < i + 1 {
      if a != records[i].addr { assert IndexOf(records, byAddr, a); }
    }
  }

  /** Renumbers every op with one counter in flow order. */
  method AssignFlowTimes(records: seq<Record>, entry: Address, tables: map<nat, seq<nat>>, before: seq<seq<nat>>)
    returns (times: seq<seq<nat>>)
    requires WellFormed(records) && Shaped(records, before)
    ensures FlowNumbered(records, times)
    ensures InFlow(Program(records, entry, tables), times)
    ensures forall r: nat :: r < |records| && records[r].addr == entry ==> Consecutive(times[r], 0)
  {
    var byAddr, addrs := BuildIndex(records);
    var walk := new FlowNumbering(records, entry, tables, byAddr, addrs, before);
    walk.Run();
    times := walk.times;
    forall r: nat | r < |records| && records[r].addr == entry ensures Consecutive(times[r], 0) { assert At(walk.Prog(), r, entry); }
  }
}

/**
 The join-space allocator (pkg/address/join.go): logical storage split across several
 physical pieces gets a range of its own in the join space, and a sub-range of it is
 mapped back to the pieces it covers.  The meaning of a record is its `Layout`, the
 sequence of physical bytes that its range stands for.
 */
module Joins {
  import opened Options
  import opened Words

  datatype Space = Space(index: nat, big: bool, join: bool)

  datatype Address = Address(space: Space, offset: nat)

  /** Storage of `size` bytes; offsets wrap at 64 bits. */
  datatype Piece = Piece(space: Space, offset: nat, size: nat)

  /** `pieces` are most significant first; `offset` and `size` are the unified range. */
  datatype Record = Record(pieces: seq<Piece>, space: Space, offset: nat, size: nat)

  // ----- bytes -----

  function At(space: Space, offset: nat): Address { Address(space, offset % WORD) }

  function Run(p: Piece): (r: seq<Address>)
    ensures |r| == p.size
  {
    seq(p.size, i requires 0 <= i => At(p.space, p.offset + i))
  }

  function Concat(ps: seq<Piece>): seq<Address> {
    if ps == [] then [] else Run(ps[0]) + Concat(ps[1..])
  }

  function Total(ps: seq<Piece>): nat {
    if ps == [] then 0 else ps[0].size + Total(ps[1..])
  }

  function Reverse(ps: seq<Piece>): (r: seq<Piece>)
    ensures |r| == |ps|
  {
    if ps == [] then [] else Reverse(ps[1..]) + [ps[0]]
  }

  lemma {:induction false} ReverseAt(ps: seq<Piece>, i: nat)
    requires i < |ps|
    ensures Reverse(ps)[i] == ps[|ps| - 1 - i]
  {
    if i < |ps| - 1 { ReverseAt(ps[1..], i); }
  }

  lemma {:induction false} ReverseIs(ps: seq<Piece>, r: seq<Piece>)
    requires |r| == |ps| && forall i :: 0 <= i < |ps| ==> r[i] == ps[|ps| - 1 - i]
    ensures Reverse(ps) == r
  {
    forall i | 0 <= i < |ps| ensures Reverse(ps)[i] == r[i] { ReverseAt(ps, i); }
  }

  /** The pieces in the order of their addresses in the join range. */
  function InOrder(ps: seq<Piece>): (r: seq<Piece>)
    requires ps != []
    ensures |r| == |ps|
  {
    if ps[0].space.big then ps else Reverse(ps)
  }

  /** The physical bytes the pieces make up, by increasing join address. */
  function Layout(ps: seq<Piece>): seq<Address>
    requires ps != []
  {
    Concat(InOrder(ps))
  }

  lemma {:induction false} TotalIsLength(ps: seq<Piece>)
    ensures Total(ps) == |Concat(ps)|
  {
    if ps != [] { TotalIsLength(ps[1..]); }
  }

  lemma {:induction false} ConcatAppend(a: seq<Piece>, b: seq<Piece>)
    ensures Concat(a + b) == Concat(a) + Concat(b)
  {
    if a == [] {
      assert a + b == b;
    } else {
      assert (a + b)[1..] == a[1..] + b;
      ConcatAppend(a[1..], b);
    }
  }

  lemma {:induction false} TotalAppend(a: seq<Piece>, b: seq<Piece>)
    ensures Total(a + b) == Total(a) + Total(b)
  {
    if a == [] {
      assert a + b == b;
    } else {
      assert (a + b)[1..] == a[1..] + b;
      TotalAppend(a[1..], b);
    }
  }

  lemma {:induction false} TotalReverse(ps: seq<Piece>)
    ensures Total(Reverse(ps)) == Total(ps)
  {
    if ps != [] {
      TotalAppend(Reverse(ps[1..]), [ps[0]]);
      TotalReverse(ps[1..]);
      assert [ps[0]][1..] == [];
    }
  }

  lemma {:induction false} ReverseTwice(ps: seq<Piece>)
    ensures Reverse(Reverse(ps)) == ps
  {
    forall i | 0 <= i < |ps| ensures Reverse(ps)[i] == ps[|ps| - 1 - i] { ReverseAt(ps, i); }
    ReverseIs(Reverse(ps), ps);
  }

  lemma {:induction false} ConcatOne(p: Piece)
    ensures Concat([p]) == Run(p)
  {
    assert [p][1..] == [];
    assert Concat([p]) == Run(p) + [];
  }

  /** Byte `d` of piece `q` is where the sizes before it put it. */
  lemma {:induction false} ConcatAt(ps: seq<Piece>, q: nat, d: nat)
    requires q < |ps| && d < ps[q].size
    ensures Total(ps[..q]) + d < |Concat(ps)|
    ensures Concat(ps)[Total(ps[..q]) + d] == At(ps[q].space, ps[q].offset + d)
  {
    SplitAt(ps, q);
    assert Concat(ps) == Concat(ps[..q]) + (Run(ps[q]) + Concat(ps[q + 1..]));
    TotalIsLength(ps[..q]);
  }

  lemma {:induction false} SplitAt(ps: seq<Piece>, q: nat)
    requires q < |ps|
    ensures Concat(ps) == Concat(ps[..q]) + (Run(ps[q]) + Concat(ps[q + 1..]))
  {
    assert ps == ps[..q] + ps[q..];
    ConcatAppend(ps[..q], ps[q..]);
    assert ps[q..][0] == ps[q] && ps[q..][1..] == ps[q + 1..];
  }

  // ----- cutting a window out of the pieces -----

  /** The pieces from byte `d1` of piece `q1` to byte `d2` of piece `q2`. */
  function Window(ps: seq<Piece>, q1: nat, d1: nat, q2: nat, d2: nat): seq<Piece>
    requires q1 < q2 < |ps| && d1 < ps[q1].size && d2 < ps[q2].size
  {
    [Piece(ps[q1].space, (ps[q1].offset + d1) % WORD, ps[q1].size - d1)]
    + ps[q1 + 1..q2]
    + [Piece(ps[q2].space, ps[q2].offset, d2 + 1)]
  }

  lemma {:induction false} RunTail(p: Piece, d: nat)
    requires d < p.size
    ensures Run(Piece(p.space, (p.offset + d) % WORD, p.size - d)) == Run(p)[d..]
  {
    var cut := Piece(p.space, (p.offset + d) % WORD, p.size - d);
    forall i | 0 <= i < p.size - d ensures Run(cut)[i] == Run(p)[d..][i] {
      ModOfSum(p.offset + d, i, WORD);
      assert Run(p)[d..][i] == Run(p)[d + i] == At(p.space, p.offset + (d + i));
      assert Run(cut)[i] == At(p.space, (p.offset + d) % WORD + i);
    }
  }

  lemma {:induction false} RunHead(p: Piece, n: nat)
    requires n <= p.size
    ensures Run(Piece(p.space, p.offset, n)) == Run(p)[..n]
  {
  }

  lemma {:induction false} WindowConcat(ps: seq<Piece>, q1: nat, d1: nat, q2: nat, d2: nat)
    requires q1 < q2 < |ps| && d1 < ps[q1].size && d2 < ps[q2].size
    ensures Concat(Window(ps, q1, d1, q2, d2)) == Run(ps[q1])[d1..] + Concat(ps[q1 + 1..q2]) + Run(ps[q2])[..d2 + 1]
  {
    var first := Piece(ps[q1].space, (ps[q1].offset + d1) % WORD, ps[q1].size - d1);
    var last := Piece(ps[q2].space, ps[q2].offset, d2 + 1);
    var mid := ps[q1 + 1..q2];
    ConcatAppend([first] + mid, [last]);
    ConcatAppend([first], mid);
    ConcatOne(first);
    ConcatOne(last);
    RunTail(ps[q1], d1);
    RunHead(ps[q2], d2 + 1);
  }

  lemma {:induction false} ConcatPieces(ps: seq<Piece>, q1: nat, q2: nat)
    requires q1 < q2 < |ps|
    ensures Concat(ps) == Concat(ps[..q1]) + Run(ps[q1]) + Concat(ps[q1 + 1..q2]) + Run(ps[q2]) + Concat(ps[q2 + 1..])
  {
    FiveParts(ps, q1, q2);
    ConcatFive(ps[..q1], ps[q1], ps[q1 + 1..q2], ps[q2], ps[q2 + 1..]);
  }

  lemma {:induction false} FiveParts(ps: seq<Piece>, q1: nat, q2: nat)
    requires q1 < q2 < |ps|
    ensures ps == ps[..q1] + [ps[q1]] + ps[q1 + 1..q2] + [ps[q2]] + ps[q2 + 1..]
  {
    assert ps[..q1] + [ps[q1]] == ps[..q1 + 1];
    assert ps[..q1 + 1] + ps[q1 + 1..q2] == ps[..q2];
    assert ps[..q2] + [ps[q2]] == ps[..q2 + 1];
    assert ps[..q2 + 1] + ps[q2 + 1..] == ps;
  }

  lemma {:induction false} ConcatFive(a: seq<Piece>, p: Piece, m: seq<Piece>, q: Piece, b: seq<Piece>)
    ensures Concat(a + [p] + m + [q] + b) == Concat(a) + Run(p) + Concat(m) + Run(q) + Concat(b)
  {
    ConcatAppend(a + [p] + m + [q], b);
    ConcatAppend(a + [p] + m, [q]);
    ConcatAppend(a + [p], m);
    ConcatAppend(a, [p]);
    ConcatOne(p);
    ConcatOne(q);
  }

  lemma {:induction false} TotalPieces(ps: seq<Piece>, q1: nat, q2: nat)
    requires q1 < q2 < |ps|
    ensures Total(ps[..q2]) == Total(ps[..q1]) + ps[q1].size + Total(ps[q1 + 1..q2])
  {
    TotalStep(ps, q1);
    assert ps[..q2] == ps[..q1 + 1] + ps[q1 + 1..q2];
    TotalAppend(ps[..q1 + 1], ps[q1 + 1..q2]);
  }

  /** Cutting out of five runs laid end to end. */
  lemma {:induction false} CutRuns(a: seq<Address>, p: seq<Address>, m: seq<Address>, q: seq<Address>, b: seq<Address>, d1: nat, d2: nat)
    requires d1 < |p| && d2 < |q|
    ensures (a + p + m + q + b)[|a| + d1..|a| + |p| + |m| + d2 + 1] == p[d1..] + m + q[..d2 + 1]
  {
  }

  /** A window is the slice of the bytes between its ends. */
  lemma {:induction false} WindowIsSlice(ps: seq<Piece>, q1: nat, d1: nat, q2: nat, d2: nat)
    requires q1 < q2 < |ps| && d1 < ps[q1].size && d2 < ps[q2].size
    ensures Total(ps[..q1]) + d1 <= Total(ps[..q2]) + d2 + 1 <= |Concat(ps)|
    ensures Concat(Window(ps, q1, d1, q2, d2)) == Concat(ps)[Total(ps[..q1]) + d1..Total(ps[..q2]) + d2 + 1]
  {
    WindowConcat(ps, q1, d1, q2, d2);
    ConcatPieces(ps, q1, q2);
    TotalPieces(ps, q1, q2);
    TotalIsLength(ps[..q1]);
    TotalIsLength(ps[q1 + 1..q2]);
    CutRuns(Concat(ps[..q1]), Run(ps[q1]), Concat(ps[q1 + 1..q2]), Run(ps[q2]), Concat(ps[q2 + 1..]), d1, d2);
  }

  // ----- finding the piece of an offset -----

  /** Where byte `small` of the ordered pieces lies: piece `q`, byte `d` of it. */
  ghost predicate Locates(ps: seq<Piece>, small: nat, q: nat, d: nat) {
    q < |ps| && d < ps[q].size && small == Total(ps[..q]) + d
  }

  function Int32(x: int): int { Signed(x % 0x1_0000_0000, 0xFFFF_FFFF) }

  lemma {:induction false} TotalStep(ps: seq<Piece>, q: nat)
    requires q < |ps|
    ensures Total(ps[..q + 1]) == Total(ps[..q]) + ps[q].size
  {
    assert ps[..q + 1] == ps[..q] + [ps[q]];
    TotalAppend(ps[..q], [ps[q]]);
    assert [ps[q]][1..] == [];
  }

  /** Scans the pieces in order for byte `small`; `pos == |ps|` when it is past them. */
  method ScanUp(ps: seq<Piece>, small: nat) returns (pos: nat, d: nat)
    ensures pos <= |ps| && (pos < |ps| <==> small < Total(ps))
    ensures pos < |ps| ==> Locates(ps, small, pos, d)
  {
    pos, d := 0, small;
    while pos < |ps|
      invariant 0 <= pos <= |ps|
      invariant small == Total(ps[..pos]) + d
    {
      if d < ps[pos].size {
        TotalGrows(ps, pos, |ps|);
        assert ps[..|ps|] == ps;
        return;
      }
      TotalStep(ps, pos);
      d := d - ps[pos].size;
      pos := pos + 1;
    }
    assert ps[..|ps|] == ps;
  }

  /** Scans the pieces from the last one; `pos == -1` when the byte is past them. */
  method ScanDown(ps: seq<Piece>, small: nat) returns (pos: int, d: nat)
    ensures -1 <= pos < |ps| && (pos >= 0 <==> small < Total(Reverse(ps)))
    ensures pos >= 0 ==> Locates(Reverse(ps), small, |ps| - 1 - pos, d)
  {
    ghost var order := Reverse(ps);
    pos, d := |ps| - 1, small;
    while pos >= 0
      invariant -1 <= pos < |ps|
      invariant small == Total(order[..|ps| - 1 - pos]) + d
    {
      ReverseAt(ps, |ps| - 1 - pos);
      if d < ps[pos].size {
        TotalGrows(order, |ps| - 1 - pos, |ps|);
        assert order[..|ps|] == order;
        return;
      }
      TotalStep(order, |ps| - 1 - pos);
      d := d - ps[pos].size;
      pos := pos - 1;
    }
    assert order[..|ps|] == order;
  }

  /**
   The address that holds byte `offset` of the record's range and the index of its
   piece; nothing when the offset is before the range or past its pieces.
   */
  method EquivalentAddress(rec: Record, offset: nat) returns (r: Option<(Address, nat)>, ghost d: nat)
    requires rec.pieces != [] && offset < rec.offset + 0x8000_0000
    ensures r.Some? <==> rec.offset <= offset < rec.offset + Total(InOrder(rec.pieces))
    ensures r.Some? ==> r.value.1 < |rec.pieces|
    ensures r.Some? ==> Locates(InOrder(rec.pieces), offset - rec.offset, Rank(rec.pieces, r.value.1), d)
    ensures r.Some? ==> r.value.0 == At(rec.pieces[r.value.1].space, rec.pieces[r.value.1].offset + d)
  {
    if offset < rec.offset { return None, 0; }
    var ps := rec.pieces;
    SmallInt32(offset - rec.offset);
    var pos, small;
    if ps[0].space.big {
      pos, small := ScanUp(ps, Int32(offset - rec.offset));
      if pos == |ps| { return None, 0; }
    } else {
      pos, small := ScanDown(ps, Int32(offset - rec.offset));
      if pos < 0 { return None, 0; }
    }
    return Some((At(ps[pos].space, ps[pos].offset + small), pos)), small;
  }

  lemma {:induction false} SmallInt32(x: nat)
    requires x < 0x8000_0000
    ensures Int32(x) == x
  {
  }

  /** The place of piece `pos` in address order. */
  function Rank(ps: seq<Piece>, pos: nat): (q: nat)
    requires pos < |ps|
    ensures q < |ps| && InOrder(ps)[q] == ps[pos]
  {
    if ps[0].space.big then pos else
      ReverseAt(ps, |ps| - 1 - pos);
      |ps| - 1 - pos
  }

  lemma {:induction false} TotalGrows(ps: seq<Piece>, q: nat, q': nat)
    requires q < q' <= |ps|
    ensures Total(ps[..q]) + ps[q].size <= Total(ps[..q'])
  {
    TotalStep(ps, q);
    assert ps[..q'] == ps[..q + 1] + ps[q + 1..q'];
    TotalAppend(ps[..q + 1], ps[q + 1..q']);
  }

  // ----- the allocator -----

  function Rounded(size: nat): (r: nat)
    ensures size <= r < size + 16 && r % 16 == 0
  {
    (size + 15) / 16 * 16
  }

  ghost predicate SoundAt(list: seq<Record>, allocate: nat, i: nat)
    requires i < |list|
  {
    && list[i].space.join
    && (forall p :: p in list[i].pieces ==> !p.space.join)
    && list[i].offset % 16 == 0
    && list[i].offset + Rounded(list[i].size) <= allocate
  }

  /** Two records share no address and are not the same storage. */
  ghost predicate ApartAt(list: seq<Record>, i: nat, j: nat)
    requires i < |list| && j < |list|
  {
    && list[i].offset + Rounded(list[i].size) <= list[j].offset
    && !(list[i].pieces == list[j].pieces && list[i].size == list[j].size)
  }

  /** Records are 16-aligned, pairwise disjoint and unique per pieces and size. */
  ghost predicate Sound(list: seq<Record>, allocate: nat) {
    && allocate % 16 == 0
    && (forall i: nat :: i < |list| ==> SoundAt(list, allocate, i))
    && (forall i: nat, j: nat :: i < j < |list| ==> ApartAt(list, i, j))
  }

  ghost predicate Covers(rec: Record, offset: nat) { rec.offset <= offset < rec.offset + rec.size }

  lemma {:induction false} CoveredOnce(list: seq<Record>, allocate: nat, i: nat, j: nat, offset: nat)
    requires Sound(list, allocate) && i < |list| && j < |list| && Covers(list[i], offset) && Covers(list[j], offset)
    ensures i == j
  {
    assert i < j ==> ApartAt(list, i, j);
    assert j < i ==> ApartAt(list, j, i);
  }

  lemma {:induction false} AppendSound(list: seq<Record>, allocate: nat, rec: Record)
    requires Sound(list, allocate) && rec.space.join && rec.offset == allocate
    requires forall p :: p in rec.pieces ==> !p.space.join
    requires forall i: nat :: i < |list| ==> !(list[i].pieces == rec.pieces && list[i].size == rec.size)
    ensures Sound(list + [rec], allocate + Rounded(rec.size))
  {
    var list' := list + [rec];
    var allocate' := allocate + Rounded(rec.size);
    forall i: nat | i < |list'| ensures SoundAt(list', allocate', i) {
      if i < |list| { assert SoundAt(list, allocate, i); }
    }
    forall i: nat, j: nat | i < j < |list'| ensures ApartAt(list', i, j) {
      if j < |list| { assert ApartAt(list, i, j); } else { assert SoundAt(list, allocate, i); }
    }
  }

  /** The record that a join address belongs to. */
  ghost function Owner(list: seq<Record>, offset: nat): (r: Option<Record>)
    ensures r.Some? ==> r.value in list && Covers(r.value, offset)
    ensures r.None? ==> forall rec :: rec in list ==> !Covers(rec, offset)
  {
    if exists rec :: rec in list && Covers(rec, offset) then
      var rec :| rec in list && Covers(rec, offset);
      Some(rec)
    else None
  }

  lemma {:induction false} OwnerIs(list: seq<Record>, allocate: nat, i: nat, offset: nat)
    requires Sound(list, allocate) && i < |list| && Covers(list[i], offset)
    ensures Owner(list, offset) == Some(list[i])
  {
    assert list[i] in list;
    var rec := Owner(list, offset).value;
    var j: nat :| j < |list| && list[j] == rec;
    CoveredOnce(list, allocate, i, j, offset);
  }

  /** The physical byte `k` bytes after an address: through its record for a join address. */
  ghost function Storage(list: seq<Record>, addr: Address, k: nat): Option<Address> {
    if !addr.space.join then Some(At(addr.space, addr.offset + k))
    else
      match Owner(list, addr.offset)
      case None => None
      case Some(rec) => ByteOf(rec, addr.offset - rec.offset + k)
  }

  function ByteOf(rec: Record, n: nat): Option<Address> {
    if rec.pieces != [] && n < |Layout(rec.pieces)| then Some(Layout(rec.pieces)[n]) else None
  }

  /** `addr'` stands for the same `size` bytes as `addr` did. */
  ghost predicate SameStorage(list: seq<Record>, addr: Address, list': seq<Record>, addr': Address, size: nat) {
    forall k: nat :: k < size ==> SameByteAt(list, addr, list', addr', k)
  }

  ghost predicate SameByteAt(list: seq<Record>, addr: Address, list': seq<Record>, addr': Address, k: nat) {
    Storage(list', addr', k) == Storage(list, addr, k)
  }

  method SamePieces(a: seq<Piece>, b: seq<Piece>) returns (same: bool)
    ensures same == (a == b)
  {
    if |a| != |b| { return false; }
    for i := 0 to |a|
      invariant a[..i] == b[..i]
    {
      if a[i] != b[i] { return false; }
    }
    return true;
  }

  // ----- renormalizing -----

  ghost predicate Uniform(ps: seq<Piece>) {
    forall p :: p in ps ==> p.space.big == ps[0].space.big
  }

  /** The pieces of the new record: the window in the order most significant first. */
  function Covering(ps: seq<Piece>, q1: nat, d1: nat, q2: nat, d2: nat): (r: seq<Piece>)
    requires ps != [] && q1 < q2 < |ps| && d1 < InOrder(ps)[q1].size && d2 < InOrder(ps)[q2].size
    ensures |r| == q2 - q1 + 1
  {
    var w := Window(InOrder(ps), q1, d1, q2, d2);
    if ps[0].space.big then w else Reverse(w)
  }

  /** The range starts in a record and ends inside its pieces. */
  ghost predicate WithinPieces(list: seq<Record>, addr: Address, size: nat) {
    match Owner(list, addr.offset)
    case None => false
    case Some(rec) => rec.pieces != [] && addr.offset + size <= rec.offset + Total(InOrder(rec.pieces))
  }

  lemma {:induction false} OnePiece(list: seq<Record>, addr: Address, rec: Record, pos: nat, d1: nat, d2: nat, size: nat)
    requires Owner(list, addr.offset) == Some(rec) && rec.pieces != [] && addr.space.join && size > 0
    requires pos < |rec.pieces| && !rec.pieces[pos].space.join
    requires Locates(InOrder(rec.pieces), addr.offset - rec.offset, Rank(rec.pieces, pos), d1)
    requires Locates(InOrder(rec.pieces), addr.offset + size - 1 - rec.offset, Rank(rec.pieces, pos), d2)
    ensures SameStorage(list, addr, list, At(rec.pieces[pos].space, rec.pieces[pos].offset + d1), size)
  {
    var p, q := rec.pieces[pos], Rank(rec.pieces, pos);
    var addr' := At(p.space, p.offset + d1);
    forall k: nat | k < size ensures SameByteAt(list, addr, list, addr', k) {
      ConcatAt(InOrder(rec.pieces), q, d1 + k);
      ModOfSum(p.offset + d1, k, WORD);
      assert Storage(list, addr', k) == Some(At(p.space, p.offset + d1 + k));
    }
  }

  /** The covered pieces, the outer two cut down. */
  method CutPieces(rec: Record, addr1: Address, pos1: nat, addr2: Address, pos2: nat, ghost from: nat, ghost d1: nat, ghost to: nat, ghost d2: nat)
    returns (pieces: seq<Piece>)
    requires rec.pieces != [] && pos1 < |rec.pieces| && pos2 < |rec.pieces| && pos1 != pos2
    requires rec.offset <= from <= to < rec.offset + 0x8000_0000
    requires Locates(InOrder(rec.pieces), from - rec.offset, Rank(rec.pieces, pos1), d1)
    requires Locates(InOrder(rec.pieces), to - rec.offset, Rank(rec.pieces, pos2), d2)
    requires addr1 == At(rec.pieces[pos1].space, rec.pieces[pos1].offset + d1)
    requires addr2 == At(rec.pieces[pos2].space, rec.pieces[pos2].offset + d2)
    ensures Rank(rec.pieces, pos1) < Rank(rec.pieces, pos2)
    ensures pieces == Covering(rec.pieces, Rank(rec.pieces, pos1), d1, Rank(rec.pieces, pos2), d2)
  {
    var p1, p2 := rec.pieces[pos1], rec.pieces[pos2];
    RanksInOrder(rec.pieces, from - rec.offset, pos1, d1, to - rec.offset, pos2, d2);
    CutIs(p1.offset, d1);
    CutIs(p2.offset, d2);
    var trunc1 := Int32((addr1.offset - p1.offset) % WORD);
    var trunc2 := p2.size - Int32((addr2.offset - p2.offset) % WORD) - 1;
    if pos2 < pos1 {
      pieces := rec.pieces[pos2..pos1 + 1];
      pieces := pieces[|pieces| - 1 := Piece(p1.space, addr1.offset, p1.size - trunc1)];
      pieces := pieces[0 := Piece(p2.space, p2.offset, p2.size - trunc2)];
      ReversedWindow(rec.pieces, pos1, d1, pos2, d2);
    } else {
      pieces := rec.pieces[pos1..pos2 + 1];
      pieces := pieces[0 := Piece(p1.space, addr1.offset, p1.size - trunc1)];
      pieces := pieces[|pieces| - 1 := Piece(p2.space, p2.offset, p2.size - trunc2)];
    }
  }

  lemma {:induction false} CutIs(offset: nat, d: nat)
    requires d < 0x8000_0000
    ensures Int32(((offset + d) % WORD - offset) % WORD) == d
  {
    ModOfDifference(offset + d, offset, WORD);
    SmallMod(d, WORD);
    SmallInt32(d);
  }

  lemma {:induction false} RanksInOrder(ps: seq<Piece>, small1: nat, pos1: nat, d1: nat, small2: nat, pos2: nat, d2: nat)
    requires ps != [] && pos1 < |ps| && pos2 < |ps| && pos1 != pos2 && small1 <= small2
    requires Locates(InOrder(ps), small1, Rank(ps, pos1), d1) && Locates(InOrder(ps), small2, Rank(ps, pos2), d2)
    ensures Rank(ps, pos1) < Rank(ps, pos2)
    ensures pos2 < pos1 <==> !ps[0].space.big
    ensures d1 <= small1 && d2 <= small2
  {
    if Rank(ps, pos2) < Rank(ps, pos1) { TotalGrows(InOrder(ps), Rank(ps, pos2), Rank(ps, pos1)); }
  }

  lemma {:induction false} ReversedWindow(ps: seq<Piece>, pos1: nat, d1: nat, pos2: nat, d2: nat)
    requires pos2 < pos1 < |ps| && !ps[0].space.big && d1 < ps[pos1].size && d2 < ps[pos2].size
    ensures var r := Covering(ps, Rank(ps, pos1), d1, Rank(ps, pos2), d2);
      var cut := ps[pos2..pos1 + 1][pos1 - pos2 := Piece(ps[pos1].space, (ps[pos1].offset + d1) % WORD, ps[pos1].size - d1)];
      r == cut[0 := Piece(ps[pos2].space, ps[pos2].offset, d2 + 1)]
  {
    var order := Reverse(ps);
    var n := |ps|;
    ReverseAt(ps, n - 1 - pos1);
    ReverseAt(ps, n - 1 - pos2);
    var w := Window(order, n - 1 - pos1, d1, n - 1 - pos2, d2);
    var cut := ps[pos2..pos1 + 1][pos1 - pos2 := Piece(ps[pos1].space, (ps[pos1].offset + d1) % WORD, ps[pos1].size - d1)];
    var r := cut[0 := Piece(ps[pos2].space, ps[pos2].offset, d2 + 1)];
    assert |w| == pos1 - pos2 + 1 && |r| == |w|;
    forall i | 0 <= i < |w| ensures r[i] == w[|w| - 1 - i] {
      ReverseAt(ps, n - 1 - pos2 - i);
      assert 0 < i < |w| - 1 ==> w[|w| - 1 - i] == order[n - 1 - pos2 - i] && r[i] == ps[pos2 + i];
    }
    ReverseIs(w, r);
  }

  ghost predicate SoundRecord(rec: Record) {
    rec.pieces != [] && rec.space.join && forall p :: p in rec.pieces ==> !p.space.join
  }

  lemma {:induction false} OwnerIsSound(list: seq<Record>, allocate: nat, offset: nat)
    requires Sound(list, allocate) && Owner(list, offset).Some? && Owner(list, offset).value.pieces != []
    ensures SoundRecord(Owner(list, offset).value)
  {
    var i: nat :| i < |list| && list[i] == Owner(list, offset).value;
    assert SoundAt(list, allocate, i);
  }

  /** What a successful renormalization promises of the new address. */
  ghost predicate Recast(list: seq<Record>, addr: Address, list': seq<Record>, addr': Address, size: nat) {
    SameBytes(list, addr, list', addr', size) && (addr' == addr || !addr'.space.join || WholeRecord(list', addr', size))
  }

  /** The range is the whole range of the record. */
  predicate Whole(rec: Record, addr: Address, size: nat) { addr.offset == rec.offset && size == rec.size }

  /** When several pieces are covered, the most significant of them has the record's byte order. */
  ghost predicate KeepsOrder(ps: seq<Piece>, from: nat, size: nat) {
    ps != [] && size > 0 && forall q1: nat, d1: nat, q2: nat, d2: nat :: OrderKeptAt(ps, from, size, q1, d1, q2, d2)
  }

  ghost predicate OrderKeptAt(ps: seq<Piece>, from: nat, size: nat, q1: nat, d1: nat, q2: nat, d2: nat)
    requires ps != [] && size > 0
  {
    q1 < q2 && Locates(InOrder(ps), from, q1, d1) && Locates(InOrder(ps), from + size - 1, q2, d2) ==>
      InOrder(ps)[if ps[0].space.big then q1 else q2].space.big == ps[0].space.big
  }

  /** The same bytes if the byte order is kept; of distinct bytes, only then. */
  ghost predicate SameBytes(list: seq<Record>, addr: Address, list': seq<Record>, addr': Address, size: nat) {
    match Owner(list, addr.offset)
    case None => true
    case Some(rec) =>
      var kept := Whole(rec, addr, size) || KeepsOrder(rec.pieces, addr.offset - rec.offset, size);
      && (kept ==> SameStorage(list, addr, list', addr', size))
      && (rec.pieces != [] && Distinct(Layout(rec.pieces)) && SameStorage(list, addr, list', addr', size) ==> kept)
  }

  /** Pieces that agree on the byte order keep it. */
  lemma {:induction false} UniformKeepsOrder(ps: seq<Piece>, from: nat, size: nat)
    requires ps != [] && size > 0 && Uniform(ps)
    ensures KeepsOrder(ps, from, size)
  {
    forall q1: nat, d1: nat, q2: nat, d2: nat ensures OrderKeptAt(ps, from, size, q1, d1, q2, d2) {
      if q1 < q2 < |ps| {
        OrderedIsPiece(ps, q1);
        OrderedIsPiece(ps, q2);
      }
    }
  }

  /** A byte lies in one piece. */
  lemma {:induction false} LocatesOnce(ps: seq<Piece>, small: nat, q: nat, d: nat, q': nat, d': nat)
    requires Locates(ps, small, q, d) && Locates(ps, small, q', d')
    ensures q == q' && d == d'
  {
    if q < q' { TotalGrows(ps, q, q'); }
    if q' < q { TotalGrows(ps, q', q); }
  }

  lemma {:induction false} OneKeepsOrder(ps: seq<Piece>, from: nat, size: nat, q: nat, d1: nat, d2: nat)
    requires ps != [] && size > 0 && Locates(InOrder(ps), from, q, d1) && Locates(InOrder(ps), from + size - 1, q, d2)
    ensures KeepsOrder(ps, from, size)
  {
    forall q1: nat, e1: nat, q2: nat, e2: nat ensures OrderKeptAt(ps, from, size, q1, e1, q2, e2) {
      if Locates(InOrder(ps), from, q1, e1) && Locates(InOrder(ps), from + size - 1, q2, e2) {
        LocatesOnce(InOrder(ps), from, q, d1, q1, e1);
        LocatesOnce(InOrder(ps), from + size - 1, q, d2, q2, e2);
      }
    }
  }

  /** Across pieces, the byte order is kept when the first piece of the new record has it. */
  lemma {:induction false} ManyKeepOrder(ps: seq<Piece>, from: nat, size: nat, q1: nat, d1: nat, q2: nat, d2: nat)
    requires ps != [] && size > 0 && q1 < q2 && Locates(InOrder(ps), from, q1, d1) && Locates(InOrder(ps), from + size - 1, q2, d2)
    ensures KeepsOrder(ps, from, size) <==> Covering(ps, q1, d1, q2, d2)[0].space.big == ps[0].space.big
  {
    var w := Window(InOrder(ps), q1, d1, q2, d2);
    ReverseAt(w, 0);
    assert w[0].space == InOrder(ps)[q1].space && w[|w| - 1].space == InOrder(ps)[q2].space;
    assert OrderKeptAt(ps, from, size, q1, d1, q2, d2) <==> Covering(ps, q1, d1, q2, d2)[0].space.big == ps[0].space.big;
    if OrderKeptAt(ps, from, size, q1, d1, q2, d2) {
      forall p1: nat, e1: nat, p2: nat, e2: nat ensures OrderKeptAt(ps, from, size, p1, e1, p2, e2) {
        if Locates(InOrder(ps), from, p1, e1) && Locates(InOrder(ps), from + size - 1, p2, e2) {
          LocatesOnce(InOrder(ps), from, q1, d1, p1, e1);
          LocatesOnce(InOrder(ps), from + size - 1, q2, d2, p2, e2);
        }
      }
    }
  }

  ghost predicate WholeRecord(list: seq<Record>, addr: Address, size: nat) {
    exists rec :: rec in list && rec.offset == addr.offset && rec.size == size
  }

  lemma {:induction false} CoveringFrom(ps: seq<Piece>, q1: nat, d1: nat, q2: nat, d2: nat, p: Piece)
    requires ps != [] && q1 < q2 < |ps| && d1 < InOrder(ps)[q1].size && d2 < InOrder(ps)[q2].size
    requires p in Covering(ps, q1, d1, q2, d2)
    ensures exists p' :: p' in ps && p'.space == p.space
  {
    var order := InOrder(ps);
    var w := Window(order, q1, d1, q2, d2);
    InReverse(w, p);
    var i :| 0 <= i < |w| && w[i] == p;
    WindowSpace(order, q1, d1, q2, d2, i);
    OrderedIsPiece(ps, q1 + i);
  }

  lemma {:induction false} WindowSpace(order: seq<Piece>, q1: nat, d1: nat, q2: nat, d2: nat, i: nat)
    requires q1 < q2 < |order| && d1 < order[q1].size && d2 < order[q2].size && i <= q2 - q1
    ensures i < |Window(order, q1, d1, q2, d2)| && Window(order, q1, d1, q2, d2)[i].space == order[q1 + i].space
  {
  }

  lemma {:induction false} OrderedIsPiece(ps: seq<Piece>, q: nat)
    requires ps != [] && q < |ps|
    ensures InOrder(ps)[q] in ps
  {
    ReverseAt(ps, q);
  }

  lemma {:induction false} InReverse(ps: seq<Piece>, p: Piece)
    ensures p in Reverse(ps) ==> p in ps
  {
    if p in Reverse(ps) {
      var i: nat :| i < |ps| && Reverse(ps)[i] == p;
      ReverseAt(ps, i);
    }
  }

  lemma {:induction false} CoveringIsPhysical(ps: seq<Piece>, q1: nat, d1: nat, q2: nat, d2: nat)
    requires ps != [] && q1 < q2 < |ps| && d1 < InOrder(ps)[q1].size && d2 < InOrder(ps)[q2].size
    requires forall p :: p in ps ==> !p.space.join
    ensures forall p :: p in Covering(ps, q1, d1, q2, d2) ==> !p.space.join
  {
    forall p | p in Covering(ps, q1, d1, q2, d2) ensures !p.space.join {
      CoveringFrom(ps, q1, d1, q2, d2, p);
    }
  }

  lemma {:induction false} ManyPieces(list: seq<Record>, list': seq<Record>, allocate': nat, addr: Address, size: nat, rec: Record, nrec: Record, q1: nat, d1: nat, q2: nat, d2: nat)
    requires Sound(list', allocate') && nrec in list' && SoundRecord(rec)
    requires addr.space.join && size > 0 && Owner(list, addr.offset) == Some(rec) && !Whole(rec, addr, size)
    requires q1 < q2 && Locates(InOrder(rec.pieces), addr.offset - rec.offset, q1, d1)
    requires Locates(InOrder(rec.pieces), addr.offset + size - 1 - rec.offset, q2, d2)
    requires nrec.pieces == Covering(rec.pieces, q1, d1, q2, d2) && nrec.size == Total(nrec.pieces)
    ensures Recast(list, addr, list', Address(nrec.space, nrec.offset), size)
  {
    var from := addr.offset - rec.offset;
    WindowTotal(rec.pieces, from, q1, d1, from + size - 1, q2, d2);
    assert nrec in list' && nrec.size == size;
    NewOwner(list', allocate', nrec);
    ManyKeepOrder(rec.pieces, from, size, q1, d1, q2, d2);
    if KeepsOrder(rec.pieces, from, size) {
      CoveringLayout(rec.pieces, from, q1, d1, from + size - 1, q2, d2);
      SliceBytes(rec, nrec, from, size);
      SliceStorage(list, list', addr, Address(nrec.space, nrec.offset), size, rec, nrec, from);
    } else if Distinct(Layout(rec.pieces)) {
      TurnedStorage(list, list', addr, size, rec, nrec, q1, d1, q2, d2);
    }
  }

  /** When the byte order turns round, the first byte is another one. */
  lemma {:induction false} TurnedStorage(list: seq<Record>, list': seq<Record>, addr: Address, size: nat, rec: Record, nrec: Record, q1: nat, d1: nat, q2: nat, d2: nat)
    requires addr.space.join && size > 0 && Owner(list, addr.offset) == Some(rec) && rec.pieces != []
    requires nrec.space.join && Owner(list', nrec.offset) == Some(nrec)
    requires q1 < q2 && Locates(InOrder(rec.pieces), addr.offset - rec.offset, q1, d1)
    requires Locates(InOrder(rec.pieces), addr.offset - rec.offset + size - 1, q2, d2)
    requires nrec.pieces == Covering(rec.pieces, q1, d1, q2, d2) && Distinct(Layout(rec.pieces))
    requires nrec.pieces[0].space.big != rec.pieces[0].space.big
    ensures !SameStorage(list, addr, list', Address(nrec.space, nrec.offset), size)
  {
    TurnedRound(rec.pieces, q1, d1, q2, d2);
    OtherByte(InOrder(rec.pieces), addr.offset - rec.offset, q1, d1, addr.offset - rec.offset + size - 1, q2, d2);
    assert !SameByteAt(list, addr, list', Address(nrec.space, nrec.offset), 0);
  }

  lemma {:induction false} WindowTotal(ps: seq<Piece>, small1: nat, q1: nat, d1: nat, small2: nat, q2: nat, d2: nat)
    requires ps != [] && q1 < q2 && Locates(InOrder(ps), small1, q1, d1) && Locates(InOrder(ps), small2, q2, d2)
    ensures Total(Covering(ps, q1, d1, q2, d2)) == small2 + 1 - small1
  {
    var w := Window(InOrder(ps), q1, d1, q2, d2);
    WindowIsSlice(InOrder(ps), q1, d1, q2, d2);
    TotalIsLength(w);
    TotalReverse(w);
  }

  ghost predicate AgreeAt(rec: Record, nrec: Record, from: nat, k: nat) { ByteOf(nrec, k) == ByteOf(rec, from + k) }

  lemma {:induction false} SliceStorage(list: seq<Record>, list': seq<Record>, addr: Address, addr': Address, size: nat, rec: Record, nrec: Record, from: nat)
    requires addr.space.join && Owner(list, addr.offset) == Some(rec)
    requires addr'.space.join && Owner(list', addr'.offset) == Some(nrec) && addr'.offset == nrec.offset
    requires from == addr.offset - rec.offset && forall k: nat :: k < size ==> AgreeAt(rec, nrec, from, k)
    ensures SameStorage(list, addr, list', addr', size)
  {
    forall k: nat | k < size ensures SameByteAt(list, addr, list', addr', k) {
      assert AgreeAt(rec, nrec, from, k);
      SliceByteAt(list, list', addr, addr', rec, nrec, from, k);
    }
  }

  lemma {:induction false} SliceByteAt(list: seq<Record>, list': seq<Record>, addr: Address, addr': Address, rec: Record, nrec: Record, from: nat, k: nat)
    requires addr.space.join && Owner(list, addr.offset) == Some(rec)
    requires addr'.space.join && Owner(list', addr'.offset) == Some(nrec) && addr'.offset == nrec.offset
    requires from == addr.offset - rec.offset && ByteOf(nrec, k) == ByteOf(rec, from + k)
    ensures SameByteAt(list, addr, list', addr', k)
  {
    assert Storage(list', addr', k) == ByteOf(nrec, k);
    assert Storage(list, addr, k) == ByteOf(rec, from + k);
  }

  lemma {:induction false} SliceBytes(rec: Record, nrec: Record, from: nat, size: nat)
    requires rec.pieces != [] && nrec.pieces != [] && from + size <= |Layout(rec.pieces)|
    requires Layout(nrec.pieces) == Layout(rec.pieces)[from..from + size]
    ensures forall k: nat :: k < size ==> AgreeAt(rec, nrec, from, k)
  {
    forall k: nat | k < size ensures AgreeAt(rec, nrec, from, k) {
      SliceByte(Layout(rec.pieces), Layout(nrec.pieces), from, size, k);
    }
  }

  lemma {:induction false} SliceByte(whole: seq<Address>, part: seq<Address>, from: nat, size: nat, k: nat)
    requires from + size <= |whole| && part == whole[from..from + size] && k < size
    ensures |part| == size && part[k] == whole[from + k]
  {
  }

  lemma {:induction false} NewOwner(list: seq<Record>, allocate: nat, rec: Record)
    requires Sound(list, allocate) && rec in list && rec.size > 0
    ensures Owner(list, rec.offset) == Some(rec) && rec.space.join
  {
    var i: nat :| i < |list| && list[i] == rec;
    assert SoundAt(list, allocate, i);
    OwnerIs(list, allocate, i, rec.offset);
  }

  /** As long as the new first piece has the old one's byte order, the new record is the slice. */
  lemma {:induction false} CoveringLayout(ps: seq<Piece>, small1: nat, q1: nat, d1: nat, small2: nat, q2: nat, d2: nat)
    requires ps != [] && q1 < q2 && Locates(InOrder(ps), small1, q1, d1) && Locates(InOrder(ps), small2, q2, d2)
    requires Covering(ps, q1, d1, q2, d2)[0].space.big == ps[0].space.big
    ensures small1 <= small2 < |Layout(ps)|
    ensures Layout(Covering(ps, q1, d1, q2, d2)) == Layout(ps)[small1..small2 + 1]
    ensures Total(Covering(ps, q1, d1, q2, d2)) == small2 + 1 - small1
  {
    var order := InOrder(ps);
    var w := Window(order, q1, d1, q2, d2);
    WindowIsSlice(order, q1, d1, q2, d2);
    ReverseTwice(w);
    TotalIsLength(w);
    TotalReverse(w);
    TotalGrows(order, q1, q2);
  }

  ghost predicate Distinct(bytes: seq<Address>) {
    forall i, j :: 0 <= i < j < |bytes| ==> bytes[i] != bytes[j]
  }

  /** Otherwise the byte order turns round, and the very first byte is another one. */
  lemma {:induction false} MixedEndian(ps: seq<Piece>, small1: nat, q1: nat, d1: nat, small2: nat, q2: nat, d2: nat)
    requires ps != [] && q1 < q2 && Locates(InOrder(ps), small1, q1, d1) && Locates(InOrder(ps), small2, q2, d2)
    requires Distinct(Layout(ps))
    ensures small1 <= small2 < |Layout(ps)|
    ensures Layout(Covering(ps, q1, d1, q2, d2)) == Layout(ps)[small1..small2 + 1]
      <==> Covering(ps, q1, d1, q2, d2)[0].space.big == ps[0].space.big
  {
    var order := InOrder(ps);
    TotalGrows(order, q1, q2);
    ConcatAt(order, q2, d2);
    if Covering(ps, q1, d1, q2, d2)[0].space.big == ps[0].space.big {
      CoveringLayout(ps, small1, q1, d1, small2, q2, d2);
    } else {
      TurnedDiffers(ps, small1, q1, d1, small2, q2, d2);
    }
  }

  lemma {:induction false} TurnedDiffers(ps: seq<Piece>, small1: nat, q1: nat, d1: nat, small2: nat, q2: nat, d2: nat)
    requires ps != [] && q1 < q2 && Locates(InOrder(ps), small1, q1, d1) && Locates(InOrder(ps), small2, q2, d2)
    requires Distinct(Layout(ps)) && small1 <= small2 < |Layout(ps)|
    requires Covering(ps, q1, d1, q2, d2)[0].space.big != ps[0].space.big
    ensures Layout(Covering(ps, q1, d1, q2, d2)) != Layout(ps)[small1..small2 + 1]
  {
    TurnedRound(ps, q1, d1, q2, d2);
    FirstByteDiffers(InOrder(ps), small1, q1, d1, small2, q2, d2, Layout(Covering(ps, q1, d1, q2, d2)));
  }

  lemma {:induction false} FirstByteDiffers(order: seq<Piece>, small1: nat, q1: nat, d1: nat, small2: nat, q2: nat, d2: nat, made: seq<Address>)
    requires q1 < q2 && Locates(order, small1, q1, d1) && Locates(order, small2, q2, d2) && small1 <= small2 < |Concat(order)|
    requires Distinct(Concat(order))
    requires made != [] && made[0] == At(order[q2].space, order[q2].offset)
    ensures made != Concat(order)[small1..small2 + 1]
  {
    OtherByte(order, small1, q1, d1, small2, q2, d2);
    assert Concat(order)[small1..small2 + 1][0] == Concat(order)[small1];
  }

  /** The first byte of a later piece is not one of an earlier piece. */
  lemma {:induction false} OtherByte(order: seq<Piece>, small1: nat, q1: nat, d1: nat, small2: nat, q2: nat, d2: nat)
    requires q1 < q2 && Locates(order, small1, q1, d1) && Locates(order, small2, q2, d2) && Distinct(Concat(order))
    ensures small1 < |Concat(order)| && Concat(order)[small1] != At(order[q2].space, order[q2].offset)
  {
    ConcatAt(order, q1, d1);
    ConcatAt(order, q2, 0);
    TotalGrows(order, q1, q2);
  }

  lemma {:induction false} TurnedRound(ps: seq<Piece>, q1: nat, d1: nat, q2: nat, d2: nat)
    requires ps != [] && q1 < q2 < |ps| && d1 < InOrder(ps)[q1].size && d2 < InOrder(ps)[q2].size
    requires Covering(ps, q1, d1, q2, d2)[0].space.big != ps[0].space.big
    ensures var r := Layout(Covering(ps, q1, d1, q2, d2));
      r != [] && r[0] == At(InOrder(ps)[q2].space, InOrder(ps)[q2].offset)
  {
    var order := InOrder(ps);
    var w := Window(order, q1, d1, q2, d2);
    var made := Covering(ps, q1, d1, q2, d2);
    ReverseTwice(w);
    assert InOrder(made) == Reverse(w);
    assert Reverse(w)[0] == w[|w| - 1] == Piece(order[q2].space, order[q2].offset, d2 + 1);
    assert Run(w[|w| - 1])[0] == At(order[q2].space, order[q2].offset + 0);
  }

  class JoinManager {
    var list: seq<Record>
    var allocate: nat

    ghost predicate Valid()
      reads this
    {
      Sound(list, allocate)
    }

    constructor ()
      ensures Valid() && list == []
    {
      list, allocate := [], 0;
    }

    /** The record of the pieces, made if there is none yet; a size of 0 means the sum of the pieces. */
    method FindAddJoin(joinSpace: Space, pieces: seq<Piece>, logicalsize: nat) returns (rec: Record)
      requires Valid() && joinSpace.join && forall p :: p in pieces ==> !p.space.join
      modifies this
      ensures Valid()
      ensures rec in list && rec.pieces == pieces && rec.size == if logicalsize == 0 then Total(pieces) else logicalsize
      ensures list == if rec in old(list) then old(list) else old(list) + [rec]
      ensures rec !in old(list) ==> rec.offset == old(allocate) && rec.space == joinSpace
    {
      var totalsize := logicalsize;
      if totalsize == 0 { totalsize := SumSizes(pieces); }
      for i := 0 to |list|
        invariant list == old(list) && allocate == old(allocate)
        invariant forall j: nat :: j < i ==> !(list[j].pieces == pieces && list[j].size == totalsize)
      {
        if list[i].size == totalsize {
          var same := SamePieces(list[i].pieces, pieces);
          if same { return list[i]; }
        }
      }
      rec := Record(pieces, joinSpace, allocate, totalsize);
      AppendSound(list, allocate, rec);
      allocate := allocate + Rounded(totalsize);
      list := list + [rec];
    }

    /** The record whose unified range contains the offset. */
    method FindJoinInternal(offset: nat) returns (r: Option<Record>)
      requires Valid()
      ensures r == Owner(list, offset)
    {
      for i := 0 to |list|
        invariant forall j: nat :: j < i ==> !Covers(list[j], offset)
      {
        if list[i].offset <= offset < list[i].offset + list[i].size {
          OwnerIs(list, allocate, i, offset);
          return Some(list[i]);
        }
      }
      assert Owner(list, offset).None?;
      return None;
    }

    /**
     Rewrites a join address of `size` bytes to the storage it covers: inside one piece
     its address, otherwise the record of the covered pieces.
     */
    method Renormalize(addr: Address, size: nat) returns (addr': Address)
      requires Valid() && addr.space.join && size > 0
      requires forall rec :: rec in list ==> rec.size + size <= 0x8000_0000
      requires forall rec :: Owner(list, addr.offset) == Some(rec) ==> rec.pieces != [] || Whole(rec, addr, size)
      modifies this
      ensures Valid() && old(list) <= list
      ensures !WithinPieces(old(list), addr, size) ==> addr' == addr && list == old(list)
      ensures WithinPieces(old(list), addr, size) ==> Recast(old(list), addr, list, addr', size)
    {
      var owner := FindJoinInternal(addr.offset);
      if owner.None? { return addr; }
      var rec := owner.value;
      if addr.offset == rec.offset && size == rec.size { return addr; }
      OwnerIsSound(list, allocate, addr.offset);
      var r1, d1 := EquivalentAddress(rec, addr.offset);
      var r2, d2 := EquivalentAddress(rec, addr.offset + size - 1);
      if r1.None? || r2.None? { return addr; }
      if r1.value.1 == r2.value.1 {
        OnePiece(list, addr, rec, r1.value.1, d1, d2, size);
        OneKeepsOrder(rec.pieces, addr.offset - rec.offset, size, Rank(rec.pieces, r1.value.1), d1, d2);
        return r1.value.0;
      }
      addr' := Rejoin(addr, size, rec, r1.value, d1, r2.value, d2);
    }

    /** Renormalizing across pieces: the record of the covered pieces. */
    method Rejoin(addr: Address, size: nat, rec: Record, r1: (Address, nat), ghost d1: nat, r2: (Address, nat), ghost d2: nat)
      returns (addr': Address)
      requires Valid() && addr.space.join && size > 0 && Owner(list, addr.offset) == Some(rec) && SoundRecord(rec)
      requires addr.offset + size <= rec.offset + 0x8000_0000 && !Whole(rec, addr, size)
      requires r1.1 < |rec.pieces| && r2.1 < |rec.pieces| && r1.1 != r2.1
      requires Locates(InOrder(rec.pieces), addr.offset - rec.offset, Rank(rec.pieces, r1.1), d1)
      requires Locates(InOrder(rec.pieces), addr.offset + size - 1 - rec.offset, Rank(rec.pieces, r2.1), d2)
      requires r1.0 == At(rec.pieces[r1.1].space, rec.pieces[r1.1].offset + d1)
      requires r2.0 == At(rec.pieces[r2.1].space, rec.pieces[r2.1].offset + d2)
      modifies this
      ensures Valid() && old(list) <= list
      ensures Recast(old(list), addr, list, addr', size)
    {
      var pieces := CutPieces(rec, r1.0, r1.1, r2.0, r2.1, addr.offset, d1, addr.offset + size - 1, d2);
      CoveringIsPhysical(rec.pieces, Rank(rec.pieces, r1.1), d1, Rank(rec.pieces, r2.1), d2);
      var nrec := FindAddJoin(rec.space, pieces, 0);
      addr' := Address(nrec.space, nrec.offset);
      ManyPieces(old(list), list, allocate, addr, size, rec, nrec, Rank(rec.pieces, r1.1), d1, Rank(rec.pieces, r2.1), d2);
    }
  }

  method SumSizes(pieces: seq<Piece>) returns (total: nat)
    ensures total == Total(pieces)
  {
    total := 0;
    for i := 0 to |pieces|
      invariant total == Total(pieces[..i])
    {
      TotalStep(pieces, i);
      total := total + pieces[i].size;
    }
    assert pieces[..|pieces|] == pieces;
  }
}

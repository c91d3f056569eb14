/**
 The bitfields of a structure (pkg/pcode/bitfield_types.go:62-186 and
 pkg/pcode/bitrange.go:50-72, 250-264): containers cut down to the bytes a field
 touches, the sorted table without overlaps, and the searches in it.
 */
module BitTables {
  import opened Options
  import opened Sorting
  import opened BitFields

  // ----- where the bits of a range are -----

  /** The position of the lowest bit, counted from the end that is least significant. */
  function Place(b: BitRange): int {
    if b.big then b.lsb - 8 * (b.byteOffset + b.byteSize) else 8 * b.byteOffset + b.lsb
  }

  function End(b: BitRange): int { Place(b) + b.num }

  /** The container is no larger than the bytes the range touches. */
  predicate Minimal(b: BitRange) { 0 <= b.lsb < 8 && b.num > 0 && b.byteSize == (b.lsb + b.num + 7) / 8 }

  predicate Overlap(b: BitRange, o: BitRange) { Place(b) < End(o) && Place(o) < End(b) }

  predicate SameBits(b: BitRange, o: BitRange) { Place(b) == Place(o) && b.num == o.num }

  function Minimize(b: BitRange): BitRange
    requires b.lsb >= 0
  {
    var trunc, lsb := b.lsb / 8, b.lsb % 8;
    var size := if b.big then b.byteSize - trunc else b.byteSize;
    var offset := if b.big then b.byteOffset else b.byteOffset + trunc;
    var n := size - (lsb + b.num + 7) / 8;
    if n > 0 then b.(byteOffset := if b.big then offset + n else offset, byteSize := size - n, lsb := lsb)
    else b.(byteOffset := offset, byteSize := size, lsb := lsb)
  }

  /** Minimizing the container keeps the bits, in either byte order. */
  lemma MinimizeKeepsBits(b: BitRange)
    requires b.Inside()
    ensures Minimal(Minimize(b)) && Minimize(b).Inside() && SameBits(Minimize(b), b) && Minimize(b).big == b.big
  {
  }

  /** Translating into another container finds the same bit. */
  lemma TranslateKeepsBits(b: BitRange, o: BitRange)
    requires b.big == o.big
    ensures Place(b.(lsb := TranslateLsb(b, o))) == Place(o)
  {
  }

  ghost predicate Covers(b: BitRange, o: BitRange) { Place(b) <= Place(o) && End(o) <= End(b) }

  /** What the codes of the overlap test mean; -1 is less significant, in big-endian order more. */
  lemma OverlapMeans(b: BitRange, o: BitRange)
    requires b.big == o.big && b.num > 0 && o.num > 0
    ensures OverlapTest(b, o) == -1 <==> if b.big then End(o) <= Place(b) else End(b) <= Place(o)
    ensures OverlapTest(b, o) == 1 <==> if b.big then End(b) <= Place(o) else End(o) <= Place(b)
    ensures OverlapTest(b, o) == 0 <==> SameBits(b, o)
    ensures OverlapTest(b, o) == 2 <==> Covers(o, b) && !SameBits(b, o)
    ensures OverlapTest(b, o) == 3 <==> Covers(b, o) && !SameBits(b, o)
    ensures OverlapTest(b, o) == 4 <==> Overlap(b, o) && !Covers(b, o) && !Covers(o, b)
    ensures OverlapTest(b, o) != -1 && OverlapTest(b, o) != 1 <==> Overlap(b, o)
  {
  }

  // ----- the order of the table -----

  /** Containers first, then bits. */
  predicate AtMost(b: BitRange, o: BitRange) {
    if b.byteOffset != o.byteOffset then b.byteOffset < o.byteOffset
    else if b.byteSize != o.byteSize then b.byteSize < o.byteSize
    else if b.lsb != o.lsb then b.lsb < o.lsb
    else b.num <= o.num
  }

  /** For minimal containers the order of containers is the order of the bits. */
  lemma OrderAgrees(b: BitRange, o: BitRange)
    requires !b.big && !o.big && Minimal(b) && Minimal(o) && AtMost(b, o) && !Overlap(b, o)
    ensures End(b) <= Place(o)
  {
  }

  /** A bitfield of the table and the member it comes from. */
  datatype Entry = Entry(bits: BitRange, id: nat)

  ghost predicate Proper(e: Entry) { !e.bits.big && Minimal(e.bits) }

  ghost predicate Sorted(s: seq<Entry>) {
    forall i, j :: 0 <= i < j < |s| ==> AtMost(s[i].bits, s[j].bits)
  }

  predicate EntryAtMost(e: Entry, f: Entry) { AtMost(e.bits, f.bits) }

  function SortStable(s: seq<Entry>): (r: seq<Entry>)
    ensures Sorted(r)
    ensures forall x :: x in r <==> x in s
  {
    var r := SortBy(s, EntryAtMost);
    assert forall i, j :: 0 <= i < j < |r| ==> EntryAtMost(r[i], r[j]);
    r
  }

  /** The table: proper entries, each entirely below the next. */
  ghost predicate Table(s: seq<Entry>) {
    && (forall i :: 0 <= i < |s| ==> Proper(s[i]))
    && (forall i, j :: 0 <= i < j < |s| ==> Below(s[i], s[j]))
  }

  ghost predicate Below(e: Entry, f: Entry) { End(e.bits) <= Place(f.bits) }

  // ----- building the table -----

  /** A member of a structure: a plain field, or bits of a storage unit. */
  datatype Member = Plain(offset: int, size: nat) | Bit(offset: int, size: nat, bitOffset: nat, bitSize: int, integer: bool)

  datatype PlainField = PlainField(offset: int, size: int, id: nat)

  function Unit(m: Member): BitRange
    requires m.Bit?
  {
    BitRange(m.offset, m.size, m.bitOffset, m.bitSize, false)
  }

  predicate Eligible(m: Member) { m.Bit? && m.integer && m.bitSize > 0 && m.bitOffset + m.bitSize <= 8 * m.size }

  predicate ByteRange(b: BitRange) { b.num % 8 == 0 && b.lsb % 8 == 0 }

  predicate IsBitfield(m: Member) { Eligible(m) && !ByteRange(Minimize(Unit(m))) }

  /** The entry of a bitfield member holds exactly its bits. */
  ghost predicate EntryOf(members: seq<Member>, e: Entry) {
    && e.id < |members| && IsBitfield(members[e.id])
    && Proper(e) && SameBits(e.bits, Unit(members[e.id]))
  }

  /** A bitfield member is in the table, or overlaps what is. */
  ghost predicate Accounted(s: seq<Entry>, e: Entry) {
    exists k :: 0 <= k < |s| && (s[k] == e || Overlap(s[k].bits, e.bits))
  }

  ghost predicate Collected(members: seq<Member>, n: nat, bits: seq<Entry>) {
    && (forall e :: e in bits ==> EntryOf(members, e) && e.id < n && e.bits == Minimize(Unit(members[e.id])))
    && (forall i: nat :: i < n <= |members| && IsBitfield(members[i]) ==> Entry(Minimize(Unit(members[i])), i) in bits)
  }

  /** A plain field, or a bitfield member that is whole bytes. */
  ghost predicate PlainOf(members: seq<Member>, f: PlainField) {
    f.id < |members| &&
    match members[f.id]
    case Plain(offset, size) => f.offset == offset && f.size == size
    case Bit(_, _, _, _, _) =>
      Eligible(members[f.id]) && 8 * f.offset == Place(Unit(members[f.id])) && 8 * f.size == members[f.id].bitSize
  }

  lemma WholeBytes(m: Member)
    requires Eligible(m) && ByteRange(Minimize(Unit(m)))
    ensures 8 * Minimize(Unit(m)).byteOffset == Place(Unit(m)) && 8 * Minimize(Unit(m)).byteSize == m.bitSize
  {
    MinimizeKeepsBits(Unit(m));
  }

  /** As the members are declared. */
  predicate InTurn(s: seq<PlainField>) { forall i, j :: 0 <= i < j < |s| ==> s[i].id < s[j].id }

  predicate ByOffset(f: PlainField, g: PlainField) { f.offset <= g.offset }

  predicate Earlier(f: PlainField, g: PlainField) { f.offset < g.offset || (f.offset == g.offset && f.id < g.id) }

  /** By offset, those at one offset as they are declared, and none twice. */
  ghost predicate Placed(s: seq<PlainField>) { forall i, j :: 0 <= i < j < |s| ==> Earlier(s[i], s[j]) }

  lemma {:induction false} InsertPlaced(s: seq<PlainField>, x: PlainField)
    requires Placed(s) && SortedBy(s, ByOffset) && forall i :: 0 <= i < |s| ==> s[i].id < x.id
    ensures Placed(InsertBy(s, x, ByOffset))
  {
    if s != [] && s[|s| - 1].offset > x.offset {
      var init, last := s[..|s| - 1], s[|s| - 1];
      InsertPlaced(init, x);
      var r := InsertBy(init, x, ByOffset);
      forall i | 0 <= i < |r| ensures Earlier(r[i], last) {
        if r[i] != x {
          assert r[i] in r && r[i] in init;
          var k :| 0 <= k < |init| && init[k] == r[i];
          assert Earlier(s[k], s[|s| - 1]);
        }
      }
      assert InsertBy(s, x, ByOffset) == r + [last];
    } else {
      assert InsertBy(s, x, ByOffset) == s + [x];
      forall i | 0 <= i < |s| ensures Earlier(s[i], x) { assert ByOffset(s[i], s[|s| - 1]) || i == |s| - 1; }
    }
  }

  lemma {:induction false} SortPlaced(s: seq<PlainField>)
    requires InTurn(s)
    ensures Placed(SortBy(s, ByOffset))
  {
    if s != [] {
      var init, last := s[..|s| - 1], s[|s| - 1];
      SortPlaced(init);
      var r := SortBy(init, ByOffset);
      forall i | 0 <= i < |r| ensures r[i].id < last.id {
        assert r[i] in r && r[i] in init;
        var k :| 0 <= k < |init| && init[k] == r[i];
      }
      InsertPlaced(r, last);
    }
  }

  /** Separates the bitfield members, each in its least container, from the plain fields. */
  method Separate(members: seq<Member>) returns (plain: seq<PlainField>, bits: seq<Entry>)
    ensures Collected(members, |members|, bits)
    ensures forall f :: f in plain ==> PlainOf(members, f)
    ensures forall i: nat :: i < |members| && (members[i].Plain? || (Eligible(members[i]) && !IsBitfield(members[i]))) ==> exists f :: f in plain && f.id == i
    ensures InTurn(plain)
  {
    plain, bits := [], [];
    for n := 0 to |members|
      invariant Collected(members, n, bits)
      invariant forall f :: f in plain ==> PlainOf(members, f)
      invariant forall i: nat :: i < n && (members[i].Plain? || (Eligible(members[i]) && !IsBitfield(members[i]))) ==> exists f :: f in plain && f.id == i
      invariant InTurn(plain) && forall i :: 0 <= i < |plain| ==> plain[i].id < n
    {
      var m := members[n];
      ghost var was := plain;
      if m.Plain? {
        plain := plain + [PlainField(m.offset, m.size, n)];
        assert plain[|was|].id == n;
      } else if m.integer && m.bitSize > 0 && m.bitOffset + m.bitSize <= 8 * m.size {
        var b := Minimize(Unit(m));
        MinimizeKeepsBits(Unit(m));
        if ByteRange(b) {
          WholeBytes(m);
          plain := plain + [PlainField(b.byteOffset, b.byteSize, n)];
          assert plain[|was|].id == n;
        } else {
          bits := bits + [Entry(b, n)];
        }
      }
    }
  }

  /** Drops every bitfield that overlaps one kept before it. */
  method DropOverlaps(sorted: seq<Entry>) returns (kept: seq<Entry>)
    requires Sorted(sorted) && forall e :: e in sorted ==> Proper(e)
    ensures Table(kept) && (forall e :: e in kept ==> e in sorted)
    ensures forall e :: e in sorted ==> Accounted(kept, e)
  {
    kept := [];
    for i := 0 to |sorted|
      invariant Table(kept) && (forall e :: e in kept ==> e in sorted)
      invariant kept != [] ==> i > 0 && exists j :: 0 <= j < i && sorted[j] == kept[|kept| - 1]
      invariant forall j :: 0 <= j < i ==> Accounted(kept, sorted[j])
    {
      var e := sorted[i];
      var n := |kept|;
      if n > 0 && OverlapTest(kept[n - 1].bits, e.bits) != -1 {
        DroppedOverlaps(kept[n - 1], e);
        assert kept[n - 1] == kept[n - 1] && Overlap(kept[n - 1].bits, e.bits);
        assert Accounted(kept, e);
      } else {
        TableMore(kept, e);
        AccountedMore(sorted[..i], kept, e);
        kept := kept + [e];
      }
    }
  }

  lemma DroppedOverlaps(last: Entry, e: Entry)
    requires Proper(last) && Proper(e) && AtMost(last.bits, e.bits) && OverlapTest(last.bits, e.bits) != -1
    ensures Overlap(last.bits, e.bits)
  {
    OverlapMeans(last.bits, e.bits);
    if !Overlap(last.bits, e.bits) { OrderAgrees(last.bits, e.bits); }
  }

  lemma TableMore(kept: seq<Entry>, e: Entry)
    requires Table(kept) && Proper(e) && (kept != [] ==> OverlapTest(kept[|kept| - 1].bits, e.bits) == -1)
    ensures Table(kept + [e])
  {
    var more := kept + [e];
    if kept != [] { OverlapMeans(kept[|kept| - 1].bits, e.bits); }
    forall i, j | 0 <= i < j < |more| ensures Below(more[i], more[j]) {
      if j < |kept| {
        assert Below(kept[i], kept[j]);
      } else if i < |kept| - 1 {
        assert Below(kept[i], kept[|kept| - 1]) && Proper(kept[|kept| - 1]);
      }
    }
  }

  lemma AccountedMore(done: seq<Entry>, kept: seq<Entry>, e: Entry)
    requires forall j :: 0 <= j < |done| ==> Accounted(kept, done[j])
    ensures forall j :: 0 <= j < |done| ==> Accounted(kept + [e], done[j])
    ensures Accounted(kept + [e], e)
  {
    var more := kept + [e];
    forall j | 0 <= j < |done| ensures Accounted(more, done[j]) {
      var k :| 0 <= k < |kept| && (kept[k] == done[j] || Overlap(kept[k].bits, done[j].bits));
      assert more[k] == kept[k];
    }
    assert more[|kept|] == e;
  }

  /** The plain fields and the bitfield table of a list of members. */
  method SplitBitfields(members: seq<Member>) returns (plain: seq<PlainField>, table: seq<Entry>)
    ensures Table(table)
    ensures forall e :: e in table ==> EntryOf(members, e)
    ensures forall i: nat :: i < |members| && IsBitfield(members[i]) ==> Accounted(table, Entry(Minimize(Unit(members[i])), i))
    ensures forall f :: f in plain ==> PlainOf(members, f)
    ensures forall i: nat :: i < |members| && (members[i].Plain? || (Eligible(members[i]) && !IsBitfield(members[i]))) ==> exists f :: f in plain && f.id == i
    ensures Placed(plain)
  {
    var bits;
    plain, bits := Separate(members);
    SortPlaced(plain);
    plain := SortBy(plain, ByOffset);
    var sorted := SortStable(bits);
    table := DropOverlaps(sorted);
  }

  // ----- searching -----

  /** The entry with exactly these bits. */
  method FindMatchingBitField(table: seq<Entry>, rng: BitRange) returns (r: Option<Entry>)
    requires Table(table) && !rng.big && rng.num > 0
    ensures r.Some? ==> r.value in table && SameBits(r.value.bits, rng)
    ensures r.None? ==> forall e :: e in table ==> !SameBits(e.bits, rng)
  {
    var lo, hi := 0, |table| - 1;
    while lo <= hi
      invariant 0 <= lo <= hi + 1 <= |table|
      invariant forall i :: 0 <= i < lo ==> End(table[i].bits) <= Place(rng)
      invariant forall i :: hi < i < |table| ==> End(rng) <= Place(table[i].bits)
      decreases hi + 1 - lo
    {
      var mid := (lo + hi) / 2;
      var cur := table[mid];
      assert Proper(cur);
      OverlapMeans(rng, cur.bits);
      var code := OverlapTest(rng, cur.bits);
      if code == 0 { return Some(cur); }
      if code == -1 {
        forall i | mid <= i < |table| ensures End(rng) <= Place(table[i].bits) {
          if mid < i { assert Below(table[mid], table[i]); }
        }
        hi := mid - 1;
      } else if code == 1 {
        forall i | 0 <= i < mid + 1 ensures End(table[i].bits) <= Place(rng) {
          if i < mid { assert Below(table[i], table[mid]); }
        }
        lo := mid + 1;
      } else {
        PartialIsAlone(table, rng, mid);
        return None;
      }
    }
    forall e | e in table ensures !SameBits(e.bits, rng) {
      var i :| 0 <= i < |table| && table[i] == e;
      assert Proper(table[i]);
    }
    return None;
  }

  /** An entry that overlaps the range without being it leaves no room for one that is. */
  lemma PartialIsAlone(table: seq<Entry>, rng: BitRange, mid: nat)
    requires Table(table) && mid < |table| && rng.num > 0
    requires Overlap(rng, table[mid].bits) && !SameBits(rng, table[mid].bits)
    ensures forall e :: e in table ==> !SameBits(e.bits, rng)
  {
    forall e | e in table ensures !SameBits(e.bits, rng) {
      var i :| 0 <= i < |table| && table[i] == e;
      if i < mid { assert Below(table[i], table[mid]); }
      if mid < i { assert Below(table[mid], table[i]); }
    }
  }

  // ----- collecting through nested structures -----

  datatype Struct = Struct(size: nat, bitfields: seq<Entry>, fields: seq<Component>)

  /** A byte-aligned field; `sub` is empty for anything but a structure. */
  datatype Component = Component(offset: int, size: nat, sub: Option<Struct>)

  /** A bitfield met, and the offset of the structure it is in. */
  datatype Triple = Triple(entry: Entry, base: int)

  /** Bitfields and fields lie in the structure, ordered and apart, through all levels. */
  ghost predicate Laid(s: Struct)
    decreases s
  {
    && Table(s.bitfields)
    && (forall i :: 0 <= i < |s.bitfields| ==> InBytes(s.bitfields[i], s.size))
    && (forall i :: 0 <= i < |s.fields| ==> FitsIn(s.fields[i], s.size))
    && (forall i, j :: 0 <= i < j < |s.fields| ==> ComesBefore(s.fields[i], s.fields[j]))
    && (forall i :: 0 <= i < |s.fields| && s.fields[i].sub.Some? ==> s.fields[i].sub.value.size == s.fields[i].size && Laid(s.fields[i].sub.value))
  }

  ghost predicate InBytes(e: Entry, size: nat) { 0 <= Place(e.bits) && End(e.bits) <= 8 * size }

  ghost predicate FitsIn(f: Component, size: nat) { 0 <= f.offset && f.offset + f.size <= size }

  ghost predicate ComesBefore(f: Component, g: Component) { f.offset + f.size <= g.offset }

  function Bytes(offset: int, sz: nat): BitRange { BitRange(offset, sz, 0, 8 * sz, false) }

  /** The bitfields of the table that overlap the bytes, by looking at each. */
  function ScanOwn(table: seq<Entry>, base: int, offset: int, sz: nat): seq<Triple> {
    if table == [] then []
    else
      var e := table[|table| - 1];
      ScanOwn(table[..|table| - 1], base, offset, sz) + if Overlap(e.bits, Bytes(offset, sz)) then [Triple(e, base)] else []
  }

  /** The same through every field that is a structure. */
  function Scan(s: Struct, base: int, offset: int, sz: nat): seq<Triple>
    decreases s, 1
  {
    ScanOwn(s.bitfields, base, offset, sz) + ScanFields(s.fields, base, offset, sz)
  }

  function ScanFields(fields: seq<Component>, base: int, offset: int, sz: nat): seq<Triple>
    decreases fields, 0
  {
    if fields == [] then []
    else
      var f := fields[|fields| - 1];
      ScanFields(fields[..|fields| - 1], base, offset, sz) + ScanOne(f, base, offset, sz)
  }

  /** What one field adds to the scan. */
  function ScanOne(f: Component, base: int, offset: int, sz: nat): seq<Triple>
    decreases f, 0
  {
    match f.sub case None => [] case Some(sub) => Scan(sub, base + f.offset, offset - f.offset, sz)
  }

  lemma {:induction false} ScanOwnNone(table: seq<Entry>, base: int, offset: int, sz: nat)
    requires forall i :: 0 <= i < |table| ==> !Overlap(table[i].bits, Bytes(offset, sz))
    ensures ScanOwn(table, base, offset, sz) == []
  {
    if table != [] { ScanOwnNone(table[..|table| - 1], base, offset, sz); }
  }

  lemma {:induction false} ScanOwnRest(table: seq<Entry>, base: int, offset: int, sz: nat, n: nat)
    requires n <= |table| && forall i :: n <= i < |table| ==> !Overlap(table[i].bits, Bytes(offset, sz))
    ensures ScanOwn(table, base, offset, sz) == ScanOwn(table[..n], base, offset, sz)
    decreases |table|
  {
    if n == |table| {
      assert table[..n] == table;
    } else {
      var t := table[..|table| - 1];
      ScanOwnRest(t, base, offset, sz, n);
      assert t[..n] == table[..n];
    }
  }

  /** Bytes beside a structure overlap none of its bitfields, at any level. */
  lemma {:induction false} ScanBeside(s: Struct, base: int, offset: int, sz: nat)
    requires Laid(s) && (offset >= s.size || offset + sz <= 0)
    ensures Scan(s, base, offset, sz) == []
    decreases s, 1
  {
    forall i | 0 <= i < |s.bitfields| ensures !Overlap(s.bitfields[i].bits, Bytes(offset, sz)) {
      assert InBytes(s.bitfields[i], s.size);
    }
    ScanOwnNone(s.bitfields, base, offset, sz);
    ScanFieldsBeside(s, s.fields, base, offset, sz);
  }

  lemma {:induction false} ScanFieldsBeside(s: Struct, fields: seq<Component>, base: int, offset: int, sz: nat)
    requires offset >= s.size || offset + sz <= 0
    requires forall i :: 0 <= i < |fields| ==> FitsIn(fields[i], s.size)
    requires forall i :: 0 <= i < |fields| && fields[i].sub.Some? ==> fields[i].sub.value.size == fields[i].size && Laid(fields[i].sub.value)
    ensures ScanFields(fields, base, offset, sz) == []
    decreases fields, 0
  {
    if fields != [] {
      var f := fields[|fields| - 1];
      ScanFieldsBeside(s, fields[..|fields| - 1], base, offset, sz);
      assert FitsIn(f, s.size);
      ScanOneBeside(f, base, offset, sz);
    }
  }

  lemma {:induction false} ScanOneBeside(f: Component, base: int, offset: int, sz: nat)
    requires f.offset + f.size <= offset || f.offset >= offset + sz
    requires f.sub.Some? ==> f.sub.value.size == f.size && Laid(f.sub.value)
    ensures ScanOne(f, base, offset, sz) == []
    decreases f, 0
  {
    if f.sub.Some? { ScanBeside(f.sub.value, base + f.offset, offset - f.offset, sz); }
  }

  /** The first entry whose container ends after the byte. */
  method FirstBitFieldAfter(table: seq<Entry>, offset: int) returns (k: nat)
    requires Table(table)
    ensures k <= |table|
    ensures forall i :: 0 <= i < k ==> table[i].bits.byteOffset + table[i].bits.byteSize <= offset
    ensures k < |table| ==> offset < table[k].bits.byteOffset + table[k].bits.byteSize
  {
    k := 0;
    var j := |table|;
    while k < j
      invariant 0 <= k <= j <= |table|
      invariant forall i :: 0 <= i < k ==> table[i].bits.byteOffset + table[i].bits.byteSize <= offset
      invariant j < |table| ==> offset < table[j].bits.byteOffset + table[j].bits.byteSize
    {
      var h := (k + j) / 2;
      if offset < table[h].bits.byteOffset + table[h].bits.byteSize {
        j := h;
      } else {
        forall i | 0 <= i < h + 1 ensures table[i].bits.byteOffset + table[i].bits.byteSize <= offset {
          if i < h { ByteEndsGrow(table, i, h); }
        }
        k := h + 1;
      }
    }
  }

  lemma ByteEndsGrow(table: seq<Entry>, i: nat, j: nat)
    requires Table(table) && i < j < |table|
    ensures table[i].bits.byteOffset + table[i].bits.byteSize <= table[j].bits.byteOffset + table[j].bits.byteSize
  {
    assert Below(table[i], table[j]) && Proper(table[i]) && Proper(table[j]);
  }

  /** The bitfields of one table that overlap the bytes. */
  method CollectOwn(table: seq<Entry>, base: int, offset: int, sz: nat) returns (r: seq<Triple>)
    requires Table(table) && sz > 0
    ensures r == ScanOwn(table, base, offset, sz)
  {
    r := [];
    var i := FirstBitFieldAfter(table, offset);
    var rng := Bytes(offset, sz);
    forall j | 0 <= j < i ensures !Overlap(table[j].bits, rng) { assert Proper(table[j]); }
    ScanOwnNone(table[..i], base, offset, sz);
    while i < |table|
      invariant 0 <= i <= |table|
      invariant r == ScanOwn(table[..i], base, offset, sz)
    {
      var cur := table[i];
      assert Proper(cur);
      OverlapMeans(cur.bits, rng);
      var code := OverlapTest(cur.bits, rng);
      if code == 1 {
        ScanOwnAbove(table, base, offset, sz, i);
        return;
      }
      assert table[..i + 1][..i] == table[..i];
      if code != -1 { r := r + [Triple(cur, base)]; }
      i := i + 1;
    }
    assert table[..|table|] == table;
  }

  /** From the first entry above the bytes on, nothing overlaps them. */
  lemma ScanOwnAbove(table: seq<Entry>, base: int, offset: int, sz: nat, i: nat)
    requires Table(table) && i < |table| && 8 * (offset + sz) <= Place(table[i].bits)
    ensures ScanOwn(table, base, offset, sz) == ScanOwn(table[..i], base, offset, sz)
  {
    forall j | i <= j < |table| ensures !Overlap(table[j].bits, Bytes(offset, sz)) {
      assert Proper(table[i]);
      if i < j { assert Below(table[i], table[j]); }
    }
    ScanOwnRest(table, base, offset, sz, i);
  }

  /** The first field that ends after the byte. */
  method FirstFieldAfter(fields: seq<Component>, offset: int) returns (k: nat)
    requires forall i, j :: 0 <= i < j < |fields| ==> ComesBefore(fields[i], fields[j])
    ensures k <= |fields| && forall i :: 0 <= i < k ==> fields[i].offset + fields[i].size <= offset
  {
    k := 0;
    var j := |fields|;
    while k < j
      invariant 0 <= k <= j <= |fields|
      invariant forall i :: 0 <= i < k ==> fields[i].offset + fields[i].size <= offset
    {
      var h := (k + j) / 2;
      if offset < fields[h].offset + fields[h].size {
        j := h;
      } else {
        forall i | 0 <= i < h + 1 ensures fields[i].offset + fields[i].size <= offset {
          if i < h { assert ComesBefore(fields[i], fields[h]); }
        }
        k := h + 1;
      }
    }
  }

  predicate HasBitfields(s: Struct)
    decreases s
  {
    s.bitfields != [] || exists i :: 0 <= i < |s.fields| && s.fields[i].sub.Some? && HasBitfields(s.fields[i].sub.value)
  }

  lemma {:induction false} NoneToScan(s: Struct, base: int, offset: int, sz: nat)
    requires !HasBitfields(s)
    ensures Scan(s, base, offset, sz) == []
    decreases s, 1
  {
    NoneInFields(s.fields, base, offset, sz);
  }

  lemma {:induction false} NoneInFields(fields: seq<Component>, base: int, offset: int, sz: nat)
    requires forall i :: 0 <= i < |fields| && fields[i].sub.Some? ==> !HasBitfields(fields[i].sub.value)
    ensures ScanFields(fields, base, offset, sz) == []
    decreases fields, 0
  {
    if fields != [] {
      var f := fields[|fields| - 1];
      NoneInFields(fields[..|fields| - 1], base, offset, sz);
      NoneInOne(f, base, offset, sz);
    }
  }

  lemma {:induction false} NoneInOne(f: Component, base: int, offset: int, sz: nat)
    requires f.sub.Some? ==> !HasBitfields(f.sub.value)
    ensures ScanOne(f, base, offset, sz) == []
    decreases f, 0
  {
    if f.sub.Some? { NoneToScan(f.sub.value, base + f.offset, offset - f.offset, sz); }
  }

  lemma ScanFieldsMore(fields: seq<Component>, base: int, offset: int, sz: nat, i: nat)
    requires i < |fields|
    ensures ScanFields(fields[..i + 1], base, offset, sz) == ScanFields(fields[..i], base, offset, sz) + ScanOne(fields[i], base, offset, sz)
  {
    assert fields[..i + 1][..i] == fields[..i];
  }

  lemma {:induction false} ScanFieldsNone(fields: seq<Component>, base: int, offset: int, sz: nat, lo: nat, hi: nat)
    requires lo <= hi <= |fields| && forall i :: lo <= i < hi ==> ScanOne(fields[i], base, offset, sz) == []
    ensures ScanFields(fields[..hi], base, offset, sz) == ScanFields(fields[..lo], base, offset, sz)
    decreases hi
  {
    if lo != hi {
      ScanFieldsNone(fields, base, offset, sz, lo, hi - 1);
      ScanFieldsMore(fields, base, offset, sz, hi - 1);
    }
  }

  /** A field beside the bytes adds nothing. */
  lemma BesideAddsNothing(s: Struct, i: nat, base: int, offset: int, sz: nat)
    requires Laid(s) && i < |s.fields|
    requires s.fields[i].offset + s.fields[i].size <= offset || s.fields[i].offset >= offset + sz
    ensures ScanOne(s.fields[i], base, offset, sz) == []
  {
    ScanOneBeside(s.fields[i], base, offset, sz);
  }

  /** The fields before `lo` and from `hi` on add nothing. */
  lemma OuterFields(s: Struct, base: int, offset: int, sz: nat, lo: nat, hi: nat)
    requires Laid(s) && lo <= |s.fields| && hi <= |s.fields|
    requires forall i :: 0 <= i < lo ==> s.fields[i].offset + s.fields[i].size <= offset
    requires hi < |s.fields| ==> s.fields[hi].offset >= offset + sz
    ensures ScanFields(s.fields[..lo], base, offset, sz) == []
    ensures ScanFields(s.fields, base, offset, sz) == ScanFields(s.fields[..hi], base, offset, sz)
  {
    forall j | 0 <= j < lo ensures ScanOne(s.fields[j], base, offset, sz) == [] { BesideAddsNothing(s, j, base, offset, sz); }
    ScanFieldsNone(s.fields, base, offset, sz, 0, lo);
    assert s.fields[..0] == [] && s.fields[..|s.fields|] == s.fields;
    forall j | hi <= j < |s.fields| ensures ScanOne(s.fields[j], base, offset, sz) == [] {
      if hi < j { assert ComesBefore(s.fields[hi], s.fields[j]); }
      BesideAddsNothing(s, j, base, offset, sz);
    }
    ScanFieldsNone(s.fields, base, offset, sz, hi, |s.fields|);
  }

  /**
   The bitfields that overlap `sz` bytes at `offset`, here and in nested structures: the
   searches and early ends give exactly what looking at every bitfield would.
   */
  method CollectBitFields(s: Struct, base: int, offset: int, sz: nat) returns (r: seq<Triple>)
    requires Laid(s) && sz > 0
    ensures r == Scan(s, base, offset, sz)
    decreases s, 2
  {
    var own := CollectOwn(s.bitfields, base, offset, sz);
    var nested := CollectNested(s, base, offset, sz);
    return own + nested;
  }

  /** The bitfields of the nested structures. */
  method CollectNested(s: Struct, base: int, offset: int, sz: nat) returns (r: seq<Triple>)
    requires Laid(s) && sz > 0
    ensures r == ScanFields(s.fields, base, offset, sz)
    decreases s, 1
  {
    r := [];
    var i := FirstFieldAfter(s.fields, offset);
    OuterFields(s, base, offset, sz, i, |s.fields|);
    while i < |s.fields|
      invariant 0 <= i <= |s.fields|
      invariant r == ScanFields(s.fields[..i], base, offset, sz)
    {
      if s.fields[i].offset >= offset + sz { break; }
      ScanFieldsMore(s.fields, base, offset, sz, i);
      var more := CollectField(s, i, base, offset, sz);
      r := r + more;
      i := i + 1;
    }
    OuterFields(s, base, offset, sz, 0, i);
  }

  /** What a field contributes, when it is a structure with bitfields. */
  method CollectField(s: Struct, i: nat, base: int, offset: int, sz: nat) returns (r: seq<Triple>)
    requires Laid(s) && sz > 0 && i < |s.fields|
    ensures r == ScanOne(s.fields[i], base, offset, sz)
    decreases s, 0
  {
    var f := s.fields[i];
    if f.sub.None? { return []; }
    if !HasBitfields(f.sub.value) {
      NoneInOne(f, base, offset, sz);
      return [];
    }
    r := CollectBitFields(f.sub.value, base + f.offset, offset - f.offset, sz);
  }

  // ----- the fields of a written container -----

  ghost predicate InScan(table: seq<Entry>, offset: int, sz: nat, t: Triple) {
    t.entry in table && Overlap(t.entry.bits, Bytes(offset, sz))
  }

  /** Exactly the overlapping entries, each below the next. */
  ghost predicate OrderedScan(table: seq<Entry>, base: int, offset: int, sz: nat, r: seq<Triple>) {
    && (forall i :: 0 <= i < |r| ==> InScan(table, offset, sz, r[i]))
    && (forall i, j :: 0 <= i < j < |r| ==> Below(r[i].entry, r[j].entry))
    && (forall e :: e in table && Overlap(e.bits, Bytes(offset, sz)) ==> Triple(e, base) in r)
  }

  lemma {:induction false} ScanOwnIsOrdered(table: seq<Entry>, base: int, offset: int, sz: nat)
    requires Table(table)
    ensures OrderedScan(table, base, offset, sz, ScanOwn(table, base, offset, sz))
  {
    if table != [] {
      var init, e := table[..|table| - 1], table[|table| - 1];
      ScanOwnIsOrdered(init, base, offset, sz);
      var r0 := ScanOwn(init, base, offset, sz);
      assert table == init + [e];
      forall i | 0 <= i < |r0| ensures InScan(table, offset, sz, r0[i]) && Below(r0[i].entry, e) {
        assert InScan(init, offset, sz, r0[i]);
        var k :| 0 <= k < |init| && init[k] == r0[i].entry;
        assert Below(table[k], table[|table| - 1]);
      }
    }
  }

  /** The bitfields as the program places them: where they are in their own structure. */
  function AsFields(r: seq<Triple>, signed: Entry -> bool): (fields: seq<Field>)
    ensures |fields| == |r| && forall i :: 0 <= i < |r| ==> fields[i] == Field(r[i].entry.bits, signed(r[i].entry), i)
  {
    seq(|r|, i requires 0 <= i < |r| => Field(r[i].entry.bits, signed(r[i].entry), i))
  }

  /** The bits of a triple counted from the outermost structure. */
  function TrueBits(t: Triple): BitRange { t.entry.bits.(byteOffset := t.entry.bits.byteOffset + t.base) }

  /** The bitfields where they are. */
  function TrueFields(r: seq<Triple>, signed: Entry -> bool): (fields: seq<Field>)
    ensures |fields| == |r| && forall i :: 0 <= i < |r| ==> fields[i] == Field(TrueBits(r[i]), signed(r[i].entry), i)
  {
    seq(|r|, i requires 0 <= i < |r| => Field(TrueBits(r[i]), signed(r[i].entry), i))
  }

  lemma ScannedOverlaps(table: seq<Entry>, e: Expr, offset: int, t: Triple, signed: bool, i: nat)
    requires Table(table) && InScan(table, offset, Size(e), t)
    ensures OverlapsAt(Container(e, offset, false), Field(t.entry.bits, signed, i))
  {
    var k :| 0 <= k < |table| && table[k] == t.entry;
    assert Proper(table[k]);
  }

  /** The fields found in one table are in the order in which the container's bits are queued. */
  lemma CollectedAreOrdered(table: seq<Entry>, e: Expr, offset: int, signed: Entry -> bool)
    requires Table(table)
    ensures Ordered(Container(e, offset, false), AsFields(ScanOwn(table, 0, offset, Size(e)), signed))
  {
    var r := ScanOwn(table, 0, offset, Size(e));
    var c := Container(e, offset, false);
    var fields := AsFields(r, signed);
    ScanOwnIsOrdered(table, 0, offset, Size(e));
    forall i | 0 <= i < |fields| ensures OverlapsAt(c, fields[i]) {
      ScannedOverlaps(table, e, offset, r[i], signed(r[i].entry), i);
    }
    forall i, j | 0 <= i < j < |fields| ensures BelowAt(c, fields[i], fields[j]) {
      assert Below(r[i].entry, r[j].entry);
    }
  }

  // ----- nested structures: what is collected lies apart -----

  /** No bitfield shares a bit with a nested structure, through all levels. */
  ghost predicate Clear(s: Struct)
    decreases s
  {
    && (forall i, j :: 0 <= i < |s.bitfields| && 0 <= j < |s.fields| && s.fields[j].sub.Some? ==> Clears(s.bitfields[i], s.fields[j]))
    && (forall j :: 0 <= j < |s.fields| && s.fields[j].sub.Some? ==> Clear(s.fields[j].sub.value))
  }

  ghost predicate Clears(e: Entry, f: Component) { End(e.bits) <= 8 * f.offset || 8 * (f.offset + f.size) <= Place(e.bits) }

  ghost predicate Within(t: Triple, lo: int, hi: int) { 8 * lo <= Place(TrueBits(t)) && End(TrueBits(t)) <= 8 * hi }

  /** A proper entry that overlaps the `sz` bytes at `at` of the outermost structure. */
  ghost predicate Hits(t: Triple, at: int, sz: nat) { Proper(t.entry) && Overlap(TrueBits(t), Bytes(at, sz)) }

  ghost predicate OwnTriple(t: Triple, table: seq<Entry>, base: int) { t.entry in table && t.base == base }

  /** The triple comes from the `j`-th field. */
  ghost predicate FromField(t: Triple, fields: seq<Component>, j: nat, base: int) {
    j < |fields| && fields[j].sub.Some? && Within(t, base + fields[j].offset, base + fields[j].offset + fields[j].size)
  }

  ghost predicate FromSome(t: Triple, fields: seq<Component>, base: int) { exists j: nat :: FromField(t, fields, j, base) }

  ghost predicate SubsLaid(fields: seq<Component>) {
    forall i :: 0 <= i < |fields| && fields[i].sub.Some? ==> fields[i].sub.value.size == fields[i].size && Laid(fields[i].sub.value)
  }

  lemma {:induction false} OwnHits(table: seq<Entry>, base: int, offset: int, sz: nat, t: Triple)
    requires Table(table) && t in ScanOwn(table, base, offset, sz)
    ensures OwnTriple(t, table, base) && Hits(t, base + offset, sz)
  {
    var init, e := table[..|table| - 1], table[|table| - 1];
    assert Proper(e);
    if t != Triple(e, base) || !Overlap(e.bits, Bytes(offset, sz)) { OwnHits(init, base, offset, sz, t); }
  }

  lemma {:induction false} ScanHits(s: Struct, base: int, offset: int, sz: nat, t: Triple)
    requires Laid(s) && t in Scan(s, base, offset, sz)
    ensures Hits(t, base + offset, sz) && Within(t, base, base + s.size)
    decreases s, 1
  {
    if t in ScanOwn(s.bitfields, base, offset, sz) {
      OwnHits(s.bitfields, base, offset, sz, t);
      var k :| 0 <= k < |s.bitfields| && s.bitfields[k] == t.entry;
      assert InBytes(s.bitfields[k], s.size);
    } else {
      FieldsHit(s.fields, base, offset, sz, t);
      var j: nat :| FromField(t, s.fields, j, base);
      assert FitsIn(s.fields[j], s.size);
    }
  }

  lemma {:induction false} FieldsHit(fields: seq<Component>, base: int, offset: int, sz: nat, t: Triple)
    requires SubsLaid(fields) && t in ScanFields(fields, base, offset, sz)
    ensures Hits(t, base + offset, sz) && FromSome(t, fields, base)
    decreases fields, 0
  {
    var n := |fields| - 1;
    var init, f := fields[..n], fields[n];
    if t in ScanFields(init, base, offset, sz) {
      FieldsHit(init, base, offset, sz, t);
      var j: nat :| FromField(t, init, j, base);
      assert FromField(t, fields, j, base);
    } else {
      OneHits(f, base, offset, sz, t);
      assert FromField(t, fields, n, base);
    }
  }

  lemma {:induction false} OneHits(f: Component, base: int, offset: int, sz: nat, t: Triple)
    requires f.sub.Some? ==> f.sub.value.size == f.size && Laid(f.sub.value)
    requires t in ScanOne(f, base, offset, sz)
    ensures f.sub.Some? && Hits(t, base + offset, sz) && Within(t, base + f.offset, base + f.offset + f.size)
    decreases f, 0
  {
    ScanHits(f.sub.value, base + f.offset, offset - f.offset, sz, t);
  }

  ghost predicate ApartAt(t: Triple, u: Triple) { !Overlap(TrueBits(t), TrueBits(u)) }

  ghost predicate AllApart(r: seq<Triple>) { forall i, j :: 0 <= i < j < |r| ==> ApartAt(r[i], r[j]) }

  lemma ApartAppend(r: seq<Triple>, q: seq<Triple>)
    requires AllApart(r) && AllApart(q) && forall t, u :: t in r && u in q ==> ApartAt(t, u)
    ensures AllApart(r + q)
  {
    var a := r + q;
    forall i, j | 0 <= i < j < |a| ensures ApartAt(a[i], a[j]) {
      if j < |r| { assert ApartAt(r[i], r[j]); }
      if i >= |r| { assert ApartAt(q[i - |r|], q[j - |r|]); }
    }
  }

  lemma OwnApart(table: seq<Entry>, base: int, offset: int, sz: nat)
    requires Table(table)
    ensures AllApart(ScanOwn(table, base, offset, sz))
  {
    var r := ScanOwn(table, base, offset, sz);
    ScanOwnIsOrdered(table, base, offset, sz);
    forall i, j | 0 <= i < j < |r| ensures ApartAt(r[i], r[j]) {
      assert Below(r[i].entry, r[j].entry);
      OwnHits(table, base, offset, sz, r[i]);
      OwnHits(table, base, offset, sz, r[j]);
    }
  }

  /** The bitfields collected share no bit, counted from the outermost structure. */
  lemma {:induction false} ScanApart(s: Struct, base: int, offset: int, sz: nat)
    requires Laid(s) && Clear(s)
    ensures AllApart(Scan(s, base, offset, sz))
    decreases s, 1
  {
    var own, nested := ScanOwn(s.bitfields, base, offset, sz), ScanFields(s.fields, base, offset, sz);
    OwnApart(s.bitfields, base, offset, sz);
    FieldsApart(s.fields, base, offset, sz);
    forall t, u | t in own && u in nested ensures ApartAt(t, u) {
      OwnFromNested(s, base, offset, sz, t, u);
    }
    ApartAppend(own, nested);
  }

  lemma OwnFromNested(s: Struct, base: int, offset: int, sz: nat, t: Triple, u: Triple)
    requires Laid(s) && Clear(s) && t in ScanOwn(s.bitfields, base, offset, sz) && u in ScanFields(s.fields, base, offset, sz)
    ensures ApartAt(t, u)
  {
    OwnHits(s.bitfields, base, offset, sz, t);
    FieldsHit(s.fields, base, offset, sz, u);
    var k :| 0 <= k < |s.bitfields| && s.bitfields[k] == t.entry;
    var j: nat :| FromField(u, s.fields, j, base);
    assert Clears(s.bitfields[k], s.fields[j]);
  }

  lemma {:induction false} FieldsApart(fields: seq<Component>, base: int, offset: int, sz: nat)
    requires SubsLaid(fields) && forall i, j :: 0 <= i < j < |fields| ==> ComesBefore(fields[i], fields[j])
    requires forall j :: 0 <= j < |fields| && fields[j].sub.Some? ==> Clear(fields[j].sub.value)
    ensures AllApart(ScanFields(fields, base, offset, sz))
    decreases fields, 0
  {
    if fields != [] {
      var n := |fields| - 1;
      var init, f := fields[..n], fields[n];
      FieldsApart(init, base, offset, sz);
      OneApart(f, base, offset, sz);
      var r, q := ScanFields(init, base, offset, sz), ScanOne(f, base, offset, sz);
      forall t, u | t in r && u in q ensures ApartAt(t, u) {
        FieldsHit(init, base, offset, sz, t);
        OneHits(f, base, offset, sz, u);
        var j: nat :| FromField(t, init, j, base);
        assert ComesBefore(fields[j], fields[n]);
      }
      ApartAppend(r, q);
    }
  }

  lemma {:induction false} OneApart(f: Component, base: int, offset: int, sz: nat)
    requires f.sub.Some? ==> f.sub.value.size == f.size && Laid(f.sub.value) && Clear(f.sub.value)
    ensures AllApart(ScanOne(f, base, offset, sz))
    decreases f, 0
  {
    if f.sub.Some? { ScanApart(f.sub.value, base + f.offset, offset - f.offset, sz); }
  }

  // ----- nested structures: where the program puts what it collected -----

  /** The order of the triples: the first byte, then the bit in it. */
  predicate TripleAtMost(t: Triple, u: Triple) {
    var b, c := t.base + t.entry.bits.byteOffset, u.base + u.entry.bits.byteOffset;
    if b != c then b < c else t.entry.bits.lsb <= u.entry.bits.lsb
  }

  function InOrder(r: seq<Triple>): seq<Triple> { SortBy(r, TripleAtMost) }

  ghost predicate HitsAll(r: seq<Triple>, at: int, sz: nat) { forall t :: t in r ==> Hits(t, at, sz) }

  /** Sorted triples that share no bit are ordered by where their bits are. */
  lemma SortedByPlace(r: seq<Triple>, e: Expr, offset: int, signed: Entry -> bool)
    requires HitsAll(r, offset, Size(e)) && AllApart(r) && SortedBy(r, TripleAtMost)
    ensures Ordered(Container(e, offset, false), TrueFields(r, signed))
  {
    var c, fields := Container(e, offset, false), TrueFields(r, signed);
    forall i | 0 <= i < |fields| ensures OverlapsAt(c, fields[i]) {
      assert r[i] in r && Hits(r[i], offset, Size(e));
    }
    forall i, j | 0 <= i < j < |fields| ensures BelowAt(c, fields[i], fields[j]) {
      assert r[i] in r && r[j] in r && ApartAt(r[i], r[j]) && TripleAtMost(r[i], r[j]);
    }
  }

  /** The states tile the container, and its fields are those that lie in it, where they lie. */
  ghost predicate Rightly(e: Expr, offset: int, r: seq<Triple>, signed: Entry -> bool, work: seq<State>) {
    Tiles(e, work, 8 * Size(e)) && FieldsOf(work) == ContainedFields(Container(e, offset, false), TrueFields(r, signed))
  }

  /** A bitfield that lies in the container, or would without its base, is in the outermost structure. */
  ghost predicate Outermost(c: BitRange, t: Triple) {
    Contained(c, Field(t.entry.bits, false, 0)) || Contained(c, Field(TrueBits(t), false, 0)) ==> t.base == 0
  }

  ghost predicate PlacedTruly(c: BitRange, r: seq<Triple>, signed: Entry -> bool) {
    Placeable(c, AsFields(r, signed)) && forall i :: 0 <= i < |r| ==> Outermost(c, r[i])
  }

  ghost predicate SmallIds(fields: seq<(int, int, int)>, n: int) { forall i :: 0 <= i < |fields| ==> fields[i].2 < n }

  /** Fields numbered by their index. */
  ghost predicate Numbered(fields: seq<Field>) { forall i :: 0 <= i < |fields| ==> fields[i].id == i }

  lemma {:induction false} IdsAreSmall(c: BitRange, fields: seq<Field>)
    requires Numbered(fields)
    ensures SmallIds(ContainedFields(c, fields), |fields|)
  {
    if fields != [] { IdsAreSmall(c, fields[..|fields| - 1]); }
  }

  ghost predicate AgreeAt(c: BitRange, f: Field, g: Field) {
    Contained(c, f) || Contained(c, g) ==> TranslateLsb(c, f.bits) == TranslateLsb(c, g.bits)
  }

  /** Two readings of the same fields keep the same ones in the same places exactly when they agree on each. */
  lemma {:induction false} SameContained(c: BitRange, a: seq<Field>, b: seq<Field>)
    requires |a| == |b| && Numbered(a) && Numbered(b) && forall i :: 0 <= i < |a| ==> a[i].bits.num == b[i].bits.num
    ensures ContainedFields(c, a) == ContainedFields(c, b) <==> forall i :: 0 <= i < |a| ==> AgreeAt(c, a[i], b[i])
  {
    if a != [] {
      var n := |a| - 1;
      SameContained(c, a[..n], b[..n]);
      IdsAreSmall(c, a[..n]);
      IdsAreSmall(c, b[..n]);
      LastAgrees(c, ContainedFields(c, a[..n]), ContainedFields(c, b[..n]), a[n], b[n]);
      if forall i :: 0 <= i < |a| ==> AgreeAt(c, a[i], b[i]) {
        forall i | 0 <= i < n ensures AgreeAt(c, a[..n][i], b[..n][i]) { assert AgreeAt(c, a[i], b[i]); }
      }
      if forall i :: 0 <= i < n ==> AgreeAt(c, a[..n][i], b[..n][i]) {
        forall i | 0 <= i < n ensures AgreeAt(c, a[i], b[i]) { assert AgreeAt(c, a[..n][i], b[..n][i]); }
      }
    }
  }

  function One(c: BitRange, f: Field): seq<(int, int, int)> {
    if Contained(c, f) then [(TranslateLsb(c, f.bits), f.bits.num, f.id)] else []
  }

  lemma LargeIsNew(a: seq<(int, int, int)>, x: (int, int, int), b: seq<(int, int, int)>)
    requires SmallIds(b, x.2)
    ensures a + [x] != b && a + [x] != b + []
  {
    assert (a + [x])[|a|] == x && b + [] == b;
  }

  lemma LastAgrees(c: BitRange, a: seq<(int, int, int)>, b: seq<(int, int, int)>, f: Field, g: Field)
    requires f.id == g.id && f.bits.num == g.bits.num && SmallIds(a, f.id) && SmallIds(b, f.id)
    ensures a + One(c, f) == b + One(c, g) <==> a == b && AgreeAt(c, f, g)
  {
    var x, y := a + One(c, f), b + One(c, g);
    LargeIsNew(a, (TranslateLsb(c, f.bits), f.bits.num, f.id), b);
    LargeIsNew(b, (TranslateLsb(c, g.bits), g.bits.num, g.id), a);
    if x == y && Contained(c, f) && Contained(c, g) {
      assert x[..|x| - 1] == a && y[..|y| - 1] == b;
      assert x[|a|] == y[|b|];
    } else if !Contained(c, f) && !Contained(c, g) {
      assert x == a && y == b;
    }
  }

  /** The program's places are right exactly for the bitfields that are in the outermost structure. */
  lemma AgreeMeansOutermost(c: BitRange, r: seq<Triple>, signed: Entry -> bool, i: nat)
    requires !c.big && i < |r|
    ensures AgreeAt(c, AsFields(r, signed)[i], TrueFields(r, signed)[i]) <==> Outermost(c, r[i])
  {
  }

  /**
   The states established are right if and only if every bitfield that lies in the
   container, or that the program takes to, is in the outermost structure, and the
   others reach past the field before them.
   */
  lemma EstablishedRightly(e: Expr, offset: int, r: seq<Triple>, signed: Entry -> bool)
    requires Sized(e) && Size(e) > 0 && HitsAll(r, offset, Size(e))
    ensures var c := Container(e, offset, false);
      Rightly(e, offset, r, signed, Established(e, c, AsFields(r, signed))) <==> PlacedTruly(c, r, signed)
  {
    var c, a, b := Container(e, offset, false), AsFields(r, signed), TrueFields(r, signed);
    forall i | 0 <= i < |a| ensures a[i].bits.num > 0 { assert r[i] in r && Hits(r[i], offset, Size(e)); }
    EstablishedTiles(e, c, a);
    SameContained(c, a, b);
    forall i | 0 <= i < |r| ensures AgreeAt(c, a[i], b[i]) <==> Outermost(c, r[i]) { AgreeMeansOutermost(c, r, signed, i); }
    if PlacedTruly(c, r, signed) {
      forall i | 0 <= i < |a| ensures AgreeAt(c, a[i], b[i]) { assert Outermost(c, r[i]); }
    }
    if forall i :: 0 <= i < |a| ==> AgreeAt(c, a[i], b[i]) {
      forall i | 0 <= i < |r| ensures Outermost(c, r[i]) { assert AgreeAt(c, a[i], b[i]); }
    }
  }

  /** Every bitfield collected is in the outermost structure. */
  ghost predicate AllOutermost(r: seq<Triple>) { forall t :: t in r ==> t.base == 0 }

  /** No bitfield collected crosses an end of the container. */
  ghost predicate NoneCross(c: BitRange, r: seq<Triple>) { forall t :: t in r ==> Contained(c, Field(TrueBits(t), false, 0)) }

  /** Bitfields of the outermost structure are placed rightly, and when none crosses an end no others are. */
  lemma OutermostIsRight(e: Expr, offset: int, r: seq<Triple>, signed: Entry -> bool)
    requires Sized(e) && Size(e) > 0 && Ordered(Container(e, offset, false), TrueFields(r, signed))
    ensures AllOutermost(r) ==> PlacedTruly(Container(e, offset, false), r, signed)
    ensures NoneCross(Container(e, offset, false), r) && PlacedTruly(Container(e, offset, false), r, signed) ==> AllOutermost(r)
  {
    var c := Container(e, offset, false);
    if AllOutermost(r) {
      assert AsFields(r, signed) == TrueFields(r, signed) by {
        forall i | 0 <= i < |r| ensures AsFields(r, signed)[i] == TrueFields(r, signed)[i] { assert r[i] in r; }
      }
      OrderedIsPlaceable(c, TrueFields(r, signed));
      forall i | 0 <= i < |r| ensures Outermost(c, r[i]) { assert r[i] in r; }
    }
    if NoneCross(c, r) && PlacedTruly(c, r, signed) {
      forall t | t in r ensures t.base == 0 {
        var i :| 0 <= i < |r| && r[i] == t;
        assert Outermost(c, r[i]);
      }
    }
  }

  lemma PermutedApart(r: seq<Triple>, q: seq<Triple>)
    requires multiset(r) == multiset(q) && AllApart(q) && forall t :: t in q ==> Proper(t.entry)
    ensures AllApart(r)
  {
    forall i, j | 0 <= i < j < |q| ensures q[i] != q[j] {
      assert ApartAt(q[i], q[j]) && q[i] in q && Proper(q[i].entry);
    }
    PermutationOfDistinct(r, q);
    forall i, j | 0 <= i < j < |r| ensures ApartAt(r[i], r[j]) {
      assert r[i] in multiset(q) && r[j] in multiset(q) && r[i] != r[j];
      var k :| 0 <= k < |q| && q[k] == r[i];
      var l :| 0 <= l < |q| && q[l] == r[j];
      if k < l { assert ApartAt(q[k], q[l]); } else { assert ApartAt(q[l], q[k]); }
    }
  }

  /** What is collected for the bytes of a container, in the order it is gone through. */
  lemma CollectedInOrder(s: Struct, e: Expr, offset: int, signed: Entry -> bool)
    requires Laid(s)
    ensures var r := InOrder(Scan(s, 0, offset, Size(e)));
      HitsAll(r, offset, Size(e)) && (Clear(s) ==> Ordered(Container(e, offset, false), TrueFields(r, signed)))
  {
    var q := Scan(s, 0, offset, Size(e));
    var r := InOrder(q);
    forall t | t in r ensures Hits(t, offset, Size(e)) { ScanHits(s, 0, offset, Size(e), t); }
    if Clear(s) {
      ScanApart(s, 0, offset, Size(e));
      PermutedApart(r, q);
      SortedByPlace(r, e, offset, signed);
    }
  }

  /** The scan and the same in order hold the same triples. */
  lemma SameTriples(q: seq<Triple>, c: BitRange)
    ensures AllOutermost(InOrder(q)) <==> AllOutermost(q)
    ensures NoneCross(c, InOrder(q)) <==> NoneCross(c, q)
  {
    var r := InOrder(q);
    assert forall t :: t in r <==> t in q;
  }

  /**
   Fields and holes of a written container, from the structure to the states: right if
   and only if `PlacedTruly`; always when all bitfields met are in the outermost
   structure, and only then when none of them crosses an end of the container.
   */
  method EstablishStructure(s: Struct, e: Expr, offset: int, signed: Entry -> bool) returns (work: seq<State>)
    requires Laid(s) && Sized(e) && Size(e) > 0
    ensures var r := InOrder(Scan(s, 0, offset, Size(e)));
      Rightly(e, offset, r, signed, work) <==> PlacedTruly(Container(e, offset, false), r, signed)
    ensures var r := Scan(s, 0, offset, Size(e));
      Clear(s) && AllOutermost(r) ==> Rightly(e, offset, InOrder(r), signed, work)
    ensures var r := Scan(s, 0, offset, Size(e));
      Clear(s) && NoneCross(Container(e, offset, false), r) ==> (Rightly(e, offset, InOrder(r), signed, work) <==> AllOutermost(r))
  {
    var found := CollectBitFields(s, 0, offset, Size(e));
    var r := InOrder(found);
    CollectedInOrder(s, e, offset, signed);
    EstablishedRightly(e, offset, r, signed);
    HitsAreSane(e, offset, r, signed);
    work := EstablishFields(e, offset, false, AsFields(r, signed));
    SameTriples(found, Container(e, offset, false));
    if Clear(s) { OutermostIsRight(e, offset, r, signed); }
  }

  lemma HitsAreSane(e: Expr, offset: int, r: seq<Triple>, signed: Entry -> bool)
    requires HitsAll(r, offset, Size(e))
    ensures Sane(AsFields(r, signed))
  {
    forall i | 0 <= i < |r| ensures AsFields(r, signed)[i].bits.num > 0 { assert r[i] in r && Hits(r[i], offset, Size(e)); }
  }

  // ----- nested structures: two inputs that are placed wrongly -----

  /** A 3-bit field at bit 1 of a byte. */
  function Flag(): Entry { Entry(BitRange(0, 1, 1, 3, false), 0) }

  function Flags(): Struct { Struct(1, [Flag()], []) }

  lemma FlagsScan(f: Component, offset: int, sz: nat)
    requires f.sub == Some(Flags()) && f.size == 1 && offset <= f.offset < offset + sz
    ensures Laid(Flags()) && Clear(Flags())
    ensures ScanOne(f, 0, offset, sz) == [Triple(Flag(), f.offset)]
  {
    assert [Flag()][..0] == [];
    assert ScanOwn([Flag()], f.offset, offset - f.offset, sz) == [] + [Triple(Flag(), f.offset)];
    assert Table([Flag()]) && InBytes(Flag(), 1);
  }

  lemma OneNested(f: Component, size: nat, offset: int, sz: nat)
    requires f.sub == Some(Flags()) && f.size == 1 && offset <= f.offset < offset + sz && FitsIn(f, size)
    ensures Laid(Struct(size, [], [f])) && Clear(Struct(size, [], [f]))
    ensures Scan(Struct(size, [], [f]), 0, offset, sz) == [Triple(Flag(), f.offset)]
  {
    FlagsScan(f, offset, sz);
    assert [f][..0] == [];
    assert ScanFields([f], 0, offset, sz) == [] + ScanOne(f, 0, offset, sz);
  }

  lemma TwoNested(f: Component, g: Component, size: nat, offset: int, sz: nat)
    requires f.sub == g.sub == Some(Flags()) && f.size == g.size == 1 && ComesBefore(f, g) && FitsIn(f, size) && FitsIn(g, size)
    requires offset <= f.offset < g.offset < offset + sz
    ensures Laid(Struct(size, [], [f, g])) && Clear(Struct(size, [], [f, g]))
    ensures Scan(Struct(size, [], [f, g]), 0, offset, sz) == [Triple(Flag(), f.offset), Triple(Flag(), g.offset)]
  {
    FlagsScan(f, offset, sz);
    FlagsScan(g, offset, sz);
    assert [f][..0] == [] && [f, g][..1] == [f];
    assert ScanFields([f], 0, offset, sz) == [] + ScanOne(f, 0, offset, sz);
  }

  /** Read alone, a field nested at byte 4 is put at bit -31 and queued as a hole of -28 bits. */
  lemma NestedIsMisplaced(e: Expr, signed: Entry -> bool)
    requires Sized(e) && Size(e) == 1
    ensures var s := Struct(8, [], [Component(4, 1, Some(Flags()))]);
      Laid(s) && Clear(s) && Scan(s, 0, 4, 1) == [Triple(Flag(), 4)]
    ensures var c, r := Container(e, 4, false), [Triple(Flag(), 4)];
      && InOrder(r) == r && Queue(e, c, AsFields(r, signed)) == ([HoleState(e, c, 0, -28)], -28)
      && !Rightly(e, 4, r, signed, Established(e, c, AsFields(r, signed)))
  {
    OneNested(Component(4, 1, Some(Flags())), 8, 4, 1);
    PairInOrder(Triple(Flag(), 4), Triple(Flag(), 4));
    FlagQueued(e, signed);
    FlagNotRight(e, signed);
  }

  lemma FlagQueued(e: Expr, signed: Entry -> bool)
    requires Sized(e) && Size(e) == 1
    ensures var c := Container(e, 4, false);
      Queue(e, c, AsFields([Triple(Flag(), 4)], signed)) == ([HoleState(e, c, 0, -28)], -28)
  {
    var f := Field(Flag().bits, signed(Flag()), 0);
    assert AsFields([Triple(Flag(), 4)], signed) == [f];
    QueueOnly(e, Container(e, 4, false), f);
  }

  lemma FlagNotRight(e: Expr, signed: Entry -> bool)
    requires Sized(e) && Size(e) == 1
    ensures var c, r := Container(e, 4, false), [Triple(Flag(), 4)];
      !Rightly(e, 4, r, signed, Established(e, c, AsFields(r, signed)))
  {
    var r := [Triple(Flag(), 4)];
    assert HitsAll(r, 4, 1);
    EstablishedRightly(e, 4, r, signed);
    assert !Outermost(Container(e, 4, false), r[0]);
  }

  /** A field put below the container and not reaching into it. */
  lemma QueueOnly(e: Expr, c: BitRange, f: Field)
    requires c.lsb == 0 < c.num && f.bits.num > 0 && TranslateLsb(c, f.bits) + f.bits.num <= 0
    ensures var end := TranslateLsb(c, f.bits) + f.bits.num;
      Queue(e, c, [f]) == ([HoleState(e, c, 0, end)], end)
  {
    assert [f][..0] == [];
    QueueMore(e, c, [f], 0);
    assert [f][..1] == [f];
    ContainedMeans(c, f);
    var end := TranslateLsb(c, f.bits) + f.bits.num;
    assert [] + [OneState(e, c, f, 0)] == [HoleState(e, c, 0, end)];
  }

  /** Two nested side by side are both put on the bits of the first. */
  lemma TwoNestedShareBits(e: Expr, signed: Entry -> bool)
    requires Sized(e) && Size(e) == 2
    ensures var s := Struct(2, [], [Component(0, 1, Some(Flags())), Component(1, 1, Some(Flags()))]);
      Laid(s) && Clear(s) && Scan(s, 0, 0, 2) == [Triple(Flag(), 0), Triple(Flag(), 1)]
    ensures var c, r := Container(e, 0, false), [Triple(Flag(), 0), Triple(Flag(), 1)];
      && InOrder(r) == r
      && ContainedFields(c, AsFields(r, signed)) == [(1, 3, 0), (1, 3, 1)]
      && ContainedFields(c, TrueFields(r, signed)) == [(1, 3, 0), (9, 3, 1)]
      && !Rightly(e, 0, r, signed, Established(e, c, AsFields(r, signed)))
  {
    TwoNested(Component(0, 1, Some(Flags())), Component(1, 1, Some(Flags())), 2, 0, 2);
    PairInOrder(Triple(Flag(), 0), Triple(Flag(), 1));
    FlagsListed(e, signed);
    FlagsNotRight(e, signed);
  }

  lemma FlagsListed(e: Expr, signed: Entry -> bool)
    requires Sized(e) && Size(e) == 2
    ensures var c, r := Container(e, 0, false), [Triple(Flag(), 0), Triple(Flag(), 1)];
      && ContainedFields(c, AsFields(r, signed)) == [(1, 3, 0), (1, 3, 1)]
      && ContainedFields(c, TrueFields(r, signed)) == [(1, 3, 0), (9, 3, 1)]
  {
    var c, r := Container(e, 0, false), [Triple(Flag(), 0), Triple(Flag(), 1)];
    PairContained(c, AsFields(r, signed));
    PairContained(c, TrueFields(r, signed));
  }

  lemma FlagsNotRight(e: Expr, signed: Entry -> bool)
    requires Sized(e) && Size(e) == 2
    ensures var c, r := Container(e, 0, false), [Triple(Flag(), 0), Triple(Flag(), 1)];
      !Rightly(e, 0, r, signed, Established(e, c, AsFields(r, signed)))
  {
    var r := [Triple(Flag(), 0), Triple(Flag(), 1)];
    assert HitsAll(r, 0, 2);
    EstablishedRightly(e, 0, r, signed);
    assert !Outermost(Container(e, 0, false), r[1]);
  }

  lemma PairInOrder(t: Triple, u: Triple)
    requires TripleAtMost(t, u)
    ensures InOrder([t]) == [t] && InOrder([t, u]) == [t, u]
  {
    assert [t, u][..1] == [t] && [t][..0] == [];
    assert InOrder([t]) == [t];
  }

  lemma PairContained(c: BitRange, fields: seq<Field>)
    requires |fields| == 2
    ensures ContainedFields(c, fields) == One(c, fields[0]) + One(c, fields[1])
  {
    assert fields[..1] == [fields[0]] && [fields[0]][..0] == [];
    assert ContainedFields(c, [fields[0]]) == One(c, fields[0]);
  }
}

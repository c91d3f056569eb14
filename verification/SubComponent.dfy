/**
 Where the PTRSUB of a rewritten additive tree points (pkg/pcode/addtreestate.go:497-566,
 809-879): the search for a component near an offset, and the split of the summed
 constant between the start of the component and what is left for the remainder.
 */
module SubComponents {
  import opened Options
  import opened Words
  import opened AddTrees

  /** The components of a data-type by their first byte; `elem` is the element size of one that is, or holds, an array. */
  datatype Component = Component(start: int, size: nat, elem: Option<nat>) {
    predicate Holds(at: int) { start <= at < start + size }
  }

  /** An array found near an offset: the offset counted from the start of its component, and its element size. */
  datatype Nearby = Nearby(off: int, elem: nat)

  /** The searches of a data-type: the component at an offset, and the nearest arrays before and after it. */
  datatype Searches = Searches(sub: int -> Option<int>, back: int -> Option<Nearby>, fwd: int -> Option<Nearby>)

  // ----- the search for a component -----

  /** The offset within the component chosen; an array hint steers toward a nearby array. */
  function Match(o: Searches, at: int, hint: nat): Option<int> {
    if hint == 0 then o.sub(at)
    else
      var before, after := o.back(at), o.fwd(at);
      if before.None? && after.None? then o.sub(at)
      else if before.None? then Some(after.value.off)
      else if after.None? then Some(before.value.off)
      else if after.value.off == before.value.off then Some(after.value.off)
      else if hint != 1 && before.value.elem != after.value.elem && before.value.elem == hint then Some(before.value.off)
      else if hint != 1 && before.value.elem != after.value.elem && after.value.elem == hint then Some(after.value.off)
      else
        var sub := o.sub(at);
        if sub.Some? && (sub.value == before.value.off || sub.value == after.value.off) then sub
        else if Abs(after.value.off) < Abs(before.value.off) then Some(after.value.off)
        else Some(before.value.off)
  }

  /** Components in order, apart. */
  ghost predicate Table(table: seq<Component>) {
    forall i, j :: 0 <= i < j < |table| ==> table[i].start + table[i].size <= table[j].start && table[i].start < table[j].start
  }

  /** The component at an offset is the one that holds it. */
  ghost predicate SubAt(o: Searches, table: seq<Component>, at: int) {
    match o.sub(at)
    case None => forall c :: c in table ==> !c.Holds(at)
    case Some(off) => exists c :: c in table && c.Holds(at) && off == at - c.start
  }

  /** What is found nearby is an array of the table. */
  ghost predicate NearAt(near: Option<Nearby>, table: seq<Component>, at: int) {
    near.Some? ==> exists c :: Named(table, near.value, at, c)
  }

  ghost predicate Describes(o: Searches, table: seq<Component>) {
    Table(table) && (forall at :: SubAt(o, table, at)) && (forall at :: NearAt(o.back(at), table, at)) && forall at :: NearAt(o.fwd(at), table, at)
  }

  /** Which array an offset between two of them goes to. */
  ghost predicate Steered(before: Component, after: Component, at: int, hint: nat, c: Component) {
    && (c == before || c == after)
    && (hint != 1 && before.elem != after.elem && c.elem != Some(hint) ==> before.elem != Some(hint) && after.elem != Some(hint))
    && ((hint == 1 || before.elem == after.elem || (before.elem != Some(hint) && after.elem != Some(hint))) ==>
        if before.Holds(at) || after.Holds(at) then c.Holds(at)
        else Abs(at - c.start) <= Abs(at - before.start) && Abs(at - c.start) <= Abs(at - after.start))
  }

  /** The component chosen: the one that holds the offset, or an array before or after it. */
  ghost predicate Chosen(o: Searches, table: seq<Component>, at: int, hint: nat, c: Component) {
    c in table &&
    if hint == 0 || (o.back(at).None? && o.fwd(at).None?) then c.Holds(at)
    else if o.back(at).None? then at - c.start == o.fwd(at).value.off && c.elem.Some?
    else if o.fwd(at).None? then at - c.start == o.back(at).value.off && c.elem.Some?
    else exists before, after :: Named(table, o.back(at).value, at, before) && Named(table, o.fwd(at).value, at, after) && Steered(before, after, at, hint, c)
  }

  /** The array found is the component. */
  ghost predicate Named(table: seq<Component>, near: Nearby, at: int, c: Component) {
    c in table && c.elem == Some(near.elem) && near.off == at - c.start
  }

  lemma SameStart(table: seq<Component>, a: Component, b: Component)
    requires Table(table) && a in table && b in table && a.start == b.start
    ensures a == b
  {
    var i :| 0 <= i < |table| && table[i] == a;
    var j :| 0 <= j < |table| && table[j] == b;
  }

  /** The search comes to a component of the table, or finds that none holds the offset. */
  lemma MatchChooses(o: Searches, table: seq<Component>, at: int, hint: nat) returns (c: Component)
    requires Describes(o, table)
    ensures Match(o, at, hint).Some? ==> Chosen(o, table, at, hint, c) && Match(o, at, hint).value == at - c.start
    ensures Match(o, at, hint).None? ==> forall d :: d in table ==> !d.Holds(at)
  {
    c := Component(0, 0, None);
    assert SubAt(o, table, at) && NearAt(o.back(at), table, at) && NearAt(o.fwd(at), table, at);
    var before, after := o.back(at), o.fwd(at);
    if hint == 0 || (before.None? && after.None?) {
      if o.sub(at).Some? { c :| c in table && c.Holds(at) && o.sub(at).value == at - c.start; }
    } else if before.None? {
      c :| Named(table, after.value, at, c);
    } else if after.None? {
      c :| Named(table, before.value, at, c);
    } else {
      c := BetweenArrays(o, table, at, hint);
    }
  }

  lemma BetweenArrays(o: Searches, table: seq<Component>, at: int, hint: nat) returns (c: Component)
    requires Describes(o, table) && hint != 0 && o.back(at).Some? && o.fwd(at).Some?
    ensures Chosen(o, table, at, hint, c) && Match(o, at, hint) == Some(at - c.start)
  {
    assert SubAt(o, table, at) && NearAt(o.back(at), table, at) && NearAt(o.fwd(at), table, at);
    var near, far := o.back(at).value, o.fwd(at).value;
    var before :| Named(table, near, at, before);
    var after :| Named(table, far, at, after);
    c := if Match(o, at, hint).value == near.off then before else after;
    if near.off == far.off { SameStart(table, before, after); }
    HolderIsSub(o, table, at, before);
    HolderIsSub(o, table, at, after);
    assert Steered(before, after, at, hint, c);
  }

  /** A component that holds the offset is what the search at the offset gives. */
  lemma HolderIsSub(o: Searches, table: seq<Component>, at: int, c: Component)
    requires Describes(o, table) && c in table
    ensures c.Holds(at) <==> o.sub(at) == Some(at - c.start)
  {
    assert SubAt(o, table, at);
    if o.sub(at).Some? {
      var d :| d in table && d.Holds(at) && o.sub(at).value == at - d.start;
      if d.start == c.start { SameStart(table, c, d); }
      if c.Holds(at) { OneHolder(table, c, d, at); }
    }
  }

  lemma OneHolder(table: seq<Component>, c: Component, d: Component, at: int)
    requires Table(table) && c in table && d in table && c.Holds(at) && d.Holds(at)
    ensures c == d
  {
    var i :| 0 <= i < |table| && table[i] == c;
    var j :| 0 <= j < |table| && table[j] == d;
  }

  // ----- the residue of the constant -----

  /** The offset that stays inside one element: the residue, or all of it below this level or without an element. */
  lemma OffsetIsResidue(cfg: Config, t: Tally)
    requires cfg.Valid()
    ensures var total, s := Total(cfg, t), Signed(Total(cfg, t), cfg.m - 1);
      Offset(cfg, t) ==
        if cfg.size == 0 || total < cfg.size || (s % cfg.size != 0 && s < 0 && LowerLevel(cfg, t)) then total
        else s % cfg.size
  {
    var total, s := Total(cfg, t), Signed(Total(cfg, t), cfg.m - 1);
    if cfg.size != 0 && total >= cfg.size {
      TruncResidue(s, cfg.size);
      ResidueFits(total, cfg.size, cfg.m);
    }
  }

  lemma TruncResidue(x: int, d: nat)
    requires d > 0
    ensures TruncMod(x, d) == if x >= 0 || x % d == 0 then x % d else x % d - d
  {
    var q := x / d;
    assert x == q * d + x % d;
    if x < 0 {
      if x % d == 0 {
        assert -x == (-q) * d;
        RemainderUnique(-x, d, -q, 0);
      } else {
        assert -x == (-q - 1) * d + (d - x % d) by { assert (-q - 1) * d == (-q) * d - d; }
        RemainderUnique(-x, d, -q - 1, d - x % d);
        assert d * (q + 1) == q * d + d;
      }
    }
  }

  /** The residue is below the ring's size. */
  lemma ResidueFits(total: nat, size: nat, m: nat)
    requires 0 < size <= total < m
    ensures forall r :: 0 <= r < size ==> r % m == r
  {
    forall r | 0 <= r < size ensures r % m == r { SmallMod(r, m); }
  }

  // ----- what the PTRSUB and the remainder get -----

  /** The byte offset that is looked up. */
  function ByteOffset(cfg: Config, t: Tally): int
    requires cfg.Valid()
  {
    (if cfg.meta.StructType? then Signed(Offset(cfg, t), cfg.m - 1) else Offset(cfg, t)) * cfg.word
  }

  function Rel(cfg: Config): nat { if cfg.rel.Some? then cfg.rel.value else 0 }

  /** PTRSUB goes to `at`, counted from the container, and the remainder adds `inside` to its variables. */
  ghost predicate PointsTo(cfg: Config, t: Tally, p: Plan, at: int, inside: int)
    requires cfg.Valid()
  {
    Cong(p.offset + Rel(cfg), at, cfg.m) && Cong(t.nonmultsum - Rel(cfg) - p.correct, inside, cfg.m)
  }

  lemma MovePoints(cfg: Config, t: Tally, offset: nat, correct: nat, at: int, inside: int, p: Plan)
    requires cfg.Valid() && Cong(offset, at, cfg.m) && Cong(t.nonmultsum - correct, inside, cfg.m)
    requires p.offset == offset && p.correct == correct
    ensures PointsTo(cfg, t, MakeRelative(cfg, p), at, inside)
  {
    var m, rel, q := cfg.m, Rel(cfg), MakeRelative(cfg, p);
    if cfg.rel.Some? {
      CongMod(offset - rel, m);
      CongMod(correct - rel, m);
      CongSelf(rel, m);
      CongSelf(t.nonmultsum - rel, m);
      CongSum(q.offset, offset - rel, rel, rel, m);
      CongTrans(q.offset + rel, offset, at, m);
      CongSum(t.nonmultsum - rel, t.nonmultsum - rel, q.correct, correct - rel, m);
      CongTrans(t.nonmultsum - rel - q.correct, t.nonmultsum - correct, inside, m);
    }
  }

  /** Taking `extra` bytes, whole units, from the PTRSUB. */
  lemma MovedPoints(cfg: Config, t: Tally, extra: int, units: int, b: bool)
    requires cfg.Valid() && extra == units * cfg.word
    ensures var p := SplitConstant(cfg, t);
      PointsTo(cfg, t, MakeRelative(cfg, MoveOffset(cfg, p, extra).(isSubtype := b)), Offset(cfg, t) - units, units)
  {
    var p, m := SplitConstant(cfg, t), cfg.m;
    WholeUnits(extra, units, cfg.word);
    var q := MoveOffset(cfg, p, extra);
    CongMod(p.offset - units, m);
    CongMod(p.correct - units, m);
    CongSelf(t.nonmultsum, m);
    CongSum(t.nonmultsum, t.nonmultsum, q.correct, p.correct - units, m);
    MovePoints(cfg, t, q.offset, q.correct, Offset(cfg, t) - units, units, q.(isSubtype := b));
  }

  lemma WholeUnits(extra: int, units: int, word: nat)
    requires word > 0 && extra == units * word
    ensures (if extra >= 0 then extra / word else -((-extra) / word)) == units
  {
    if extra >= 0 {
      RemainderUnique(extra, word, units, 0);
    } else {
      assert -extra == (-units) * word;
      RemainderUnique(-extra, word, -units, 0);
    }
  }

  /** Components begin at address units. */
  ghost predicate Aligned(table: seq<Component>, word: nat)
    requires word > 0
  {
    forall c :: c in table ==> c.start % word == 0
  }

  /** The byte offset looked up is the offset of the component's start and the rest, in units. */
  lemma UnitsOf(cfg: Config, t: Tally, start: int)
    requires cfg.Valid() && start % cfg.word == 0
    ensures var units := ByteOffset(cfg, t) / cfg.word - start / cfg.word;
      && ByteOffset(cfg, t) - start == units * cfg.word
      && Cong(Offset(cfg, t) - units, start / cfg.word, cfg.m)
  {
    var w, s := cfg.word, if cfg.meta.StructType? then Signed(Offset(cfg, t), cfg.m - 1) else Offset(cfg, t);
    RemainderUnique(ByteOffset(cfg, t), w, s, 0);
    var k := start / w;
    assert start == k * w + start % w;
    assert s * w - k * w == (s - k) * w;
    if s == Offset(cfg, t) { CongSelf(k, cfg.m); } else { CongBy(Offset(cfg, t) - (s - k), k, 1, cfg.m); }
  }

  /** The search of the program is the one above. */
  ghost predicate Searching(cfg: Config, o: Searches) { forall at, hint :: cfg.find(at, hint) == Match(o, at, hint) }

  /**
   Into a structure or the spacebase, the PTRSUB goes to the start of the component
   chosen for the residue of the constant, and the remainder adds the rest of the
   residue; where a structure has no component, the PTRSUB takes all of the residue.
   */
  lemma SubtypePointsToComponent(cfg: Config, t: Tally, o: Searches, table: seq<Component>)
    requires cfg.Valid() && Searching(cfg, o) && Describes(o, table) && Aligned(table, cfg.word)
    requires (cfg.meta.StructType? || cfg.meta.SpacebaseType?) && SignedWord(ByteOffset(cfg, t)) == ByteOffset(cfg, t)
    requires SubtypePlan(cfg, t).valid && SubtypePlan(cfg, t).isSubtype
    ensures var p, at := SubtypePlan(cfg, t), ByteOffset(cfg, t);
      (exists c :: Chosen(o, table, at, t.biggest, c) && PointsTo(cfg, t, p, c.start / cfg.word, at / cfg.word - c.start / cfg.word))
      || (cfg.meta.StructType? && 0 <= at < cfg.bytes && (forall c :: c in table ==> !c.Holds(at)) && PointsTo(cfg, t, p, Offset(cfg, t), 0))
  {
    var at := ByteOffset(cfg, t);
    var found := cfg.find(at, t.biggest);
    PlanByFound(cfg, t, at);
    var c := MatchChooses(o, table, at, t.biggest);
    assert found == Match(o, at, t.biggest);
    if found.Some? {
      StartPoints(cfg, t, c.start, found.value);
      assert Chosen(o, table, at, t.biggest, c);
    } else {
      MovedPoints(cfg, t, 0, 0, true);
    }
  }

  /** The plan made with what the search finds, or with 0 inside a structure where it finds nothing. */
  lemma PlanByFound(cfg: Config, t: Tally, at: int)
    requires cfg.Valid() && (cfg.meta.StructType? || cfg.meta.SpacebaseType?) && at == ByteOffset(cfg, t) == SignedWord(at)
    requires SubtypePlan(cfg, t).valid && SubtypePlan(cfg, t).isSubtype
    ensures var found := cfg.find(at, t.biggest);
      && (found.None? ==> cfg.meta.StructType? && 0 <= at < cfg.bytes)
      && SubtypePlan(cfg, t) == MakeRelative(cfg, MoveOffset(cfg, SplitConstant(cfg, t), if found.Some? then found.value else 0).(isSubtype := true))
  {
  }

  lemma StartPoints(cfg: Config, t: Tally, start: int, extra: int)
    requires cfg.Valid() && start % cfg.word == 0 && extra == ByteOffset(cfg, t) - start
    ensures PointsTo(cfg, t, MakeRelative(cfg, MoveOffset(cfg, SplitConstant(cfg, t), extra).(isSubtype := true)),
                     start / cfg.word, ByteOffset(cfg, t) / cfg.word - start / cfg.word)
  {
    var units := ByteOffset(cfg, t) / cfg.word - start / cfg.word;
    UnitsOf(cfg, t, start);
    MovedPoints(cfg, t, extra, units, true);
    PointsSame(cfg, t, MakeRelative(cfg, MoveOffset(cfg, SplitConstant(cfg, t), extra).(isSubtype := true)),
               Offset(cfg, t) - units, start / cfg.word, units);
  }

  ghost predicate Reaches(o: Searches, table: seq<Component>, at: int, hint: nat) { exists c :: Chosen(o, table, at, hint, c) }

  /** Something is found exactly when the table has a component to choose. */
  lemma FindsExactly(o: Searches, table: seq<Component>, at: int, hint: nat)
    requires Describes(o, table)
    ensures Match(o, at, hint).Some? <==> Reaches(o, table, at, hint)
  {
    var c := MatchChooses(o, table, at, hint);
    assert SubAt(o, table, at);
  }

  /** With variable terms, the pointer is taken into the data-type exactly when there is something to point to. */
  lemma SubtypeIsFound(cfg: Config, t: Tally, o: Searches, table: seq<Component>)
    requires cfg.Valid() && Searching(cfg, o) && Describes(o, table) && t.valid && t.nonmult != [] && cfg.rel.None?
    requires SignedWord(ByteOffset(cfg, t)) == ByteOffset(cfg, t)
    ensures SubtypePlan(cfg, t).valid ==> SubtypePlan(cfg, t).isSubtype
    ensures SubtypePlan(cfg, t).valid <==> match cfg.meta
      case SpacebaseType => Reaches(o, table, ByteOffset(cfg, t), t.biggest)
      case StructType => Reaches(o, table, ByteOffset(cfg, t), t.biggest) || 0 <= ByteOffset(cfg, t) < cfg.bytes
      case ArrayType => true
      case OtherType => false
  {
    var at := ByteOffset(cfg, t);
    assert cfg.find(at, t.biggest) == Match(o, at, t.biggest);
    assert cfg.find(at, t.biggest).Some? <==> Reaches(o, table, at, t.biggest) by { FindsExactly(o, table, at, t.biggest); }
    PlanIsFound(cfg, t, at);
  }

  lemma PlanIsFound(cfg: Config, t: Tally, at: int)
    requires cfg.Valid() && t.valid && t.nonmult != [] && cfg.rel.None? && at == ByteOffset(cfg, t) == SignedWord(at)
    ensures var p, found := SubtypePlan(cfg, t), cfg.find(at, t.biggest).Some?;
      && (p.valid ==> p.isSubtype)
      && (p.valid <==> cfg.meta.ArrayType? || (cfg.meta.SpacebaseType? && found) || (cfg.meta.StructType? && (found || 0 <= at < cfg.bytes)))
  {
  }

  lemma PointsSame(cfg: Config, t: Tally, p: Plan, at: int, at': int, inside: int)
    requires cfg.Valid() && PointsTo(cfg, t, p, at, inside) && Cong(at, at', cfg.m)
    ensures PointsTo(cfg, t, p, at', inside)
  {
    CongTrans(p.offset + Rel(cfg), at, at', cfg.m);
  }

  /**
   What the remainder adds of the residue lies inside the component exactly when the
   search at the offset itself gives the same, as it does without a hint or an array near.
   */
  lemma RestIsInside(o: Searches, table: seq<Component>, at: int, hint: nat, c: Component, word: nat)
    requires word > 0 && Describes(o, table) && Aligned(table, word) && at % word == 0
    requires Chosen(o, table, at, hint, c) && Match(o, at, hint) == Some(at - c.start)
    ensures 0 <= (at / word - c.start / word) * word < c.size <==> o.sub(at) == Match(o, at, hint)
    ensures hint == 0 || (o.back(at).None? && o.fwd(at).None?) ==> o.sub(at) == Match(o, at, hint)
  {
    assert c in table;
    UnitsApart(at, c.start, word);
    HolderIsSub(o, table, at, c);
    if hint == 0 || (o.back(at).None? && o.fwd(at).None?) { assert Match(o, at, hint) == o.sub(at); }
  }

  lemma UnitsApart(x: int, y: int, word: nat)
    requires word > 0 && x % word == 0 && y % word == 0
    ensures (x / word - y / word) * word == x - y
  {
    assert x == (x / word) * word && y == (y / word) * word;
  }

  /** An array of 4-byte elements is taken for an offset in the field behind it, and the remainder adds more than its size. */
  lemma NearbyArrayIsTaken(o: Searches, table: seq<Component>)
    requires table == [Component(0, 8, Some(4)), Component(8, 4, None)]
    requires o.sub(9) == Some(1) && o.back(9) == Some(Nearby(9, 4)) && o.fwd(9) == None
    ensures Chosen(o, table, 9, 4, table[0]) && Match(o, 9, 4) == Some(9) && !table[0].Holds(9) && table[1].Holds(9)
  {
  }

  /** Into an array, the PTRSUB goes to its start and the remainder adds the residue. */
  lemma ArrayPointsToStart(cfg: Config, t: Tally)
    requires cfg.Valid() && cfg.meta.ArrayType? && SubtypePlan(cfg, t).valid && SubtypePlan(cfg, t).isSubtype
    ensures PointsTo(cfg, t, SubtypePlan(cfg, t), 0, Offset(cfg, t))
  {
    var p, m := SplitConstant(cfg, t), cfg.m;
    var q := p.(isSubtype := true, correct := (p.correct - p.offset) % m, offset := 0);
    CongMod(p.correct - p.offset, m);
    CongSelf(t.nonmultsum, m);
    CongSelf(0, m);
    CongSum(t.nonmultsum, t.nonmultsum, q.correct, p.correct - p.offset, m);
    MovePoints(cfg, t, q.offset, q.correct, 0, Offset(cfg, t), q);
  }
}

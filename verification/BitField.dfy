/**
 Recovering bitfield writes (pkg/pcode/bitfield.go:26-132, 353-703, 948-963 and
 pkg/pcode/bitrange.go): the fields and holes of a written container are each followed
 backward through the masks and shifts that compute it, down to the original value of
 the container, a constant, or the value stored into the field.

 A machine value is the sequence of its bits, least significant first.  Tests of a
 64-bit mask against a range of bits are stated bit by bit.
 */
module BitFields {
  import opened Words

  type Bits = seq<bool>

  // ----- numbers and bits -----

  function ToNat(v: Bits): nat {
    if v == [] then 0 else (if v[0] then 1 else 0) + 2 * ToNat(v[1..])
  }

  function FromNat(x: nat, n: nat): (v: Bits)
    ensures |v| == n
  {
    if n == 0 then [] else [x % 2 == 1] + FromNat(x / 2, n - 1)
  }

  function BitAt(v: Bits, i: int): bool { 0 <= i < |v| && v[i] }

  lemma {:induction false} FromToNat(v: Bits)
    ensures FromNat(ToNat(v), |v|) == v
  {
    if v != [] {
      FromToNat(v[1..]);
      assert ToNat(v) / 2 == ToNat(v[1..]);
      assert v == [v[0]] + v[1..];
    }
  }

  function OrBits(a: Bits, b: Bits): (v: Bits)
    ensures |v| == |a|
  {
    seq(|a|, i requires 0 <= i < |a| => a[i] || BitAt(b, i))
  }

  ghost predicate Disjoint(a: Bits, b: Bits) {
    forall i :: 0 <= i < |a| ==> !(a[i] && BitAt(b, i))
  }

  lemma {:induction false} SumOfDisjoint(a: Bits, b: Bits)
    requires |a| == |b| && Disjoint(a, b)
    ensures ToNat(OrBits(a, b)) == ToNat(a) + ToNat(b)
  {
    if a != [] {
      var a', b' := a[1..], b[1..];
      forall i | 0 <= i < |a'| ensures !(a'[i] && BitAt(b', i)) { assert !(a[i + 1] && BitAt(b, i + 1)); }
      SumOfDisjoint(a', b');
      assert OrBits(a, b)[1..] == OrBits(a', b');
      assert !(a[0] && BitAt(b, 0));
    }
  }

  /** Adding values that share no bit is or-ing them. */
  lemma {:induction false} AddIsOr(a: Bits, b: Bits)
    requires |a| == |b| && Disjoint(a, b)
    ensures FromNat(ToNat(a) + ToNat(b), |a|) == OrBits(a, b)
  {
    SumOfDisjoint(a, b);
    FromToNat(OrBits(a, b));
  }

  function ShiftLeft(v: Bits, sa: nat): (r: Bits)
    ensures |r| == |v|
  {
    seq(|v|, i requires 0 <= i < |v| => i >= sa && v[i - sa])
  }

  lemma {:induction false} FromNatPrefix(x: nat, n: nat, i: nat)
    requires i < n
    ensures FromNat(x, n)[i] == FromNat(x, i + 1)[i]
  {
    if i > 0 { FromNatPrefix(x / 2, n - 1, i - 1); }
  }

  lemma {:induction false} FromDouble(x: nat, n: nat)
    ensures FromNat(2 * x, n) == ShiftLeft(FromNat(x, n), 1)
  {
    var w := FromNat(2 * x, n);
    if n > 0 {
      assert (2 * x) / 2 == x && (2 * x) % 2 == 0;
      forall i | 0 <= i < n ensures w[i] == ShiftLeft(FromNat(x, n), 1)[i] {
        if i > 0 {
          assert w[i] == FromNat(x, n - 1)[i - 1];
          FromNatPrefix(x, n - 1, i - 1);
          FromNatPrefix(x, n, i - 1);
        }
      }
    }
  }

  /** Multiplying by a power of two is shifting. */
  lemma {:induction false} MultIsShift(v: Bits, sa: nat)
    ensures FromNat(ToNat(v) * Pow2(sa), |v|) == ShiftLeft(v, sa)
  {
    if sa == 0 {
      FromToNat(v);
      assert ToNat(v) * Pow2(0) == ToNat(v);
    } else {
      MultIsShift(v, sa - 1);
      var x := ToNat(v) * Pow2(sa - 1);
      assert ToNat(v) * Pow2(sa) == 2 * x by { Doubled(ToNat(v), Pow2(sa - 1)); }
      FromDouble(x, |v|);
      assert ShiftLeft(ShiftLeft(v, sa - 1), 1) == ShiftLeft(v, sa);
    }
  }

  lemma Doubled(x: nat, p: nat)
    ensures x * (2 * p) == 2 * (x * p)
  {
  }

  /** The only set bit of a value, if there is just one. */
  function OnlyBit(v: Bits): (r: int)
    ensures -1 <= r < |v|
    ensures r >= 0 ==> v[r] && ToNat(v) == Pow2(r)
  {
    if v == [] then -1
    else if v[0] then (if ToNat(v[1..]) == 0 then 0 else -1)
    else
      var r := OnlyBit(v[1..]);
      if r < 0 then -1 else r + 1
  }

  // ----- ranges of bits -----

  /** `num` bits from `lsb` of a container of `byteSize` bytes at `byteOffset`. */
  datatype BitRange = BitRange(byteOffset: int, byteSize: int, lsb: int, num: int, big: bool) {
    ghost predicate Inside() { 0 <= lsb && 0 < num && lsb + num <= 8 * byteSize }
  }

  /** Moves the range up (down when negative) and drops what leaves the container. */
  function Shift(b: BitRange, amount: int): BitRange {
    var lsb := b.lsb + amount;
    var most := lsb + b.num;
    var (lsb', num') :=
      if lsb < 0 then (0, b.num + lsb) else if most > b.byteSize * 8 then (lsb, b.num - (most - b.byteSize * 8)) else (lsb, b.num);
    if num' < 0 then b.(lsb := 0, num := 0) else b.(lsb := lsb', num := num')
  }

  function TruncateMostSigBytes(b: BitRange, n: int): BitRange {
    var size := b.byteSize - n;
    var most := b.lsb + b.num;
    var num := if most > size * 8 then b.num - (most - size * 8) else b.num;
    b.(byteOffset := if b.big then b.byteOffset + n else b.byteOffset, byteSize := size, num := if num < 0 then 0 else num)
  }

  function ExtendBytes(b: BitRange, n: int): BitRange {
    b.(byteOffset := if b.big then b.byteOffset - n else b.byteOffset, byteSize := b.byteSize + n)
  }

  predicate AllSet(v: Bits, b: BitRange) { forall i :: b.lsb <= i < b.lsb + b.num ==> BitAt(v, i) }

  predicate NoneSet(v: Bits, b: BitRange) { forall i :: b.lsb <= i < b.lsb + b.num ==> !BitAt(v, i) }

  /** The first set bit in `[lo, hi)`. */
  function FirstSet(v: Bits, lo: int, hi: int): (r: int)
    requires exists i :: lo <= i < hi && BitAt(v, i)
    ensures lo <= r < hi && BitAt(v, r) && forall i :: lo <= i < r ==> !BitAt(v, i)
    decreases hi - lo
  {
    if BitAt(v, lo) then lo else FirstSet(v, lo + 1, hi)
  }

  function LastSet(v: Bits, lo: int, hi: int): (r: int)
    requires exists i :: lo <= i < hi && BitAt(v, i)
    ensures lo <= r < hi && BitAt(v, r) && forall i :: r < i < hi ==> !BitAt(v, i)
    decreases hi - lo
  {
    if BitAt(v, hi - 1) then hi - 1 else LastSet(v, lo, hi - 1)
  }

  /** The least range that covers the set bits of the range. */
  function IntersectMask(b: BitRange, mask: Bits): (r: BitRange)
    ensures b.num > 0 ==> (r.num == 0 <==> NoneSet(mask, b))
    ensures r.num > 0 ==> forall i :: b.lsb <= i < b.lsb + b.num && BitAt(mask, i) ==> r.lsb <= i < r.lsb + r.num
  {
    if NoneSet(mask, b) then b.(lsb := 0, num := 0)
    else
      var lo, hi := FirstSet(mask, b.lsb, b.lsb + b.num), LastSet(mask, b.lsb, b.lsb + b.num);
      b.(lsb := lo, num := hi + 1 - lo)
  }

  // ----- expressions -----

  /** A varnode as the expression that defines it. */
  datatype Expr =
    | Const(bits: Bits)
    | Original(size: nat, at: int, written: bool)   // the container's value before the write, from its bit `at` on
    | Opaque(id: nat, size: nat, written: bool)     // an input, or the output of any other op
    | Copy(a: Expr)
    | Add(a: Expr, b: Expr)
    | And(a: Expr, b: Expr)
    | Or(a: Expr, b: Expr)
    | Left(a: Expr, b: Expr)
    | SRight(a: Expr, b: Expr)
    | Right(a: Expr, b: Expr)
    | Xor(a: Expr, b: Expr)
    | Zext(a: Expr, size: nat)
    | Mult(a: Expr, b: Expr)
    | Subpiece(a: Expr, offset: nat, size: nat)

  function Size(e: Expr): nat {
    match e
    case Const(v) => |v| / 8
    case Original(n, _, _) => n
    case Opaque(_, n, _) => n
    case Zext(_, n) => n
    case Subpiece(_, _, n) => n
    case Copy(a) => Size(a)
    case Add(a, _) => Size(a)
    case And(a, _) => Size(a)
    case Or(a, _) => Size(a)
    case Left(a, _) => Size(a)
    case SRight(a, _) => Size(a)
    case Right(a, _) => Size(a)
    case Xor(a, _) => Size(a)
    case Mult(a, _) => Size(a)
  }

  /** The operand sizes fit. */
  predicate Sized(e: Expr) {
    match e
    case Const(v) => |v| % 8 == 0
    case Original(_, _, _) => true
    case Opaque(_, _, _) => true
    case Zext(a, n) => Sized(a) && Size(a) <= n
    case Subpiece(a, off, n) => Sized(a) && off + n <= Size(a)
    case Copy(a) => Sized(a)
    case Add(a, b) => Sized(a) && Sized(b) && Size(b) == Size(a)
    case And(a, b) => Sized(a) && Sized(b) && Size(b) == Size(a)
    case Or(a, b) => Sized(a) && Sized(b) && Size(b) == Size(a)
    case Mult(a, b) => Sized(a) && Sized(b) && Size(b) == Size(a)
    case Left(a, b) => Sized(a) && Sized(b)
    case SRight(a, b) => Sized(a) && Sized(b)
    case Right(a, b) => Sized(a) && Sized(b)
    case Xor(a, b) => Sized(a) && Sized(b) && Size(b) == Size(a)
  }

  /** The bits of the original value and of the opaque varnodes. */
  datatype Env = Env(orig: int -> bool, val: (nat, nat) -> bool)

  function Eval(e: Expr, env: Env): (v: Bits)
    requires Sized(e)
    ensures |v| == 8 * Size(e)
  {
    match e
    case Const(v) => v
    case Original(n, at, _) => seq(8 * n, i requires 0 <= i => env.orig(at + i))
    case Opaque(id, n, _) => seq(8 * n, i requires 0 <= i => env.val(id, i))
    case Copy(a) => Eval(a, env)
    case Add(a, b) => FromNat(ToNat(Eval(a, env)) + ToNat(Eval(b, env)), 8 * Size(a))
    case And(a, b) =>
      var x, y := Eval(a, env), Eval(b, env);
      seq(|x|, i requires 0 <= i < |x| => x[i] && BitAt(y, i))
    case Or(a, b) => OrBits(Eval(a, env), Eval(b, env))
    case Left(a, b) => ShiftLeft(Eval(a, env), ToNat(Eval(b, env)))
    case SRight(a, b) => ShiftRightSigned(Eval(a, env), ToNat(Eval(b, env)))
    case Right(a, b) => ShiftRight(Eval(a, env), ToNat(Eval(b, env)))
    case Xor(a, b) => XorBits(Eval(a, env), Eval(b, env))
    case Zext(a, n) =>
      var x := Eval(a, env);
      seq(8 * n, i requires 0 <= i => BitAt(x, i))
    case Mult(a, b) => FromNat(ToNat(Eval(a, env)) * ToNat(Eval(b, env)), 8 * Size(a))
    case Subpiece(a, off, n) =>
      var x := Eval(a, env);
      seq(8 * n, i requires 0 <= i => BitAt(x, 8 * off + i))
  }

  function ShiftRight(v: Bits, sa: nat): (r: Bits)
    ensures |r| == |v|
  {
    seq(|v|, i requires 0 <= i < |v| => i + sa < |v| && v[i + sa])
  }

  function XorBits(a: Bits, b: Bits): (v: Bits)
    ensures |v| == |a|
  {
    seq(|a|, i requires 0 <= i < |a| => a[i] != BitAt(b, i))
  }

  function ShiftRightSigned(v: Bits, sa: nat): (r: Bits)
    ensures |r| == |v|
  {
    seq(|v|, i requires 0 <= i < |v| => if i + sa < |v| then v[i + sa] else v[|v| - 1])
  }

  /** Masks of the bits a varnode may have set: never too small, and exact for constants. */
  type Masks = Expr -> Bits

  ghost predicate SoundMasks(nz: Masks) {
    && (forall e, env, i :: SoundMaskAt(nz, e, env, i))
    && (forall v: Bits :: nz(Const(v)) == v)
  }

  ghost predicate SoundMaskAt(nz: Masks, e: Expr, env: Env, i: int) {
    Sized(e) && BitAt(Eval(e, env), i) ==> BitAt(nz(e), i)
  }

  predicate Written(e: Expr) {
    match e
    case Const(_) => false
    case Original(_, _, w) => w
    case Opaque(_, _, w) => w
    case _ => true
  }

  // ----- following a field one step back -----

  /** A field, known by its number, or a hole when `isField` is false, followed through a node. */
  datatype State = State(node: Expr, field: BitRange, used: BitRange, isField: bool, signed: bool, orig: int, id: int)

  /** What is inserted: a constant, or a node shifted down. */
  datatype Insert = ConstInsert(bits: Bits, pos: int, num: int) | NodeInsert(vn: Expr, shift: int, pos: int, num: int)

  /** `NoLift`: the op is not followed. */
  datatype Outcome = Move(s: State) | Found(insert: Insert) | Matches | Fail | NoLift

  function ConstantValue(s: State, v: Bits): Outcome {
    if !s.isField || s.field.byteSize > 8 then Fail
    else Found(ConstInsert(FieldBits(s, v), s.orig, s.field.num))
  }

  /** The field's bits of a container value, extended to the container. */
  function FieldBits(s: State, v: Bits): Bits {
    var n := if s.field.num > 0 then s.field.num else 0;
    seq(if 8 * s.field.byteSize > n then 8 * s.field.byteSize else n, i requires 0 <= i =>
      if i < n then BitAt(v, s.field.lsb + i) else s.signed && n > 0 && BitAt(v, s.field.lsb + n - 1))
  }

  function ZeroOut(s: State): Outcome {
    if !s.isField then Fail else Found(ConstInsert([], s.orig, s.field.num))
  }

  function FieldWrite(s: State): Outcome {
    Found(NodeInsert(s.node, s.field.lsb, s.orig, s.field.num))
  }

  /**
   `(x & and) | or`, or `(x | or) & and`, when every field bit is cleared or set: the
   value recorded is `or & and`.
   */
  predicate Forced(s: State, and: Bits, or: Bits) {
    s.isField && forall i :: s.field.lsb <= i < s.field.lsb + s.field.num ==> !BitAt(and, i) || BitAt(or, i)
  }

  function AndOf(a: Bits, b: Bits): Bits {
    seq(|a|, i requires 0 <= i < |a| => a[i] && BitAt(b, i))
  }

  function AndBack(s: State, a: Expr, b: Expr): Outcome {
    if !b.Const? || s.field.byteSize > 8 then NoLift
    else if AllSet(b.bits, s.field) then Move(s.(node := a, used := IntersectMask(s.used, b.bits)))
    else if NoneSet(b.bits, s.field) then ZeroOut(s)
    else if a.Or? && a.b.Const? && Forced(s, b.bits, a.b.bits) then ConstantValue(s, AndOf(a.b.bits, b.bits))
    else NoLift
  }

  function OrBack(s: State, nz: Masks, a: Expr, b: Expr): Outcome {
    if s.field.byteSize > 8 then NoLift
    else
      var masked0, masked1 := NoneSet(nz(a), s.field), NoneSet(nz(b), s.field);
      if masked0 != masked1 then Move(s.(node := if masked0 then b else a))
      else if b.Const? && AllSet(nz(b), s.field) then Move(s.(node := b))
      else if b.Const? && a.And? && a.b.Const? && Forced(s, a.b.bits, b.bits) then ConstantValue(s, AndOf(b.bits, a.b.bits))
      else NoLift
  }

  function AddBack(s: State, nz: Masks, a: Expr, b: Expr): Outcome {
    if s.field.byteSize > 8 || (exists i :: 0 <= i < |nz(a)| && BitAt(nz(a), i) && BitAt(nz(b), i)) then NoLift
    else
      var masked0, masked1 := NoneSet(nz(a), s.field), NoneSet(nz(b), s.field);
      if masked0 == masked1 then NoLift else Move(s.(node := if masked0 then b else a))
  }

  /** Following a range moved by `amount`, as long as no bit of it is lost. */
  function Moved(s: State, a: Expr, amount: int): Outcome {
    var r := Shift(s.field, amount);
    if r.num == s.field.num then Move(s.(field := r, used := Shift(s.used, amount), node := a)) else NoLift
  }

  function LeftBack(s: State, a: Expr, b: Expr): Outcome {
    if !b.Const? || ToNat(b.bits) >= 64 then NoLift
    else
      var sa := ToNat(b.bits);
      if Shift(s.field, -(sa as int)).num == s.field.num then Moved(s, a, -(sa as int))
      else if Shift(s.field, -(sa as int)).num == 0 then ZeroOut(s)
      else NoLift
  }

  function RightBack(s: State, a: Expr, b: Expr): Outcome {
    if !b.Const? || ToNat(b.bits) >= 64 then NoLift else Moved(s, a, ToNat(b.bits))
  }

  function ZextBack(s: State, a: Expr, n: nat): Outcome {
    var r := TruncateMostSigBytes(s.field, n - Size(a));
    if r.num == s.field.num then Move(s.(field := r, used := TruncateMostSigBytes(s.used, n - Size(a)), node := a))
    else if s.field.num == 0 then ZeroOut(s)
    else NoLift
  }

  function MultBack(s: State, a: Expr, b: Expr): Outcome {
    if !b.Const? || OnlyBit(b.bits) < 0 then NoLift
    else
      var out := Moved(s, a, -OnlyBit(b.bits));
      if out.NoLift? && s.field.num == 0 then ZeroOut(s) else out
  }

  function SubpieceBack(s: State, a: Expr, off: nat): Outcome {
    var grow := Size(a) - Size(s.node);
    var r := Shift(ExtendBytes(s.field, grow), -(8 * off));
    if r.num == s.field.num then Move(s.(field := r, used := Shift(ExtendBytes(s.used, grow), -(8 * off)), node := a))
    else NoLift
  }

  function Lift(s: State, nz: Masks): Outcome {
    match s.node
    case Copy(a) => Move(s.(node := a))
    case Add(a, b) => AddBack(s, nz, a, b)
    case And(a, b) => AndBack(s, a, b)
    case Or(a, b) => OrBack(s, nz, a, b)
    case Left(a, b) => LeftBack(s, a, b)
    case SRight(a, b) => RightBack(s, a, b)
    case Zext(a, n) => ZextBack(s, a, n)
    case Mult(a, b) => MultBack(s, a, b)
    case Subpiece(a, off, _) => SubpieceBack(s, a, off)
    case _ => NoLift
  }

  /** When the op is not followed: what is known about zero bits decides. */
  function ByMask(s: State, nz: Masks): Outcome {
    if !s.isField || s.field.byteSize > 8 then Fail
    else if IntersectMask(s.field, nz(s.node)).num == 0 then ZeroOut(s)
    else if IntersectMask(s.field, nz(s.node)).num == IntersectMask(s.used, nz(s.node)).num then FieldWrite(s)
    else Fail
  }

  predicate Aligned(s: State) { s.field.lsb == 0 && s.field.num == s.used.num }

  /** One turn of the trace. */
  function Step(s: State, nz: Masks): Outcome {
    if s.node.Const? then ConstantValue(s, s.node.bits)
    else if s.node.Original? && s.field.lsb == s.orig then Matches
    else if s.isField && Aligned(s) then FieldWrite(s)
    else if !Written(s.node) then Fail
    else
      var out := Lift(s, nz);
      if out.NoLift? then ByMask(s, nz) else out
  }

  // ----- what a step keeps -----

  ghost predicate Ok(s: State) {
    Sized(s.node) && s.field.Inside() && s.field.byteSize == Size(s.node)
  }

  /** Bit `k` of the field followed. */
  ghost predicate FieldBit(s: State, env: Env, k: int)
    requires Sized(s.node)
  {
    BitAt(Eval(s.node, env), s.field.lsb + k)
  }

  ghost predicate SameAt(s: State, t: State, env: Env, k: int)
    requires Sized(s.node) && Sized(t.node)
  {
    0 <= k < s.field.num ==> (FieldBit(s, env, k) <==> FieldBit(t, env, k))
  }

  /** `t` holds the same field in another node. */
  ghost predicate Follows(s: State, t: State)
    requires Ok(s)
  {
    && Ok(t) && t.field.num == s.field.num && t.isField == s.isField && t.orig == s.orig
    && forall env, k :: SameAt(s, t, env, k)
  }

  ghost predicate InsertBit(ins: Insert, env: Env, k: int) {
    match ins
    case ConstInsert(v, _, _) => BitAt(v, k)
    case NodeInsert(vn, shift, _, _) => Sized(vn) && BitAt(Eval(vn, env), shift + k)
  }

  ghost predicate InsertAt(s: State, ins: Insert, env: Env, k: int)
    requires Sized(s.node)
  {
    0 <= k < s.field.num ==> (InsertBit(ins, env, k) <==> FieldBit(s, env, k))
  }

  /** The insert writes the field's bits at its place. */
  ghost predicate Writes(s: State, ins: Insert)
    requires Sized(s.node)
  {
    && ins.pos == s.orig && ins.num == s.field.num
    && forall env, k :: InsertAt(s, ins, env, k)
  }

  ghost predicate OriginalAt(s: State, env: Env, k: int)
    requires Sized(s.node)
  {
    0 <= k < s.field.num ==> (FieldBit(s, env, k) <==> env.orig(s.orig + k))
  }

  /** The field's bits are the original ones. */
  ghost predicate IsOriginal(s: State)
    requires Sized(s.node)
  {
    forall env, k :: OriginalAt(s, env, k)
  }

  ghost predicate Sound(s: State, out: Outcome)
    requires Ok(s)
  {
    match out
    case Move(t) => Follows(s, t)
    case Found(ins) => s.isField && Writes(s, ins)
    case Matches => IsOriginal(s)
    case Fail => true
    case NoLift => true
  }

  /** No field bit is cleared by `and` and set by `or`. */
  predicate NoClash(s: State, and: Bits, or: Bits) {
    forall i :: s.field.lsb <= i < s.field.lsb + s.field.num && BitAt(or, i) ==> BitAt(and, i)
  }

  /** The masks do not decide and the constant of `(x & and) | or` is recorded. */
  predicate TakesForced(s: State, nz: Masks, a: Expr, b: Expr) {
    && s.field.byteSize <= 8 && NoneSet(nz(a), s.field) == NoneSet(nz(b), s.field)
    && b.Const? && !AllSet(nz(b), s.field) && a.And? && a.b.Const? && Forced(s, a.b.bits, b.bits)
  }

  predicate LiftSafe(s: State, nz: Masks) {
    match s.node
    case Subpiece(a, off, _) => SubpieceBack(s, a, off).Move? ==> off == 0
    case Or(a, b) => TakesForced(s, nz, a, b) ==> NoClash(s, a.b.bits, b.bits)
    case _ => true
  }

  /**
   A turn does not trust too much: it does not take bytes that are not the low ones for
   the original, record a constant with a clash, or move through a SUBPIECE with an offset.
   */
  predicate Safe(s: State, nz: Masks) {
    if s.node.Original? && s.field.lsb == s.orig then s.node.at == 0
    else (s.isField && Aligned(s)) || LiftSafe(s, nz)
  }

  lemma FieldBitsAt(s: State, v: Bits, k: int)
    requires 0 <= k < s.field.num
    ensures BitAt(FieldBits(s, v), k) == BitAt(v, s.field.lsb + k)
  {
  }

  lemma ConstantRight(s: State, v: Bits)
    requires Ok(s) && forall env, k :: 0 <= k < s.field.num ==> (BitAt(v, s.field.lsb + k) <==> FieldBit(s, env, k))
    ensures Sound(s, ConstantValue(s, v))
  {
    if s.isField && s.field.byteSize <= 8 {
      var ins := ConstInsert(FieldBits(s, v), s.orig, s.field.num);
      forall env, k ensures InsertAt(s, ins, env, k) {
        if 0 <= k < s.field.num { FieldBitsAt(s, v, k); }
      }
    }
  }

  lemma ZeroRight(s: State)
    requires Ok(s) && forall env, k :: 0 <= k < s.field.num ==> !FieldBit(s, env, k)
    ensures Sound(s, ZeroOut(s))
  {
  }

  lemma FieldWriteRight(s: State)
    requires Ok(s) && s.isField
    ensures Sound(s, FieldWrite(s))
  {
  }

  lemma ShiftKeeps(b: BitRange, amount: int)
    requires b.Inside() && Shift(b, amount).num == b.num
    ensures Shift(b, amount) == b.(lsb := b.lsb + amount) && Shift(b, amount).Inside()
  {
  }

  lemma AndRight(s: State, a: Expr, b: Expr)
    requires Ok(s) && s.node == And(a, b)
    ensures Sound(s, AndBack(s, a, b))
  {
    if b.Const? && s.field.byteSize <= 8 {
      if AllSet(b.bits, s.field) {
        AndKeptRight(s, a, b);
      } else if NoneSet(b.bits, s.field) {
        forall env, k | 0 <= k < s.field.num ensures !FieldBit(s, env, k) { AndBit(a, b, env, s.field.lsb + k); }
        ZeroRight(s);
      } else if a.Or? && a.b.Const? && Forced(s, b.bits, a.b.bits) {
        AndForcedRight(s, a, b);
      }
    }
  }

  lemma AndKeptRight(s: State, a: Expr, b: Expr)
    requires Ok(s) && s.node == And(a, b) && b.Const? && AllSet(b.bits, s.field)
    ensures Follows(s, s.(node := a, used := IntersectMask(s.used, b.bits)))
  {
    var t := s.(node := a, used := IntersectMask(s.used, b.bits));
    forall env, k ensures SameAt(s, t, env, k) { AndBit(a, b, env, s.field.lsb + k); }
  }

  lemma AndForcedRight(s: State, a: Expr, b: Expr)
    requires Ok(s) && s.node == And(a, b) && b.Const? && a.Or? && a.b.Const? && Forced(s, b.bits, a.b.bits)
    ensures Sound(s, ConstantValue(s, AndOf(a.b.bits, b.bits)))
  {
    var v := AndOf(a.b.bits, b.bits);
    forall env, k | 0 <= k < s.field.num ensures BitAt(v, s.field.lsb + k) <==> FieldBit(s, env, k) {
      AndBit(a, b, env, s.field.lsb + k);
      OrBit(a.a, a.b, env, s.field.lsb + k);
    }
    ConstantRight(s, v);
  }

  lemma AndBit(a: Expr, b: Expr, env: Env, i: int)
    requires Sized(And(a, b))
    ensures BitAt(Eval(And(a, b), env), i) <==> BitAt(Eval(a, env), i) && BitAt(Eval(b, env), i)
  {
  }

  lemma OrBit(a: Expr, b: Expr, env: Env, i: int)
    requires Sized(Or(a, b))
    ensures BitAt(Eval(Or(a, b), env), i) <==> BitAt(Eval(a, env), i) || BitAt(Eval(b, env), i)
  {
  }

  /** A masked operand has no bit in the field. */
  lemma MaskedIsZero(nz: Masks, e: Expr, s: State, env: Env, k: int)
    requires SoundMasks(nz) && Sized(e) && NoneSet(nz(e), s.field) && 0 <= k < s.field.num
    ensures !BitAt(Eval(e, env), s.field.lsb + k)
  {
    assert SoundMaskAt(nz, e, env, s.field.lsb + k);
  }

  lemma OrRight(s: State, nz: Masks, a: Expr, b: Expr)
    requires Ok(s) && SoundMasks(nz) && s.node == Or(a, b) && LiftSafe(s, nz)
    ensures Sound(s, OrBack(s, nz, a, b))
  {
    if s.field.byteSize <= 8 {
      var masked0, masked1 := NoneSet(nz(a), s.field), NoneSet(nz(b), s.field);
      if masked0 != masked1 {
        OneSided(s, nz, a, b, masked0);
      } else if b.Const? && AllSet(nz(b), s.field) {
        var t := s.(node := b);
        forall env, k ensures SameAt(s, t, env, k) { OrBit(a, b, env, s.field.lsb + k); }
      } else if b.Const? && a.And? && a.b.Const? && Forced(s, a.b.bits, b.bits) {
        ForcedRight(s, a, b);
      }
    }
  }

  /** When one operand has no bit in the field, the field is the other's. */
  lemma OneSided(s: State, nz: Masks, a: Expr, b: Expr, first: bool)
    requires Ok(s) && SoundMasks(nz) && s.node == Or(a, b) && NoneSet(nz(if first then a else b), s.field)
    ensures Sound(s, Move(s.(node := if first then b else a)))
  {
    var t := s.(node := if first then b else a);
    forall env, k ensures SameAt(s, t, env, k) { OneSidedAt(s, nz, a, b, first, env, k); }
  }

  lemma OneSidedAt(s: State, nz: Masks, a: Expr, b: Expr, first: bool, env: Env, k: int)
    requires Ok(s) && SoundMasks(nz) && s.node == Or(a, b) && NoneSet(nz(if first then a else b), s.field)
    ensures SameAt(s, s.(node := if first then b else a), env, k)
  {
    OrBit(a, b, env, s.field.lsb + k);
    if 0 <= k < s.field.num { MaskedIsZero(nz, if first then a else b, s, env, k); }
  }

  lemma ForcedRight(s: State, a: Expr, b: Expr)
    requires Ok(s) && s.node == Or(a, b) && b.Const? && a.And? && a.b.Const? && Forced(s, a.b.bits, b.bits)
    requires NoClash(s, a.b.bits, b.bits)
    ensures Sound(s, ConstantValue(s, AndOf(b.bits, a.b.bits)))
  {
    var v := AndOf(b.bits, a.b.bits);
    forall env, k | 0 <= k < s.field.num ensures BitAt(v, s.field.lsb + k) <==> FieldBit(s, env, k) {
      OrBit(a, b, env, s.field.lsb + k);
      AndBit(a.a, a.b, env, s.field.lsb + k);
    }
    ConstantRight(s, v);
  }

  lemma AddBit(nz: Masks, a: Expr, b: Expr, env: Env, i: int)
    requires SoundMasks(nz) && Sized(Add(a, b))
    requires !exists i :: 0 <= i < |nz(a)| && BitAt(nz(a), i) && BitAt(nz(b), i)
    ensures BitAt(Eval(Add(a, b), env), i) <==> BitAt(Eval(a, env), i) || BitAt(Eval(b, env), i)
  {
    var x, y := Eval(a, env), Eval(b, env);
    forall j | 0 <= j < |x| ensures !(x[j] && BitAt(y, j)) {
      assert SoundMaskAt(nz, a, env, j) && SoundMaskAt(nz, b, env, j);
    }
    AddIsOr(x, y);
  }

  lemma AddRight(s: State, nz: Masks, a: Expr, b: Expr)
    requires Ok(s) && SoundMasks(nz) && s.node == Add(a, b)
    ensures Sound(s, AddBack(s, nz, a, b))
  {
    var out := AddBack(s, nz, a, b);
    if out.Move? {
      var masked0 := NoneSet(nz(a), s.field);
      forall env, k ensures SameAt(s, out.s, env, k) {
        AddBit(nz, a, b, env, s.field.lsb + k);
        if 0 <= k < s.field.num { MaskedIsZero(nz, if masked0 then a else b, s, env, k); }
      }
    }
  }

  /** Following an expression whose bit `i` is its operand's bit `i + amount`. */
  lemma MovedRight(s: State, a: Expr, amount: int)
    requires Ok(s) && Sized(a) && Size(a) == Size(s.node)
    requires forall env, i :: ShiftedAt(s.node, a, env, i, amount)
    ensures Sound(s, Moved(s, a, amount))
  {
    var out := Moved(s, a, amount);
    if out.Move? {
      ShiftKeeps(s.field, amount);
      forall env, k ensures SameAt(s, out.s, env, k) { assert ShiftedAt(s.node, a, env, s.field.lsb + k, amount); }
    }
  }

  ghost predicate ShiftedAt(e: Expr, a: Expr, env: Env, i: int, amount: int)
    requires Sized(e) && Sized(a)
  {
    0 <= i < 8 * Size(e) && 0 <= i + amount < 8 * Size(a) ==> (BitAt(Eval(e, env), i) <==> BitAt(Eval(a, env), i + amount))
  }

  lemma LeftRight(s: State, a: Expr, b: Expr)
    requires Ok(s) && s.node == Left(a, b)
    ensures Sound(s, LeftBack(s, a, b))
  {
    if b.Const? && ToNat(b.bits) < 64 {
      var sa: int := ToNat(b.bits);
      var down := -sa;
      forall env, i ensures ShiftedAt(s.node, a, env, i, down) { LeftMoves(a, b, env, i); }
      MovedRight(s, a, down);
      if Shift(s.field, down).num == 0 {
        assert s.field.lsb + s.field.num <= sa;
        forall env, k | 0 <= k < s.field.num ensures !FieldBit(s, env, k) { LeftBit(a, b, env, s.field.lsb + k); }
        ZeroRight(s);
      }
    }
  }

  lemma LeftBit(a: Expr, b: Expr, env: Env, i: int)
    requires Sized(Left(a, b)) && b.Const?
    ensures BitAt(Eval(Left(a, b), env), i) ==> i >= ToNat(b.bits)
  {
    assert Eval(b, env) == b.bits;
  }

  lemma LeftMoves(a: Expr, b: Expr, env: Env, i: int)
    requires Sized(Left(a, b)) && b.Const?
    ensures ShiftedAt(Left(a, b), a, env, i, 0 - (ToNat(b.bits) as int))
  {
    assert Eval(b, env) == b.bits;
  }

  lemma SRightRight(s: State, a: Expr, b: Expr)
    requires Ok(s) && s.node == SRight(a, b)
    ensures Sound(s, RightBack(s, a, b))
  {
    if b.Const? && ToNat(b.bits) < 64 {
      var sa := ToNat(b.bits);
      forall env, i ensures ShiftedAt(s.node, a, env, i, sa) {
      }
      MovedRight(s, a, sa);
    }
  }

  lemma MultRight(s: State, a: Expr, b: Expr)
    requires Ok(s) && s.node == Mult(a, b)
    ensures Sound(s, MultBack(s, a, b))
  {
    if b.Const? && OnlyBit(b.bits) >= 0 {
      var sa := OnlyBit(b.bits);
      var down := -sa;
      forall env, i ensures ShiftedAt(s.node, a, env, i, down) { MultBit(a, b, env, i, sa); }
      MovedRight(s, a, down);
    }
  }

  lemma MultBit(a: Expr, b: Expr, env: Env, i: int, sa: nat)
    requires Sized(Mult(a, b)) && b.Const? && ToNat(b.bits) == Pow2(sa)
    ensures ShiftedAt(Mult(a, b), a, env, i, 0 - (sa as int))
  {
    MultIsShift(Eval(a, env), sa);
  }

  lemma ZextRight(s: State, a: Expr, n: nat)
    requires Ok(s) && s.node == Zext(a, n)
    ensures Sound(s, ZextBack(s, a, n))
  {
    var out := ZextBack(s, a, n);
    if out.Move? {
      forall env, k ensures SameAt(s, out.s, env, k) { ZextBit(a, n, env, s.field.lsb + k); }
    }
  }

  lemma ZextBit(a: Expr, n: nat, env: Env, i: int)
    requires Sized(Zext(a, n))
    ensures BitAt(Eval(Zext(a, n), env), i) == BitAt(Eval(a, env), i)
  {
  }

  lemma SubpieceRight(s: State, a: Expr, off: nat)
    requires Ok(s) && s.node == Subpiece(a, off, Size(s.node)) && (SubpieceBack(s, a, off).Move? ==> off == 0)
    ensures Sound(s, SubpieceBack(s, a, off))
  {
    var out := SubpieceBack(s, a, off);
    if out.Move? {
      forall env, k ensures SameAt(s, out.s, env, k) {
      }
    }
  }

  lemma ByMaskRight(s: State, nz: Masks)
    requires Ok(s) && SoundMasks(nz)
    ensures Sound(s, ByMask(s, nz))
  {
    if s.isField && s.field.byteSize <= 8 {
      if IntersectMask(s.field, nz(s.node)).num == 0 {
        forall env, k | 0 <= k < s.field.num ensures !FieldBit(s, env, k) { MaskedIsZero(nz, s.node, s, env, k); }
        ZeroRight(s);
      }
      FieldWriteRight(s);
    }
  }

  lemma LiftRight(s: State, nz: Masks)
    requires Ok(s) && SoundMasks(nz) && LiftSafe(s, nz)
    ensures Sound(s, Lift(s, nz))
  {
    match s.node
    case Copy(a) =>
    case Add(a, b) => AddRight(s, nz, a, b);
    case And(a, b) => AndRight(s, a, b);
    case Or(a, b) => OrRight(s, nz, a, b);
    case Left(a, b) => LeftRight(s, a, b);
    case SRight(a, b) => SRightRight(s, a, b);
    case Zext(a, n) => ZextRight(s, a, n);
    case Mult(a, b) => MultRight(s, a, b);
    case Subpiece(a, off, _) => SubpieceRight(s, a, off);
    case _ =>
  }

  /** Every turn of the trace keeps the field's bits, whatever the variables hold. */
  lemma StepRight(s: State, nz: Masks)
    requires Ok(s) && SoundMasks(nz) && Safe(s, nz)
    ensures Sound(s, Step(s, nz))
  {
    if s.node.Const? {
      ConstantRight(s, s.node.bits);
    } else if s.node.Original? && s.field.lsb == s.orig {
      forall env, k ensures OriginalAt(s, env, k) {
      }
    } else if s.isField && Aligned(s) {
      FieldWriteRight(s);
    } else if Written(s.node) {
      LiftRight(s, nz);
      ByMaskRight(s, nz);
    }
  }

  /**
   Unlike a shift, an extension or a product is not seen to fill the field with zeros:
   the test looks at the width before the move, which is never 0.
   */
  lemma ZerosAreMissed(s: State, nz: Masks, sa: Bits)
    requires Ok(s) && (s.node.Zext? || s.node.Mult?)
    requires s.node.Zext? ==> TruncateMostSigBytes(s.field, s.node.size - Size(s.node.a)).num == 0
    requires s.node.Mult? ==> s.node.b.Const? && OnlyBit(s.node.b.bits) >= 0 && Shift(s.field, -OnlyBit(s.node.b.bits)).num == 0
    ensures Lift(s, nz) == NoLift
    ensures s.node.Mult? && ToNat(sa) == OnlyBit(s.node.b.bits) < 64 ==> Lift(s.(node := Left(s.node.a, Const(sa))), nz) == ZeroOut(s)
  {
  }

  // ----- exactly when the trusting steps are right -----

  /**
   Which bit of a container's old value is the lowest of `size` bytes read at the
   container's own address: big-endian, fewer bytes are the high ones.
   */
  function LowestRead(size: nat, container: nat, big: bool): int {
    if big then 8 * (container - size) else 0
  }

  /**
   The old value is recognized by its address alone.  Taking what is read there for the
   container's low bits is right exactly when it is as wide as the container, or
   little-endian.
   */
  lemma OriginalExact(s: State, size: nat, container: nat, big: bool, w: bool)
    requires Ok(s) && s.node == Original(size, LowestRead(size, container, big), w) && s.field.lsb == s.orig
    ensures Sound(s, Matches) <==> size == container || !big
  {
    var at := LowestRead(size, container, big);
    if at == 0 {
      forall env, k ensures OriginalAt(s, env, k) {
      }
    } else {
      var env := Env(j => j == s.orig, (id, j) => false);
      assert !FieldBit(s, env, 0);
      assert !OriginalAt(s, env, 0);
    }
  }

  /** For `(x & and) | or` the recorded constant is right exactly when no field bit is both cleared and set. */
  lemma ForcedExact(s: State, a: Expr, b: Expr)
    requires Ok(s) && s.node == Or(a, b) && b.Const? && a.And? && a.b.Const? && Forced(s, a.b.bits, b.bits)
    requires s.field.byteSize <= 8
    ensures Sound(s, ConstantValue(s, AndOf(b.bits, a.b.bits))) <==> NoClash(s, a.b.bits, b.bits)
  {
    if NoClash(s, a.b.bits, b.bits) {
      ForcedRight(s, a, b);
    } else {
      var i :| s.field.lsb <= i < s.field.lsb + s.field.num && BitAt(b.bits, i) && !BitAt(a.b.bits, i);
      ClashIsWrong(s, a, b, i - s.field.lsb);
    }
  }

  lemma ClashIsWrong(s: State, a: Expr, b: Expr, k: int)
    requires Ok(s) && s.node == Or(a, b) && b.Const? && a.And? && a.b.Const? && s.isField && s.field.byteSize <= 8
    requires 0 <= k < s.field.num && BitAt(b.bits, s.field.lsb + k) && !BitAt(a.b.bits, s.field.lsb + k)
    ensures !Sound(s, ConstantValue(s, AndOf(b.bits, a.b.bits)))
  {
    var env := Env(j => false, (id, j) => false);
    OrBit(a, b, env, s.field.lsb + k);
    var ins := ConstantValue(s, AndOf(b.bits, a.b.bits)).insert;
    FieldBitsAt(s, AndOf(b.bits, a.b.bits), k);
    assert !InsertAt(s, ins, env, k);
  }

  /** Through a SUBPIECE of an opaque value the range followed is right exactly at byte offset 0. */
  lemma SubpieceExact(s: State, id: nat, n: nat, w: bool, off: nat)
    requires Ok(s) && s.node == Subpiece(Opaque(id, n, w), off, Size(s.node))
    requires SubpieceBack(s, Opaque(id, n, w), off).Move?
    ensures Sound(s, SubpieceBack(s, Opaque(id, n, w), off)) <==> off == 0
  {
    var a := Opaque(id, n, w);
    if off == 0 {
      SubpieceRight(s, a, off);
    } else {
      var t := SubpieceBack(s, a, off).s;
      var at := 8 * off + s.field.lsb;
      var env := Env(j => false, (id, j) => j == at);
      assert s.field.lsb < 8 * Size(s.node) && at < 8 * n;
      assert BitAt(Eval(a, env), at) && !BitAt(Eval(a, env), t.field.lsb);
      assert Eval(s.node, env)[s.field.lsb] == BitAt(Eval(a, env), 8 * off + s.field.lsb);
      assert !SameAt(s, t, env, 0);
    }
  }

  /** A turn that is not `Safe` is wrong, but for a SUBPIECE of a value of which something is known. */
  lemma UnsafeIsWrong(s: State, nz: Masks)
    requires Ok(s) && SoundMasks(nz) && !Safe(s, nz) && (s.node.Subpiece? ==> s.node.a.Opaque?)
    ensures !Sound(s, Step(s, nz))
  {
    match s.node
    case Original(size, at, w) =>
      var env := Env(j => j == s.orig, (id, j) => false);
      assert !OriginalAt(s, env, 0);
    case Subpiece(a, off, _) => SubpieceExact(s, a.id, a.size, a.written, off);
    case Or(a, b) => ForcedExact(s, a, b);
    case _ =>
  }

  // ----- the whole trace -----

  lemma StepDescends(s: State, nz: Masks)
    requires Step(s, nz).Move?
    ensures Step(s, nz).s.node < s.node
  {
    LiftDescends(s, nz);
  }

  lemma LiftDescends(s: State, nz: Masks)
    requires Lift(s, nz).Move?
    ensures Lift(s, nz).s.node < s.node
  {
  }

  /** Follows a field back to what was written. */
  function Trace(s: State, nz: Masks): Outcome
    decreases s.node
  {
    var out := Step(s, nz);
    if out.Move? then
      StepDescends(s, nz);
      Trace(out.s, nz)
    else out
  }

  /** Every turn of the trace is a safe one. */
  predicate TraceSafe(s: State, nz: Masks)
    decreases s.node
  {
    && Safe(s, nz)
    && var out := Step(s, nz);
       if out.Move? then
         StepDescends(s, nz);
         TraceSafe(out.s, nz)
       else true
  }

  predicate Accepted(out: Outcome) { out.Found? || out.Matches? }

  function Recorded(out: Outcome): seq<Insert> { if out.Found? then [out.insert] else [] }

  lemma {:induction false} TraceRight(s: State, nz: Masks)
    requires Ok(s) && SoundMasks(nz) && TraceSafe(s, nz)
    ensures Sound(s, Trace(s, nz)) && !Trace(s, nz).Move?
    decreases s.node
  {
    StepRight(s, nz);
    var out := Step(s, nz);
    if out.Move? {
      StepDescends(s, nz);
      TraceRight(out.s, nz);
      RightBefore(s, out.s, Trace(out.s, nz));
    }
  }

  /** What is right of a later state is right of the earlier one. */
  lemma RightBefore(s: State, t: State, out: Outcome)
    requires Ok(s) && Follows(s, t) && Sound(t, out) && !out.Move?
    ensures Sound(s, out)
  {
    match out
    case Found(ins) =>
      forall env, k ensures InsertAt(s, ins, env, k) { assert SameAt(s, t, env, k) && InsertAt(t, ins, env, k); }
    case Matches =>
      forall env, k ensures OriginalAt(s, env, k) { assert SameAt(s, t, env, k) && OriginalAt(t, env, k); }
    case _ =>
  }

  /** Follows a field back, recording an INSERT if there is one. */
  method ProcessBackward(start: State, nz: Masks) returns (accepted: bool, inserts: seq<Insert>)
    ensures accepted == Accepted(Trace(start, nz)) && (accepted ==> inserts == Recorded(Trace(start, nz)))
  {
    var s := start;
    var out := Step(s, nz);
    while out.Move?
      invariant out == Step(s, nz) && Trace(s, nz) == Trace(start, nz)
      decreases s.node
    {
      StepDescends(s, nz);
      s := out.s;
      out := Step(s, nz);
    }
    return Accepted(out), Recorded(out);
  }

  // ----- fields and holes of a container -----

  /** The least significant bit of `o` in the frame of `b`. */
  function TranslateLsb(b: BitRange, o: BitRange): int {
    o.lsb + (if b.big then 8 * (b.byteOffset + b.byteSize - (o.byteOffset + o.byteSize)) else 8 * (o.byteOffset - b.byteOffset))
  }

  function OverlapTest(b: BitRange, o: BitRange): int {
    var sig := TranslateLsb(b, o);
    var most, thisMost := sig + o.num, b.lsb + b.num;
    if b.big && b.lsb >= most then -1
    else if b.big && sig >= thisMost then 1
    else if !b.big && thisMost <= sig then -1
    else if !b.big && most <= b.lsb then 1
    else if b.lsb == sig && thisMost == most then 0
    else if sig <= b.lsb && most >= thisMost then 2
    else if b.lsb <= sig && thisMost >= most then 3
    else 4
  }

  /** A bitfield of the structure and its number among those collected. */
  datatype Field = Field(bits: BitRange, signed: bool, id: nat)

  function Container(e: Expr, offset: int, big: bool): BitRange {
    BitRange(offset, Size(e), 0, 8 * Size(e), big)
  }

  function FieldState(e: Expr, c: BitRange, f: Field): State {
    var r := BitRange(c.byteOffset, c.byteSize, TranslateLsb(c, f.bits), f.bits.num, f.bits.big);
    State(e, r, c, true, f.signed, r.lsb, f.id)
  }

  function HoleState(e: Expr, c: BitRange, lsb: int, num: int): State {
    State(e, c.(lsb := lsb, num := num), c, false, false, lsb, -1)
  }

  /** The fields overlap the container, disjoint and from the least significant up. */
  ghost predicate Ordered(c: BitRange, fields: seq<Field>) {
    && (forall i :: 0 <= i < |fields| ==> OverlapsAt(c, fields[i]))
    && (forall i, j :: 0 <= i < j < |fields| ==> BelowAt(c, fields[i], fields[j]))
  }

  ghost predicate OverlapsAt(c: BitRange, f: Field) {
    && f.bits.num > 0 && f.bits.big == c.big
    && TranslateLsb(c, f.bits) < c.num && TranslateLsb(c, f.bits) + f.bits.num > 0
  }

  ghost predicate BelowAt(c: BitRange, f: Field, g: Field) {
    TranslateLsb(c, f.bits) + f.bits.num <= TranslateLsb(c, g.bits)
  }

  /** Each state's range begins where the one before ended, from bit 0. */
  ghost predicate Chained(e: Expr, work: seq<State>) {
    forall i :: 0 <= i < |work| ==> TileAt(e, work[i]) && work[i].field.lsb == EndOf(work[..i])
  }

  /** The ranges of the states tile the bits from 0 up to `end`. */
  ghost predicate Tiles(e: Expr, work: seq<State>, end: int) {
    Chained(e, work) && EndOf(work) == end
  }

  ghost predicate TileAt(e: Expr, s: State) {
    s.node == e && s.orig == s.field.lsb && Ok(s)
  }

  function EndOf(work: seq<State>): int {
    if work == [] then 0 else work[|work| - 1].field.lsb + work[|work| - 1].field.num
  }

  lemma ChainedMore(e: Expr, work: seq<State>, s: State)
    ensures Chained(e, work + [s]) <==> Chained(e, work) && TileAt(e, s) && s.field.lsb == EndOf(work)
    ensures EndOf(work + [s]) == s.field.lsb + s.field.num
  {
    var more := work + [s];
    forall i | 0 <= i < |work| ensures more[i] == work[i] && more[..i] == work[..i] {
    }
    assert more[|work|] == s && more[..|work|] == work;
    if Chained(e, more) {
      forall i | 0 <= i < |work| ensures TileAt(e, work[i]) && work[i].field.lsb == EndOf(work[..i]) {
        assert TileAt(e, more[i]);
      }
      assert TileAt(e, more[|work|]);
    }
  }

  predicate Contained(c: BitRange, f: Field) { OverlapTest(c, f.bits) == 0 || OverlapTest(c, f.bits) == 3 }

  lemma ContainedMeans(c: BitRange, f: Field)
    requires c.lsb == 0 && c.num > 0 && f.bits.num > 0
    ensures Contained(c, f) <==> 0 <= TranslateLsb(c, f.bits) && TranslateLsb(c, f.bits) + f.bits.num <= c.num
  {
  }

  /** The fields queued: where, how wide, and which. */
  function FieldsOf(work: seq<State>): seq<(int, int, int)> {
    if work == [] then []
    else
      var s := work[|work| - 1];
      FieldsOf(work[..|work| - 1]) + if s.isField then [(s.field.lsb, s.field.num, s.id)] else []
  }

  function ContainedFields(c: BitRange, fields: seq<Field>): seq<(int, int, int)> {
    if fields == [] then []
    else
      var f := fields[|fields| - 1];
      ContainedFields(c, fields[..|fields| - 1]) + if Contained(c, f) then [(TranslateLsb(c, f.bits), f.bits.num, f.id)] else []
  }

  lemma FieldsOfMore(work: seq<State>, s: State)
    ensures FieldsOf(work + [s]) == FieldsOf(work) + if s.isField then [(s.field.lsb, s.field.num, s.id)] else []
  {
    assert (work + [s])[..|work|] == work;
  }

  function Min(x: int, y: int): int { if x < y then x else y }

  function Max(x: int, y: int): int { if x < y then y else x }

  /** A hole for the bits from `pos` up to `to`, if there are any. */
  function WithHole(e: Expr, c: BitRange, work: seq<State>, pos: int, to: int): seq<State> {
    if pos < to then work + [HoleState(e, c, pos, to - pos)] else work
  }

  /** The field, or a hole for what of it lies in the container. */
  function OneState(e: Expr, c: BitRange, f: Field, pos: int): State {
    if Contained(c, f) then FieldState(e, c, f)
    else HoleState(e, c, pos, Min(TranslateLsb(c, f.bits) + f.bits.num, c.num) - pos)
  }

  /** What is queued for the fields, and the bit reached. */
  function Queue(e: Expr, c: BitRange, fields: seq<Field>): (seq<State>, int) {
    if fields == [] then ([], 0)
    else
      var f := fields[|fields| - 1];
      var (work, pos) := Queue(e, c, fields[..|fields| - 1]);
      var from := Min(TranslateLsb(c, f.bits), c.num);
      (WithHole(e, c, work, pos, from) + [OneState(e, c, f, Max(pos, from))], Min(TranslateLsb(c, f.bits) + f.bits.num, c.num))
  }

  lemma QueueMore(e: Expr, c: BitRange, fields: seq<Field>, i: nat)
    requires i < |fields|
    ensures var (work, pos) := Queue(e, c, fields[..i]);
      var lo := TranslateLsb(c, fields[i].bits);
      var from := Min(lo, c.num);
      Queue(e, c, fields[..i + 1])
        == (WithHole(e, c, work, pos, from) + [OneState(e, c, fields[i], Max(pos, from))], Min(lo + fields[i].bits.num, c.num))
  {
    assert fields[..i + 1][..i] == fields[..i];
  }

  function Established(e: Expr, c: BitRange, fields: seq<Field>): seq<State> {
    var (work, pos) := Queue(e, c, fields);
    WithHole(e, c, work, pos, c.num)
  }

  // ----- when the states tile the container -----

  /** Where the field before the `i`-th ends in the container. */
  function EndBefore(c: BitRange, fields: seq<Field>, i: nat): int
    requires i <= |fields|
  {
    if i == 0 then 0 else Min(TranslateLsb(c, fields[i - 1].bits) + fields[i - 1].bits.num, c.num)
  }

  /** A contained field begins no earlier than the one before ended; any other reaches past that. */
  predicate PlaceableAt(c: BitRange, fields: seq<Field>, i: nat)
    requires i < |fields|
  {
    var lo, hi, pos := TranslateLsb(c, fields[i].bits), TranslateLsb(c, fields[i].bits) + fields[i].bits.num, EndBefore(c, fields, i);
    if Contained(c, fields[i]) then pos <= lo else Max(pos, Min(lo, c.num)) < Min(hi, c.num)
  }

  predicate Placeable(c: BitRange, fields: seq<Field>) {
    forall i: nat :: i < |fields| ==> PlaceableAt(c, fields, i)
  }

  /** Bitfields have bits. */
  ghost predicate Sane(fields: seq<Field>) {
    forall i :: 0 <= i < |fields| ==> fields[i].bits.num > 0
  }

  ghost predicate WholeOf(c: BitRange, e: Expr) {
    Sized(e) && Size(e) > 0 && c.lsb == 0 && c.num == 8 * Size(e) && c.byteSize == Size(e)
  }

  lemma HoleChains(e: Expr, c: BitRange, work: seq<State>, pos: int, to: int)
    requires WholeOf(c, e) && EndOf(work) == pos && to <= c.num
    ensures var more := WithHole(e, c, work, pos, to);
      && (Chained(e, more) <==> Chained(e, work)) && EndOf(more) == Max(pos, to) && FieldsOf(more) == FieldsOf(work)
  {
    if pos < to {
      var hole := HoleState(e, c, pos, to - pos);
      ChainedMore(e, work, hole);
      FieldsOfMore(work, hole);
      if Chained(e, work) {
        ChainedEnds(e, work);
        HoleIsTile(e, c, pos, to);
      }
    }
  }

  lemma HoleIsTile(e: Expr, c: BitRange, pos: int, to: int)
    requires WholeOf(c, e) && 0 <= pos < to <= c.num
    ensures TileAt(e, HoleState(e, c, pos, to - pos))
  {
  }

  lemma ChainedEnds(e: Expr, work: seq<State>)
    requires Chained(e, work)
    ensures EndOf(work) >= 0
  {
    if work != [] { assert TileAt(e, work[|work| - 1]); }
  }

  lemma StateChains(e: Expr, c: BitRange, work: seq<State>, f: Field)
    requires WholeOf(c, e) && f.bits.num > 0 && Min(TranslateLsb(c, f.bits), c.num) <= EndOf(work)
    ensures var lo, hi, pos := TranslateLsb(c, f.bits), TranslateLsb(c, f.bits) + f.bits.num, EndOf(work);
      var more := work + [OneState(e, c, f, pos)];
      && (Chained(e, more) <==> Chained(e, work) && if Contained(c, f) then pos == lo else pos < Min(hi, c.num))
      && EndOf(more) == Min(hi, c.num)
      && FieldsOf(more) == FieldsOf(work) + if Contained(c, f) then [(lo, f.bits.num, f.id)] else []
  {
    var s := OneState(e, c, f, EndOf(work));
    ContainedMeans(c, f);
    ChainedMore(e, work, s);
    FieldsOfMore(work, s);
    if Chained(e, work) { ChainedEnds(e, work); }
  }

  lemma {:induction false} QueueTiles(e: Expr, c: BitRange, fields: seq<Field>)
    requires WholeOf(c, e) && Sane(fields)
    ensures var (work, pos) := Queue(e, c, fields);
      && EndOf(work) == pos == EndBefore(c, fields, |fields|) <= c.num
      && FieldsOf(work) == ContainedFields(c, fields)
      && (Chained(e, work) <==> Placeable(c, fields))
  {
    if fields != [] {
      var n := |fields| - 1;
      var init, f := fields[..n], fields[n];
      QueueTiles(e, c, init);
      var (work, pos) := Queue(e, c, init);
      var from := Min(TranslateLsb(c, f.bits), c.num);
      HoleChains(e, c, work, pos, from);
      StateChains(e, c, WithHole(e, c, work, pos, from), f);
      PlaceableMore(c, fields);
      assert EndBefore(c, fields, n) == EndBefore(c, init, n);
    }
  }

  lemma PlaceableMore(c: BitRange, fields: seq<Field>)
    requires fields != []
    ensures var n := |fields| - 1;
      Placeable(c, fields) <==> Placeable(c, fields[..n]) && PlaceableAt(c, fields, n)
  {
    var n := |fields| - 1;
    var init := fields[..n];
    forall i: nat | i < n ensures PlaceableAt(c, init, i) <==> PlaceableAt(c, fields, i) {
    }
    if Placeable(c, fields) {
      forall i: nat | i < n ensures PlaceableAt(c, init, i) { assert PlaceableAt(c, fields, i); }
    }
    if Placeable(c, init) && PlaceableAt(c, fields, n) {
      forall i: nat | i < |fields| ensures PlaceableAt(c, fields, i) { if i < n { assert PlaceableAt(c, init, i); } }
    }
  }

  /**
   Fields and holes tile the container exactly when every contained field begins no
   earlier than the field before it ended, and every other one reaches past that.
   */
  lemma EstablishedTiles(e: Expr, c: BitRange, fields: seq<Field>)
    requires WholeOf(c, e) && Sane(fields)
    ensures Tiles(e, Established(e, c, fields), 8 * Size(e)) <==> Placeable(c, fields)
    ensures FieldsOf(Established(e, c, fields)) == ContainedFields(c, fields)
  {
    var (work, pos) := Queue(e, c, fields);
    QueueTiles(e, c, fields);
    HoleChains(e, c, work, pos, c.num);
  }

  /** Fields that overlap the container, each below the next, can be placed. */
  lemma OrderedIsPlaceable(c: BitRange, fields: seq<Field>)
    requires c.lsb == 0 && c.num > 0 && Ordered(c, fields)
    ensures Placeable(c, fields) && Sane(fields)
  {
    forall i: nat | i < |fields| ensures PlaceableAt(c, fields, i) {
      assert OverlapsAt(c, fields[i]);
      ContainedMeans(c, fields[i]);
      if i > 0 { assert OverlapsAt(c, fields[i - 1]) && BelowAt(c, fields[i - 1], fields[i]); }
    }
    forall i | 0 <= i < |fields| ensures fields[i].bits.num > 0 { assert OverlapsAt(c, fields[i]); }
  }

  /** One turn of the loop: the hole before the field, and the field. */
  method QueueField(e: Expr, c: BitRange, f: Field, work: seq<State>, pos: int) returns (more: seq<State>, end: int)
    ensures var from := Min(TranslateLsb(c, f.bits), c.num);
      more == WithHole(e, c, work, pos, from) + [OneState(e, c, f, Max(pos, from))]
    ensures end == Min(TranslateLsb(c, f.bits) + f.bits.num, c.num)
  {
    more := work;
    var from, at := TranslateLsb(c, f.bits), pos;
    end := Min(from + f.bits.num, c.num);
    from := Min(from, c.num);
    if from > at {
      more := more + [HoleState(e, c, at, from - at)];
      at := from;
    }
    var code := OverlapTest(c, f.bits);
    more := more + [if code == 0 || code == 3 then FieldState(e, c, f) else HoleState(e, c, at, end - at)];
  }

  method QueueFields(e: Expr, c: BitRange, fields: seq<Field>) returns (work: seq<State>, pos: int)
    ensures (work, pos) == Queue(e, c, fields)
  {
    work, pos := [], 0;
    for i := 0 to |fields|
      invariant (work, pos) == Queue(e, c, fields[..i])
    {
      QueueMore(e, c, fields, i);
      work, pos := QueueField(e, c, fields[i], work, pos);
    }
    assert fields[..|fields|] == fields;
  }

  /**
   Queues the fields that lie in the container, and holes for all other bits; they tile
   the container if and only if the fields are `Placeable`.
   */
  method EstablishFields(e: Expr, offset: int, big: bool, fields: seq<Field>) returns (work: seq<State>)
    requires Sized(e) && Size(e) > 0 && Sane(fields)
    ensures Tiles(e, work, 8 * Size(e)) <==> Placeable(Container(e, offset, big), fields)
    ensures FieldsOf(work) == ContainedFields(Container(e, offset, big), fields)
    ensures work == Established(e, Container(e, offset, big), fields)
  {
    var c := Container(e, offset, big);
    var pos: int;
    work, pos := QueueFields(e, c, fields);
    if pos < c.num {
      work := work + [HoleState(e, c, pos, c.num - pos)];
    }
    EstablishedTiles(e, c, fields);
  }

  // ----- putting the fields back -----

  /** INSERT: the bits of the range are replaced. */
  ghost function Put(v: Bits, ins: Insert, env: Env): (r: Bits)
    ensures |r| == |v|
  {
    seq(|v|, i requires 0 <= i < |v| => if ins.pos <= i < ins.pos + ins.num then InsertBit(ins, env, i - ins.pos) else v[i])
  }

  ghost function OriginalBits(n: nat, env: Env): (v: Bits)
    ensures |v| == n
  {
    seq(n, i requires 0 <= i => env.orig(i))
  }

  /** The INSERTs applied one after the other, as successive stores do. */
  ghost function PutAll(inserts: seq<Insert>, v: Bits, env: Env): (r: Bits)
    ensures |r| == |v|
  {
    if inserts == [] then v else Put(PutAll(inserts[..|inserts| - 1], v, env), inserts[|inserts| - 1], env)
  }

  /** The INSERTs chained the other way round: the first one is the outermost. */
  ghost function PutChain(inserts: seq<Insert>, v: Bits, env: Env): (r: Bits)
    ensures |r| == |v|
  {
    if inserts == [] then v else Put(PutChain(inserts[1..], v, env), inserts[0], env)
  }

  /** The INSERTs of the states that record one. */
  function Inserts(outs: seq<Outcome>): seq<Insert> {
    if outs == [] then [] else Inserts(outs[..|outs| - 1]) + Recorded(outs[|outs| - 1])
  }

  /** Every state came to an outcome that is right and accepted. */
  ghost predicate Resolved(work: seq<State>, outs: seq<Outcome>) {
    |outs| == |work| && forall i :: 0 <= i < |work| ==> ResolvedAt(work[i], outs[i])
  }

  ghost predicate ResolvedAt(s: State, out: Outcome) {
    Ok(s) && Accepted(out) && Sound(s, out)
  }

  ghost function After(v: Bits, out: Outcome, env: Env): (r: Bits)
    ensures |r| == |v|
  {
    if out.Found? then Put(v, out.insert, env) else v
  }

  /** Bit `i` after one state: of the container in its range, as before elsewhere. */
  lemma PutOneAt(e: Expr, s: State, out: Outcome, v: Bits, env: Env, i: int)
    requires TileAt(e, s) && ResolvedAt(s, out) && 0 <= i < |v| == 8 * Size(e)
    requires s.field.lsb <= i < s.field.lsb + s.field.num ==> v[i] == env.orig(i)
    ensures After(v, out, env)[i] == if s.field.lsb <= i < s.field.lsb + s.field.num then Eval(e, env)[i] else v[i]
  {
    var k := i - s.field.lsb;
    if out.Found? {
      assert InsertAt(s, out.insert, env, k);
    } else {
      assert OriginalAt(s, env, k);
    }
  }

  lemma PutAllMore(inserts: seq<Insert>, out: Outcome, v: Bits, env: Env)
    ensures PutAll(inserts + Recorded(out), v, env) == After(PutAll(inserts, v, env), out, env)
  {
    if out.Found? {
      assert (inserts + [out.insert])[..|inserts|] == inserts;
    } else {
      assert inserts + [] == inserts;
    }
  }

  /** The bits below `end` are those of the container, the others original. */
  ghost predicate LowerWritten(e: Expr, r: Bits, end: int, env: Env)
    requires Sized(e)
  {
    |r| == 8 * Size(e) && forall i :: 0 <= i < |r| ==> r[i] == (if i < end then Eval(e, env)[i] else env.orig(i))
  }

  lemma LowerStep(e: Expr, s: State, out: Outcome, v: Bits, env: Env)
    requires TileAt(e, s) && ResolvedAt(s, out) && LowerWritten(e, v, s.field.lsb, env)
    ensures LowerWritten(e, After(v, out, env), s.field.lsb + s.field.num, env)
  {
    var r := After(v, out, env);
    forall i | 0 <= i < |r| ensures r[i] == (if i < s.field.lsb + s.field.num then Eval(e, env)[i] else env.orig(i)) {
      PutOneAt(e, s, out, v, env, i);
    }
  }

  lemma {:induction false} PrefixWritten(e: Expr, work: seq<State>, outs: seq<Outcome>, n: nat, env: Env)
    requires Sized(e) && Tiles(e, work, 8 * Size(e)) && Resolved(work, outs) && n <= |work|
    ensures LowerWritten(e, PutAll(Inserts(outs[..n]), OriginalBits(8 * Size(e), env), env), EndOf(work[..n]), env)
  {
    if n > 0 {
      PrefixWritten(e, work, outs, n - 1, env);
      assert outs[..n][..n - 1] == outs[..n - 1];
      var s := work[n - 1];
      assert TileAt(e, s) && ResolvedAt(s, outs[n - 1]);
      var v := OriginalBits(8 * Size(e), env);
      PutAllMore(Inserts(outs[..n - 1]), outs[n - 1], v, env);
      LowerStep(e, s, outs[n - 1], PutAll(Inserts(outs[..n - 1]), v, env), env);
    }
  }

  /**
   If the trace accepts every field and hole, applying the INSERTs in order to the original
   value gives exactly the container value that the masks and shifts compute.
   */
  lemma {:induction false} InsertsRebuildContainer(e: Expr, work: seq<State>, outs: seq<Outcome>, env: Env)
    requires Sized(e) && Tiles(e, work, 8 * Size(e)) && Resolved(work, outs)
    ensures PutAll(Inserts(outs), OriginalBits(8 * Size(e), env), env) == Eval(e, env)
  {
    assert work[..|work|] == work && outs[..|work|] == outs;
    PrefixWritten(e, work, outs, |work|, env);
  }

  // ----- chained the other way -----

  lemma {:induction false} InsertsAppend(a: seq<Outcome>, b: seq<Outcome>)
    ensures Inserts(a + b) == Inserts(a) + Inserts(b)
  {
    if b == [] {
      assert a + b == a;
    } else {
      assert (a + b)[..|a + b| - 1] == a + b[..|b| - 1];
      InsertsAppend(a, b[..|b| - 1]);
    }
  }

  lemma {:induction false} InsertsFirst(outs: seq<Outcome>)
    requires outs != []
    ensures Inserts(outs) == Recorded(outs[0]) + Inserts(outs[1..])
  {
    assert outs == [outs[0]] + outs[1..];
    InsertsAppend([outs[0]], outs[1..]);
    assert [outs[0]][..0] == [];
    assert Inserts([outs[0]]) == Inserts([]) + Recorded(outs[0]);
  }

  lemma InsertsFrom(outs: seq<Outcome>, n: nat)
    requires n < |outs|
    ensures Inserts(outs[n..]) == Recorded(outs[n]) + Inserts(outs[n + 1..])
  {
    assert outs[n..][1..] == outs[n + 1..];
    InsertsFirst(outs[n..]);
  }

  lemma PutChainMore(inserts: seq<Insert>, out: Outcome, v: Bits, env: Env)
    ensures PutChain(Recorded(out) + inserts, v, env) == After(PutChain(inserts, v, env), out, env)
  {
    if out.Found? {
      assert ([out.insert] + inserts)[1..] == inserts;
    } else {
      assert [] + inserts == inserts;
    }
  }

  ghost predicate UpperWritten(e: Expr, r: Bits, start: int, env: Env)
    requires Sized(e)
  {
    |r| == 8 * Size(e) && forall i :: 0 <= i < |r| ==> r[i] == (if i >= start then Eval(e, env)[i] else env.orig(i))
  }

  lemma UpperStep(e: Expr, s: State, out: Outcome, v: Bits, env: Env)
    requires TileAt(e, s) && ResolvedAt(s, out) && UpperWritten(e, v, s.field.lsb + s.field.num, env)
    ensures UpperWritten(e, After(v, out, env), s.field.lsb, env)
  {
    var r := After(v, out, env);
    forall i | 0 <= i < |r| ensures r[i] == (if i >= s.field.lsb then Eval(e, env)[i] else env.orig(i)) {
      PutOneAt(e, s, out, v, env, i);
    }
  }

  lemma {:induction false} SuffixWritten(e: Expr, work: seq<State>, outs: seq<Outcome>, n: nat, env: Env)
    requires Sized(e) && Tiles(e, work, 8 * Size(e)) && Resolved(work, outs) && n <= |work|
    ensures UpperWritten(e, PutChain(Inserts(outs[n..]), OriginalBits(8 * Size(e), env), env), EndOf(work[..n]), env)
    decreases |work| - n
  {
    var v := OriginalBits(8 * Size(e), env);
    if n == |work| {
      assert work[..n] == work;
    } else {
      SuffixWritten(e, work, outs, n + 1, env);
      var s := work[n];
      assert TileAt(e, s) && ResolvedAt(s, outs[n]);
      InsertsFrom(outs, n);
      PutChainMore(Inserts(outs[n + 1..]), outs[n], v, env);
      assert EndOf(work[..n + 1]) == s.field.lsb + s.field.num;
      UpperStep(e, s, outs[n], PutChain(Inserts(outs[n + 1..]), v, env), env);
    }
  }

  /** The order does not matter: chained with the first INSERT outermost the value is the same. */
  lemma {:induction false} ChainRebuildsContainer(e: Expr, work: seq<State>, outs: seq<Outcome>, env: Env)
    requires Sized(e) && Tiles(e, work, 8 * Size(e)) && Resolved(work, outs)
    ensures PutChain(Inserts(outs), OriginalBits(8 * Size(e), env), env) == Eval(e, env)
  {
    assert outs[0..] == outs && work[..0] == [];
    SuffixWritten(e, work, outs, 0, env);
  }

  // ----- the transform -----

  /** The outcomes of the traces of all states. */
  function Traces(work: seq<State>, nz: Masks): seq<Outcome> {
    if work == [] then [] else Traces(work[..|work| - 1], nz) + [Trace(work[|work| - 1], nz)]
  }

  lemma {:induction false} TracesAt(work: seq<State>, nz: Masks, i: nat)
    requires i < |work|
    ensures |Traces(work, nz)| == |work| && Traces(work, nz)[i] == Trace(work[i], nz)
  {
    if i < |work| - 1 {
      TracesAt(work[..|work| - 1], nz, i);
    } else if i > 0 {
      TracesAt(work[..|work| - 1], nz, i - 1);
    }
  }

  lemma {:induction false} TracesMore(work: seq<State>, nz: Masks, i: nat)
    requires i < |work|
    ensures Traces(work[..i + 1], nz) == Traces(work[..i], nz) + [Trace(work[i], nz)]
  {
    assert work[..i + 1][..i] == work[..i];
  }

  ghost predicate AllSafe(work: seq<State>, nz: Masks) {
    forall i :: 0 <= i < |work| ==> TraceSafe(work[i], nz)
  }

  ghost predicate AllAccepted(outs: seq<Outcome>) {
    forall i :: 0 <= i < |outs| ==> Accepted(outs[i])
  }

  lemma SafeTracesResolve(e: Expr, work: seq<State>, nz: Masks)
    requires Tiles(e, work, 8 * Size(e)) && SoundMasks(nz) && AllSafe(work, nz) && AllAccepted(Traces(work, nz))
    ensures Resolved(work, Traces(work, nz))
  {
    var outs := Traces(work, nz);
    if work != [] { TracesAt(work, nz, 0); }
    forall i | 0 <= i < |work| ensures ResolvedAt(work[i], outs[i]) {
      TracesAt(work, nz, i);
      assert TileAt(e, work[i]) && TraceSafe(work[i], nz) && Accepted(outs[i]);
      TraceRight(work[i], nz);
    }
  }

  lemma InsertsMore(outs: seq<Outcome>, out: Outcome)
    ensures Inserts(outs + [out]) == Inserts(outs) + Recorded(out)
  {
    assert (outs + [out])[..|outs|] == outs;
  }

  lemma AcceptedMore(outs: seq<Outcome>, out: Outcome)
    ensures AllAccepted(outs + [out]) <==> AllAccepted(outs) && Accepted(out)
  {
    var more := outs + [out];
    assert more[|outs|] == out;
    if AllAccepted(more) {
      forall i | 0 <= i < |outs| ensures Accepted(outs[i]) { assert Accepted(more[i]); }
    }
  }

  /** One state that is not accepted spoils the whole. */
  lemma RejectedSpoils(work: seq<State>, nz: Masks, i: nat)
    requires i < |work| && !Accepted(Trace(work[i], nz))
    ensures !AllAccepted(Traces(work, nz))
  {
    TracesAt(work, nz, i);
  }

  /**
   Follows every field and hole back; fails when one is not accepted, or when nothing is
   inserted.
   */
  method DoTrace(work: seq<State>, nz: Masks) returns (ok: bool, inserts: seq<Insert>)
    ensures ok <==> AllAccepted(Traces(work, nz)) && Inserts(Traces(work, nz)) != []
    ensures ok ==> inserts == Inserts(Traces(work, nz))
  {
    inserts := [];
    if |work| == 0 { return false, []; }
    for i := 0 to |work|
      invariant AllAccepted(Traces(work[..i], nz)) && inserts == Inserts(Traces(work[..i], nz))
    {
      var accepted, found := ProcessBackward(work[i], nz);
      ghost var out := Trace(work[i], nz);
      TracesMore(work, nz, i);
      InsertsMore(Traces(work[..i], nz), out);
      AcceptedMore(Traces(work[..i], nz), out);
      if !accepted {
        RejectedSpoils(work, nz, i);
        return false, [];
      }
      inserts := inserts + found;
    }
    assert work[..|work|] == work;
    return inserts != [], inserts;
  }

  /** Both ways of applying the INSERTs give the container's value. */
  ghost predicate RebuildsAt(e: Expr, inserts: seq<Insert>, env: Env)
    requires Sized(e)
  {
    && PutAll(inserts, OriginalBits(8 * Size(e), env), env) == Eval(e, env)
    && PutChain(inserts, OriginalBits(8 * Size(e), env), env) == Eval(e, env)
  }

  /**
   The transform as a whole: fields and holes queued, followed, and put back.  When they
   tile the container, accepted traces rebuild its value.
   */
  method TraceContainer(e: Expr, offset: int, big: bool, fields: seq<Field>, nz: Masks)
    returns (ok: bool, work: seq<State>, inserts: seq<Insert>)
    requires Sized(e) && Size(e) > 0 && Sane(fields) && SoundMasks(nz)
    ensures Tiles(e, work, 8 * Size(e)) <==> Placeable(Container(e, offset, big), fields)
    ensures FieldsOf(work) == ContainedFields(Container(e, offset, big), fields)
    ensures ok <==> AllAccepted(Traces(work, nz)) && Inserts(Traces(work, nz)) != []
    ensures ok && Placeable(Container(e, offset, big), fields) && AllSafe(work, nz) ==> forall env :: RebuildsAt(e, inserts, env)
  {
    work := EstablishFields(e, offset, big, fields);
    ok, inserts := DoTrace(work, nz);
    if ok && AllSafe(work, nz) && Tiles(e, work, 8 * Size(e)) {
      SafeTracesResolve(e, work, nz);
      forall env ensures RebuildsAt(e, inserts, env) {
        InsertsRebuildContainer(e, work, Traces(work, nz), env);
        ChainRebuildsContainer(e, work, Traces(work, nz), env);
      }
    }
  }

  // ----- the usual write is recognized -----

  /** `(orig & keep) | ((x & low) << pos)`, the way compilers write a field. */
  function UsualWrite(orig: Expr, keep: Bits, x: Expr, low: Bits, shift: Bits): Expr {
    Or(And(orig, Const(keep)), Left(And(x, Const(low)), Const(shift)))
  }

  /** A masked value at bit 0, once the shift is undone. */
  lemma MaskedIsInserted(s: State, nz: Masks, x: Expr, low: Bits)
    requires s.node == And(x, Const(low)) && s.isField && s.field.byteSize <= 8 && x.Opaque?
    requires s.field.lsb == s.used.lsb == 0 < s.field.num <= s.used.num && forall i :: BitAt(low, i) <==> 0 <= i < s.field.num
    ensures Trace(s, nz) == Found(NodeInsert(if s.field.num == s.used.num then s.node else x, 0, s.orig, s.field.num)) && TraceSafe(s, nz)
  {
    if s.field.num < s.used.num {
      var t := s.(node := x, used := s.used.(num := s.field.num));
      assert BitAt(low, 0) && BitAt(low, s.field.num - 1);
      assert IntersectMask(s.used, low) == t.used;
      assert Step(s, nz) == Move(t);
      assert Step(t, nz) == Found(NodeInsert(x, 0, s.orig, s.field.num));
    }
  }

  /** The field written comes back as an INSERT of `x` at its place, with its mask when it is the topmost. */
  lemma UsualWriteIsInserted(e: Expr, s: State, nz: Masks, orig: Expr, keep: Bits, x: Expr, low: Bits, shift: Bits)
    requires e == UsualWrite(orig, keep, x, low, shift) && TileAt(e, s) && s.isField && Size(e) <= 8 && x.Opaque?
    requires s.used == s.field.(lsb := 0, num := 8 * Size(e)) && s.field.num < 8 * Size(e)
    requires ToNat(shift) == s.field.lsb && forall i :: BitAt(low, i) <==> 0 <= i < s.field.num
    requires NoneSet(nz(And(orig, Const(keep))), s.field) && !NoneSet(nz(Left(And(x, Const(low)), Const(shift))), s.field)
    ensures var top := s.field.lsb + s.field.num == 8 * Size(e);
      Trace(s, nz) == Found(NodeInsert(if top then And(x, Const(low)) else x, 0, s.orig, s.field.num)) && TraceSafe(s, nz)
  {
    var s1 := s.(node := Left(And(x, Const(low)), Const(shift)));
    assert Step(s, nz) == Move(s1);
    var s2 := s1.(node := And(x, Const(low)), field := s.field.(lsb := 0), used := s.used.(lsb := 0, num := 8 * Size(e) - s.field.lsb));
    assert Step(s1, nz) == Move(s2);
    MaskedIsInserted(s2, nz, x, low);
    assert Trace(s1, nz) == Trace(s2, nz) && TraceSafe(s1, nz);
  }

  /**
   A field or hole that the mask keeps, and the other operand leaves alone, is recognized
   as original, safely if and only if the value read begins with the container's low byte.
   */
  lemma KeptIsOriginal(s: State, nz: Masks, n: nat, at: int, w: bool, keep: Bits, b: Expr)
    requires Ok(s) && s.node == Or(And(Original(n, at, w), Const(keep)), b) && n <= 8 && AllSet(keep, s.field)
    requires s.field.lsb == s.orig && !(s.isField && Aligned(s))
    requires !NoneSet(nz(And(Original(n, at, w), Const(keep))), s.field) && NoneSet(nz(b), s.field)
    ensures Trace(s, nz) == Matches && (TraceSafe(s, nz) <==> at == 0)
  {
    var e := And(Original(n, at, w), Const(keep));
    assert Size(e) == n;
    var s1 := s.(node := e);
    assert Step(s, nz) == Move(s1);
    var s2 := s1.(node := Original(n, at, w), used := IntersectMask(s1.used, keep));
    assert Step(s1, nz) == Move(s2);
    assert Step(s2, nz) == Matches;
    assert Trace(s1, nz) == Trace(s2, nz);
    assert TraceSafe(s1, nz) <==> TraceSafe(s2, nz);
  }

  // ----- writing a constant -----

  /** `(orig & keep) | k`. */
  function ConstantWrite(n: nat, w: bool, keep: Bits, k: Bits): Expr {
    Or(And(Original(n, 0, w), Const(keep)), Const(k))
  }

  /** A field that `keep` clears comes back as an INSERT of its bits of `k`, zero or not. */
  lemma ConstantIsInserted(s: State, nz: Masks, n: nat, w: bool, keep: Bits, k: Bits)
    requires Ok(s) && SoundMasks(nz) && s.node == ConstantWrite(n, w, keep, k) && n <= 8
    requires s.isField && !Aligned(s) && NoneSet(keep, s.field) && NoneSet(nz(And(Original(n, 0, w), Const(keep))), s.field)
    ensures Trace(s, nz) == Found(ConstInsert(FieldBits(s, k), s.orig, s.field.num)) && TraceSafe(s, nz)
  {
    var a := And(Original(n, 0, w), Const(keep));
    assert nz(Const(k)) == k && Size(a) == n;
    if NoneSet(k, s.field) {
      ZeroIsInserted(s, nz, a, keep, k);
    } else {
      assert Step(s, nz) == Move(s.(node := Const(k)));
      assert Trace(s.(node := Const(k)), nz) == ConstantValue(s, k);
    }
  }

  lemma ZeroIsInserted(s: State, nz: Masks, a: Expr, keep: Bits, k: Bits)
    requires Ok(s) && s.node == Or(a, Const(k)) && s.field.byteSize <= 8 && a.And? && a.b == Const(keep) && nz(Const(k)) == k
    requires s.isField && !Aligned(s) && NoneSet(keep, s.field) && NoneSet(k, s.field) && NoneSet(nz(a), s.field)
    ensures Trace(s, nz) == ConstantValue(s, k) && TraceSafe(s, nz)
  {
    assert !BitAt(k, s.field.lsb);
    assert !AllSet(k, s.field);
    var v := AndOf(k, keep);
    assert Step(s, nz) == ConstantValue(s, v);
    forall i | s.field.lsb <= i < s.field.lsb + s.field.num ensures BitAt(v, i) == BitAt(k, i) {
    }
    assert FieldBits(s, v) == FieldBits(s, k);
  }

  /** The state is a field written, or a field or hole kept whole. */
  ghost predicate ConstantTile(s: State, nz: Masks, n: nat, w: bool, keep: Bits, k: Bits) {
    var a := And(Original(n, 0, w), Const(keep));
    if s.isField && NoneSet(keep, s.field) then !Aligned(s) && NoneSet(nz(a), s.field)
    else
      && AllSet(keep, s.field) && NoneSet(k, s.field) && !NoneSet(nz(a), s.field)
      && (s.isField ==> !Aligned(s))
  }

  /** Writing constants into fields of the original value is accepted and rebuilt. */
  lemma ConstantWriteIsRebuilt(work: seq<State>, nz: Masks, n: nat, w: bool, keep: Bits, k: Bits)
    requires var e := ConstantWrite(n, w, keep, k);
      Sized(e) && n <= 8 && Tiles(e, work, 8 * n) && SoundMasks(nz)
    requires forall i :: 0 <= i < |work| ==> ConstantTile(work[i], nz, n, w, keep, k)
    ensures AllSafe(work, nz) && AllAccepted(Traces(work, nz))
    ensures forall env :: RebuildsAt(ConstantWrite(n, w, keep, k), Inserts(Traces(work, nz)), env)
  {
    var e := ConstantWrite(n, w, keep, k);
    assert Size(e) == n;
    if work != [] { TracesAt(work, nz, 0); }
    forall i | 0 <= i < |work| ensures TraceSafe(work[i], nz) && Accepted(Traces(work, nz)[i]) {
      TracesAt(work, nz, i);
      assert TileAt(e, work[i]) && ConstantTile(work[i], nz, n, w, keep, k);
      ConstantTileIsRight(work[i], nz, n, w, keep, k);
    }
    SafeTracesResolve(e, work, nz);
    forall env ensures RebuildsAt(e, Inserts(Traces(work, nz)), env) {
      InsertsRebuildContainer(e, work, Traces(work, nz), env);
      ChainRebuildsContainer(e, work, Traces(work, nz), env);
    }
  }

  lemma ConstantTileIsRight(s: State, nz: Masks, n: nat, w: bool, keep: Bits, k: Bits)
    requires TileAt(ConstantWrite(n, w, keep, k), s) && ConstantTile(s, nz, n, w, keep, k) && n <= 8 && SoundMasks(nz)
    ensures TraceSafe(s, nz) && Accepted(Trace(s, nz))
  {
    if s.isField && NoneSet(keep, s.field) {
      ConstantIsInserted(s, nz, n, w, keep, k);
    } else {
      assert nz(Const(k)) == k;
      KeptIsOriginal(s, nz, n, 0, w, keep, Const(k));
    }
  }
}

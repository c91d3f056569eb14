/**
 Simplifying the value of an INSERT (pkg/pcode/bitfield_rules.go:546-727): masks and
 shifts that do not touch the bits inserted are dropped.  An INSERT takes the low `n`
 bits of its value, so a rewrite is right when it keeps those for all operands.
 */
module InsertRules {
  import opened Options
  import opened Words
  import opened BitFields

  // ----- low bits -----

  ghost predicate LowSameAt(e: Expr, f: Expr, n: nat, env: Env, i: int)
    requires Sized(e) && Sized(f)
  {
    0 <= i < n ==> (BitAt(Eval(e, env), i) <==> BitAt(Eval(f, env), i))
  }

  /** The two expressions have the same low `n` bits whatever the variables hold. */
  ghost predicate LowSame(e: Expr, f: Expr, n: nat)
    requires Sized(e)
  {
    Sized(f) && forall env, i :: LowSameAt(e, f, n, env, i)
  }

  lemma {:induction false} LowBitsMod(v: Bits, n: nat)
    requires n <= |v|
    ensures ToNat(v) % Pow2(n) == ToNat(v[..n])
    ensures ToNat(v[..n]) < Pow2(n)
  {
    if n == 0 {
      RemainderUnique(ToNat(v), 1, ToNat(v), 0);
    } else {
      LowBitsMod(v[1..], n - 1);
      assert v[1..][..n - 1] == v[..n][1..];
      var low := if v[0] then 1 else 0;
      HalfMod(ToNat(v[1..]), low, Pow2(n - 1), ToNat(v[..n][1..]));
    }
  }

  lemma {:induction false} HalfMod(x: nat, low: nat, p: nat, r: nat)
    requires p > 0 && low <= 1 && x % p == r
    ensures (low + 2 * x) % (2 * p) == low + 2 * r && low + 2 * r < 2 * p
  {
    var q := x / p;
    assert x == q * p + r;
    assert low + 2 * x == q * (2 * p) + (low + 2 * r) by { assert 2 * (q * p) == q * (2 * p); }
    RemainderUnique(low + 2 * x, 2 * p, q, low + 2 * r);
  }

  /** The low `n` bits of a number are those of its remainder. */
  lemma {:induction false} FromNatMod(x: nat, w: nat, n: nat, i: nat)
    requires i < n <= w
    ensures FromNat(x, w)[i] == FromNat(x % Pow2(n), n)[i]
  {
    var p := Pow2(n - 1);
    var m := x % (2 * p);
    HalfOfMod(x, p);
    assert FromNat(m, n) == [m % 2 == 1] + FromNat(m / 2, n - 1);
    if i > 0 { FromNatMod(x / 2, w - 1, n - 1, i - 1); }
  }

  lemma {:induction false} HalfOfMod(x: nat, p: nat)
    requires p > 0
    ensures (x % (2 * p)) % 2 == x % 2 && (x % (2 * p)) / 2 == (x / 2) % p
  {
    HalfMod(x / 2, x % 2, p, (x / 2) % p);
    assert x == x % 2 + 2 * (x / 2);
  }

  lemma {:induction false} SameLowMod(x: Bits, y: Bits, n: nat)
    requires n <= |x| && n <= |y| && x[..n] == y[..n]
    ensures ToNat(x) % Pow2(n) == ToNat(y) % Pow2(n)
  {
    LowBitsMod(x, n);
    LowBitsMod(y, n);
  }

  /** The low bits of a sum depend on the low bits of the operands only. */
  lemma {:induction false} SumLow(x: Bits, x': Bits, y: Bits, y': Bits, n: nat, w: nat, i: nat)
    requires |x| == |x'| == |y| == |y'| == w && i < n <= w && x[..n] == x'[..n] && y[..n] == y'[..n]
    ensures FromNat(ToNat(x) + ToNat(y), w)[i] == FromNat(ToNat(x') + ToNat(y'), w)[i]
  {
    SameLowMod(x, x', n);
    SameLowMod(y, y', n);
    ModOfSum(ToNat(x), ToNat(y), Pow2(n));
    ModOfSum(ToNat(x'), ToNat(y'), Pow2(n));
    FromNatMod(ToNat(x) + ToNat(y), w, n, i);
    FromNatMod(ToNat(x') + ToNat(y'), w, n, i);
  }

  lemma {:induction false} ProductLow(x: Bits, x': Bits, y: Bits, y': Bits, n: nat, w: nat, i: nat)
    requires |x| == |x'| == |y| == |y'| == w && i < n <= w && x[..n] == x'[..n] && y[..n] == y'[..n]
    ensures FromNat(ToNat(x) * ToNat(y), w)[i] == FromNat(ToNat(x') * ToNat(y'), w)[i]
  {
    SameLowMod(x, x', n);
    SameLowMod(y, y', n);
    ModOfProduct(ToNat(x), ToNat(y), Pow2(n));
    ModOfProduct(ToNat(x'), ToNat(y'), Pow2(n));
    FromNatMod(ToNat(x) * ToNat(y), w, n, i);
    FromNatMod(ToNat(x') * ToNat(y'), w, n, i);
  }

  // ----- the rules -----

  /** `x & mask` with a mask that keeps the bits inserted. */
  function AbsorbAnd(a: Expr, b: Expr, n: nat): Option<Expr> {
    if b.Const? && forall i :: 0 <= i < n ==> BitAt(b.bits, i) then Some(a) else None
  }

  /** The number as an `int64`. */
  function Int64(x: int): int { Signed(x % WORD, WORD - 1) }

  /** The program's test that the shifts leave `n` of `w` bits, in 64-bit signed arithmetic. */
  predicate ShiftsLeave(c: nat, w: nat, n: nat) { n <= Int64(w - Int64(c)) }

  /** `(x << c) >> c`, also through the low piece of the shift; `w` bits are shifted right. */
  function AbsorbRightLeft(y: Expr, c: Bits, w: nat, n: nat): Option<Expr> {
    var left := if y.Left? then y else if y.Subpiece? && y.offset == 0 then y.a else y;
    if left.Left? && left.b.Const? && ToNat(left.b.bits) == ToNat(c) && ShiftsLeave(ToNat(c), w, n) then Some(left.a) else None
  }

  /** The operand of a left shift by `sa`, or of a product with its power of two. */
  function LeftShiftOf(e: Expr, sa: nat): Option<Expr> {
    match e
    case Mult(a, b) => if b.Const? && ToNat(b.bits) == Pow2(sa) then Some(a) else None
    case Left(a, b) => if b.Const? && ToNat(b.bits) == sa then Some(a) else None
    case _ => None
  }

  /** A constant that is a multiple of `2^sa`, shifted down. */
  function ConstantShiftOf(v: Bits, sa: nat): Option<Expr> {
    var r := ShiftRight(v, sa);
    if ShiftLeft(r, sa) == v then Some(Const(r)) else None
  }

  function AbsorbShiftAdd(p: Expr, q: Expr, c: Bits, n: nat): Option<Expr> {
    var sa := ToNat(c);
    var p' := LeftShiftOf(p, sa);
    var q' := SecondOf(q, sa);
    if 0 < sa < 64 && p'.Some? && q'.Some? && n + sa <= 8 * Size(p'.value) then Some(Add(p'.value, q'.value)) else None
  }

  /** A mask of `m >= n` low ones. */
  predicate LowMask(v: Bits, n: nat) {
    exists m :: n <= m <= |v| && m > 0 && LowOnes(v, m)
  }

  predicate LowOnes(v: Bits, m: nat) { forall i :: 0 <= i < |v| ==> (v[i] <==> i < m) }

  function Unmasked(e: Expr, n: nat): Option<Expr> {
    if e.And? && e.b.Const? && LowMask(e.b.bits, n) then Some(e.a) else None
  }

  /** A mask inside one operand of an op whose low bits ignore the high bits of its operands. */
  function AbsorbNestedAnd(e: Expr, n: nat): Option<Expr>
    requires e.Add? || e.Or? || e.Xor? || e.Mult?
  {
    var p, q := Unmasked(e.a, n), Unmasked(e.b, n);
    if p.Some? then Some(WithOperands(e, p.value, e.b))
    else if q.Some? then Some(WithOperands(e, e.a, q.value))
    else None
  }

  function WithOperands(e: Expr, p: Expr, q: Expr): Expr
    requires e.Add? || e.Or? || e.Xor? || e.Mult?
  {
    match e
    case Add(_, _) => Add(p, q)
    case Or(_, _) => Or(p, q)
    case Xor(_, _) => Xor(p, q)
    case Mult(_, _) => Mult(p, q)
  }

  /** One application of the rule to the value of an INSERT of `n` bits. */
  function Absorb(e: Expr, n: nat): Option<Expr> {
    match e
    case Subpiece(a, off, _) => if off == 0 then Some(a) else None
    case Right(y, b) => AbsorbRight(e, y, b, n)
    case SRight(y, b) => AbsorbRight(e, y, b, n)
    case And(a, b) => AbsorbAnd(a, b, n)
    case Add(_, _) => AbsorbNestedAnd(e, n)
    case Or(_, _) => AbsorbNestedAnd(e, n)
    case Xor(_, _) => AbsorbNestedAnd(e, n)
    case Mult(_, _) => AbsorbNestedAnd(e, n)
    case _ => None
  }

  function AbsorbRight(e: Expr, y: Expr, b: Expr, n: nat): Option<Expr> {
    if !b.Const? then None
    else if y.Add? then AbsorbShiftAdd(y.a, y.b, b.bits, n)
    else AbsorbRightLeft(y, b.bits, 8 * Size(e), n)
  }

  // ----- the rules keep the low bits -----

  /** Shifting right by a constant: bit `i` is bit `i + c` below the top. */
  lemma {:induction false} RightBit(e: Expr, y: Expr, b: Expr, env: Env, i: int)
    requires Sized(e) && (e == Right(y, b) || e == SRight(y, b)) && b.Const?
    requires 0 <= i && i + ToNat(b.bits) < 8 * Size(y)
    ensures BitAt(Eval(e, env), i) == BitAt(Eval(y, env), i + ToNat(b.bits))
  {
    assert Eval(b, env) == b.bits;
  }

  lemma {:induction false} LeftBitAt(a: Expr, b: Expr, env: Env, i: nat, c: nat)
    requires Sized(Left(a, b)) && b.Const? && ToNat(b.bits) == c && i + c < 8 * Size(a)
    ensures BitAt(Eval(Left(a, b), env), i + c) == BitAt(Eval(a, env), i)
  {
    assert Eval(b, env) == b.bits;
  }

  /** The low piece of a value has its bits. */
  lemma {:induction false} LowPieceBit(y: Expr, env: Env, i: nat)
    requires y.Subpiece? && y.offset == 0 && Sized(y) && i < 8 * Size(y)
    ensures BitAt(Eval(y, env), i) == BitAt(Eval(y.a, env), i)
  {
  }

  const HALF_WORD: int := 0x8000_0000_0000_0000

  /** Below 2^63 the test is what it says; from there on the constant is read as negative and may pass. */
  lemma {:induction false} ShiftsLeaveMeans(c: nat, w: nat, n: nat)
    requires c < WORD && 0 < n <= w < 0x4_0000_0000
    ensures c < HALF_WORD ==> (ShiftsLeave(c, w, n) <==> n + c <= w)
    ensures c >= HALF_WORD ==> (ShiftsLeave(c, w, n) <==> c > HALF_WORD + w && n <= w + (WORD - c))
  {
    if c < HALF_WORD {
      Int64Of(c);
      Int64Of(w - c);
    } else {
      RemainderUnique(c, WORD, 0, c);
      assert Int64(c) == c - WORD;
      var d := w - c + WORD;
      if d < HALF_WORD { Int64Of(d); } else {
        RemainderUnique(d, WORD, 0, d);
        assert Int64(d) == d - WORD;
      }
    }
  }

  lemma {:induction false} Int64Of(x: int)
    requires -HALF_WORD <= x < HALF_WORD
    ensures Int64(x) == x
  {
    if x >= 0 { SmallMod(x, WORD); } else { RemainderUnique(x, WORD, -1, x + WORD); }
  }

  /** The shift constants of the rule are read as they are. */
  predicate ProperShift(e: Expr) {
    (e.Right? || e.SRight?) && e.b.Const? && !e.a.Add? ==> ToNat(e.b.bits) < HALF_WORD
  }

  lemma {:induction false} RightLeftKeeps(e: Expr, y: Expr, b: Expr, n: nat)
    requires Sized(e) && (e == Right(y, b) || e == SRight(y, b)) && b.Const? && ToNat(b.bits) < HALF_WORD
    requires 8 * Size(e) < 0x4_0000_0000 && n <= 8 * Size(e)
    requires AbsorbRightLeft(y, b.bits, 8 * Size(e), n).Some?
    ensures LowSame(e, AbsorbRightLeft(y, b.bits, 8 * Size(e), n).value, n)
  {
    var left := if y.Left? then y else y.a;
    var c := ToNat(b.bits);
    assert Sized(y) && Size(e) == Size(y);
    assert Sized(left) && Sized(left.a) && Size(left) == Size(left.a);
    if n > 0 { ShiftsLeaveMeans(c, 8 * Size(e), n); }
    forall env, i ensures LowSameAt(e, left.a, n, env, i) {
      if 0 <= i < n { RightLeftBit(e, y, b, left, env, i); }
    }
  }

  lemma {:induction false} RightLeftBit(e: Expr, y: Expr, b: Expr, left: Expr, env: Env, i: nat)
    requires Sized(e) && (e == Right(y, b) || e == SRight(y, b)) && b.Const? && Sized(y) && Size(e) == Size(y)
    requires (y == left || (y.Subpiece? && y.offset == 0 && y.a == left)) && left.Left? && Sized(left) && Sized(left.a)
    requires left.b.Const? && ToNat(left.b.bits) == ToNat(b.bits) && Size(left) == Size(left.a) && i + ToNat(b.bits) < 8 * Size(y)
    ensures BitAt(Eval(e, env), i) == BitAt(Eval(left.a, env), i)
  {
    var c := ToNat(b.bits);
    RightBit(e, y, b, env, i);
    LeftBitAt(left.a, left.b, env, i, c);
    if y.Subpiece? { LowPieceBit(y, env, i + c); }
  }

  lemma {:induction false} AndKeeps(a: Expr, b: Expr, n: nat)
    requires Sized(And(a, b)) && AbsorbAnd(a, b, n).Some?
    ensures LowSame(And(a, b), a, n)
  {
    forall env, i ensures LowSameAt(And(a, b), a, n, env, i) {
      AndBit(a, b, env, i);
      assert Eval(b, env) == b.bits;
    }
  }

  lemma {:induction false} SubpieceKeeps(e: Expr, n: nat)
    requires Sized(e) && e.Subpiece? && e.offset == 0 && n <= 8 * Size(e)
    ensures LowSame(e, e.a, n)
  {
    forall env, i ensures LowSameAt(e, e.a, n, env, i) {
      if 0 <= i < n { LowPieceBit(e, env, i); }
    }
  }

  /** Dropping a low piece is right exactly when the field is no wider than the piece. */
  lemma {:induction false} SubpieceExactly(id: nat, m: nat, w: bool, size: nat, n: nat)
    requires size <= m && n <= 8 * m
    ensures LowSame(Subpiece(Opaque(id, m, w), 0, size), Opaque(id, m, w), n) <==> n <= 8 * size
  {
    var a := Opaque(id, m, w);
    var e := Subpiece(a, 0, size);
    if n <= 8 * size {
      SubpieceKeeps(e, n);
    } else {
      var env := Env(j => false, (i, j) => true);
      assert BitAt(Eval(a, env), n - 1) && !BitAt(Eval(e, env), n - 1);
      assert !LowSameAt(e, a, n, env, n - 1);
    }
  }

  /** When the rule cancels the shifts of an unknown value it is right exactly for shifts below 2^63. */
  lemma {:induction false} RightLeftExactly(e: Expr, a: Expr, c: Bits, n: nat)
    requires a.Opaque? && e == Right(Left(a, Const(c)), Const(c)) && Sized(e) && 0 < n <= 8 * Size(a) < 0x4_0000_0000
    requires ToNat(c) < WORD && Absorb(e, n) == Some(a)
    ensures LowSame(e, a, n) <==> ToNat(c) < HALF_WORD
  {
    var y := Left(a, Const(c));
    assert Sized(y) && Size(y) == Size(a);
    assert Size(e) == Size(y);
    ShiftsLeaveMeans(ToNat(c), 8 * Size(a), n);
    if ToNat(c) < HALF_WORD {
      RightLeftKeeps(e, y, Const(c), n);
    } else {
      ShiftedOut(a, c, n - 1);
      assert !LowSameAt(e, a, n, Ones(), n - 1);
    }
  }

  function Ones(): Env { Env(j => true, (i, j) => true) }

  /** A bit shifted out at the top does not come back. */
  lemma {:induction false} ShiftedOut(a: Expr, c: Bits, i: nat)
    requires a.Opaque? && Sized(Right(Left(a, Const(c)), Const(c))) && i < 8 * Size(a) <= i + ToNat(c)
    ensures BitAt(Eval(a, Ones()), i) && !BitAt(Eval(Right(Left(a, Const(c)), Const(c)), Ones()), i)
  {
    assert Eval(Const(c), Ones()) == c;
  }

  // ----- masks inside an operand -----

  lemma {:induction false} UnmaskedLow(p: Expr, n: nat, env: Env)
    requires Sized(p) && Unmasked(p, n).Some?
    ensures Sized(p.a) && Size(p.a) == Size(p) && n <= 8 * Size(p)
    ensures LowEqual(Eval(p, env), Eval(p.a, env), n)
  {
    var m :| n <= m <= |p.b.bits| && m > 0 && LowOnes(p.b.bits, m);
    assert Eval(p.b, env) == p.b.bits;
    forall i | 0 <= i < n ensures Eval(p, env)[i] == Eval(p.a, env)[i] { AndBit(p.a, p.b, env, i); }
  }

  /** The same low bits. */
  ghost predicate LowEqual(x: Bits, y: Bits, n: nat) { |x| == |y| && n <= |x| && x[..n] == y[..n] }

  lemma {:induction false} LowEqualAt(x: Bits, y: Bits, n: nat, i: nat)
    requires LowEqual(x, y, n) && i < n
    ensures x[i] == y[i]
  {
    assert x[..n][i] == y[..n][i];
  }

  lemma {:induction false} SumKeeps(a: Expr, b: Expr, p: Expr, q: Expr, n: nat, env: Env, i: int)
    requires Sized(Add(a, b)) && Sized(Add(p, q)) && 0 <= i < n
    requires LowEqual(Eval(a, env), Eval(p, env), n) && LowEqual(Eval(b, env), Eval(q, env), n)
    ensures BitAt(Eval(Add(a, b), env), i) == BitAt(Eval(Add(p, q), env), i)
  {
    SumLow(Eval(a, env), Eval(p, env), Eval(b, env), Eval(q, env), n, 8 * Size(a), i);
  }

  lemma {:induction false} ProductKeeps(a: Expr, b: Expr, p: Expr, q: Expr, n: nat, env: Env, i: int)
    requires Sized(Mult(a, b)) && Sized(Mult(p, q)) && 0 <= i < n
    requires LowEqual(Eval(a, env), Eval(p, env), n) && LowEqual(Eval(b, env), Eval(q, env), n)
    ensures BitAt(Eval(Mult(a, b), env), i) == BitAt(Eval(Mult(p, q), env), i)
  {
    ProductLow(Eval(a, env), Eval(p, env), Eval(b, env), Eval(q, env), n, 8 * Size(a), i);
  }

  lemma {:induction false} BitwiseKeeps(a: Expr, b: Expr, p: Expr, q: Expr, n: nat, env: Env, i: int)
    requires Sized(Or(a, b)) && Sized(Or(p, q)) && Sized(Xor(a, b)) && Sized(Xor(p, q)) && 0 <= i < n
    requires LowEqual(Eval(a, env), Eval(p, env), n) && LowEqual(Eval(b, env), Eval(q, env), n)
    ensures BitAt(Eval(Or(a, b), env), i) == BitAt(Eval(Or(p, q), env), i)
    ensures BitAt(Eval(Xor(a, b), env), i) == BitAt(Eval(Xor(p, q), env), i)
  {
    LowEqualAt(Eval(a, env), Eval(p, env), n, i);
    LowEqualAt(Eval(b, env), Eval(q, env), n, i);
  }

  /** Operands with the same low bits give results with the same low bits. */
  lemma {:induction false} OperandsLow(e: Expr, p: Expr, q: Expr, n: nat, env: Env, i: int)
    requires (e.Add? || e.Or? || e.Xor? || e.Mult?) && Sized(e) && Sized(p) && Sized(q)
    requires Size(p) == Size(e.a) && Size(q) == Size(e.b)
    requires LowEqual(Eval(e.a, env), Eval(p, env), n) && LowEqual(Eval(e.b, env), Eval(q, env), n)
    ensures LowSameAt(e, WithOperands(e, p, q), n, env, i)
  {
    if 0 <= i < n {
      match e
      case Add(a, b) => SumKeeps(a, b, p, q, n, env, i);
      case Mult(a, b) => ProductKeeps(a, b, p, q, n, env, i);
      case Or(a, b) => BitwiseKeeps(a, b, p, q, n, env, i);
      case Xor(a, b) => BitwiseKeeps(a, b, p, q, n, env, i);
    }
  }

  lemma {:induction false} NestedAndKeeps(e: Expr, n: nat)
    requires (e.Add? || e.Or? || e.Xor? || e.Mult?) && Sized(e) && AbsorbNestedAnd(e, n).Some?
    ensures LowSame(e, AbsorbNestedAnd(e, n).value, n)
  {
    var f := AbsorbNestedAnd(e, n).value;
    if Unmasked(e.a, n).Some? {
      UnmaskedLow(e.a, n, Env(j => false, (i, j) => false));
      forall env, i ensures LowSameAt(e, f, n, env, i) {
        UnmaskedLow(e.a, n, env);
        OperandsLow(e, e.a.a, e.b, n, env, i);
      }
    } else {
      UnmaskedLow(e.b, n, Env(j => false, (i, j) => false));
      forall env, i ensures LowSameAt(e, f, n, env, i) {
        UnmaskedLow(e.b, n, env);
        OperandsLow(e, e.a, e.b.a, n, env, i);
      }
    }
  }

  // ----- a shift factored out of a sum -----

  lemma {:induction false} ToFromNat(x: nat, w: nat)
    ensures ToNat(FromNat(x, w)) == x % Pow2(w)
  {
    if w == 0 {
      RemainderUnique(x, 1, x, 0);
    } else {
      ToFromNat(x / 2, w - 1);
      HalfMod(x / 2, x % 2, Pow2(w - 1), (x / 2) % Pow2(w - 1));
      assert x == x % 2 + 2 * (x / 2);
      assert FromNat(x, w)[1..] == FromNat(x / 2, w - 1);
    }
  }

  lemma {:induction false} SameRemainder(x: nat, y: nat, w: nat)
    requires x % Pow2(w) == y % Pow2(w)
    ensures FromNat(x, w) == FromNat(y, w)
  {
    ToFromNat(x, w);
    ToFromNat(y, w);
    FromToNat(FromNat(x, w));
    FromToNat(FromNat(y, w));
  }

  lemma {:induction false} ShiftedNat(r: Bits, sa: nat)
    ensures ToNat(ShiftLeft(r, sa)) == (ToNat(r) * Pow2(sa)) % Pow2(|r|)
  {
    MultIsShift(r, sa);
    ToFromNat(ToNat(r) * Pow2(sa), |r|);
  }

  lemma {:induction false} FactorMod(r: nat, t: nat, p: nat, m: nat)
    requires m > 0
    ensures ((r * p) % m + (t * p) % m) % m == (((r + t) % m) * p) % m
  {
    ModOfSum(r * p, t * p, m);
    ModOfProduct(r + t, p, m);
    assert (r + t) * p == r * p + t * p;
  }

  /** The sum of two shifted values is the shifted sum. */
  lemma {:induction false} ShiftedSum(r: Bits, t: Bits, sa: nat)
    requires |r| == |t|
    ensures FromNat(ToNat(ShiftLeft(r, sa)) + ToNat(ShiftLeft(t, sa)), |r|) == ShiftLeft(FromNat(ToNat(r) + ToNat(t), |r|), sa)
  {
    var w := |r|;
    var v := FromNat(ToNat(r) + ToNat(t), w);
    ShiftedRemainders(r, t, sa, v);
    MultIsShift(v, sa);
    SameRemainder(ToNat(ShiftLeft(r, sa)) + ToNat(ShiftLeft(t, sa)), ToNat(v) * Pow2(sa), w);
  }

  lemma {:induction false} ShiftedRemainders(r: Bits, t: Bits, sa: nat, v: Bits)
    requires |r| == |t| && v == FromNat(ToNat(r) + ToNat(t), |r|)
    ensures (ToNat(ShiftLeft(r, sa)) + ToNat(ShiftLeft(t, sa))) % Pow2(|r|) == (ToNat(v) * Pow2(sa)) % Pow2(|r|)
  {
    ShiftedNat(r, sa);
    ShiftedNat(t, sa);
    ToFromNat(ToNat(r) + ToNat(t), |r|);
    FactorMod(ToNat(r), ToNat(t), Pow2(sa), Pow2(|r|));
  }

  lemma {:induction false} LeftShiftIs(e: Expr, sa: nat, env: Env)
    requires Sized(e) && LeftShiftOf(e, sa).Some?
    ensures var a := LeftShiftOf(e, sa).value;
      Sized(a) && Size(a) == Size(e) && Eval(e, env) == ShiftLeft(Eval(a, env), sa)
  {
    assert Eval(e.b, env) == e.b.bits;
    if e.Mult? { MultIsShift(Eval(e.a, env), sa); }
  }

  /** The second operand of the sum, constant or shifted. */
  function SecondOf(q: Expr, sa: nat): Option<Expr> {
    if q.Const? then ConstantShiftOf(q.bits, sa) else LeftShiftOf(q, sa)
  }

  lemma {:induction false} SecondIs(q: Expr, sa: nat, env: Env)
    requires Sized(q) && SecondOf(q, sa).Some?
    ensures var b := SecondOf(q, sa).value;
      Sized(b) && Size(b) == Size(q) && Eval(q, env) == ShiftLeft(Eval(b, env), sa)
  {
    if !q.Const? { LeftShiftIs(q, sa, env); }
  }

  lemma {:induction false} ShiftAddBit(p: Expr, q: Expr, sa: nat, env: Env, i: nat)
    requires Sized(Add(p, q)) && LeftShiftOf(p, sa).Some? && SecondOf(q, sa).Some? && i + sa < 8 * Size(p)
    ensures var a, b := LeftShiftOf(p, sa).value, SecondOf(q, sa).value;
      Sized(Add(a, b)) && BitAt(Eval(Add(p, q), env), i + sa) == BitAt(Eval(Add(a, b), env), i)
  {
    var a, b := LeftShiftOf(p, sa).value, SecondOf(q, sa).value;
    LeftShiftIs(p, sa, env);
    SecondIs(q, sa, env);
    SumOfShifted(p, q, a, b, sa, env, i);
  }

  lemma {:induction false} SumOfShifted(p: Expr, q: Expr, a: Expr, b: Expr, sa: nat, env: Env, i: nat)
    requires Sized(Add(p, q)) && Sized(Add(a, b)) && Size(a) == Size(p) && i + sa < 8 * Size(p)
    requires Eval(p, env) == ShiftLeft(Eval(a, env), sa) && Eval(q, env) == ShiftLeft(Eval(b, env), sa)
    ensures BitAt(Eval(Add(p, q), env), i + sa) == BitAt(Eval(Add(a, b), env), i)
  {
    EvalAdd(a, b, env);
    EvalAdd(p, q, env);
    ShiftedSumBit(Eval(a, env), Eval(b, env), sa, i);
  }

  lemma {:induction false} EvalAdd(a: Expr, b: Expr, env: Env)
    requires Sized(Add(a, b))
    ensures Eval(Add(a, b), env) == FromNat(ToNat(Eval(a, env)) + ToNat(Eval(b, env)), |Eval(a, env)|)
  {
  }

  lemma {:induction false} ShiftedSumBit(x: Bits, y: Bits, sa: nat, i: nat)
    requires |x| == |y| && i + sa < |x|
    ensures BitAt(FromNat(ToNat(ShiftLeft(x, sa)) + ToNat(ShiftLeft(y, sa)), |x|), i + sa) == BitAt(FromNat(ToNat(x) + ToNat(y), |x|), i)
  {
    ShiftedSum(x, y, sa);
    ShiftedBit(FromNat(ToNat(x) + ToNat(y), |x|), sa, i);
  }

  lemma {:induction false} ShiftedBit(v: Bits, sa: nat, i: nat)
    requires i + sa < |v|
    ensures BitAt(ShiftLeft(v, sa), i + sa) == BitAt(v, i)
  {
  }

  lemma {:induction false} ShiftAddKeeps(e: Expr, y: Expr, c: Expr, n: nat)
    requires Sized(e) && (e == Right(y, c) || e == SRight(y, c)) && c.Const? && y.Add?
    requires AbsorbShiftAdd(y.a, y.b, c.bits, n).Some?
    ensures LowSame(e, AbsorbShiftAdd(y.a, y.b, c.bits, n).value, n)
  {
    var sa := ToNat(c.bits);
    var f := AbsorbShiftAdd(y.a, y.b, c.bits, n).value;
    assert Sized(y) && Size(e) == Size(y) == Size(y.a);
    LeftShiftIs(y.a, sa, Ones());
    SecondIs(y.b, sa, Ones());
    forall env, i ensures LowSameAt(e, f, n, env, i) {
      if 0 <= i < n {
        RightBit(e, y, c, env, i);
        ShiftAddBit(y.a, y.b, sa, env, i);
      }
    }
  }

  predicate AllZero(v: Bits) { forall i :: 0 <= i < |v| ==> !v[i] }

  lemma {:induction false} ZeroIsNothing(v: Bits)
    requires AllZero(v)
    ensures ToNat(v) == 0
  {
    if v != [] { ZeroIsNothing(v[1..]); }
  }

  /** Adding nothing. */
  lemma {:induction false} AddZero(a: Expr, b: Expr, env: Env)
    requires Sized(Add(a, b)) && AllZero(Eval(b, env))
    ensures Eval(Add(a, b), env) == Eval(a, env)
  {
    EvalAdd(a, b, env);
    ZeroIsNothing(Eval(b, env));
    FromToNat(Eval(a, env));
  }

  lemma {:induction false} ShiftedZero(e: Expr, y: Expr, c: Expr, env: Env)
    requires Sized(e) && (e == Right(y, c) || e == SRight(y, c)) && AllZero(Eval(y, env))
    ensures AllZero(Eval(e, env))
  {
  }

  /**
   The shift itself becomes the sum, without a look at who else reads it.  A reader of
   its low `m` bits keeps its value if and only if the shift had not emptied any of them.
   */
  lemma {:induction false} ShiftAddReaders(e: Expr, y: Expr, c: Expr, n: nat, m: nat)
    requires Sized(e) && (e == Right(y, c) || e == SRight(y, c)) && c.Const? && y.Add? && AbsorbShiftAdd(y.a, y.b, c.bits, n).Some?
    requires 0 < m <= 8 * Size(e)
    ensures m + ToNat(c.bits) <= 8 * Size(e) ==> LowSame(e, AbsorbShiftAdd(y.a, y.b, c.bits, n).value, m)
    ensures var f := AbsorbShiftAdd(y.a, y.b, c.bits, n).value;
      f.a.Opaque? && f.b.Opaque? && f.a.id != f.b.id && LowSame(e, f, m) ==> m + ToNat(c.bits) <= 8 * Size(e)
  {
    var sa := ToNat(c.bits);
    var f := AbsorbShiftAdd(y.a, y.b, c.bits, n).value;
    assert Sized(y) && Size(e) == Size(y) == Size(y.a);
    LeftShiftIs(y.a, sa, Ones());
    SecondIs(y.b, sa, Ones());
    if m + sa <= 8 * Size(e) {
      assert AbsorbShiftAdd(y.a, y.b, c.bits, m) == Some(f);
      ShiftAddKeeps(e, y, c, m);
    } else if f.a.Opaque? && f.b.Opaque? && f.a.id != f.b.id {
      EmptiedBit(e, y, c, f.a, f.b, sa, m);
    }
  }

  lemma {:induction false} EmptiedBit(e: Expr, y: Expr, c: Expr, a: Expr, b: Expr, sa: nat, m: nat)
    requires Sized(e) && (e == Right(y, c) || e == SRight(y, c)) && y.Add? && Size(e) == Size(y) == Size(y.a) && Sized(Add(a, b))
    requires LeftShiftOf(y.a, sa) == Some(a) && SecondOf(y.b, sa) == Some(b) && a.Opaque? && b.Opaque? && a.id != b.id
    requires 0 < sa && sa <= 8 * Size(e) && Size(a) == Size(y.a) && 8 * Size(e) - sa < m <= 8 * Size(e)
    ensures !LowSame(e, Add(a, b), m)
  {
    var top := 8 * Size(e) - sa;
    var env := Env(j => false, (id, j) => id == a.id && j == top);
    LeftShiftIs(y.a, sa, env);
    SecondIs(y.b, sa, env);
    assert AllZero(Eval(b, env));
    assert AllZero(Eval(y.a, env)) && AllZero(Eval(y.b, env));
    AddZero(y.a, y.b, env);
    ShiftedZero(e, y, c, env);
    AddZero(a, b, env);
    assert BitAt(Eval(a, env), top) && !BitAt(Eval(e, env), top);
    assert !LowSameAt(e, Add(a, b), m, env, top);
  }

  /** Every simplification keeps the low `n` bits of the value inserted, for all operand values. */
  lemma {:induction false} AbsorbKeepsField(e: Expr, n: nat)
    requires Sized(e) && n <= 8 * Size(e) < 0x4_0000_0000 && Absorb(e, n).Some? && ProperShift(e)
    ensures LowSame(e, Absorb(e, n).value, n)
  {
    match e
    case Subpiece(_, _, _) => SubpieceKeeps(e, n);
    case Right(y, b) => RightKeeps(e, y, b, n);
    case SRight(y, b) => RightKeeps(e, y, b, n);
    case And(a, b) => AndKeeps(a, b, n);
    case Add(_, _) => NestedAndKeeps(e, n);
    case Or(_, _) => NestedAndKeeps(e, n);
    case Xor(_, _) => NestedAndKeeps(e, n);
    case Mult(_, _) => NestedAndKeeps(e, n);
    case _ =>
  }

  lemma {:induction false} RightKeeps(e: Expr, y: Expr, b: Expr, n: nat)
    requires Sized(e) && (e == Right(y, b) || e == SRight(y, b)) && AbsorbRight(e, y, b, n).Some?
    requires n <= 8 * Size(e) < 0x4_0000_0000 && ProperShift(e)
    ensures LowSame(e, AbsorbRight(e, y, b, n).value, n)
  {
    if y.Add? { ShiftAddKeeps(e, y, b, n); } else { RightLeftKeeps(e, y, b, n); }
  }

  // ----- when the rules apply -----

  /** A mask over an unknown value is dropped exactly when that keeps the low `n` bits. */
  lemma {:induction false} MaskIsDropped(id: nat, m: nat, w: bool, v: Bits, n: nat)
    requires |v| == 8 * m && n <= 8 * m
    ensures var a := Opaque(id, m, w);
      Sized(And(a, Const(v))) && (Absorb(And(a, Const(v)), n).Some? <==> LowSame(And(a, Const(v)), a, n))
  {
    var a, b := Opaque(id, m, w), Const(v);
    assert Sized(a) && Sized(b) && Size(b) == Size(a);
    if Absorb(And(a, b), n).Some? {
      AndKeeps(a, b, n);
    } else {
      var i :| 0 <= i < n && !BitAt(v, i);
      var env := Env(j => false, (id, j) => true);
      AndBit(a, b, env, i);
      assert BitAt(Eval(a, env), i) && !LowSameAt(And(a, b), a, n, env, i);
    }
  }

  /** Equal shifts left and right, also with the low piece taken between them, cancel exactly when they leave `n` bits. */
  lemma {:induction false} ShiftsCancel(a: Expr, c: Bits, size: nat, n: nat)
    requires 0 < n <= 8 * Size(a) < 0x4_0000_0000 && n <= 8 * size <= 8 * Size(a) && ToNat(c) < HALF_WORD
    ensures var y := Left(a, Const(c));
      && Absorb(Right(y, Const(c)), n) == (if n + ToNat(c) <= 8 * Size(a) then Some(a) else None)
      && Absorb(SRight(y, Const(c)), n) == (if n + ToNat(c) <= 8 * Size(a) then Some(a) else None)
      && Absorb(Right(Subpiece(y, 0, size), Const(c)), n) == if n + ToNat(c) <= 8 * size then Some(a) else None
  {
    var y := Left(a, Const(c));
    assert Size(Right(y, Const(c))) == Size(y) == Size(a);
    assert Size(SRight(y, Const(c))) == Size(y);
    assert Size(Right(Subpiece(y, 0, size), Const(c))) == Size(Subpiece(y, 0, size)) == size;
    ShiftsLeaveMeans(ToNat(c), 8 * Size(a), n);
    ShiftsLeaveMeans(ToNat(c), 8 * size, n);
  }

  /** A shift right of a sum of two values shifted left is factored out exactly when it leaves `n` bits. */
  lemma {:induction false} ShiftIsFactored(x: Expr, y: Expr, c: Bits, n: nat)
    ensures var sum := Add(Left(x, Const(c)), Left(y, Const(c)));
      Absorb(Right(sum, Const(c)), n) == if 0 < ToNat(c) < 64 && n + ToNat(c) <= 8 * Size(x) then Some(Add(x, y)) else None
  {
    var sa := ToNat(c);
    assert LeftShiftOf(Left(x, Const(c)), sa) == Some(x) && LeftShiftOf(Left(y, Const(c)), sa) == Some(y);
  }

  /** A mask of the low `m` bits inside an operand is dropped exactly when the field has no more bits. */
  lemma {:induction false} NestedMaskIsDropped(x: Expr, y: Expr, v: Bits, m: nat, n: nat)
    requires 0 < m <= |v| && LowOnes(v, m) && !y.And?
    ensures var p := And(x, Const(v));
      && Absorb(Add(p, y), n) == (if n <= m then Some(Add(x, y)) else None)
      && Absorb(Add(y, p), n) == (if n <= m then Some(Add(y, x)) else None)
      && Absorb(Or(p, y), n) == (if n <= m then Some(Or(x, y)) else None)
      && Absorb(Xor(p, y), n) == (if n <= m then Some(Xor(x, y)) else None)
      && Absorb(Mult(p, y), n) == if n <= m then Some(Mult(x, y)) else None
  {
    var p := And(x, Const(v));
    if LowMask(v, n) {
      var k :| n <= k <= |v| && k > 0 && LowOnes(v, k);
      assert v[m - 1] && v[k - 1] && (m < |v| ==> !v[m]) && (k < |v| ==> !v[k]);
      assert k == m;
    }
    assert Unmasked(p, n) == if n <= m then Some(x) else None;
    assert Unmasked(y, n) == None;
  }

  /** Shifted by 2^64 - 1 both ways a value is 0, and the rule takes it for the value itself. */
  lemma {:induction false} HugeShiftIsCancelled(e: Expr, a: Expr, c: Bits, w: bool)
    requires a == Opaque(0, 8, w) && |c| == 64 && (forall i :: 0 <= i < 64 ==> c[i])
    requires e == Right(Left(a, Const(c)), Const(c))
    ensures Sized(e) && Absorb(e, 1) == Some(a) && !LowSame(e, a, 1)
  {
    AllOnes(c);
    WordIsPow2();
    assert Size(a) == 8 && Sized(a) && Sized(Const(c));
    assert Sized(Left(a, Const(c))) && Size(Left(a, Const(c))) == 8;
    assert Sized(e) && Size(e) == 8;
    ShiftsLeaveMeans(WORD - 1, 64, 1);
    RightLeftExactly(e, a, c, 1);
  }

  lemma {:induction false} AllOnes(v: Bits)
    requires forall i :: 0 <= i < |v| ==> v[i]
    ensures ToNat(v) == Pow2(|v|) - 1
  {
    if v != [] { AllOnes(v[1..]); }
  }
}

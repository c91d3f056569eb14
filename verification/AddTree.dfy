/**
 Rewriting pointer arithmetic: an additive tree on a pointer is split into a
 multiple of the element size (PTRADD), an offset into the element (PTRSUB) and a
 remainder (pkg/pcode/addtreestate.go:575-1061).  Non-multiple constants are
 counted twice during the walk and taken back afterwards, all modulo 2^w.

 Expressions are evaluated on machine words (`Eval`) and, for the proofs, over the
 integers (`Value`); `EvalIsValue` joins the two.
 */
module AddTrees {
  import opened Options
  import opened Words

  /** A varnode as the expression that defines it. */
  datatype Vn =
    | Pointer                                       // the base pointer
    | Constant(offset: nat)
    | Sum(left: Vn, right: Vn)                      // INT_ADD
    | Product(term: Vn, factor: Vn)                 // INT_MULT
    | CopyOf(source: Vn)                            // COPY
    | Opaque(id: nat)                               // an input, or the output of any other op
    | Loose(id: nat)                                // neither input nor written
    | PtrAdd(base: Vn, times: Vn, scale: nat)
    | PtrSub(base: Vn, amount: nat)
  {
    predicate IsFree() { Constant? || Loose? }
  }

  /** The values of the pointer and of the opaque varnodes. */
  datatype Env = Env(ptr: int, val: nat -> int)

  /** The machine value modulo `m`. */
  function Eval(v: Vn, env: Env, m: nat): int
    requires m > 0
  {
    match v
    case Pointer => env.ptr % m
    case Constant(c) => c % m
    case Sum(a, b) => (Eval(a, env, m) + Eval(b, env, m)) % m
    case Product(a, b) => (Eval(a, env, m) * Eval(b, env, m)) % m
    case CopyOf(a) => Eval(a, env, m)
    case Opaque(id) => env.val(id) % m
    case Loose(id) => env.val(id) % m
    case PtrAdd(a, b, s) => (Eval(a, env, m) + Eval(b, env, m) * s) % m
    case PtrSub(a, c) => (Eval(a, env, m) + c) % m
  }

  /** The same expression over the integers. */
  function Value(v: Vn, env: Env): int
  {
    match v
    case Pointer => env.ptr
    case Constant(c) => c
    case Sum(a, b) => Value(a, env) + Value(b, env)
    case Product(a, b) => Value(a, env) * Value(b, env)
    case CopyOf(a) => Value(a, env)
    case Opaque(id) => env.val(id)
    case Loose(id) => env.val(id)
    case PtrAdd(a, b, s) => Value(a, env) + Value(b, env) * s
    case PtrSub(a, c) => Value(a, env) + c
  }

  lemma {:induction false} EvalIsValue(v: Vn, env: Env, m: nat)
    requires m > 0
    ensures Eval(v, env, m) == Value(v, env) % m
  {
    match v
    case Sum(a, b) =>
      EvalIsValue(a, env, m);
      EvalIsValue(b, env, m);
      SumOfMods(Value(a, env), Value(b, env), m);
    case Product(a, b) =>
      EvalIsValue(a, env, m);
      EvalIsValue(b, env, m);
      ProductOfMods(Value(a, env), Value(b, env), m);
    case CopyOf(a) =>
      EvalIsValue(a, env, m);
    case PtrAdd(a, b, s) =>
      EvalIsValue(a, env, m);
      EvalIsValue(b, env, m);
      ScaledSum(Value(a, env), Value(b, env), s, m);
    case PtrSub(a, c) =>
      EvalIsValue(a, env, m);
      OffsetMod(Value(a, env), c, m);
    case _ =>
  }

  lemma SumOfMods(x: int, y: int, m: int)
    requires m > 0
    ensures (x % m + y % m) % m == (x + y) % m
  {
    ModOfSum(x, y, m);
  }

  lemma OffsetMod(x: int, c: int, m: int)
    requires m > 0
    ensures (x % m + c) % m == (x + c) % m
  {
    ModOfSum(x, c, m);
  }

  lemma ProductOfMods(x: int, y: int, m: int)
    requires m > 0
    ensures ((x % m) * (y % m)) % m == (x * y) % m
  {
    ModOfProduct(x, y, m);
  }

  lemma ScaledSum(x: int, y: int, s: int, m: int)
    requires m > 0
    ensures (x % m + (y % m) * s) % m == (x + y * s) % m
  {
    var p, q := y * s, (y % m) * s;
    ModOfProduct(y, s, m);
    assert p % m == q % m;
    ModOfSum(x, p, m);
    ModOfSum(x, q, m);
  }

  // ----- congruence -----

  ghost predicate Cong(a: int, b: int, m: int)
    requires m > 0
  {
    exists k: int :: Apart(a, b, k, m)
  }

  ghost predicate Apart(a: int, b: int, k: int, m: int) { a == b + k * m }

  lemma CongBy(a: int, b: int, k: int, m: int)
    requires m > 0 && a == b + k * m
    ensures Cong(a, b, m)
  {
    assert Apart(a, b, k, m);
  }

  lemma CongSum(a: int, b: int, c: int, d: int, m: int)
    requires m > 0 && Cong(a, b, m) && Cong(c, d, m)
    ensures Cong(a + c, b + d, m)
    ensures Cong(a - c, b - d, m)
  {
    var i :| Apart(a, b, i, m);
    var j :| Apart(c, d, j, m);
    assert (i + j) * m == i * m + j * m;
    assert (i - j) * m == i * m - j * m;
    CongBy(a + c, b + d, i + j, m);
    CongBy(a - c, b - d, i - j, m);
  }

  lemma CongScale(a: int, b: int, c: int, m: int)
    requires m > 0 && Cong(a, b, m)
    ensures Cong(a * c, b * c, m)
    ensures Cong(c * a, c * b, m)
  {
    var i :| Apart(a, b, i, m);
    assert a * c == b * c + (i * c) * m by {
      assert (b + i * m) * c == b * c + (i * m) * c;
      assert (i * m) * c == (i * c) * m;
    }
    CongBy(a * c, b * c, i * c, m);
    assert c * a == a * c && c * b == b * c;
  }

  lemma CongTrans(a: int, b: int, c: int, m: int)
    requires m > 0 && Cong(a, b, m) && Cong(b, c, m)
    ensures Cong(a, c, m)
  {
    var i :| Apart(a, b, i, m);
    var j :| Apart(b, c, j, m);
    assert (i + j) * m == i * m + j * m;
    CongBy(a, c, i + j, m);
  }

  lemma CongSelf(a: int, m: int)
    requires m > 0
    ensures Cong(a, a, m)
  {
    assert 0 * m == 0;
    CongBy(a, a, 0, m);
  }

  lemma CongSwap(a: int, b: int, m: int)
    requires m > 0 && Cong(a, b, m)
    ensures Cong(b, a, m)
  {
    var i :| Apart(a, b, i, m);
    assert (-i) * m == -(i * m);
    CongBy(b, a, -i, m);
  }

  lemma CongMod(a: int, m: int)
    requires m > 0
    ensures Cong(a % m, a, m) && Cong(a, a % m, m)
  {
    assert a == a % m + (a / m) * m;
    CongBy(a, a % m, a / m, m);
    CongSwap(a, a % m, m);
  }

  lemma CongIsEqualRemainder(a: int, b: int, m: int)
    requires m > 0
    ensures Cong(a, b, m) <==> a % m == b % m
  {
    if Cong(a, b, m) {
      var i :| Apart(a, b, i, m);
      ShiftByMultiple(b, i, m);
    }
    if a % m == b % m {
      CongMod(a, m);
      CongMod(b, m);
      CongTrans(a, a % m, b, m);
    }
  }

  lemma CongSigned(x: int, m: int)
    requires m > 0
    ensures Cong(Signed(x, m - 1), x, m)
  {
    if x > (m - 1) / 2 {
      assert (-1) * m == -m;
      CongBy(x - m, x, -1, m);
    } else {
      CongSelf(x, m);
    }
  }

  /** Two values less than `m` apart are congruent only when equal. */
  lemma CongSmall(a: int, m: int)
    requires m > 0 && -m < a < m && Cong(a, 0, m)
    ensures a == 0
  {
    var i :| Apart(a, 0, i, m);
    assert (-i) * m == -(i * m);
    if i > 0 { MultipleIsLarge(i, m); }
    if i < 0 { MultipleIsLarge(-i, m); }
  }

  // ----- the walk -----

  datatype Meta = StructType | ArrayType | SpacebaseType | OtherType

  /**
   What the analysis knows of the pointer: `m` is the modulus of its size, `size` the
   element size (0 when unknown), `word` the address unit, `rel` the offset of a
   relative pointer.  `find` is the search for a component at a byte offset (the data
   types behind it are not part of this model).
   */
  datatype Config = Config(
    m: nat, size: nat, word: nat, rel: Option<nat>, meta: Meta, bytes: nat,
    find: (int, nat) -> Option<int>, throughParent: bool)
  {
    predicate Valid() {
      m >= 256 && m % 2 == 0 && size < 0x8000_0000 && word > 0
    }
  }

  /** The terms collected so far. */
  datatype Tally = Tally(
    multsum: nat, nonmultsum: nat, biggest: nat, multiple: seq<(Vn, int)>, nonmult: seq<Vn>,
    valid: bool, distribute: bool, used: bool)

  /** The signed value is a multiple of the element size. */
  predicate IsMultiple(cfg: Config, sval: int) {
    if cfg.size != 0 then sval % cfg.size == 0 else sval == 0
  }

  function Max(x: nat, y: nat): nat { if x < y then y else x }

  function Abs(x: int): nat { if x < 0 then -x else x }

  function Reject(t: Tally): Tally { t.(valid := false) }

  function Coefficient(t: Tally, coeff: nat): Tally { t.(biggest := Max(t.biggest, coeff)) }

  function CheckMult(cfg: Config, t: Tally, term: Vn, factor: Vn, coeff: nat, prevent: bool): (Tally, bool)
    requires cfg.Valid()
    decreases term, 1
  {
    if term.IsFree() then (Reject(t), false)
    else if !factor.Constant? then (Coefficient(t, coeff), true)
    else
      var val := (factor.offset * coeff) % cfg.m;
      var sval := Signed(val, cfg.m - 1);
      if IsMultiple(cfg, sval) then
        (t.(used := t.used || coeff != 1, multiple := t.multiple + [(term, sval)]), false)
      else if val >= cfg.size && cfg.size != 0 then (Reject(t), false)
      else if !prevent && term.Sum? then Span(cfg, t.(distribute := true), term.left, term.right, val, prevent)
      else (Coefficient(t, Abs(sval) % 0x1_0000_0000), true)
  }

  function Assess(cfg: Config, t: Tally, vn: Vn, coeff: nat, prevent: bool): (Tally, bool)
    requires cfg.Valid()
    decreases vn, 1
  {
    match vn
    case Pointer => (t, false)
    case Constant(c) =>
      if IsMultiple(cfg, Signed((c * coeff) % cfg.m, cfg.m - 1)) then
        (t.(used := t.used || coeff != 1, multsum := (t.multsum + c * coeff) % cfg.m), false)
      else
        (t.(used := t.used || (coeff != 1 && (cfg.meta.ArrayType? || cfg.meta.StructType?)),
            nonmultsum := (t.nonmultsum + c * coeff) % cfg.m), true)
    case Sum(a, b) => Span(cfg, t, a, b, coeff, prevent)
    case Product(a, b) => CheckMult(cfg, t, a, b, coeff, prevent)
    case CopyOf(_) => (Reject(t), false)
    case Loose(_) => (Reject(t), false)
    case _ => (Coefficient(t, coeff), true)
  }

  predicate BadForRelative(cfg: Config, t: Tally) {
    cfg.rel.Some? && (t.multsum != 0 || t.nonmultsum >= cfg.size || t.multiple != [])
  }

  function Append(t: Tally, one: bool, a: Vn, two: bool, b: Vn): Tally {
    t.(nonmult := t.nonmult + (if one then [a] else []) + (if two then [b] else []))
  }

  function Span(cfg: Config, t: Tally, a: Vn, b: Vn, coeff: nat, prevent: bool): (Tally, bool)
    requires cfg.Valid()
    decreases Sum(a, b), 0
  {
    var (t1, one) := Assess(cfg, t, a, coeff, prevent);
    if !t1.valid then (t1, false) else
    var (t2, two) := Assess(cfg, t1, b, coeff, prevent);
    if !t2.valid then (t2, false) else
    if BadForRelative(cfg, t2) then (Reject(t2), false)
    else if one && two then (t2, true)
    else (Append(t2, one, a, two, b), false)
  }

  // ----- the ledger -----

  function Terms(multiple: seq<(Vn, int)>, env: Env): int {
    if multiple == [] then 0
    else
      var last := multiple[|multiple| - 1];
      Terms(multiple[..|multiple| - 1], env) + Value(last.0, env) * last.1
  }

  function Rest(nonmult: seq<Vn>, env: Env): int {
    if nonmult == [] then 0
    else Rest(nonmult[..|nonmult| - 1], env) + Value(nonmult[|nonmult| - 1], env)
  }

  lemma TermsAppend(multiple: seq<(Vn, int)>, term: Vn, coeff: int, env: Env)
    ensures Terms(multiple + [(term, coeff)], env) == Terms(multiple, env) + Value(term, env) * coeff
  {
    assert (multiple + [(term, coeff)])[..|multiple|] == multiple;
  }

  lemma RestAppend(nonmult: seq<Vn>, vn: Vn, env: Env)
    ensures Rest(nonmult + [vn], env) == Rest(nonmult, env) + Value(vn, env)
  {
    assert (nonmult + [vn])[..|nonmult|] == nonmult;
  }

  /** The part of the tree's value the tally accounts for. */
  function Ledger(t: Tally, env: Env): int {
    t.multsum + Terms(t.multiple, env) + Rest(t.nonmult, env)
  }

  /** How often the pointer is a summand of the tree. */
  function Pointers(vn: Vn): nat {
    match vn
    case Pointer => 1
    case Sum(a, b) => Pointers(a) + Pointers(b)
    case _ => 0
  }

  /** The constants the walk takes for multiples, summed without wrapping. */
  function MultTotal(cfg: Config, vn: Vn): int
    requires cfg.Valid()
  {
    match vn
    case Constant(c) =>
      var sval := Signed(c % cfg.m, cfg.m - 1);
      if IsMultiple(cfg, sval) then sval else 0
    case Sum(a, b) => MultTotal(cfg, a) + MultTotal(cfg, b)
    case _ => 0
  }

  /** What one step of a plain walk (no coefficient distributed) does to the tally. */
  ghost predicate Accounts(cfg: Config, t: Tally, t': Tally, vn: Vn, non: bool, env: Env)
    requires cfg.Valid()
  {
    if non then
      t'.multsum == t.multsum && t'.multiple == t.multiple && t'.nonmult == t.nonmult && Pointers(vn) == 0
    else
      Cong(Ledger(t', env) + Pointers(vn) * env.ptr, Ledger(t, env) + Value(vn, env), cfg.m)
  }

  ghost predicate Coefficients(cfg: Config, t: Tally) {
    forall i :: 0 <= i < |t.multiple| ==> IsMultiple(cfg, t.multiple[i].1)
  }

  /** The bookkeeping the proofs need besides the ledger. */
  ghost predicate Grows(cfg: Config, t: Tally, t': Tally, vn: Vn, non: bool)
    requires cfg.Valid()
  {
    && |t.nonmult| <= |t'.nonmult|
    && (!non && |t.nonmult| == |t'.nonmult| ==> t'.nonmultsum == t.nonmultsum)
    && (Coefficients(cfg, t) ==> Coefficients(cfg, t'))
    && (t.multsum < cfg.m ==> t'.multsum < cfg.m)
    && (t.nonmultsum < cfg.m ==> t'.nonmultsum < cfg.m)
    && Cong(t'.multsum, t.multsum + MultTotal(cfg, vn), cfg.m)
  }

  lemma {:induction false} DistributeSticks(cfg: Config, t: Tally, vn: Vn, coeff: nat, prevent: bool)
    requires cfg.Valid()
    ensures t.distribute ==> Assess(cfg, t, vn, coeff, prevent).0.distribute
    decreases vn, 1
  {
    match vn
    case Sum(a, b) => DistributeSticksSpan(cfg, t, a, b, coeff, prevent);
    case Product(a, b) =>
      if !a.IsFree() && b.Constant? && a.Sum? {
        DistributeSticksSpan(cfg, t.(distribute := true), a.left, a.right, (b.offset * coeff) % cfg.m, prevent);
      }
    case _ =>
  }

  lemma {:induction false} DistributeSticksSpan(cfg: Config, t: Tally, a: Vn, b: Vn, coeff: nat, prevent: bool)
    requires cfg.Valid()
    ensures t.distribute ==> Span(cfg, t, a, b, coeff, prevent).0.distribute
    decreases Sum(a, b), 0
  {
    DistributeSticks(cfg, t, a, coeff, prevent);
    DistributeSticks(cfg, Assess(cfg, t, a, coeff, prevent).0, b, coeff, prevent);
  }

  ghost predicate Plain(t': Tally) { t'.valid && !t'.distribute }

  lemma ConstantAccounts(cfg: Config, t: Tally, c: nat, prevent: bool, env: Env)
    requires cfg.Valid()
    ensures var (t', non) := Assess(cfg, t, Constant(c), 1, prevent); Accounts(cfg, t, t', Constant(c), non, env)
  {
    var (t', non) := Assess(cfg, t, Constant(c), 1, prevent);
    if !non {
      var rest := Terms(t.multiple, env) + Rest(t.nonmult, env);
      CongMod(t.multsum + c, cfg.m);
      CongSelf(rest, cfg.m);
      CongSum((t.multsum + c) % cfg.m, t.multsum + c, rest, rest, cfg.m);
    }
  }

  lemma ConstantGrows(cfg: Config, t: Tally, c: nat, prevent: bool)
    requires cfg.Valid()
    ensures var (t', non) := Assess(cfg, t, Constant(c), 1, prevent); Grows(cfg, t, t', Constant(c), non)
  {
    var (t', non) := Assess(cfg, t, Constant(c), 1, prevent);
    var sval := Signed(c % cfg.m, cfg.m - 1);
    if non {
      CongSelf(t.multsum, cfg.m);
    } else {
      CongMod(t.multsum + c, cfg.m);
      CongMod(c, cfg.m);
      CongSigned(c % cfg.m, cfg.m);
      CongTrans(sval, c % cfg.m, c, cfg.m);
      CongSwap(sval, c, cfg.m);
      CongSelf(t.multsum, cfg.m);
      CongSum(t.multsum, t.multsum, c, sval, cfg.m);
      CongTrans(t'.multsum, t.multsum + c, t.multsum + sval, cfg.m);
    }
  }

  /** Taking `x * c` off the tree and putting `x * sval` on the tally. */
  lemma SignedCoefficient(ledger: int, x: int, c: int, m: int)
    requires m > 0
    ensures Cong(ledger + x * Signed(c % m, m - 1), ledger + x * c, m)
  {
    var sval := Signed(c % m, m - 1);
    CongMod(c, m);
    CongSigned(c % m, m);
    CongTrans(sval, c % m, c, m);
    CongScale(sval, c, x, m);
    CongSelf(ledger, m);
    CongSum(ledger, ledger, x * sval, x * c, m);
  }

  lemma MultipleAccounts(cfg: Config, t: Tally, t': Tally, a: Vn, c: nat, env: Env)
    requires cfg.Valid() && t'.multsum == t.multsum && t'.nonmult == t.nonmult
    requires t'.multiple == t.multiple + [(a, Signed(c % cfg.m, cfg.m - 1))]
    ensures Accounts(cfg, t, t', Product(a, Constant(c)), false, env)
  {
    TermsAppend(t.multiple, a, Signed(c % cfg.m, cfg.m - 1), env);
    SignedCoefficient(Ledger(t, env), Value(a, env), c, cfg.m);
    assert Pointers(Product(a, Constant(c))) == 0;
    assert Value(Product(a, Constant(c)), env) == Value(a, env) * c;
  }

  lemma ProductAccounts(cfg: Config, t: Tally, a: Vn, b: Vn, prevent: bool, env: Env)
    requires cfg.Valid()
    ensures var (t', non) := Assess(cfg, t, Product(a, b), 1, prevent);
      Plain(t') ==> Accounts(cfg, t, t', Product(a, b), non, env)
  {
    var (t', non) := Assess(cfg, t, Product(a, b), 1, prevent);
    assert CheckMult(cfg, t, a, b, 1, prevent) == (t', non);
    if Plain(t') && b.Constant? {
      var c := b.offset;
      assert c * 1 == c && !a.IsFree();
      if IsMultiple(cfg, Signed(c % cfg.m, cfg.m - 1)) {
        MultipleAccounts(cfg, t, t', a, c, env);
      } else if !prevent && a.Sum? {
        DistributeSticksSpan(cfg, t.(distribute := true), a.left, a.right, c % cfg.m, prevent);
      }
    }
  }

  lemma ProductGrows(cfg: Config, t: Tally, a: Vn, b: Vn, prevent: bool)
    requires cfg.Valid()
    ensures var (t', non) := Assess(cfg, t, Product(a, b), 1, prevent);
      Plain(t') ==> Grows(cfg, t, t', Product(a, b), non)
  {
    CongSelf(t.multsum, cfg.m);
    if b.Constant? && a.Sum? {
      DistributeSticksSpan(cfg, t.(distribute := true), a.left, a.right, (b.offset * 1) % cfg.m, prevent);
    }
  }

  /** The walk keeps the ledger: whatever it takes off the tree it puts on the tally. */
  lemma {:induction false} WalkAccounts(cfg: Config, t: Tally, vn: Vn, prevent: bool, env: Env)
    requires cfg.Valid()
    ensures var (t', non) := Assess(cfg, t, vn, 1, prevent);
      Plain(t') ==> Accounts(cfg, t, t', vn, non, env) && Grows(cfg, t, t', vn, non)
    decreases vn, 1
  {
    CongSelf(Ledger(t, env) + Value(vn, env), cfg.m);
    CongSelf(t.multsum, cfg.m);
    match vn
    case Constant(c) => ConstantAccounts(cfg, t, c, prevent, env); ConstantGrows(cfg, t, c, prevent);
    case Product(a, b) => ProductAccounts(cfg, t, a, b, prevent, env); ProductGrows(cfg, t, a, b, prevent);
    case Sum(a, b) => SpanAccounts(cfg, t, a, b, prevent, env);
    case _ =>
  }

  lemma {:induction false} SpanAccounts(cfg: Config, t: Tally, a: Vn, b: Vn, prevent: bool, env: Env)
    requires cfg.Valid()
    ensures var (t', non) := Span(cfg, t, a, b, 1, prevent);
      Plain(t') ==> Accounts(cfg, t, t', Sum(a, b), non, env) && Grows(cfg, t, t', Sum(a, b), non)
    decreases Sum(a, b), 0
  {
    if Plain(Span(cfg, t, a, b, 1, prevent).0) {
      SpanShape(cfg, t, a, b, prevent);
      var (t1, one) := Assess(cfg, t, a, 1, prevent);
      var (t2, two) := Assess(cfg, t1, b, 1, prevent);
      WalkAccounts(cfg, t, a, prevent, env);
      WalkAccounts(cfg, t1, b, prevent, env);
      JoinAccounts(cfg, t, t1, t2, a, one, b, two, env);
      JoinGrows(cfg, t, t1, t2, a, one, b, two);
    }
  }

  /** A walk that ends well was well at both operands. */
  lemma {:induction false} SpanShape(cfg: Config, t: Tally, a: Vn, b: Vn, prevent: bool)
    requires cfg.Valid() && Plain(Span(cfg, t, a, b, 1, prevent).0)
    ensures var (t1, one) := Assess(cfg, t, a, 1, prevent);
      var (t2, two) := Assess(cfg, t1, b, 1, prevent);
      Plain(t1) && Plain(t2) && !BadForRelative(cfg, t2)
      && Span(cfg, t, a, b, 1, prevent) == (if one && two then (t2, true) else (Append(t2, one, a, two, b), false))
  {
    DistributeSticks(cfg, Assess(cfg, t, a, 1, prevent).0, b, 1, prevent);
  }

  lemma JoinGrows(cfg: Config, t: Tally, t1: Tally, t2: Tally, a: Vn, one: bool, b: Vn, two: bool)
    requires cfg.Valid() && Grows(cfg, t, t1, a, one) && Grows(cfg, t1, t2, b, two)
    ensures one && two ==> Grows(cfg, t, t2, Sum(a, b), true)
    ensures !(one && two) ==> Grows(cfg, t, Append(t2, one, a, two, b), Sum(a, b), false)
  {
    var x, y := MultTotal(cfg, a), MultTotal(cfg, b);
    CongSelf(y, cfg.m);
    CongSum(t1.multsum, t.multsum + x, y, y, cfg.m);
    CongTrans(t2.multsum, t1.multsum + y, t.multsum + x + y, cfg.m);
    assert MultTotal(cfg, Sum(a, b)) == x + y;
  }

  lemma {:induction false} PointersOfSum(a: Vn, b: Vn, ptr: int)
    ensures Pointers(Sum(a, b)) * ptr == Pointers(a) * ptr + Pointers(b) * ptr
  {
    Distribute(Pointers(a), Pointers(b), ptr);
  }

  lemma Distribute(x: int, y: int, z: int)
    ensures (x + y) * z == x * z + y * z
  {
  }

  lemma JoinAccounts(cfg: Config, t: Tally, t1: Tally, t2: Tally, a: Vn, one: bool, b: Vn, two: bool, env: Env)
    requires cfg.Valid() && Accounts(cfg, t, t1, a, one, env) && Accounts(cfg, t1, t2, b, two, env)
    ensures one && two ==> Accounts(cfg, t, t2, Sum(a, b), true, env)
    ensures !(one && two) ==> Accounts(cfg, t, Append(t2, one, a, two, b), Sum(a, b), false, env)
  {
    if !one || !two {
      JoinLedgers(cfg, t, t1, t2, a, one, b, two, env);
      assert Value(Sum(a, b), env) == Value(a, env) + Value(b, env);
    }
  }

  lemma JoinLedgers(cfg: Config, t: Tally, t1: Tally, t2: Tally, a: Vn, one: bool, b: Vn, two: bool, env: Env)
    requires cfg.Valid() && Accounts(cfg, t, t1, a, one, env) && Accounts(cfg, t1, t2, b, two, env) && !(one && two)
    ensures Cong(Ledger(Append(t2, one, a, two, b), env) + Pointers(Sum(a, b)) * env.ptr,
      Ledger(t, env) + (Value(a, env) + Value(b, env)), cfg.m)
  {
    var p, q := Pointers(a) * env.ptr, Pointers(b) * env.ptr;
    PointersOfSum(a, b, env.ptr);
    AppendLedger(t2, one, a, two, b, env);
    JoinCases(Ledger(t, env), Ledger(t1, env), Ledger(t2, env), p, q, Value(a, env), Value(b, env), one, two, cfg.m);
  }

  lemma JoinCases(l: int, l1: int, l2: int, p: int, q: int, x: int, y: int, one: bool, two: bool, m: int)
    requires m > 0 && !(one && two)
    requires if one then l1 == l && p == 0 else Cong(l1 + p, l + x, m)
    requires if two then l2 == l1 && q == 0 else Cong(l2 + q, l1 + y, m)
    ensures Cong(l2 + (if one then x else 0) + (if two then y else 0) + (p + q), l + (x + y), m)
  {
    if one {
      JoinOne(l1, l2 + q, x, y, m);
    } else if two {
      JoinOne(l, l1 + p, y, x, m);
    } else {
      JoinBoth(l, l1, l2, p, q, x, y, m);
    }
  }

  lemma AppendLedger(t: Tally, one: bool, a: Vn, two: bool, b: Vn, env: Env)
    requires !one || !two
    ensures Ledger(Append(t, one, a, two, b), env)
      == Ledger(t, env) + (if one then Value(a, env) else 0) + (if two then Value(b, env) else 0)
  {
    var t' := Append(t, one, a, two, b);
    if one {
      assert t'.nonmult == t.nonmult + [a];
      RestAppend(t.nonmult, a, env);
    } else if two {
      assert t'.nonmult == t.nonmult + [b];
      RestAppend(t.nonmult, b, env);
    } else {
      assert t'.nonmult == t.nonmult;
    }
  }

  lemma JoinOne(l: int, l': int, x: int, y: int, m: int)
    requires m > 0 && Cong(l', l + y, m)
    ensures Cong(l' + x, l + (x + y), m)
  {
    CongSelf(x, m);
    CongSum(l', l + y, x, x, m);
  }

  lemma JoinBoth(l: int, l1: int, l2: int, p: int, q: int, x: int, y: int, m: int)
    requires m > 0 && Cong(l1 + p, l + x, m) && Cong(l2 + q, l1 + y, m)
    ensures Cong(l2 + (p + q), l + (x + y), m)
  {
    JoinOne(l, l1 + p, y, x, m);
    JoinOne(l1, l2 + q, p, y, m);
    CongTrans(l2 + q + p, l1 + (p + y), l + (y + x), m);
  }

  // ----- splitting the constant -----

  /** Division that drops the fraction, as the machine divides signed numbers. */
  function TruncDiv(x: int, d: nat): int
    requires d > 0
  {
    if x >= 0 then x / d else -((-x) / d)
  }

  function TruncMod(x: int, d: nat): int
    requires d > 0
  {
    x - d * TruncDiv(x, d)
  }

  function SignedWord(x: int): int { Signed(x % WORD, WORD - 1) }

  /** How the constant part is split between PTRADD (`multsum`), PTRSUB (`offset`) and the remainder (`correct`). */
  datatype Plan = Plan(offset: nat, correct: nat, multsum: nat, isSubtype: bool, valid: bool)

  function Total(cfg: Config, t: Tally): nat
    requires cfg.Valid()
  {
    (t.multsum + t.nonmultsum) % cfg.m
  }

  /** A negative offset that is read as an array index below this level. */
  predicate LowerLevel(cfg: Config, t: Tally) {
    cfg.meta.StructType? && t.biggest != 0 && t.multsum == 0
  }

  /** The part of the summed constant that stays inside one element. */
  function OffsetIn(m: nat, size: nat, total: nat, lower: bool): nat
    requires m > 0
  {
    if size == 0 || total < size then total
    else
      var r := TruncMod(Signed(total, m - 1), size);
      if r >= 0 then r else if lower then total else (r + size) % m
  }

  function Offset(cfg: Config, t: Tally): nat
    requires cfg.Valid()
  {
    OffsetIn(cfg.m, cfg.size, Total(cfg, t), LowerLevel(cfg, t))
  }

  /** Moving the component's own offset from the PTRSUB to the remainder. */
  function MoveOffset(cfg: Config, p: Plan, extra: int): Plan
    requires cfg.Valid()
  {
    var units := if extra >= 0 then extra / cfg.word else -((-extra) / cfg.word);
    p.(offset := (p.offset - units) % cfg.m, correct := (p.correct - units) % cfg.m)
  }

  function MakeRelative(cfg: Config, p: Plan): Plan
    requires cfg.Valid()
  {
    if cfg.rel.None? then p
    else p.(offset := (p.offset - cfg.rel.value) % cfg.m, correct := (p.correct - cfg.rel.value) % cfg.m)
  }

  function SplitConstant(cfg: Config, t: Tally): Plan
    requires cfg.Valid()
  {
    Plan(Offset(cfg, t), t.nonmultsum, (Total(cfg, t) - Offset(cfg, t)) % cfg.m, false, t.valid)
  }

  function IntoStruct(cfg: Config, t: Tally, p: Plan): Plan
    requires cfg.Valid()
  {
    var at := SignedWord(Signed(p.offset, cfg.m - 1) * cfg.word);
    var found := cfg.find(at, t.biggest);
    if found.None? && (at < 0 || at >= cfg.bytes) then p.(valid := false)
    else
      var q := MoveOffset(cfg, p, if found.Some? then found.value else 0);
      if cfg.rel.Some? && q.offset == cfg.rel.value && !cfg.throughParent then q.(valid := false)
      else MakeRelative(cfg, q.(isSubtype := true))
  }

  function SubtypePlan(cfg: Config, t: Tally): Plan
    requires cfg.Valid()
  {
    var p := SplitConstant(cfg, t);
    if t.nonmult == [] then
      if p.multsum == 0 && t.multiple == [] then p.(valid := false) else MakeRelative(cfg, p)
    else match cfg.meta
      case SpacebaseType =>
        var found := cfg.find(SignedWord(p.offset * cfg.word), t.biggest);
        if found.None? then p.(valid := false) else MakeRelative(cfg, MoveOffset(cfg, p, found.value).(isSubtype := true))
      case StructType => IntoStruct(cfg, t, p)
      case ArrayType => MakeRelative(cfg, p.(isSubtype := true, correct := (p.correct - p.offset) % cfg.m, offset := 0))
      case OtherType => MakeRelative(cfg, p.(valid := false))
  }

  // ----- building -----

  function Scaled(vn: Vn, coeff: int, m: nat): Vn
    requires m > 0
  {
    if coeff != 1 then Product(vn, Constant(coeff % m)) else vn
  }

  function Plus(vn: Vn, result: Option<Vn>): Option<Vn> {
    match result
    case None => Some(vn)
    case Some(r) => Some(Sum(vn, r))
  }

  function Multiples(cfg: Config, multsum: nat, multiple: seq<(Vn, int)>): Option<Vn>
    requires cfg.Valid() && cfg.size != 0
  {
    if multiple == [] then
      var k := TruncDiv(Signed(multsum, cfg.m - 1), cfg.size);
      if k != 0 then Some(Constant(k % cfg.m)) else None
    else
      var last := multiple[|multiple| - 1];
      Plus(Scaled(last.0, TruncDiv(last.1, cfg.size), cfg.m), Multiples(cfg, multsum, multiple[..|multiple| - 1]))
  }

  /** The non-multiple terms, their constants folded into the correction. */
  function Gather(m: nat, correct: nat, nonmult: seq<Vn>): (Option<Vn>, nat)
    requires m > 0
  {
    if nonmult == [] then (None, correct)
    else
      var (r, c) := Gather(m, correct, nonmult[..|nonmult| - 1]);
      var vn := nonmult[|nonmult| - 1];
      if vn.Constant? then (r, (c - vn.offset) % m) else (Plus(vn, r), c)
  }

  function Extra(m: nat, correct: nat, nonmult: seq<Vn>): Option<Vn>
    requires m > 0
  {
    var (r, c) := Gather(m, correct, nonmult);
    if c != 0 then Plus(Constant((0 - c) % m), r) else r
  }

  /** The rewritten expression; nothing when no op would be built. */
  function Tree(cfg: Config, t: Tally, p: Plan): Option<Vn>
    requires cfg.Valid()
  {
    var mult := if cfg.size == 0 then None else Multiples(cfg, p.multsum, t.multiple);
    var extra := Extra(cfg.m, p.correct, t.nonmult);
    var scaled := if mult.Some? then PtrAdd(Pointer, mult.value, cfg.size) else Pointer;
    var inside := if p.isSubtype then PtrSub(scaled, p.offset) else scaled;
    if extra.Some? then Some(Sum(inside, extra.value))
    else if mult.Some? || p.isSubtype then Some(inside)
    else None
  }

  // ----- what is built -----

  function OptValue(v: Option<Vn>, env: Env): int {
    if v.Some? then Value(v.value, env) else 0
  }

  lemma PlusValue(vn: Vn, result: Option<Vn>, env: Env)
    ensures OptValue(Plus(vn, result), env) == Value(vn, env) + OptValue(result, env)
  {
  }

  /** The part of `multsum` that the element count of the PTRADD does not carry. */
  function Lost(cfg: Config, multsum: int): int
    requires cfg.Valid()
  {
    if cfg.size == 0 then Signed(multsum, cfg.m - 1) else TruncMod(Signed(multsum, cfg.m - 1), cfg.size)
  }

  lemma ExactQuotient(x: int, d: nat)
    requires d > 0 && x % d == 0
    ensures TruncDiv(x, d) * d == x
  {
    if x < 0 {
      var q := x / d;
      assert x == q * d;
      assert -x == (-q) * d;
      RemainderUnique(-x, d, -q, 0);
    }
  }

  lemma ScaledValue(vn: Vn, coeff: int, size: nat, m: nat, env: Env)
    requires m > 0 && size > 0 && coeff % size == 0
    ensures Cong(Value(Scaled(vn, TruncDiv(coeff, size), m), env) * size, Value(vn, env) * coeff, m)
  {
    var k := TruncDiv(coeff, size);
    var x := Value(vn, env);
    ExactQuotient(coeff, size);
    assert (x * k) * size == x * coeff by { assert (x * k) * size == x * (k * size); }
    if k != 1 {
      assert Value(Constant(k % m), env) == k % m;
      CongMod(k, m);
      CongScale(k % m, k, x, m);
      CongScale(x * (k % m), x * k, size, m);
    } else {
      CongSelf(x * coeff, m);
    }
  }

  lemma {:induction false} MultiplesValue(cfg: Config, multsum: nat, multiple: seq<(Vn, int)>, env: Env)
    requires cfg.Valid() && cfg.size != 0
    requires forall i :: 0 <= i < |multiple| ==> IsMultiple(cfg, multiple[i].1)
    ensures Cong(OptValue(Multiples(cfg, multsum, multiple), env) * cfg.size,
      Signed(multsum, cfg.m - 1) - Lost(cfg, multsum) + Terms(multiple, env), cfg.m)
  {
    if multiple == [] {
      var k := TruncDiv(Signed(multsum, cfg.m - 1), cfg.size);
      CongMod(k, cfg.m);
      CongSelf(k * cfg.size, cfg.m);
      CongScale(k % cfg.m, k, cfg.size, cfg.m);
      assert k * cfg.size == cfg.size * k;
    } else {
      var before, last := multiple[..|multiple| - 1], multiple[|multiple| - 1];
      MultiplesValue(cfg, multsum, before, env);
      ScaledValue(last.0, last.1, cfg.size, cfg.m, env);
      var v := Scaled(last.0, TruncDiv(last.1, cfg.size), cfg.m);
      PlusValue(v, Multiples(cfg, multsum, before), env);
      var x, y := Value(v, env), OptValue(Multiples(cfg, multsum, before), env);
      Distribute(x, y, cfg.size);
      CongSum(x * cfg.size, Value(last.0, env) * last.1, y * cfg.size,
        Signed(multsum, cfg.m - 1) - Lost(cfg, multsum) + Terms(before, env), cfg.m);
    }
  }

  lemma {:induction false} GatherValue(m: nat, correct: nat, nonmult: seq<Vn>, env: Env)
    requires m > 0
    ensures var (r, c) := Gather(m, correct, nonmult); Cong(OptValue(r, env) - c, Rest(nonmult, env) - correct, m)
  {
    if nonmult == [] {
      CongSelf(0 - correct, m);
    } else {
      var before, vn := nonmult[..|nonmult| - 1], nonmult[|nonmult| - 1];
      var (r, c) := Gather(m, correct, before);
      GatherValue(m, correct, before, env);
      var x := Value(vn, env);
      CongSelf(x, m);
      CongSum(OptValue(r, env) - c, Rest(before, env) - correct, x, x, m);
      if vn.Constant? {
        CongMod(c - x, m);
        CongSelf(OptValue(r, env), m);
        CongSum(OptValue(r, env), OptValue(r, env), (c - x) % m, c - x, m);
        CongTrans(OptValue(r, env) - (c - x) % m, OptValue(r, env) - c + x, Rest(nonmult, env) - correct, m);
      } else {
        PlusValue(vn, r, env);
      }
    }
  }

  lemma ExtraValue(m: nat, correct: nat, nonmult: seq<Vn>, env: Env)
    requires m > 0
    ensures Cong(OptValue(Extra(m, correct, nonmult), env), Rest(nonmult, env) - correct, m)
  {
    var (r, c) := Gather(m, correct, nonmult);
    GatherValue(m, correct, nonmult, env);
    if c != 0 {
      var x := OptValue(r, env);
      PlusValue(Constant((0 - c) % m), r, env);
      CongMod(0 - c, m);
      CongSelf(x, m);
      CongSum(x, x, (0 - c) % m, 0 - c, m);
      CongTrans((0 - c) % m + x, x - c, Rest(nonmult, env) - correct, m);
    }
  }

  lemma {:induction false} ZeroTerms(cfg: Config, multiple: seq<(Vn, int)>, env: Env)
    requires cfg.size == 0 && forall i :: 0 <= i < |multiple| ==> IsMultiple(cfg, multiple[i].1)
    ensures Terms(multiple, env) == 0
  {
    if multiple != [] {
      ZeroTerms(cfg, multiple[..|multiple| - 1], env);
      assert multiple[|multiple| - 1].1 == 0;
    }
  }

  /** The count of elements times their size, over the integers. */
  function Stepped(cfg: Config, t: Tally, p: Plan, env: Env): int
    requires cfg.Valid()
  {
    if cfg.size == 0 then 0 else OptValue(Multiples(cfg, p.multsum, t.multiple), env) * cfg.size
  }

  function Inside(p: Plan): int { if p.isSubtype then p.offset else 0 }

  lemma SteppedValue(cfg: Config, t: Tally, p: Plan, env: Env)
    requires cfg.Valid() && Coefficients(cfg, t) && (cfg.size == 0 ==> p.multsum == 0)
    ensures Cong(Stepped(cfg, t, p, env), p.multsum - Lost(cfg, p.multsum) + Terms(t.multiple, env), cfg.m)
  {
    if cfg.size == 0 {
      ZeroTerms(cfg, t.multiple, env);
      CongSelf(0, cfg.m);
    } else {
      MultiplesValue(cfg, p.multsum, t.multiple, env);
      var rest := Terms(t.multiple, env) - Lost(cfg, p.multsum);
      CongSigned(p.multsum, cfg.m);
      CongSelf(rest, cfg.m);
      CongSum(Signed(p.multsum, cfg.m - 1), p.multsum, rest, rest, cfg.m);
      CongTrans(Stepped(cfg, t, p, env), Signed(p.multsum, cfg.m - 1) + rest, p.multsum + rest, cfg.m);
    }
  }

  lemma TreeIsSum(cfg: Config, t: Tally, p: Plan, env: Env)
    requires cfg.Valid() && Tree(cfg, t, p).Some?
    ensures Value(Tree(cfg, t, p).value, env)
      == env.ptr + Stepped(cfg, t, p, env) + Inside(p) + OptValue(Extra(cfg.m, p.correct, t.nonmult), env)
  {
    var mult := if cfg.size == 0 then None else Multiples(cfg, p.multsum, t.multiple);
    var scaled := if mult.Some? then PtrAdd(Pointer, mult.value, cfg.size) else Pointer;
    assert Value(Pointer, env) == env.ptr;
    assert Value(scaled, env) == env.ptr + Stepped(cfg, t, p, env);
    var inside := if p.isSubtype then PtrSub(scaled, p.offset) else scaled;
    assert Value(inside, env) == Value(scaled, env) + Inside(p);
  }

  lemma TreeValue(cfg: Config, t: Tally, p: Plan, env: Env)
    requires cfg.Valid() && Coefficients(cfg, t) && (cfg.size == 0 ==> p.multsum == 0) && Tree(cfg, t, p).Some?
    ensures Cong(Value(Tree(cfg, t, p).value, env),
      env.ptr + p.multsum - Lost(cfg, p.multsum) + Inside(p) - p.correct + Terms(t.multiple, env) + Rest(t.nonmult, env),
      cfg.m)
  {
    var m := cfg.m;
    TreeIsSum(cfg, t, p, env);
    SteppedValue(cfg, t, p, env);
    ExtraValue(m, p.correct, t.nonmult, env);
    var head := env.ptr + Inside(p);
    CongSelf(head, m);
    var s, x := Stepped(cfg, t, p, env), OptValue(Extra(m, p.correct, t.nonmult), env);
    var s', x' := p.multsum - Lost(cfg, p.multsum) + Terms(t.multiple, env), Rest(t.nonmult, env) - p.correct;
    CongSum(s, s', x, x', m);
    CongSum(head, head, s + x, s' + x', m);
  }

  // ----- the double count is taken back -----

  /** The constant counted once: what PTRADD, PTRSUB and correction make together. */
  ghost predicate Balanced(cfg: Config, t: Tally, p: Plan)
    requires cfg.Valid()
  {
    Cong(p.offset + p.multsum - p.correct, t.multsum, cfg.m)
  }

  lemma SplitIsBalanced(cfg: Config, t: Tally)
    requires cfg.Valid()
    ensures Balanced(cfg, t, SplitConstant(cfg, t))
  {
    var total, offset := Total(cfg, t), Offset(cfg, t);
    CongMod(total - offset, cfg.m);
    CongMod(t.multsum + t.nonmultsum, cfg.m);
    CongSelf(offset, cfg.m);
    CongSelf(t.nonmultsum, cfg.m);
    CongSum(offset, offset, (total - offset) % cfg.m, total - offset, cfg.m);
    CongTrans(offset + (total - offset) % cfg.m, total, t.multsum + t.nonmultsum, cfg.m);
    CongSum(offset + (total - offset) % cfg.m, t.multsum + t.nonmultsum, t.nonmultsum, t.nonmultsum, cfg.m);
  }

  lemma MoveKeepsBalance(cfg: Config, t: Tally, p: Plan, p': Plan, units: int)
    requires cfg.Valid() && Balanced(cfg, t, p) && p'.multsum == p.multsum
    requires p'.offset == (p.offset - units) % cfg.m && p'.correct == (p.correct - units) % cfg.m
    ensures Balanced(cfg, t, p')
  {
    var m := cfg.m;
    CongMod(p.offset - units, m);
    CongMod(p.correct - units, m);
    CongSelf(p.multsum, m);
    CongSum(p'.offset, p.offset - units, p.multsum, p.multsum, m);
    CongSum(p'.offset + p.multsum, p.offset - units + p.multsum, p'.correct, p.correct - units, m);
    CongTrans(p'.offset + p.multsum - p'.correct, p.offset + p.multsum - p.correct, t.multsum, m);
  }

  lemma RelativeKeepsBalance(cfg: Config, t: Tally, p: Plan)
    requires cfg.Valid() && Balanced(cfg, t, p)
    ensures Balanced(cfg, t, MakeRelative(cfg, p))
  {
    if cfg.rel.Some? { MoveKeepsBalance(cfg, t, p, MakeRelative(cfg, p), cfg.rel.value); }
  }

  lemma MoveOffsetKeepsBalance(cfg: Config, t: Tally, p: Plan, extra: int)
    requires cfg.Valid() && Balanced(cfg, t, p)
    ensures Balanced(cfg, t, MoveOffset(cfg, p, extra))
  {
    var units := if extra >= 0 then extra / cfg.word else -((-extra) / cfg.word);
    MoveKeepsBalance(cfg, t, p, MoveOffset(cfg, p, extra), units);
  }

  lemma SubtypeIsBalanced(cfg: Config, t: Tally)
    requires cfg.Valid() && SubtypePlan(cfg, t).isSubtype && SubtypePlan(cfg, t).valid
    ensures Balanced(cfg, t, SubtypePlan(cfg, t))
    ensures SubtypePlan(cfg, t).multsum == SplitConstant(cfg, t).multsum
  {
    var p := SplitConstant(cfg, t);
    SplitIsBalanced(cfg, t);
    match cfg.meta
    case SpacebaseType =>
      var found := cfg.find(SignedWord(p.offset * cfg.word), t.biggest);
      if found.Some? {
        MoveOffsetKeepsBalance(cfg, t, p, found.value);
        RelativeKeepsBalance(cfg, t, MoveOffset(cfg, p, found.value).(isSubtype := true));
      }
    case StructType =>
      var found := cfg.find(SignedWord(Signed(p.offset, cfg.m - 1) * cfg.word), t.biggest);
      var q := MoveOffset(cfg, p, if found.Some? then found.value else 0);
      MoveOffsetKeepsBalance(cfg, t, p, if found.Some? then found.value else 0);
      RelativeKeepsBalance(cfg, t, q.(isSubtype := true));
    case ArrayType =>
      var q := p.(isSubtype := true, correct := (p.correct - p.offset) % cfg.m, offset := 0);
      MoveKeepsBalance(cfg, t, p, q, p.offset);
      RelativeKeepsBalance(cfg, t, q);
    case OtherType =>
  }

  // ----- when nothing is lost -----

  /**
   The summed constant is so far below zero that rounding it down to a multiple of
   the element size leaves the signed range.
   */
  predicate Underflows(m: nat, size: nat, total: nat, lower: bool)
    requires m > 0
  {
    && 0 < size <= total
    && !lower
    && TruncMod(Signed(total, m - 1), size) < 0
    && size * TruncDiv(Signed(total, m - 1), size) - size < -(m / 2)
  }

  /** The signed sum is a multiple of the element size. */
  predicate WholeElements(m: nat, size: nat, total: nat)
    requires m > 0
  {
    size == 0 || Signed(total, m - 1) % size == 0
  }

  lemma TruncFacts(x: int, d: nat)
    requires d > 0
    ensures x >= 0 ==> 0 <= TruncMod(x, d) < d && TruncMod(x, d) <= x
    ensures x <= 0 ==> 0 - d < TruncMod(x, d) <= 0 && x <= TruncMod(x, d)
    ensures TruncMod(x, d) == 0 <==> x % d == 0
  {
    if x >= 0 {
      ModIsRest(x, d);
    } else {
      ModIsRest(-x, d);
      assert d * (-((-x) / d)) == -(d * ((-x) / d));
      NegatedMultiple(x, d);
    }
  }

  lemma ModIsRest(x: nat, d: nat)
    requires d > 0
    ensures x - d * (x / d) == x % d && 0 <= x % d < d && x % d <= x
  {
    MulNonNegative(d, x / d);
  }

  lemma MulNonNegative(x: nat, y: nat)
    ensures x * y >= 0
  {
  }

  lemma NegatedMultiple(x: int, d: nat)
    requires d > 0
    ensures (-x) % d == 0 <==> x % d == 0
  {
    var p, q := x / d, (-x) / d;
    if x % d == 0 {
      assert -x == (-p) * d;
      RemainderUnique(-x, d, -p, 0);
    }
    if (-x) % d == 0 {
      assert x == (-q) * d;
      RemainderUnique(x, d, -q, 0);
    }
  }

  lemma TruncModOfMultiple(k: int, d: nat)
    requires d > 0
    ensures TruncMod(d * k, d) == 0
  {
    MultipleHasNoRemainder(k, d);
    TruncFacts(d * k, d);
  }

  lemma SignedOf(x: int, m: nat)
    requires m >= 2 && m % 2 == 0 && -(m / 2) <= x < m / 2
    ensures Signed(x % m, m - 1) == x
  {
    assert (m - 1) / 2 == m / 2 - 1;
    if x < 0 {
      RemainderUnique(x, m, -1, x + m);
    } else {
      SmallMod(x, m);
    }
  }

  /** What the PTRADD loses of `total` after the offset is split off. */
  function LostOf(m: nat, size: nat, total: nat, lower: bool): int
    requires m > 0 && size > 0
  {
    TruncMod(Signed((total - OffsetIn(m, size, total, lower)) % m, m - 1), size)
  }

  lemma LostWhenSmall(m: nat, size: nat, total: nat, lower: bool)
    requires m >= 2 && m % 2 == 0 && size > 0 && total < m
    requires OffsetIn(m, size, total, lower) == total
    ensures LostOf(m, size, total, lower) == 0
  {
    assert total - total == 0 && 0 % m == 0;
    assert size * 0 == 0;
    TruncModOfMultiple(0, size);
  }

  lemma LostWhenRoundedUp(m: nat, size: nat, total: nat, lower: bool)
    requires m >= 2 && m % 2 == 0 && 0 < size <= total < m
    requires TruncMod(Signed(total, m - 1), size) >= 0
    ensures LostOf(m, size, total, lower) == 0
  {
    var T := Signed(total, m - 1);
    var k := TruncDiv(T, size);
    var r := TruncMod(T, size);
    TruncFacts(T, size);
    assert OffsetIn(m, size, total, lower) == r;
    if T >= 0 {
      SignedOf(T - r, m);
    } else {
      assert r == 0;
      SmallMod(total, m);
    }
    assert Signed((total - r) % m, m - 1) == size * k;
    TruncModOfMultiple(k, size);
  }

  lemma RoundedDownOffset(m: nat, size: nat, total: nat)
    requires m >= 2 && m % 2 == 0 && 0 < size <= total < m
    requires TruncMod(Signed(total, m - 1), size) < 0
    ensures OffsetIn(m, size, total, false) == TruncMod(Signed(total, m - 1), size) + size
    ensures 0 < OffsetIn(m, size, total, false) < size
    ensures Signed(total, m - 1) == total - m
  {
    var r := TruncMod(Signed(total, m - 1), size);
    TruncFacts(Signed(total, m - 1), size);
    SmallMod(r + size, m);
  }

  /** The multiple of the element size at or below the signed sum. */
  function Floor(m: nat, size: nat, total: nat): int
    requires m > 0 && size > 0
  {
    size * (TruncDiv(Signed(total, m - 1), size) - 1)
  }

  lemma FloorFacts(m: nat, size: nat, total: nat)
    requires m >= 2 && m % 2 == 0 && 0 < size <= total < m
    requires TruncMod(Signed(total, m - 1), size) < 0
    ensures Floor(m, size, total) + OffsetIn(m, size, total, false) == total - m
    ensures Floor(m, size, total) % size == 0
    ensures 0 - m < Floor(m, size, total) < 0
    ensures Underflows(m, size, total, false) <==> Floor(m, size, total) < -(m / 2)
    ensures LostOf(m, size, total, false) == TruncMod(Signed(Floor(m, size, total) % m, m - 1), size)
  {
    RoundedDownOffset(m, size, total);
    FloorValue(size, Signed(total, m - 1));
    FloorShift(m, Floor(m, size, total));
  }

  lemma FloorValue(size: nat, x: int)
    requires size > 0
    ensures size * (TruncDiv(x, size) - 1) + (TruncMod(x, size) + size) == x
    ensures size * (TruncDiv(x, size) - 1) == size * TruncDiv(x, size) - size
    ensures (size * (TruncDiv(x, size) - 1)) % size == 0
  {
    StepDown(size, TruncDiv(x, size));
  }

  lemma StepDown(size: nat, k: int)
    requires size > 0
    ensures size * (k - 1) == size * k - size
    ensures (size * (k - 1)) % size == 0
  {
    MultipleHasNoRemainder(k - 1, size);
  }

  lemma FloorShift(m: nat, floor: int)
    requires m > 0
    ensures (floor + m) % m == floor % m
  {
    ShiftByMultiple(floor, 1, m);
  }

  lemma MultipleTruncates(x: int, d: nat)
    requires d > 0 && x % d == 0
    ensures TruncMod(x, d) == 0
  {
    TruncFacts(x, d);
  }

  lemma PositiveTruncMod(x: nat, d: nat)
    requires d > 0
    ensures TruncMod(x, d) == x % d
  {
  }

  /** Rounding down past the signed range loses the remainder of the ring's size. */
  lemma LostWhenRoundedDown(m: nat, size: nat, total: nat)
    requires m >= 2 && m % 2 == 0 && 0 < size <= total < m
    requires TruncMod(Signed(total, m - 1), size) < 0
    ensures !Underflows(m, size, total, false) ==> LostOf(m, size, total, false) == 0
    ensures Underflows(m, size, total, false) ==> LostOf(m, size, total, false) == (m + Floor(m, size, total)) % size
  {
    FloorFacts(m, size, total);
    LostOfFloor(m, size, Floor(m, size, total));
  }

  lemma LostOfFloor(m: nat, size: nat, floor: int)
    requires m >= 2 && m % 2 == 0 && 0 < size && 0 - m < floor < 0 && floor % size == 0
    ensures floor >= -(m / 2) ==> TruncMod(Signed(floor % m, m - 1), size) == 0
    ensures floor < -(m / 2) ==> TruncMod(Signed(floor % m, m - 1), size) == (m + floor) % size
  {
    if floor >= -(m / 2) {
      SignedOf(floor, m);
      MultipleTruncates(floor, size);
    } else {
      RemainderUnique(floor, m, -1, floor + m);
      PositiveTruncMod(floor + m, size);
    }
  }

  lemma MultiplesAway(m: nat, size: nat, floor: int)
    requires size > 0 && floor % size == 0
    ensures (m + floor) % size == m % size
  {
    ModOfSum(m, floor, size);
  }

  /** Into a component, the split is lossless exactly when it does not underflow, or the ring is whole elements. */
  lemma InsideLoss(m: nat, size: nat, total: nat, lower: bool)
    requires m >= 2 && m % 2 == 0 && size > 0 && total < m
    ensures LostOf(m, size, total, lower) == 0 <==> (!Underflows(m, size, total, lower) || m % size == 0)
  {
    if total < size {
      LostWhenSmall(m, size, total, lower);
    } else if TruncMod(Signed(total, m - 1), size) >= 0 {
      LostWhenRoundedUp(m, size, total, lower);
    } else if lower {
      LostWhenSmall(m, size, total, lower);
    } else {
      LostWhenRoundedDown(m, size, total);
      FloorFacts(m, size, total);
      MultiplesAway(m, size, Floor(m, size, total));
    }
  }

  lemma LostIsSmall(m: nat, size: nat, total: nat, lower: bool)
    requires m >= 2 && size > 0
    ensures 0 - m < LostOf(m, size, total, lower) < m
  {
    var x := (total - OffsetIn(m, size, total, lower)) % m;
    TruncFacts(Signed(x, m - 1), size);
  }

  /** With no PTRSUB the offset is dropped too: lossless exactly for whole elements. */
  lemma OutsideLoss(m: nat, size: nat, total: nat, lower: bool)
    requires m >= 2 && m % 2 == 0 && size > 0 && total < m && (lower ==> total == 0)
    ensures Cong(OffsetIn(m, size, total, lower) + LostOf(m, size, total, lower), 0, m) <==> WholeElements(m, size, total)
  {
    OutsideGap(m, size, total, lower);
    var gap := OffsetIn(m, size, total, lower) + LostOf(m, size, total, lower);
    CongSelf(0, m);
    if Cong(gap, 0, m) { CongSmall(gap, m); }
  }

  lemma OutsideGap(m: nat, size: nat, total: nat, lower: bool)
    requires m >= 2 && m % 2 == 0 && size > 0 && total < m && (lower ==> total == 0)
    ensures 0 <= OffsetIn(m, size, total, lower) + LostOf(m, size, total, lower) < m
    ensures OffsetIn(m, size, total, lower) + LostOf(m, size, total, lower) == 0 <==> WholeElements(m, size, total)
  {
    if total < size {
      LostWhenSmall(m, size, total, lower);
      SmallRest(m, size, total);
    } else if TruncMod(Signed(total, m - 1), size) >= 0 {
      LostWhenRoundedUp(m, size, total, lower);
      TruncFacts(Signed(total, m - 1), size);
    } else {
      OutsideRoundedDown(m, size, total);
      TruncFacts(Signed(total, m - 1), size);
    }
  }

  lemma SmallRest(m: nat, size: nat, total: nat)
    requires m >= 2 && m % 2 == 0 && 0 < size && total < m && total < size
    ensures Signed(total, m - 1) % size == 0 <==> total == 0
  {
    var T := Signed(total, m - 1);
    if T >= 0 {
      SmallMod(T, size);
    } else {
      RemainderUnique(T, size, -1, T + size);
    }
  }

  lemma OutsideRoundedDown(m: nat, size: nat, total: nat)
    requires m >= 2 && m % 2 == 0 && 0 < size <= total < m
    requires TruncMod(Signed(total, m - 1), size) < 0
    ensures 0 < OffsetIn(m, size, total, false) + LostOf(m, size, total, false) < m
  {
    RoundedDownOffset(m, size, total);
    FloorFacts(m, size, total);
    LostWhenRoundedDown(m, size, total);
    ModIsRest(m + Floor(m, size, total), size);
  }

  // ----- the theorem -----

  function Start(cfg: Config): Tally
    requires cfg.Valid()
  {
    Tally(0, if cfg.rel.Some? then cfg.rel.value % cfg.m else 0, 0, [], [], true, false, false)
  }

  /** The tally of a walk from the root `a + b`, one of whose operands is the pointer. */
  ghost predicate Walked(cfg: Config, a: Vn, b: Vn, prevent: bool, t: Tally)
    requires cfg.Valid()
  {
    (a.Pointer? || b.Pointer?) && t == Span(cfg, Start(cfg), a, b, 1, prevent).0 && Plain(t)
  }

  /** What the caller can check of the tally before the rewrite. */
  predicate Lossless(cfg: Config, t: Tally)
    requires cfg.Valid()
  {
    if t.nonmult != [] then
      !Underflows(cfg.m, cfg.size, Total(cfg, t), LowerLevel(cfg, t)) || cfg.m % cfg.size == 0
    else WholeElements(cfg.m, cfg.size, Total(cfg, t))
  }

  lemma WalkedFacts(cfg: Config, a: Vn, b: Vn, prevent: bool, t: Tally, env: Env)
    requires cfg.Valid() && Walked(cfg, a, b, prevent, t)
    ensures Coefficients(cfg, t) && t.multsum < cfg.m && t.nonmultsum < cfg.m
    ensures Cong(Ledger(t, env) + Pointers(Sum(a, b)) * env.ptr, Value(Sum(a, b), env), cfg.m)
    ensures t.nonmult == [] ==> t.nonmultsum == Start(cfg).nonmultsum
    ensures Cong(t.multsum, MultTotal(cfg, Sum(a, b)), cfg.m)
    ensures !BadForRelative(cfg, t)
  {
    SpanAccounts(cfg, Start(cfg), a, b, prevent, env);
    assert Ledger(Start(cfg), env) == 0;
  }

  /** A relative pointer with nothing but the pointer is refused. */
  lemma BareRelative(cfg: Config, t: Tally)
    requires cfg.Valid() && cfg.rel.Some? && !BadForRelative(cfg, t) && t.nonmult == [] && t.nonmultsum < cfg.m
    ensures !SubtypePlan(cfg, t).valid
  {
    SmallMod(t.nonmultsum, cfg.m);
    assert Offset(cfg, t) == t.nonmultsum;
    SmallMod(Total(cfg, t) - Offset(cfg, t), cfg.m);
  }

  lemma BareSplit(cfg: Config, t: Tally)
    requires cfg.Valid() && cfg.rel.None? && t.nonmult == [] && SubtypePlan(cfg, t).valid
    requires t.nonmultsum == 0 && t.multsum < cfg.m
    ensures Total(cfg, t) == t.multsum && SubtypePlan(cfg, t) == SplitConstant(cfg, t)
  {
    SmallMod(t.multsum, cfg.m);
  }

  lemma BareBounds(cfg: Config, a: Vn, b: Vn, prevent: bool, t: Tally)
    requires cfg.Valid() && Walked(cfg, a, b, prevent, t) && t.nonmult == []
    ensures t.multsum < cfg.m && t.nonmultsum < cfg.m && !BadForRelative(cfg, t)
    ensures cfg.rel.None? ==> t.nonmultsum == 0
  {
    WalkedFacts(cfg, a, b, prevent, t, Env(0, i => 0));
  }

  lemma BareIsPlain(cfg: Config, a: Vn, b: Vn, prevent: bool, t: Tally)
    requires cfg.Valid() && Walked(cfg, a, b, prevent, t) && t.nonmult == [] && SubtypePlan(cfg, t).valid
    ensures cfg.rel.None? && t.nonmultsum == 0 && Total(cfg, t) == t.multsum
    ensures SubtypePlan(cfg, t) == SplitConstant(cfg, t)
  {
    BareBounds(cfg, a, b, prevent, t);
    if cfg.rel.Some? {
      BareRelative(cfg, t);
    } else {
      BareSplit(cfg, t);
    }
  }

  lemma SubtypeWhenRest(cfg: Config, t: Tally)
    requires cfg.Valid() && SubtypePlan(cfg, t).valid
    ensures SubtypePlan(cfg, t).isSubtype <==> t.nonmult != []
    ensures SubtypePlan(cfg, t).multsum == SplitConstant(cfg, t).multsum
  {
  }

  /** What the rewritten value misses. */
  function Gap(cfg: Config, t: Tally, p: Plan): int
    requires cfg.Valid()
  {
    Lost(cfg, p.multsum) + if p.isSubtype then 0 else Offset(cfg, t)
  }

  lemma SizeZeroSplit(cfg: Config, t: Tally)
    requires cfg.Valid() && cfg.size == 0
    ensures SplitConstant(cfg, t).multsum == 0
  {
    SmallMod(Total(cfg, t) - Offset(cfg, t), cfg.m);
  }

  lemma BuiltValue(cfg: Config, a: Vn, b: Vn, prevent: bool, t: Tally, env: Env)
    requires cfg.Valid() && Walked(cfg, a, b, prevent, t)
    requires SubtypePlan(cfg, t).valid && Tree(cfg, t, SubtypePlan(cfg, t)).Some?
    ensures Cong(Value(Tree(cfg, t, SubtypePlan(cfg, t)).value, env),
      env.ptr + Ledger(t, env) - Gap(cfg, t, SubtypePlan(cfg, t)), cfg.m)
  {
    var p := SubtypePlan(cfg, t);
    WalkedFacts(cfg, a, b, prevent, t, env);
    SubtypeWhenRest(cfg, t);
    if cfg.size == 0 { SizeZeroSplit(cfg, t); }
    TreeValue(cfg, t, p, env);
    if p.isSubtype {
      SubtypeIsBalanced(cfg, t);
    } else {
      BareIsPlain(cfg, a, b, prevent, t);
      SplitIsBalanced(cfg, t);
    }
    assert Balanced(cfg, t, p);
    var rest := env.ptr - Gap(cfg, t, p) + Terms(t.multiple, env) + Rest(t.nonmult, env);
    CongSelf(rest, cfg.m);
    CongSum(p.offset + p.multsum - p.correct, t.multsum, rest, rest, cfg.m);
    CongTrans(Value(Tree(cfg, t, p).value, env), p.offset + p.multsum - p.correct + rest, t.multsum + rest, cfg.m);
  }

  /** The distance between the rewritten and the original value. */
  lemma Drift(cfg: Config, a: Vn, b: Vn, prevent: bool, t: Tally, env: Env)
    requires cfg.Valid() && Walked(cfg, a, b, prevent, t)
    requires SubtypePlan(cfg, t).valid && Tree(cfg, t, SubtypePlan(cfg, t)).Some?
    ensures Cong(Value(Tree(cfg, t, SubtypePlan(cfg, t)).value, env) - Value(Sum(a, b), env),
      env.ptr - Pointers(Sum(a, b)) * env.ptr - Gap(cfg, t, SubtypePlan(cfg, t)), cfg.m)
  {
    var p := SubtypePlan(cfg, t);
    BuiltValue(cfg, a, b, prevent, t, env);
    WalkedFacts(cfg, a, b, prevent, t, env);
    var l, n := Ledger(t, env), Pointers(Sum(a, b)) * env.ptr;
    CongSwap(l + n, Value(Sum(a, b), env), cfg.m);
    CongSum(Value(Tree(cfg, t, p).value, env), env.ptr + l - Gap(cfg, t, p), Value(Sum(a, b), env), l + n, cfg.m);
  }

  lemma GapIsZero(cfg: Config, a: Vn, b: Vn, prevent: bool, t: Tally)
    requires cfg.Valid() && Walked(cfg, a, b, prevent, t)
    requires SubtypePlan(cfg, t).valid && Tree(cfg, t, SubtypePlan(cfg, t)).Some?
    ensures Cong(Gap(cfg, t, SubtypePlan(cfg, t)), 0, cfg.m) <==> Lossless(cfg, t)
  {
    var p := SubtypePlan(cfg, t);
    SubtypeWhenRest(cfg, t);
    CongSelf(0, cfg.m);
    if !p.isSubtype {
      BareIsPlain(cfg, a, b, prevent, t);
      assert cfg.size != 0;
      OutsideLoss(cfg.m, cfg.size, Total(cfg, t), LowerLevel(cfg, t));
    } else if cfg.size == 0 {
      SizeZeroSplit(cfg, t);
    } else {
      InsideLoss(cfg.m, cfg.size, Total(cfg, t), LowerLevel(cfg, t));
      LostIsSmall(cfg.m, cfg.size, Total(cfg, t), LowerLevel(cfg, t));
      if Cong(Gap(cfg, t, p), 0, cfg.m) { CongSmall(Gap(cfg, t, p), cfg.m); }
    }
  }

  /** The two expressions have the same machine value whatever the variables hold. */
  ghost predicate SameValue(x: Vn, y: Vn, m: nat)
    requires m > 0
  {
    forall env: Env :: Eval(x, env, m) == Eval(y, env, m)
  }

  lemma EvalDiffers(x: Vn, y: Vn, env: Env, m: nat)
    requires m > 0
    ensures Eval(x, env, m) == Eval(y, env, m) <==> Cong(Value(x, env) - Value(y, env), 0, m)
  {
    EvalIsValue(x, env, m);
    EvalIsValue(y, env, m);
    EqualRemainders(Value(x, env), Value(y, env), m);
    CongIsEqualRemainder(Value(x, env) - Value(y, env), 0, m);
  }

  /** Congruent to `ptr - n * ptr - gap` for every pointer, so zero for all of them exactly when `n` is 1 and the gap 0. */
  lemma DriftVanishes(n: nat, gap: int, ptr: int, m: nat)
    requires m >= 2 && n % m == 1 && Cong(gap, 0, m)
    ensures Cong(ptr - n * ptr - gap, 0, m)
  {
    CongIsEqualRemainder(n, 1, m);
    CongScale(n, 1, ptr, m);
    CongSelf(ptr, m);
    CongSum(ptr, ptr, n * ptr, 1 * ptr, m);
    CongSum(ptr - n * ptr, ptr - 1 * ptr, gap, 0, m);
  }

  lemma DriftShows(n: nat, gap: int, m: nat)
    requires m >= 2 && Cong(0 - gap, 0, m) && Cong(1 - n - gap, 0, m)
    ensures n % m == 1 && Cong(gap, 0, m)
  {
    CongSelf(0, m);
    CongSum(0, 0, 0 - gap, 0, m);
    CongSum(1 - n - gap, 0, 0 - gap, 0, m);
    CongSelf(1, m);
    CongSum(1, 1, 1 - n, 0, m);
    CongIsEqualRemainder(n, 1, m);
    SmallMod(1, m);
  }

  /**
   The rewritten chain has the value of the tree for every value of the pointer and
   of the variables if and only if the pointer is a summand once (modulo the ring) and
   the constant splits without loss.
   */
  lemma RewriteKeepsValue(cfg: Config, a: Vn, b: Vn, prevent: bool, t: Tally)
    requires cfg.Valid() && Walked(cfg, a, b, prevent, t)
    requires SubtypePlan(cfg, t).valid && Tree(cfg, t, SubtypePlan(cfg, t)).Some?
    ensures SameValue(Tree(cfg, t, SubtypePlan(cfg, t)).value, Sum(a, b), cfg.m)
      <==> Pointers(Sum(a, b)) % cfg.m == 1 && Lossless(cfg, t)
  {
    var e, n, gap := Tree(cfg, t, SubtypePlan(cfg, t)).value, Pointers(Sum(a, b)), Gap(cfg, t, SubtypePlan(cfg, t));
    GapIsZero(cfg, a, b, prevent, t);
    if n % cfg.m == 1 && Lossless(cfg, t) {
      forall env: Env ensures Eval(e, env, cfg.m) == Eval(Sum(a, b), env, cfg.m) {
        Drift(cfg, a, b, prevent, t, env);
        DriftVanishes(n, gap, env.ptr, cfg.m);
        CongTrans(Value(e, env) - Value(Sum(a, b), env), env.ptr - n * env.ptr - gap, 0, cfg.m);
        EvalDiffers(e, Sum(a, b), env, cfg.m);
      }
    }
    if SameValue(e, Sum(a, b), cfg.m) {
      DriftSeen(cfg, a, b, prevent, t, Env(0, i => 0));
      DriftSeen(cfg, a, b, prevent, t, Env(1, i => 0));
      assert n * 0 == 0 && n * 1 == n;
      DriftShows(n, gap, cfg.m);
    }
  }

  lemma DriftSeen(cfg: Config, a: Vn, b: Vn, prevent: bool, t: Tally, env: Env)
    requires cfg.Valid() && Walked(cfg, a, b, prevent, t)
    requires SubtypePlan(cfg, t).valid && Tree(cfg, t, SubtypePlan(cfg, t)).Some?
    requires SameValue(Tree(cfg, t, SubtypePlan(cfg, t)).value, Sum(a, b), cfg.m)
    ensures Cong(env.ptr - Pointers(Sum(a, b)) * env.ptr - Gap(cfg, t, SubtypePlan(cfg, t)), 0, cfg.m)
  {
    var e := Tree(cfg, t, SubtypePlan(cfg, t)).value;
    Drift(cfg, a, b, prevent, t, env);
    assert Eval(e, env, cfg.m) == Eval(Sum(a, b), env, cfg.m);
    EvalDiffers(e, Sum(a, b), env, cfg.m);
    var d := env.ptr - Pointers(Sum(a, b)) * env.ptr - Gap(cfg, t, SubtypePlan(cfg, t));
    CongSwap(Value(e, env) - Value(Sum(a, b), env), d, cfg.m);
    CongTrans(d, Value(e, env) - Value(Sum(a, b), env), 0, cfg.m);
  }

  // ----- when the condition holds -----

  lemma {:induction false} MultTotalDivides(cfg: Config, vn: Vn)
    requires cfg.Valid() && cfg.size != 0
    ensures MultTotal(cfg, vn) % cfg.size == 0
  {
    match vn
    case Sum(a, b) =>
      MultTotalDivides(cfg, a);
      MultTotalDivides(cfg, b);
      ModOfSum(MultTotal(cfg, a), MultTotal(cfg, b), cfg.size);
    case _ =>
      SmallMod(0, cfg.size);
  }

  /**
   With no term into the element, the rewrite is lossless when the signed sum of the
   multiples does not wrap, and in any case when the ring is whole elements.
   */
  lemma NoWrapIsLossless(cfg: Config, a: Vn, b: Vn, prevent: bool, t: Tally)
    requires cfg.Valid() && Walked(cfg, a, b, prevent, t) && t.nonmult == [] && SubtypePlan(cfg, t).valid
    requires cfg.size == 0 || -(cfg.m / 2) <= MultTotal(cfg, Sum(a, b)) < cfg.m / 2 || cfg.m % cfg.size == 0
    ensures Lossless(cfg, t)
  {
    BareIsPlain(cfg, a, b, prevent, t);
    if cfg.size != 0 {
      BareMultiples(cfg, a, b, prevent, t);
      WholeWhenCongruent(cfg.m, cfg.size, t.multsum, MultTotal(cfg, Sum(a, b)));
    }
  }

  lemma BareMultiples(cfg: Config, a: Vn, b: Vn, prevent: bool, t: Tally)
    requires cfg.Valid() && cfg.size != 0 && Walked(cfg, a, b, prevent, t)
    ensures t.multsum < cfg.m
    ensures Cong(t.multsum, MultTotal(cfg, Sum(a, b)), cfg.m) && MultTotal(cfg, Sum(a, b)) % cfg.size == 0
  {
    MultTotalDivides(cfg, Sum(a, b));
    WalkedFacts(cfg, a, b, prevent, t, Env(0, i => 0));
  }

  lemma WholeWhenCongruent(m: nat, size: nat, sum: nat, exact: int)
    requires m >= 2 && m % 2 == 0 && size > 0 && sum < m && Cong(sum, exact, m) && exact % size == 0
    requires -(m / 2) <= exact < m / 2 || m % size == 0
    ensures Signed(sum, m - 1) % size == 0
  {
    CongIsEqualRemainder(sum, exact, m);
    SmallMod(sum, m);
    if -(m / 2) <= exact < m / 2 {
      SignedOf(exact, m);
    } else {
      ModOfMultiple(exact, m, size);
      ModOfDifference(sum, m, size);
    }
  }

  /** Into an element, the rewrite is lossless away from the bottom of the signed range. */
  lemma FarFromBottomIsLossless(cfg: Config, t: Tally)
    requires cfg.Valid() && t.nonmult != [] && Signed(Total(cfg, t), cfg.m - 1) >= cfg.size - cfg.m / 2
    ensures Lossless(cfg, t)
  {
    if cfg.size != 0 { TruncFacts(Signed(Total(cfg, t), cfg.m - 1), cfg.size); }
  }

  /** `p - 2^31` on 32-bit pointers to a 3-byte structure. */
  function BottomConfig(): Config {
    Config(0x1_0000_0000, 3, 1, None, StructType, 3, (at: int, hint: nat) => Some(at), true)
  }

  /** There the code builds `&p[715827882]` plus 1, which is one short. */
  lemma BottomOfRange()
    ensures var cfg := BottomConfig();
      var t := Span(cfg, Start(cfg), Pointer, Constant(0x8000_0000), 1, true).0;
      cfg.Valid() && Walked(cfg, Pointer, Constant(0x8000_0000), true, t) && SubtypePlan(cfg, t).valid
      && Tree(cfg, t, SubtypePlan(cfg, t)).Some?
      && Pointers(Sum(Pointer, Constant(0x8000_0000))) == 1
      && !SameValue(Tree(cfg, t, SubtypePlan(cfg, t)).value, Sum(Pointer, Constant(0x8000_0000)), cfg.m)
  {
    var cfg := BottomConfig();
    var c := Constant(0x8000_0000);
    var t := Span(cfg, Start(cfg), Pointer, c, 1, true).0;
    assert Assess(cfg, Start(cfg), Pointer, 1, true) == (Start(cfg), false);
    assert t == Start(cfg).(nonmultsum := 0x8000_0000, nonmult := [c]);
    assert Underflows(cfg.m, cfg.size, Total(cfg, t), LowerLevel(cfg, t));
    assert cfg.m % cfg.size == 1;
    RewriteKeepsValue(cfg, Pointer, c, true, t);
  }

  // ----- the state machine -----

  datatype Outcome = Untouched | Rewritten(vn: Vn) | Distributing

  /** The tally that the rewrite is planned from: a useless distribution is walked again without. */
  function FinalTally(cfg: Config, a: Vn, b: Vn): Tally
    requires cfg.Valid()
  {
    var t := Span(cfg, Start(cfg), a, b, 1, false).0;
    if t.valid && t.distribute && !t.used then Span(cfg, Start(cfg), a, b, 1, true).0 else t
  }

  function Decision(cfg: Config, a: Vn, b: Vn): Outcome
    requires cfg.Valid()
  {
    var t := FinalTally(cfg, a, b);
    if !t.valid || !SubtypePlan(cfg, t).valid then Untouched
    else if t.distribute then Distributing
    else match Tree(cfg, t, SubtypePlan(cfg, t)) case None => Untouched case Some(e) => Rewritten(e)
  }

  /** Walking without distribution asks for none. */
  lemma {:induction false} PreventedIsPlain(cfg: Config, t: Tally, vn: Vn)
    requires cfg.Valid()
    ensures Assess(cfg, t, vn, 1, true).0.distribute == t.distribute
    decreases vn, 1
  {
    match vn
    case Sum(a, b) => PreventedSpanIsPlain(cfg, t, a, b);
    case _ =>
  }

  lemma {:induction false} PreventedSpanIsPlain(cfg: Config, t: Tally, a: Vn, b: Vn)
    requires cfg.Valid()
    ensures Span(cfg, t, a, b, 1, true).0.distribute == t.distribute
    decreases Sum(a, b), 0
  {
    PreventedIsPlain(cfg, t, a);
    PreventedIsPlain(cfg, Assess(cfg, t, a, 1, true).0, b);
  }

  lemma FinalIsWalked(cfg: Config, a: Vn, b: Vn)
    requires cfg.Valid() && (a.Pointer? || b.Pointer?)
    requires FinalTally(cfg, a, b).valid && !FinalTally(cfg, a, b).distribute
    ensures Walked(cfg, a, b, false, FinalTally(cfg, a, b)) || Walked(cfg, a, b, true, FinalTally(cfg, a, b))
  {
  }

  lemma DegenerateKeepsValue(vn: Vn, m: nat)
    requires m > 0
    ensures SameValue(PtrAdd(Pointer, vn, 1), Sum(Pointer, vn), m) && SameValue(PtrAdd(Pointer, vn, 1), Sum(vn, Pointer), m)
  {
  }

  /** The whole rewrite on the tree `a + b`. */
  ghost predicate RewriteIsRight(cfg: Config, a: Vn, b: Vn, degenerate: bool, outcome: Outcome)
    requires cfg.Valid()
  {
    var exact := degenerate || (Pointers(Sum(a, b)) % cfg.m == 1 && Lossless(cfg, FinalTally(cfg, a, b)));
    outcome.Rewritten? ==> (SameValue(outcome.vn, Sum(a, b), cfg.m) <==> exact)
  }

  lemma AppendSteps(t: Tally, one: bool, a: Vn, two: bool, b: Vn)
    ensures var one' := if one then t.nonmult + [a] else t.nonmult;
      Append(t, one, a, two, b) == t.(nonmult := if two then one' + [b] else one')
  {
    var one' := if one then t.nonmult + [a] else t.nonmult;
    assert Append(t, one, a, two, b).nonmult == if two then one' + [b] else one';
  }

  class AddTreeState {
    const cfg: Config
    const left: Vn
    const right: Vn
    const slot: nat               // where the pointer is
    const alignSize: nat          // of the pointed-to type, in bytes
    const pointerOut: bool        // the sum itself is typed as a pointer
    var offset: nat
    var correct: nat
    var multsum: nat
    var nonmultsum: nat
    var biggest: nat
    var multiple: seq<(Vn, int)>
    var nonmult: seq<Vn>
    var valid: bool
    var distribute: bool
    var used: bool
    var prevent: bool
    var isSubtype: bool

    ghost predicate Valid()
      reads this
    {
      && cfg.Valid() && cfg.size == alignSize / cfg.word
      && slot <= 1 && (if slot == 0 then left else right).Pointer?
    }

    function Now(): Tally
      reads this
    {
      Tally(multsum, nonmultsum, biggest, multiple, nonmult, valid, distribute, used)
    }

    function Planned(): Plan
      reads this
    {
      Plan(offset, correct, multsum, isSubtype, valid)
    }

    constructor (cfg: Config, left: Vn, right: Vn, slot: nat, alignSize: nat, pointerOut: bool)
      requires cfg.Valid() && cfg.size == alignSize / cfg.word
      requires slot <= 1 && (if slot == 0 then left else right).Pointer?
      ensures Valid() && Now() == Start(cfg) && !prevent && !isSubtype
      ensures this.cfg == cfg && this.left == left && this.right == right && this.slot == slot
      ensures this.alignSize == alignSize && this.pointerOut == pointerOut
    {
      this.cfg, this.left, this.right, this.slot := cfg, left, right, slot;
      this.alignSize, this.pointerOut := alignSize, pointerOut;
      nonmultsum := if cfg.rel.Some? then cfg.rel.value % cfg.m else 0;
      offset, correct, multsum, biggest, multiple, nonmult := 0, 0, 0, 0, [], [];
      valid, distribute, used, prevent, isSubtype := true, false, false, false, false;
    }

    method Clear()
      requires Valid()
      modifies this
      ensures Valid() && Now() == Start(cfg) && prevent == old(prevent) && !isSubtype
    {
      multsum, nonmultsum, biggest := 0, 0, 0;
      if cfg.rel.Some? { nonmultsum := cfg.rel.value % cfg.m; }
      multiple, nonmult := [], [];
      correct, offset := 0, 0;
      valid, used, isSubtype, distribute := true, false, false, false;
    }

    method CheckMultTerm(term: Vn, factor: Vn, coeff: nat) returns (non: bool)
      requires Valid()
      modifies this`multsum, this`nonmultsum, this`biggest, this`multiple, this`nonmult, this`valid, this`distribute, this`used
      ensures (Now(), non) == CheckMult(cfg, old(Now()), term, factor, coeff, prevent)
      decreases term, 1
    {
      if term.IsFree() {
        valid := false;
        return false;
      }
      if factor.Constant? {
        var val := (factor.offset * coeff) % cfg.m;
        var sval := Signed(val, cfg.m - 1);
        var rem := sval;
        if cfg.size != 0 { rem := TruncMod(sval, cfg.size); TruncFacts(sval, cfg.size); }
        if rem != 0 {
          if val >= cfg.size && cfg.size != 0 {
            valid := false;
            return false;
          }
          if !prevent && term.Sum? {
            distribute := true;
            non := SpanAddTree(term.left, term.right, val);
            return;
          }
          var c := Abs(sval) % 0x1_0000_0000;
          if c > biggest { biggest := c; }
          return true;
        }
        if coeff != 1 { used := true; }
        multiple := multiple + [(term, sval)];
        return false;
      }
      if coeff > biggest { biggest := coeff; }
      return true;
    }

    method CheckTerm(vn: Vn, coeff: nat) returns (non: bool)
      requires Valid()
      modifies this`multsum, this`nonmultsum, this`biggest, this`multiple, this`nonmult, this`valid, this`distribute, this`used
      ensures (Now(), non) == Assess(cfg, old(Now()), vn, coeff, prevent)
      decreases vn, 1
    {
      match vn {
        case Pointer => return false;
        case Constant(c) =>
          var val := c * coeff;
          var sval := Signed(val % cfg.m, cfg.m - 1);
          var rem := sval;
          if cfg.size != 0 { rem := TruncMod(sval, cfg.size); TruncFacts(sval, cfg.size); }
          if rem != 0 {
            if coeff != 1 && (cfg.meta.ArrayType? || cfg.meta.StructType?) { used := true; }
            nonmultsum := (nonmultsum + val) % cfg.m;
            return true;
          }
          if coeff != 1 { used := true; }
          multsum := (multsum + val) % cfg.m;
          return false;
        case Sum(a, b) => non := SpanAddTree(a, b, coeff);
        case CopyOf(_) =>
          valid := false;
          return false;
        case Product(a, b) => non := CheckMultTerm(a, b, coeff);
        case Loose(_) =>
          valid := false;
          return false;
        case _ =>
          if coeff > biggest { biggest := coeff; }
          return true;
      }
    }

    method SpanAddTree(a: Vn, b: Vn, coeff: nat) returns (non: bool)
      requires Valid()
      modifies this`multsum, this`nonmultsum, this`biggest, this`multiple, this`nonmult, this`valid, this`distribute, this`used
      ensures (Now(), non) == Span(cfg, old(Now()), a, b, coeff, prevent)
      decreases Sum(a, b), 0
    {
      var one := CheckTerm(a, coeff);
      if !valid { return false; }
      var two := CheckTerm(b, coeff);
      if !valid { return false; }
      non := Conclude(one, a, two, b);
    }

    /** What the sum of two checked operands comes to. */
    method Conclude(one: bool, a: Vn, two: bool, b: Vn) returns (non: bool)
      requires Valid()
      modifies this`nonmult, this`valid
      ensures (Now(), non) == if BadForRelative(cfg, old(Now())) then (Reject(old(Now())), false)
        else if one && two then (old(Now()), true) else (Append(old(Now()), one, a, two, b), false)
    {
      if cfg.rel.Some? && (multsum != 0 || nonmultsum >= cfg.size || |multiple| != 0) {
        valid := false;
        return false;
      }
      if one && two { return true; }
      AppendSteps(Now(), one, a, two, b);
      if one { nonmult := nonmult + [a]; }
      if two { nonmult := nonmult + [b]; }
      return false;
    }

    /** Splits the summed constant between PTRADD, PTRSUB and correction. */
    method Split()
      requires Valid() && !isSubtype
      modifies this`offset, this`correct, this`multsum
      ensures Planned() == SplitConstant(cfg, old(Now()))
    {
      var total := (multsum + nonmultsum) % cfg.m;
      if cfg.size == 0 || total < cfg.size {
        offset := total;
      } else {
        var r := TruncMod(Signed(total, cfg.m - 1), cfg.size);
        if r >= 0 {
          offset := r;
        } else if cfg.meta.StructType? && biggest != 0 && multsum == 0 {
          offset := total;
        } else {
          offset := (r + cfg.size) % cfg.m;
        }
      }
      correct := nonmultsum;
      multsum := (total - offset) % cfg.m;
    }

    /** Splits the constant and decides whether the sum points into a component. */
    method CalcSubtype()
      requires Valid() && !isSubtype
      modifies this`offset, this`correct, this`multsum, this`isSubtype, this`valid
      ensures Planned() == SubtypePlan(cfg, old(Now()))
    {
      Split();
      if |nonmult| == 0 {
        if multsum == 0 && |multiple| == 0 {
          valid := false;
          return;
        }
        isSubtype := false;
      } else if cfg.meta.SpacebaseType? {
        var found := cfg.find(SignedWord(offset * cfg.word), biggest);
        if found.None? {
          valid := false;
          return;
        }
        Move(found.value);
        isSubtype := true;
      } else if cfg.meta.StructType? {
        var at := SignedWord(Signed(offset, cfg.m - 1) * cfg.word);
        var found := cfg.find(at, biggest);
        var extra := 0;
        if found.Some? {
          extra := found.value;
        } else if at < 0 || at >= cfg.bytes {
          valid := false;
          return;
        }
        Move(extra);
        if cfg.rel.Some? && offset == cfg.rel.value && !cfg.throughParent {
          valid := false;
          return;
        }
        isSubtype := true;
      } else if cfg.meta.ArrayType? {
        isSubtype := true;
        correct := (correct - offset) % cfg.m;
        offset := 0;
      } else {
        valid := false;
      }
      if cfg.rel.Some? {
        offset := (offset - cfg.rel.value) % cfg.m;
        correct := (correct - cfg.rel.value) % cfg.m;
      }
    }

    method Move(extra: int)
      requires Valid()
      modifies this`offset, this`correct
      ensures Planned() == MoveOffset(cfg, old(Planned()), extra)
    {
      var units := if extra >= 0 then extra / cfg.word else -((-extra) / cfg.word);
      offset := (offset - units) % cfg.m;
      correct := (correct - units) % cfg.m;
    }

    method BuildMultiples() returns (result: Option<Vn>)
      requires Valid()
      ensures result == if cfg.size == 0 then None else Multiples(cfg, multsum, multiple)
    {
      if cfg.size == 0 { return None; }
      var k := TruncDiv(Signed(multsum, cfg.m - 1), cfg.size);
      result := None;
      if k != 0 { result := Some(Constant(k % cfg.m)); }
      for i := 0 to |multiple|
        invariant result == Multiples(cfg, multsum, multiple[..i])
      {
        assert multiple[..i + 1][..i] == multiple[..i];
        var term := multiple[i];
        var coeff := TruncDiv(term.1, cfg.size);
        var vn := term.0;
        if coeff != 1 { vn := Product(vn, Constant(coeff % cfg.m)); }
        result := if result.None? then Some(vn) else Some(Sum(vn, result.value));
      }
      assert multiple[..|multiple|] == multiple;
    }

    method BuildExtra() returns (result: Option<Vn>)
      requires Valid()
      ensures result == Extra(cfg.m, correct, nonmult)
    {
      result := None;
      var c := correct;
      for i := 0 to |nonmult|
        invariant (result, c) == Gather(cfg.m, correct, nonmult[..i])
      {
        assert nonmult[..i + 1][..i] == nonmult[..i];
        var vn := nonmult[i];
        if vn.Constant? {
          c := (c - vn.offset) % cfg.m;
        } else {
          result := if result.None? then Some(vn) else Some(Sum(vn, result.value));
        }
      }
      assert nonmult[..|nonmult|] == nonmult;
      if c != 0 {
        var correction := Constant((0 - c) % cfg.m);
        result := if result.None? then Some(correction) else Some(Sum(correction, result.value));
      }
    }

    method BuildTree() returns (outcome: Outcome)
      requires Valid()
      ensures outcome == match Tree(cfg, Now(), Planned()) case None => Untouched case Some(e) => Rewritten(e)
    {
      var mult := BuildMultiples();
      var extra := BuildExtra();
      var current := Pointer;
      outcome := Untouched;
      if mult.Some? {
        current := PtrAdd(Pointer, mult.value, cfg.size);
        outcome := Rewritten(current);
      }
      if isSubtype {
        current := PtrSub(current, offset);
        outcome := Rewritten(current);
      }
      if extra.Some? { outcome := Rewritten(Sum(current, extra.value)); }
    }

    method BuildDegenerate() returns (outcome: Outcome)
      requires Valid()
      ensures outcome == if alignSize < cfg.word || !pointerOut then Untouched else Rewritten(PtrAdd(Pointer, if slot == 0 then right else left, 1))
    {
      if alignSize < cfg.word { return Untouched; }
      if !pointerOut { return Untouched; }
      return Rewritten(PtrAdd(Pointer, if slot == 0 then right else left, 1));
    }

    predicate Degenerate() { 0 < alignSize <= cfg.word }

    /** Walks the tree, and again without distribution when distributing gained nothing. */
    method Analyse()
      requires Valid() && Now() == Start(cfg) && !prevent && !isSubtype
      modifies this
      ensures Valid() && !isSubtype && Now() == FinalTally(cfg, left, right)
    {
      var _ := SpanAddTree(left, right, 1);
      if valid && distribute && !used {
        Clear();
        prevent := true;
        var _ := SpanAddTree(left, right, 1);
      }
    }

    method Rewrite() returns (outcome: Outcome)
      requires Valid() && Now() == Start(cfg) && !prevent && !isSubtype
      modifies this
      ensures outcome == Decision(cfg, left, right)
    {
      Analyse();
      if !valid { return Untouched; }
      CalcSubtype();
      if !valid { return Untouched; }
      if distribute { return Distributing; }
      outcome := BuildTree();
    }

    /**
     The analysis and the rewrite, up to the point where a coefficient would be
     distributed for real (`Distributing`).
     */
    method Apply() returns (outcome: Outcome)
      requires Valid() && Now() == Start(cfg) && !prevent && !isSubtype
      modifies this
      ensures RewriteIsRight(cfg, left, right, Degenerate(), outcome)
      ensures !Degenerate() ==> outcome == Decision(cfg, left, right)
    {
      if 0 < alignSize <= cfg.word {
        outcome := BuildDegenerate();
        DegenerateIsRight(cfg, left, right, slot, outcome);
        return;
      }
      outcome := Rewrite();
      PlannedIsRight(cfg, left, right, outcome);
    }
  }

  lemma DegenerateIsRight(cfg: Config, a: Vn, b: Vn, slot: nat, outcome: Outcome)
    requires cfg.Valid() && (if slot == 0 then a else b).Pointer?
    requires outcome.Untouched? || outcome == Rewritten(PtrAdd(Pointer, if slot == 0 then b else a, 1))
    ensures RewriteIsRight(cfg, a, b, true, outcome)
  {
    DegenerateKeepsValue(if slot == 0 then b else a, cfg.m);
  }

  lemma PlannedIsRight(cfg: Config, a: Vn, b: Vn, outcome: Outcome)
    requires cfg.Valid() && (a.Pointer? || b.Pointer?) && outcome == Decision(cfg, a, b)
    ensures RewriteIsRight(cfg, a, b, false, outcome)
  {
    var t := FinalTally(cfg, a, b);
    if outcome.Rewritten? {
      FinalIsWalked(cfg, a, b);
      if Walked(cfg, a, b, false, t) {
        RewriteKeepsValue(cfg, a, b, false, t);
      } else {
        RewriteKeepsValue(cfg, a, b, true, t);
      }
    }
  }
}

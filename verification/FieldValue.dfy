/**
 The constants recorded for bitfields, as numbers (pkg/pcode/bitfield.go:347-378): a
 constant written into a field is recorded as the value that the field then has.
 */
module FieldValues {
  import opened Words
  import opened BitFields
  import opened InsertRules

  /** The number of `n` bytes that a field of `num` bits with the number `x` stands for: `x`, or its two's complement. */
  function Extended(x: nat, num: nat, signed: bool, n: nat): int {
    if signed && num > 0 && x >= Pow2(num - 1) then x - Pow2(num) + Pow2(8 * n) else x
  }

  /** The value of the field in the container's bits. */
  function ValueOf(v: Bits, lsb: int, num: int, signed: bool, n: nat): int
    requires 0 <= lsb && 0 <= num && lsb + num <= |v|
  {
    Extended(ToNat(v[lsb..lsb + num]), num, signed, n)
  }

  // ----- numbers of parts -----

  lemma {:induction false} AppendedNumber(a: Bits, b: Bits)
    ensures ToNat(a + b) == ToNat(a) + Pow2(|a|) * ToNat(b)
  {
    if a == [] {
      assert a + b == b;
    } else {
      assert (a + b)[1..] == a[1..] + b && (a + b)[0] == a[0];
      AppendedNumber(a[1..], b);
      assert Pow2(|a|) * ToNat(b) == 2 * (Pow2(|a| - 1) * ToNat(b));
    }
  }

  /** The top bit tells whether the number is in the upper half. */
  lemma {:induction false} TopBit(a: Bits)
    requires a != []
    ensures a[|a| - 1] <==> ToNat(a) >= Pow2(|a| - 1)
    ensures ToNat(a) < Pow2(|a|)
  {
    if |a| > 1 { TopBit(a[1..]); }
  }

  function Copies(b: bool, n: nat): Bits { seq(n, i => b) }

  lemma {:induction false} CopiesNumber(b: bool, n: nat)
    ensures ToNat(Copies(b, n)) == if b then Pow2(n) - 1 else 0
  {
    if b { AllOnes(Copies(b, n)); } else { ZeroIsNothing(Copies(b, n)); }
  }

  lemma OnesAbove(num: nat, rest: nat)
    ensures Pow2(num) * (Pow2(rest) - 1) == Pow2(num + rest) - Pow2(num)
  {
    Pow2Add(num, rest);
    assert Pow2(num) * (Pow2(rest) - 1) == Pow2(num) * Pow2(rest) - Pow2(num);
  }

  lemma CopiesAboveNumber(x: Bits, sign: bool, rest: nat)
    ensures ToNat(x + Copies(sign, rest)) == ToNat(x) + (if sign then Pow2(|x| + rest) - Pow2(|x|) else 0)
  {
    AppendedNumber(x, Copies(sign, rest));
    CopiesNumber(sign, rest);
    OnesAbove(|x|, rest);
  }

  /** The field's sign, if it has one. */
  predicate Sign(s: State, v: Bits)
    requires s.field.Inside() && |v| == 8 * s.field.byteSize
  {
    s.signed && v[s.field.lsb + s.field.num - 1]
  }

  /** What is recorded: the field's bits, and copies of its sign above them. */
  lemma FieldBitsAreCopies(s: State, v: Bits)
    requires s.field.Inside() && |v| == 8 * s.field.byteSize
    ensures FieldBits(s, v) == v[s.field.lsb..s.field.lsb + s.field.num] + Copies(Sign(s, v), |v| - s.field.num)
  {
    var lsb, num := s.field.lsb, s.field.num;
    var x, rest := v[lsb..lsb + num], Copies(Sign(s, v), |v| - num);
    var whole := x + rest;
    forall i | 0 <= i < |v| ensures FieldBits(s, v)[i] == whole[i] {
      if i < num {
        assert FieldBits(s, v)[i] == BitAt(v, lsb + i) == x[i];
      } else {
        assert rest[i - num] == Sign(s, v);
        assert BitAt(v, lsb + num - 1) == v[lsb + num - 1];
        assert FieldBits(s, v)[i] == (s.signed && num > 0 && BitAt(v, s.field.lsb + num - 1));
      }
    }
  }

  /** What is recorded of a container's bits is the field's value in a word of the container's size. */
  lemma FieldBitsAreValue(s: State, v: Bits)
    requires s.field.Inside() && |v| == 8 * s.field.byteSize
    ensures ToNat(FieldBits(s, v)) == ValueOf(v, s.field.lsb, s.field.num, s.signed, s.field.byteSize)
  {
    var lsb, num := s.field.lsb, s.field.num;
    var x := v[lsb..lsb + num];
    FieldBitsAreCopies(s, v);
    CopiesAboveNumber(x, Sign(s, v), |v| - num);
    TopBit(x);
    assert x[num - 1] == v[lsb + num - 1];
  }

  // ----- what a trace records -----

  /** The recorded constant is the value of the field followed, whatever the variables hold. */
  ghost predicate RecordsAt(s: State, bits: Bits, n: nat, env: Env)
    requires Ok(s)
  {
    ToNat(bits) == ValueOf(Eval(s.node, env), s.field.lsb, s.field.num, s.signed, n)
  }

  ghost predicate Records(s: State, bits: Bits, n: nat)
    requires Ok(s)
  {
    s.field.num <= 8 * n && forall env :: RecordsAt(s, bits, n, env)
  }

  predicate BitEquals(x: Bits, i: int, y: Bits, j: int) { BitAt(x, i) <==> BitAt(y, j) }

  predicate SameBit(x: Bits, at: int, y: Bits, to: int, k: int) { BitEquals(x, at + k, y, to + k) }

  /** Equal field bits are equal values. */
  lemma SameBitsSameValue(x: Bits, at: int, y: Bits, to: int, num: int, signed: bool, n: nat)
    requires 0 <= at && 0 <= to && 0 <= num && at + num <= |x| && to + num <= |y|
    requires forall k :: 0 <= k < num ==> SameBit(x, at, y, to, k)
    ensures ValueOf(x, at, num, signed, n) == ValueOf(y, to, num, signed, n)
  {
    var p, q := x[at..at + num], y[to..to + num];
    forall k | 0 <= k < num ensures p[k] == q[k] { assert SameBit(x, at, y, to, k); }
    assert p == q;
  }

  lemma SameFieldValue(s: State, t: State, bits: Bits, n: nat)
    requires Ok(s) && Follows(s, t) && t.signed == s.signed && Records(t, bits, n)
    ensures Records(s, bits, n)
  {
    forall env ensures RecordsAt(s, bits, n, env) {
      assert RecordsAt(t, bits, n, env);
      var x, y := Eval(s.node, env), Eval(t.node, env);
      forall k | 0 <= k < s.field.num ensures SameBit(x, s.field.lsb, y, t.field.lsb, k) { assert SameAt(s, t, env, k); }
      SameBitsSameValue(x, s.field.lsb, y, t.field.lsb, s.field.num, s.signed, n);
    }
  }

  /** A turn records zero, or the field's part of a constant of the container's size. */
  ghost predicate Recordable(s: State, bits: Bits) {
    bits == [] || exists v :: PartOf(s, v, bits)
  }

  ghost predicate PartOf(s: State, v: Bits, bits: Bits) { |v| == 8 * s.field.byteSize && bits == FieldBits(s, v) }

  lemma ConstantIsRecordable(s: State, v: Bits)
    requires |v| == 8 * s.field.byteSize
    ensures var out := ConstantValue(s, v);
      out.Found? ==> out.insert.ConstInsert? && Recordable(s, out.insert.bits)
  {
    assert PartOf(s, v, FieldBits(s, v));
  }

  lemma StepIsRecordable(s: State, nz: Masks)
    requires Ok(s)
    ensures var out := Step(s, nz);
      && (out.Found? && out.insert.ConstInsert? ==> Recordable(s, out.insert.bits))
      && (out.Move? ==> out.s.signed == s.signed)
  {
    match s.node
    case Const(v) => ConstantIsRecordable(s, v);
    case Or(a, b) => if b.Const? && a.And? && a.b.Const? {
        assert Size(b) == Size(s.node) && Sized(b);
        ConstantIsRecordable(s, AndOf(b.bits, a.b.bits));
      }
    case And(a, b) => if b.Const? && a.Or? && a.b.Const? {
        assert Sized(a) && Size(a) == Size(a.a);
        assert Sized(a.b) && Size(a.b) == Size(a.a);
        ConstantIsRecordable(s, AndOf(a.b.bits, b.bits));
      }
    case _ =>
  }

  /** What a turn records is the value of the field. */
  lemma StepRecords(s: State, nz: Masks, bits: Bits, env: Env)
    requires Ok(s) && Recordable(s, bits) && forall k :: 0 <= k < s.field.num ==> (BitAt(bits, k) <==> FieldBit(s, env, k))
    ensures RecordsAt(s, bits, s.field.byteSize, env)
  {
    var x, lsb, num := Eval(s.node, env), s.field.lsb, s.field.num;
    if bits == [] {
      forall k | lsb <= k < lsb + num ensures !x[k] { assert BitAt(bits, k - lsb) <==> FieldBit(s, env, k - lsb); }
      ZeroIsNothing(x[lsb..lsb + num]);
    } else {
      var v :| PartOf(s, v, bits);
      FieldBitsAreValue(s, v);
      forall k | 0 <= k < num ensures SameBit(v, lsb, x, lsb, k) {
        FieldBitsAt(s, v, k);
        assert BitAt(bits, k) <==> FieldBit(s, env, k);
      }
      SameBitsSameValue(v, lsb, x, lsb, num, s.signed, s.field.byteSize);
    }
  }

  /** Where the trace ends. */
  function LastState(s: State, nz: Masks): State
    decreases s.node
  {
    var out := Step(s, nz);
    if out.Move? then
      StepDescends(s, nz);
      LastState(out.s, nz)
    else s
  }

  /**
   Whatever constant a trace of safe turns records is the value that the field has in the
   container for all inputs, in a word of the size of the node where the trace ends:
   negative ones as their two's complement, when the field is signed.
   */
  lemma {:induction false} TraceRecordsValue(s: State, nz: Masks)
    requires Ok(s) && SoundMasks(nz) && TraceSafe(s, nz) && Trace(s, nz).Found? && Trace(s, nz).insert.ConstInsert?
    ensures Records(s, Trace(s, nz).insert.bits, Size(LastState(s, nz).node))
    decreases s.node
  {
    StepRight(s, nz);
    StepIsRecordable(s, nz);
    var out := Step(s, nz);
    if out.Move? {
      StepDescends(s, nz);
      TraceRecordsValue(out.s, nz);
      SameFieldValue(s, out.s, Trace(out.s, nz).insert.bits, Size(LastState(s, nz).node));
    } else {
      var bits := out.insert.bits;
      forall env ensures RecordsAt(s, bits, s.field.byteSize, env) {
        forall k | 0 <= k < s.field.num ensures BitAt(bits, k) <==> FieldBit(s, env, k) { assert InsertAt(s, out.insert, env, k); }
        StepRecords(s, nz, bits, env);
      }
    }
  }

  /** A constant written into a signed or unsigned field of the original is recorded as that field's value of it. */
  lemma ConstantIsValue(s: State, nz: Masks, n: nat, w: bool, keep: Bits, k: Bits)
    requires Ok(s) && SoundMasks(nz) && s.node == ConstantWrite(n, w, keep, k) && n <= 8
    requires s.isField && !Aligned(s) && NoneSet(keep, s.field) && NoneSet(nz(And(Original(n, 0, w), Const(keep))), s.field)
    ensures Trace(s, nz).Found? && Trace(s, nz).insert.ConstInsert?
    ensures |k| == 8 * n
    ensures ToNat(Trace(s, nz).insert.bits) == ValueOf(k, s.field.lsb, s.field.num, s.signed, n)
  {
    ConstantIsInserted(s, nz, n, w, keep, k);
    var a := And(Original(n, 0, w), Const(keep));
    assert Sized(Or(a, Const(k))) && Size(Or(a, Const(k))) == Size(a) == Size(a.a);
    assert Sized(Const(k)) && Size(Const(k)) == n;
    FieldBitsAreValue(s, k);
  }

  /** The three bits 111 at bit 1 of a byte are -1 in a signed field and 7 in an unsigned one. */
  lemma MinusOneOrSeven(s: State)
    requires s.field == BitRange(0, 1, 1, 3, false)
    ensures var v := [false, true, true, true, false, false, false, false];
      ToNat(FieldBits(s, v)) == if s.signed then 0xff else 7
  {
    var v := [false, true, true, true, false, false, false, false];
    FieldBitsAreValue(s, v);
    assert v[1..4] == [true, true, true];
    assert ToNat([true, true, true]) == 7;
    assert Pow2(3) == 8 && Pow2(8) == 256;
  }
}

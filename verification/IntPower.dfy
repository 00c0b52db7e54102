/** pow_int of the 768-bit runtime: square and multiply that traps only when the power itself does not fit. */
module IntPower {
  import opened Limbs
  import opened Magnitude
  import opened SailInt
  import opened IntShift

  /** b^e. */
  function Power(b: int, e: nat): int {
    if e == 0 then 1 else b * Power(b, e - 1)
  }

  /** The laws of powers, which no other function obeys. */
  lemma {:induction false} PowerLaws(b: int, i: nat, k: nat)
    ensures Power(b, 0) == 1 && Power(b, 1) == b
    ensures Power(b, i + k) == Power(b, i) * Power(b, k)
    decreases i
  {
    assert Power(b, 1) == b * Power(b, 0);
    if i > 0 {
      PowerLaws(b, i - 1, k);
      assert (i - 1) + k == (i + k) - 1;
      Reassociate(b, Power(b, i - 1), Power(b, k));
    }
  }

  lemma Reassociate(b: int, x: int, y: int)
    ensures b * (x * y) == (b * x) * y
  {
  }

  /** Halving the exponent squares the base. */
  lemma {:induction false} PowerHalves(b: int, e: nat)
    ensures Power(b, e) == (if e % 2 == 1 then b else 1) * Power(b * b, e / 2)
  {
    if e >= 2 {
      PowerHalves(b, e - 2);
      HalfStep(b, Power(b, e - 2), Power(b * b, e / 2 - 1), if e % 2 == 1 then b else 1);
      assert Power(b, e) == b * (b * Power(b, e - 2));
    }
  }

  lemma HalfStep(b: int, p: int, q: int, odd: int)
    requires p == odd * q
    ensures b * (b * p) == odd * ((b * b) * q)
  {
  }

  lemma {:induction false} PowerNonzero(b: int, e: nat)
    ensures b != 0 ==> 1 <= Abs(Power(b, e))
    ensures b != 0 && 0 < e ==> Abs(b) <= Abs(Power(b, e))
  {
    if e > 0 {
      PowerNonzero(b, e - 1);
      AbsGrows(b, Power(b, e - 1));
    }
  }

  /** Multiplying by a nonzero integer never shrinks a magnitude. */
  lemma AbsGrows(x: int, y: int)
    ensures y != 0 ==> Abs(x) <= Abs(x * y)
    ensures x != 0 ==> Abs(y) <= Abs(x * y)
  {
    AbsProduct(x, y);
    if y != 0 { MulMono(1, Abs(y), Abs(x)); }
    if x != 0 { MulMono(1, Abs(x), Abs(y)); }
  }

  lemma AbsProduct(x: int, y: int)
    ensures Abs(x * y) == Abs(x) * Abs(y)
  {
  }

  /** The loop of pow_int: `power` bits of the exponent are left, and what they still contribute is a
      power of `factor`. */
  ghost predicate PowerLeft(base: int, e: nat, accumulated: int, factor: int, power: nat) {
    Power(base, e) == accumulated * Power(factor, power) && (base == 0 ==> factor == 0)
  }

  /** One round, and what a trap in it means: any product that does not fit makes the whole power too big. */
  lemma PowerRound(base: int, e: nat, accumulated: int, factor: int, power: nat)
    requires power != 0 && PowerLeft(base, e, accumulated, factor, power)
    ensures var acc := if power % 2 == 1 then accumulated * factor else accumulated;
            && PowerLeft(base, e, acc, factor * factor, power / 2)
            && (factor != 0 ==> Abs(acc) <= Abs(Power(base, e)))
  {
    var acc := if power % 2 == 1 then accumulated * factor else accumulated;
    var rest := Power(factor * factor, power / 2);
    PowerHalves(factor, power);
    RoundAlgebra(accumulated, factor, rest, power % 2 == 1);
    PowerNonzero(factor * factor, power / 2);
    AbsGrows(acc, rest);
  }

  lemma RoundAlgebra(acc: int, f: int, rest: int, odd: bool)
    ensures acc * ((if odd then f else 1) * rest) == (if odd then acc * f else acc) * rest
  {
  }

  /** A square that is still needed is no bigger than the power it goes into. */
  lemma SquareNeeded(base: int, e: nat, accumulated: int, square: int, power: nat)
    requires power != 0 && PowerLeft(base, e, accumulated, square, power)
    ensures Abs(square) <= Abs(Power(base, e))
  {
    if square != 0 {
      PowerNonzero(base, e);
      PowerNonzero(square, power);
      AbsGrows(accumulated, Power(square, power));
    }
  }

  /** integer_one. */
  method IntegerOne(value: Int)
    requires value.limbs.Length == LIMBS
    modifies value, value.limbs
    ensures value.Valid() && value.Value() == 1
  {
    value.negative := false;
    value.length := 1;
    value.limbs[0] := 1;
    assert value.limbs[..1] == [1];
    ValSingle(1);
  }

  /** The exact product in a fresh local, copied over `target`: mult_int into a temporary, then copy. */
  method MultiplyInto(target: Int, lhs: Int, rhs: Int) returns (ok: bool)
    requires lhs.Valid() && rhs.Valid() && target.limbs.Length == LIMBS
    modifies target, target.limbs
    ensures ok <==> Abs(old(lhs.Value()) * old(rhs.Value())) < BPow(LIMBS)
    ensures ok ==> target.Valid() && target.Value() == old(lhs.Value()) * old(rhs.Value())
  {
    var temporary := new Int();
    ok := MultInt(temporary, lhs, rhs);
    if ok { CopySailInt(target, temporary); }
  }

  /** pow_int: exact for every single-limb exponent, and traps exactly when the power does not fit (or
      the exponent is no small unsigned). */
  method PowInt(result: Int, base: Int, exponent: Int) returns (ok: bool)
    requires base.Valid() && exponent.Valid() && result.limbs.Length == LIMBS
    modifies result, result.limbs
    ensures var e := old(exponent.Value());
            && (ok <==> 0 <= e < B && Abs(Power(old(base.Value()), e)) < BPow(LIMBS))
            && (ok ==> result.Valid() && result.Value() == Power(old(base.Value()), e))
  {
    var power;
    ok, power := SmallUnsigned(exponent);
    if ok { ok := PowLoop(result, base, power); }
  }

  method PowLoop(result: Int, base: Int, e: Limb) returns (ok: bool)
    requires base.Valid() && result.limbs.Length == LIMBS
    modifies result, result.limbs
    ensures ok <==> Abs(Power(old(base.Value()), e)) < BPow(LIMBS)
    ensures ok ==> result.Valid() && result.Value() == Power(old(base.Value()), e)
  {
    ghost var b := base.Value();
    var accumulated := new Int();
    IntegerOne(accumulated);
    var factor := new Int();
    CopySailInt(factor, base);
    ok := PowRounds(accumulated, factor, e, b);
    if ok { CopySailInt(result, accumulated); }
  }

  /** The loop of pow_int. */
  method PowRounds(accumulated: Int, factor: Int, e: Limb, ghost b: int) returns (ok: bool)
    requires accumulated.Valid() && factor.Valid() && accumulated != factor && accumulated.limbs != factor.limbs
    requires accumulated.Value() == 1 && factor.Value() == b
    modifies accumulated, accumulated.limbs, factor, factor.limbs
    ensures ok <==> Abs(Power(b, e)) < BPow(LIMBS)
    ensures ok ==> accumulated.Valid() && accumulated.Value() == Power(b, e)
  {
    var power: nat := e;
    ValidFacts(accumulated);
    while power != 0
      invariant accumulated.Valid() && factor.Valid()
      invariant PowerLeft(b, e, accumulated.Value(), factor.Value(), power)
    {
      ok := PowRound(accumulated, factor, power, b, e);
      if !ok { return; }
      power := power / 2;
    }
    ValidFacts(accumulated);
    ok := true;
  }

  method PowRound(accumulated: Int, factor: Int, power: nat, ghost b: int, ghost e: nat) returns (ok: bool)
    requires power != 0 && accumulated.Valid() && factor.Valid()
    requires accumulated != factor && accumulated.limbs != factor.limbs
    requires PowerLeft(b, e, accumulated.Value(), factor.Value(), power)
    modifies accumulated, accumulated.limbs, factor, factor.limbs
    ensures !ok ==> BPow(LIMBS) <= Abs(Power(b, e))
    ensures ok ==> accumulated.Valid() && factor.Valid()
    ensures ok ==> PowerLeft(b, e, accumulated.Value(), factor.Value(), power / 2)
  {
    ghost var a, f := accumulated.Value(), factor.Value();
    PowerRound(b, e, a, f, power);
    if power % 2 == 1 {
      ok := MultiplyInto(accumulated, accumulated, factor);
      if !ok { return; }
    }
    if power / 2 != 0 {
      SquareNeeded(b, e, accumulated.Value(), f * f, power / 2);
      ok := MultiplyInto(factor, factor, factor);
      if !ok { return; }
    }
    ok := true;
  }
}

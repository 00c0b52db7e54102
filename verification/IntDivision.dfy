/** The three division conventions of the 768-bit runtime. Truncating, Euclidean and flooring division
    share one magnitude division and differ in how signs and a nonzero remainder adjust it. */
module IntDivision {
  import opened Limbs
  import opened Shifts
  import opened BitSerial
  import opened Magnitude
  import opened MagnitudeDivision
  import opened SailInt

  //////////////////////////////////////////////////////////////////////////////
  // The conventions
  //////////////////////////////////////////////////////////////////////////////

  /** Division rounded toward zero. */
  ghost function TruncDiv(a: int, b: int): int
    requires b != 0
  {
    if a >= 0 then a / b else -(-a / b)
  }

  ghost function TruncMod(a: int, b: int): int
    requires b != 0
  {
    a - b * TruncDiv(a, b)
  }

  /** Division rounded toward minus infinity. */
  ghost function FloorDiv(a: int, b: int): int
    requires b != 0
  {
    if b > 0 then a / b else -a / -b
  }

  ghost function FloorMod(a: int, b: int): int
    requires b != 0
  {
    a - b * FloorDiv(a, b)
  }

  /** Dafny's own / and % are Euclidean: this pins them down for either sign of the divisor. */
  lemma EuclidUnique(a: int, b: int, q: int, r: int)
    requires b != 0 && a == q * b + r && 0 <= r < Abs(b)
    ensures a / b == q && a % b == r
  {
    var q', r' := a / b, a % b;
    assert a == q' * b + r' && 0 <= r' < Abs(b);
    assert (q - q') * b == r' - r;
    if q > q' {
      FarApart(q - q', b);
    } else if q < q' {
      FarApart(q' - q, b);
    }
  }

  lemma FarApart(k: int, b: int)
    requires 1 <= k
    ensures Abs(k * b) >= Abs(b)
  {
    MulMono(1, k, Abs(b));
    assert Abs(k * b) == k * Abs(b);
  }

  /** The truncating remainder has the sign of the dividend and is smaller than the divisor; with the
      quotient it makes up the dividend. No other pair does. */
  lemma TruncLaws(a: int, b: int, q: int, r: int)
    requires b != 0
    ensures q == TruncDiv(a, b) && r == TruncMod(a, b) <==>
            a == q * b + r && Abs(r) < Abs(b) && (r == 0 || (r < 0 <==> a < 0))
  {
    var m := Abs(a);
    assert m == (m / b) * b + m % b && 0 <= m % b < Abs(b);
    assert TruncDiv(a, b) == (if a >= 0 then m / b else -(m / b));
    assert (-(m / b)) * b == -((m / b) * b);
    if a == q * b + r && Abs(r) < Abs(b) && (r == 0 || (r < 0 <==> a < 0)) { TruncUnique(a, b, q, r); }
  }

  lemma TruncUnique(a: int, b: int, q: int, r: int)
    requires b != 0 && a == q * b + r && Abs(r) < Abs(b) && (r == 0 || (r < 0 <==> a < 0))
    ensures q == TruncDiv(a, b) && r == TruncMod(a, b)
  {
    if a >= 0 {
      EuclidUnique(a, b, q, r);
    } else {
      assert -a == (-q) * b + -r;
      EuclidUnique(-a, b, -q, -r);
    }
  }

  /** The flooring remainder lies between zero and the divisor; with the quotient it makes up the
      dividend. No other pair does. */
  lemma FloorLaws(a: int, b: int, q: int, r: int)
    requires b != 0
    ensures q == FloorDiv(a, b) && r == FloorMod(a, b) <==>
            a == q * b + r && (if b > 0 then 0 <= r < b else b < r <= 0)
  {
    if b > 0 {
      assert a == (a / b) * b + a % b;
      if a == q * b + r && 0 <= r < b { EuclidUnique(a, b, q, r); }
    } else {
      assert -a == (-a / -b) * -b + -a % -b;
      assert (-a / -b) * -b == -((-a / -b) * b);
      if a == q * b + r && b < r <= 0 {
        assert -a == q * -b + -r;
        EuclidUnique(-a, -b, q, -r);
      }
    }
  }

  /** Sign and magnitude of the truncating result, from the magnitude division. */
  lemma TruncSigns(a: int, b: int)
    requires b != 0
    ensures TruncDiv(a, b) == Signed((a < 0) != (b < 0), Abs(a) / Abs(b))
    ensures TruncMod(a, b) == Signed(a < 0, Abs(a) % Abs(b))
  {
    var q, r := Abs(a) / Abs(b), Abs(a) % Abs(b);
    QuotientBounds(Abs(a), Abs(b));
    SignedProduct(q, b, (a < 0) != (b < 0));
    TruncLaws(a, b, Signed((a < 0) != (b < 0), q), Signed(a < 0, r));
  }

  lemma SignedProduct(q: int, b: int, negative: bool)
    ensures Signed(negative, q) * b == Signed(negative != (b < 0), q * Abs(b))
  {
  }

  /** Sign and magnitude of the Euclidean result: a negative dividend with a remainder moves the quotient
      one away from zero and takes the complement of the remainder. */
  lemma EuclidSigns(a: int, b: int)
    requires b != 0
    ensures var q, r := Abs(a) / Abs(b), Abs(a) % Abs(b);
            var step := a < 0 && r != 0;
            && a / b == Signed((a < 0) != (b < 0), if step then q + 1 else q)
            && a % b == (if step then Abs(b) - r else r)
  {
    var q, r := Abs(a) / Abs(b), Abs(a) % Abs(b);
    var step := a < 0 && r != 0;
    QuotientBounds(Abs(a), Abs(b));
    var q' := if step then q + 1 else q;
    assert q' * Abs(b) == q * Abs(b) + (if step then Abs(b) else 0);
    SignedProduct(q', b, (a < 0) != (b < 0));
    EuclidUnique(a, b, Signed((a < 0) != (b < 0), q'), if step then Abs(b) - r else r);
  }

  /** Sign and magnitude of the flooring result: operands of different sign with a remainder move the
      quotient one away from zero and take the complement of the remainder. */
  lemma FloorSigns(a: int, b: int)
    requires b != 0
    ensures var q, r := Abs(a) / Abs(b), Abs(a) % Abs(b);
            var step := (a < 0) != (b < 0) && r != 0;
            && FloorDiv(a, b) == Signed((a < 0) != (b < 0), if step then q + 1 else q)
            && FloorMod(a, b) == Signed(b < 0, if step then Abs(b) - r else r)
  {
    var q, r := Abs(a) / Abs(b), Abs(a) % Abs(b);
    var differ := (a < 0) != (b < 0);
    var step := differ && r != 0;
    QuotientBounds(Abs(a), Abs(b));
    var q' := if step then q + 1 else q;
    assert q' * Abs(b) == q * Abs(b) + (if step then Abs(b) else 0);
    SignedProduct(q', b, differ);
    FloorLaws(a, b, Signed(differ, q'), Signed(b < 0, if step then Abs(b) - r else r));
  }

  /** With a remainder left the divisor is at least 2, so quotient + 1 still fits. */
  lemma StepFits(m: int, d: int, bound: int)
    requires 0 <= m < bound && 0 < d && m % d != 0
    ensures m / d + 1 < bound
  {
    QuotientBounds(m, d);
    if d == 1 {
      QuotientUnique(m, 1, m, 0);
    } else {
      MulMono(2, d, m / d);
    }
  }

  //////////////////////////////////////////////////////////////////////////////
  // The operations
  //////////////////////////////////////////////////////////////////////////////

  /** integer_divide_magnitudes: divides copies of the operands' magnitudes. */
  method DivideMagnitudes(quotient: array<Limb>, remainder: array<Limb>, lhs: Int, rhs: Int)
    returns (ok: bool, quotientLength: nat, remainderLength: nat)
    requires lhs.Valid() && rhs.Valid() && quotient.Length == remainder.Length == LIMBS && quotient != remainder
    modifies quotient, remainder
    ensures ok <==> old(rhs.Value()) != 0
    ensures ok ==> Normal(quotient[..], quotientLength) && Normal(remainder[..], remainderLength)
    ensures ok ==> Val(quotient[..quotientLength]) == Abs(old(lhs.Value())) / Abs(old(rhs.Value()))
    ensures ok ==> Val(remainder[..remainderLength]) == Abs(old(lhs.Value())) % Abs(old(rhs.Value()))
  {
    ValidFacts(lhs);
    ValidFacts(rhs);
    var dividend := new Limb[LIMBS];
    var divisor := new Limb[LIMBS];
    CopyPrefix(lhs.limbs, lhs.length, dividend);
    CopyPrefix(rhs.limbs, rhs.length, divisor);
    assert rhs.length > 0 ==> divisor[rhs.length - 1] == divisor[..rhs.length][rhs.length - 1];
    ok, quotientLength, remainderLength :=
      Divide(quotient, remainder, dividend, lhs.length, divisor, rhs.length);
  }

  method TDivInt(result: Int, lhs: Int, rhs: Int) returns (ok: bool)
    requires lhs.Valid() && rhs.Valid() && result.limbs.Length == LIMBS && Apart(result, lhs) && Apart(result, rhs)
    modifies result, result.limbs
    ensures ok <==> old(rhs.Value()) != 0
    ensures ok ==> result.Valid() && result.Value() == TruncDiv(old(lhs.Value()), old(rhs.Value()))
  {
    ValidFacts(lhs);
    ValidFacts(rhs);
    ghost var a, b := lhs.Value(), rhs.Value();
    var negative := lhs.negative != rhs.negative;
    var remainder := new Limb[LIMBS];
    var q, r;
    ok, q, r := DivideMagnitudes(result.limbs, remainder, lhs, rhs);
    if ok {
      TruncSigns(a, b);
      Finish(result, q, negative);
    }
  }

  method TModInt(result: Int, lhs: Int, rhs: Int) returns (ok: bool)
    requires lhs.Valid() && rhs.Valid() && result.limbs.Length == LIMBS && Apart(result, lhs) && Apart(result, rhs)
    modifies result, result.limbs
    ensures ok <==> old(rhs.Value()) != 0
    ensures ok ==> result.Valid() && result.Value() == TruncMod(old(lhs.Value()), old(rhs.Value()))
  {
    ValidFacts(lhs);
    ghost var a, b := lhs.Value(), rhs.Value();
    var negative := lhs.negative;
    var quotient := new Limb[LIMBS];
    var q, r;
    ok, q, r := DivideMagnitudes(quotient, result.limbs, lhs, rhs);
    if ok {
      TruncSigns(a, b);
      Finish(result, r, negative);
    }
  }

  /** The magnitude both rounding divisions compute: the quotient, one more when `step` is set. */
  method QuotientWithStep(lhs: Int, rhs: Int, differ: bool, quotient: array<Limb>) returns (ok: bool, length: nat)
    requires lhs.Valid() && rhs.Valid() && quotient.Length == LIMBS
    requires quotient != lhs.limbs && quotient != rhs.limbs
    modifies quotient
    ensures ok <==> rhs.Value() != 0
    ensures ok ==> Normal(quotient[..], length)
    ensures ok ==> Val(quotient[..length]) ==
                   Abs(lhs.Value()) / Abs(rhs.Value()) +
                   (if differ && Abs(lhs.Value()) % Abs(rhs.Value()) != 0 then 1 else 0)
  {
    ValidFacts(lhs);
    ghost var m, d := Abs(lhs.Value()), Abs(rhs.Value());
    var remainder := new Limb[LIMBS];
    var remainderLength;
    ok, length, remainderLength := DivideMagnitudes(quotient, remainder, lhs, rhs);
    if ok {
      LengthZero(remainder[..], remainderLength);
      if differ && remainderLength != 0 {
        StepFits(m, d, BPow(LIMBS));
        var one := new Limb[1](_ => 1);
        assert one[..1] == [1];
        ValSingle(1);
        var fits;
        fits, length := Add(quotient, quotient, length, one, 1);
        assert fits;
      }
    }
  }

  lemma LengthZero(s: seq<Limb>, length: nat)
    requires Normal(s, length)
    ensures length == 0 <==> Val(s[..length]) == 0
  {
    if length != 0 { ValTop(s[..length]); }
  }

  /** The signed quotient, copied into the result. */
  method SignedQuotient(result: Int, lhs: Int, rhs: Int, differ: bool, negative: bool) returns (ok: bool)
    requires lhs.Valid() && rhs.Valid() && result.limbs.Length == LIMBS && Apart(result, lhs) && Apart(result, rhs)
    modifies result, result.limbs
    ensures ok <==> old(rhs.Value()) != 0
    ensures ok ==> result.Valid()
    ensures ok ==> var q, r := Abs(old(lhs.Value())) / Abs(old(rhs.Value())), Abs(old(lhs.Value())) % Abs(old(rhs.Value()));
                   result.Value() == Signed(negative, if differ && r != 0 then q + 1 else q)
  {
    var quotient := new Limb[LIMBS];
    var length;
    ok, length := QuotientWithStep(lhs, rhs, differ, quotient);
    if ok { Deliver(result, quotient, length, negative); }
  }

  method EDivInt(result: Int, lhs: Int, rhs: Int) returns (ok: bool)
    requires lhs.Valid() && rhs.Valid() && result.limbs.Length == LIMBS && Apart(result, lhs) && Apart(result, rhs)
    modifies result, result.limbs
    ensures ok <==> old(rhs.Value()) != 0
    ensures ok ==> result.Valid() && result.Value() == old(lhs.Value()) / old(rhs.Value())
  {
    ValidFacts(lhs);
    ValidFacts(rhs);
    ghost var a, b := lhs.Value(), rhs.Value();
    if b != 0 { EuclidSigns(a, b); }
    ok := SignedQuotient(result, lhs, rhs, lhs.negative, lhs.negative != rhs.negative);
  }

  /** Copies a computed magnitude into the result. */
  method Deliver(result: Int, limbs: array<Limb>, length: nat, negative: bool)
    requires result.limbs.Length == limbs.Length == LIMBS && limbs != result.limbs && Normal(limbs[..], length)
    modifies result, result.limbs
    ensures result.Valid()
    ensures result.Value() == Signed(negative, Val(limbs[..length]))
  {
    CopyPrefix(limbs, length, result.limbs);
    assert length > 0 ==> result.limbs[length - 1] == result.limbs[..length][length - 1];
    Finish(result, length, negative);
  }

  method FDivInt(result: Int, lhs: Int, rhs: Int) returns (ok: bool)
    requires lhs.Valid() && rhs.Valid() && result.limbs.Length == LIMBS && Apart(result, lhs) && Apart(result, rhs)
    modifies result, result.limbs
    ensures ok <==> old(rhs.Value()) != 0
    ensures ok ==> result.Valid() && result.Value() == FloorDiv(old(lhs.Value()), old(rhs.Value()))
  {
    ValidFacts(lhs);
    ValidFacts(rhs);
    ghost var a, b := lhs.Value(), rhs.Value();
    if b != 0 { FloorSigns(a, b); }
    var negative := lhs.negative != rhs.negative;
    ok := SignedQuotient(result, lhs, rhs, negative, negative);
  }

  /** The remainder both rounding divisions compute, complemented when `differ` is set and it is not zero. */
  method RemainderWithStep(result: Int, lhs: Int, rhs: Int, differ: bool) returns (ok: bool, length: nat)
    requires lhs.Valid() && rhs.Valid() && result.limbs.Length == LIMBS && Apart(result, lhs) && Apart(result, rhs)
    modifies result.limbs
    ensures ok <==> old(rhs.Value()) != 0
    ensures ok ==> Normal(result.limbs[..], length)
    ensures ok ==> var r := Abs(old(lhs.Value())) % Abs(old(rhs.Value()));
                   Val(result.limbs[..length]) == if differ && r != 0 then Abs(old(rhs.Value())) - r else r
  {
    ValidFacts(rhs);
    ghost var m, d := Abs(lhs.Value()), Abs(rhs.Value());
    var quotient := new Limb[LIMBS];
    var remainder := new Limb[LIMBS];
    var q, r;
    ok, q, r := DivideMagnitudes(quotient, remainder, lhs, rhs);
    length := 0;
    if ok {
      LengthZero(remainder[..], r);
      if differ && r != 0 {
        QuotientBounds(m, d);
        length := Subtract(result.limbs, rhs.limbs, rhs.length, remainder, r);
      } else {
        CopyPrefix(remainder, r, result.limbs);
        assert r > 0 ==> result.limbs[r - 1] == result.limbs[..r][r - 1];
        length := r;
      }
    }
  }

  /** The signed remainder. */
  method SignedRemainder(result: Int, lhs: Int, rhs: Int, differ: bool, negative: bool) returns (ok: bool)
    requires lhs.Valid() && rhs.Valid() && result.limbs.Length == LIMBS && Apart(result, lhs) && Apart(result, rhs)
    modifies result, result.limbs
    ensures ok <==> old(rhs.Value()) != 0
    ensures ok ==> result.Valid()
    ensures ok ==> var r := Abs(old(lhs.Value())) % Abs(old(rhs.Value()));
                   result.Value() == Signed(negative, if differ && r != 0 then Abs(old(rhs.Value())) - r else r)
  {
    var length;
    ok, length := RemainderWithStep(result, lhs, rhs, differ);
    if ok { Finish(result, length, negative); }
  }

  method EModInt(result: Int, lhs: Int, rhs: Int) returns (ok: bool)
    requires lhs.Valid() && rhs.Valid() && result.limbs.Length == LIMBS && Apart(result, lhs) && Apart(result, rhs)
    modifies result, result.limbs
    ensures ok <==> old(rhs.Value()) != 0
    ensures ok ==> result.Valid() && result.Value() == old(lhs.Value()) % old(rhs.Value())
  {
    ValidFacts(lhs);
    ghost var a, b := lhs.Value(), rhs.Value();
    if b != 0 { EuclidSigns(a, b); }
    ok := SignedRemainder(result, lhs, rhs, lhs.negative, false);
  }

  method FModInt(result: Int, lhs: Int, rhs: Int) returns (ok: bool)
    requires lhs.Valid() && rhs.Valid() && result.limbs.Length == LIMBS && Apart(result, lhs) && Apart(result, rhs)
    modifies result, result.limbs
    ensures ok <==> old(rhs.Value()) != 0
    ensures ok ==> result.Valid() && result.Value() == FloorMod(old(lhs.Value()), old(rhs.Value()))
  {
    ValidFacts(lhs);
    ValidFacts(rhs);
    ghost var a, b := lhs.Value(), rhs.Value();
    if b != 0 { FloorSigns(a, b); }
    ok := SignedRemainder(result, lhs, rhs, lhs.negative != rhs.negative, rhs.negative);
  }
}

/** 128-bit division of the guest runtime, by shifting and subtracting. */
module WideDivision {
  import opened Limbs
  import opened Shifts

  /** An unsigned __int128. */
  type Wide128 = x: int | 0 <= x < BB

  /** The number of significant bits. */
  method Width(value: Wide128) returns (width: nat)
    ensures value < Pow2(width) && (width > 0 ==> Pow2(width - 1) <= value)
  {
    var left := value;
    width := 0;
    while left != 0
      invariant left * Pow2(width) <= value < (left + 1) * Pow2(width)
      invariant left == 0 ==> value < Pow2(width) && (width > 0 ==> Pow2(width - 1) <= value)
      invariant 0 <= left
      decreases left
    {
      HalfStep(value, left, left / 2, left % 2, Pow2(width), Pow2(width + 1));
      left := left / 2;
      width := width + 1;
    }
  }

  lemma HalfStep(value: int, left: int, half: int, bit: int, p: int, p2: int)
    requires left * p <= value < (left + 1) * p && 0 < left && 0 < p && p2 == 2 * p
    requires left == 2 * half + bit && 0 <= bit <= 1
    ensures half * p2 <= value < (half + 1) * p2
    ensures half == 0 ==> p <= value < p2
  {
    assert half * p2 == (2 * half) * p;
    assert (half + 1) * p2 == (2 * half + 2) * p;
    MulMono(2 * half, left, p);
    MulMono(left + 1, 2 * half + 2, p);
    MulMono(1, left, p);
  }

  /** The state of the loop at bit k: what is still to be divided is below twice the shifted divisor. */
  ghost predicate Dividing(dividend: int, divisor: int, left: int, quotient: int, shifted: int, bit: int, k: nat) {
    && bit == Pow2(k) && shifted == divisor * bit && 0 <= left < 2 * shifted
    && dividend == quotient * divisor + left
    && quotient % (2 * bit) == 0 && 0 <= quotient
  }

  lemma DivideRound(dividend: int, divisor: int, left: int, quotient: int, shifted: int, bit: int, k: nat)
    requires 0 < divisor && Dividing(dividend, divisor, left, quotient, shifted, bit, k)
    ensures var take := left >= shifted;
            var left' := if take then left - shifted else left;
            var quotient' := if take then quotient + bit else quotient;
            && dividend == quotient' * divisor + left' && 0 <= left' < shifted && 0 <= quotient'
            && (k > 0 ==> Dividing(dividend, divisor, left', quotient', shifted / 2, bit / 2, k - 1))
  {
    var quotient' := if left >= shifted then quotient + bit else quotient;
    assert (quotient + bit) * divisor == quotient * divisor + bit * divisor;
    if k > 0 {
      HalfExact(divisor, bit, Pow2(k - 1), shifted);
      EvenStep(quotient, bit);
      assert quotient' % bit == 0;
    }
  }

  lemma HalfExact(divisor: int, bit: int, half: int, shifted: int)
    requires bit == 2 * half && shifted == divisor * bit
    ensures bit / 2 == half && shifted / 2 == divisor * half && shifted == 2 * (divisor * half)
  {
    assert divisor * bit == 2 * (divisor * half);
  }

  lemma EvenStep(quotient: int, bit: int)
    requires 0 <= quotient && 0 < bit && quotient % (2 * bit) == 0
    ensures quotient % bit == 0 && (quotient + bit) % bit == 0
  {
    var q := quotient / (2 * bit);
    QuotientBounds(quotient, 2 * bit);
    assert q * (2 * bit) == (2 * q) * bit;
    QuotientUnique(quotient, bit, 2 * q, 0);
    assert (2 * q + 1) * bit == (2 * q) * bit + bit;
    QuotientUnique(quotient + bit, bit, 2 * q + 1, 0);
  }

  /** The first shifted divisor has the width of the dividend. */
  lemma FirstShift(dividend: Wide128, divisor: int, wide: nat, narrow: nat)
    requires 0 < divisor <= dividend < Pow2(wide) && Pow2(narrow) > divisor >= Pow2(narrow - 1) && narrow > 0
    requires wide > 0 && Pow2(wide - 1) <= dividend
    ensures narrow <= wide
    ensures var shifted := divisor * Pow2(wide - narrow); dividend < 2 * shifted && shifted < BB
    ensures Pow2(wide - narrow) < BB
  {
    WidthFits(dividend, wide);
    if wide < narrow { Pow2Mono(wide, narrow - 1); }
    var p := Pow2(wide - narrow);
    Pow2Add(narrow - 1, wide - narrow);
    Pow2Add(narrow, wide - narrow);
    MulMono(Pow2(narrow - 1), divisor, p);
    MulMono(divisor + 1, Pow2(narrow), p);
    assert (divisor + 1) * p == divisor * p + p;
    MulMono(1, divisor, p);
  }

  lemma WidthFits(dividend: Wide128, wide: nat)
    requires wide > 0 && Pow2(wide - 1) <= dividend
    ensures Pow2(wide) <= BB
  {
    LimbBase();
    Pow2Add(64, 64);
    if wide > 128 { Pow2Mono(128, wide - 1); } else { Pow2Mono(wide, 128); }
  }

  /** zkvm_u128_divmod; division by zero aborts. The new quotient bit is clear, so the |= adds it. */
  method DivMod(dividend: Wide128, divisor: Wide128) returns (ok: bool, quotient: int, remainder: int)
    ensures ok <==> divisor != 0
    ensures ok ==> quotient == dividend / divisor && remainder == dividend % divisor
  {
    if divisor == 0 { return false, 0, 0; }
    ok, quotient, remainder := true, 0, dividend;
    if dividend < divisor {
      QuotientUnique(dividend, divisor, 0, dividend);
      return;
    }
    var wide := Width(dividend);
    var narrow := Width(divisor);
    FirstShift(dividend, divisor, wide, narrow);
    var k: nat := wide - narrow;
    var shifted: Wide128 := divisor * Pow2(k);
    var bit: Wide128 := Pow2(k);
    QuotientUnique(0, 2 * bit, 0, 0);
    while bit != 0
      invariant bit == 0 ==> dividend == quotient * divisor + remainder && 0 <= remainder < divisor
      invariant bit != 0 ==> Dividing(dividend, divisor, remainder, quotient, shifted, bit, k)
      decreases bit
    {
      DivideRound(dividend, divisor, remainder, quotient, shifted, bit, k);
      if remainder >= shifted {
        remainder := remainder - shifted;
        quotient := quotient + bit;
      }
      shifted := shifted / 2;
      bit := bit / 2;
      k := if k == 0 then 0 else k - 1;
    }
    QuotientUnique(dividend, divisor, quotient, remainder);
  }
}

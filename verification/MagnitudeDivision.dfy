/** Long division of the 768-bit runtime: bit-serial, with the bit that a shift pushes out of the
    remainder treated as an implicit 769th bit. */
module MagnitudeDivision {
  import opened Limbs
  import opened Shifts
  import opened BitSerial
  import opened Magnitude

  /** magnitude_divide_limb: (high * B + low) by a limb, for high < divisor. */
  method DivideLimb(high: Limb, low: Limb, divisor: Limb) returns (quotient: Limb, rem: Limb)
    requires high < divisor
    ensures high * B + low == quotient * divisor + rem && rem < divisor
  {
    quotient := 0;
    rem := high;
    ghost var n := [low, high];
    LimbPair(low, high, divisor);
    for bit := 64 downto 0
      invariant rem < divisor && DivisionSoFar(Val(n), divisor, [quotient], rem, bit)
    {
      HighBit(rem);
      var carry := Down(rem, 63) != 0;
      var next: Limb := Up(rem, 1) + low / Pow2(bit) % 2;
      LimbBit(n, divisor, quotient, rem, bit, low / Pow2(bit) % 2, next);
      if carry || next >= divisor {
        rem := Low(next - divisor);
        quotient := OrBit(quotient, bit);
      } else {
        rem := next;
      }
    }
    LimbDone(n, divisor, quotient, rem);
  }

  lemma LimbDone(n: seq<Limb>, d: Limb, quotient: Limb, rem: Limb)
    requires 0 < d && DivisionSoFar(Val(n), d, [quotient], rem, 0)
    ensures Val(n) == quotient * d + rem
  {
    DivisionDone(Val(n), d, [quotient], rem);
    QuotientBounds(Val(n), d);
    ValSingle(quotient);
  }

  /** One bit of magnitude_divide_limb: the carry out of the shift is a 65th bit of the remainder. */
  lemma LimbBit(n: seq<Limb>, d: Limb, quotient: Limb, rem: Limb, bit: nat, b: int, t: Limb)
    requires |n| == 2 && rem < d && bit < 64 && DivisionSoFar(Val(n), d, [quotient], rem, bit + 1)
    requires b == n[0] / Pow2(bit) % 2 && t as int == Up(rem, 1) + b
    ensures if Down(rem, 63) != 0 || t >= d
            then Low(t - d) < d && DivisionSoFar(Val(n), d, [OrBit(quotient, bit)], Low(t - d), bit)
            else DivisionSoFar(Val(n), d, [quotient], t, bit)
  {
    assert [quotient][bit / 64 := OrBit(quotient, bit)] == [OrBit(quotient, bit)];
    WrappedRemainder(rem, d, b, t);
    DivisionBit(n, d, [quotient], rem, bit);
  }

  lemma WrappedRemainder(rem: Limb, d: Limb, bit: int, t: Limb)
    requires 0 <= bit <= 1 && rem < d && t as int == Up(rem, 1) + bit
    ensures if Down(rem, 63) != 0 || t >= d
            then d <= 2 * rem as int + bit && Low(t - d) == 2 * rem as int + bit - d
            else t == 2 * rem as int + bit < d as int
  {
    HighBit(rem);
  }

  lemma LimbPair(low: Limb, high: Limb, divisor: Limb)
    requires high < divisor
    ensures Val([low, high]) == high * B + low
    ensures DivisionSoFar(Val([low, high]), divisor, [0], high, 64)
  {
    ValCons([low, high]);
    assert [low, high][1..] == [high];
    ValSingle(high);
    ValSingle(0);
    LimbBase();
    QuotientUnique(high * B + low, B, high, low);
    QuotientUnique(high, divisor, 0, high);
  }

  /** The one-limb path of magnitude_divide. */
  method DivideByOneLimb(quotient: array<Limb>, dividend: array<Limb>, length: nat, divisor: Limb)
    returns (carry: Limb)
    requires length <= dividend.Length && length <= quotient.Length && quotient != dividend && 0 < divisor
    modifies quotient
    ensures Val(dividend[..length]) == Val(quotient[..length]) * divisor + carry && carry < divisor
    ensures forall k :: length <= k < quotient.Length ==> quotient[k] == old(quotient[k])
  {
    carry := 0;
    assert dividend[length..length] == [] && quotient[length..length] == [];
    for i := length downto 0
      invariant Val(dividend[i..length]) == Val(quotient[i..length]) * divisor + carry && carry < divisor
      invariant forall k :: length <= k < quotient.Length ==> quotient[k] == old(quotient[k])
    {
      ghost var above, before := quotient[i + 1..length], carry;
      var digit;
      digit, carry := DivideLimb(carry, dividend[i], divisor);
      quotient[i] := digit;
      assert quotient[i..length] == [digit] + above;
      PrependDigit(dividend[i..length], above, digit, before, carry, divisor);
    }
    assert dividend[0..length] == dividend[..length] && quotient[0..length] == quotient[..length];
  }

  lemma PrependDigit(u: seq<Limb>, above: seq<Limb>, digit: Limb, before: Limb, carry: Limb, d: Limb)
    requires u != [] && Val(u[1..]) == Val(above) * d + before
    requires before * B + u[0] == digit * d + carry
    ensures Val(u) == Val([digit] + above) * d + carry
  {
    ValCons(u);
    ValCons([digit] + above);
    assert ([digit] + above)[1..] == above;
    LimbAlgebra(before, u[0], d, digit, carry, Val(above), Val(u[1..]), Val([digit] + above));
  }

  /** magnitude_full_compare() >= 0 over all twelve limbs. */
  method FullGe(lhs: array<Limb>, rhs: array<Limb>) returns (ge: bool)
    requires lhs.Length == rhs.Length == LIMBS
    ensures ge <==> Val(lhs[..]) >= Val(rhs[..])
  {
    ghost var s, t := lhs[..], rhs[..];
    assert s[LIMBS..] == t[LIMBS..];
    for i := LIMBS downto 0
      invariant s[i..] == t[i..]
    {
      if lhs[i] != rhs[i] {
        if lhs[i] < rhs[i] { CompareTop(s, t, i); } else { CompareTop(t, s, i); }
        return lhs[i] >= rhs[i];
      }
    }
    assert s == s[0..] == t[0..] == t;
    return true;
  }

  /** magnitude_full_subtract: the difference modulo 2^768. */
  method FullSubtract(x: array<Limb>, y: array<Limb>) returns (borrow: Limb)
    requires x != y && x.Length == y.Length == LIMBS
    modifies x
    ensures borrow <= 1 && Val(x[..]) == Val(old(x[..])) - Val(y[..]) + borrow * BPow(LIMBS)
  {
    ghost var a, b := x[..], y[..];
    borrow := SubtractLoop(x, x, LIMBS, y, LIMBS, a, b);
    assert x[..LIMBS] == x[..];
  }

  /** Shifts one dividend bit into the remainder. The result is the sum of the twelve limbs and the
      outgoing carry, the 769th bit. */
  method ShiftInBit(r: array<Limb>, bit: Limb) returns (carry: Limb)
    requires r.Length == LIMBS && bit <= 1
    modifies r
    ensures carry <= 1 && Val(r[..]) + carry * BPow(LIMBS) == 2 * Val(old(r[..])) + bit
  {
    ghost var before := Val(r[..]);
    carry := ShiftLeftOne(r, 0);
    ghost var s := r[..];
    EvenLow(s, carry, before);
    if bit == 1 {
      r[0] := OrBit(r[0], 0);
      assert r[..] == s[0 := OrBit(s[0], 0)];
    }
  }

  /** After a left shift the lowest bit is clear, so or-ing a bit into it adds the bit. */
  lemma EvenLow(s: seq<Limb>, carry: Limb, before: int)
    requires 0 < |s| && Val(s) + carry * BPow(|s|) == 2 * before
    ensures Val(s[0 := OrBit(s[0], 0)]) == Val(s) + 1
  {
    ValCons(s);
    assert BPow(|s|) == B * BPow(|s| - 1);
    EvenAlgebra(s[0], Val(s[1..]), carry, BPow(|s| - 1), before);
    ValUpdate(s, 0, OrBit(s[0], 0));
  }

  lemma EvenAlgebra(x: Limb, high: int, carry: int, p: int, before: int)
    requires x + B * high + carry * (B * p) == 2 * before
    ensures x / Pow2(0) % 2 == 0
  {
    assert x == 2 * (before - (B / 2) * high - (B / 2) * (carry * p));
  }

  /** One round of the multi-limb path. The comparison and the wrapped subtraction ignore the 769th bit,
      yet the remainder comes out exact. */
  method DivideBit(dividend: array<Limb>, bit: nat, divisor: array<Limb>, quotient: array<Limb>, remainder: array<Limb>)
    requires dividend.Length == divisor.Length == quotient.Length == remainder.Length == LIMBS
    requires quotient != dividend && quotient != divisor && quotient != remainder
    requires remainder != dividend && remainder != divisor && bit < 64 * LIMBS && 0 < Val(divisor[..])
    requires DivisionSoFar(Val(dividend[..]), Val(divisor[..]), quotient[..], Val(remainder[..]), bit + 1)
    modifies quotient, remainder
    ensures DivisionSoFar(Val(dividend[..]), Val(divisor[..]), quotient[..], Val(remainder[..]), bit)
  {
    ghost var us, d, was, before := dividend[..], Val(divisor[..]), quotient[..], Val(remainder[..]);
    DivisionBit(us, d, was, before, bit);
    var next := dividend[bit / 64] / Pow2(bit % 64) % 2;
    var fits := SubtractIfFits(remainder, next, divisor, 2 * before + next);
    if fits {
      quotient[bit / 64] := OrBit(quotient[bit / 64], bit % 64);
      assert quotient[..] == was[bit / 64 := OrBit(was[bit / 64], bit % 64)];
    }
  }

  method SubtractIfFits(remainder: array<Limb>, bit: Limb, divisor: array<Limb>, ghost t: int) returns (fits: bool)
    requires divisor.Length == remainder.Length == LIMBS && remainder != divisor && bit <= 1
    requires t == 2 * Val(remainder[..]) + bit && t < 2 * Val(divisor[..])
    modifies remainder
    ensures fits <==> Val(divisor[..]) <= t
    ensures Val(remainder[..]) == if fits then t - Val(divisor[..]) else t
  {
    var carry := ShiftInBit(remainder, bit);
    ghost var low := Val(remainder[..]);
    ValBound(remainder[..]);
    ValBound(divisor[..]);
    var ge := FullGe(remainder, divisor);
    fits := carry != 0 || ge;
    FitsAlgebra(low, carry, BPow(LIMBS), Val(divisor[..]), t);
    if fits {
      SubtractWithImplicitBit(remainder, carry, divisor, t);
    }
  }

  lemma FitsAlgebra(low: int, carry: Limb, p: int, d: int, t: int)
    requires 0 <= low && carry <= 1 && t == low + carry * p && d < p
    ensures carry != 0 || d <= low <==> d <= t
  {
  }

  method SubtractWithImplicitBit(remainder: array<Limb>, carry: Limb, divisor: array<Limb>, ghost t: int)
    requires divisor.Length == remainder.Length == LIMBS && remainder != divisor && carry <= 1
    requires Val(divisor[..]) <= t == Val(remainder[..]) + carry * BPow(LIMBS) < 2 * Val(divisor[..])
    modifies remainder
    ensures Val(remainder[..]) == t - Val(divisor[..])
  {
    ghost var low, d := Val(remainder[..]), Val(divisor[..]);
    ValBound(divisor[..]);
    var borrow := FullSubtract(remainder, divisor);
    ValBound(remainder[..]);
    ImplicitBit(low, carry, BPow(LIMBS), d, Val(remainder[..]), borrow);
  }

  /** The wrapped low half is the exact remainder: the 769th bit pays for the borrow. */
  lemma ImplicitBit(low: int, carry: int, p: int, d: int, wrapped: int, borrow: int)
    requires 0 <= carry <= 1 && 0 <= borrow <= 1 && d <= low + carry * p < 2 * d && d < p
    requires wrapped == low - d + borrow * p && 0 <= wrapped < p
    ensures wrapped == low + carry * p - d
  {
  }

  /** The multi-limb path of magnitude_divide. */
  method DivideByLimbs(dividend: array<Limb>, length: nat, divisor: array<Limb>, quotient: array<Limb>, remainder: array<Limb>)
    requires dividend.Length == divisor.Length == quotient.Length == remainder.Length == LIMBS
    requires quotient != dividend && quotient != divisor && quotient != remainder
    requires remainder != dividend && remainder != divisor && 0 < Val(divisor[..])
    requires 0 < length <= LIMBS && Val(dividend[..]) == Val(dividend[..length])
    requires forall k :: 0 <= k < LIMBS ==> quotient[k] == 0 && remainder[k] == 0
    modifies quotient, remainder
    ensures Val(quotient[..]) == Val(dividend[..]) / Val(divisor[..])
    ensures Val(remainder[..]) == Val(dividend[..]) % Val(divisor[..])
  {
    ghost var u, d := Val(dividend[..]), Val(divisor[..]);
    var topBit := TopBit(dividend, length);
    ValZeros(remainder[..]);
    DivisionStart(u, d, quotient[..], topBit + 1);
    for bit := topBit + 1 downto 0
      invariant DivisionSoFar(u, d, quotient[..], Val(remainder[..]), bit)
    {
      DivideBit(dividend, bit, divisor, quotient, remainder);
    }
    DivisionDone(u, d, quotient[..], Val(remainder[..]));
  }

  /** The highest set bit of the dividend, or 0. */
  method TopBit(dividend: array<Limb>, length: nat) returns (topBit: nat)
    requires 0 < length <= dividend.Length && Val(dividend[..]) == Val(dividend[..length])
    ensures topBit < 64 * length && Val(dividend[..]) < Pow2(topBit + 1)
  {
    ghost var us := dividend[..];
    ValBound(us[..length]);
    assert us[..length] == dividend[..length];
    BPowIsPow2(length);
    topBit := length * 64 - 1;
    while topBit > 0 && dividend[topBit / 64] / Pow2(topBit % 64) % 2 == 0
      invariant topBit < 64 * length && Val(us) < Pow2(topBit + 1)
    {
      TopBitClear(us, topBit);
      topBit := topBit - 1;
    }
  }

  lemma TopBitClear(s: seq<Limb>, i: nat)
    requires i < 64 * |s| && Val(s) < Pow2(i + 1) && Bit(s, i) == 0
    ensures Val(s) < Pow2(i)
  {
    BitOfVal(s, i);
    QuotientUnique(Val(s), Pow2(i + 1), 0, Val(s));
    QuotientBounds(Val(s), Pow2(i));
  }

  /** magnitude_divide: traps exactly on a zero divisor. The operands are copies of the callers' numbers,
      so the outputs alias nothing. */
  method Divide(quotient: array<Limb>, remainder: array<Limb>, dividend: array<Limb>, dividendLength: nat,
                divisor: array<Limb>, divisorLength: nat)
    returns (ok: bool, quotientLength: nat, remainderLength: nat)
    requires dividend.Length == divisor.Length == quotient.Length == remainder.Length == LIMBS
    requires quotient != dividend && quotient != divisor && quotient != remainder
    requires remainder != dividend && remainder != divisor
    requires dividendLength <= LIMBS && Normal(divisor[..], divisorLength)
    modifies quotient, remainder
    ensures ok <==> Val(divisor[..divisorLength]) != 0
    ensures ok ==> Normal(quotient[..], quotientLength) && Normal(remainder[..], remainderLength)
    ensures ok ==> Val(quotient[..quotientLength]) == Val(dividend[..dividendLength]) / Val(divisor[..divisorLength])
    ensures ok ==> Val(remainder[..remainderLength]) == Val(dividend[..dividendLength]) % Val(divisor[..divisorLength])
  {
    if divisorLength == 0 { return false, 0, 0; }
    ok := true;
    ValTop(divisor[..divisorLength]);
    ghost var u, d := Val(dividend[..dividendLength]), Val(divisor[..divisorLength]);
    ClearLimbs(quotient);
    ClearLimbs(remainder);
    if dividendLength == 0 {
      QuotientUnique(0, d, 0, 0);
      quotientLength, remainderLength := 0, 0;
    } else if divisorLength == 1 {
      assert divisor[..1] == [divisor[0]];
      ValSingle(divisor[0]);
      var carry := DivideByOneLimb(quotient, dividend, dividendLength, divisor[0]);
      QuotientUnique(u, d, Val(quotient[..dividendLength]), carry);
      if carry != 0 { remainder[0] := carry; }
      ValSingle(carry);
      quotientLength := LimbsUsed(quotient, dividendLength);
      remainderLength := if carry == 0 then 0 else 1;
      assert carry != 0 ==> remainder[..1] == [carry];
    } else {
      var dividendFull := FullCopy(dividend, dividendLength);
      var divisorFull := FullCopy(divisor, divisorLength);
      DivideByLimbs(dividendFull, dividendLength, divisorFull, quotient, remainder);
      quotientLength := LimbsUsed(quotient, LIMBS);
      remainderLength := LimbsUsed(remainder, LIMBS);
      assert quotient[..LIMBS] == quotient[..] && remainder[..LIMBS] == remainder[..];
    }
  }

  /** magnitude_full: the limbs of a magnitude, zero above its length. */
  method FullCopy(value: array<Limb>, length: nat) returns (full: array<Limb>)
    requires length <= value.Length && length <= LIMBS
    ensures fresh(full) && full.Length == LIMBS && full[..length] == value[..length]
    ensures Val(full[..]) == Val(value[..length])
  {
    full := new Limb[LIMBS];
    for i := 0 to LIMBS
      invariant forall k :: 0 <= k < i ==> full[k] == LimbOr0(value, length, k)
    {
      full[i] := LimbOr0(value, length, i);
    }
    ValTrailingZeros(full[..], length);
    assert full[..][..length] == full[..length] == value[..length];
  }
}

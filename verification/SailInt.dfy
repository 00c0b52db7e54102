/** The sail_int of the 768-bit runtime: sign, length and twelve limbs, updated through out-parameters.
    Every operation is exact or traps; a trap is `ok == false`. */
module SailInt {
  import opened Limbs
  import opened BitSerial
  import opened Magnitude

  class Int {
    var negative: bool
    var length: nat
    const limbs: array<Limb>

    /** create_sail_int. */
    constructor ()
      ensures Valid() && fresh(limbs) && Value() == 0
    {
      negative := false;
      length := 0;
      limbs := new Limb[LIMBS];
    }

    /** The normalized form: no leading zero limb, no negative zero. */
    ghost predicate Valid()
      reads this, limbs
    {
      limbs.Length == LIMBS && Normal(limbs[..], length) && (length == 0 ==> !negative)
    }

    ghost function Size(): (m: int)
      requires length <= limbs.Length
      reads this, limbs
      ensures 0 <= m
    {
      Val(limbs[..length])
    }

    ghost function Value(): int
      requires length <= limbs.Length
      reads this, limbs
    {
      if negative then -Size() else Size()
    }
  }

  /** An out-parameter may be one of the operands, but two different integers share no limbs. */
  ghost predicate Apart(x: Int, y: Int) {
    x == y || x.limbs != y.limbs
  }

  function Abs(x: int): (a: int)
    ensures 0 <= a
  {
    if x < 0 then -x else x
  }

  function Signed(negative: bool, magnitude: int): int {
    if negative then -magnitude else magnitude
  }

  /** A valid integer fits, and only zero has no limbs. */
  lemma ValidFacts(x: Int)
    requires x.Valid()
    ensures x.Size() == Abs(x.Value()) < BPow(LIMBS)
    ensures x.length == 0 <==> x.Value() == 0
    ensures x.negative <==> x.Value() < 0
    ensures x.Value() == if x.negative then -Val(x.limbs[..x.length]) else Val(x.limbs[..x.length])
  {
    var s := x.limbs[..x.length];
    ValBound(s);
    BPowMono(x.length, LIMBS);
    if x.length != 0 { ValTop(s); }
  }

  /** integer_compare is the integer order. */
  method IntegerCompare(lhs: Int, rhs: Int) returns (c: int)
    requires lhs.Valid() && rhs.Valid()
    ensures c == Sign(lhs.Value() - rhs.Value())
    ensures (c == -1 <==> lhs.Value() < rhs.Value()) && (c == 1 <==> lhs.Value() > rhs.Value())
  {
    ValidFacts(lhs);
    ValidFacts(rhs);
    if lhs.negative != rhs.negative { return if lhs.negative then -1 else 1; }
    var comparison := Compare(lhs.limbs, lhs.length, rhs.limbs, rhs.length);
    return if lhs.negative then -comparison else comparison;
  }

  method IntegerZero(value: Int)
    requires value.limbs.Length == LIMBS
    modifies value
    ensures value.Valid() && value.Value() == 0
  {
    value.negative := false;
    value.length := 0;
  }

  method CopySailInt(result: Int, value: Int)
    requires value.Valid() && result.limbs.Length == LIMBS && Apart(result, value)
    modifies result, result.limbs
    ensures result.Valid() && result.Value() == old(value.Value()) && value.Valid() && value.Value() == old(value.Value())
  {
    result.negative := value.negative;
    result.length := value.length;
    CopyPrefix(value.limbs, value.length, result.limbs);
  }

  /** add_int: exact, and traps exactly when the sum does not fit. */
  method AddInt(result: Int, lhs: Int, rhs: Int) returns (ok: bool)
    requires lhs.Valid() && rhs.Valid() && result.limbs.Length == LIMBS && Apart(result, lhs) && Apart(result, rhs)
    modifies result, result.limbs
    ensures ok <==> Abs(old(lhs.Value()) + old(rhs.Value())) < BPow(LIMBS)
    ensures ok ==> result.Valid() && result.Value() == old(lhs.Value()) + old(rhs.Value())
  {
    ValidFacts(lhs);
    ValidFacts(rhs);
    var length;
    if lhs.negative == rhs.negative {
      var negative := lhs.negative;
      ok, length := Add(result.limbs, lhs.limbs, lhs.length, rhs.limbs, rhs.length);
      if ok { Finish(result, length, negative); }
    } else {
      SubtractSmaller(result, lhs, rhs);
      ok := true;
    }
  }

  /** The branch of add_int for operands of different signs. */
  method SubtractSmaller(result: Int, lhs: Int, rhs: Int)
    requires lhs.Valid() && rhs.Valid() && result.limbs.Length == LIMBS && Apart(result, lhs) && Apart(result, rhs)
    requires lhs.negative != rhs.negative
    modifies result, result.limbs
    ensures result.Valid() && result.Value() == old(lhs.Value()) + old(rhs.Value())
    ensures Abs(old(lhs.Value()) + old(rhs.Value())) < BPow(LIMBS)
  {
    ValidFacts(lhs);
    ValidFacts(rhs);
    var comparison := Compare(lhs.limbs, lhs.length, rhs.limbs, rhs.length);
    if comparison == 0 {
      IntegerZero(result);
    } else if comparison > 0 {
      SubtractFrom(result, lhs, rhs);
    } else {
      SubtractFrom(result, rhs, lhs);
    }
  }

  /** The larger magnitude gives the sign. */
  method SubtractFrom(result: Int, larger: Int, smaller: Int)
    requires larger.Valid() && smaller.Valid() && result.limbs.Length == LIMBS
    requires Apart(result, larger) && Apart(result, smaller)
    requires larger.negative != smaller.negative && smaller.Size() < larger.Size()
    modifies result, result.limbs
    ensures result.Valid() && result.Value() == old(larger.Value()) + old(smaller.Value())
  {
    var length := Subtract(result.limbs, larger.limbs, larger.length, smaller.limbs, smaller.length);
    Finish(result, length, larger.negative);
  }

  /** Sets length and sign over computed limbs; a zero is never negative. */
  method Finish(result: Int, length: nat, negative: bool)
    requires result.limbs.Length == LIMBS && Normal(result.limbs[..], length)
    modifies result
    ensures result.Valid()
    ensures result.Value() == if negative then -Val(result.limbs[..length]) else Val(result.limbs[..length])
  {
    result.length := length;
    result.negative := if length == 0 then false else negative;
    assert length == 0 ==> result.limbs[..length] == [];
  }

  /** neg_int never traps. */
  method NegInt(result: Int, value: Int)
    requires value.Valid() && result.limbs.Length == LIMBS && Apart(result, value)
    modifies result, result.limbs
    ensures result.Valid() && result.Value() == -old(value.Value())
  {
    CopySailInt(result, value);
    if result.length != 0 { result.negative := !result.negative; }
    assert result.length == 0 ==> result.limbs[..0] == [];
  }

  method SubInt(result: Int, lhs: Int, rhs: Int) returns (ok: bool)
    requires lhs.Valid() && rhs.Valid() && result.limbs.Length == LIMBS && Apart(result, lhs) && Apart(result, rhs)
    modifies result, result.limbs
    ensures ok <==> Abs(old(lhs.Value()) - old(rhs.Value())) < BPow(LIMBS)
    ensures ok ==> result.Valid() && result.Value() == old(lhs.Value()) - old(rhs.Value())
  {
    var negativeRhs := new Int();
    NegInt(negativeRhs, rhs);
    ok := AddInt(result, lhs, negativeRhs);
  }

  /** mult_int: exact, and traps exactly when the product does not fit. */
  method MultInt(result: Int, lhs: Int, rhs: Int) returns (ok: bool)
    requires lhs.Valid() && rhs.Valid() && result.limbs.Length == LIMBS && Apart(result, lhs) && Apart(result, rhs)
    modifies result, result.limbs
    ensures ok <==> Abs(old(lhs.Value()) * old(rhs.Value())) < BPow(LIMBS)
    ensures ok ==> result.Valid() && result.Value() == old(lhs.Value()) * old(rhs.Value())
  {
    ValidFacts(lhs);
    ValidFacts(rhs);
    ProductSigns(lhs.Value(), rhs.Value());
    var negative := lhs.negative != rhs.negative;
    var length;
    ok, length := Multiply(result.limbs, lhs.limbs, lhs.length, rhs.limbs, rhs.length);
    if ok { Finish(result, length, negative); }
  }

  lemma ProductSigns(x: int, y: int)
    ensures Abs(x * y) == Abs(x) * Abs(y)
    ensures (x < 0) != (y < 0) ==> x * y <= 0
    ensures (x < 0) == (y < 0) ==> x * y >= 0
  {
  }
}

/** Shifts of the 768-bit runtime. */
module IntShift {
  import opened Limbs
  import opened Shifts
  import opened BitSerial
  import opened Magnitude
  import opened SailInt
  import opened IntDivision

  /** integer_small_unsigned: traps on a negative or multi-limb amount. */
  method SmallUnsigned(value: Int) returns (ok: bool, small: Limb)
    requires value.Valid()
    ensures ok <==> 0 <= value.Value() < B
    ensures ok ==> small == value.Value()
  {
    ValidFacts(value);
    SmallLength(value.limbs[..value.length]);
    if value.negative || value.length > 1 { return false, 0; }
    return true, if value.length == 0 then 0 else value.limbs[0];
  }

  lemma SmallLength(s: seq<Limb>)
    requires s != [] ==> s[|s| - 1] != 0
    ensures Val(s) < B <==> |s| <= 1
    ensures |s| == 1 ==> Val(s) == s[0]
  {
    if |s| == 1 {
      assert s == [s[0]];
      ValSingle(s[0]);
    } else if |s| > 1 {
      ValTop(s);
      BPowMono(1, |s| - 1);
      assert BPow(1) == B;
    }
  }

  //////////////////////////////////////////////////////////////////////////////
  // shl_int
  //////////////////////////////////////////////////////////////////////////////

  /** The shifted limbs after `i` source limbs. Above the last target only the bits that left the last
      source limb are set, which is where the next limb is or-ed in. */
  ghost predicate ShiftedUp(s: seq<Limb>, v: seq<Limb>, i: nat, word: nat, bits: nat) {
    && i <= |v| && bits < 64
    && Val(s) == (Val(v[..i]) * Pow2(bits)) * BPow(word)
    && (forall k :: i + word <= k < |s| ==> (if k == i + word then s[k] < Pow2(bits) else s[k] == 0))
  }

  /** shifted[target] |= x << bits; then, when bits leave the limb, shifted[target + 1] |= those bits. */
  method ShiftUpLimb(shifted: array<Limb>, x: Limb, target: nat, bits: nat) returns (ok: bool)
    requires shifted.Length == LIMBS && target < LIMBS && bits < 64 && shifted[target] < Pow2(bits)
    requires forall k :: target < k < LIMBS ==> shifted[k] == 0
    modifies shifted
    ensures ok <==> target + 1 < LIMBS || Down(x, 64 - bits) == 0
    ensures ok ==> Val(shifted[..]) == Val(old(shifted[..])) + (x * Pow2(bits)) * BPow(target)
    ensures ok && target + 1 < LIMBS ==> shifted[target + 1] < Pow2(bits)
    ensures ok ==> forall k :: target + 1 < k < LIMBS ==> shifted[k] == 0
  {
    ghost var s0, low := shifted[..], shifted[target];
    ghost var v0 := Val(s0);
    OrLow(shifted, x, target, bits);
    ghost var s1 := shifted[..];
    var high := if bits != 0 then Down(x, 64 - bits) else 0;
    HighOfZero(x, bits);
    ShiftBreaks(x, bits);
    UpLimbAlgebra(x, Pow2(bits), low, Up(x, bits), high, BPow(target), BPow(target + 1), v0, Val(s1));
    if high != 0 {
      if target + 1 >= LIMBS { return false; }
      OrHigh(shifted, target + 1, high);
    }
    ok := true;
  }

  /** shifted[target] |= high, on a limb that is still zero. */
  method OrHigh(shifted: array<Limb>, target: nat, high: Limb)
    requires target < shifted.Length && shifted[target] == 0
    modifies shifted
    ensures shifted[..] == old(shifted[..])[target := high]
    ensures Val(shifted[..]) == Val(old(shifted[..])) + high * BPow(target)
  {
    ghost var s1 := shifted[..];
    SetLimb(shifted, target, high);
    ValUpdate(s1, target, high);
  }

  /** shifted[target] |= x << bits */
  method OrLow(shifted: array<Limb>, x: Limb, target: nat, bits: nat)
    requires target < shifted.Length && bits < 64 && shifted[target] < Pow2(bits)
    modifies shifted
    ensures shifted[target] == old(shifted[target]) + Up(x, bits)
    ensures shifted[..] == old(shifted[..])[target := shifted[target]]
    ensures Val(shifted[..]) == Val(old(shifted[..])) + shifted[target] * BPow(target) - old(shifted[target]) * BPow(target)
  {
    ghost var s0 := shifted[..];
    ShiftBreaks(x, bits);
    SetLimb(shifted, target, shifted[target] + Up(x, bits));
    ValUpdate(s0, target, shifted[target]);
  }

  lemma HighOfZero(x: Limb, bits: nat)
    requires bits < 64
    ensures bits == 0 ==> Down(x, 64) == 0
  {
    LimbBase();
    QuotientUnique(x, B, 0, x);
  }

  lemma UpLimbAlgebra(x: int, c: int, low: int, up: int, high: int, p: int, p': int, v: int, v': int)
    requires x * c == high * B + up && p' == B * p && v' == v + (low + up) * p - low * p
    ensures v' + high * p' == v + (x * c) * p
  {
    MulEq(x * c, high * B + up, p);
  }

  /** shl_int: exact, and traps exactly when the amount is no small unsigned or the result does not fit. */
  method ShlInt(result: Int, value: Int, amount: Int) returns (ok: bool)
    requires value.Valid() && amount.Valid() && result.limbs.Length == LIMBS && Apart(result, value)
    modifies result, result.limbs
    ensures var shift := old(amount.Value());
            && (ok <==> 0 <= shift < B && Abs(old(value.Value()) * Pow2(shift)) < BPow(LIMBS))
            && (ok ==> result.Valid() && result.Value() == old(value.Value()) * Pow2(shift))
  {
    var shift;
    ok, shift := SmallUnsigned(amount);
    if ok { ok := ShlBy(result, value, shift); }
  }

  method ShlBy(result: Int, value: Int, shift: Limb) returns (ok: bool)
    requires value.Valid() && result.limbs.Length == LIMBS && Apart(result, value)
    modifies result, result.limbs
    ensures ok <==> Abs(old(value.Value()) * Pow2(shift)) < BPow(LIMBS)
    ensures ok ==> result.Valid() && result.Value() == old(value.Value()) * Pow2(shift)
  {
    ValidFacts(value);
    ghost var m := value.Size();
    ShiftedSize(value.Value(), m, value.negative, Pow2(shift));
    if value.length == 0 {
      IntegerZero(result);
      return true;
    }
    if shift >= LIMBS * 64 {
      ShiftedOut(m, shift, LIMBS);
      return false;
    }
    var negative := value.negative;
    var shifted;
    ok, shifted := ShiftUp(value.limbs, value.length, shift);
    if ok { DeliverFull(result, shifted, negative); }
  }

  /** Copies all twelve limbs into the result and normalizes its length. */
  method DeliverFull(result: Int, limbs: array<Limb>, negative: bool)
    requires result.limbs.Length == limbs.Length == LIMBS && limbs != result.limbs
    modifies result, result.limbs
    ensures result.Valid()
    ensures result.Value() == if negative then -Val(limbs[..]) else Val(limbs[..])
  {
    CopyPrefix(limbs, LIMBS, result.limbs);
    assert limbs[..LIMBS] == limbs[..];
    var length := LimbsUsed(result.limbs, LIMBS);
    Finish(result, length, negative);
  }

  lemma ShiftedSize(v: int, m: int, negative: bool, c: int)
    requires 1 <= c && 0 <= m && v == if negative then -m else m
    ensures Abs(v * c) == m * c && v * c == if negative then -(m * c) else m * c
  {
    MulMono(0, m, c);
  }

  /** Any nonzero magnitude shifted by all 768 bits or more does not fit. */
  lemma ShiftedOut(m: int, shift: nat, limit: nat)
    requires 1 <= m && 64 * limit <= shift
    ensures BPow(limit) <= m * Pow2(shift)
  {
    BPowIsPow2(limit);
    Pow2Mono(64 * limit, shift);
    MulMono(1, m, Pow2(shift));
  }

  method ShiftUp(limbs: array<Limb>, length: nat, shift: nat) returns (ok: bool, shifted: array<Limb>)
    requires limbs.Length == LIMBS && 0 < length && Normal(limbs[..], length) && shift < 64 * LIMBS
    ensures fresh(shifted) && shifted.Length == LIMBS
    ensures ok <==> Val(limbs[..length]) * Pow2(shift) < BPow(LIMBS)
    ensures ok ==> Val(shifted[..]) == Val(limbs[..length]) * Pow2(shift)
  {
    var word, bits := shift / 64, shift % 64;
    ghost var v := limbs[..length];
    shifted := new Limb[LIMBS](_ => 0);
    ValZeros(shifted[..]);
    ShiftSplits(shift);
    for i := 0 to length
      modifies shifted
      invariant ShiftedUp(shifted[..], v, i, word, bits)
    {
      var target := i + word;
      if target >= LIMBS {
        LimbShiftedOut(v, i, word, bits, LIMBS);
        ShiftValue(Val(v), shift);
        return false, shifted;
      }
      ghost var before := shifted[..];
      ok := ShiftUpLimb(shifted, limbs[i], target, bits);
      if !ok {
        BitsShiftedOut(v, i, word, bits, LIMBS);
        ShiftValue(Val(v), shift);
        return;
      }
      ShiftedUpStep(before, shifted[..], v, i, word, bits);
    }
    assert v[..length] == v;
    ShiftValue(Val(v), shift);
    ValBound(shifted[..]);
    ok := true;
  }

  lemma ShiftSplits(shift: nat)
    ensures Pow2(shift) == Pow2(shift % 64) * BPow(shift / 64)
  {
    BPowIsPow2(shift / 64);
    Pow2Add(shift % 64, 64 * (shift / 64));
  }

  lemma ShiftValue(v: int, shift: nat)
    ensures v * Pow2(shift) == (v * Pow2(shift % 64)) * BPow(shift / 64)
  {
    ShiftSplits(shift);
    Associate(v, Pow2(shift % 64), BPow(shift / 64), Pow2(shift));
  }

  lemma Associate(a: int, b: int, c: int, bc: int)
    requires bc == b * c
    ensures a * bc == (a * b) * c
  {
  }

  lemma ShiftedUpStep(before: seq<Limb>, after: seq<Limb>, v: seq<Limb>, i: nat, word: nat, bits: nat)
    requires i < |v| && i + word < |before| == |after| && ShiftedUp(before, v, i, word, bits)
    requires Val(after) == Val(before) + (v[i] * Pow2(bits)) * BPow(i + word)
    requires i + word + 1 < |after| ==> after[i + word + 1] < Pow2(bits)
    requires forall k :: i + word + 1 < k < |after| ==> after[k] == 0
    ensures ShiftedUp(after, v, i + 1, word, bits)
  {
    ValSnoc(v, i);
    BPowAdd(i, word);
    StepAlgebra(Val(v[..i]), Val(v[..i + 1]), v[i], Pow2(bits), BPow(i), BPow(word), BPow(i + word), Val(before), Val(after));
  }

  lemma StepAlgebra(v: int, v': int, x: int, c: int, p: int, w: int, pw: int, s: int, s': int)
    requires v' == v + x * p && pw == p * w && s == (v * c) * w && s' == s + (x * c) * pw
    ensures s' == (v' * c) * w
  {
    assert (v' * c) * w == (v * c) * w + ((x * p) * c) * w;
    assert ((x * p) * c) * w == (x * c) * (p * w);
  }

  /** A source limb whose target is past the last limb: the top limb is nonzero, so the result is too big. */
  lemma LimbShiftedOut(v: seq<Limb>, i: nat, word: nat, bits: nat, limit: nat)
    requires i < |v| && v[|v| - 1] != 0 && limit <= i + word
    ensures BPow(limit) <= (Val(v) * Pow2(bits)) * BPow(word)
  {
    ValTop(v);
    BPowMono(i, |v| - 1);
    BPowAdd(i, word);
    BPowMono(limit, i + word);
    OutAlgebra(Val(v), Pow2(bits), BPow(word), BPow(i), BPow(i + word));
  }

  lemma OutAlgebra(v: int, c: int, w: int, p: int, pw: int)
    requires 1 <= c && 1 <= w && 1 <= p <= v && pw == p * w
    ensures pw <= (v * c) * w
  {
    MulMono(1, c, v);
    MulMono(p, v * c, w);
  }

  /** Bits that leave the last limb: the result needs one limb more. */
  lemma BitsShiftedOut(v: seq<Limb>, i: nat, word: nat, bits: nat, limit: nat)
    requires i < |v| && bits < 64 && limit == i + word + 1 && Down(v[i], 64 - bits) != 0
    ensures BPow(limit) <= (Val(v) * Pow2(bits)) * BPow(word)
  {
    assert BPow(limit) == B * BPow(i + word);
    ShiftBreaks(v[i], bits);
    BPowAdd(i, word);
    SplitAt(v, i);
    BitsAlgebra(Val(v), Val(v[..i]), v[i], BPow(i), BPow(i + 1), Val(v[i + 1..]), Pow2(bits), BPow(word),
                BPow(i + word), Down(v[i], 64 - bits), Up(v[i], bits));
  }

  lemma SplitAt(v: seq<Limb>, i: nat)
    requires i < |v|
    ensures Val(v) == Val(v[..i]) + v[i] * BPow(i) + BPow(i + 1) * Val(v[i + 1..])
  {
    ValSplit(v, i + 1);
    ValSnoc(v, i);
  }

  lemma BitsAlgebra(v: int, low: int, x: int, p: int, p': int, high: int, c: int, w: int, pw: int, down: int, up: int)
    requires v == low + x * p + p' * high && 0 <= low && 0 <= high && 1 <= p && 1 <= p' && 1 <= c && 1 <= w
    requires pw == p * w && x * c == down * B + up && 1 <= down && 0 <= up
    ensures B * pw <= (v * c) * w
  {
    MulMono(0, high, p');
    MulMono(x * p, v, c);
    assert (x * p) * c == (x * c) * p;
    MulMono(B, x * c, p);
    MulMono(B * p, v * c, w);
    assert (B * p) * w == B * pw;
  }

  //////////////////////////////////////////////////////////////////////////////
  // shr_int
  //////////////////////////////////////////////////////////////////////////////

  /** Dropping whole limbs and then bits: quotient and remainder of the division by 2^shift. */
  lemma ShiftDownValue(v: seq<Limb>, y: seq<Limb>, shift: nat)
    requires shift / 64 < |v| && |y| == |v| - shift / 64
    requires forall k :: 0 <= k < |y| ==> y[k] == ShrLimb(v[shift / 64..], shift % 64, k)
    ensures Val(y) == Val(v) / Pow2(shift)
    ensures Val(v) % Pow2(shift) == Val(v[..shift / 64]) + (v[shift / 64] % Pow2(shift % 64)) * BPow(shift / 64)
  {
    var word, bits := shift / 64, shift % 64;
    var x := v[word..];
    assert x[0] == v[word];
    ShiftSplits(shift);
    ShrWhole(x, y, bits);
    ValSplit(v, word);
    ValBound(v[..word]);
    QuotientBounds(x[0], Pow2(bits));
    DownAlgebra(Val(v), Val(v[..word]), Val(x), Val(y), x[0] % Pow2(bits), BPow(word), Pow2(bits), Pow2(shift));
  }

  lemma DownAlgebra(v: int, low: int, x: int, y: int, r: int, w: int, c: int, cw: int)
    requires v == low + w * x && x == y * c + r && 0 <= low < w && 0 <= r < c && cw == c * w
    ensures y == v / cw && v % cw == low + r * w
  {
    assert w * x == y * cw + r * w;
    MulMono(r + 1, c, w);
    MulMono(0, r, w);
    QuotientUnique(v, cw, y, low + r * w);
  }

  /** The discarding tests of shr_int: some bit below the shift is set. */
  method Discards(limbs: array<Limb>, length: nat, shift: nat) returns (discarded: bool)
    requires Normal(limbs[..], length) && 0 < length
    ensures discarded <==> Val(limbs[..length]) % Pow2(shift) != 0
  {
    var word, bits := shift / 64, shift % 64;
    ghost var v := limbs[..length];
    ghost var n := if word < length then word else length;
    discarded := false;
    var i := 0;
    while i < word && i < length
      invariant i <= n
      invariant discarded <==> exists k :: 0 <= k < i && v[k] != 0
    {
      discarded := discarded || limbs[i] != 0;
      assert v[i] == limbs[i];
      i := i + 1;
    }
    SomeNonzero(v, n);
    if bits != 0 && word < length {
      discarded := discarded || limbs[word] % Pow2(bits) != 0;
    }
    if word < length { DiscardedRemainder(v, shift); } else { BeyondTop(v, shift); assert v[..length] == v; }
  }

  lemma SomeNonzero(v: seq<Limb>, n: nat)
    requires n <= |v|
    ensures Val(v[..n]) != 0 <==> exists k :: 0 <= k < n && v[k] != 0
  {
    if k :| 0 <= k < n && v[k] != 0 {
      TooLarge(v[..n], 0, k);
    } else {
      ValZeros(v[..n]);
    }
  }

  /** The shifting loop of shr_int. */
  method ShiftDown(limbs: array<Limb>, length: nat, shift: nat) returns (shifted: array<Limb>)
    requires limbs.Length == LIMBS && Normal(limbs[..], length) && 0 < length
    ensures fresh(shifted) && shifted.Length == LIMBS && Val(shifted[..]) == Val(limbs[..length]) / Pow2(shift)
  {
    var word, bits := shift / 64, shift % 64;
    ghost var v := limbs[..length];
    shifted := new Limb[LIMBS](_ => 0);
    ghost var x := if word < length then v[word..] else [];
    var source := word;
    while source < length
      modifies shifted
      invariant word <= source && (source <= length || source == word)
      invariant forall k :: 0 <= k < source - word ==> shifted[k] == ShrLimb(x, bits, k)
      invariant forall k :: source - word <= k < LIMBS ==> shifted[k] == 0
    {
      var target := source - word;
      assert x[target] == v[source] == limbs[source];
      assert source + 1 < length ==> x[target + 1] == v[source + 1] == limbs[source + 1];
      shifted[target] := if bits != 0 && source + 1 < length
                         then ShrJoin(limbs[source + 1], limbs[source], bits)
                         else Down(limbs[source], bits);
      source := source + 1;
    }
    if word < length {
      ghost var y := shifted[..length - word];
      assert shifted[..][..length - word] == y;
      ValTrailingZeros(shifted[..], length - word);
      ShiftDownValue(v, y, shift);
    } else {
      ValZeros(shifted[..]);
      BeyondTop(v, shift);
    }
  }

  /** shr_int: floor division by 2^shift, for every sign and every small unsigned amount; the adjustment
      of a negative result never traps. */
  method ShrInt(result: Int, value: Int, amount: Int) returns (ok: bool)
    requires value.Valid() && amount.Valid() && result.limbs.Length == LIMBS && Apart(result, value)
    modifies result, result.limbs
    ensures ok <==> 0 <= old(amount.Value()) < B
    ensures ok ==> result.Valid() && result.Value() == old(value.Value()) / Pow2(old(amount.Value()))
  {
    var shift;
    ok, shift := SmallUnsigned(amount);
    if ok { ShrBy(result, value, shift); }
  }

  method ShrBy(result: Int, value: Int, shift: Limb)
    requires value.Valid() && result.limbs.Length == LIMBS && Apart(result, value)
    modifies result, result.limbs
    ensures result.Valid() && result.Value() == old(value.Value()) / Pow2(shift)
  {
    ValidFacts(value);
    ghost var v, m, c := value.Value(), value.Size(), Pow2(shift);
    FloorOfSigned(m, c);
    var negative := value.negative;
    if value.length == 0 {
      IntegerZero(result);
      return;
    }
    var discarded := ShrMagnitude(result, value, shift);
    if negative && discarded {
      StepFits(m, c, BPow(LIMBS));
      var one := new Limb[1](_ => 1);
      assert one[..1] == [1];
      ValSingle(1);
      var fits, length := Add(result.limbs, result.limbs, result.length, one, 1);
      assert fits;
      result.length := length;
      result.negative := true;
      NonzeroLength(result.limbs[..], length);
    }
  }

  lemma NonzeroLength(s: seq<Limb>, length: nat)
    requires Normal(s, length) && 0 < Val(s[..length])
    ensures 0 < length
  {
  }

  /** The magnitude after the shift, with the sign of the value, and whether bits were lost. */
  method ShrMagnitude(result: Int, value: Int, shift: Limb) returns (discarded: bool)
    requires value.Valid() && value.length != 0 && result.limbs.Length == LIMBS && Apart(result, value)
    modifies result, result.limbs
    ensures result.Valid() && result.Size() == old(value.Size()) / Pow2(shift)
    ensures result.Value() == if old(value.negative) then -result.Size() else result.Size()
    ensures discarded <==> old(value.Size()) % Pow2(shift) != 0
  {
    var negative := value.negative;
    if shift >= LIMBS * 64 {
      BeyondTop(value.limbs[..value.length], shift);
      discarded := true;
      IntegerZero(result);
    } else {
      discarded := Discards(value.limbs, value.length, shift);
      var shifted := ShiftDown(value.limbs, value.length, shift);
      DeliverFull(result, shifted, negative);
    }
  }

  lemma BeyondTop(v: seq<Limb>, shift: nat)
    requires v != [] && v[|v| - 1] != 0 && |v| <= shift / 64
    ensures Val(v) / Pow2(shift) == 0 && Val(v) % Pow2(shift) == Val(v) != 0
  {
    ValTop(v);
    ValBound(v);
    BPowMono(|v|, shift / 64);
    ShiftSplits(shift);
    MulMono(1, Pow2(shift % 64), BPow(shift / 64));
    QuotientUnique(Val(v), Pow2(shift), 0, Val(v));
  }

  lemma DiscardedRemainder(v: seq<Limb>, shift: nat)
    requires shift / 64 < |v|
    ensures Val(v) % Pow2(shift) != 0 <==>
            Val(v[..shift / 64]) != 0 || v[shift / 64] % Pow2(shift % 64) != 0
  {
    var x := v[shift / 64..];
    var y := seq(|x|, k requires 0 <= k < |x| => ShrLimb(x, shift % 64, k));
    ShiftDownValue(v, y, shift);
    QuotientBounds(v[shift / 64], Pow2(shift % 64));
    SumIsZero(Val(v[..shift / 64]), v[shift / 64] % Pow2(shift % 64), BPow(shift / 64));
  }

  lemma SumIsZero(a: int, b: int, p: int)
    requires 0 <= a && 0 <= b && 1 <= p
    ensures a + b * p == 0 <==> a == 0 && b == 0
  {
    if 1 <= b { MulMono(1, b, p); }
  }

  /** Floor division of a signed number from the division of its magnitude. */
  lemma FloorOfSigned(m: int, c: int)
    requires 0 <= m && 1 <= c
    ensures -m / c == (if m % c == 0 then -(m / c) else -(m / c + 1))
  {
    QuotientBounds(m, c);
    if m % c == 0 {
      QuotientUnique(-m, c, -(m / c), 0);
    } else {
      assert -(m / c + 1) * c == -((m / c) * c) - c;
      QuotientUnique(-m, c, -(m / c + 1), c - m % c);
    }
  }
}

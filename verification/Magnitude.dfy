/** The magnitudes of the 768-bit runtime: at most twelve limbs, exact results or a trap. */
module Magnitude {
  import opened Limbs
  import opened Schoolbook
  import opened Shifts
  import opened BitSerial

  /** SAIL_INT_LIMBS: 768 bits are twelve limbs of 64 bits. The condition always holds; it keeps the verifier from
      taking the number for a literal and unfolding every power of it. */
  const LIMBS: nat := if B > 0xFFFF_FFFF then 12 else 24

  /** Which makes 768 bits. */
  lemma MagnitudeBits()
    ensures BPow(LIMBS) == Pow2(768)
  {
    BPowIsPow2(LIMBS);
    assert 64 * LIMBS == 768;
  }

  /** The first `len` limbs hold a magnitude without leading zero limbs. */
  ghost predicate Normal(x: seq<Limb>, len: nat) {
    len <= |x| && len <= LIMBS && (len > 0 ==> x[len - 1] != 0)
  }

  /** `s` followed by zero limbs up to length `n`. */
  ghost function Padded(s: seq<Limb>, n: nat): (t: seq<Limb>)
    requires |s| <= n
    ensures |t| == n && Val(t) == Val(s)
  {
    var t := s + seq(n - |s|, _ => 0);
    ValTrailingZeros(t, |s|);
    assert t[..|s|] == s;
    t
  }

  /** magnitude_compare on normalized operands: the order of the numbers. */
  method Compare(lhs: array<Limb>, lhsLength: nat, rhs: array<Limb>, rhsLength: nat) returns (c: int)
    requires Normal(lhs[..], lhsLength) && Normal(rhs[..], rhsLength)
    ensures c == Sign(Val(lhs[..lhsLength]) - Val(rhs[..rhsLength]))
    ensures c == -1 <==> Val(lhs[..lhsLength]) < Val(rhs[..rhsLength])
    ensures c == 1 <==> Val(lhs[..lhsLength]) > Val(rhs[..rhsLength])
  {
    ghost var s, t := lhs[..lhsLength], rhs[..rhsLength];
    if lhsLength != rhsLength {
      if lhsLength < rhsLength { ShorterIsSmaller(s, t); } else { ShorterIsSmaller(t, s); }
      return if lhsLength < rhsLength then -1 else 1;
    }
    assert s[lhsLength..] == t[lhsLength..];
    for i := lhsLength downto 0
      invariant s[i..] == t[i..]
    {
      if lhs[i] != rhs[i] {
        if lhs[i] < rhs[i] { CompareTop(s, t, i); } else { CompareTop(t, s, i); }
        return if lhs[i] < rhs[i] then -1 else 1;
      }
    }
    assert s == s[0..] == t[0..] == t;
    return 0;
  }

  function Sign(x: int): int {
    if x < 0 then -1 else if x > 0 then 1 else 0
  }

  /** The limb of a shorter operand: zero above its length. */
  function LimbOr0(x: array<Limb>, length: nat, i: nat): Limb
    requires length <= x.Length
    reads x
  {
    if i < length then x[i] else 0
  }

  /** The limbs of `x` from `i` up still are those of `s`. */
  ghost predicate Ahead(x: array<Limb>, length: nat, s: seq<Limb>, i: nat)
    requires length <= x.Length && length <= |s|
    reads x
  {
    forall k :: i <= k < |s| ==> LimbOr0(x, length, k) == s[k]
  }

  /** The loop of magnitude_add. */
  method AddLoop(result: array<Limb>, lhs: array<Limb>, lhsLength: nat, rhs: array<Limb>, rhsLength: nat,
                 length: nat, ghost a: seq<Limb>, ghost b: seq<Limb>) returns (carry: Limb)
    requires lhsLength <= lhs.Length && rhsLength <= rhs.Length && length <= result.Length
    requires lhsLength <= length == |a| && rhsLength <= length == |b|
    requires Ahead(lhs, lhsLength, a, 0) && Ahead(rhs, rhsLength, b, 0)
    modifies result
    ensures carry <= 1 && Val(result[..length]) + carry * BPow(length) == Val(a) + Val(b)
  {
    assert a[..length] == a && b[..length] == b;
    carry := 0;
    for i := 0 to length
      invariant Ahead(lhs, lhsLength, a, i) && Ahead(rhs, rhsLength, b, i)
      invariant SumSoFar(result[..], a, b, i, carry)
    {
      var sum := Wide(LimbOr0(lhs, lhsLength, i) + LimbOr0(rhs, rhsLength, i) + carry);
      SumStep(result[..], a, b, i, carry);
      SetLimbAhead(result, i, Low(sum), lhs, lhsLength, rhs, rhsLength, a, b);
      carry := High(sum);
    }
    assert result[..][..length] == result[..length];
  }

  /** result[i] = x keeps the limbs still to be read, even when `result` is an operand. */
  method SetLimbAhead(result: array<Limb>, i: nat, x: Limb, lhs: array<Limb>, lhsLength: nat,
                      rhs: array<Limb>, rhsLength: nat, ghost a: seq<Limb>, ghost b: seq<Limb>)
    requires i < result.Length && lhsLength <= lhs.Length && rhsLength <= rhs.Length
    requires lhsLength <= |a| && rhsLength <= |b|
    requires Ahead(lhs, lhsLength, a, i) && Ahead(rhs, rhsLength, b, i)
    modifies result
    ensures result[..] == old(result[..])[i := x]
    ensures Ahead(lhs, lhsLength, a, i + 1) && Ahead(rhs, rhsLength, b, i + 1)
  {
    result[i] := x;
  }

  method PushLimb(result: array<Limb>, length: nat, x: Limb)
    requires length < result.Length
    modifies result
    ensures result[..length + 1] == old(result[..length]) + [x]
  {
    result[length] := x;
  }

  /** magnitude_add; `result` may be either operand. Traps exactly when the sum needs a 13th limb. */
  method Add(result: array<Limb>, lhs: array<Limb>, lhsLength: nat, rhs: array<Limb>, rhsLength: nat)
    returns (ok: bool, length: nat)
    requires result.Length == LIMBS && lhsLength <= lhs.Length && rhsLength <= rhs.Length
    requires lhsLength <= LIMBS && rhsLength <= LIMBS
    modifies result
    ensures ok <==> Val(old(lhs[..lhsLength])) + Val(old(rhs[..rhsLength])) < BPow(LIMBS)
    ensures ok ==> Normal(result[..], length)
    ensures ok ==> Val(result[..length]) == Val(old(lhs[..lhsLength])) + Val(old(rhs[..rhsLength]))
  {
    length := if lhsLength > rhsLength then lhsLength else rhsLength;
    ghost var a, b := Padded(lhs[..lhsLength], length), Padded(rhs[..rhsLength], length);
    var carry := AddLoop(result, lhs, lhsLength, rhs, rhsLength, length, a, b);
    CarryFits(result[..length], carry, length, LIMBS);
    CarryValue(result[..length], carry);
    if carry != 0 {
      if length == LIMBS { return false, 0; }
      PushLimb(result, length, carry);
      length := length + 1;
    }
    length := LimbsUsed(result, length);
    ok := true;
  }

  /** A sum stays below B^limit unless its last carry leaves limb limit - 1. */
  lemma CarryFits(s: seq<Limb>, carry: Limb, length: nat, limit: nat)
    requires |s| == length <= limit && carry <= 1
    ensures Val(s) + carry * BPow(length) < BPow(limit) <==> carry == 0 || length < limit
  {
    ValBound(s);
    BPowMono(length, limit);
    if length < limit { BPowMono(length + 1, limit); }
    CarryAlgebra(Val(s), carry, BPow(length), BPow(length + 1), BPow(limit), length == limit);
  }

  lemma CarryValue(s: seq<Limb>, carry: Limb)
    ensures Val(s + [carry]) == Val(s) + carry * BPow(|s|)
  {
    assert (s + [carry])[..|s|] == s;
  }

  lemma CarryAlgebra(v: int, carry: Limb, p: int, p': int, top: int, full: bool)
    requires 0 <= v < p <= top && carry <= 1 && p' == B * p
    requires if full then p == top else p' <= top
    ensures v + carry * p < top <==> carry == 0 || !full
  {
  }

  /** The loop of magnitude_subtract. */
  method SubtractLoop(result: array<Limb>, lhs: array<Limb>, length: nat, rhs: array<Limb>, rhsLength: nat,
                      ghost a: seq<Limb>, ghost b: seq<Limb>) returns (borrow: Limb)
    requires length <= lhs.Length && rhsLength <= rhs.Length && length <= result.Length
    requires length == |a| && rhsLength <= length == |b|
    requires Ahead(lhs, length, a, 0) && Ahead(rhs, rhsLength, b, 0)
    modifies result
    ensures borrow <= 1 && Val(result[..length]) == Val(a) - Val(b) + borrow * BPow(length)
  {
    assert a[..length] == a && b[..length] == b;
    borrow := 0;
    for i := 0 to length
      invariant Ahead(lhs, length, a, i) && Ahead(rhs, rhsLength, b, i)
      invariant DifferenceSoFar(result[..], a, b, i, borrow)
    {
      var difference := Wide(LimbOr0(lhs, length, i) - LimbOr0(rhs, rhsLength, i) - borrow);
      DifferenceStep(result[..], a, b, i, borrow);
      SetLimbAhead(result, i, Low(difference), lhs, length, rhs, rhsLength, a, b);
      borrow := High(difference) % 2;
    }
    assert result[..][..length] == result[..length];
  }

  /** magnitude_subtract for lhs >= rhs; `result` may be either operand. The trap on a last borrow never
      fires. */
  method Subtract(result: array<Limb>, lhs: array<Limb>, lhsLength: nat, rhs: array<Limb>, rhsLength: nat)
    returns (length: nat)
    requires result.Length == LIMBS && Normal(lhs[..], lhsLength) && Normal(rhs[..], rhsLength)
    requires Val(rhs[..rhsLength]) <= Val(lhs[..lhsLength])
    modifies result
    ensures Normal(result[..], length)
    ensures Val(result[..length]) == Val(old(lhs[..lhsLength])) - Val(old(rhs[..rhsLength]))
  {
    if lhsLength < rhsLength { ShorterIsSmaller(lhs[..lhsLength], rhs[..rhsLength]); }
    ghost var a, b := lhs[..lhsLength], Padded(rhs[..rhsLength], lhsLength);
    var borrow := SubtractLoop(result, lhs, lhsLength, rhs, rhsLength, a, b);
    NoBorrow(result[..lhsLength], borrow, Val(a) - Val(b));
    length := LimbsUsed(result, lhsLength);
  }

  /** The carry loop after a row of magnitude_multiply. The limb above the row is still empty, so the
      loop runs at most once and its own trap never fires. */
  method StoreCarry(product: array<Limb>, start: nat, rowCarry: Limb)
    requires start < product.Length == 2 * LIMBS && product[start] == 0
    modifies product
    ensures product[..] == old(product[..])[start := rowCarry]
  {
    var carry := rowCarry;
    var index := start;
    while carry != 0
      invariant if index == start then carry == rowCarry && product[..] == old(product[..])
                else carry == 0 && product[..] == old(product[..])[start := rowCarry]
      decreases carry
    {
      var value := product[index] + carry;
      SetLimb(product, index, Low(value));
      index := index + 1;
      carry := value / B;
    }
  }

  /** One row of magnitude_multiply: adds x * rhs into the product at limb `i`. */
  method AddRow(product: array<Limb>, i: nat, x: Limb, rhs: array<Limb>, rhsLength: nat)
    returns (ghost before: seq<Limb>, carry: Limb)
    requires rhsLength <= rhs.Length && i + rhsLength < product.Length == 2 * LIMBS
    requires product != rhs && product[i + rhsLength] == 0
    modifies product
    ensures RowAdded(old(product[..]), before, rhs[..], x, i, rhsLength, carry)
    ensures product[..] == before[i + rhsLength := carry]
  {
    ghost var was := product[..];
    carry := AddRowLoop(product, i, x, rhs, rhsLength);
    before := product[..];
    AboveUnchanged(was, before, i, i + rhsLength);
    StoreCarry(product, i + rhsLength, carry);
  }

  method AddRowLoop(product: array<Limb>, i: nat, x: Limb, rhs: array<Limb>, rhsLength: nat) returns (carry: Limb)
    requires rhsLength <= rhs.Length && i + rhsLength < product.Length && product != rhs
    modifies product
    ensures RowAdded(old(product[..]), product[..], rhs[..], x, i, rhsLength, carry)
  {
    ghost var was := product[..];
    carry := 0;
    for j := 0 to rhsLength
      invariant RowAdded(was, product[..], rhs[..], x, i, j, carry)
    {
      var value := MulAdd(x, rhs[j], product[i + j], carry);
      RowStep(was, product[..], rhs[..], x, i, j, carry);
      SetLimb(product, i + j, Low(value));
      carry := High(value);
    }
  }

  lemma AboveUnchanged(was: seq<Limb>, now: seq<Limb>, lo: nat, hi: nat)
    requires lo <= hi < |was| && SameOutside(was, now, lo, hi)
    ensures now[hi] == was[hi]
  {
    assert now[hi] == now[hi..][0];
  }

  /** The schoolbook product of magnitude_multiply, in twice the limbs. */
  method FullProduct(lhs: array<Limb>, lhsLength: nat, rhs: array<Limb>, rhsLength: nat) returns (product: array<Limb>)
    requires lhsLength <= lhs.Length && rhsLength <= rhs.Length && lhsLength <= LIMBS && rhsLength <= LIMBS
    ensures fresh(product) && product.Length == 2 * LIMBS
    ensures Val(product[..]) == Val(lhs[..lhsLength]) * Val(rhs[..rhsLength])
  {
    product := new Limb[2 * LIMBS](_ => 0);
    ghost var a, b := lhs[..], rhs[..];
    assert a[..lhsLength] == lhs[..lhsLength] && b[..rhsLength] == rhs[..rhsLength];
    ValZeros(product[..][..rhsLength]);
    for i := 0 to lhsLength
      modifies product
      invariant RowsAdded(product[..], a, b, rhsLength, i)
    {
      ghost var was := product[..];
      ghost var before;
      var carry;
      before, carry := AddRow(product, i, lhs[i], rhs, rhsLength);
      RowDone(was, before, carry, a, b, rhsLength, i);
    }
    ValTrailingZeros(product[..], lhsLength + rhsLength);
  }

  /** The product after `i` rows, with nothing above them yet. */
  ghost predicate RowsAdded(s: seq<Limb>, a: seq<Limb>, b: seq<Limb>, n: nat, i: nat)
    requires i <= |a| && n <= |b| && i + n <= |s|
  {
    Val(s[..i + n]) == Val(a[..i]) * Val(b[..n]) && forall k :: i + n <= k < |s| ==> s[k] == 0
  }

  lemma RowDone(was: seq<Limb>, before: seq<Limb>, carry: Limb, a: seq<Limb>, b: seq<Limb>, n: nat, i: nat)
    requires i < |a| && n <= |b| && i + n < |was| && RowsAdded(was, a, b, n, i)
    requires RowAdded(was, before, b, a[i], i, n, carry)
    ensures RowsAdded(before[i + n := carry], a, b, n, i + 1)
  {
    RowEnd(was, before, a, b, n, i, carry);
    UpperZeros(was, before[i + n := carry], i + n);
  }

  lemma UpperZeros(was: seq<Limb>, now: seq<Limb>, k: nat)
    requires |was| == |now| && k < |was| && now[k + 1..] == was[k + 1..]
    requires forall x :: k <= x < |was| ==> was[x] == 0
    ensures forall x :: k + 1 <= x < |now| ==> now[x] == 0
  {
    forall x | k + 1 <= x < |now|
      ensures now[x] == 0
    {
      assert now[x] == now[k + 1..][x - (k + 1)] == was[k + 1..][x - (k + 1)] == was[x];
    }
  }

  /** magnitude_multiply: traps exactly when the full product does not fit twelve limbs. */
  method Multiply(result: array<Limb>, lhs: array<Limb>, lhsLength: nat, rhs: array<Limb>, rhsLength: nat)
    returns (ok: bool, length: nat)
    requires result.Length == LIMBS && lhsLength <= lhs.Length && rhsLength <= rhs.Length
    requires lhsLength <= LIMBS && rhsLength <= LIMBS
    modifies result
    ensures ok <==> Val(old(lhs[..lhsLength])) * Val(old(rhs[..rhsLength])) < BPow(LIMBS)
    ensures ok ==> Normal(result[..], length)
    ensures ok ==> Val(result[..length]) == Val(old(lhs[..lhsLength])) * Val(old(rhs[..rhsLength]))
  {
    var product := FullProduct(lhs, lhsLength, rhs, rhsLength);
    ghost var full := Val(product[..]);
    for i := LIMBS to 2 * LIMBS
      invariant forall k :: LIMBS <= k < i ==> product[k] == 0
    {
      if product[i] != 0 {
        TooLarge(product[..], LIMBS, i);
        return false, 0;
      }
    }
    ValTrailingZeros(product[..], LIMBS);
    ValBound(product[..LIMBS]);
    CopyPrefix(product, LIMBS, result);
    length := LimbsUsed(result, LIMBS);
    ok := true;
  }

  lemma TooLarge(s: seq<Limb>, limit: nat, i: nat)
    requires limit <= i < |s| && s[i] != 0
    ensures BPow(limit) <= Val(s)
  {
    ValSplit(s, i + 1);
    ValSnoc(s, i);
    BPowMono(limit, i);
    AtLeast(Val(s[..i]), s[i], BPow(i), BPow(i + 1), Val(s[i + 1..]));
  }

  lemma AtLeast(low: int, x: Limb, p: int, p': int, high: int)
    requires 0 <= low && x != 0 && 0 < p && 0 < p' && 0 <= high
    ensures p <= low + x * p + p' * high
  {
    MulMono(1, x, p);
    MulMono(0, high, p');
  }
}

/** The hosted provider of the 256-bit arithmetic contract: bit-serial restoring division. */
module RustU256 {
  import opened Limbs
  import opened Shifts
  import opened Schoolbook
  import opened BitSerial
  import Knuth

  /** x >= y over equally long limb slices. */
  method Ge(x: array<Limb>, y: array<Limb>) returns (ge: bool)
    requires x.Length == y.Length
    ensures ge <==> Val(x[..]) >= Val(y[..])
  {
    assert x[x.Length..] == y[y.Length..];
    for i := x.Length downto 0
      invariant x[i..] == y[i..]
    {
      if x[i] != y[i] {
        ghost var s, t := x[..], y[..];
        assert s[i + 1..] == x[i + 1..] && t[i + 1..] == y[i + 1..];
        if x[i] < y[i] { CompareTop(s, t, i); } else { CompareTop(t, s, i); }
        return x[i] > y[i];
      }
    }
    assert x[..] == x[0..] == y[0..] == y[..];
    return true;
  }

  /** overflowing_sub: the wrapped difference and whether it wrapped. */
  function OverflowingSub(x: Limb, y: Limb): (Limb, bool) {
    (Low(x - y), x < y)
  }

  lemma OverflowingSubPair(x: Limb, y: Limb, borrow: Limb)
    requires borrow <= 1
    ensures var (d, b1) := OverflowingSub(x, y);
            var (d', b2) := OverflowingSub(d, borrow);
            d' == Low(Wide(x - y - borrow)) && (if b1 || b2 then 1 else 0) == High(Wide(x - y - borrow)) % 2
  {
    SubtractLimb(x, y, borrow);
  }

  /** One round of the subtraction: two overflowing subtractions and the borrow they leave. */
  method SubDigit(x: array<Limb>, y: Limb, borrow: Limb, i: nat, ghost was: seq<Limb>, ghost b: seq<Limb>)
      returns (next: Limb)
    requires i < x.Length && i < |was| && i < |b| && x[i] == was[i] && b[i] == y
    requires DifferenceSoFar(x[..], was, b, i, borrow)
    modifies x
    ensures DifferenceSoFar(x[..], was, b, i + 1, next)
    ensures x[i + 1..] == old(x[i + 1..])
  {
    var (d, b1) := OverflowingSub(x[i], y);
    var (d', b2) := OverflowingSub(d, borrow);
    OverflowingSubPair(x[i], y, borrow);
    DifferenceStep(x[..], was, b, i, borrow);
    SetLimb(x, i, d');
    next := if b1 || b2 then 1 else 0;
  }

  /** x -= y over equally long limb slices, for x >= y: the last borrow is zero. */
  method SubAssign(x: array<Limb>, y: array<Limb>)
    requires x != y && x.Length == y.Length && Val(y[..]) <= Val(x[..])
    modifies x
    ensures Val(x[..]) == Val(old(x[..])) - Val(y[..])
  {
    ghost var was, b := x[..], y[..];
    assert was[..x.Length] == was && b[..x.Length] == b;
    ghost var now := was;
    var borrow: Limb := 0;
    for i := 0 to x.Length
      invariant x[..] == now && now[i..] == was[i..] && DifferenceSoFar(now, was, b, i, borrow)
    {
      assert x[i] == now[i..][0] == was[i];
      assert now[i + 1..] == now[i..][1..] == was[i + 1..];
      borrow := SubDigit(x, y[i], borrow, i, was, b);
      now := x[..];
    }
    assert x[..][..x.Length] == x[..];
    NoBorrow(x[..], borrow, Val(was) - Val(b));
    assert borrow == 0;
  }

  /** How many low bits hold the value: the position after the highest set bit. */
  method SignificantBits(u: array<Limb>) returns (bits: nat)
    ensures bits <= 64 * u.Length && Val(u[..]) < Pow2(bits)
  {
    var top := u.Length;
    assert u[..top] == u[..];
    while top > 0 && u[top - 1] == 0
      invariant top <= u.Length && Val(u[..top]) == Val(u[..])
    {
      ValSnoc(u[..], top - 1);
      assert u[..][..top] == u[..top] && u[..][..top - 1] == u[..top - 1];
      top := top - 1;
    }
    if top == 0 { return 0; }
    var zeros := Knuth.CountLeadingZeros(u[top - 1]);
    bits := (top - 1) * 64 + 64 - zeros;
    assert u[..top - 1] == u[..top][..top - 1];
    WidthOfTop(u[..top], 64 - zeros, bits);
  }

  /** The width of a number is that of its top limb behind the full lower limbs. */
  lemma WidthOfTop(s: seq<Limb>, width: nat, bits: nat)
    requires s != [] && s[|s| - 1] < Pow2(width) && bits == 64 * (|s| - 1) + width
    ensures Val(s) < Pow2(bits)
  {
    var n := |s| - 1;
    assert s[..n + 1] == s;
    ValSnoc(s, n);
    ValBound(s[..n]);
    BPowIsPow2(n);
    Pow2Add(64 * n, width);
    BelowTop(Val(s[..n]), s[n], BPow(n), Pow2(width));
  }

  lemma BelowTop(low: int, x: int, p: int, c: int)
    requires 0 <= low < p && x < c
    ensures low + x * p < p * c
  {
    MulMono(x + 1, c, p);
  }

  /** One dividend bit: shift it into the remainder and subtract the divisor when it fits. */
  method DivideBit(u: array<Limb>, i: nat, vx: array<Limb>, q: array<Limb>, r: array<Limb>)
    requires u.Length <= q.Length == 8 && vx.Length == r.Length == 5 && i < 64 * u.Length
    requires q != u && r != u && q != r && q != vx && r != vx && 0 < Val(vx[..]) < BPow(4)
    requires DivisionSoFar(Val(u[..]), Val(vx[..]), q[..], Val(r[..]), i + 1)
    modifies q, r
    ensures DivisionSoFar(Val(u[..]), Val(vx[..]), q[..], Val(r[..]), i)
  {
    ghost var us, d, was, before := u[..], Val(vx[..]), q[..], Val(r[..]);
    DivisionBit(us, d, was, before, i);
    var bit := u[i / 64] / Pow2(i % 64) % 2;
    ShiftInBit(r, bit, 2 * d);
    var ge := Ge(r, vx);
    if ge {
      SubAssign(r, vx);
      q[i / 64] := OrBit(q[i / 64], i % 64);
      assert q[..] == was[i / 64 := OrBit(was[i / 64], i % 64)];
    }
  }

  /** r = r << 1 | bit over 5 limbs, which never truncates. */
  method ShiftInBit(r: array<Limb>, bit: Limb, ghost bound: int)
    requires r.Length == 5 && bit <= 1 && 2 * Val(r[..]) + bit < bound <= 2 * BPow(4)
    modifies r
    ensures Val(r[..]) == 2 * Val(old(r[..])) + bit
  {
    var carry := ShiftLeftOne(r, bit);
    NoCarryOut(Val(r[..]), carry, BPow(4), bound);
  }

  lemma NoCarryOut(v: int, carry: Limb, p: int, bound: int)
    requires 0 <= v && 0 < p && carry <= 1 && v + carry * (B * p) < bound <= 2 * p
    ensures carry == 0
  {
  }

  method DivideBits(u: array<Limb>, bits: nat, vx: array<Limb>, q: array<Limb>, r: array<Limb>)
    requires u.Length <= q.Length == 8 && vx.Length == r.Length == 5 && bits <= 64 * u.Length
    requires q != u && r != u && q != r && q != vx && r != vx && 0 < Val(vx[..]) < BPow(4)
    requires DivisionSoFar(Val(u[..]), Val(vx[..]), q[..], Val(r[..]), bits)
    modifies q, r
    ensures DivisionSoFar(Val(u[..]), Val(vx[..]), q[..], Val(r[..]), 0)
  {
    for i := bits downto 0
      invariant DivisionSoFar(Val(u[..]), Val(vx[..]), q[..], Val(r[..]), i)
    {
      DivideBit(u, i, vx, q, r);
    }
  }

  /** Restoring division of a dividend of up to 8 limbs by a nonzero 4-limb divisor. */
  method DivRemWide(u: array<Limb>, v: array<Limb>) returns (q: array<Limb>, r4: array<Limb>)
    requires u.Length <= 8 && v.Length == 4 && Val(v[..]) != 0
    ensures fresh(q) && fresh(r4) && q.Length == 8 && r4.Length == 4
    ensures Val(q[..]) == Val(u[..]) / Val(v[..]) && Val(r4[..]) == Val(u[..]) % Val(v[..])
  {
    ghost var n, d := Val(u[..]), Val(v[..]);
    assert v[..4] == v[..];
    ValBound(v[..]);
    assert 0 < d < BPow(4);
    var vx := CopyOfFour(v, 5);
    q := new Limb[8](_ => 0);
    var r := new Limb[5](_ => 0);
    var bits := SignificantBits(u);
    ValZeros(r[..]);
    DivisionStart(n, d, q[..], bits);
    DivideBits(u, bits, vx, q, r);
    DivisionEnd(q[..], r[..], n, d, r[..4]);
    r4 := CopyOfFour(r, 4);
    assert r4[..4] == r4[..];
  }

  /** A new array of `len` limbs that starts with the first four of `x`. */
  method CopyOfFour(x: array<Limb>, len: nat) returns (y: array<Limb>)
    requires 4 <= x.Length && 4 <= len
    ensures fresh(y) && y.Length == len && y[..4] == x[..4] && Val(y[..]) == Val(x[..4])
  {
    y := new Limb[len](_ => 0);
    for i := 0 to 4
      invariant y[..i] == x[..i]
      invariant forall k :: 4 <= k < len ==> y[k] == 0
    {
      y[i] := x[i];
    }
    ValSplit(y[..], 4);
    ValZeros(y[4..]);
    assert y[..][..4] == y[..4] && y[..][4..] == y[4..];
  }

  lemma DivisionEnd(q: seq<Limb>, r: seq<Limb>, u: int, d: int, low: seq<Limb>)
    requires |r| == 5 && 0 <= u && 0 < d < BPow(4) && low == r[..4]
    requires DivisionSoFar(u, d, q, Val(r), 0)
    ensures Val(q) == u / d && Val(low) == u % d
  {
    DivisionDone(u, d, q, Val(r));
    QuotientBounds(u, d);
    assert r[..5] == r;
    ValSnoc(r, 4);
    ZeroTop(Val(low), r[4], BPow(4));
  }

  /** The full 512-bit product of two 4-limb values. */
  method MulWide(a: array<Limb>, b: array<Limb>) returns (out: array<Limb>)
    requires a.Length == 4 && b.Length == 4
    ensures fresh(out) && out.Length == 8 && Val(out[..]) == Val(a[..]) * Val(b[..])
  {
    out := new Limb[8](_ => 0);
    ghost var x, y := a[..], b[..];
    assert x[..4] == x && y[..4] == y;
    ValZeros(out[..][..4]);
    for i := 0 to 4
      modifies out
      invariant Val(out[..][..i + 4]) == Val(x[..i]) * Val(y[..4])
      invariant forall k :: i + 4 <= k < 8 ==> out[k] == 0
    {
      ghost var was := out[..];
      var carry: Limb := 0;
      for j := 0 to 4
        modifies out
        invariant RowAdded(was, out[..], y, x[i], i, j, carry)
      {
        var sum := MulAdd(a[i], b[j], out[i + j], carry);
        RowStep(was, out[..], y, x[i], i, j, carry);
        SetLimb(out, i + j, Low(sum));
        carry := High(sum);
      }
      RowEnd(was, out[..], x, y, 4, i, carry);
      SetLimb(out, i + 4, carry);
    }
    assert out[..][..8] == out[..];
  }

  /** overflowing_add: the wrapped sum and whether it wrapped. */
  function OverflowingAdd(x: Limb, y: Limb): (Limb, bool) {
    (Low(x + y), x + y >= B)
  }

  lemma OverflowingAddPair(x: Limb, y: Limb, carry: Limb)
    requires carry <= 1
    ensures var (s, c1) := OverflowingAdd(x, y);
            var (s', c2) := OverflowingAdd(s, carry);
            s' == Low(Wide(x + y + carry)) && (if c1 || c2 then 1 else 0) == High(Wide(x + y + carry))
  {
    AddLimb(x, y, carry);
  }

  /** One round of the addition: two overflowing additions and the carry they leave. */
  method AddDigit(out: array<Limb>, a: Limb, b: Limb, carry: Limb, i: nat, ghost x: seq<Limb>, ghost y: seq<Limb>)
      returns (next: Limb)
    requires i < out.Length && i < |x| && i < |y| && x[i] == a && y[i] == b
    requires SumSoFar(out[..], x, y, i, carry)
    modifies out
    ensures SumSoFar(out[..], x, y, i + 1, next)
    ensures out[i + 1..] == old(out[i + 1..])
  {
    var (s, c1) := OverflowingAdd(a, b);
    var (s', c2) := OverflowingAdd(s, carry);
    OverflowingAddPair(a, b, carry);
    SumStep(out[..], x, y, i, carry);
    SetLimb(out, i, s');
    next := if c1 || c2 then 1 else 0;
  }

  /** The full 257-bit sum of two 4-limb values. */
  method AddWide(a: array<Limb>, b: array<Limb>) returns (out: array<Limb>)
    requires a.Length == 4 && b.Length == 4
    ensures fresh(out) && out.Length == 5 && Val(out[..]) == Val(a[..]) + Val(b[..])
  {
    out := new Limb[5](_ => 0);
    ghost var x, y := a[..], b[..];
    assert x[..4] == x && y[..4] == y;
    var carry: Limb := 0;
    for i := 0 to 4
      modifies out
      invariant SumSoFar(out[..], x, y, i, carry)
    {
      carry := AddDigit(out, a[i], b[i], carry, i, x, y);
    }
    StoreTopCarry(out, carry);
  }

  method StoreTopCarry(out: array<Limb>, carry: Limb)
    requires out.Length == 5
    modifies out
    ensures Val(out[..]) == Val(old(out[..])[..4]) + carry * BPow(4)
  {
    ghost var was := out[..];
    SetLimb(out, 4, carry);
    assert out[..][..5] == out[..];
    ValPut(was, 4, carry);
  }

  method MulMod(a: array<Limb>, b: array<Limb>, n: array<Limb>) returns (out: array<Limb>)
    requires a.Length == 4 && b.Length == 4 && n.Length == 4 && Val(n[..]) != 0
    ensures out.Length == 4 && Val(out[..]) == Val(a[..]) * Val(b[..]) % Val(n[..])
  {
    var product := MulWide(a, b);
    var q;
    q, out := DivRemWide(product, n);
  }

  method AddMod(a: array<Limb>, b: array<Limb>, n: array<Limb>) returns (out: array<Limb>)
    requires a.Length == 4 && b.Length == 4 && n.Length == 4 && Val(n[..]) != 0
    ensures out.Length == 4 && Val(out[..]) == (Val(a[..]) + Val(b[..])) % Val(n[..])
  {
    var sum := AddWide(a, b);
    var q;
    q, out := DivRemWide(sum, n);
  }

  /** zkvm_u256_divrem: the low four limbs of the quotient, and the remainder. */
  method DivRem(a: array<Limb>, b: array<Limb>) returns (quotient: array<Limb>, remainder: array<Limb>)
    requires a.Length == 4 && b.Length == 4 && Val(b[..]) != 0
    ensures quotient.Length == 4 && remainder.Length == 4
    ensures Val(quotient[..]) == Val(a[..]) / Val(b[..]) && Val(remainder[..]) == Val(a[..]) % Val(b[..])
  {
    var q;
    q, remainder := DivRemWide(a, b);
    QuotientFits(q[..], Val(b[..]), a[..]);
    quotient := new Limb[4];
    CopyPrefix(q, 4, quotient);
    assert quotient[..4] == quotient[..] && q[..][..4] == q[..4];
  }
}

/** Carry and borrow chains, comparison and bit-serial division: the loop steps that the Rust provider
    and the 768-bit runtime have in common. */
module BitSerial {
  import opened Limbs
  import opened Shifts

  //////////////////////////////////////////////////////////////////////////////
  // Sums, differences, comparison
  //////////////////////////////////////////////////////////////////////////////

  /** The low `i` limbs of a sum are in `s`, with `carry` still to be added above. */
  ghost predicate SumSoFar(s: seq<Limb>, a: seq<Limb>, b: seq<Limb>, i: nat, carry: Limb)
    requires i <= |s| && i <= |a| && i <= |b|
  {
    carry <= 1 && Val(s[..i]) + carry * BPow(i) == Val(a[..i]) + Val(b[..i])
  }

  /** One limb of a carry-propagating sum. */
  lemma SumStep(s: seq<Limb>, a: seq<Limb>, b: seq<Limb>, i: nat, carry: Limb)
    requires i < |s| && i < |a| && i < |b| && SumSoFar(s, a, b, i, carry)
    ensures var t := Wide(a[i] + b[i] + carry);
            SumSoFar(s[i := Low(t)], a, b, i + 1, High(t))
  {
    var t := Wide(a[i] + b[i] + carry);
    AddLimb(a[i], b[i], carry);
    ValPut(s, i, Low(t));
    ValSnoc(a, i);
    ValSnoc(b, i);
    AddAlgebra(Val(s[..i]), Val(a[..i]), Val(b[..i]), Val(s[i := Low(t)][..i + 1]), Val(a[..i + 1]), Val(b[..i + 1]),
               BPow(i), BPow(i + 1), a[i], b[i], carry, Low(t), High(t));
  }

  /** The low `i` limbs of a difference are in `s`, with `borrow` still to be taken from above. */
  ghost predicate DifferenceSoFar(s: seq<Limb>, a: seq<Limb>, b: seq<Limb>, i: nat, borrow: Limb)
    requires i <= |s| && i <= |a| && i <= |b|
  {
    borrow <= 1 && Val(s[..i]) == Val(a[..i]) - Val(b[..i]) + borrow * BPow(i)
  }

  /** One limb of a borrow-propagating difference. */
  lemma DifferenceStep(s: seq<Limb>, a: seq<Limb>, b: seq<Limb>, i: nat, borrow: Limb)
    requires i < |s| && i < |a| && i < |b| && DifferenceSoFar(s, a, b, i, borrow)
    ensures var d := Wide(a[i] - b[i] - borrow);
            DifferenceSoFar(s[i := Low(d)], a, b, i + 1, High(d) % 2)
  {
    var d := Wide(a[i] - b[i] - borrow);
    SubtractLimb(a[i], b[i], borrow);
    ValPut(s, i, Low(d));
    ValSnoc(a, i);
    ValSnoc(b, i);
    DifferenceAlgebra(Val(s[..i]), Val(a[..i]), Val(b[..i]), Val(s[i := Low(d)][..i + 1]), Val(a[..i + 1]),
                      Val(b[..i + 1]), BPow(i), BPow(i + 1), a[i], b[i], borrow, Low(d), High(d) % 2);
  }

  lemma DifferenceAlgebra(s: int, a: int, b: int, s': int, a': int, b': int, w: int, w': int,
                          x: int, y: int, bw: int, d: int, bw': int)
    requires s == a - b + bw * w && d == x - y - bw + B * bw'
    requires s' == s + d * w && a' == a + x * w && b' == b + y * w && w' == B * w
    ensures s' == a' - b' + bw' * w'
  {
    MulEq(d + y + bw, x + B * bw', w);
  }

  lemma NoBorrow(s: seq<Limb>, borrow: Limb, difference: int)
    requires 0 <= difference && Val(s) == difference + borrow * BPow(|s|)
    ensures borrow == 0 && Val(s) == difference
  {
    ValBound(s);
    if 1 <= borrow { MulMono(1, borrow, BPow(|s|)); }
  }

  /** The highest limb on which two numbers differ decides which is smaller. */
  lemma CompareTop(s: seq<Limb>, t: seq<Limb>, i: nat)
    requires |s| == |t| && i < |s| && s[i + 1..] == t[i + 1..] && s[i] < t[i]
    ensures Val(s) < Val(t)
  {
    ValSplit(s, i + 1);
    ValSplit(t, i + 1);
    ValSnoc(s, i);
    ValSnoc(t, i);
    ValBound(s[..i]);
    SmallerTop(Val(s[..i]), Val(t[..i]), s[i], t[i], BPow(i));
  }

  //////////////////////////////////////////////////////////////////////////////
  // Significant limbs, division by one limb
  //////////////////////////////////////////////////////////////////////////////

  /** Number of significant limbs. */
  method LimbsUsed(x: array<Limb>, n: nat) returns (k: nat)
    requires n <= x.Length
    ensures k <= n && Val(x[..k]) == Val(x[..n])
    ensures k != 0 ==> x[k - 1] != 0
  {
    k := n;
    while k > 0 && x[k - 1] == 0
      invariant k <= n && Val(x[..k]) == Val(x[..n])
    {
      ValSnoc(x[..], k - 1);
      assert x[..][..k] == x[..k] && x[..][..k - 1] == x[..k - 1];
      k := k - 1;
    }
  }

  /** Limbs above `k` that are zero do not count. */
  lemma ValTrailingZeros(s: seq<Limb>, k: nat)
    requires k <= |s| && forall i :: k <= i < |s| ==> s[i] == 0
    ensures Val(s) == Val(s[..k])
  {
    ValSplit(s, k);
    ValZeros(s[k..]);
  }

  method ClearLimbs(x: array<Limb>)
    modifies x
    ensures forall k :: 0 <= k < x.Length ==> x[k] == 0
  {
    for i := 0 to x.Length
      invariant forall k :: 0 <= k < i ==> x[k] == 0
    {
      x[i] := 0;
    }
  }

  /** The quotient of a 4-limb dividend has only 4 significant limbs. */
  lemma QuotientFits(q: seq<Limb>, v: int, u: seq<Limb>)
    requires |u| == 4 && |q| == 8 && 0 < v && Val(q) == Val(u) / v
    ensures Val(q) == Val(q[..4])
  {
    ValBound(u);
    ValBound(q[..4]);
    ValSplit(q, 4);
    QuotientFitsAlgebra(Val(u), v, Val(q), Val(q[..4]), Val(q[4..]), BPow(4));
  }

  lemma QuotientFitsAlgebra(u: int, v: int, q: int, low: int, high: int, p: int)
    requires 0 <= u < p && 0 < v && q == u / v && q == low + high * p && 0 <= low && 0 <= high
    ensures q == low
  {
    QuotientBounds(u, v);
    MulMono(1, v, q);
    if 1 <= high { MulMono(1, high, p); }
  }

  method CopyPrefix(x: array<Limb>, n: nat, out: array<Limb>)
    requires n <= x.Length && n <= out.Length
    modifies out
    ensures out[..n] == old(x[..n]) && out[n..] == old(out[n..])
  {
    for i := 0 to n
      invariant out[..i] == old(x[..i]) && out[n..] == old(out[n..])
      invariant forall k :: i <= k < n ==> x[k] == old(x[k])
    {
      out[i] := x[i];
    }
  }

  /** A nonzero top limb makes the number at least its weight. */
  lemma ValTop(t: seq<Limb>)
    requires t != [] && t[|t| - 1] != 0
    ensures BPow(|t| - 1) <= Val(t)
  {
    MulMono(1, t[|t| - 1], BPow(|t| - 1));
  }

  /** Fewer significant limbs mean a smaller number. */
  lemma ShorterIsSmaller(s: seq<Limb>, t: seq<Limb>)
    requires |s| < |t| && t[|t| - 1] != 0
    ensures Val(s) < Val(t)
  {
    ValBound(s);
    BPowMono(|s|, |t| - 1);
    ValTop(t);
  }

  lemma {:induction false} BPowMono(i: nat, k: nat)
    requires i <= k
    ensures BPow(i) <= BPow(k)
  {
    if i < k { BPowMono(i, k - 1); }
  }

  /** The caller keeps high < d, so the quotient is a limb. */
  lemma LimbQuotient(high: Limb, low: Limb, d: Limb)
    requires high < d
    ensures var cur := high * B + low;
            && 0 <= cur / d < B && 0 <= cur % d < d && cur == (cur / d) * d + cur % d
  {
    var cur := high * B + low;
    QuotientBounds(cur, d);
    if B <= cur / d { MulMono(B, cur / d, d); }
  }

  lemma LimbAlgebra(before: int, u: int, d: int, digit: int, rem: int, q: int, us: int, q': int)
    requires us == q * d + before && before * B + u == digit * d + rem && q' == digit + B * q
    ensures u + B * us == q' * d + rem
  {
    assert q' * d == digit * d + B * (q * d);
  }

  //////////////////////////////////////////////////////////////////////////////
  // Bits
  //////////////////////////////////////////////////////////////////////////////

  /** (s[i / 64] >> (i % 64)) & 1. */
  function Bit(s: seq<Limb>, i: nat): (b: int)
    requires i < 64 * |s|
    ensures 0 <= b <= 1
  {
    s[i / 64] / Pow2(i % 64) % 2
  }

  lemma {:induction false} BPowIsPow2(k: nat)
    ensures BPow(k) == Pow2(64 * k)
  {
    if k > 0 {
      BPowIsPow2(k - 1);
      Pow2Add(64, 64 * (k - 1));
      LimbBase();
    }
  }

  /** Dropping the low i + 1 bits and putting bit i back drops the low i bits. */
  lemma BitOfVal(s: seq<Limb>, i: nat)
    requires i < 64 * |s|
    ensures Val(s) / Pow2(i) == 2 * (Val(s) / Pow2(i + 1)) + Bit(s, i)
  {
    var k, o := i / 64, i % 64;
    assert s[k..][1..] == s[k + 1..];
    ValSplit(s, k);
    ValBound(s[..k]);
    ValCons(s[k..]);
    BPowIsPow2(k);
    Pow2Add(64 * k, o);
    Pow2Add(64 * k, o + 1);
    LimbWidth(o + 1);
    BitAlgebra(Val(s), Val(s[..k]), s[k], Val(s[k + 1..]), Pow2(64 * k), Pow2(o), Pow2(64 - (o + 1)), Pow2(i), Pow2(i + 1));
  }

  /** n = low + p * (x + B * high) with low < p: shifting n by p * c and by p * 2c, where c * 2d = B. */
  lemma BitAlgebra(n: int, low: int, x: Limb, high: int, p: int, c: int, d: int, pi: int, pi': int)
    requires n == low + p * (x + B * high) && 0 <= low < p && 0 <= high
    requires 1 <= c && pi == p * c && pi' == p * (2 * c) && (2 * c) * d == B
    ensures 0 < pi && 0 < pi' && n / pi == 2 * (n / pi') + x / c % 2
  {
    var m := x + B * high;
    NestedQuotient(n, low, p, m, c);
    NestedQuotient(n, low, p, m, 2 * c);
    HalveQuotient(m, c);
    LowBit(x, high, c, d);
    MulMono(1, c, p);
  }

  lemma NestedQuotient(n: int, low: int, p: int, m: int, c: int)
    requires n == low + p * m && 0 <= low < p && 0 <= m && 1 <= c
    ensures 0 < p * c && n / (p * c) == m / c
  {
    QuotientBounds(m, c);
    var q, r := m / c, m % c;
    assert p * m == q * (p * c) + p * r by { assert p * (q * c + r) == q * (p * c) + p * r; }
    MulMono(r + 1, c, p);
    MulMono(0, r, p);
    QuotientUnique(n, p * c, q, low + p * r);
  }

  lemma HalveQuotient(m: int, c: int)
    requires 0 <= m && 1 <= c
    ensures m / c == 2 * (m / (2 * c)) + m / c % 2
  {
    QuotientBounds(m, 2 * c);
    var q, r := m / (2 * c), m % (2 * c);
    if r < c {
      QuotientUnique(m, c, 2 * q, r);
    } else {
      QuotientUnique(m, c, 2 * q + 1, r - c);
    }
  }

  lemma LowBit(x: Limb, high: int, c: int, d: int)
    requires 1 <= c && 0 <= high && (2 * c) * d == B
    ensures (x + B * high) / c % 2 == x / c % 2
  {
    var e := d * high;
    QuotientBounds(x, c);
    LowBitAlgebra(high, c, d, e);
    QuotientUnique(x + B * high, c, x / c + 2 * e, x % c);
  }

  lemma LowBitAlgebra(high: int, c: int, d: int, e: int)
    requires (2 * c) * d == B && e == d * high
    ensures B * high == (2 * e) * c
  {
    MulEq((2 * c) * d, B, high);
    assert ((2 * c) * d) * high == (2 * c) * e;
  }

  //////////////////////////////////////////////////////////////////////////////
  // Restoring division, one bit at a time
  //////////////////////////////////////////////////////////////////////////////

  /** x | 1 << k. */
  function OrBit(x: Limb, k: nat): (y: Limb)
    requires k < 64
  {
    if x / Pow2(k) % 2 == 1 then x else OrBitFits(x, k); x + Pow2(k)
  }

  lemma OrBitFits(x: Limb, k: nat)
    requires k < 64 && x / Pow2(k) % 2 != 1
    ensures x + Pow2(k) < B
  {
    LimbWidth(k);
    LimbWidth(k + 1);
    EvenQuotientFits(x, Pow2(k), Pow2(64 - (k + 1)));
  }

  lemma EvenQuotientFits(x: Limb, c: int, d: int)
    requires 1 <= c && 1 <= d && (2 * c) * d == B && x / c % 2 != 1
    ensures x + c < B
  {
    QuotientBounds(x, c);
    assert c * (2 * d) == B;
    DownSmall(x, c, 2 * d);
    MulMono(x / c, 2 * d - 2, c);
    assert (2 * d - 2) * c == B - 2 * c;
  }

  /** The quotient array after the bits from `i` up are decided: `quotient` shifted up by `i`. */
  ghost predicate QuotientSoFar(q: seq<Limb>, i: nat, quotient: int) {
    && i <= 64 * |q|
    && Val(q) == quotient * Pow2(i)
    && (forall k :: 0 <= k < i / 64 ==> q[k] == 0)
    && (i % 64 != 0 ==> q[i / 64] % Pow2(i % 64) == 0)
  }

  lemma ValUpdate(s: seq<Limb>, k: nat, x: Limb)
    requires k < |s|
    ensures Val(s[k := x]) == Val(s) + x * BPow(k) - s[k] * BPow(k)
  {
    var t := s[k := x];
    assert t[..k] == s[..k] && t[k + 1..] == s[k + 1..];
    ValSplit(s, k + 1);
    ValSplit(t, k + 1);
    ValSnoc(s, k);
    ValSnoc(t, k);
  }

  /** Deciding bit `b`: the limb holds only higher bits, so the or is an addition. */
  lemma QuotientBit(q: seq<Limb>, b: nat, quotient: int, on: bool)
    requires b < 64 * |q| && QuotientSoFar(q, b + 1, quotient)
    ensures var q' := if on then q[b / 64 := OrBit(q[b / 64], b % 64)] else q;
            QuotientSoFar(q', b, 2 * quotient + (if on then 1 else 0))
  {
    var k, o := b / 64, b % 64;
    var x := q[k];
    HighBitsOnly(q, b, quotient);
    var y := if on then OrBit(x, o) else x;
    ValUpdate(q, k, y);
    assert q[k := x] == q;
    BPowIsPow2(k);
    Pow2Add(64 * k, o);
    QuotientAlgebra(quotient, Pow2(b), Pow2(b + 1), x, y, Pow2(o), BPow(k), on, Val(q), Val(q[k := y]));
  }

  lemma QuotientAlgebra(quotient: int, p: int, p': int, x: int, y: int, c: int, bp: int, on: bool, v: int, v': int)
    requires p' == 2 * p && p == bp * c && v == quotient * p'
    requires y == x + (if on then c else 0) && v' == v + y * bp - x * bp
    ensures v' == (2 * quotient + (if on then 1 else 0)) * p
  {
    assert y * bp - x * bp == (if on then p else 0);
    assert (2 * quotient + (if on then 1 else 0)) * p == quotient * p' + (if on then p else 0);
  }

  lemma HighBitsOnly(q: seq<Limb>, b: nat, quotient: int)
    requires b < 64 * |q| && QuotientSoFar(q, b + 1, quotient)
    ensures var x, o := q[b / 64], b % 64;
            && x / Pow2(o) % 2 == 0 && x % Pow2(o) == 0 && (x + Pow2(o)) % Pow2(o) == 0
    ensures forall k :: 0 <= k < b / 64 ==> q[k] == 0
  {
    var x, o := q[b / 64], b % 64;
    if o == 63 {
      assert (b + 1) / 64 == b / 64 + 1;
      ClearLowBits(x, Pow2(o));
    } else {
      assert (b + 1) / 64 == b / 64 && (b + 1) % 64 == o + 1;
      ClearLowBits(x, Pow2(o));
    }
  }

  lemma ClearLowBits(x: Limb, c: int)
    requires 0 < c && (x == 0 || x % (2 * c) == 0)
    ensures x / c % 2 == 0 && x % c == 0 && (x + c) % c == 0
  {
    if x == 0 { QuotientUnique(0, 2 * c, 0, 0); }
    QuotientBounds(x, 2 * c);
    var m := x / (2 * c);
    QuotientUnique(x, c, 2 * m, 0);
    QuotientUnique(x + c, c, 2 * m + 1, 0);
  }

  /** One step of restoring division on the numbers themselves. */
  lemma RestoringStep(n: int, v: int, bit: int)
    requires 0 <= n && 0 < v && 0 <= bit <= 1
    ensures var t := 2 * (n % v) + bit;
            && t < 2 * v
            && (2 * n + bit) / v == 2 * (n / v) + (if v <= t then 1 else 0)
            && (2 * n + bit) % v == (if v <= t then t - v else t)
  {
    QuotientBounds(n, v);
    var t := 2 * (n % v) + bit;
    var e := if v <= t then 1 else 0;
    assert (2 * (n / v) + e) * v == 2 * ((n / v) * v) + e * v;
    QuotientUnique(2 * n + bit, v, 2 * (n / v) + e, t - e * v);
  }

  /** The low `i` limbs of 2 * was + carryIn are in `s`, with `carry` still to be added above. */
  ghost predicate ShiftSoFar(s: seq<Limb>, was: seq<Limb>, i: nat, carryIn: Limb, carry: Limb)
    requires i <= |s| && i <= |was|
  {
    carry <= 1 && Val(s[..i]) + carry * BPow(i) == 2 * Val(was[..i]) + carryIn
  }

  /** One limb of a one-bit left shift. */
  lemma ShiftOneStep(s: seq<Limb>, was: seq<Limb>, i: nat, carryIn: Limb, carry: Limb)
    requires i < |s| && i < |was| && ShiftSoFar(s, was, i, carryIn, carry)
    ensures ShiftSoFar(s[i := ShlOne(was[i], carry)], was, i + 1, carryIn, Down(was[i], 63))
  {
    HighBit(was[i]);
    ValSnoc(was, i);
    ValPut(s, i, ShlOne(was[i], carry));
    var y := ShlOne(was[i], carry);
    ShiftOneAlgebra(Val(s[..i]), Val(was[..i]), Val(s[i := y][..i + 1]), Val(was[..i + 1]), BPow(i), BPow(i + 1),
                    was[i], y, carry, Down(was[i], 63), carryIn);
  }

  /** (x << 1) | carry. */
  function ShlOne(x: Limb, carry: Limb): (y: Limb)
    requires carry <= 1
    ensures y as int == Up(x, 1) as int + carry
  {
    HighBit(x);
    Up(x, 1) + carry
  }

  lemma HighBit(x: Limb)
    ensures Down(x, 63) == (if B / 2 <= x then 1 else 0)
    ensures Up(x, 1) == 2 * x - B * Down(x, 63) && Up(x, 1) + 1 < B
  {
    LimbBase();
    assert Pow2(63) == B / 2;
    QuotientUnique(x, B / 2, if B / 2 <= x then 1 else 0, if B / 2 <= x then x - B / 2 else x);
  }

  lemma ShiftOneAlgebra(s: int, was: int, s': int, was': int, w: int, w': int, x: int, y: int, c: int, c': int, k: int)
    requires s + c * w == 2 * was + k && y == 2 * x - B * c' + c
    requires s' == s + y * w && was' == was + x * w && w' == B * w
    ensures s' + c' * w' == 2 * was' + k
  {
    MulEq(y + B * c', 2 * x + c, w);
  }

  /** r << 1 | carryIn, and the bit that leaves. */
  method ShiftLeftOne(r: array<Limb>, carryIn: Limb) returns (carry: Limb)
    requires carryIn <= 1
    modifies r
    ensures carry <= 1 && Val(r[..]) + carry * BPow(r.Length) == 2 * Val(old(r[..])) + carryIn
  {
    ghost var was := r[..];
    carry := carryIn;
    for i := 0 to r.Length
      invariant r[i..] == was[i..] && ShiftSoFar(r[..], was, i, carryIn, carry)
    {
      assert r[i] == was[i];
      ShiftOneStep(r[..], was, i, carryIn, carry);
      var shifted := ShlOne(r[i], carry);
      carry := Down(r[i], 63);
      SetLimb(r, i, shifted);
    }
    assert r[..][..r.Length] == r[..] && was[..r.Length] == was;
  }

  /** The dividend without its low `i` bits has been divided: `r` is its remainder and `q` its quotient,
      shifted up by `i`. */
  ghost predicate DivisionSoFar(u: int, d: int, q: seq<Limb>, r: int, i: nat)
    requires 0 < d
  {
    r == u / Pow2(i) % d && QuotientSoFar(q, i, u / Pow2(i) / d)
  }

  lemma DivisionStart(u: int, d: int, q: seq<Limb>, bits: nat)
    requires bits <= 64 * |q| && 0 <= u < Pow2(bits) && 0 < d
    requires forall k :: 0 <= k < |q| ==> q[k] == 0
    ensures DivisionSoFar(u, d, q, 0, bits)
  {
    QuotientUnique(u, Pow2(bits), 0, u);
    QuotientUnique(0, d, 0, 0);
    ValZeros(q);
    if bits % 64 != 0 { QuotientUnique(0, Pow2(bits % 64), 0, 0); }
  }

  /** One dividend bit. */
  lemma DivisionBit(us: seq<Limb>, d: int, q: seq<Limb>, r: int, i: nat)
    requires 0 < d && i < 64 * |us| && i < 64 * |q| && DivisionSoFar(Val(us), d, q, r, i + 1)
    ensures var t := 2 * r + Bit(us, i);
            && 0 <= t < 2 * d
            && (d <= t ==> DivisionSoFar(Val(us), d, q[i / 64 := OrBit(q[i / 64], i % 64)], t - d, i))
            && (t < d ==> DivisionSoFar(Val(us), d, q, t, i))
  {
    var n := Val(us) / Pow2(i + 1);
    BitOfVal(us, i);
    QuotientBounds(Val(us), Pow2(i + 1));
    QuotientBounds(n, d);
    RestoringStep(n, d, Bit(us, i));
    QuotientBit(q, i, n / d, d <= 2 * r + Bit(us, i));
  }

  lemma DivisionDone(u: int, d: int, q: seq<Limb>, r: int)
    requires 0 <= u && 0 < d && DivisionSoFar(u, d, q, r, 0)
    ensures Val(q) == u / d && r == u % d
  {
    QuotientUnique(u, 1, u, 0);
  }
}

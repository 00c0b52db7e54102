/** Shifting limb arrays by fewer than 64 bits. The C code joins the two halves of a shifted limb with
    a bitwise or; the halves occupy different bits, so the join is their sum. */
module Shifts {
  import opened Limbs

  function Pow2(k: nat): (p: int)
    ensures p >= 1
  {
    if k == 0 then 1 else 2 * Pow2(k - 1)
  }

  lemma {:induction false} Pow2Add(i: nat, k: nat)
    ensures Pow2(i + k) == Pow2(i) * Pow2(k)
  {
    if i > 0 {
      Pow2Add(i - 1, k);
      assert 2 * (Pow2(i - 1) * Pow2(k)) == (2 * Pow2(i - 1)) * Pow2(k);
    }
  }

  lemma Pow2Start()
    ensures Pow2(0) == 1 && Pow2(1) == 2
  {
    assert Pow2(1) == 2 * Pow2(0);
  }

  lemma {:induction false} Pow2Mono(i: nat, k: nat)
    requires i <= k
    ensures Pow2(i) <= Pow2(k)
  {
    if i < k { Pow2Mono(i, k - 1); }
  }

  lemma LimbBase()
    ensures Pow2(64) == B
  {
    assert Pow2(2) == 4;
    Pow2Add(2, 2);
    Pow2Add(4, 4);
    Pow2Add(8, 8);
    Pow2Add(16, 16);
    Pow2Add(32, 32);
  }

  lemma LimbWidth(s: nat)
    requires s <= 64
    ensures Pow2(s) * Pow2(64 - s) == B
  {
    Pow2Add(s, 64 - s);
    LimbBase();
  }

  /** x << s within a limb. */
  function Up(x: Limb, s: nat): Limb {
    Low(x * Pow2(s))
  }

  /** x >> s. */
  function Down(x: Limb, s: nat): (y: Limb)
    ensures s == 0 ==> y == x
  {
    DownRange(x, Pow2(s));
    x / Pow2(s)
  }

  lemma DownRange(x: Limb, d: int)
    requires 1 <= d
    ensures 0 <= x / d < B
  {
    QuotientBounds(x, d);
    if B <= x / d { MulMono(B, x / d, d); MulMono(1, d, B); }
  }

  lemma QuotientBounds(x: int, d: int)
    requires 0 <= x && 1 <= d
    ensures 0 <= x / d && x == (x / d) * d + x % d && 0 <= x % d < d
  {
    if x / d <= -1 { MulMono(x / d, -1, d); }
  }

  lemma QuotientUnique(x: int, d: int, q: int, r: int)
    requires x == q * d + r && 0 <= r < d
    ensures x / d == q && x % d == r
  {
    if q < x / d { MulMono(q + 1, x / d, d); }
    if x / d < q { MulMono(x / d + 1, q, d); }
  }

  /** How a limb breaks when shifted up: the bits that stay and the bits that leave. */
  lemma ShiftBreaks(x: Limb, s: nat)
    requires s < 64
    ensures x * Pow2(s) == Down(x, 64 - s) * B + Up(x, s)
    ensures Up(x, s) == (x % Pow2(64 - s)) * Pow2(s)
    ensures Down(x, 64 - s) <= Pow2(s) - 1 && Up(x, s) <= B - Pow2(s)
  {
    LimbWidth(s);
    Breaks(x, Pow2(s), Pow2(64 - s));
  }

  lemma Breaks(x: Limb, c: int, d: int)
    requires 1 <= c && 1 <= d && c * d == B
    ensures x * c == (x / d) * B + (x * c) % B && (x * c) % B == (x % d) * c
    ensures x / d <= c - 1 && (x * c) % B <= B - c
  {
    QuotientBounds(x, d);
    var q, r := x / d, x % d;
    assert x * c == q * (d * c) + r * c by {
      assert (q * d + r) * c == q * (d * c) + r * c;
    }
    MulMono(r + 1, d, c);
    MulMono(0, r, c);
    assert (r + 1) * c == r * c + c;
    QuotientUnique(x * c, B, q, r * c);
    if c <= q { MulMono(c, q, d); }
  }

  /** (hi << s) | (lo >> (64 - s)). */
  function ShlJoin(hi: Limb, lo: Limb, s: nat): Limb
    requires s < 64
  {
    ShiftBreaks(hi, s);
    ShiftBreaks(lo, s);
    Up(hi, s) + Down(lo, 64 - s)
  }

  /** (lo >> s) | (hi << (64 - s)). */
  function ShrJoin(hi: Limb, lo: Limb, s: nat): Limb
    requires 0 < s < 64
  {
    LimbWidth(s);
    ShiftBreaks(hi, 64 - s);
    DownSmall(lo, Pow2(s), Pow2(64 - s));
    Down(lo, s) + Up(hi, 64 - s)
  }

  /** Limb `i` of x << s. */
  function ShlLimb(x: seq<Limb>, s: nat, i: nat): Limb
    requires s < 64 && i < |x|
  {
    if i == 0 then Up(x[0], s) else ShlJoin(x[i], x[i - 1], s)
  }

  /** Limb `i` of x >> s. */
  function ShrLimb(x: seq<Limb>, s: nat, i: nat): Limb
    requires s < 64 && i < |x|
  {
    if i == |x| - 1 || s == 0 then Down(x[i], s) else ShrJoin(x[i + 1], x[i], s)
  }

  lemma DownSmall(x: Limb, c: int, d: int)
    requires 1 <= c && 1 <= d && c * d == B
    ensures x / c <= d - 1
  {
    QuotientBounds(x, c);
    if d <= x / c { MulMono(d, x / c, c); }
  }

  /** The bits that limb i takes over from the limb below. */
  function FromBelow(x: seq<Limb>, s: nat, i: nat): Limb
    requires s < 64 && i < |x|
  {
    if i == 0 then 0 else Down(x[i - 1], 64 - s)
  }

  /** One limb of the shift, as an equation. */
  lemma ShlDigit(x: seq<Limb>, s: nat, i: nat)
    requires s < 64 && i < |x|
    ensures ShlLimb(x, s, i) == Up(x[i], s) + FromBelow(x, s, i)
    ensures x[i] * Pow2(s) == Down(x[i], 64 - s) * B + Up(x[i], s)
  {
    ShiftBreaks(x[i], s);
  }

  /** Shifting up multiplies by 2^s, keeping the bits that leave the top limb. */
  lemma {:induction false} ShlValue(x: seq<Limb>, y: seq<Limb>, s: nat, i: nat)
    requires s < 64 && 0 < i <= |x| && i <= |y|
    requires forall k :: 0 <= k < i ==> y[k] == ShlLimb(x, s, k)
    ensures Val(y[..i]) + Down(x[i - 1], 64 - s) * BPow(i) == Val(x[..i]) * Pow2(s)
  {
    var n := i - 1;
    if n == 0 {
      assert x[..0] == [] && y[..0] == [];
    } else {
      ShlValue(x, y, s, n);
    }
    ValSnoc(x, n);
    ValSnoc(y, n);
    ShlDigit(x, s, n);
    ShlAlgebra(Val(y[..n]), Val(x[..n]), Val(y[..i]), Val(x[..i]), FromBelow(x, s, n), x[n], y[n], Up(x[n], s),
               Down(x[n], 64 - s), BPow(n), BPow(i), Pow2(s));
  }

  lemma ShlAlgebra(ys: int, xs: int, ys': int, xs': int, before: int, x: int, y: int, up: int, down: int,
                   p: int, p': int, c: int)
    requires ys + before * p == xs * c && x * c == down * B + up && y == up + before
    requires ys' == ys + y * p && xs' == xs + x * p && p' == B * p
    ensures ys' + down * p' == xs' * c
  {
    assert (x * c) * p == (down * B + up) * p;
    assert (x * p) * c == (x * c) * p;
    assert y * p == up * p + before * p;
  }

  /** Shifting down divides by 2^s; the bits that leave are the low bits of the lowest limb. */
  lemma {:induction false} ShrValue(x: seq<Limb>, y: seq<Limb>, s: nat, i: nat)
    requires 0 < s < 64 && i < |x| && i <= |y|
    requires forall k :: 0 <= k < i ==> y[k] == ShrLimb(x, s, k)
    ensures Val(y[..i]) * Pow2(s) + x[0] % Pow2(s) == Val(x[..i]) + (x[i] % Pow2(s)) * BPow(i)
  {
    if i == 0 {
      assert x[..0] == [] && y[..0] == [];
    } else {
      ShrValue(x, y, s, i - 1);
      ValSnoc(x, i - 1);
      ValSnoc(y, i - 1);
      ShrLimbSplit(x, s, i - 1);
      ShrAlgebra(Val(y[..i - 1]), Val(x[..i - 1]), Val(y[..i]), Val(x[..i]), x[0] % Pow2(s), x[i - 1], y[i - 1],
                 x[i - 1] % Pow2(s), x[i] % Pow2(s), BPow(i - 1), BPow(i), Pow2(s));
    }
  }

  lemma ShrLimbSplit(x: seq<Limb>, s: nat, i: nat)
    requires 0 < s < 64 && i + 1 < |x|
    ensures ShrLimb(x, s, i) * Pow2(s) + x[i] % Pow2(s) == x[i] + (x[i + 1] % Pow2(s)) * B
  {
    LimbWidth(s);
    QuotientBounds(x[i], Pow2(s));
    ShiftBreaks(x[i + 1], 64 - s);
    SplitAlgebra(Down(x[i], s), x[i] % Pow2(s), x[i + 1] % Pow2(s), Pow2(s), Pow2(64 - s));
  }

  lemma SplitAlgebra(down: int, low: int, r: int, c: int, d: int)
    requires c * d == B
    ensures (down + r * d) * c + low == (down * c + low) + r * B
  {
    assert (down + r * d) * c == down * c + r * (c * d);
  }

  lemma ShrAlgebra(ys: int, xs: int, ys': int, xs': int, low: int, x: int, y: int, r: int, above: int,
                   p: int, p': int, c: int)
    requires ys * c + low == xs + r * p && y * c + r == x + above * B
    requires ys' == ys + y * p && xs' == xs + x * p && p' == B * p
    ensures ys' * c + low == xs' + above * p'
  {
    assert (y * c + r) * p == (x + above * B) * p;
    assert (y * p) * c == (y * c) * p;
  }

  /** The whole shift: what is left, and the low bits of the lowest limb that are gone. */
  lemma ShrWhole(x: seq<Limb>, y: seq<Limb>, s: nat)
    requires s < 64 && 0 < |x| == |y|
    requires forall k :: 0 <= k < |x| ==> y[k] == ShrLimb(x, s, k)
    ensures Val(x) == Val(y) * Pow2(s) + x[0] % Pow2(s)
  {
    var n := |x| - 1;
    assert x[..n + 1] == x && y[..n + 1] == y;
    if s == 0 {
      assert x == y;
      QuotientUnique(x[0], 1, x[0], 0);
    } else {
      ShrValue(x, y, s, n);
      ValSnoc(x, n);
      ValSnoc(y, n);
      QuotientBounds(x[n], Pow2(s));
      ShrTop(Val(y[..n]), Val(x[..n]), Val(y), Val(x), x[0] % Pow2(s), x[n], y[n], x[n] % Pow2(s), BPow(n), Pow2(s));
    }
  }

  lemma ShrTop(ys: int, xs: int, ys': int, xs': int, low: int, x: int, y: int, r: int, p: int, c: int)
    requires ys * c + low == xs + r * p && x == y * c + r
    requires ys' == ys + y * p && xs' == xs + x * p
    ensures xs' == ys' * c + low
  {
    assert x * p == (y * p) * c + r * p;
  }

  /** A number that 2^s divides is recovered exactly by the shift. */
  lemma ShrExact(x: seq<Limb>, y: seq<Limb>, s: nat, z: int)
    requires s < 64 && 0 < |x| == |y|
    requires forall k :: 0 <= k < |x| ==> y[k] == ShrLimb(x, s, k)
    requires Val(x) == z * Pow2(s)
    ensures Val(y) == z
  {
    ShrWhole(x, y, s);
    QuotientBounds(x[0], Pow2(s));
    QuotientUnique(z * Pow2(s), Pow2(s), z, 0);
    QuotientUnique(z * Pow2(s), Pow2(s), Val(y), x[0] % Pow2(s));
  }
}

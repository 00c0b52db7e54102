/** Hash bytes in protocol order and the 256-bit words of the runtime: conversions and comparison. */
module HashBytes {
  import opened Collections
  import opened Limbs
  import opened Shifts
  import opened BitSerial
  import opened Magnitude

  /** The number that bytes denote, most significant byte first. */
  function BytesVal(s: seq<Byte>): (v: int)
    ensures v >= 0
  {
    if s == [] then 0 else 256 * BytesVal(s[..|s| - 1]) + s[|s| - 1]
  }

  /** 256^k. */
  function ByteBase(k: nat): (p: int)
    ensures p >= 1
  {
    Pow2(8 * k)
  }

  lemma ByteBaseNext(k: nat)
    ensures ByteBase(k + 1) == 256 * ByteBase(k)
  {
    Pow2Eight();
    Pow2Add(8, 8 * k);
  }

  lemma Pow2Eight()
    ensures Pow2(8) == 256
  {
    assert Pow2(2) == 4;
    Pow2Add(2, 2);
    Pow2Add(4, 4);
  }

  lemma {:induction false} BytesBound(s: seq<Byte>)
    ensures BytesVal(s) < ByteBase(|s|)
  {
    if s != [] {
      BytesBound(s[..|s| - 1]);
      ByteBaseNext(|s| - 1);
    }
  }

  lemma {:induction false} BytesSplit(s: seq<Byte>, i: nat)
    requires i <= |s|
    ensures BytesVal(s) == BytesVal(s[..i]) * ByteBase(|s| - i) + BytesVal(s[i..])
    decreases |s|
  {
    if i == |s| {
      assert s[..i] == s && s[i..] == [];
    } else {
      var n := |s| - 1;
      assert s[..n][..i] == s[..i] && s[i..][..n - i] == s[..n][i..];
      BytesSplit(s[..n], i);
      ByteBaseNext(n - i);
      SplitAlgebra(BytesVal(s[..i]), ByteBase(n - i), ByteBase(|s| - i), BytesVal(s[..n][i..]), s[n]);
    }
  }

  lemma SplitAlgebra(high: int, p: int, p': int, low: int, x: int)
    requires p' == 256 * p
    ensures 256 * (high * p + low) + x == high * p' + (256 * low + x)
  {
    assert 256 * (high * p) == high * (256 * p);
  }

  //////////////////////////////////////////////////////////////////////////////
  // Words to bytes
  //////////////////////////////////////////////////////////////////////////////

  /** A field of w bits of a number is that field of the limb it lies in. */
  lemma FieldOfVal(s: seq<Limb>, i: nat, w: nat)
    requires i < 64 * |s| && i % 64 + w <= 64
    ensures Val(s) / Pow2(i) == Pow2(w) * (Val(s) / Pow2(i + w)) + Down(s[i / 64], i % 64) % Pow2(w)
  {
    var k, o := i / 64, i % 64;
    assert s[k..][1..] == s[k + 1..];
    ValSplit(s, k);
    ValBound(s[..k]);
    ValCons(s[k..]);
    BPowIsPow2(k);
    Pow2Add(64 * k, o);
    Pow2Add(64 * k, o + w);
    Pow2Add(o, w);
    LimbWidth(o + w);
    FieldAlgebra(Val(s), Val(s[..k]), s[k], Val(s[k + 1..]), Pow2(64 * k), Pow2(o), Pow2(w), Pow2(o + w),
                 Pow2(64 - (o + w)), Pow2(i), Pow2(i + w));
  }

  lemma FieldAlgebra(n: int, low: int, x: Limb, high: int, p: int, c: int, w: int, cw: int, d: int, pi: int, piw: int)
    requires n == low + p * (x + B * high) && 0 <= low < p && 0 <= high
    requires 1 <= c && 1 <= w && cw == c * w && pi == p * c && piw == p * cw && cw * d == B
    ensures 0 < pi && 0 < piw && n / pi == w * (n / piw) + x / c % w
  {
    var m := x + B * high;
    MulMono(1, c, w);
    NestedQuotient(n, low, p, m, c);
    NestedQuotient(n, low, p, m, cw);
    FieldQuotient(m, c, w, cw);
    LowField(x, high, c, w, cw, d);
  }

  lemma FieldQuotient(m: int, c: int, w: int, cw: int)
    requires 0 <= m && 1 <= c && 1 <= w && cw == c * w
    ensures m / c == w * (m / cw) + m / c % w
  {
    var q := m / c;
    QuotientBounds(m, c);
    QuotientBounds(q, w);
    var h, r := q / w, q % w;
    FieldSplit(q, c, h, w, r, cw, m % c, r * c);
    QuotientUnique(m, cw, h, r * c + m % c);
  }

  lemma FieldSplit(q: int, c: int, h: int, w: int, r: int, cw: int, low: int, rc: int)
    requires q == h * w + r && cw == c * w && 0 <= r < w && 0 <= low < c && rc == r * c
    ensures q * c == h * cw + rc && 0 <= rc + low < cw
  {
    SumTimes(h * w, r, c);
    assert (h * w) * c == h * (c * w);
    MulMono(r + 1, w, c);
    MulMono(0, r, c);
    SumTimes(r, 1, c);
  }

  lemma LowField(x: Limb, high: int, c: int, w: int, cw: int, d: int)
    requires 1 <= c && 1 <= w && 0 <= high && cw == c * w && cw * d == B
    ensures (x + B * high) / c % w == x / c % w
  {
    var e := d * high;
    HighPart(high, c, w, cw, d, e);
    QuotientPlus(x, c, e * w);
    QuotientBounds(x, c);
    QuotientPlus(x / c, w, e);
  }

  lemma HighPart(high: int, c: int, w: int, cw: int, d: int, e: int)
    requires cw == c * w && cw * d == B && e == d * high
    ensures B * high == (e * w) * c
  {
    MulEq(cw * d, B, high);
    assert (cw * d) * high == cw * (d * high);
    assert (c * w) * e == (e * w) * c;
  }

  lemma QuotientPlus(x: int, d: int, k: int)
    requires 0 <= x && 1 <= d
    ensures (x + k * d) / d == x / d + k && (x + k * d) % d == x % d
  {
    QuotientBounds(x, d);
    SumTimes(x / d, k, d);
    QuotientUnique(x + k * d, d, x / d + k, x % d);
  }

  lemma SumTimes(q: int, k: int, d: int)
    ensures (q + k) * d == q * d + k * d
  {
  }

  /** One byte further: `left` bytes are still to come behind it. */
  lemma NextByte(s: seq<Limb>, done: seq<Byte>, left: nat, byte: Byte)
    requires 8 * left < 64 * |s| && BytesVal(done) == Val(s) / ByteBase(left + 1)
    requires byte == Down(s[8 * left / 64], 8 * left % 64) % 256
    ensures BytesVal(done + [byte]) == Val(s) / ByteBase(left)
  {
    BytesSnoc(done, byte);
    Pow2Eight();
    ByteOffset(left);
    FieldOfVal(s, 8 * left, 8);
  }

  /** A byte does not cross limbs. */
  lemma ByteOffset(left: nat)
    ensures 8 * left % 64 + 8 <= 64 && 8 * left % 64 == 8 * (left % 8) && 8 * left / 64 == left / 8
  {
    QuotientBounds(left, 8);
    QuotientUnique(8 * left, 64, left / 8, 8 * (left % 8));
  }

  /** evmsail_hash_from_sail_word: the bytes of a word, most significant first. */
  method FromWord(limbs: array<Limb>) returns (bytes: array<Byte>)
    requires limbs.Length == 4
    ensures fresh(bytes) && bytes.Length == 32 && BytesVal(bytes[..]) == Val(limbs[..])
  {
    bytes := new Byte[32](_ => 0);
    ghost var s := limbs[..];
    var left: nat := 32;
    WordBelow(s, left);
    assert bytes[..0] == [];
    for i := 0 to 32
      modifies bytes
      invariant left == 32 - i && BytesVal(bytes[..i]) == Val(s) / ByteBase(left)
    {
      left := left - 1;
      var bit := 8 * left;
      ghost var done := bytes[..i];
      bytes[i] := Down(limbs[bit / 64], bit % 64) % 256;
      assert bytes[..i + 1] == done + [bytes[i]];
      NextByte(s, done, left, bytes[i]);
    }
    assert bytes[..32] == bytes[..];
    QuotientUnique(Val(s), 1, Val(s), 0);
  }

  lemma WordBelow(s: seq<Limb>, n: nat)
    requires n == 8 * |s|
    ensures Val(s) / ByteBase(n) == 0
  {
    ValBound(s);
    BPowIsPow2(|s|);
    QuotientUnique(Val(s), ByteBase(n), 0, Val(s));
  }

  //////////////////////////////////////////////////////////////////////////////
  // Bytes to words
  //////////////////////////////////////////////////////////////////////////////

  /** The n lowest bits are zero. */
  predicate LowBitsZero(x: int, n: nat)
    decreases n
  {
    n == 0 || (x % 2 == 0 && LowBitsZero(x / 2, n - 1))
  }

  lemma {:induction false} LowBitsZeroMeans(x: int, n: nat)
    requires 0 <= x
    ensures LowBitsZero(x, n) <==> x % Pow2(n) == 0
    decreases n
  {
    if n > 0 {
      LowBitsZeroMeans(x / 2, n - 1);
      EvenRemainder(x, Pow2(n - 1), Pow2(n));
    }
  }

  lemma {:induction false} ZeroLowBits(n: nat)
    ensures LowBitsZero(0, n)
    decreases n
  {
    if n > 0 { ZeroLowBits(n - 1); }
  }

  lemma EvenRemainder(x: int, p: int, p2: int)
    requires 0 <= x && 0 < p && p2 == 2 * p
    ensures x % p2 == 0 <==> x % 2 == 0 && x / 2 % p == 0
  {
    var h := x / 2;
    QuotientBounds(h, p);
    assert x == (h / p) * p2 + (2 * (h % p) + x % 2) by { assert (h / p) * p2 == 2 * ((h / p) * p); }
    QuotientUnique(x, p2, h / p, 2 * (h % p) + x % 2);
  }

  /** The bytes so far are in the limbs, each at its place with `left` bytes to come; those places are zero. */
  ghost predicate Gathered(s: seq<Limb>, done: seq<Byte>, left: nat) {
    && 8 * left <= 64 * |s|
    && Val(s) == BytesVal(done) * ByteBase(left)
    && (forall k :: 0 <= k < |s| && 64 * (k + 1) <= 8 * left ==> s[k] == 0)
    && (left > 0 ==> LowBitsZero(s[8 * (left - 1) / 64], 8 * (left - 1) % 64 + 8))
  }

  /** The byte falls on bits that are still zero, so the or is an addition. */
  lemma OrFits(x: Limb, byte: Byte, o: nat, shifted: int)
    requires o + 8 <= 64 && LowBitsZero(x, o + 8) && shifted == byte * Pow2(o)
    ensures 0 <= x + shifted < B && LowBitsZero(x + shifted, o)
  {
    var n, y := o + 8, x + shifted;
    LowBitsZeroMeans(x, n);
    Pow2Eight();
    Pow2Add(8, o);
    LimbWidth(n);
    OrAlgebra(x, byte, Pow2(o), Pow2(n), Pow2(64 - n), y);
    LowBitsZeroMeans(y, o);
  }

  lemma OrAlgebra(x: Limb, byte: Byte, c: int, c8: int, d: int, y: int)
    requires 1 <= c && 1 <= d && c8 == 256 * c && c8 * d == B && x % c8 == 0 && y == x + byte * c
    ensures 0 <= y < B && y % c == 0
  {
    QuotientBounds(x, c8);
    var q := x / c8;
    if d <= q { MulMono(d, q, c8); }
    MulMono(q + 1, d, c8);
    MulMono(byte, 255, c);
    assert (q + 1) * c8 == q * c8 + c8;
    assert q * c8 + byte * c == (256 * q + byte) * c;
    QuotientUnique(y, c, 256 * q + byte, 0);
  }

  lemma GatherStep(s: seq<Limb>, done: seq<Byte>, left: nat, byte: Byte, k: nat, o: nat, shifted: int, y: Limb)
    requires Gathered(s, done, left + 1) && k == 8 * left / 64 && o == 8 * left % 64
    requires shifted == byte * Pow2(o) && y == s[k] + shifted && LowBitsZero(y, o)
    ensures Gathered(s[k := y], done + [byte], left)
  {
    GatherValue(s, done, left, byte, k, o, y);
    if left > 0 { NextPlace(s, s[k := y], k, o, left); }
  }

  lemma PlaceByte(s: seq<Limb>, done: seq<Byte>, left: nat, byte: Byte, k: nat, o: nat, shifted: int)
    requires Gathered(s, done, left + 1) && k == 8 * left / 64 && o == 8 * left % 64 && k < |s|
    requires shifted == byte * Pow2(o)
    ensures 0 <= s[k] + shifted < B && Gathered(s[k := s[k] + shifted], done + [byte], left)
  {
    GatheredPlace(s, done, left, k, o);
    OrFits(s[k], byte, o, shifted);
    GatherStep(s, done, left, byte, k, o, shifted, s[k] + shifted);
  }

  lemma GatheredPlace(s: seq<Limb>, done: seq<Byte>, left: nat, k: nat, o: nat)
    requires Gathered(s, done, left + 1) && k == 8 * left / 64 && o == 8 * left % 64
    ensures k < |s| && o + 8 <= 64 && LowBitsZero(s[k], o + 8)
  {
    ByteOffset(left);
  }

  lemma GatherValue(s: seq<Limb>, done: seq<Byte>, left: nat, byte: Byte, k: nat, o: nat, y: Limb)
    requires k < |s| && k == 8 * left / 64 && o == 8 * left % 64 && y == s[k] + byte * Pow2(o)
    requires Val(s) == BytesVal(done) * ByteBase(left + 1)
    ensures Val(s[k := y]) == BytesVal(done + [byte]) * ByteBase(left)
  {
    ValUpdate(s, k, y);
    PlaceBase(left, k, o);
    ByteBaseNext(left);
    BytesSnoc(done, byte);
    GatherAlgebra(BytesVal(done), byte, ByteBase(left + 1), ByteBase(left), Pow2(o), BPow(k), s[k], y,
                  Val(s), Val(s[k := y]));
  }

  lemma PlaceBase(left: nat, k: nat, o: nat)
    requires 8 * left == 64 * k + o
    ensures ByteBase(left) == BPow(k) * Pow2(o)
  {
    BPowIsPow2(k);
    Pow2Add(64 * k, o);
  }

  lemma BytesSnoc(s: seq<Byte>, x: Byte)
    ensures BytesVal(s + [x]) == 256 * BytesVal(s) + x
  {
    assert (s + [x])[..|s|] == s;
  }

  lemma GatherAlgebra(v: int, byte: int, p256: int, p: int, c: int, w: int, x: int, y: int, n: int, n': int)
    requires p256 == 256 * p && p == w * c && n == v * p256 && y == x + byte * c
    requires n' == n + y * w - x * w
    ensures n' == (256 * v + byte) * p
  {
    assert y * w == x * w + byte * (w * c);
    assert v * (256 * p) == (256 * v) * p;
  }

  /** The bits below the next byte are zero too. */
  lemma NextPlace(s: seq<Limb>, t: seq<Limb>, k: nat, o: nat, left: nat)
    requires 0 < left && k == 8 * left / 64 && o == 8 * left % 64 && k < |s| == |t|
    requires t == s[k := t[k]] && LowBitsZero(t[k], o)
    requires forall l :: 0 <= l < |s| && 64 * (l + 1) <= 8 * (left + 1) ==> s[l] == 0
    ensures LowBitsZero(t[8 * (left - 1) / 64], 8 * (left - 1) % 64 + 8)
  {
    PlaceBefore(left, k, o);
    if o == 0 { ZeroLowBits(8 * (left - 1) % 64 + 8); }
  }

  lemma PlaceBefore(left: nat, k: nat, o: nat)
    requires 0 < left && k == 8 * left / 64 && o == 8 * left % 64
    ensures if o == 0 then k >= 1 && 8 * (left - 1) / 64 == k - 1 && 64 * k <= 8 * (left + 1)
            else 8 * (left - 1) / 64 == k && 8 * (left - 1) % 64 + 8 == o
  {
    ByteOffset(left);
    ByteOffset(left - 1);
  }

  /** evmsail_hash_to_sail_word: the word of the bytes. */
  method ToWord(bytes: array<Byte>) returns (limbs: array<Limb>)
    requires bytes.Length == 32
    ensures fresh(limbs) && limbs.Length == 4 && Val(limbs[..]) == BytesVal(bytes[..])
  {
    limbs := new Limb[4](_ => 0);
    ghost var s, done: seq<Byte> := limbs[..], [];
    var left: nat := 32;
    GatherStart(s, left);
    for i := 0 to 32
      modifies limbs
      invariant left == 32 - i && done == bytes[..i]
      invariant limbs[..] == s && Gathered(s, done, left)
    {
      left := left - 1;
      s := OrByte(limbs, left, bytes[i], done);
      done := done + [bytes[i]];
    }
    assert bytes[..32] == bytes[..];
    GatherEnd(s, done);
  }

  lemma GatherEnd(s: seq<Limb>, done: seq<Byte>)
    requires Gathered(s, done, 0)
    ensures Val(s) == BytesVal(done)
  {
  }

  /** result.limbs[bit / 64] |= byte << (bit % 64) */
  method OrByte(limbs: array<Limb>, left: nat, byte: Byte, ghost done: seq<Byte>) returns (ghost t: seq<Limb>)
    requires 8 * (left + 1) <= 64 * limbs.Length && Gathered(limbs[..], done, left + 1)
    modifies limbs
    ensures limbs[..] == t && |t| == limbs.Length && Gathered(t, done + [byte], left)
  {
    var bit := 8 * left;
    var k, o := bit / 64, bit % 64;
    ghost var s := limbs[..];
    var shifted := byte * Pow2(o);
    PlaceByte(s, done, left, byte, k, o, shifted);
    t := s[k := s[k] + shifted];
    SetLimb(limbs, k, limbs[k] + shifted);
  }

  lemma GatherStart(s: seq<Limb>, n: nat)
    requires n == 8 * |s| && 0 < n && forall k :: 0 <= k < |s| ==> s[k] == 0
    ensures Gathered(s, [], n)
  {
    ValZeros(s);
    ZeroLowBits(8 * (n - 1) % 64 + 8);
  }

  /** A word survives the way to bytes and back. */
  method ThereAndBack(word: array<Limb>) returns (back: array<Limb>)
    requires word.Length == 4
    ensures back[..] == word[..]
  {
    var bytes := FromWord(word);
    back := ToWord(bytes);
    ValInjective(back[..], word[..]);
  }

  //////////////////////////////////////////////////////////////////////////////
  // Comparison
  //////////////////////////////////////////////////////////////////////////////

  /** The first byte that differs decides. */
  lemma FirstDifference(a: seq<Byte>, b: seq<Byte>, i: nat)
    requires i < |a| == |b| && a[..i] == b[..i] && a[i] < b[i]
    ensures BytesVal(a) < BytesVal(b)
  {
    var x, y := BytesVal(a[..i + 1]), BytesVal(b[..i + 1]);
    assert a[..i + 1][..i] == a[..i] && b[..i + 1][..i] == b[..i];
    assert x < y;
    BytesSplit(a, i + 1);
    BytesSplit(b, i + 1);
    BytesBound(a[i + 1..]);
    DifferenceDecides(x, y, ByteBase(|a| - (i + 1)), BytesVal(a[i + 1..]), BytesVal(b[i + 1..]));
  }

  lemma DifferenceDecides(x: int, y: int, p: int, low: int, low': int)
    requires x < y && low < p && 0 < p && 0 <= low'
    ensures x * p + low < y * p + low'
  {
    MulMono(x + 1, y, p);
    assert (x + 1) * p == x * p + p;
  }

  /** evmsail_hash_compare: the byte order of memcmp is the order of the numbers. */
  method Compare(a: array<Byte>, b: array<Byte>) returns (c: int)
    requires a.Length == b.Length == 32
    ensures Sign(c) == Sign(BytesVal(a[..]) - BytesVal(b[..]))
    ensures (c < 0 <==> BytesVal(a[..]) < BytesVal(b[..])) && (c > 0 <==> BytesVal(a[..]) > BytesVal(b[..]))
    ensures c == 0 <==> a[..] == b[..]
  {
    for i := 0 to 32
      invariant a[..i] == b[..i]
    {
      if a[i] != b[i] {
        ghost var x, y := a[..], b[..];
        assert x[..i] == a[..i] == b[..i] == y[..i];
        if a[i] < b[i] { FirstDifference(x, y, i); } else { FirstDifference(y, x, i); }
        return a[i] as int - b[i] as int;
      }
    }
    assert a[..32] == a[..] && b[..32] == b[..];
    c := 0;
  }
}

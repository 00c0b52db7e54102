/** Little-endian multi-limb naturals in base 2^64, as the C and Rust code stores them. */
module Limbs {
  const B: int := 0x1_0000_0000_0000_0000

  /** 2^128. */
  const BB: int := 0x1_0000_0000_0000_0000_0000_0000_0000_0000

  /** A uint64_t. */
  type Limb = x: int | 0 <= x < B

  /** The (uint64_t) cast. */
  function Low(x: int): Limb {
    x % B
  }

  /** Arithmetic on unsigned __int128 wraps modulo 2^128. */
  function Wide(x: int): (w: int)
    ensures 0 <= w < BB
  {
    x % BB
  }

  /** The upper limb of an unsigned __int128. */
  function High(w: int): Limb
    requires 0 <= w < BB
  {
    w / B
  }

  /** B^k. */
  function BPow(k: nat): (p: int)
    ensures p >= 1
  {
    if k == 0 then 1 else B * BPow(k - 1)
  }

  /** The natural number that a limb sequence denotes, least significant limb first. */
  function Val(s: seq<Limb>): (v: int)
    ensures v >= 0
  {
    if s == [] then 0 else Val(s[..|s| - 1]) + s[|s| - 1] * BPow(|s| - 1)
  }

  lemma ValSnoc(s: seq<Limb>, i: nat)
    requires i < |s|
    ensures Val(s[..i + 1]) == Val(s[..i]) + s[i] * BPow(i)
  {
    assert s[..i + 1][..i] == s[..i];
  }

  /** Writing the limb above a prefix. */
  lemma ValPut(s: seq<Limb>, i: nat, x: Limb)
    requires i < |s|
    ensures Val(s[i := x][..i + 1]) == Val(s[..i]) + x * BPow(i)
  {
    assert s[i := x][..i] == s[..i];
    ValSnoc(s[i := x], i);
  }

  /** a[i] = x, on the limbs of the whole array. */
  method SetLimb(a: array<Limb>, i: nat, x: Limb)
    requires i < a.Length
    modifies a
    ensures a[..] == old(a[..])[i := x]
    ensures a[i + 1..] == old(a[i + 1..])
  {
    a[i] := x;
  }

  lemma ValSingle(x: Limb)
    ensures Val([x]) == x
  {
  }

  lemma {:induction false} ValAppend(a: seq<Limb>, b: seq<Limb>, n: nat)
    requires n == |a|
    ensures Val(a + b) == Val(a) + BPow(n) * Val(b)
    decreases |b|
  {
    if b == [] {
      assert a + b == a;
    } else {
      var c, t := b[..|b| - 1], b[|b| - 1];
      assert (a + b)[..|a + b| - 1] == a + c;
      ValAppend(a, c, n);
      BPowAdd(n, |c|);
      Distribute(BPow(n), Val(c), t, BPow(|c|), Val(b), BPow(n + |c|));
    }
  }

  lemma ScaledProduct(x: int, y: int)
    ensures B * (x * y) == (B * x) * y
  {
  }

  lemma {:induction false} BPowAdd(i: nat, k: nat)
    ensures BPow(i + k) == BPow(i) * BPow(k)
  {
    if i > 0 {
      BPowAdd(i - 1, k);
      assert (i - 1) + k == (i + k) - 1;
      ScaledProduct(BPow(i - 1), BPow(k));
    }
  }

  lemma {:induction false} ValBound(s: seq<Limb>)
    ensures Val(s) < BPow(|s|)
  {
    if s != [] {
      ValBound(s[..|s| - 1]);
      MulMono(s[|s| - 1], B - 1, BPow(|s| - 1));
    }
  }

  lemma ValCons(s: seq<Limb>)
    requires s != []
    ensures Val(s) == s[0] + B * Val(s[1..])
  {
    assert [s[0]] + s[1..] == s;
    ValSingle(s[0]);
    ValAppend([s[0]], s[1..], 1);
  }

  lemma {:induction false} ValZeros(s: seq<Limb>)
    requires forall k :: 0 <= k < |s| ==> s[k] == 0
    ensures Val(s) == 0
  {
    if s != [] {
      ValZeros(s[..|s| - 1]);
    }
  }

  /** A limb split at `i`: low part plus B^i times the high part. */
  lemma ValSplit(s: seq<Limb>, i: nat)
    requires i <= |s|
    ensures Val(s) == Val(s[..i]) + BPow(i) * Val(s[i..])
  {
    assert s[..i] + s[i..] == s;
    ValAppend(s[..i], s[i..], i);
  }

  /** Two equally long limb sequences that denote the same number are equal limb for limb. */
  lemma {:induction false} ValInjective(s: seq<Limb>, t: seq<Limb>)
    requires |s| == |t| && Val(s) == Val(t)
    ensures s == t
  {
    if s != [] {
      assert s == [s[0]] + s[1..] && t == [t[0]] + t[1..];
      ValCons(s);
      ValCons(t);
      DigitUnique(s[0], Val(s[1..]), t[0], Val(t[1..]));
      ValInjective(s[1..], t[1..]);
    }
  }

  lemma DigitUnique(x: Limb, a: int, y: Limb, b: int)
    requires x + B * a == y + B * b
    ensures x == y && a == b
  {
  }

  lemma Distribute(p: int, v: int, t: int, q: int, v': int, pq: int)
    requires v' == v + t * q && pq == p * q
    ensures p * v' == p * v + t * pq
  {
  }

  lemma MulMono(a: int, b: int, c: int)
    requires a <= b && 0 <= c
    ensures a * c <= b * c
  {
  }

  /** A larger digit outweighs everything below it. */
  lemma SmallerTop(low: int, low': int, x: int, y: int, p: int)
    requires 0 <= low < p && 0 <= low' && x < y
    ensures low + x * p < low' + y * p
  {
    MulMono(x + 1, y, p);
  }

  /** `s` and `t` agree except on the window from `lo` below `hi`. */
  ghost predicate SameOutside(s: seq<Limb>, t: seq<Limb>, lo: nat, hi: nat)
    requires lo <= hi <= |s|
  {
    |s| == |t| && s[..lo] == t[..lo] && s[hi..] == t[hi..]
  }

  /** Extending a window by the limb above it. */
  lemma ValWindow(s: seq<Limb>, j: nat, i: nat)
    requires j + i < |s|
    ensures Val(s[j..j + i + 1]) == Val(s[j..j + i]) + s[j + i] * BPow(i)
  {
    var t := s[j..j + i + 1];
    assert t[..i + 1] == t && t[..i] == s[j..j + i];
    ValSnoc(t, i);
  }

  /** Writing the limb above a window that differs from `was` only inside the window. */
  lemma WriteLimb(was: seq<Limb>, before: seq<Limb>, j: nat, i: nat, x: Limb)
    requires j + i < |was| && SameOutside(was, before, j, j + i)
    ensures before[j + i] == was[j + i]
    ensures SameOutside(was, before[j + i := x], j, j + i + 1)
    ensures Val(before[j + i := x][j..j + i + 1]) == Val(before[j..j + i]) + x * BPow(i)
    ensures Val(was[j..j + i + 1]) == Val(was[j..j + i]) + was[j + i] * BPow(i)
  {
    var after := before[j + i := x];
    assert before[j + i] == before[j + i..][0];
    assert after[j..j + i] == before[j..j + i];
    assert after[j + i + 1..] == before[j + i..][1..] == was[j + i + 1..];
    assert after[..j] == was[..j];
    ValWindow(after, j, i);
    ValWindow(was, j, i);
  }

  lemma SplitWindow(s: seq<Limb>, lo: nat, hi: nat)
    requires lo <= hi <= |s|
    ensures Val(s[..hi]) == Val(s[..lo]) + BPow(lo) * Val(s[lo..hi])
  {
    assert s[..hi][..lo] == s[..lo] && s[..hi][lo..] == s[lo..hi];
    ValSplit(s[..hi], lo);
  }

  lemma SubtractLimb(u: Limb, x: Limb, borrow: Limb)
    requires borrow <= 1
    ensures var d := Wide(u - x - borrow);
            && Low(d) == u - x - borrow + B * (High(d) % 2)
            && (High(d) != 0 <==> High(d) % 2 == 1)
  {
    var d := Wide(u - x - borrow);
    if u - x - borrow < 0 {
      assert d == u - x - borrow + BB;
      assert d / B == B - 1;
    } else {
      assert d == u - x - borrow;
      assert d / B == 0;
    }
  }

  lemma AddLimb(u: Limb, v: Limb, c: Limb)
    ensures var t := Wide(u + v + c);
            Low(t) + B * High(t) == u + v + c && (c <= 1 ==> High(t) <= 1)
  {
  }

  lemma AddAlgebra(s: int, a: int, b: int, s': int, a': int, b': int, w: int, w': int,
                   x: int, y: int, c: int, low: int, c': int)
    requires s + c * w == a + b && x + y + c == low + B * c'
    requires s' == s + low * w && a' == a + x * w && b' == b + y * w && w' == B * w
    ensures s' + c' * w' == a' + b'
  {
    MulEq(x + y + c, low + B * c', w);
  }

  lemma MulEq(a: int, b: int, p: int)
    requires a == b
    ensures a * p == b * p
  {
  }

  lemma ZeroTop(low: int, t: Limb, p: int)
    requires 0 <= low && 0 < p && low + t * p < p
    ensures t == 0 && t * p == 0
  {
    if 1 <= t { MulMono(1, t, p); }
  }
}

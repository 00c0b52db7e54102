/** Rows of a schoolbook product over limbs, shared by every full-width multiplication of the model. */
module Schoolbook {
  import opened Limbs

  /** Row `i` after `j` columns: x * b[..j] has been added at limb i, `c` waits for the limb above. */
  ghost predicate RowAdded(was: seq<Limb>, now: seq<Limb>, b: seq<Limb>, x: Limb, i: nat, j: nat, c: int)
    requires i + j <= |was| && j <= |b|
  {
    && SameOutside(was, now, i, i + j)
    && Val(now[i..i + j]) + c * BPow(j) == Val(was[i..i + j]) + x * Val(b[..j])
  }

  /** x * y + z + c as an unsigned __int128: it never wraps. */
  function MulAdd(x: Limb, y: Limb, z: Limb, c: Limb): (t: int)
    ensures 0 <= t < BB
  {
    MulMono(x, B - 1, y);
    MulMono(0, x, y);
    x * y + z + c
  }

  lemma RowStep(was: seq<Limb>, before: seq<Limb>, b: seq<Limb>, x: Limb, i: nat, j: nat, c: Limb)
    requires i + j < |was| && j < |b| && RowAdded(was, before, b, x, i, j, c)
    ensures var t := MulAdd(x, b[j], before[i + j], c);
            RowAdded(was, before[i + j := Low(t)], b, x, i, j + 1, High(t))
  {
    var t := MulAdd(x, b[j], before[i + j], c);
    WriteLimb(was, before, i, j, Low(t));
    ValSnoc(b, j);
    RowAlgebra(Val(before[i..i + j]), Val(was[i..i + j]), Val(b[..j]), Val(before[i + j := Low(t)][i..i + j + 1]),
               Val(was[i..i + j + 1]), Val(b[..j + 1]), BPow(j), BPow(j + 1), x, b[j], before[i + j], c, Low(t), High(t));
  }

  lemma RowAlgebra(now: int, was: int, v: int, now': int, was': int, v': int, w: int, w': int,
                   x: int, y: int, z: int, c: int, low: int, high: int)
    requires now + c * w == was + x * v && x * y + z + c == low + B * high
    requires now' == now + low * w && was' == was + z * w && v' == v + y * w && w' == B * w
    ensures now' + high * w' == was' + x * v'
  {
    MulEq(x * y + z + c, low + B * high, w);
    assert x * v' == x * v + (x * y) * w;
  }

  /** Writing the last carry into the empty limb above a finished row completes one partial product. */
  lemma RowEnd(was: seq<Limb>, before: seq<Limb>, a: seq<Limb>, b: seq<Limb>, n: nat, i: nat, c: Limb)
    requires i < |a| && n <= |b| && i + n < |was| && was[i + n] == 0
    requires Val(was[..i + n]) == Val(a[..i]) * Val(b[..n])
    requires RowAdded(was, before, b, a[i], i, n, c)
    ensures Val(before[i + n := c][..i + n + 1]) == Val(a[..i + 1]) * Val(b[..n])
    ensures before[i + n := c][i + n + 1..] == was[i + n + 1..]
  {
    var after := before[i + n := c];
    WriteLimb(was, before, i, n, c);
    RowEndValue(was, after, a, i, n, Val(b[..n]), Val(was[i..i + n]), Val(after[i..i + n + 1]));
  }

  lemma RowEndValue(was: seq<Limb>, after: seq<Limb>, a: seq<Limb>, i: nat, n: nat, vb: int, w: int, w': int)
    requires i < |a| && i + n < |was| == |after| && after[..i] == was[..i]
    requires w' == Val(after[i..i + n + 1]) && w == Val(was[i..i + n]) && w' == w + a[i] * vb
    requires Val(was[..i + n]) == Val(a[..i]) * vb
    ensures Val(after[..i + n + 1]) == Val(a[..i + 1]) * vb
  {
    SplitWindow(was, i, i + n);
    SplitWindow(after, i, i + n + 1);
    ValSnoc(a, i);
    RowEndAlgebra(Val(was[..i]), Val(was[..i + n]), w, w', Val(after[..i + n + 1]), BPow(i), a[i], Val(a[..i]),
                  Val(a[..i + 1]), vb);
  }

  lemma RowEndAlgebra(low: int, all: int, w: int, w': int, all': int, p: int, x: int, va: int, va': int, vb: int)
    requires all == low + p * w && all' == low + p * w' && w' == w + x * vb
    requires all == va * vb && va' == va + x * p
    ensures all' == va' * vb
  {
    assert p * w' == p * w + (x * p) * vb;
  }
}

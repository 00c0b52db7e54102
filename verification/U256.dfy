/** The portable provider of the 256-bit arithmetic contract: Knuth division and full-width modular
    reduction. */
module U256 {
  import opened Limbs
  import opened Knuth
  import opened Schoolbook
  import opened Shifts
  import opened BitSerial

  /** What every provider of the contract promises of a division. */
  ghost predicate IsDivRem(u: int, v: int, q: int, r: int) {
    u == q * v + r && 0 <= r < v
  }

  /** Division of m limbs by one limb, most significant limb first. */
  method DivideByLimb(u: array<Limb>, m: nat, d: Limb, q: array<Limb>) returns (rem: Limb)
    requires m <= u.Length && m <= q.Length && q != u && 0 < d
    modifies q
    ensures Val(u[..m]) == Val(q[..m]) * d + rem && rem < d
    ensures forall k :: m <= k < q.Length ==> q[k] == old(q[k])
  {
    rem := 0;
    assert u[m..m] == [] && q[m..m] == [];
    for j := m downto 0
      invariant Val(u[j..m]) == Val(q[j..m]) * d + rem && rem < d
      invariant forall k :: m <= k < q.Length ==> q[k] == old(q[k])
    {
      ghost var above := q[j + 1..m];
      var cur := rem * B + u[j];
      LimbQuotient(rem, u[j], d);
      q[j] := cur / d;
      ghost var before := rem;
      rem := cur % d;
      ValCons(u[j..m]);
      ValCons(q[j..m]);
      assert u[j..m][1..] == u[j + 1..m] && q[j..m][1..] == above;
      LimbAlgebra(before, u[j], d, cur / d, rem, Val(above), Val(u[j + 1..m]), Val(q[j..m]));
    }
    assert u[0..m] == u[..m] && q[0..m] == q[..m];
  }

  /** General division over trimmed operands: u of up to 8 limbs by a nonzero 4-limb v. */
  method DivRemWide(u: array<Limb>, uLimbs: nat, v: array<Limb>, q: array<Limb>, r: array<Limb>)
    requires uLimbs <= u.Length && uLimbs <= 8 && v.Length == 4 && q.Length == 8 && r.Length == 4
    requires q != u && q != v && r != u && r != v && q != r
    requires Val(v[..]) != 0
    modifies q, r
    ensures Val(q[..]) == Val(u[..uLimbs]) / Val(v[..])
    ensures Val(r[..]) == Val(u[..uLimbs]) % Val(v[..])
  {
    ghost var dividend, divisor := Val(u[..uLimbs]), Val(v[..]);
    var m := LimbsUsed(u, uLimbs);
    var n := LimbsUsed(v, 4);
    assert v[..4] == v[..];
    ClearLimbs(q);
    ClearLimbs(r);
    if m < n {
      CopyLimbs(u, m, r);
      ShorterIsSmaller(u[..m], v[..n]);
      WideResult(q[..], r[..], 0, 4, dividend, divisor, q[..0], r[..]);
    } else if n == 1 {
      assert v[..1] == [v[0]];
      ValSingle(v[0]);
      r[0] := DivideByLimb(u, m, v[0], q);
      ValSingle(r[0]);
      WideResult(q[..], r[..], m, 1, dividend, divisor, q[..m], [r[0]]);
    } else {
      KnuthDivRem(u, m, v, n, q, r);
      WideResult(q[..], r[..], m - n + 1, n, dividend, divisor, q[..m - n + 1], r[..n]);
    }
  }

  /** Reading off quotient and remainder when the limbs above the significant ones are zero. */
  lemma WideResult(q: seq<Limb>, r: seq<Limb>, i: nat, k: nat, u: int, v: int, qs: seq<Limb>, rs: seq<Limb>)
    requires i <= |q| && k <= |r| && qs == q[..i] && rs == r[..k]
    requires forall x :: i <= x < |q| ==> q[x] == 0
    requires forall x :: k <= x < |r| ==> r[x] == 0
    requires IsDivRem(u, v, Val(qs), Val(rs))
    ensures Val(q) == u / v && Val(r) == u % v
  {
    ValTrailingZeros(q, i);
    ValTrailingZeros(r, k);
    QuotientUnique(u, v, Val(q), Val(r));
  }

  /** Copies m limbs into a cleared output. */
  method CopyLimbs(x: array<Limb>, m: nat, out: array<Limb>)
    requires x != out && m <= x.Length && m <= out.Length
    requires forall k :: 0 <= k < out.Length ==> out[k] == 0
    modifies out
    ensures Val(out[..]) == Val(x[..m])
  {
    for i := 0 to m
      invariant out[..i] == x[..i]
      invariant forall k :: m <= k < out.Length ==> out[k] == 0
    {
      out[i] := x[i];
    }
    ValTrailingZeros(out[..], m);
    assert out[..][..m] == out[..m];
  }

  /** a / b and a % b for 256-bit operands. */
  method U256DivRem(a: array<Limb>, b: array<Limb>, quotient: array<Limb>, remainder: array<Limb>)
    requires a.Length == 4 && b.Length == 4 && quotient.Length == 4 && remainder.Length == 4
    requires quotient != remainder && Val(b[..]) != 0
    modifies quotient, remainder
    ensures Val(quotient[..]) == Val(old(a[..])) / Val(old(b[..]))
    ensures Val(remainder[..]) == Val(old(a[..])) % Val(old(b[..]))
  {
    var q := new Limb[8];
    var r := new Limb[4];
    ghost var u, v := Val(a[..]), Val(b[..]);
    ghost var us := a[..];
    assert a[..4] == us;
    DivRemWide(a, 4, b, q, r);
    QuotientFits(q[..], v, us);
    ghost var qs := q[..4];
    assert q[..][..4] == qs;
    CopyPrefix(q, 4, quotient);
    CopyPrefix(r, 4, remainder);
    assert quotient[..4] == quotient[..] && remainder[..4] == remainder[..] && r[..4] == r[..];
  }

  /** The full 512-bit product of two 4-limb values. */
  method MulWide(a: array<Limb>, b: array<Limb>) returns (product: array<Limb>)
    requires a.Length == 4 && b.Length == 4
    ensures fresh(product) && product.Length == 8 && Val(product[..]) == Val(a[..]) * Val(b[..])
  {
    product := new Limb[8](_ => 0);
    ghost var x, y := a[..], b[..];
    assert x[..4] == x && y[..4] == y;
    ValZeros(product[..][..4]);
    for i := 0 to 4
      modifies product
      invariant Val(product[..][..i + 4]) == Val(x[..i]) * Val(y[..4])
      invariant forall k :: i + 4 <= k < 8 ==> product[k] == 0
    {
      ghost var was := product[..];
      var carry: Limb := 0;
      for j := 0 to 4
        modifies product
        invariant RowAdded(was, product[..], y, x[i], i, j, carry)
      {
        var t := MulAdd(a[i], b[j], product[i + j], carry);
        RowStep(was, product[..], y, x[i], i, j, carry);
        SetLimb(product, i + j, Low(t));
        carry := High(t);
      }
      RowEnd(was, product[..], x, y, 4, i, carry);
      SetLimb(product, i + 4, carry);
    }
    assert product[..][..8] == product[..];
  }

  /** (a * b) mod n over the full 512-bit product. */
  method U256MulMod(a: array<Limb>, b: array<Limb>, n: array<Limb>, out: array<Limb>)
    requires a.Length == 4 && b.Length == 4 && n.Length == 4 && out.Length == 4
    requires out != n && Val(n[..]) != 0
    modifies out
    ensures Val(out[..]) == Val(old(a[..])) * Val(old(b[..])) % Val(n[..])
  {
    var product := MulWide(a, b);
    var q := new Limb[8];
    assert product[..8] == product[..];
    DivRemWide(product, 8, n, q, out);
  }

  /** The full 257-bit sum of two 4-limb values. */
  method AddWide(a: array<Limb>, b: array<Limb>) returns (sum: array<Limb>)
    requires a.Length == 4 && b.Length == 4
    ensures fresh(sum) && sum.Length == 5 && Val(sum[..]) == Val(a[..]) + Val(b[..])
  {
    sum := new Limb[5];
    ghost var x, y := a[..], b[..];
    assert x[..4] == x && y[..4] == y;
    var carry: Limb := 0;
    for i := 0 to 4
      modifies sum
      invariant SumSoFar(sum[..], x, y, i, carry)
    {
      var t := Wide(a[i] + b[i] + carry);
      SumStep(sum[..], x, y, i, carry);
      SetLimb(sum, i, Low(t));
      carry := High(t);
    }
    ghost var low := sum[..];
    SetLimb(sum, 4, carry);
    assert sum[..][..5] == sum[..];
    ValPut(low, 4, carry);
  }

  /** (a + b) mod n over the full 257-bit sum. */
  method U256AddMod(a: array<Limb>, b: array<Limb>, n: array<Limb>, out: array<Limb>)
    requires a.Length == 4 && b.Length == 4 && n.Length == 4 && out.Length == 4
    requires out != n && Val(n[..]) != 0
    modifies out
    ensures Val(out[..]) == (Val(old(a[..])) + Val(old(b[..]))) % Val(n[..])
  {
    var sum := AddWide(a, b);
    var q := new Limb[8];
    assert sum[..5] == sum[..];
    DivRemWide(sum, 5, n, q, out);
  }
}

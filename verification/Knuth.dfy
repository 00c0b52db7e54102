/** Knuth's Algorithm D over 64-bit limbs (TAOCP volume 2, section 4.3.1). */
module Knuth {
  import opened Limbs
  import opened Shifts
  import opened Schoolbook

  //////////////////////////////////////////////////////////////////////////////
  // D3: the quotient-digit estimate
  //////////////////////////////////////////////////////////////////////////////

  /** D3 on the three leading dividend limbs and the two leading divisor limbs. The answer is the
      three-by-two-limb quotient, capped at the largest limb; at most two corrections are made. */
  method EstimateDigit(u2: Limb, u1: Limb, u0: Limb, v1: Limb, v0: Limb) returns (qhat: int, ghost rounds: nat)
    requires B <= 2 * v1 && u2 <= v1
    ensures 0 <= qhat < B && rounds <= 2
    ensures qhat * (v1 * B + v0) <= (u2 * B + u1) * B + u0
    ensures qhat < B - 1 ==> (u2 * B + u1) * B + u0 < (qhat + 1) * (v1 * B + v0)
  {
    var num := u2 * B + u1;
    qhat := num / v1;
    var rhat := num % v1;
    rounds := 0;
    EstimateStart(num, v1, v0, u0, qhat, rhat);
    while qhat / B != 0 || (qhat % B) * v0 > rhat * B + u0
      invariant 0 <= rhat < B && num == qhat * v1 + rhat && 0 <= qhat
      invariant rounds <= 1 && rounds * v1 <= rhat
      invariant Above(num * B + u0, v1 * B + v0, qhat)
      decreases qhat
    {
      EstimateTooLarge(num, v1, v0, u0, qhat, rhat);
      qhat := qhat - 1;
      rhat := rhat + v1;
      rounds := rounds + 1;
      if rhat / B != 0 {
        EstimateExhausted(num, v1, v0, u0, qhat, rhat);
        break;
      }
    }
    EstimateExit(num, v1, v0, u0, qhat, rhat);
  }

  /** `qhat + 1` already exceeds the true quotient or is no digit at all. */
  ghost predicate Above(u3: int, v2: int, qhat: int) {
    qhat + 1 >= B || u3 < (qhat + 1) * v2
  }

  lemma EstimateStart(num: int, v1: Limb, v0: Limb, u0: Limb, qhat: int, rhat: int)
    requires 0 < v1 && 0 <= num && qhat == num / v1 && rhat == num % v1
    ensures 0 <= qhat && 0 <= rhat < v1 && num == qhat * v1 + rhat
    ensures Above(num * B + u0, v1 * B + v0, qhat)
  {
    QuotientBounds(num, v1);
    assert (qhat + 1) * v1 >= num + 1 by { assert (qhat + 1) * v1 == qhat * v1 + v1; }
    TopDigits(num, v1, v0, u0, qhat + 1);
  }

  /** A digit that beats the leading limb beats the leading two. */
  lemma TopDigits(num: int, v1: Limb, v0: Limb, u0: Limb, k: int)
    requires 0 <= k && num + 1 <= k * v1
    ensures num * B + u0 < k * (v1 * B + v0)
  {
    assert k * (v1 * B + v0) == (k * v1) * B + k * v0;
    MulMono(0, k, v0);
  }

  /** qhat * v2 against u3, through the remainder of the leading division. */
  lemma Residual(num: int, v1: Limb, v0: Limb, u0: Limb, qhat: int, rhat: int)
    requires num == qhat * v1 + rhat
    ensures num * B + u0 - qhat * (v1 * B + v0) == rhat * B + u0 - qhat * v0
  {
    assert qhat * (v1 * B + v0) == (qhat * v1) * B + qhat * v0;
  }

  lemma EstimateTooLarge(num: int, v1: Limb, v0: Limb, u0: Limb, qhat: int, rhat: int)
    requires B <= 2 * v1 && 0 <= rhat && num == qhat * v1 + rhat && 0 <= qhat
    requires qhat / B != 0 || (qhat % B) * v0 > rhat * B + u0
    ensures 0 < qhat && Above(num * B + u0, v1 * B + v0, qhat - 1)
    ensures num == (qhat - 1) * v1 + (rhat + v1)
  {
    assert (qhat - 1) * v1 == qhat * v1 - v1;
    if qhat < B {
      Residual(num, v1, v0, u0, qhat, rhat);
    }
  }

  lemma EstimateExhausted(num: int, v1: Limb, v0: Limb, u0: Limb, qhat: int, rhat: int)
    requires 0 <= qhat && B <= 2 * v1 && B <= rhat && num == qhat * v1 + rhat && num < (v1 + 1) * B
    ensures qhat < B && qhat * v0 <= rhat * B + u0
  {
    if B <= qhat {
      MulMono(B, qhat, v1);
    }
    MulMono(qhat, B, v0);
  }

  lemma EstimateExit(num: int, v1: Limb, v0: Limb, u0: Limb, qhat: int, rhat: int)
    requires num == qhat * v1 + rhat && qhat * v0 <= rhat * B + u0
    ensures qhat * (v1 * B + v0) <= num * B + u0
  {
    Residual(num, v1, v0, u0, qhat, rhat);
  }

  /** The digit theorem: against any divisor and dividend with these leading limbs, the estimate is
      the true quotient digit or one more. */
  lemma DigitTheorem(u3: int, v2: int, ulow: int, vlow: int, p: int, u: int, v: int, qhat: int)
    requires 0 <= ulow < p && 0 <= vlow < p && u == u3 * p + ulow && v == v2 * p + vlow
    requires B <= v2 && u < B * v
    requires 0 <= qhat < B && qhat * v2 <= u3 && Above(u3, v2, qhat)
    ensures qhat * v - v <= u < qhat * v + v
  {
    DigitNotBelow(u3, v2, ulow, vlow, p, u, v, qhat);
    DigitAtMostOneMore(u3, v2, ulow, vlow, p, u, v, qhat);
  }

  /** (qhat + 1) * v > u */
  lemma DigitNotBelow(u3: int, v2: int, ulow: int, vlow: int, p: int, u: int, v: int, qhat: int)
    requires 0 <= ulow < p && 0 <= vlow < p && u == u3 * p + ulow && v == v2 * p + vlow
    requires u < B * v && 0 <= qhat < B && Above(u3, v2, qhat)
    ensures u < qhat * v + v
  {
    if qhat + 1 >= B {
      assert qhat * v + v == B * v;
    } else {
      MulMono(u3 + 1, (qhat + 1) * v2, p);
      assert (qhat + 1) * (v2 * p) == ((qhat + 1) * v2) * p;
      MulMono(0, qhat + 1, vlow);
      assert (qhat + 1) * v == (qhat + 1) * (v2 * p) + (qhat + 1) * vlow;
    }
  }

  /** (qhat - 1) * v <= u */
  lemma DigitAtMostOneMore(u3: int, v2: int, ulow: int, vlow: int, p: int, u: int, v: int, qhat: int)
    requires 0 <= ulow < p && 0 <= vlow < p && u == u3 * p + ulow && v == v2 * p + vlow
    requires B <= v2 && 0 <= qhat < B && qhat * v2 <= u3
    ensures qhat * v - v <= u
  {
    assert v2 * p <= v <= (v2 + 1) * p;
    if 0 < qhat {
      MulMono(v, (v2 + 1) * p, qhat - 1);
      LowerStep(u3, v2, p, qhat);
    } else {
      MulMono(0, u3, p);
      MulMono(0, v2, p);
    }
  }

  lemma LowerStep(u3: int, v2: int, p: int, qhat: int)
    requires 0 < p && 0 < qhat < B <= v2 && qhat * v2 <= u3
    ensures ((v2 + 1) * p) * (qhat - 1) <= u3 * p
  {
    assert (v2 + 1) * (qhat - 1) == qhat * v2 - v2 + qhat - 1;
    MulMono((v2 + 1) * (qhat - 1), u3, p);
    assert ((v2 + 1) * p) * (qhat - 1) == ((v2 + 1) * (qhat - 1)) * p;
  }

  //////////////////////////////////////////////////////////////////////////////
  // D4 to D6: multiply, subtract and add back
  //////////////////////////////////////////////////////////////////////////////

  /** D4: subtracts qh * vn from the n + 1 limbs of `un` at `j`, modulo B^(n+1). */
  method MultiplySubtract(un: array<Limb>, j: nat, vn: array<Limb>, n: nat, qh: Limb) returns (negative: bool)
    requires un != vn && j + n < un.Length && n <= vn.Length
    modifies un
    ensures SameOutside(old(un[..]), un[..], j, j + n + 1)
    ensures Val(un[..][j..j + n + 1]) ==
            Val(old(un[..])[j..j + n + 1]) - qh * Val(vn[..n]) + (if negative then BPow(n + 1) else 0)
  {
    ghost var was, v := un[..], vn[..];
    assert v[..n] == vn[..n];
    var mulCarry, borrow := MultiplySubtractLoop(un, j, vn, n, qh);
    var d := Wide(un[j + n] as int - mulCarry - borrow);
    MultiplySubtractTop(was, un[..], v, j, n, qh, mulCarry, borrow);
    SetLimb(un, j + n, Low(d));
    negative := High(d) != 0;
  }

  method MultiplySubtractLoop(un: array<Limb>, j: nat, vn: array<Limb>, n: nat, qh: Limb)
    returns (mulCarry: Limb, borrow: Limb)
    requires un != vn && j + n < un.Length && n <= vn.Length
    modifies un
    ensures borrow <= 1 && Subtracted(old(un[..]), un[..], vn[..], j, n, qh, mulCarry as int + borrow as int)
  {
    ghost var was, now, v := un[..], un[..], vn[..];
    mulCarry := 0;
    borrow := 0;
    for i := 0 to n
      invariant borrow <= 1 && un[..] == now
      invariant Subtracted(was, now, v, j, i, qh, mulCarry + borrow)
    {
      now, mulCarry, borrow := MultiplySubtractOne(was, now, un, j, vn, n, i, qh, mulCarry, borrow);
    }
  }

  /** One round of that loop. */
  method MultiplySubtractOne(ghost was: seq<Limb>, ghost before: seq<Limb>, un: array<Limb>, j: nat, vn: array<Limb>,
                             n: nat, i: nat, qh: Limb, mulCarry: Limb, borrow: Limb)
    returns (ghost now: seq<Limb>, mulCarry': Limb, borrow': Limb)
    requires un != vn && j + n < un.Length == |was| && i < n <= vn.Length && un[..] == before
    requires borrow <= 1 && Subtracted(was, before, vn[..], j, i, qh, mulCarry as int + borrow as int)
    modifies un
    ensures un[..] == now && |now| == |was| && borrow' <= 1
    ensures Subtracted(was, now, vn[..], j, i + 1, qh, mulCarry' as int + borrow' as int)
  {
    var p := MulAdd(qh, vn[i], 0, mulCarry);
    var d := Wide(un[i + j] - Low(p) - borrow);
    MultiplySubtractStep(was, before, vn[..], j, i, qh, mulCarry, borrow);
    SetLimb(un, i + j, Low(d));
    now := before[i + j := Low(d)];
    mulCarry', borrow' := High(p), High(d) % 2;
  }

  /** The D4 loop after `i` limbs, with `c` still to be taken from the limb above. */
  ghost predicate Subtracted(was: seq<Limb>, now: seq<Limb>, vn: seq<Limb>, j: nat, i: nat, qh: Limb, c: int)
    requires j + i <= |was| && i <= |vn|
  {
    && SameOutside(was, now, j, j + i)
    && Val(now[j..j + i]) + qh * Val(vn[..i]) == Val(was[j..j + i]) + c * BPow(i)
  }

  lemma MultiplySubtractStep(was: seq<Limb>, before: seq<Limb>, vn: seq<Limb>, j: nat, i: nat, qh: Limb,
                             mulCarry: Limb, borrow: Limb)
    requires j + i < |was| && i < |vn| && borrow <= 1
    requires Subtracted(was, before, vn, j, i, qh, mulCarry + borrow)
    ensures var p := MulAdd(qh, vn[i], 0, mulCarry);
            var d := Wide(before[j + i] - Low(p) - borrow);
            Subtracted(was, before[j + i := Low(d)], vn, j, i + 1, qh, High(p) + High(d) % 2)
  {
    var p := MulAdd(qh, vn[i], 0, mulCarry);
    var d := Wide(before[j + i] - Low(p) - borrow);
    SubtractLimb(before[j + i], Low(p), borrow);
    SubtractedNext(was, before, vn, j, i, qh, mulCarry, borrow, Low(d), p, High(p), High(d) % 2);
  }

  lemma SubtractedNext(was: seq<Limb>, before: seq<Limb>, vn: seq<Limb>, j: nat, i: nat, qh: Limb,
                       mulCarry: int, borrow: int, x: Limb, p: int, mulCarry': int, borrow': int)
    requires j + i < |was| && i < |vn| && Subtracted(was, before, vn, j, i, qh, mulCarry + borrow)
    requires p == qh * vn[i] + mulCarry && x == before[j + i] - (p - B * mulCarry') - borrow + B * borrow'
    ensures Subtracted(was, before[j + i := x], vn, j, i + 1, qh, mulCarry' + borrow')
  {
    var after := before[j + i := x];
    WriteLimb(was, before, j, i, x);
    ValSnoc(vn, i);
    SubtractAlgebra(Val(before[j..j + i]), Val(was[j..j + i]), Val(vn[..i]), Val(after[j..j + i + 1]),
                    Val(was[j..j + i + 1]), Val(vn[..i + 1]), BPow(i), BPow(i + 1), before[j + i], vn[i], qh, mulCarry,
                    borrow, x, p, mulCarry', borrow');
  }

  lemma SubtractAlgebra(done: int, was: int, v: int, done': int, was': int, v': int, w: int, w': int,
                        u: int, vi: int, qh: int, mc: int, bw: int, u': int, p: int, mc': int, bw': int)
    requires done + qh * v == was + (mc + bw) * w
    requires done' == done + u' * w && was' == was + u * w && v' == v + vi * w && w' == B * w
    requires p == qh * vi + mc && u' == u - (p - B * mc') - bw + B * bw'
    ensures done' + qh * v' == was' + (mc' + bw') * w'
  {
    MulEq(u' + qh * vi + mc + bw, u + B * (mc' + bw'), w);
    assert qh * v' == qh * v + (qh * vi) * w;
  }

  lemma MultiplySubtractTop(was: seq<Limb>, before: seq<Limb>, vn: seq<Limb>, j: nat, n: nat, qh: Limb,
                            mulCarry: Limb, borrow: Limb)
    requires j + n < |was| && n <= |vn| && borrow <= 1
    requires Subtracted(was, before, vn, j, n, qh, mulCarry + borrow)
    ensures var d := Wide(before[j + n] - mulCarry - borrow);
            var after := before[j + n := Low(d)];
            && SameOutside(was, after, j, j + n + 1)
            && Val(after[j..j + n + 1]) ==
               Val(was[j..j + n + 1]) - qh * Val(vn[..n]) + (if High(d) != 0 then BPow(n + 1) else 0)
  {
    var u := before[j + n];
    var d := Wide(u - mulCarry - borrow);
    var after := before[j + n := Low(d)];
    SubtractLimb(u, mulCarry, borrow);
    WriteLimb(was, before, j, n, after[j + n]);
    TopAlgebra(Val(before[j..j + n]), Val(was[j..j + n]), Val(after[j..j + n + 1]), Val(was[j..j + n + 1]),
               BPow(n), BPow(n + 1), u, mulCarry, borrow, Low(d), qh * Val(vn[..n]), High(d) != 0);
  }

  lemma TopAlgebra(done: int, was: int, done': int, was': int, w: int, w': int, u: int, mc: int, bw: int, u': int,
                   product: int, negative: bool)
    requires done + product == was + (mc + bw) * w
    requires done' == done + u' * w && was' == was + u * w && w' == B * w
    requires u' == u - mc - bw + (if negative then B else 0)
    ensures done' == was' - product + (if negative then w' else 0)
  {
    MulEq(u' + mc + bw, u + (if negative then B else 0), w);
  }

  /** D6: adds vn back into the n + 1 limbs of `un` at `j`. When the window holds a wrapped negative no
      deeper than vn, the addition carries out of the window, which undoes the borrow of D4. */
  method AddBack(un: array<Limb>, j: nat, vn: array<Limb>, n: nat) returns (carry: Limb)
    requires un != vn && j + n < un.Length && n <= vn.Length
    requires BPow(n + 1) <= Val(un[..][j..j + n + 1]) + Val(vn[..n])
    modifies un
    ensures carry == 1 && old(un[j + n]) == B - 1
    ensures SameOutside(old(un[..]), un[..], j, j + n + 1)
    ensures Val(un[..][j..j + n + 1]) == Val(old(un[..])[j..j + n + 1]) + Val(vn[..n]) - BPow(n + 1)
  {
    ghost var was, v := un[..], vn[..];
    assert v[..n] == vn[..n];
    carry := AddBackLoop(un, j, vn, n);
    AddBackTop(was, un[..], v, j, n, carry);
    SetLimb(un, j + n, Low(un[j + n] + carry));
  }

  method AddBackLoop(un: array<Limb>, j: nat, vn: array<Limb>, n: nat) returns (carry: Limb)
    requires un != vn && j + n < un.Length && n <= vn.Length
    modifies un
    ensures carry <= 1 && Added(old(un[..]), un[..], vn[..], j, n, carry)
  {
    ghost var was, now, v := un[..], un[..], vn[..];
    carry := 0;
    for i := 0 to n
      invariant carry <= 1 && un[..] == now
      invariant Added(was, now, v, j, i, carry)
    {
      var t := Wide(un[i + j] + vn[i] + carry);
      AddBackStep(was, now, v, j, i, carry);
      SetLimb(un, i + j, Low(t));
      now := now[i + j := Low(t)];
      carry := High(t);
    }
  }

  /** The D6 loop after `i` limbs. */
  ghost predicate Added(was: seq<Limb>, now: seq<Limb>, vn: seq<Limb>, j: nat, i: nat, c: int)
    requires j + i <= |was| && i <= |vn|
  {
    && SameOutside(was, now, j, j + i)
    && Val(now[j..j + i]) + c * BPow(i) == Val(was[j..j + i]) + Val(vn[..i])
  }

  lemma AddBackStep(was: seq<Limb>, before: seq<Limb>, vn: seq<Limb>, j: nat, i: nat, carry: Limb)
    requires j + i < |was| && i < |vn|
    requires carry <= 1 && Added(was, before, vn, j, i, carry)
    ensures var t := Wide(before[j + i] + vn[i] + carry);
            High(t) <= 1 && Added(was, before[j + i := Low(t)], vn, j, i + 1, High(t))
  {
    var t := Wide(before[j + i] + vn[i] + carry);
    AddLimb(before[j + i], vn[i], carry);
    AddedNext(was, before, vn, j, i, carry, Low(t), High(t));
  }

  lemma AddedNext(was: seq<Limb>, before: seq<Limb>, vn: seq<Limb>, j: nat, i: nat, carry: Limb, x: Limb, carry': Limb)
    requires j + i < |was| && i < |vn| && Added(was, before, vn, j, i, carry)
    requires x + B * carry' == before[j + i] + vn[i] + carry
    ensures Added(was, before[j + i := x], vn, j, i + 1, carry')
  {
    var after := before[j + i := x];
    WriteLimb(was, before, j, i, x);
    ValSnoc(vn, i);
    AddAlgebra(Val(before[j..j + i]), Val(was[j..j + i]), Val(vn[..i]), Val(after[j..j + i + 1]),
               Val(was[j..j + i + 1]), Val(vn[..i + 1]), BPow(i), BPow(i + 1), before[j + i], vn[i], carry, x, carry');
  }

  lemma AddBackTop(was: seq<Limb>, before: seq<Limb>, vn: seq<Limb>, j: nat, n: nat, carry: Limb)
    requires j + n < |was| && n <= |vn| && carry <= 1
    requires Added(was, before, vn, j, n, carry)
    requires BPow(n + 1) <= Val(was[j..j + n + 1]) + Val(vn[..n])
    ensures carry == 1 && before[j + n] == was[j + n] == B - 1
    ensures var after := before[j + n := Low(before[j + n] + carry)];
            && SameOutside(was, after, j, j + n + 1)
            && Val(after[j..j + n + 1]) == Val(was[j..j + n + 1]) + Val(vn[..n]) - BPow(n + 1)
  {
    var u := before[j + n];
    var after := before[j + n := Low(u + carry)];
    WriteLimb(was, before, j, n, after[j + n]);
    ValBound(before[j..j + n]);
    CarryOut(Val(before[j..j + n]), Val(was[j..j + n]), Val(after[j..j + n + 1]), Val(was[j..j + n + 1]),
             Val(vn[..n]), BPow(n), BPow(n + 1), u, carry, after[j + n]);
  }

  lemma CarryOut(done: int, was: int, done': int, was': int, v: int, w: int, w': int, u: Limb, carry: Limb, u': Limb)
    requires 0 <= done < w && carry <= 1 && done + carry * w == was + v
    requires done' == done + u' * w && was' == was + u * w && w' == B * w && w' <= was' + v
    requires u' == Low(u + carry)
    ensures carry == 1 && u == B - 1 && done' == was' + v - w'
  {
    if u + carry <= B - 1 {
      MulMono(u + carry, B - 1, w);
    }
  }

  /** The three leading limbs of a window of n + 1 >= 3 limbs, and what is below them. */
  lemma LeadingThree(s: seq<Limb>, j: nat, n: nat)
    requires 2 <= n && j + n < |s|
    ensures Val(s[j..j + n + 1]) ==
            ((s[j + n] * B + s[j + n - 1]) * B + s[j + n - 2]) * BPow(n - 2) + Val(s[j..j + n - 2])
  {
    ValWindow(s, j, n);
    LeadingTwo(s, j, n);
    ThreeAlgebra(s[j + n], s[j + n - 1], s[j + n - 2], BPow(n - 2));
    assert BPow(n) == B * BPow(n - 1);
  }

  lemma LeadingTwo(s: seq<Limb>, j: nat, n: nat)
    requires 2 <= n && j + n <= |s|
    ensures Val(s[j..j + n]) == (s[j + n - 1] * B + s[j + n - 2]) * BPow(n - 2) + Val(s[j..j + n - 2])
  {
    ValWindow(s, j, n - 1);
    ValWindow(s, j, n - 2);
    TwoAlgebra(s[j + n - 1], s[j + n - 2], BPow(n - 2));
  }

  lemma TwoAlgebra(a: int, b: int, p: int)
    ensures a * (B * p) + b * p == (a * B + b) * p
  {
  }

  lemma ThreeAlgebra(a: int, b: int, c: int, p: int)
    ensures a * (B * (B * p)) + (b * B + c) * p == ((a * B + b) * B + c) * p
  {
  }

  /** The leading limbs of a window below B * v never exceed the leading limb of v. */
  lemma LeadingBound(u2: Limb, v1: Limb, ulow: int, vlow: int, p: int)
    requires 0 < p && 0 <= ulow && vlow < p && u2 * (B * p) + ulow < B * (v1 * p + vlow)
    ensures u2 <= v1
  {
    if v1 + 1 <= u2 {
      MulMono(v1 + 1, u2, B * p);
    }
  }

  /** D3 to D6 for one digit: one true quotient digit, and the window keeps the remainder. */
  method DivideDigit(un: array<Limb>, j: nat, vn: array<Limb>, n: nat) returns (qh: Limb)
    requires un != vn && 2 <= n <= vn.Length && j + n < un.Length && B / 2 <= vn[n - 1]
    requires Val(un[..][j..j + n + 1]) < B * Val(vn[..n])
    modifies un
    ensures SameOutside(old(un[..]), un[..], j, j + n + 1)
    ensures Val(old(un[..])[j..j + n + 1]) == qh * Val(vn[..n]) + Val(un[..][j..j + n + 1])
    ensures Val(un[..][j..j + n + 1]) < Val(vn[..n])
  {
    ghost var was := un[..];
    ghost var u, v := Val(was[j..j + n + 1]), Val(vn[..n]);
    EstimateReady(was, j, vn[..], n);
    var qhat, rounds := EstimateDigit(un[j + n], un[j + n - 1], un[j + n - 2], vn[n - 1], vn[n - 2]);
    EstimateMeaning(was, j, vn[..], n, qhat);
    qh := qhat;
    var negative := MultiplySubtract(un, j, vn, n, qh);
    ghost var middle := un[..];
    WindowSign(middle, vn[..], j, n, u - qh * v, negative);
    if negative {
      qh := qh - 1;
      var carry := AddBack(un, j, vn, n);
      assert qh * v == qhat * v - v;
    }
  }

  lemma EstimateReady(s: seq<Limb>, j: nat, vn: seq<Limb>, n: nat)
    requires 2 <= n <= |vn| && j + n < |s|
    requires Val(s[j..j + n + 1]) < B * Val(vn[..n])
    ensures s[j + n] <= vn[n - 1]
  {
    ValWindow(s, j, n);
    ValSnoc(vn, n - 1);
    ValBound(vn[..n - 1]);
    LeadingBound(s[j + n], vn[n - 1], Val(s[j..j + n]), Val(vn[..n - 1]), BPow(n - 1));
  }

  lemma EstimateMeaning(s: seq<Limb>, j: nat, vn: seq<Limb>, n: nat, qhat: int)
    requires 2 <= n <= |vn| && j + n < |s| && B / 2 <= vn[n - 1]
    requires Val(s[j..j + n + 1]) < B * Val(vn[..n])
    requires 0 <= qhat < B
    requires qhat * (vn[n - 1] * B + vn[n - 2]) <= (s[j + n] * B + s[j + n - 1]) * B + s[j + n - 2]
    requires qhat < B - 1 ==>
      (s[j + n] * B + s[j + n - 1]) * B + s[j + n - 2] < (qhat + 1) * (vn[n - 1] * B + vn[n - 2])
    ensures qhat * Val(vn[..n]) - Val(vn[..n]) <= Val(s[j..j + n + 1]) < qhat * Val(vn[..n]) + Val(vn[..n])
  {
    LeadingThree(s, j, n);
    LeadingTwo(vn, 0, n);
    ValBound(s[j..j + n - 2]);
    ValBound(vn[..n - 2]);
    DigitTheorem((s[j + n] * B + s[j + n - 1]) * B + s[j + n - 2], vn[n - 1] * B + vn[n - 2], Val(s[j..j + n - 2]),
                 Val(vn[..n - 2]), BPow(n - 2), Val(s[j..j + n + 1]), Val(vn[..n]), qhat);
  }

  /** After D4 the window is the difference, wrapped exactly when the difference is negative. */
  lemma WindowSign(s: seq<Limb>, vn: seq<Limb>, j: nat, n: nat, diff: int, negative: bool)
    requires j + n < |s| && n <= |vn|
    requires Val(s[j..j + n + 1]) == diff + (if negative then BPow(n + 1) else 0)
    requires -Val(vn[..n]) <= diff < Val(vn[..n])
    ensures negative <==> diff < 0
    ensures BPow(n + 1) <= Val(s[j..j + n + 1]) + Val(vn[..n]) || !negative
  {
    ValBound(s[j..j + n + 1]);
    ValBound(vn[..n]);
    assert BPow(n) <= BPow(n + 1);
  }

  //////////////////////////////////////////////////////////////////////////////
  // D1, D2 to D7, D8: the whole division
  //////////////////////////////////////////////////////////////////////////////

  /** The compiler helper behind __builtin_clzll: a mask walks down from bit 63. */
  method CountLeadingZeros(value: Limb) returns (count: nat)
    ensures value == 0 ==> count == 64
    ensures value != 0 ==> count < 64 && Pow2(63 - count) <= value < Pow2(64 - count)
  {
    LimbBase();
    count := 0;
    var mask := Pow2(63);
    while mask != 0 && value / mask % 2 == 0
      invariant count <= 64
      invariant mask == if count == 64 then 0 else Pow2(63 - count)
      invariant value < Pow2(64 - count)
      decreases 64 - count
    {
      TopBit(value, mask);
      mask := mask / 2;
      count := count + 1;
    }
    if mask != 0 { TopBit(value, mask); }
  }

  lemma TopBit(value: int, mask: int)
    requires 0 <= value < 2 * mask
    ensures value / mask % 2 == 0 <==> value < mask
  {
    if value < mask {
      QuotientUnique(value, mask, 0, value);
    } else {
      QuotientUnique(value, mask, 1, value - mask);
    }
  }

  /** The count of leading zeros moves the top bit of v to bit 63. */
  lemma Normalizes(v: Limb, s: nat)
    requires s < 64 && Pow2(63 - s) <= v < Pow2(64 - s)
    ensures B / 2 <= v * Pow2(s) < B && Down(v, 64 - s) == 0 && B / 2 <= Up(v, s)
  {
    LimbWidth(s);
    LeadingBits(v, Pow2(63 - s), Pow2(s));
  }

  lemma LeadingBits(v: Limb, h: int, c: int)
    requires 0 < c && (2 * h) * c == B && h <= v < 2 * h
    ensures B / 2 <= v * c < B && v / (2 * h) == 0 && v * c % B == v * c
  {
    MulMono(h, v, c);
    MulMono(v + 1, 2 * h, c);
    assert (2 * h) * c == 2 * (h * c);
    QuotientUnique(v, 2 * h, 0, v);
  }

  /** D1 for one number: the limbs of x << s, without the bits that leave the top limb. */
  method ShiftInto(x: array<Limb>, len: nat, s: nat, out: array<Limb>)
    requires x != out && 0 < len <= x.Length && len <= out.Length && s < 64
    modifies out
    ensures forall k :: 0 <= k < len ==> out[k] == ShlLimb(x[..], s, k)
    ensures forall k :: len <= k < out.Length ==> out[k] == old(out[k])
  {
    if s == 0 {
      for i := 0 to len
        invariant forall k :: 0 <= k < i ==> out[k] == ShlLimb(x[..], s, k)
        invariant forall k :: len <= k < out.Length ==> out[k] == old(out[k])
      {
        ShlByZero(x[..], i);
        out[i] := x[i];
      }
    } else {
      for i := len downto 1
        invariant 1 <= i
        invariant forall k :: i <= k < len ==> out[k] == ShlLimb(x[..], s, k)
        invariant forall k :: len <= k < out.Length ==> out[k] == old(out[k])
      {
        out[i] := ShlJoin(x[i], x[i - 1], s);
      }
      out[0] := Up(x[0], s);
    }
  }

  lemma ShlByZero(x: seq<Limb>, i: nat)
    requires i < |x|
    ensures ShlLimb(x, 0, i) == x[i]
  {
    LimbBase();
    if i > 0 { QuotientUnique(x[i - 1], B, 0, x[i - 1]); }
  }

  /** D8: the limbs of x >> s. */
  method ShiftOut(x: array<Limb>, n: nat, s: nat, out: array<Limb>)
    requires x != out && 0 < n <= x.Length && n <= out.Length && s < 64
    modifies out
    ensures forall k :: 0 <= k < n ==> out[k] == ShrLimb(x[..n], s, k)
    ensures forall k :: n <= k < out.Length ==> out[k] == old(out[k])
  {
    if s == 0 {
      for i := 0 to n
        invariant forall k :: 0 <= k < i ==> out[k] == ShrLimb(x[..n], s, k)
        invariant forall k :: n <= k < out.Length ==> out[k] == old(out[k])
      {
        out[i] := x[i];
      }
    } else {
      for i := 0 to n - 1
        invariant forall k :: 0 <= k < i ==> out[k] == ShrLimb(x[..n], s, k)
        invariant forall k :: n <= k < out.Length ==> out[k] == old(out[k])
      {
        out[i] := ShrJoin(x[i + 1], x[i], s);
      }
      out[n - 1] := Down(x[n - 1], s);
    }
  }

  /** The state of D2 to D7 once the digits from `j` up are known: the lower j + n limbs of `un` hold
      what is left of `total`, and their top n limbs are below the divisor. */
  ghost predicate Divided(un: seq<Limb>, q: seq<Limb>, j: nat, n: nat, v: int, total: int)
    requires j <= |q| && |q| + n <= |un|
  {
    Val(un[..j + n]) + (Val(q[j..]) * BPow(j)) * v == total && Val(un[j..j + n]) < v
  }

  lemma WindowBelow(un: seq<Limb>, q: seq<Limb>, j: nat, n: nat, v: int, total: int)
    requires j < |q| && |q| + n <= |un|
    requires Divided(un, q, j + 1, n, v, total)
    ensures Val(un[j..j + n + 1]) < B * v
  {
    WindowCons(un, j, n);
  }

  lemma WindowCons(s: seq<Limb>, j: nat, n: nat)
    requires j + n < |s|
    ensures Val(s[j..j + n + 1]) == s[j] + B * Val(s[j + 1..j + 1 + n])
  {
    assert s[j..j + n + 1][1..] == s[j + 1..j + 1 + n];
    ValCons(s[j..j + n + 1]);
  }

  lemma DividedStep(was: seq<Limb>, now: seq<Limb>, q: seq<Limb>, j: nat, n: nat, v: int, total: int, digit: Limb)
    requires j < |q| && |q| + n <= |was| && SameOutside(was, now, j, j + n + 1)
    requires Divided(was, q, j + 1, n, v, total)
    requires Val(was[j..j + n + 1]) == digit * v + Val(now[j..j + n + 1])
    requires Val(now[j..j + n + 1]) < v < BPow(n)
    ensures Divided(now, q[j := digit], j, n, v, total)
  {
    PushDigit(q, j, digit);
    TopLimbClear(now, j, n);
    RoundValue(was, now, j, n, v, total, digit, Val(q[j + 1..]), Val(q[j := digit][j..]));
  }

  lemma RoundValue(was: seq<Limb>, now: seq<Limb>, j: nat, n: nat, v: int, total: int, digit: Limb, q: int, q': int)
    requires j + n < |was| == |now| && was[..j] == now[..j] && q' == digit + B * q
    requires Val(was[j..j + n + 1]) == digit * v + Val(now[j..j + n])
    requires Val(was[..j + n + 1]) + (q * BPow(j + 1)) * v == total
    ensures Val(now[..j + n]) + (q' * BPow(j)) * v == total
  {
    SplitWindow(was, j, j + n + 1);
    SplitWindow(now, j, j + n);
    RoundAlgebra(Val(was[..j]), Val(was[..j + n + 1]), Val(now[..j + n]), Val(was[j..j + n + 1]), Val(now[j..j + n]),
                 q, q', BPow(j), BPow(j + 1), v, digit, total);
  }

  lemma PushDigit(q: seq<Limb>, j: nat, digit: Limb)
    requires j < |q|
    ensures Val(q[j := digit][j..]) == digit + B * Val(q[j + 1..])
  {
    var t := q[j := digit][j..];
    assert t[1..] == q[j + 1..];
    ValCons(t);
  }

  lemma TopLimbClear(s: seq<Limb>, j: nat, n: nat)
    requires j + n < |s| && Val(s[j..j + n + 1]) < BPow(n)
    ensures s[j + n] == 0 && Val(s[j..j + n + 1]) == Val(s[j..j + n])
  {
    ValWindow(s, j, n);
    ZeroTop(Val(s[j..j + n]), s[j + n], BPow(n));
  }

  lemma RoundAlgebra(low: int, all: int, all': int, window: int, left: int, q: int, q': int, p: int, p': int,
                     v: int, digit: int, total: int)
    requires p' == B * p && window == digit * v + left && q' == digit + B * q
    requires all == low + p * window && all' == low + p * left
    requires all + (q * p') * v == total
    ensures all' + (q' * p) * v == total
  {
    assert p * window == p * (digit * v) + p * left;
    assert q' * p == digit * p + q * p';
    assert (digit * p + q * p') * v == p * (digit * v) + (q * p') * v;
  }

  /** D2 to D7: one quotient limb per round, most significant first. */
  method DivideDigits(un: array<Limb>, m: nat, vn: array<Limb>, n: nat, q: array<Limb>)
    requires un != vn && un != q && vn != q && 2 <= n <= m < un.Length && n <= vn.Length && m - n < q.Length
    requires B / 2 <= vn[n - 1] && Val(un[..][m - n + 1..m + 1]) < Val(vn[..n])
    modifies un, q
    ensures Val(un[..n]) + Val(q[..m - n + 1]) * Val(vn[..n]) == Val(old(un[..])[..m + 1])
    ensures Val(un[..n]) < Val(vn[..n])
    ensures forall k :: m - n + 1 <= k < q.Length ==> q[k] == old(q[k])
  {
    ghost var v, total := Val(vn[..n]), Val(un[..][..m + 1]);
    ghost var qs := q[..m - n + 1];
    assert qs[m - n + 1..] == [];
    for j := m - n + 1 downto 0
      invariant qs == q[..m - n + 1] && Divided(un[..], qs, j, n, v, total)
      invariant forall k :: m - n + 1 <= k < q.Length ==> q[k] == old(q[k])
    {
      ghost var was := un[..];
      WindowBelow(was, qs, j, n, v, total);
      var digit := DivideDigit(un, j, vn, n);
      q[j] := digit;
      ValBound(vn[..n]);
      DividedStep(was, un[..], qs, j, n, v, total, digit);
      qs := qs[j := digit];
    }
    DividedEnd(un[..], qs, n, v, total);
    assert un[..][..n] == un[..n];
  }

  lemma DividedEnd(un: seq<Limb>, q: seq<Limb>, n: nat, v: int, total: int)
    requires |q| + n <= |un| && Divided(un, q, 0, n, v, total)
    ensures Val(un[..n]) + Val(q) * v == total && Val(un[..n]) < v
  {
    assert q[0..] == q && un[0..n] == un[..n];
    assert Val(q) * BPow(0) == Val(q);
  }

  /** Divides u (m limbs) by v (n limbs): an (m - n + 1)-limb quotient and an n-limb remainder. */
  method KnuthDivRem(u: array<Limb>, m: nat, v: array<Limb>, n: nat, q: array<Limb>, r: array<Limb>)
    requires 2 <= n <= m <= 8 && m <= u.Length && n <= v.Length && v[n - 1] != 0
    requires m - n + 1 <= q.Length && n <= r.Length
    requires q != u && q != v && r != u && r != v && q != r
    modifies q, r
    ensures Val(u[..m]) == Val(q[..m - n + 1]) * Val(v[..n]) + Val(r[..n])
    ensures Val(r[..n]) < Val(v[..n])
    ensures forall k :: m - n + 1 <= k < q.Length ==> q[k] == old(q[k])
    ensures forall k :: n <= k < r.Length ==> r[k] == old(r[k])
  {
    var un := new Limb[9];
    var vn := new Limb[8];
    var s := Normalize(u, m, v, n, un, vn);
    DivideDigits(un, m, vn, n, q);
    ShiftOut(un, n, s, r);
    DenormalizedEnd(un[..n], r[..n], s, Val(u[..m]), Val(v[..n]), Val(q[..m - n + 1]));
  }

  /** D1: scales both numbers so that the highest bit of the divisor is set. */
  method Normalize(u: array<Limb>, m: nat, v: array<Limb>, n: nat, un: array<Limb>, vn: array<Limb>) returns (s: nat)
    requires 2 <= n <= m <= u.Length && n <= v.Length && v[n - 1] != 0 && m < un.Length && n <= vn.Length
    requires un != vn && un != u && un != v && vn != u && vn != v
    modifies un, vn
    ensures s < 64 && B / 2 <= vn[n - 1]
    ensures Val(vn[..n]) == Val(v[..n]) * Pow2(s) && Val(un[..m + 1]) == Val(u[..m]) * Pow2(s)
    ensures Val(un[..][m - n + 1..m + 1]) < Val(vn[..n])
  {
    s := CountLeadingZeros(v[n - 1]);
    ShiftInto(v, n, s, vn);
    un[m] := if s == 0 then 0 else Down(u[m - 1], 64 - s);
    ShiftInto(u, m, s, un);
    NormalizedStart(u[..], m, v[..], n, s, un[..], vn[..]);
    assert u[..][..m] == u[..m] && v[..][..n] == v[..n] && vn[..][..n] == vn[..n] && un[..][..m + 1] == un[..m + 1];
  }

  /** D1 scales both numbers by 2^s, keeps every bit, and starts D2 in the invariant. */
  lemma NormalizedStart(u: seq<Limb>, m: nat, v: seq<Limb>, n: nat, s: nat, un: seq<Limb>, vn: seq<Limb>)
    requires 2 <= n <= m <= |u| && n <= |v| && |un| > m && |vn| >= n && s < 64
    requires Pow2(63 - s) <= v[n - 1] < Pow2(64 - s)
    requires forall k :: 0 <= k < n ==> vn[k] == ShlLimb(v, s, k)
    requires forall k :: 0 <= k < m ==> un[k] == ShlLimb(u, s, k)
    requires un[m] == if s == 0 then 0 else Down(u[m - 1], 64 - s)
    ensures B / 2 <= vn[n - 1]
    ensures Val(vn[..n]) == Val(v[..n]) * Pow2(s)
    ensures Val(un[..m + 1]) == Val(u[..m]) * Pow2(s)
    ensures Val(un[m - n + 1..m + 1]) < Val(vn[..n])
  {
    Normalizes(v[n - 1], s);
    ShlValue(v, vn, s, n);
    ShlValue(u, un, s, m);
    ValSnoc(un, m);
    if s == 0 {
      LimbBase();
      QuotientUnique(u[m - 1], B, 0, u[m - 1]);
    }
    ShiftBreaks(u[m - 1], s);
    HalfBase(s);
    TopBelow(un, m, vn, n);
  }

  /** The top limb decides that the leading window is below the divisor. */
  lemma TopBelow(un: seq<Limb>, m: nat, vn: seq<Limb>, n: nat)
    requires 1 <= n <= m < |un| && n <= |vn| && un[m] < vn[n - 1]
    ensures Val(un[m - n + 1..m + 1]) < Val(vn[..n])
  {
    ValWindow(un, m - n + 1, n - 1);
    ValBound(un[m - n + 1..m]);
    ValSnoc(vn, n - 1);
    SmallerTop(Val(un[m - n + 1..m]), Val(vn[..n - 1]), un[m], vn[n - 1], BPow(n - 1));
  }

  lemma HalfBase(s: nat)
    requires s < 64
    ensures Pow2(s) <= B / 2
  {
    LimbWidth(s);
    MulMono(2, Pow2(64 - s), Pow2(s));
  }

  lemma DenormalizedEnd(un: seq<Limb>, r: seq<Limb>, s: nat, u: int, v: int, q: int)
    requires s < 64 && 0 < |un| == |r|
    requires forall k :: 0 <= k < |un| ==> r[k] == ShrLimb(un, s, k)
    requires Val(un) + q * (v * Pow2(s)) == u * Pow2(s)
    requires Val(un) < v * Pow2(s)
    ensures u == q * v + Val(r) && Val(r) < v
  {
    ScaledDifference(Val(un), u, v, q, Pow2(s));
    ShrExact(un, r, s, u - q * v);
    if v <= Val(r) { MulMono(v, Val(r), Pow2(s)); }
  }

  lemma ScaledDifference(x: int, u: int, v: int, q: int, c: int)
    requires x + q * (v * c) == u * c
    ensures x == (u - q * v) * c
  {
  }
}

/** The two's-complement bridges of the 768-bit runtime. */
module TwosComplement {
  import opened Limbs
  import opened Shifts
  import opened BitSerial
  import opened Magnitude
  import opened SailInt

  /** The integer that two's-complement limbs denote. */
  ghost function SignedValue(s: seq<Limb>): int {
    if s == [] || Down(s[|s| - 1], 63) == 0 then Val(s) else Val(s) - BPow(|s|)
  }

  /** The sign bit splits the range in half. */
  lemma SignBit(s: seq<Limb>)
    requires s != []
    ensures Down(s[|s| - 1], 63) == 0 <==> 2 * Val(s) < BPow(|s|)
    ensures Val(s) < BPow(|s|)
  {
    var n := |s| - 1;
    HighBit(s[n]);
    ValBound(s);
    ValBound(s[..n]);
    assert s[..n + 1] == s;
    ValSnoc(s, n);
    SignAlgebra(Val(s[..n]), s[n], BPow(n));
  }

  lemma SignAlgebra(low: int, x: Limb, p: int)
    requires 0 <= low < p
    ensures x < B / 2 <==> 2 * (low + x * p) < B * p
  {
    if x < B / 2 { MulMono(x + 1, B / 2, p); } else { MulMono(B / 2, x, p); }
  }

  /** Export then import is the identity on every integer in the signed range of k limbs. */
  lemma ExportImport(s: seq<Limb>, x: int)
    requires Val(s) == x % BPow(|s|) && -BPow(|s|) <= 2 * x < BPow(|s|)
    ensures SignedValue(s) == x
  {
    var p := BPow(|s|);
    if 0 <= x { QuotientUnique(x, p, 0, x); } else { QuotientUnique(x, p, -1, x + p); }
    if s != [] { SignBit(s); }
  }

  /** ~x, limb by limb. */
  function Complement(s: seq<Limb>): (t: seq<Limb>)
    ensures |t| == |s|
  {
    seq(|s|, i requires 0 <= i < |s| => (B - 1 - s[i]) as Limb)
  }

  lemma {:induction false} ComplementValue(s: seq<Limb>)
    ensures Val(Complement(s)) == BPow(|s|) - 1 - Val(s)
  {
    if s != [] {
      var n := |s| - 1;
      assert Complement(s)[..n] == Complement(s[..n]);
      assert s[..n + 1] == s && Complement(s)[..n + 1] == Complement(s);
      ComplementValue(s[..n]);
      ValSnoc(s, n);
      ValSnoc(Complement(s), n);
      ComplementAlgebra(s[n], BPow(n));
    }
  }

  lemma ComplementAlgebra(x: int, p: int)
    ensures (B - 1 - x) * p == B * p - p - x * p
  {
  }

  /** Adding one, the carry walking up from limb 0. */
  ghost predicate Incremented(was: seq<Limb>, now: seq<Limb>, i: nat, carry: Limb)
    requires i <= |was| == |now|
  {
    carry <= 1 && now[i..] == was[i..] && Val(now[..i]) + (if carry == 0 then 0 else BPow(i)) == Val(was[..i]) + 1
  }

  lemma IncrementStep(was: seq<Limb>, now: seq<Limb>, i: nat, carry: Limb)
    requires i < |was| == |now| && Incremented(was, now, i, carry)
    ensures now[i] == was[i]
    ensures Incremented(was, now[i := Low(was[i] + carry)], i + 1, if Low(was[i] + carry) < was[i] then 1 else 0)
  {
    var x := Low(was[i] + carry);
    assert now[i] == now[i..][0];
    assert now[i := x][i + 1..] == now[i..][1..] == was[i + 1..];
    ValPut(now, i, x);
    ValSnoc(was, i);
    IncrementAlgebra(Val(now[..i]), Val(was[..i]), Val(now[i := x][..i + 1]), Val(was[..i + 1]), BPow(i), BPow(i + 1),
                     was[i], carry, x, if x < was[i] then 1 else 0);
  }

  lemma IncrementAlgebra(now: int, was: int, now': int, was': int, w: int, w': int, x: int, c: int, y: int, c': int)
    requires 0 <= c <= 1 && 0 <= c' <= 1 && x + c == y + B * c'
    requires now + (if c == 0 then 0 else w) == was + 1
    requires now' == now + y * w && was' == was + x * w && w' == B * w
    ensures now' + (if c' == 0 then 0 else w') == was' + 1
  {
    var yw, xw := y * w, x * w;
    if c == 0 && c' == 0 {
      assert y == x;
    } else if c == 1 && c' == 0 {
      ScaleSum(x, 1, w, y);
    } else if c == 0 {
      ScaleSum(x, -B, w, y);
    } else {
      ScaleSum(x, 1 - B, w, y);
    }
  }

  lemma ScaleSum(x: int, k: int, w: int, y: int)
    requires y == x + k
    ensures y * w == x * w + k * w
  {
  }

  lemma IncrementDone(was: seq<Limb>, now: seq<Limb>, i: nat, carry: Limb)
    requires i <= |was| == |now| && Incremented(was, now, i, carry) && (i == |was| || carry == 0)
    ensures Val(now) == (Val(was) + 1) % BPow(|was|)
  {
    ValBound(now);
    if i == |was| {
      assert now[..i] == now && was[..i] == was;
      ModOf(Val(was) + 1, Val(now), BPow(|was|), carry);
    } else {
      ValSplit(was, i);
      ValSplit(now, i);
      ModOf(Val(was) + 1, Val(now), BPow(|was|), 0);
    }
  }

  lemma ModOf(v: int, low: int, p: int, high: int)
    requires v == low + high * p && 0 <= low < p
    ensures low == v % p
  {
    QuotientUnique(v, p, high, low);
  }

  /** The carry loop of the export over the first `count` limbs. */
  method Increment(limbs: array<Limb>, count: nat)
    requires count <= limbs.Length
    modifies limbs
    ensures Val(limbs[..count]) == (Val(old(limbs[..count])) + 1) % BPow(count)
    ensures limbs[count..] == old(limbs[count..])
  {
    ghost var was, now := limbs[..count], limbs[..count];
    var carry: Limb := 1;
    var i := 0;
    while i < count && carry != 0
      invariant i <= count && limbs[..count] == now && Incremented(was, now, i, carry)
      invariant limbs[count..] == old(limbs[count..])
    {
      IncrementStep(was, now, i, carry);
      var before := limbs[i];
      limbs[i] := Low(before + carry);
      now := now[i := Low(before + carry)];
      carry := if limbs[i] < before then 1 else 0;
      i := i + 1;
    }
    IncrementDone(was, now, i, carry);
  }

  /** The low `count` limbs of a magnitude are the magnitude modulo B^count. */
  lemma LowLimbs(s: seq<Limb>, t: seq<Limb>)
    requires forall i :: 0 <= i < |t| ==> t[i] == if i < |s| then s[i] else 0
    ensures Val(t) == Val(s) % BPow(|t|)
  {
    ValBound(t);
    if |s| <= |t| {
      PaddedValue(s, t);
      ModOf(Val(s), Val(t), BPow(|t|), 0);
    } else {
      TruncatedValue(s, t);
      ModOf(Val(s), Val(t), BPow(|t|), Val(s[|t|..]));
    }
  }

  lemma PaddedValue(s: seq<Limb>, t: seq<Limb>)
    requires |s| <= |t| && forall i :: 0 <= i < |t| ==> t[i] == if i < |s| then s[i] else 0
    ensures Val(t) == Val(s)
  {
    assert t[..|s|] == s;
    ValTrailingZeros(t, |s|);
  }

  lemma TruncatedValue(s: seq<Limb>, t: seq<Limb>)
    requires |t| <= |s| && forall i :: 0 <= i < |t| ==> t[i] == s[i]
    ensures Val(s) == Val(t) + Val(s[|t|..]) * BPow(|t|)
  {
    assert s[..|t|] == t;
    ValSplit(s, |t|);
  }

  /** Complement plus one negates modulo p. */
  lemma NegationMod(m: int, p: int)
    requires 0 <= m && 1 <= p
    ensures (p - 1 - m % p + 1) % p == -m % p
  {
    QuotientBounds(m, p);
    if m % p == 0 {
      QuotientUnique(p, p, 1, 0);
      QuotientUnique(-m, p, -(m / p), 0);
    } else {
      QuotientUnique(p - m % p, p, 0, p - m % p);
      assert -(m / p + 1) * p == -((m / p) * p) - p;
      QuotientUnique(-m, p, -(m / p + 1), p - m % p);
    }
  }

  /** sail_int_to_u64_array: the value modulo B^count, for every integer and every count. */
  method ToArray(limbs: array<Limb>, count: nat, value: Int)
    requires value.Valid() && count <= limbs.Length && limbs != value.limbs
    modifies limbs
    ensures Val(limbs[..count]) == value.Value() % BPow(count)
    ensures limbs[count..] == old(limbs[count..])
  {
    ghost var s, m := value.limbs[..value.length], value.Size();
    ghost var t := seq(count, i requires 0 <= i < count => if i < |s| then s[i] else 0);
    LowLimbs(s, t);
    for i := 0 to count
      invariant forall k :: 0 <= k < i ==> limbs[k] == if value.negative then B - 1 - t[k] else t[k]
      invariant limbs[count..] == old(limbs[count..])
    {
      var limb := if i < value.length then value.limbs[i] else 0;
      limbs[i] := if value.negative then B - 1 - limb else limb;
    }
    if value.negative {
      assert limbs[..count] == Complement(t);
      ComplementValue(t);
      Increment(limbs, count);
      NegationMod(m, BPow(count));
    } else {
      assert limbs[..count] == t;
    }
  }

  /** sail_int_from_u64_array: the unsigned value. */
  method FromUnsignedArray(result: Int, limbs: array<Limb>, count: nat) returns (ok: bool)
    requires count <= limbs.Length && result.limbs.Length == LIMBS && limbs != result.limbs
    modifies result, result.limbs
    ensures ok <==> count <= LIMBS
    ensures ok ==> result.Valid() && result.Value() == Val(limbs[..count])
  {
    if count > LIMBS { return false; }
    var used := LimbsUsed(limbs, count);
    CopyPrefix(limbs, used, result.limbs);
    assert used > 0 ==> result.limbs[used - 1] == result.limbs[..used][used - 1];
    Finish(result, used, false);
    ok := true;
  }

  /** sail_int_from_twos_complement_u64_array: the signed value; traps only on more than twelve limbs. */
  method FromArray(result: Int, limbs: array<Limb>, count: nat) returns (ok: bool)
    requires count <= limbs.Length && result.limbs.Length == LIMBS && limbs != result.limbs
    modifies result, result.limbs
    ensures ok <==> count <= LIMBS
    ensures ok ==> result.Valid() && result.Value() == SignedValue(limbs[..count])
  {
    if count > LIMBS { return false; }
    if count == 0 || Down(limbs[count - 1], 63) == 0 {
      ok := FromUnsignedArray(result, limbs, count);
      return;
    }
    var used := NegateInto(result.limbs, limbs, count);
    Finish(result, used, true);
    ok := true;
  }

  /** Export, then import: the value comes back from every count of limbs whose signed range holds it. */
  method ExportThenImport(value: Int, limbs: array<Limb>, count: nat, result: Int) returns (ok: bool)
    requires value.Valid() && count <= limbs.Length && count <= LIMBS && result.limbs.Length == LIMBS
    requires limbs != value.limbs && limbs != result.limbs
    requires -BPow(count) <= 2 * value.Value() < BPow(count)
    modifies limbs, result, result.limbs
    ensures ok && result.Valid() && result.Value() == old(value.Value())
  {
    ghost var x := value.Value();
    ToArray(limbs, count, value);
    ExportImport(limbs[..count], x);
    ok := FromArray(result, limbs, count);
  }

  /** The negation loop of the import: complement and carry in one pass, then trim. */
  method NegateInto(out: array<Limb>, limbs: array<Limb>, count: nat) returns (used: nat)
    requires 0 < count <= limbs.Length && count <= out.Length == LIMBS && limbs != out
    requires Down(limbs[count - 1], 63) != 0
    modifies out
    ensures Normal(out[..], used) && Val(out[..used]) == -SignedValue(limbs[..count])
  {
    ghost var s := limbs[..count];
    ghost var was: seq<Limb>, now: seq<Limb> := Complement(s), Complement(s);
    var carry: Limb := 1;
    for i := 0 to count
      invariant |now| == count && Negating(was, now, out[..], i, carry)
    {
      var complemented: Limb := B - 1 - limbs[i];
      var x := Low(complemented + carry);
      NegateStep(was, now, out[..], i, carry, complemented, x);
      SetLimb(out, i, x);
      now := now[i := x];
      carry := if x < complemented then 1 else 0;
    }
    NegateDone(s, now, out[..], carry);
    assert out[..][..count] == out[..count];
    used := LimbsUsed(out, count);
  }

  /** The pass so far: the limbs written are those of the incremented complement. */
  ghost predicate Negating(was: seq<Limb>, now: seq<Limb>, out: seq<Limb>, i: nat, carry: Limb)
    requires i <= |was| == |now| <= |out|
  {
    out[..i] == now[..i] && Incremented(was, now, i, carry)
  }

  lemma NegateStep(was: seq<Limb>, now: seq<Limb>, out: seq<Limb>, i: nat, carry: Limb, complemented: Limb, x: Limb)
    requires i < |was| == |now| <= |out| && Negating(was, now, out, i, carry)
    requires complemented == was[i] && carry <= 1 && x == Low(complemented + carry)
    ensures Negating(was, now[i := x], out[i := x], i + 1, if x < complemented then 1 else 0)
  {
    IncrementStep(was, now, i, carry);
    assert out[i := x][..i + 1] == out[..i] + [x] == now[i := x][..i + 1];
  }

  lemma NegateDone(s: seq<Limb>, now: seq<Limb>, out: seq<Limb>, carry: Limb)
    requires s != [] && Down(s[|s| - 1], 63) != 0 && |now| == |s| <= |out|
    requires Negating(Complement(s), now, out, |s|, carry)
    ensures Val(out[..|s|]) == -SignedValue(s)
  {
    assert now[..|s|] == now;
    IncrementDone(Complement(s), now, |s|, carry);
    NegatedValue(s);
  }

  lemma NegatedValue(s: seq<Limb>)
    requires s != [] && Down(s[|s| - 1], 63) != 0
    ensures (Val(Complement(s)) + 1) % BPow(|s|) == -SignedValue(s)
  {
    SignBit(s);
    ComplementValue(s);
    ModOf(BPow(|s|) - Val(s), BPow(|s|) - Val(s), BPow(|s|), 0);
  }
}

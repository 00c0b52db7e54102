/** The two providers of the 256-bit contract, Knuth division in C and bit-serial division in Rust, agree. */
module Providers {
  import opened Limbs
  import U256
  import RustU256

  /** Same value in the same number of limbs: the same limbs. */
  lemma SameLimbs(c: seq<Limb>, rust: seq<Limb>, v: int)
    requires |c| == |rust| && Val(c) == v && Val(rust) == v
    ensures c == rust
  {
    ValInjective(c, rust);
  }

  /** Runs both providers of mulmod. */
  method MulMods(a: array<Limb>, b: array<Limb>, n: array<Limb>) returns (c: array<Limb>, rust: array<Limb>)
    requires a.Length == 4 && b.Length == 4 && n.Length == 4 && Val(n[..]) != 0
    ensures c[..] == rust[..] && Val(c[..]) == Val(a[..]) * Val(b[..]) % Val(n[..])
  {
    c := new Limb[4];
    U256.U256MulMod(a, b, n, c);
    rust := RustU256.MulMod(a, b, n);
    SameLimbs(c[..], rust[..], Val(a[..]) * Val(b[..]) % Val(n[..]));
  }

  /** Runs both providers of addmod. */
  method AddMods(a: array<Limb>, b: array<Limb>, n: array<Limb>) returns (c: array<Limb>, rust: array<Limb>)
    requires a.Length == 4 && b.Length == 4 && n.Length == 4 && Val(n[..]) != 0
    ensures c[..] == rust[..] && Val(c[..]) == (Val(a[..]) + Val(b[..])) % Val(n[..])
  {
    c := new Limb[4];
    U256.U256AddMod(a, b, n, c);
    rust := RustU256.AddMod(a, b, n);
    SameLimbs(c[..], rust[..], (Val(a[..]) + Val(b[..])) % Val(n[..]));
  }

  /** Runs both providers of divrem. */
  method DivRems(a: array<Limb>, b: array<Limb>)
      returns (q: array<Limb>, r: array<Limb>, rustQ: array<Limb>, rustR: array<Limb>)
    requires a.Length == 4 && b.Length == 4 && Val(b[..]) != 0
    ensures q[..] == rustQ[..] && r[..] == rustR[..]
    ensures Val(q[..]) == Val(a[..]) / Val(b[..]) && Val(r[..]) == Val(a[..]) % Val(b[..])
  {
    q, r := new Limb[4], new Limb[4];
    U256.U256DivRem(a, b, q, r);
    rustQ, rustR := RustU256.DivRem(a, b);
    SameLimbs(q[..], rustQ[..], Val(a[..]) / Val(b[..]));
    SameLimbs(r[..], rustR[..], Val(a[..]) % Val(b[..]));
  }
}

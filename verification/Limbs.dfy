/** Limbs and the number a limb array stands for (mbedtls/bignum.c). */
module Limbs {
  import opened Arith

  /** Bits in half a limb: the two configurations the library supports. */
  type HalfWidth = w: nat | w == 16 || w == 32 witness 16

  const biH: HalfWidth

  const biL: nat := 2 * biH

  const H: int := Pow(2, biH)

  const B: int := Pow(2, biL)

  lemma Pow16()
    ensures Pow(2, 4) == 16 && Pow(2, 8) == 256 && Pow(2, 16) == 65536
  {
    assert Pow(2, 1) == 2 * Pow(2, 0);
    PowAdd(2, 1, 1);
    PowAdd(2, 2, 2);
    PowAdd(2, 4, 4);
    PowAdd(2, 8, 8);
  }

  lemma HalfFacts(w: nat)
    requires w >= 16
    ensures Pow(2, w) >= 65536 && Pow(2, w) % 4 == 0 && Pow(2, w) % 2 == 0
  {
    PowMono(2, 16, w);
    Pow16();
    assert Pow(2, w) == 2 * (2 * Pow(2, w - 2));
  }

  lemma BaseFacts()
    ensures B == H * H && 65536 <= H && 4 * H <= B && B % 4 == 0 && H % 2 == 0 && biL >= 32
  {
    HalfFacts(biH);
    PowAdd(2, biH, biH);
    MulLe(4, H, H);
    var q := H / 4;
    MulAssoc(4, q, H);
    DivModUnique(B, 4, q * H, 0);
  }

  lemma Widths()
    ensures biL == 32 || biL == 64
  {
    var w: HalfWidth := biH;
    assert w == 16 || w == 32;
  }

  lemma BasePos()
    ensures B >= 4
  {
    BaseFacts();
  }

  type Limb = x: int | 0 <= x < B witness (BasePos(); 0)

  /** Unsigned machine arithmetic: keep the low biL bits. */
  function Wrap(x: int): (r: Limb)
  {
    BasePos();
    x % B
  }

  function AddW(a: Limb, b: Limb): (r: Limb) {
    Wrap(a as int + b as int)
  }

  function SubW(a: Limb, b: Limb): (r: Limb) {
    Wrap(a as int - b as int)
  }

  function MulW(a: Limb, b: Limb): (r: Limb) {
    Wrap(a as int * b as int)
  }

  lemma WrapId(x: int)
    requires 0 <= x < B
    ensures Wrap(x) == x
  {
    DivModUnique(x, B, 0, x);
  }

  /** The C carry test: after s = a + b, s < b exactly when the sum overflowed. */
  lemma WrapAdd(a: Limb, b: Limb)
    ensures AddW(a, b) == (if a + b < B then a + b else a + b - B)
    ensures AddW(a, b) < b <==> a + b >= B
  {
    BasePos();
    if a + b < B {
      DivModUnique(a + b, B, 0, a + b);
    } else {
      DivModUnique(a + b, B, 1, a + b - B);
    }
  }

  /** The C borrow test: a - b wraps exactly when a < b. */
  lemma WrapSub(a: Limb, b: Limb)
    ensures SubW(a, b) == (if a >= b then a - b else a - b + B)
  {
    BasePos();
    if a >= b {
      DivModUnique(a - b, B, 0, a - b);
    } else {
      DivModUnique(a - b, B, -1, a - b + B);
    }
  }

  /** B to the power n. */
  function P(n: nat): int {
    Pow(B, n)
  }

  lemma PFacts(n: nat)
    ensures P(n) > 0 && P(n + 1) == B * P(n) && P(0) == 1 && P(1) == B
  {
    BasePos();
    PowPos(B, n);
    assert P(1) == B * P(0);
  }

  /** A number c waiting at place i. */
  ghost function Place(c: int, i: nat): int {
    c * P(i)
  }

  /** The number formed by the n low limbs of p, least significant first. */
  ghost function V(p: seq<Limb>, n: nat): nat
    requires n <= |p|
  {
    if n == 0 then 0
    else
      PFacts(n - 1);
      MulNonneg(p[n - 1], P(n - 1));
      V(p, n - 1) + p[n - 1] * P(n - 1)
  }

  ghost function Val(p: seq<Limb>): nat {
    V(p, |p|)
  }

  lemma {:induction false} VBound(p: seq<Limb>, n: nat)
    requires n <= |p|
    ensures V(p, n) < P(n)
  {
    if n > 0 {
      VBound(p, n - 1);
      PFacts(n - 1);
      MulLe(p[n - 1], B - 1, P(n - 1));
      assert (B - 1) * P(n - 1) == B * P(n - 1) - P(n - 1);
    }
  }

  lemma {:induction false} VFrame(p: seq<Limb>, q: seq<Limb>, n: nat)
    requires n <= |p| && n <= |q|
    requires forall i :: 0 <= i < n ==> p[i] == q[i]
    ensures V(p, n) == V(q, n)
  {
    if n > 0 { VFrame(p, q, n - 1); }
  }

  lemma {:induction false} VMono(p: seq<Limb>, m: nat, n: nat)
    requires m <= n <= |p|
    ensures V(p, m) <= V(p, n)
  {
    if m < n {
      VMono(p, m, n - 1);
      PFacts(n - 1);
      MulNonneg(p[n - 1], P(n - 1));
    }
  }

  lemma {:induction false} VUpdate(p: seq<Limb>, i: nat, v: Limb, n: nat)
    requires n <= |p| && i < |p|
    ensures V(p[i := v], n) == V(p, n) + (if i < n then (v - p[i]) * P(i) else 0)
  {
    if n > 0 {
      VUpdate(p, i, v, n - 1);
      if i == n - 1 { MulDist(v, p[i], P(i)); }
    }
  }

  /** Zero limbs above m add nothing. */
  lemma {:induction false} VZeros(p: seq<Limb>, m: nat, n: nat)
    requires m <= n <= |p|
    requires forall i :: m <= i < n ==> p[i] == 0
    ensures V(p, n) == V(p, m)
  {
    if m < n { VZeros(p, m, n - 1); }
  }

  /** A value below P(m) leaves no limb at or above m. */
  lemma {:induction false} VHighZero(p: seq<Limb>, m: nat, n: nat)
    requires m <= n <= |p| && V(p, n) < P(m)
    ensures forall i :: m <= i < n ==> p[i] == 0
    ensures V(p, m) == V(p, n)
  {
    if m < n {
      PFacts(n - 1);
      if p[n - 1] >= 1 {
        MulLe(1, p[n - 1], P(n - 1));
        BasePos();
        PowMono(B, m, n - 1);
        assert false;
      }
      VHighZero(p, m, n - 1);
    }
  }

  lemma SplitArith(a: int, k: int, w: int, x: int, q: int)
    ensures a + k * w + x * (k * q) == a + k * (w + x * q)
  {
    MulDist(w, x * q, k);
    MulAssoc(k, x, q);
  }

  /** Splitting a number at limb k. */
  lemma {:induction false} VSplit(p: seq<Limb>, k: nat, n: nat)
    requires k <= n <= |p|
    ensures V(p, n) == V(p, k) + P(k) * V(p[k..], n - k)
  {
    if k < n {
      VSplit(p, k, n - 1);
      assert P(n - 1) == P(k) * P(n - 1 - k) by { PowAdd(B, k, n - 1 - k); }
      assert p[k..][n - 1 - k] == p[n - 1];
      SplitArith(V(p, k), P(k), V(p[k..], n - 1 - k), p[n - 1], P(n - 1 - k));
    }
  }

  /** Taking off the low limb. */
  lemma VPeel(p: seq<Limb>, n: nat)
    requires 1 <= n <= |p|
    ensures V(p, n) == p[0] + B * V(p[1..], n - 1)
  {
    PFacts(0);
    assert V(p, 1) == p[0] by { assert V(p, 1) == V(p, 0) + p[0] * P(0); }
    VSplit(p, 1, n);
  }

  lemma VLowArith(v: int, x: Limb, w: int)
    requires v == x + B * w
    ensures B > 0 && v % B == x && v % 2 == x % 2
  {
    BaseFacts();
    DivModUnique(v, B, w, x);
    MulAssoc(2, B / 2, w);
    ModAddMultiple(x, B / 2 * w, 2);
  }

  /** The low limb is the remainder modulo B; in particular it carries the parity. */
  lemma VLow(p: seq<Limb>, n: nat)
    requires 1 <= n <= |p|
    ensures B > 0 && V(p, n) % B == p[0]
    ensures V(p, n) % 2 == p[0] % 2
  {
    VPeel(p, n);
    VLowArith(V(p, n), p[0], V(p[1..], n - 1));
  }

  /** The number formed by the limbs from place i up. */
  ghost function Tail(p: seq<Limb>, i: nat): nat
    requires i <= |p|
  {
    V(p[i..], |p| - i)
  }

  lemma TailSplit(p: seq<Limb>, i: nat)
    requires i <= |p|
    ensures Val(p) == V(p, i) + P(i) * Tail(p, i)
  {
    assert V(p, |p|) == V(p, i) + P(i) * V(p[i..], |p| - i) by { VSplit(p, i, |p|); }
  }

  lemma TailPeel(p: seq<Limb>, i: nat)
    requires i < |p|
    ensures Tail(p, i) == Tail(p, i + 1) * B + p[i]
    ensures B > 0 && Tail(p, i) % B == p[i]
  {
    var q := p[i..];
    assert q[1..] == p[i + 1..];
    VPeel(q, |q|);
    BasePos();
    DivModUnique(Tail(p, i), B, Tail(p, i + 1), p[i]);
  }

  lemma TailFrame(p: seq<Limb>, q: seq<Limb>, i: nat)
    requires i <= |p| == |q| && forall k :: i <= k < |p| ==> p[k] == q[k]
    ensures Tail(p, i) == Tail(q, i)
  {
    assert p[i..] == q[i..];
  }
}

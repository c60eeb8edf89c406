/** Schoolbook multiplication X = A * B. */
module Mul {
  import opened Arith
  import opened Limbs
  import opened MpiCore
  import opened AddSub
  import opened WordMul

  lemma MulColumnArith(b: int, x: int, p: int, q: int)
    ensures (b * (x * p)) * q == (x * b) * (q * p)
  {
    MulAssoc(b, x, p);
    MulAssoc(b * x, p, q);
  }

  lemma MulColumn(s: seq<Limb>, i: nat, b: int, off: nat)
    requires i < |s|
    ensures Place(b * V(s, i + 1), off) - Place(b * V(s, i), off) == (s[i] * b) * P(off + i)
  {
    PowAdd(B, off, i);
    MulDist(V(s, i), s[i] * P(i), b);
    MulDist(b * V(s, i), b * (s[i] * P(i)), P(off));
    MulColumnArith(b, s[i], P(i), P(off));
  }

  /** The effect of one multiply-accumulate column. */
  lemma MulStep(d: seq<Limb>, off: nat, i: nat, v: Limb, c: Limb, c': Limb, s: seq<Limb>, b: Limb)
    requires off + i < |d| && i < |s|
    requires c' * B + v == s[i] * b + c + d[off + i]
    ensures Val(d[off + i := v]) + Place(c', off + i + 1)
         == Val(d) + Place(c, off + i) + Place(b * V(s, i + 1), off) - Place(b * V(s, i), off)
  {
    var k := off + i;
    LimbStep(d, k, v);
    PFacts(k);
    assert (v - d[k]) * P(k) == (s[i] * b + c - c' * B) * P(k);
    MulDist(v, d[k], P(k));
    MulDist(s[i] * b + c, c' * B, P(k));
    MulDist(s[i] * b, c, P(k));
    MulAssoc(c', B, P(k));
    MulColumn(s, i, b, off);
  }

  lemma MulCarryStep(d: seq<Limb>, k: nat, v: Limb, c: Limb, c': Limb)
    requires k < |d| && v + c' * B == d[k] + c
    ensures Val(d[k := v]) + Place(c', k + 1) == Val(d) + Place(c, k)
  {
    LimbStep(d, k, v);
    PFacts(k);
    assert (v - d[k]) * P(k) == (c - c' * B) * P(k);
    MulDist(v, d[k], P(k));
    MulDist(c, c' * B, P(k));
    MulAssoc(c', B, P(k));
  }

  /** While the total fits the array, a pending carry has room left. */
  lemma CarryStaysInside(d: seq<Limb>, k: nat, c: Limb, total: int)
    requires k <= |d| && c > 0 && Val(d) + Place(c, k) == total && total < P(|d|)
    ensures k < |d|
  {
    if k == |d| {
      PFacts(k);
      MulLe(1, c, P(k));
    }
  }

  /**
   * D += b * S[..n] at limb off. The carry run stops inside D whenever the sum fits D, and no limb
   * below off is touched.
   */
  method MulHlp(n: nat, s: Mpi, d: Mpi, off: nat, b: Limb)
    requires s != d && n <= |s.p| && off + n < |d.p|
    requires Val(d.p) + Place(b * V(s.p, n), off) < P(|d.p|)
    modifies d
    ensures d.s == old(d.s) && |d.p| == old(|d.p|)
    ensures Val(d.p) == old(Val(d.p)) + Place(b * V(s.p, n), off)
    ensures forall k :: 0 <= k < off ==> d.p[k] == old(d.p[k])
  {
    var c: Limb := (BasePos(); 0);
    var i := 0;
    ghost var d0 := d.p;
    while i < n
      invariant 0 <= i <= n && |d.p| == |d0| && d.s == old(d.s)
      invariant forall k :: 0 <= k < off ==> d.p[k] == d0[k]
      invariant Val(d.p) + Place(c, off + i) == Val(d0) + Place(b * V(s.p, i), off)
    {
      ghost var p, c0 := d.p, c;
      var v;
      v, c := MulAddHalf(s.p[i], b, c, d.p[off + i]);
      d.p := d.p[off + i := v];
      MulStep(p, off, i, v, c0, c, s.p, b);
      i := i + 1;
    }
    var k := off + n;
    ghost var total := Val(d0) + Place(b * V(s.p, n), off);
    var first := true;
    while first || c != 0
      invariant off + n <= k <= |d.p| == |d0| && d.s == old(d.s)
      invariant first ==> k < |d.p|
      invariant forall j :: 0 <= j < off ==> d.p[j] == d0[j]
      invariant Val(d.p) + Place(c, k) == total
      decreases |d.p| - k
    {
      if c != 0 { CarryStaysInside(d.p, k, c, total); }
      first := false;
      ghost var p, c0 := d.p, c;
      var v;
      v, c := AddCarry(d.p[k], c);
      d.p := d.p[k := v];
      MulCarryStep(p, k, v, c0, c);
      k := k + 1;
    }
  }

  /** Every partial sum of the schoolbook product fits the result array. */
  lemma ProductFits(a: nat, i: nat, b: nat, j: nat, n: nat)
    requires a < P(i) && b < P(j) && i + j <= n
    ensures 0 <= a * b && a * b < P(n)
  {
    BasePos();
    MulNonneg(a, b);
    PFacts(i);
    PowAdd(B, i, j);
    PowMono(B, i + j, n);
    MulLe(a, P(i), b);
    MulLt(b, P(j), P(i));
  }

  /** Peeling the top remaining limb of B. */
  lemma RowSum(a: int, b: seq<Limb>, j: nat)
    requires 0 < j <= |b|
    ensures a * V(b, j) == Place(b[j - 1] * a, j - 1) + a * V(b, j - 1)
  {
    MulDist(V(b, j - 1), b[j - 1] * P(j - 1), a);
    MulAssoc(b[j - 1], a, P(j - 1));
  }

  lemma PartialProduct(a: nat, i: nat, b: seq<Limb>, j: nat, top: nat, n: nat)
    requires a < P(i) && j <= top <= |b| && i + top <= n
    ensures 0 <= a * V(b, j) <= a * V(b, top) < P(n)
  {
    VBound(b, top);
    VMono(b, j, top);
    ProductFits(a, i, V(b, top), top, n);
    MulNonneg(a, V(b, j));
    MulLe(V(b, j), V(b, top), a);
  }

  /** Adds a row of the product for every limb of B, from the top down, into a zeroed X. */
  method MulRows(x: Mpi, a: Mpi, i: nat, b: Mpi, top: nat)
    requires x != a && x != b && i == Sig(a.p) && top <= |b.p|
    requires Val(x.p) == 0 && i + top <= |x.p|
    modifies x
    ensures |x.p| == old(|x.p|) && Val(x.p) == Val(a.p) * V(b.p, top)
  {
    var j := top;
    SigFacts(a.p);
    while j > 0
      invariant 0 <= j <= top && |x.p| == old(|x.p|)
      invariant Val(x.p) == Val(a.p) * V(b.p, top) - Val(a.p) * V(b.p, j)
    {
      RowSum(Val(a.p), b.p, j);
      PartialProduct(Val(a.p), i, b.p, j, top, |x.p|);
      PartialProduct(Val(a.p), i, b.p, j - 1, top, |x.p|);
      SigVal(a.p);
      MulHlp(i, a, x, j - 1, b.p[j - 1]);
      j := j - 1;
    }
  }

  lemma SignedProduct(s: Sign, t: Sign, a: nat, b: nat)
    ensures Signed(if s == t then 1 else -1, a * b) == Signed(s, a) * Signed(t, b)
  {}

  /** X = A * B. */
  method MulMpi(x: Mpi, a: Mpi, b: Mpi)
    modifies x
    ensures x.Value() == old(a.Value()) * old(b.Value())
    ensures x != a && x != b ==> x.s == (if a.s == b.s then 1 else -1)
    ensures |x.p| >= Max(1, old(|x.p|))
  {
    var a', b' := a, b;
    if x == a {
      a' := new Mpi();
      Copy(a', a);
    }
    if x == b {
      b' := new Mpi();
      Copy(b', b);
    }
    var i := ScanTop(a');
    var j := ScanTop(b');
    Grow(x, i + j);
    BasePos();
    Lset(x, 0);
    MulRows(x, a', i, b', j);
    SigVal(b'.p);
    x.s := if a'.s == b'.s then 1 else -1;
    SignedProduct(a'.s, b'.s, Val(a'.p), Val(b'.p));
  }

  /** X = A * b for a word b. */
  method MulInt(x: Mpi, a: Mpi, b: Limb)
    modifies x
    ensures x.Value() == old(a.Value()) * b
    ensures x != a ==> x.s == a.s
    ensures |x.p| >= Max(1, old(|x.p|))
  {
    var y := new Mpi.Word(1, b);
    MulMpi(x, a, y);
  }
}

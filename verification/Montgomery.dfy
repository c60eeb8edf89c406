/** Montgomery initialisation, multiplication and reduction. */
module Montgomery {
  import opened Arith
  import opened Limbs
  import opened MpiCore
  import opened AddSub
  import opened Mul
  import opened WordMul

  // ---- the word inverse ----

  lemma NewtonIdentity(y: int)
    ensures y * (2 - y) - 1 == -((y - 1) * (y - 1))
  {}

  /** One Newton step squares the modulus. */
  lemma NewtonStep(m0: int, x: int, k: int)
    requires k > 0 && Cong(m0 * x, 1, k)
    ensures k * k > 0 && Cong(m0 * (x * (2 - m0 * x)), 1, k * k)
  {
    var t := CongElim(m0 * x, 1, k);
    MulPos(k, k);
    MulAssoc(m0, x, 2 - m0 * x);
    NewtonIdentity(m0 * x);
    MulSwap(t, k, t, k);
    CongIntro(m0 * (x * (2 - m0 * x)), 1, k * k, -(t * t));
  }

  lemma SeedResidue(r: int)
    requires 0 <= r < 16 && r % 2 == 1
    ensures (r * (r + 8 * ((r + 2) / 4 % 2)) - 1) % 16 == 0
  {
    if r == 1 {} else if r == 3 {} else if r == 5 {} else if r == 7 {}
    else if r == 9 {} else if r == 11 {} else if r == 13 {} else { assert r == 15; }
  }

  lemma SeedExpand(q: int, r: int, b: int)
    ensures (16 * q + r) * (16 * q + r + 8 * b) == r * (r + 8 * b) + q * (16 * q + 2 * r + 8 * b) * 16
  {}

  /** The starting value inverts an odd word modulo 16. */
  lemma SeedInverse(m: int)
    requires m % 2 == 1
    ensures Cong(m * (m + 8 * ((m + 2) / 4 % 2)), 1, 16)
  {
    DivModFacts(m, 16);
    SeedResidue(m % 16);
    SeedExpand(m / 16, m % 16, (m + 2) / 4 % 2);
    var r, b := m % 16, (m + 2) / 4 % 2;
    assert b == (r + 2) / 4 % 2 by { assert (m + 2) / 4 == 4 * (m / 16) + (r + 2) / 4; }
    ModAddMultiple(r * (r + 8 * b) - 1, m / 16 * (16 * (m / 16) + 2 * r + 8 * b), 16);
  }

  /** A congruence modulo a multiple holds modulo each factor. */
  lemma CongFactor(a: int, b: int, k: int, n: int)
    requires k > 0 && n > 0 && Cong(a, b, k * n) && k * n > 0
    ensures Cong(a, b, k)
  {
    var t := CongElim(a, b, k * n);
    MulAssoc(t, n, k);
    CongIntro(a, b, k, t * n);
  }

  lemma WrapCong(x: int)
    ensures B > 0 && Cong(Wrap(x), x, B)
  {
    BasePos();
    CongMod(x, B);
  }

  /** The step's three wrapped operations, modulo n. */
  lemma NewtonCong(m: int, x: int, y: int, z: int, r: int, n: int)
    requires n > 0 && Cong(y, m * x, n) && Cong(z, 2 - y, n) && Cong(r, x * z, n)
    ensures Cong(r, x * (2 - m * x), n)
  {
    CongRefl(2, n);
    CongRefl(x, n);
    CongAdd(2, 2, y, m * x, n);
    CongTrans(z, 2 - y, 2 - m * x, n);
    CongMul(x, x, z, 2 - m * x, n);
    CongTrans(r, x * z, x * (2 - m * x), n);
  }

  /** x * (2 - m0 * x) in wrapped arithmetic. */
  method NewtonWord(m0: Limb, x: Limb) returns (r: Limb)
    ensures B > 0 && Cong(r, x as int * (2 - m0 as int * x as int), B)
  {
    BaseFacts();
    var y := MulW(m0, x);
    var z := SubW(2, y);
    r := MulW(x, z);
    WrapCong(m0 as int * x as int);
    WrapCong(2 - y as int);
    WrapCong(x as int * z as int);
    NewtonCong(m0, x, y, z, r, B);
  }

  /** A step from modulus k to k*k, when that still divides the machine base. */
  lemma NewtonPrecision(m0: int, x: int, x': int, k: int, c: int)
    requires k > 0 && c > 0 && k * k * c == B && Cong(m0 * x, 1, k)
    requires B > 0 && Cong(x', x * (2 - m0 * x), B)
    ensures k * k > 0 && Cong(m0 * x', 1, k * k)
  {
    NewtonStep(m0, x, k);
    var y := x * (2 - m0 * x);
    CongFactor(x', y, k * k, c);
    CongRefl(m0, k * k);
    CongMul(m0, m0, x', y, k * k);
    CongTrans(m0 * x', m0 * y, 1, k * k);
  }

  lemma BaseSplit(e: nat)
    requires 2 * e <= biL
    ensures Pow(2, e) > 0 && Pow(2, biL - 2 * e) > 0
    ensures Pow(2, e) * Pow(2, e) * Pow(2, biL - 2 * e) == B && Pow(2, 2 * e) == Pow(2, e) * Pow(2, e)
  {
    PowPos(2, e);
    PowPos(2, biL - 2 * e);
    PowAdd(2, e, e);
    PowAdd(2, 2 * e, biL - 2 * e);
  }

  /** ~x + 1. */
  method NegateWord(x: Limb) returns (r: Limb)
    ensures r == Wrap(-(x as int))
  {
    BaseFacts();
    r := AddW(B - 1 - x, 1);
    ModAddMultiple(-(x as int), 1, B);
  }

  lemma SixteenDividesBase()
    ensures B > 0 && B == 16 * (B / 16)
  {
    BaseFacts();
    Pow16();
    PowAdd(2, 4, biL - 4);
    DivModUnique(B, 16, Pow(2, biL - 4), 0);
  }

  lemma LowBitsPlus(a: int, t: int, k: int)
    requires a == 16 * k + t
    ensures a / 4 % 2 == t / 4 % 2
  {
    assert a / 4 == 4 * k + t / 4;
    assert (4 * k + t / 4) % 2 == t / 4 % 2;
  }

  lemma LowBitsKept(a: int, t: Limb, c: int)
    requires B > 0 && B == 16 * c && t == Wrap(a)
    ensures a / 4 % 2 == t / 4 % 2
  {
    DivModFacts(a, B);
    var j := a / B;
    MulAssoc(j, 16, c);
    MulDist(16, 0, j * c);
    LowBitsPlus(a, t, j * c);
  }

  /** Wrapping does not disturb the low four bits. */
  lemma SeedWraps(m0: Limb, t: Limb, x: Limb)
    requires t == Wrap(m0 as int + 2) && x == Wrap(m0 as int + 8 * (t / 4 % 2) as int)
    requires Cong(m0 * (m0 + 8 * ((m0 + 2) / 4 % 2)), 1, 16)
    ensures Cong(m0 * x, 1, 16)
  {
    SixteenDividesBase();
    var c := B / 16;
    LowBitsKept(m0 as int + 2, t, c);
    var y := m0 as int + 8 * (t / 4 % 2) as int;
    WrapCong(y);
    CongFactor(x, y, 16, c);
    CongRefl(m0, 16);
    CongMul(m0, m0, x, y, 16);
    CongTrans(m0 * x, m0 * y, 1, 16);
  }

  method Seed(m0: Limb) returns (x: Limb)
    requires m0 % 2 == 1
    ensures Pow(2, 4) == 16 && Cong(m0 * x, 1, 16)
  {
    BaseFacts();
    x := m0;
    var t := AddW(m0, 2);
    var bit: Limb := t / 4 % 2;
    x := AddW(x, 8 * bit);
    SeedInverse(m0);
    SeedWraps(m0, t, x);
    Pow16();
  }

  lemma NegProduct(a: int, b: int)
    ensures a * (-b) == 0 - a * b
  {}

  lemma NegatedInverse(m0: int, x: int, mm: Limb)
    requires B > 0 && Cong(m0 * x, 1, B) && mm == Wrap(-x)
    ensures Cong(m0 * mm, -1, B)
  {
    WrapCong(-x);
    CongRefl(m0, B);
    CongMul(m0, m0, mm, -x, B);
    CongRefl(0, B);
    CongAdd(0, 0, m0 * x, 1, B);
    NegProduct(m0, x);
    CongTrans(m0 * mm, m0 * (-x), -1, B);
  }

  /** -N[0]^-1 modulo B, by Newton iteration on the word. */
  method MontgInit(n: Mpi) returns (mm: Limb)
    requires |n.p| > 0 && n.p[0] % 2 == 1
    ensures B > 0 && Cong(n.p[0] * mm, -1, B)
  {
    Widths();
    var m0 := n.p[0];
    var x := Seed(m0);
    var i: nat := biL;
    ghost var e: nat := 4;
    Pow16();
    while i >= 8
      invariant || (e == 4 && i == biL) || (e == 8 && 2 * i == biL) || (e == 16 && 4 * i == biL)
                || (e == 32 && 8 * i == biL) || (e == 64 == biL && i == 4)
      invariant Pow(2, e) > 0 && Cong(m0 as int * x as int, 1, Pow(2, e))
    {
      ghost var x0 := x;
      x := NewtonWord(m0, x);
      BaseSplit(e);
      NewtonPrecision(m0, x0, x, Pow(2, e), Pow(2, biL - 2 * e));
      i := i / 2;
      e := 2 * e;
    }
    mm := NegateWord(x);
    NegatedInverse(m0, x, mm);
  }

  // ---- Montgomery multiplication ----

  lemma CongElimZero(a: int)
    requires B > 0 && Cong(a, 0, B)
    ensures a % B == 0
  {}

  /** The low limb of the window after adding u0*B and u1*N vanishes. */
  lemma WindowLowZero(t0: int, u0: int, b0: int, n0: int, mm: int, u1: int, w: int, bv: int, nv: int)
    requires B > 0 && Cong(n0 * mm, -1, B) && Cong(u1, (t0 + u0 * b0) * mm, B)
    requires Cong(w, t0, B) && Cong(bv, b0, B) && Cong(nv, n0, B)
    ensures (w + u0 * bv + u1 * nv) % B == 0
  {
    var s := t0 + u0 * b0;
    CongRefl(u0, B);
    CongMul(u0, u0, bv, b0, B);
    CongAdd(w, t0, u0 * bv, u0 * b0, B);
    CongMul(u1, s * mm, nv, n0, B);
    CongRefl(s, B);
    CongMul(s, s, n0 * mm, -1, B);
    MulAssoc(s, mm, n0);
    CongTrans(u1 * nv, s * mm * n0, s * -1, B);
    CongAdd(w + u0 * bv, s, u1 * nv, s * -1, B);
    CongElimZero(w + u0 * bv + u1 * nv);
  }

  /** The quotient word u1 = (d[0] + u0 * B[0]) * mm in wrapped arithmetic. */
  method QuotientWord(t0: Limb, u0: Limb, b0: Limb, mm: Limb) returns (u1: Limb)
    ensures B > 0 && Cong(u1, (t0 as int + u0 as int * b0 as int) * mm as int, B)
  {
    var p := MulW(u0, b0);
    var s := AddW(t0, p);
    u1 := MulW(s, mm);
    WrapCong(u0 as int * b0 as int);
    WrapCong(t0 as int + p as int);
    WrapCong(s as int * mm as int);
    CongRefl(t0, B);
    CongRefl(mm, B);
    CongAdd(t0, t0, p, u0 as int * b0 as int, B);
    CongTrans(s, t0 as int + p as int, t0 as int + u0 as int * b0 as int, B);
    CongMul(s, t0 as int + u0 as int * b0 as int, mm, mm, B);
    CongTrans(u1, s as int * mm as int, (t0 as int + u0 as int * b0 as int) * mm as int, B);
  }

  /** Adding a multiple of P(i) above untouched low limbs moves the window by the factor. */
  lemma WindowAdd(p: seq<Limb>, q: seq<Limb>, i: nat, x: int)
    requires i <= |p| == |q| && Val(q) == Val(p) + Place(x, i)
    requires forall k :: 0 <= k < i ==> q[k] == p[k]
    ensures Tail(q, i) == Tail(p, i) + x
  {
    TailSplit(p, i);
    TailSplit(q, i);
    VFrame(p, q, i);
    PFacts(i);
    MulDist(Tail(p, i), x, P(i));
    MulCancelEq(Tail(q, i), Tail(p, i) + x, P(i));
  }

  /** The window value w after i rounds: w * R_i = A_i * B + u * N with u < R_i. */
  ghost predicate Round(w: int, i: nat, ai: int, bv: int, u: int, nv: int) {
    0 <= w && 0 <= ai < P(i) && 0 <= u < P(i) && w * P(i) == ai * bv + u * nv
  }

  lemma RoundBound(w: int, i: nat, ai: int, bv: int, u: int, nv: int)
    requires Round(w, i, ai, bv, u, nv) && bv >= 0 && nv > 0
    ensures w < bv + nv
  {
    PFacts(i);
    MulLe(ai, P(i), bv);
    MulLt(u, P(i), nv);
    MulDist(bv, nv, P(i));
    MulCancelLt(w, bv + nv, P(i));
  }

  lemma DigitRoom(a: int, d: Limb, i: nat)
    requires 0 <= a < P(i)
    ensures 0 <= a + d * P(i) < P(i + 1)
  {
    PFacts(i);
    MulNonneg(d, P(i));
    MulLe(d, B - 1, P(i));
    MulDist(B, 1, P(i));
  }

  /** One round: add u0*B and u1*N, drop the zero low limb. */
  lemma RoundStep(w: int, i: nat, ai: int, bv: int, u: int, nv: int, u0: Limb, u1: Limb, w': int)
    requires Round(w, i, ai, bv, u, nv) && 0 <= w' && w' * B == w + u0 * bv + u1 * nv
    ensures Round(w', i + 1, ai + u0 * P(i), bv, u + u1 * P(i), nv)
  {
    PFacts(i);
    DigitRoom(ai, u0, i);
    DigitRoom(u, u1, i);
    MulAssoc(w', B, P(i));
    MulDist(w + u0 * bv, u1 * nv, P(i));
    MulDist(w, u0 * bv, P(i));
    MulAssoc(u0, bv, P(i));
    MulAssoc(u0, P(i), bv);
    MulAssoc(u1, nv, P(i));
    MulAssoc(u1, P(i), nv);
    MulDist(ai, u0 * P(i), bv);
    MulDist(u, u1 * P(i), nv);
  }

  lemma RoundSize(w: int, u0: Limb, bv: nat, u1: Limb, nv: nat, n: nat)
    requires bv < P(n) && nv < P(n) && w < bv + nv
    ensures w + u0 * bv + u1 * nv + 1 <= P(n + 2)
  {
    BasePos();
    MulLe(u0, B - 1, bv);
    MulLe(u1, B - 1, nv);
    MulDist(B, 1, bv);
    MulDist(B, 1, nv);
    MulDist(bv, nv, B);
    PFacts(n);
    PFacts(n + 1);
    MulLe(bv + nv, 2 * P(n), B);
    MulLe(2, B, P(n + 1));
    MulAssoc(2, P(n), B);
  }

  /** The sums of a round stay within n + 2 limbs of the window, hence inside T. */
  lemma RoundFits(p: seq<Limb>, i: nat, n: nat, u0: Limb, bv: nat, u1: Limb, nv: nat)
    requires i < n && |p| >= 2 * n + 2 && bv < P(n) && 0 < nv < P(n) && Tail(p, i) < bv + nv
    ensures 0 <= u0 * bv && 0 <= u1 * nv
    ensures Val(p) + Place(u0 * bv, i) < P(|p|)
    ensures Val(p) + Place(u0 * bv, i) + Place(u1 * nv, i) < P(|p|)
  {
    TailSplit(p, i);
    VBound(p, i);
    var w := Tail(p, i);
    MulNonneg(u0, bv);
    MulNonneg(u1, nv);
    RoundSize(w, u0, bv, u1, nv, n);
    PFacts(i);
    var s := w + u0 * bv + u1 * nv;
    MulLe(s + 1, P(n + 2), P(i));
    PowAdd(B, i, n + 2);
    BasePos();
    PowMono(B, i + n + 2, |p|);
    MulDist(s, 1, P(i));
    MulDist(w + u0 * bv, u1 * nv, P(i));
    MulDist(w, u0 * bv, P(i));
    MulNonneg(u1 * nv, P(i));
  }

  /** The T loop's state: copies of A's limbs below i, the running window above. */
  ghost predicate RoundState(tp: seq<Limb>, ap: seq<Limb>, i: nat, bv: nat, u: int, nv: nat) {
    && i <= |tp| && i <= |ap|
    && (forall k :: 0 <= k < i ==> tp[k] == ap[k])
    && Round(Tail(tp, i), i, V(ap, i), bv, u, nv)
  }

  /** Storing u0 over the zero low limb leaves the window one limb further up. */
  lemma RoundShift(p: seq<Limb>, q: seq<Limb>, i: nat, u0: Limb)
    requires i < |p| && q == p[i := u0] && B > 0 && Tail(p, i) % B == 0
    ensures Tail(p, i) == Tail(q, i + 1) * B
  {
    TailPeel(p, i);
    TailFrame(p, q, i + 1);
  }

  /** The limb cleared at the top of the next window already is zero. */
  lemma ClearedLimb(p: seq<Limb>, i: nat, n: nat, bound: int)
    requires i + n + 2 < |p| && Tail(p, i + 1) < bound && bound <= P(n + 1)
    ensures p[i + n + 2] == 0
  {
    var q := p[i + 1..];
    assert V(q, |q|) < P(n + 1);
    VHighZero(q, n + 1, |q|);
    assert q[n + 1] == p[i + n + 2];
  }

  lemma TwoPowers(bv: nat, nv: nat, n: nat)
    requires bv < P(n) && nv < P(n)
    ensures bv + nv <= P(n + 1)
  {
    PFacts(n);
    BasePos();
    MulLe(2, B, P(n));
  }

  /** T += (u0 * B + u1 * N) at limb i. */
  method AddRows(b: Mpi, n: Mpi, t: Mpi, i: nat, u0: Limb, u1: Limb)
    requires t != b && t != n
    requires |n.p| > 0 && i < |n.p| && |b.p| > 0 && |t.p| >= 2 * |n.p| + 2
    requires Val(b.p) < P(|n.p|) && Val(n.p) > 0 && Tail(t.p, i) < Val(b.p) + Val(n.p)
    modifies t
    ensures |t.p| == old(|t.p|) && forall k :: 0 <= k < i ==> t.p[k] == old(t.p[k])
    ensures Tail(t.p, i) == old(Tail(t.p, i)) + u0 * Val(b.p) + u1 * Val(n.p)
  {
    var len := |n.p|;
    var m := if |b.p| < len then |b.p| else len;
    ghost var bv, nv, p0 := Val(b.p), Val(n.p), t.p;
    if m < |b.p| { VHighZero(b.p, m, |b.p|); }
    VBound(n.p, len);
    RoundFits(p0, i, len, u0, bv, u1, nv);
    MulHlp(m, b, t, i, u0);
    MulHlp(len, n, t, i, u1);
    MulDist(u0 * bv, u1 * nv, P(i));
    WindowAdd(p0, t.p, i, u0 * bv + u1 * nv);
  }

  /** What a round leaves, once u0 is stored over the vanished low limb of the window. */
  lemma RoundConclude(p0: seq<Limb>, p1: seq<Limb>, a: seq<Limb>, i: nat, n: nat, bv: nat, u: int, nv: nat,
                      u1: Limb) returns (q: seq<Limb>)
    requires i < |p0| == |p1| && i < |a| && i + n + 2 < |p1|
    requires RoundState(p0, a, i, bv, u, nv) && forall k :: 0 <= k < i ==> p1[k] == p0[k]
    requires Tail(p1, i) == Tail(p0, i) + a[i] * bv + u1 * nv && B > 0 && Tail(p1, i) % B == 0
    requires bv < P(n) && 0 < nv < P(n)
    ensures q == p1[i := a[i]] && q[i + n + 2] == 0
    ensures RoundState(q, a, i + 1, bv, u + u1 * P(i), nv)
  {
    q := p1[i := a[i]];
    RoundShift(p1, q, i, a[i]);
    RoundStep(Tail(p0, i), i, V(a, i), bv, u, nv, a[i], u1, Tail(q, i + 1));
    RoundBound(Tail(q, i + 1), i + 1, V(a, i + 1), bv, u + u1 * P(i), nv);
    TwoPowers(bv, nv, n);
    ClearedLimb(q, i, n, bv + nv);
  }

  lemma WindowResidues(p: seq<Limb>, i: nat, b: seq<Limb>, n: seq<Limb>)
    requires i < |p| && |b| > 0 && |n| > 0
    ensures B > 0 && Cong(Tail(p, i), p[i], B) && Cong(Val(b), b[0], B) && Cong(Val(n), n[0], B)
  {
    TailPeel(p, i);
    CongMod(Tail(p, i), B);
    VLow(b, |b|);
    CongMod(Val(b), B);
    VLow(n, |n|);
    CongMod(Val(n), B);
  }

  /** One round of the multiplication loop. */
  method MontRound(a: Mpi, b: Mpi, n: Mpi, mm: Limb, t: Mpi, i: nat, ghost u: int) returns (ghost u': int)
    requires t != a && t != b && t != n
    requires |n.p| > 0 && i < |n.p| < |a.p| && |b.p| > 0 && |t.p| >= 2 * |n.p| + 2
    requires B > 0 && Cong(n.p[0] * mm, -1, B)
    requires Val(b.p) < P(|n.p|) && Val(n.p) > 0
    requires RoundState(t.p, a.p, i, Val(b.p), u, Val(n.p))
    modifies t
    ensures |t.p| == old(|t.p|)
    ensures RoundState(t.p, a.p, i + 1, Val(b.p), u', Val(n.p))
  {
    ghost var p0 := t.p;
    RoundBound(Tail(p0, i), i, V(a.p, i), Val(b.p), u, Val(n.p));
    var u0 := a.p[i];
    var u1 := QuotientWord(t.p[i], u0, b.p[0], mm);
    AddRows(b, n, t, i, u0, u1);
    WindowResidues(p0, i, b.p, n.p);
    WindowLowZero(p0[i], u0, b.p[0], n.p[0], mm, u1, Tail(p0, i), Val(b.p), Val(n.p));
    VBound(n.p, |n.p|);
    ghost var q := RoundConclude(p0, t.p, a.p, i, |n.p|, Val(b.p), u, Val(n.p), u1);
    t.p := t.p[i := u0];
    t.p := t.p[i + |n.p| + 2 := (BasePos(); 0)];
    assert t.p == q;
    u' := u + u1 * P(i);
  }

  /** After n rounds the window is the product over R, less than twice N. */
  lemma RoundsDone(tp: seq<Limb>, ap: seq<Limb>, n: nat, bv: nat, u: int, nv: nat)
    requires n < |tp| && n <= |ap| && Val(ap) < P(n) && RoundState(tp, ap, n, bv, u, nv)
    requires 0 < nv && Val(ap) * bv < nv * P(n)
    ensures Tail(tp, n) < 2 * nv && P(n) > 0 && Cong(Tail(tp, n) * P(n), Val(ap) * bv, nv)
  {
    VHighZero(ap, n, |ap|);
    PFacts(n);
    MulLt(u, P(n), nv);
    MulDist(nv, nv, P(n));
    MulCancelLt(Tail(tp, n), nv + nv, P(n));
    CongIntro(Tail(tp, n) * P(n), Val(ap) * bv, nv, u);
  }

  /** The copied n + 1 limbs hold the whole window. */
  lemma CopiedWindow(tp: seq<Limb>, ap: seq<Limb>, q: seq<Limb>, n: nat, nv: nat)
    requires 2 * n + 2 <= |tp| && n < |ap| && Val(ap) < P(n) && Tail(tp, n) < 2 * nv && nv < P(n)
    requires q == tp[n..2 * n + 1] + ap[n + 1..]
    ensures Val(q) == Tail(tp, n) && Val(q) <= Val(tp)
  {
    TwoPowers(nv, nv, n);
    var w := tp[n..];
    VHighZero(w, n + 1, |w|);
    VHighZero(ap, n, |ap|);
    VFrame(q, w, n + 1);
    VZeros(q, n + 1, |q|);
    TailSplit(tp, n);
    PFacts(n);
    MulLe(1, P(n), Tail(tp, n));
  }

  lemma SubtractOnce(r: int, n: int, c: int, x: int)
    requires n > 0 && Cong(r * x, c, n)
    ensures Cong((r - n) * x, c, n)
  {
    var k := CongElim(r * x, c, n);
    MulDist(r, n, x);
    MulDist(k, x, n);
    CongIntro((r - n) * x, c, n, k - x);
  }

  lemma FirstWindow(z: seq<Limb>, a: seq<Limb>)
    requires z == Zeros(|z|)
    ensures Tail(z, 0) == 0 && V(a, 0) == 0
  {
    assert z[0..] == z;
    ZerosVal(|z|, |z|);
  }

  lemma RoundZero(bv: int, nv: int)
    ensures Round(0, 0, 0, bv, 0, nv)
  {
    PFacts(0);
  }

  /** All rounds: the window ends at A * B / R plus a multiple of N, below 2N. */
  method MontRounds(a: Mpi, b: Mpi, n: Mpi, mm: Limb, t: Mpi)
    requires t != a && t != b && t != n
    requires |n.p| > 0 && |a.p| > |n.p| && |b.p| > 0 && |t.p| >= 2 * |n.p| + 2
    requires B > 0 && Cong(n.p[0] * mm, -1, B)
    requires Val(n.p) > 0 && Val(a.p) < P(|n.p|) && Val(b.p) < P(|n.p|)
    requires Val(a.p) * Val(b.p) < Val(n.p) * P(|n.p|)
    modifies t
    ensures |t.p| == old(|t.p|) && Tail(t.p, |n.p|) < 2 * Val(n.p)
    ensures P(|n.p|) > 0 && Cong(Tail(t.p, |n.p|) * P(|n.p|), Val(a.p) * Val(b.p), Val(n.p))
  {
    t.p := Zeros(|t.p|);
    var i := 0;
    ghost var u := 0;
    FirstWindow(t.p, a.p);
    RoundZero(Val(b.p), Val(n.p));
    while i < |n.p|
      invariant 0 <= i <= |n.p| && |t.p| == old(|t.p|)
      invariant RoundState(t.p, a.p, i, Val(b.p), u, Val(n.p))
    {
      u := MontRound(a, b, n, mm, t, i, u);
      i := i + 1;
    }
    RoundsDone(t.p, a.p, |n.p|, Val(b.p), u, Val(n.p));
  }

  /** A = A * B * R^-1 mod N with R = B^|N|. */
  method MontMul(a: Mpi, b: Mpi, n: Mpi, mm: Limb, t: Mpi) returns (ret: Status)
    requires t != a && t != b && t != n && a != n
    requires |n.p| > 0 && |a.p| > |n.p| && |b.p| > 0
    requires |t.p| <= |n.p| || |t.p| >= 2 * |n.p| + 2
    requires B > 0 && Cong(n.p[0] * mm, -1, B)
    requires Val(n.p) > 0 && Val(a.p) < P(|n.p|) && Val(b.p) < P(|n.p|)
    requires Val(a.p) * Val(b.p) < Val(n.p) * P(|n.p|)
    modifies a, t
    ensures |t.p| == old(|t.p|) && |a.p| == old(|a.p|) && a.s == old(a.s)
    ensures old(|t.p|) <= |n.p| ==> ret == BadInputData && a.p == old(a.p) && t.p == old(t.p)
    ensures old(|t.p|) > |n.p| ==> ret == Ok && Val(a.p) < Val(n.p)
    ensures old(|t.p|) > |n.p| ==> Cong(Val(a.p) * P(|n.p|), old(Val(a.p)) * old(Val(b.p)), Val(n.p))
  {
    var len := |n.p|;
    if |t.p| < len + 1 { return BadInputData; }
    ghost var c0, nv, a0 := Val(a.p) * Val(b.p), Val(n.p), a.p;
    MontRounds(a, b, n, mm, t);
    VBound(n.p, len);
    a.p := t.p[len..2 * len + 1] + a.p[len + 1..];
    CopiedWindow(t.p, a0, a.p, len, nv);
    SubtractOnce(Val(a.p), nv, c0, P(len));
    var c := CmpAbs(a, n);
    if c >= 0 {
      SubHlp(len, n, a);
    } else {
      VMono(a.p, len, |a.p|);
      SubHlp(len, a, t);
    }
    return Ok;
  }

  /** A = A * R^-1 mod N. */
  method MontRed(a: Mpi, n: Mpi, mm: Limb, t: Mpi) returns (ret: Status)
    requires t != a && t != n && a != n
    requires |n.p| > 0 && |a.p| > |n.p|
    requires |t.p| <= |n.p| || |t.p| >= 2 * |n.p| + 2
    requires B > 0 && Cong(n.p[0] * mm, -1, B)
    requires Val(n.p) > 0 && Val(a.p) < P(|n.p|)
    modifies a, t
    ensures |t.p| == old(|t.p|) && |a.p| == old(|a.p|) && a.s == old(a.s)
    ensures old(|t.p|) <= |n.p| ==> ret == BadInputData && a.p == old(a.p) && t.p == old(t.p)
    ensures old(|t.p|) > |n.p| ==> ret == Ok && Val(a.p) < Val(n.p)
    ensures old(|t.p|) > |n.p| ==> Cong(Val(a.p) * P(|n.p|), old(Val(a.p)), Val(n.p))
  {
    BasePos();
    var u := new Mpi.Word(1, 1);
    PowMono(B, 1, |n.p|);
    PFacts(0);
    MulLe(1, Val(n.p), P(|n.p|));
    ret := MontMul(a, u, n, mm, t);
  }
}

/** Sliding-window modular exponentiation X = A^E mod N. */
module ExpMod {
  import opened Arith
  import Bits
  import opened Limbs
  import opened MpiCore
  import opened AddSub
  import opened Shift
  import opened LongDivision
  import opened Modulo
  import opened Montgomery
  import G = BinaryGcd

  /** Modulus and word inverse as every Montgomery step needs them. */
  ghost predicate Ready(n: seq<Limb>, mm: Limb) {
    |n| > 0 && B > 0 && Cong(n[0] * mm, -1, B) && Val(n) > 0 && Val(n) % 2 == 1
  }

  /** m holds a^k in Montgomery form, reduced. */
  ghost predicate IsPower(m: seq<Limb>, a: int, k: nat, n: seq<Limb>) {
    Val(n) > 0 && Val(m) < Val(n) && Cong(Val(m), Pow(a, k) * P(|n|), Val(n))
  }

  // ---- R is invertible modulo an odd N ----

  lemma {:induction false} OnePow(k: nat)
    ensures Pow(1, k) == 1
  {
    if k > 0 { OnePow(k - 1); }
  }

  /** An inverse of 2^k modulo an odd number. */
  lemma PowerInverse(n: int, k: nat) returns (h: int)
    requires n > 0 && n % 2 == 1
    ensures Cong(Pow(2, k) * h, 1, n)
  {
    var half := (n + 1) / 2;
    h := Pow(half, k);
    PowMulBase(2, half, k);
    CongIntro(2 * half, 1, n, 1);
    CongPow(2 * half, 1, k, n);
    OnePow(k);
  }

  lemma CancelOne(x: int, r: int, h: int, n: int)
    requires n > 0 && Cong(r * h, 1, n)
    ensures Cong(x * r * h, x, n)
  {
    CongRefl(x, n);
    CongMul(x, x, r * h, 1, n);
    MulAssoc(x, r, h);
  }

  /** R cancels modulo an odd N. */
  lemma CancelR(x: int, y: int, len: nat, n: int)
    requires n > 0 && n % 2 == 1 && Cong(x * P(len), y * P(len), n)
    ensures Cong(x, y, n)
  {
    PAsPow2(len);
    var r := P(len);
    var h := PowerInverse(n, biL * len);
    CongRefl(h, n);
    CongMul(x * r, y * r, h, h, n);
    CancelOne(x, r, h, n);
    CancelOne(y, r, h, n);
    CongSym(x * r * h, x, n);
    CongTrans(x, x * r * h, y * r * h, n);
    CongTrans(x, y * r * h, y, n);
  }

  /** The product of two Montgomery forms, with the factor R that the multiplication leaves, is one. */
  lemma FormProduct(z: int, x: int, y: int, alpha: int, beta: int, len: nat, n: int)
    requires n > 0 && n % 2 == 1 && Cong(z * P(len), x * y, n)
    requires Cong(x, alpha * P(len), n) && Cong(y, beta * P(len), n)
    ensures Cong(z, alpha * beta * P(len), n)
  {
    var r := P(len);
    CongMul(x, alpha * r, y, beta * r, n);
    CongTrans(z * r, x * y, (alpha * r) * (beta * r), n);
    MulSwap(alpha, r, beta, r);
    MulAssoc(alpha * beta, r, r);
    CancelR(z, alpha * beta * r, len, n);
  }

  /** Leaving Montgomery form. */
  lemma FormReduce(z: int, x: int, alpha: int, len: nat, n: int)
    requires n > 0 && n % 2 == 1 && Cong(z * P(len), x, n) && Cong(x, alpha * P(len), n)
    ensures Cong(z, alpha, n)
  {
    CongTrans(z * P(len), x, alpha * P(len), n);
    CancelR(z, alpha, len, n);
  }

  lemma ProductRoom(x: nat, y: nat, n: nat, r: nat)
    requires x < n && y < n && n < r
    ensures x * y < n * r
  {
    MulLe(x, n, y);
    MulLt(y, r, n);
  }

  /** X = X * Y for powers of the same base. */
  method TimesPower(x: Mpi, y: Mpi, n: Mpi, mm: Limb, t: Mpi, ghost a: int, ghost j: nat, ghost k: nat)
    requires t != x && t != y && t != n && x != n
    requires Ready(n.p, mm) && |x.p| > |n.p| && |y.p| > 0 && |t.p| >= 2 * |n.p| + 2
    requires IsPower(x.p, a, j, n.p) && IsPower(y.p, a, k, n.p)
    modifies x, t
    ensures |x.p| == old(|x.p|) && x.s == old(x.s) && |t.p| == old(|t.p|)
    ensures IsPower(x.p, a, j + k, n.p)
  {
    VBound(n.p, |n.p|);
    ghost var vx, vy := Val(x.p), Val(y.p);
    ProductRoom(vx, vy, Val(n.p), P(|n.p|));
    var ret := MontMul(x, y, n, mm, t);
    FormProduct(Val(x.p), vx, vy, Pow(a, j), Pow(a, k), |n.p|, Val(n.p));
    PowAdd(a, j, k);
  }

  // ---- R^2 mod N, possibly cached ----

  /** What the caller's cache must hold. */
  ghost predicate IsRR(v: int, n: seq<Limb>) {
    Val(n) > 0 && 0 <= v < P(|n|) && Cong(v, P(|n|) * P(|n|), Val(n))
  }

  lemma SquareOfR(len: nat)
    ensures len * 2 * biL >= 0 && Pow(2, len * 2 * biL) == P(len) * P(len)
  {
    PAsPow2(len);
    MulNonneg(len, biL);
    PowAdd(2, biL * len, biL * len);
    assert len * 2 * biL == biL * len + biL * len;
  }

  method PrepareRR(n: Mpi, rr: Mpi?) returns (r2: Mpi)
    requires rr != n && Val(n.p) > 0 && n.s == 1
    requires rr != null && |rr.p| > 0 ==> IsRR(rr.Value(), n.p)
    modifies rr
    ensures fresh(r2) && |r2.p| > 0 && IsRR(r2.Value(), n.p)
    ensures rr != null ==> |rr.p| > 0 && rr.Value() == r2.Value()
    ensures rr != null && old(|rr.p|) > 0 ==> rr.s == old(rr.s) && rr.p == old(rr.p)
  {
    r2 := new Mpi();
    if rr == null || |rr.p| == 0 {
      BaseFacts();
      Lset(r2, 1);
      var count := |n.p| * 2 * biL;
      ShiftL(r2, count);
      var e := ModMpi(r2, r2, n);
      SquareOfR(|n.p|);
      CongMod(P(|n.p|) * P(|n.p|), Val(n.p));
      DivModFacts(P(|n.p|) * P(|n.p|), Val(n.p));
      VBound(n.p, |n.p|);
      if rr != null {
        rr.s, rr.p := r2.s, r2.p;
      }
    } else {
      r2.s, r2.p := rr.s, rr.p;
    }
  }

  // ---- scanning the exponent ----

  /** The exponent bits already consumed, as a number. */
  ghost function Consumed(p: seq<Limb>, limbs: nat, bits: nat): nat
    requires limbs <= |p|
  {
    PowPos(2, bits);
    DivShrinks(Tail(p, limbs), Pow(2, bits));
    Tail(p, limbs) / Pow(2, bits)
  }

  lemma ConsumedNextLimb(p: seq<Limb>, limbs: nat)
    requires 0 < limbs <= |p|
    ensures Consumed(p, limbs, 0) == Consumed(p, limbs - 1, biL)
  {
    TailPeel(p, limbs - 1);
    DivModUnique(Tail(p, limbs - 1), B, Tail(p, limbs), p[limbs - 1]);
    DivModUnique(Tail(p, limbs), 1, Tail(p, limbs), 0);
  }

  lemma HalveDiv(v: nat, m: int)
    requires m > 0
    ensures v / m == 2 * (v / (2 * m)) + v / m % 2
  {
    DivDiv(v, m, 2);
    DivModFacts(v / m, 2);
  }

  lemma BitOfSum(x: int, w: int, m: int, c: int)
    requires m > 0 && x >= 0 && B == m * (2 * c)
    ensures (w * B + x) / m % 2 == x / m % 2
  {
    DivModFacts(x, m);
    var h := x / m;
    MulAssoc(w, m, 2 * c);
    MulAssoc(w, 2, c);
    MulDist(2 * (w * c), h, m);
    DivModUnique(w * B + x, m, 2 * (w * c) + h, x % m);
    ModAddMultiple(h, w * c, 2);
  }

  /** The next exponent bit. */
  lemma ConsumedNextBit(p: seq<Limb>, limbs: nat, bits: nat)
    requires limbs < |p| && bits < biL && Pow(2, bits) > 0
    ensures Consumed(p, limbs, bits) == 2 * Consumed(p, limbs, bits + 1) + p[limbs] / Pow(2, bits) % 2
  {
    var m := Pow(2, bits);
    HalveDiv(Tail(p, limbs), m);
    TailPeel(p, limbs);
    PowAdd(2, bits, biL - bits);
    var c := Pow(2, biL - bits - 1);
    BitOfSum(p[limbs], Tail(p, limbs + 1), m, c);
  }

  /** k squarings of X. */
  method Squarings(x: Mpi, n: Mpi, mm: Limb, t: Mpi, k: nat, ghost a: int, ghost c: nat)
    requires t != x && t != n && x != n
    requires Ready(n.p, mm) && |x.p| > |n.p| && |t.p| >= 2 * |n.p| + 2 && IsPower(x.p, a, c, n.p)
    modifies x, t
    ensures |x.p| == old(|x.p|) && x.s == old(x.s) && |t.p| == old(|t.p|)
    ensures c * Pow(2, k) >= 0 && IsPower(x.p, a, c * Pow(2, k), n.p)
  {
    var i := 0;
    assert c * Pow(2, 0) == c;
    while i < k
      invariant 0 <= i <= k && |x.p| == old(|x.p|) && x.s == old(x.s) && |t.p| == old(|t.p|)
      invariant c * Pow(2, i) >= 0 && IsPower(x.p, a, c * Pow(2, i), n.p)
    {
      ghost var e := c * Pow(2, i);
      TimesPower(x, x, n, mm, t, a, e, e);
      MulAssoc(c, 2, Pow(2, i));
      i := i + 1;
    }
  }

  // ---- the table of powers ----

  /** Entries lo..hi-1 hold the powers their index names. */
  ghost predicate TableOk(w: seq<Mpi?>, lo: nat, hi: nat, a: int, n: seq<Limb>)
    reads w
  {
    hi <= |w| && forall k: nat :: lo <= k < hi ==> w[k] != null && |w[k].p| > 0 && IsPower(w[k].p, a, k, n)
  }

  ghost predicate TableApart(w: seq<Mpi?>, x: Mpi, t: Mpi) {
    forall k :: 0 <= k < |w| ==> w[k] != x && w[k] != t
  }

  /** W[k] = copy of W[from], grown to hold one limb more than N. */
  method NewEntry(from: Mpi, n: Mpi, ghost a: int, ghost k: nat) returns (m: Mpi)
    requires |n.p| > 0 && |from.p| > 0 && IsPower(from.p, a, k, n.p)
    ensures fresh(m) && |m.p| > |n.p| && IsPower(m.p, a, k, n.p)
  {
    m := new Mpi();
    Grow(m, |n.p| + 1);
    Copy(m, from);
  }

  /** W[1 << (wsize - 1)] by wsize - 1 squarings of W[1]. */
  method HalfEntry(w1: Mpi, n: Mpi, mm: Limb, t: Mpi, wsize: nat, ghost a: int) returns (m: Mpi)
    requires t != w1 && t != n && 1 <= wsize
    requires Ready(n.p, mm) && |w1.p| > |n.p| && |t.p| >= 2 * |n.p| + 2 && IsPower(w1.p, a, 1, n.p)
    modifies t
    ensures |t.p| == old(|t.p|) && fresh(m)
    ensures Pow(2, wsize - 1) >= 0 && |m.p| > |n.p| && IsPower(m.p, a, Pow(2, wsize - 1), n.p)
  {
    m := NewEntry(w1, n, a, 1);
    Squarings(m, n, mm, t, wsize - 1, a, 1);
  }

  /** The table from W[1 << (wsize - 1)] up, each entry one multiplication after its neighbour. */
  method BuildTable(w1: Mpi, n: Mpi, mm: Limb, t: Mpi, wsize: nat, ghost a: int) returns (w: seq<Mpi?>)
    requires t != w1 && t != n && 1 <= wsize
    requires Ready(n.p, mm) && |w1.p| > |n.p| && |t.p| >= 2 * |n.p| + 2 && IsPower(w1.p, a, 1, n.p)
    modifies t
    ensures |t.p| == old(|t.p|)
    ensures forall k :: 0 <= k < |w| ==> w[k] == null || w[k] == w1 || fresh(w[k])
    ensures Pow(2, wsize - 1) >= 0 && Pow(2, wsize) >= 0
    ensures TableOk(w, Pow(2, wsize - 1), Pow(2, wsize), a, n.p)
  {
    PowPos(2, wsize - 1);
    var half: nat := Pow(2, wsize - 1);
    w := seq(2 * half, _ => null);
    w := w[1 := w1];
    if wsize > 1 {
      var m := HalfEntry(w1, n, mm, t, wsize, a);
      w := w[half := m];
      var i := half + 1;
      while i < 2 * half
        invariant half < i <= 2 * half == |w| && |t.p| == old(|t.p|)
        invariant forall k :: 0 <= k < |w| ==> w[k] == null || w[k] == w1 || fresh(w[k])
        invariant TableOk(w, half, i, a, n.p)
      {
        m := NewEntry(w[i - 1], n, a, i - 1);
        TimesPower(m, w1, n, mm, t, a, i - 1, 1);
        w := w[i := m];
        i := i + 1;
      }
    } else {
      assert half == 1;
    }
  }

  // ---- the sliding window ----

  /** x == 2^k times y. */
  ghost predicate Scaled(x: nat, y: nat, k: nat) {
    x == y * Pow(2, k)
  }

  /**
   * The scan's bookkeeping. c is the exponent X already holds; hi is the number formed by all bits
   * consumed; top is the pending window of nbits bits, stored left-aligned in wbits.
   */
  ghost predicate Window(state: nat, nbits: nat, wbits: nat, wsize: nat, c: nat, hi: nat, top: nat) {
    && nbits < wsize
    && (state == 0 ==> nbits == 0 && wbits == 0 && c == 0 && hi == 0)
    && (state == 1 ==> nbits == 0 && wbits == 0 && c == hi)
    && (state == 2 ==>
          && nbits > 0 && Pow(2, nbits - 1) <= top < Pow(2, nbits)
          && hi == c * Pow(2, nbits) + top && Scaled(wbits, top, wsize - nbits))
    && state <= 2
  }

  /** Taking a bit into the window keeps the window's leading bit and the left alignment. */
  lemma WindowBit(state: nat, nbits: nat, wbits: nat, wsize: nat, c: nat, hi: nat, top: nat, ei: nat, wbits': nat)
    returns (top': nat)
    requires Window(state, nbits, wbits, wsize, c, hi, top) && ei <= 1 && (ei == 1 || state == 2)
    requires wbits' == wbits + ei * Pow(2, wsize - nbits - 1)
    ensures Pow(2, nbits) <= top' < Pow(2, nbits + 1)
    ensures 2 * hi + ei == c * Pow(2, nbits + 1) + top'
    ensures Scaled(wbits', top', wsize - nbits - 1)
  {
    assert Pow(2, wsize - nbits) == 2 * Pow(2, wsize - nbits - 1);
    if state == 2 {
      top' := 2 * top + ei;
      MulAssoc(c, 2, Pow(2, nbits));
      MulAssoc(top, 2, Pow(2, wsize - nbits - 1));
      MulDist(2 * top, ei, Pow(2, wsize - nbits - 1));
    } else {
      top' := 1;
      assert Pow(2, 0) == 1 && Pow(2, 1) == 2 * Pow(2, 0);
    }
  }

  /** The place of the bit is still clear in the window. */
  lemma WindowOr(state: nat, nbits: nat, wbits: nat, wsize: nat, c: nat, hi: nat, top: nat, ei: nat)
    requires Window(state, nbits, wbits, wsize, c, hi, top) && ei <= 1
    ensures var bit := ei * Pow(2, wsize - nbits - 1); bit >= 0 && Bits.Or(wbits, bit) == wbits + bit
  {
    var k := wsize - nbits;
    PowPos(2, k);
    PowPos(2, k - 1);
    assert Pow(2, k) == 2 * Pow(2, k - 1);
    DivModUnique(wbits, Pow(2, k), if state == 2 then top else 0, 0);
    Bits.OrAligned(wbits, ei * Pow(2, k - 1), k);
  }

  /** When a bit fills the window, the window is the index of a table entry, which holds that power. */
  lemma FullWindow(state: nat, nbits: nat, wbits: nat, wsize: nat, c: nat, hi: nat, top: nat, ei: nat,
                   w: seq<Mpi?>, a: int, n: seq<Limb>)
    requires Window(state, nbits, wbits, wsize, c, hi, top) && nbits + 1 == wsize
    requires ei <= 1 && (ei == 1 || state == 2)
    requires Pow(2, wsize - 1) >= 0 && Pow(2, wsize) >= 0
    requires TableOk(w, Pow(2, wsize - 1), Pow(2, wsize), a, n)
    ensures Pow(2, wsize - 1) <= wbits + ei < Pow(2, wsize)
    ensures 2 * hi + ei == c * Pow(2, wsize) + (wbits + ei)
    ensures wbits + ei < |w| && w[wbits + ei] != null && IsPower(w[wbits + ei].p, a, wbits + ei, n)
  {
    assert Pow(2, 0) == 1;
    var top' := WindowBit(state, nbits, wbits, wsize, c, hi, top, ei, wbits + ei);
  }

  /** One bit of an exponent limb. */
  method ExponentBit(e: Mpi, limbs: nat, bits: nat) returns (ei: nat)
    requires limbs < |e.p| && bits < biL
    ensures ei <= 1 && Consumed(e.p, limbs, bits) == 2 * Consumed(e.p, limbs, bits + 1) + ei
  {
    PowPos(2, bits);
    ConsumedNextBit(e.p, limbs, bits);
    ei := e.p[limbs] / Pow(2, bits) % 2;
  }

  /** One bit of the exponent: skipped, squared in, or taken into the window, which is flushed when full. */
  method TakeBit(x: Mpi, w: seq<Mpi?>, n: Mpi, mm: Limb, t: Mpi, wsize: nat, state: nat, nbits: nat, wbits: nat,
                 ei: nat, ghost a: int, ghost c: nat, ghost hi: nat, ghost top: nat)
    returns (state': nat, nbits': nat, wbits': nat, ghost c': nat, ghost top': nat)
    requires t != x && t != n && x != n && 1 <= wsize && TableApart(w, x, t) && ei <= 1
    requires Ready(n.p, mm) && |x.p| > |n.p| && |t.p| >= 2 * |n.p| + 2 && IsPower(x.p, a, c, n.p)
    requires Pow(2, wsize - 1) >= 0 && Pow(2, wsize) >= 0
    requires TableOk(w, Pow(2, wsize - 1), Pow(2, wsize), a, n.p)
    requires Window(state, nbits, wbits, wsize, c, hi, top)
    modifies x, t
    ensures |x.p| == old(|x.p|) && x.s == old(x.s) && |t.p| == old(|t.p|)
    ensures IsPower(x.p, a, c', n.p) && Window(state', nbits', wbits', wsize, c', 2 * hi + ei, top')
  {
    state', nbits', wbits', c', top' := state, nbits, wbits, c, top;
    if ei == 0 && state == 0 { return; }
    if ei == 0 && state == 1 {
      TimesPower(x, x, n, mm, t, a, c, c);
      c' := c + c;
      return;
    }
    PowPos(2, wsize - nbits - 1);
    state' := 2;
    nbits' := nbits + 1;
    WindowOr(state, nbits, wbits, wsize, c, hi, top, ei);
    wbits' := Bits.Or(wbits, ei * Pow(2, wsize - nbits'));
    top' := WindowBit(state, nbits, wbits, wsize, c, hi, top, ei, wbits');
    if nbits' == wsize {
      FullWindow(state, nbits, wbits, wsize, c, hi, top, ei, w, a, n.p);
      Squarings(x, n, mm, t, wsize, a, c);
      TimesPower(x, w[wbits'], n, mm, t, a, c * Pow(2, wsize), wbits');
      c' := c * Pow(2, wsize) + wbits';
      state' := state' - 1;
      nbits' := 0;
      wbits' := 0;
    }
  }

  lemma ConsumedStart(p: seq<Limb>)
    ensures Consumed(p, |p|, 0) == 0
  {}

  lemma ConsumedAll(p: seq<Limb>)
    ensures Consumed(p, 0, 0) == Val(p)
  {
    assert p[0..] == p;
    DivModUnique(Val(p), 1, Val(p), 0);
  }

  /** The main loop: consumes every exponent bit, leaving at most a partial window pending. */
  method ScanExponent(x: Mpi, w: seq<Mpi?>, e: Mpi, n: Mpi, mm: Limb, t: Mpi, wsize: nat, ghost a: int)
    returns (nbits: nat, wbits: nat, ghost c: nat, ghost top: nat, ghost state': nat)
    requires t != x && t != n && x != n && t != e && x != e && 1 <= wsize && TableApart(w, x, t)
    requires Ready(n.p, mm) && |x.p| > |n.p| && |t.p| >= 2 * |n.p| + 2 && IsPower(x.p, a, 0, n.p)
    requires Pow(2, wsize - 1) >= 0 && Pow(2, wsize) >= 0
    requires TableOk(w, Pow(2, wsize - 1), Pow(2, wsize), a, n.p)
    modifies x, t
    ensures |x.p| == old(|x.p|) && x.s == old(x.s) && |t.p| == old(|t.p|)
    ensures IsPower(x.p, a, c, n.p) && Window(state', nbits, wbits, wsize, c, Val(e.p), top)
  {
    var limbs, bits, state := |e.p|, 0, 0;
    nbits, wbits, c, top := 0, 0, 0, 0;
    ConsumedStart(e.p);
    while true
      invariant 0 <= limbs <= |e.p| && 0 <= bits <= biL && (limbs == |e.p| ==> bits == 0)
      invariant |x.p| == old(|x.p|) && x.s == old(x.s) && |t.p| == old(|t.p|)
      invariant IsPower(x.p, a, c, n.p)
      invariant Window(state, nbits, wbits, wsize, c, Consumed(e.p, limbs, bits), top)
      decreases limbs, bits
    {
      if bits == 0 {
        if limbs == 0 { break; }
        ConsumedNextLimb(e.p, limbs);
        limbs := limbs - 1;
        bits := biL;
      }
      bits := bits - 1;
      var ei := ExponentBit(e, limbs, bits);
      ghost var hi := Consumed(e.p, limbs, bits + 1);
      state, nbits, wbits, c, top := TakeBit(x, w, n, mm, t, wsize, state, nbits, wbits, ei, a, c, hi, top);
    }
    ConsumedAll(e.p);
    state' := state;
  }

  /** The i-th bit from the top of the pending window. */
  lemma ScaledDiv(x: nat, y: nat, p: int, q: int, r: int)
    requires p > 0 && q > 0 && x == y * p && r == p * q
    ensures r > 0 && x / r == y / q
  {
    DivDiv(x, p, q);
    DivModUnique(x, p, y, 0);
  }

  /** Exponent after i of the pending bits. */
  ghost function Pending(c: nat, top: nat, nbits: nat, i: nat): nat
    requires i <= nbits
  {
    PowPos(2, i);
    PowPos(2, nbits - i);
    MulNonneg(c, Pow(2, i));
    DivShrinks(top, Pow(2, nbits - i));
    c * Pow(2, i) + top / Pow(2, nbits - i)
  }

  lemma PendingStep(c: nat, top: nat, nbits: nat, i: nat)
    requires i < nbits
    ensures Pow(2, nbits - i - 1) > 0
    ensures Pending(c, top, nbits, i + 1) == 2 * Pending(c, top, nbits, i) + top / Pow(2, nbits - i - 1) % 2
  {
    PowPos(2, nbits - i - 1);
    HalveDiv(top, Pow(2, nbits - i - 1));
    MulAssoc(c, 2, Pow(2, i));
    MulAssoc(2, c, Pow(2, i));
  }

  lemma PendingEnds(c: nat, top: nat, nbits: nat)
    requires top < Pow(2, nbits)
    ensures Pending(c, top, nbits, 0) == c
    ensures Pending(c, top, nbits, nbits) == c * Pow(2, nbits) + top
  {
    DivModUnique(top, Pow(2, nbits), 0, top);
    DivModUnique(top, 1, top, 0);
  }

  /** One pending bit: square, shift the window left, multiply when its bit comes out. */
  method PendingTurn(x: Mpi, w1: Mpi, n: Mpi, mm: Limb, t: Mpi, wsize: nat, nbits: nat, wbits: nat, i: nat,
                     ghost a: int, ghost c: nat, ghost top: nat) returns (wbits': nat)
    requires t != x && t != n && x != n && w1 != x && w1 != t && i < nbits < wsize
    requires Ready(n.p, mm) && |x.p| > |n.p| && |t.p| >= 2 * |n.p| + 2 && |w1.p| > 0
    requires IsPower(x.p, a, Pending(c, top, nbits, i), n.p) && IsPower(w1.p, a, 1, n.p)
    requires Scaled(wbits, top, wsize - nbits + i)
    modifies x, t
    ensures |x.p| == old(|x.p|) && x.s == old(x.s) && |t.p| == old(|t.p|)
    ensures IsPower(x.p, a, Pending(c, top, nbits, i + 1), n.p)
    ensures Scaled(wbits', top, wsize - nbits + i + 1)
  {
    ghost var k := Pending(c, top, nbits, i);
    TimesPower(x, x, n, mm, t, a, k, k);
    MulAssoc(top, 2, Pow(2, wsize - nbits + i));
    wbits' := 2 * wbits;
    PendingStep(c, top, nbits, i);
    ghost var k' := nbits - i - 1;
    PowPos(2, wsize - k');
    PowAdd(2, wsize - k', k');
    ScaledDiv(wbits', top, Pow(2, wsize - k'), Pow(2, k'), Pow(2, wsize));
    if wbits' / Pow(2, wsize) % 2 != 0 {
      TimesPower(x, w1, n, mm, t, a, k + k, 1);
    }
  }

  /** The bits of an unfinished window, one squaring each. */
  method FinishWindow(x: Mpi, w1: Mpi, n: Mpi, mm: Limb, t: Mpi, wsize: nat, nbits: nat, wbits_: nat,
                      ghost state: nat, ghost a: int, ghost c: nat, ghost e: nat, ghost top: nat)
    requires t != x && t != n && x != n && w1 != x && w1 != t && 1 <= wsize
    requires Ready(n.p, mm) && |x.p| > |n.p| && |t.p| >= 2 * |n.p| + 2 && |w1.p| > 0
    requires IsPower(x.p, a, c, n.p) && IsPower(w1.p, a, 1, n.p)
    requires Window(state, nbits, wbits_, wsize, c, e, top)
    modifies x, t
    ensures |x.p| == old(|x.p|) && x.s == old(x.s) && |t.p| == old(|t.p|)
    ensures IsPower(x.p, a, e, n.p)
  {
    if nbits == 0 { return; }
    var i, wbits := 0, wbits_;
    PendingEnds(c, top, nbits);
    while i < nbits
      invariant 0 <= i <= nbits
      invariant |x.p| == old(|x.p|) && x.s == old(x.s) && |t.p| == old(|t.p|)
      invariant Scaled(wbits, top, wsize - nbits + i)
      invariant IsPower(x.p, a, Pending(c, top, nbits, i), n.p)
    {
      wbits := PendingTurn(x, w1, n, mm, t, wsize, nbits, wbits, i, a, c, top);
      i := i + 1;
    }
  }

  // ---- the whole exponentiation ----

  function WindowSize(bits: nat): (w: nat)
    ensures 1 <= w <= 6
  {
    if bits > 671 then 6 else if bits > 239 then 5 else if bits > 79 then 4 else if bits > 23 then 3 else 1
  }

  /** |A| itself, or a positive copy of a negative A. */
  method PositiveBase(a: Mpi) returns (b: Mpi, neg: bool)
    requires |a.p| > 0
    ensures neg == (a.s == -1) && b.s == 1 && Val(b.p) == Val(a.p) && |b.p| > 0
    ensures b == a || fresh(b)
  {
    neg := a.s == -1;
    b := a;
    if neg {
      b := new Mpi();
      Copy(b, a);
      b.s := 1;
    }
  }

  lemma FirstRoom(v: nat, rr: nat, n: nat, r: nat)
    requires v < n && rr < r
    ensures v * rr < n * r
  {
    MulLe(v, n, rr);
    MulLt(rr, r, n);
  }

  lemma FirstForm(z: int, v: int, rr: int, a: int, len: nat, n: int)
    requires n > 0 && n % 2 == 1 && Cong(z * P(len), v * rr, n)
    requires Cong(v, a, n) && Cong(rr, P(len) * P(len), n)
    ensures Cong(z, a * P(len), n)
  {
    var r := P(len);
    CongMul(v, a, rr, r * r, n);
    CongTrans(z * r, v * rr, a * (r * r), n);
    MulAssoc(a, r, r);
    CancelR(z, a * r, len, n);
  }

  /** W[1] = |A| * R mod N. */
  method FirstEntry(a: Mpi, r2: Mpi, n: Mpi, mm: Limb, t: Mpi) returns (w1: Mpi)
    requires t != a && t != r2 && t != n && r2 != n
    requires Ready(n.p, mm) && n.s == 1 && a.s == 1 && |a.p| > 0 && |t.p| >= 2 * |n.p| + 2
    requires |r2.p| > 0 && IsRR(r2.Value(), n.p)
    modifies t
    ensures |t.p| == old(|t.p|) && fresh(w1)
    ensures |w1.p| > |n.p| && IsPower(w1.p, Val(a.p), 1, n.p)
  {
    w1 := new Mpi();
    Grow(w1, |n.p| + 1);
    var c := CmpMpi(a, n);
    if c >= 0 {
      var e := ModMpi(w1, a, n);
      CongMod(Val(a.p), Val(n.p));
      DivModFacts(Val(a.p), Val(n.p));
    } else {
      Copy(w1, a);
      CongRefl(Val(a.p), Val(n.p));
    }
    ghost var v, rr := Val(w1.p), Val(r2.p);
    VBound(n.p, |n.p|);
    FirstRoom(v, rr, Val(n.p), P(|n.p|));
    var ret := MontMul(w1, r2, n, mm, t);
    FirstForm(Val(w1.p), v, rr, Val(a.p), |n.p|, Val(n.p));
    assert Pow(Val(a.p), 1) == Val(a.p) * Pow(Val(a.p), 0);
  }

  /** X = R mod N, the zeroth power. */
  method ZerothPower(x: Mpi, r2: Mpi, n: Mpi, mm: Limb, t: Mpi)
    requires t != x && t != r2 && t != n && r2 != n && r2 != x && x != n
    requires Ready(n.p, mm) && |x.p| > |n.p| && |t.p| >= 2 * |n.p| + 2
    requires |r2.p| > 0 && IsRR(r2.Value(), n.p)
    modifies x, t
    ensures |t.p| == old(|t.p|) && |x.p| >= old(|x.p|) && x.s == r2.s
    ensures IsPower(x.p, 0, 0, n.p)
  {
    Copy(x, r2);
    ghost var rr := Val(r2.p);
    var ret := MontRed(x, n, mm, t);
    var len, r := |n.p|, P(|n.p|);
    CongTrans(Val(x.p) * r, rr, r * r, Val(n.p));
    CancelR(Val(x.p), r, len, Val(n.p));
  }

  /** A cached R^2 of zero only fits the modulus one. */
  lemma ZeroRR(v: int, n: seq<Limb>)
    requires IsRR(v, n) && Val(n) % 2 == 1 && v == 0
    ensures Val(n) == 1
  {
    var m, r := Val(n), P(|n|);
    CongRefl(0, m);
    CongSym(0, r * r, m);
    CancelR(r, 0, |n|, m);
    assert Cong(1 * r, 0 * r, m);
    CancelR(1, 0, |n|, m);
    CongUnique(0, 1, m);
    DivModFacts(1, m);
  }

  lemma NegMul(a: int, b: int)
    ensures (-a) * b == -(a * b) && (-a) * (-b) == a * b
  {}

  /** Odd powers of a negated base are negated. */
  lemma {:induction false} NegPow(a: int, e: nat)
    ensures Pow(-a, e) == if e % 2 == 1 then -Pow(a, e) else Pow(a, e)
  {
    if e > 0 {
      NegPow(a, e - 1);
      NegMul(a, Pow(a, e - 1));
    }
  }

  /** The result for base -a from the residue v of a^e. */
  lemma NegatedResult(a: int, e: nat, v: int, n: int)
    requires 0 <= v < n && Cong(v, Pow(a, e), n)
    ensures e % 2 == 0 ==> v == Pow(-a, e) % n
    ensures e % 2 == 1 ==> Cong(n - v, Pow(-a, e), n)
    ensures e % 2 == 1 ==> (n - v == Pow(-a, e) % n <==> Pow(-a, e) % n != 0)
  {
    NegPow(a, e);
    CongUnique(v, Pow(a, e), n);
    if e % 2 == 1 {
      CongRefl(0, n);
      CongAdd(0, 0, v, Pow(a, e), n);
      CongStep(-v, Pow(-a, e), n);
      if v > 0 {
        CongUnique(n - v, Pow(-a, e), n);
      } else {
        CongUnique(0, Pow(-a, e), n);
      }
    }
  }

  /** Inputs the function accepts. */
  ghost predicate Acceptable(e: int, n: int) {
    n > 0 && n % 2 == 1 && e >= 0
  }

  /** X = |A|^E mod N; X in Montgomery form throughout, then reduced. */
  method PositivePower(x: Mpi, a: Mpi, e: Mpi, n: Mpi, r2: Mpi, mm: Limb, wsize: nat)
    requires x != e && x != n && r2 != n && r2 != x && r2 != a
    requires Ready(n.p, mm) && n.s == 1 && a.s == 1 && |a.p| > 0 && |x.p| > |n.p| && 1 <= wsize
    requires |r2.p| > 0 && IsRR(r2.Value(), n.p)
    modifies x
    ensures x.s == old(r2.s) && 0 <= Val(x.p) < Val(n.p) && |x.p| > |n.p|
    ensures Cong(Val(x.p), Pow(old(Val(a.p)), Val(e.p)), Val(n.p))
  {
    ghost var va := Val(a.p);
    var t := new Mpi();
    Grow(t, (|n.p| + 1) * 2);
    var w1 := FirstEntry(a, r2, n, mm, t);
    ZerothPower(x, r2, n, mm, t);
    var w := BuildTable(w1, n, mm, t, wsize, va);
    assert Pow(va, 0) == 1;
    var nbits, wbits, c, top, state := ScanExponent(x, w, e, n, mm, t, wsize, va);
    FinishWindow(x, w1, n, mm, t, wsize, nbits, wbits, state, va, c, Val(e.p), top);
    VBound(n.p, |n.p|);
    ghost var v := Val(x.p);
    var ret := MontRed(x, n, mm, t);
    FormReduce(Val(x.p), v, Pow(va, Val(e.p)), |n.p|, Val(n.p));
  }

  /**
   * What the result v for base a (written with sign s) is: congruent to a^e and within [0, n]; the least
   * residue itself except when an odd power of a base with a minus sign vanishes, where it is n.
   */
  ghost predicate PowerResult(v: int, a: int, s: Sign, e: nat, n: int) {
    && n > 0 && 0 <= v <= n && Cong(v, Pow(a, e), n)
    && (v == Pow(a, e) % n <==> !(s == -1 && e % 2 == 1 && Pow(a, e) % n == 0))
  }

  lemma PlainResult(v: int, a: int, s: Sign, e: nat, n: int)
    requires 0 <= v < n && Cong(v, Pow(a, e), n) && (s == 1 || e % 2 == 0)
    ensures PowerResult(v, a, s, e, n)
  {
    CongUnique(v, Pow(a, e), n);
  }

  lemma EvenNegated(v: int, a: int, e: nat, n: int)
    requires 0 <= v < n && Cong(v, Pow(a, e), n) && e % 2 == 0
    ensures Cong(v, Pow(-a, e), n)
  {
    NegPow(a, e);
  }

  lemma OddNegated(v: int, a: int, e: nat, n: int)
    requires 0 <= v < n && Cong(v, Pow(a, e), n) && e % 2 == 1
    ensures PowerResult(n - v, -a, -1, e, n)
  {
    NegatedResult(a, e, v, n);
  }

  /** A factor prime to N brings no multiple of N about. */
  lemma NoNewFactor(a: nat, m: nat, n: nat)
    requires n > 1 && G.Gcd(a, n) == 1 && m > 0 && m % n != 0
    ensures a * m % n != 0
  {
    if a * m % n == 0 {
      MulNonneg(a, m);
      MulPos(n, m);
      assert G.IsGcd(m, a * m, n * m) by {
        G.GcdScale(a, n, m);
        G.GcdIs(a * m, n * m);
      }
      G.DivIntro(n, n * m, m);
    }
  }

  /** A base without a common factor with N has no power that N divides. */
  lemma {:induction false} CoprimePower(a: nat, e: nat, n: nat)
    requires n > 1 && G.Gcd(a, n) == 1
    ensures Pow(a, e) > 0 && Pow(a, e) % n != 0
  {
    PowPos(a, e);
    if e == 0 {
      DivModUnique(1, n, 0, 1);
    } else {
      CoprimePower(a, e - 1, n);
      NoNewFactor(a, Pow(a, e - 1), n);
    }
  }

  /** So for N > 1 and gcd(|A|, N) = 1, which a caller can check, the result is the least residue whatever the signs. */
  lemma CoprimeResult(v: int, a: int, s: Sign, e: nat, n: int)
    requires PowerResult(v, a, s, e, n) && n > 1 && G.Gcd(AbsInt(a), n) == 1
    ensures v == Pow(a, e) % n
  {
    CoprimePower(AbsInt(a), e, n);
    if a < 0 {
      NegPow(-a, e);
      if Pow(a, e) % n == 0 {
        var k := G.DivElim(n, Pow(a, e));
        MulAssoc(-1, k, n);
        G.DivIntro(n, -Pow(a, e), -k);
      }
    }
  }

  /** For (-3)^1 mod 3 the result is 3, not 0. */
  lemma NegativeWitness(v: int)
    requires PowerResult(v, -3, -1, 1, 3)
    ensures Pow(-3, 1) % 3 == 0 && v == 3
  {
    assert Pow(-3, 1) == -3 * Pow(-3, 0);
  }

  /** Corrects the result for a base with a minus sign: X = N - X when the exponent is odd. */
  method CorrectSign(x: Mpi, e: Mpi, n: Mpi, neg: bool, ghost va: nat)
    requires x != e && x != n && n.s == 1 && e.Value() >= 0
    requires 0 <= Val(x.p) < Val(n.p) && (x.s == 1 || Val(x.p) == 0)
    requires Cong(Val(x.p), Pow(va, Val(e.p)), Val(n.p))
    modifies x
    ensures PowerResult(x.Value(), if neg then -(va as int) else va as int, if neg then -1 else 1, Val(e.p), Val(n.p))
  {
    ghost var v, ev, nv := Val(x.p), Val(e.p), Val(n.p);
    if |e.p| > 0 { VLow(e.p, |e.p|); }
    if neg && |e.p| != 0 && e.p[0] % 2 != 0 {
      OddNegated(v, va, ev, nv);
      x.s := -1;
      AddMpi(x, n, x);
    } else if neg {
      EvenNegated(v, va, ev, nv);
      PlainResult(v, -(va as int), -1, ev, nv);
    } else {
      PlainResult(v, va, 1, ev, nv);
    }
  }

  /** The checks on N and E. */
  method CheckInputs(e: Mpi, n: Mpi) returns (ok: bool)
    ensures ok <==> Acceptable(e.Value(), n.Value())
    ensures ok ==> |n.p| > 0 && n.p[0] % 2 == 1 && n.s == 1 && Val(n.p) == n.Value()
  {
    BasePos();
    var c := CmpInt(n, 0);
    if c <= 0 { return false; }
    NonzeroHasLimbs(n.p);
    VLow(n.p, |n.p|);
    if n.p[0] % 2 == 0 { return false; }
    c := CmpInt(e, 0);
    return c >= 0;
  }

  lemma SignOfZero(s: Sign, v: nat, n: seq<Limb>)
    requires IsRR(Signed(s, v), n) && Val(n) % 2 == 1
    ensures s == 1 || Val(n) == 1
  {
    if s == -1 { ZeroRR(0, n); }
  }

  /** X = A^E mod N for odd N > 0 and E >= 0. */
  method PowerMod(x: Mpi, a: Mpi, e: Mpi, n: Mpi, rr: Mpi?) returns (ret: Status)
    requires x != e && x != n && |a.p| > 0
    requires rr != n && rr != x && rr != a && rr != e
    requires rr != null && |rr.p| > 0 && Acceptable(e.Value(), n.Value()) ==> IsRR(rr.Value(), n.p)
    modifies x, rr
    ensures !Acceptable(e.Value(), n.Value()) ==> ret == BadInputData && x.s == old(x.s) && x.p == old(x.p)
    ensures Acceptable(e.Value(), n.Value()) ==> ret == Ok
    ensures Acceptable(e.Value(), n.Value()) ==>
      PowerResult(x.Value(), old(a.Value()), old(a.s), e.Value(), n.Value())
    ensures ret == Ok && rr != null ==> |rr.p| > 0 && IsRR(rr.Value(), n.p)
  {
    var ok := CheckInputs(e, n);
    if !ok { return BadInputData; }
    var mm := MontgInit(n);
    var bits := Bitlen(e);
    Grow(x, |n.p| + 1);
    var b, neg := PositiveBase(a);
    var r2 := PrepareRR(n, rr);
    ghost var va := Val(b.p);
    PositivePower(x, b, e, n, r2, mm, WindowSize(bits));
    SignOfZero(r2.s, Val(r2.p), n.p);
    CorrectSign(x, e, n, neg, va);
    return Ok;
  }
}

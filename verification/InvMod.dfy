/** Modular inverse by the binary extended Euclidean algorithm. */
module InvMod {
  import opened Arith
  import opened Limbs
  import opened MpiCore
  import opened AddSub
  import opened Shift
  import opened LongDivision
  import opened Modulo
  import opened BinaryGcd

  /** u expresses t as a combination of ta and tb. */
  ghost predicate Bezout(u1: int, u2: int, ta: int, tb: int, t: int) {
    u1 * ta + u2 * tb == t
  }

  lemma ProductParity(a: int, b: int)
    ensures a * b % 2 == (if a % 2 == 1 && b % 2 == 1 then 1 else 0)
  {
    EvenMultiple(a, b);
    EvenMultiple(b, a);
    if a % 2 == 1 && b % 2 == 1 {
      assert a == 2 * (a / 2) + 1;
      MulDist(2 * (a / 2), 1, b);
      MulAssoc(2, a / 2, b);
      ModAddMultiple(b, a / 2 * b, 2);
    }
  }

  lemma ParityCases(u1: int, u2: int, ta: int, tb: int, p: int, q: int)
    requires p % 2 == (if u1 % 2 == 1 && ta % 2 == 1 then 1 else 0)
    requires q % 2 == (if u2 % 2 == 1 && tb % 2 == 1 then 1 else 0)
    requires (p + q) % 2 == 0 && (ta % 2 == 1 || tb % 2 == 1) && (u1 % 2 == 1 || u2 % 2 == 1)
    ensures (u1 + tb) % 2 == 0 && (u2 - ta) % 2 == 0
  {
    assert p % 2 == q % 2;
  }

  /** When t is even and a coefficient is odd, adding (tb, -ta) makes both coefficients even. */
  lemma AdjustedEven(u1: int, u2: int, ta: int, tb: int, t: int)
    requires Bezout(u1, u2, ta, tb, t) && t % 2 == 0 && (ta % 2 == 1 || tb % 2 == 1)
    ensures u1 % 2 == 1 || u2 % 2 == 1 ==> (u1 + tb) % 2 == 0 && (u2 - ta) % 2 == 0
    ensures Bezout(u1 + tb, u2 - ta, ta, tb, t)
  {
    assert u1 % 2 == 1 || u2 % 2 == 1 ==> (u1 + tb) % 2 == 0 && (u2 - ta) % 2 == 0 by {
      ProductParity(u1, ta);
      ProductParity(u2, tb);
      if u1 % 2 == 1 || u2 % 2 == 1 { ParityCases(u1, u2, ta, tb, u1 * ta, u2 * tb); }
    }
    MulDist(u1, tb, ta);
    MulDist(u2, ta, tb);
  }

  /** Halving an even combination halves every term exactly. */
  lemma HalvedBezout(u1: int, u2: int, ta: int, tb: int, t: int)
    requires Bezout(u1, u2, ta, tb, t) && u1 % 2 == 0 && u2 % 2 == 0
    ensures Bezout(u1 / 2, u2 / 2, ta, tb, t / 2)
  {
    assert u1 == 2 * (u1 / 2) && u2 == 2 * (u2 / 2);
    MulAssoc(2, u1 / 2, ta);
    MulAssoc(2, u2 / 2, tb);
  }

  lemma BezoutSubtract(u1: int, u2: int, v1: int, v2: int, ta: int, tb: int, t: int, s: int)
    requires Bezout(u1, u2, ta, tb, t) && Bezout(v1, v2, ta, tb, s)
    ensures Bezout(u1 - v1, u2 - v2, ta, tb, t - s)
  {
    MulDist(u1, v1, ta);
    MulDist(u2, v2, tb);
  }

  /** X /= 2 for an even number of either sign. */
  method HalveExactly(x: Mpi)
    requires |x.p| > 0 && x.Value() % 2 == 0
    modifies x
    ensures |x.p| == old(|x.p|) && x.Value() == old(x.Value()) / 2
  {
    assert Pow(2, 1) == 2 * Pow(2, 0);
    ShiftR(x, 1);
  }

  lemma ParityBit(x: Mpi)
    requires |x.p| > 0
    ensures x.Value() % 2 == x.p[0] % 2
  {
    OddResult(x.p, x.s);
  }

  ghost predicate AllApart(t: Mpi, u1: Mpi, u2: Mpi, ta: Mpi, tb: Mpi) {
    && t != u1 && t != u2 && t != ta && t != tb && u1 != u2 && u1 != ta && u1 != tb
    && u2 != ta && u2 != tb && ta != tb
  }

  lemma GcdOneHalf(t: nat, other: nat)
    requires t > 0 && t % 2 == 0 && Gcd(t, other) == 1
    ensures Gcd(t / 2, other) == 1 && other % 2 == 1
  {
    GcdIs(t, other);
    assert Div(2, t) && !Div(2, 1);
    GcdHalve(t / 2, other);
  }

  /** One halving of T; the coefficients are made even first when they are not. */
  method HalveTerm(t: Mpi, u1: Mpi, u2: Mpi, ta: Mpi, tb: Mpi, ghost other: nat)
    requires AllApart(t, u1, u2, ta, tb)
    requires |t.p| > 0 && |u1.p| > 0 && |u2.p| > 0 && |ta.p| > 0 && |tb.p| > 0
    requires ta.Value() % 2 == 1 || tb.Value() % 2 == 1
    requires t.Value() > 0 && t.Value() % 2 == 0
    requires Bezout(u1.Value(), u2.Value(), ta.Value(), tb.Value(), t.Value())
    requires Gcd(t.Value(), other) == 1
    modifies t, u1, u2
    ensures |t.p| > 0 && |u1.p| > 0 && |u2.p| > 0
    ensures t.Value() == old(t.Value()) / 2 > 0
    ensures Bezout(u1.Value(), u2.Value(), ta.Value(), tb.Value(), t.Value())
    ensures Gcd(t.Value(), other) == 1
  {
    ghost var v := t.Value();
    GcdOneHalf(v, other);
    HalveExactly(t);
    AdjustedEven(u1.Value(), u2.Value(), ta.Value(), tb.Value(), v);
    ParityBit(u1);
    ParityBit(u2);
    if u1.p[0] % 2 != 0 || u2.p[0] % 2 != 0 {
      AddMpi(u1, u1, tb);
      SubMpi(u2, u2, ta);
    }
    HalvedBezout(u1.Value(), u2.Value(), ta.Value(), tb.Value(), v);
    HalveExactly(u1);
    HalveExactly(u2);
  }

  /** While T is even: halve T and its combination. */
  method HalveWhileEven(t: Mpi, u1: Mpi, u2: Mpi, ta: Mpi, tb: Mpi, ghost other: nat)
    requires AllApart(t, u1, u2, ta, tb)
    requires |t.p| > 0 && |u1.p| > 0 && |u2.p| > 0 && |ta.p| > 0 && |tb.p| > 0
    requires ta.Value() % 2 == 1 || tb.Value() % 2 == 1
    requires t.Value() > 0 && Bezout(u1.Value(), u2.Value(), ta.Value(), tb.Value(), t.Value())
    requires Gcd(t.Value(), other) == 1
    modifies t, u1, u2
    ensures |t.p| > 0 && |u1.p| > 0 && |u2.p| > 0
    ensures t.Value() % 2 == 1 && 0 < t.Value() <= old(t.Value())
    ensures Bezout(u1.Value(), u2.Value(), ta.Value(), tb.Value(), t.Value())
    ensures Gcd(t.Value(), other) == 1
  {
    ParityBit(t);
    while t.p[0] % 2 == 0
      invariant |t.p| > 0 && |u1.p| > 0 && |u2.p| > 0
      invariant 0 < t.Value() <= old(t.Value()) && t.Value() % 2 == t.p[0] % 2
      invariant Bezout(u1.Value(), u2.Value(), ta.Value(), tb.Value(), t.Value())
      invariant Gcd(t.Value(), other) == 1
      decreases t.Value()
    {
      HalveTerm(t, u1, u2, ta, tb, other);
      ParityBit(t);
    }
  }

  /** The loop's state: both combinations, and the pair of remainders still coprime. */
  ghost predicate Euclid(tu: int, u1: int, u2: int, tv: int, v1: int, v2: int, ta: int, tb: int) {
    && tu >= 0 && tv > 0 && Gcd(tu, tv) == 1
    && Bezout(u1, u2, ta, tb, tu) && Bezout(v1, v2, ta, tb, tv)
  }

  lemma CoprimeNotBothEven(a: nat, b: nat)
    requires Gcd(a, b) == 1 && (a > 0 || b > 0)
    ensures a % 2 == 1 || b % 2 == 1
  {
    GcdIs(a, b);
    assert !Div(2, 1);
  }

  /** Subtracting the smaller from the larger keeps coprimality. */
  lemma SubtractCoprime(tu: nat, tv: nat)
    requires tu > 0 && tv > 0 && Gcd(tu, tv) == 1
    ensures tu >= tv ==> Gcd(tu - tv, tv) == 1
    ensures tu < tv ==> Gcd(tu, tv - tu) == 1
  {
    if tu >= tv {
      GcdSubtract(tu, tv);
    } else {
      GcdSymmetric(tu, tv);
      GcdSubtract(tv, tu);
      GcdSymmetric(tu, tv - tu);
    }
  }

  ghost predicate Distinct(tu: Mpi, u1: Mpi, u2: Mpi, tv: Mpi, v1: Mpi, v2: Mpi, ta: Mpi, tb: Mpi) {
    && AllApart(tu, u1, u2, ta, tb) && AllApart(tv, v1, v2, ta, tb)
    && tu != tv && tu != v1 && tu != v2 && u1 != tv && u1 != v1 && u1 != v2 && u2 != tv && u2 != v1 && u2 != v2
  }

  ghost predicate AllLimbs(tu: Mpi, u1: Mpi, u2: Mpi, tv: Mpi, v1: Mpi, v2: Mpi)
    reads tu, u1, u2, tv, v1, v2
  {
    |tu.p| > 0 && |u1.p| > 0 && |u2.p| > 0 && |tv.p| > 0 && |v1.p| > 0 && |v2.p| > 0
  }

  /** (X, X1, X2) -= (Y, Y1, Y2). */
  method SubtractTriple(x: Mpi, x1: Mpi, x2: Mpi, y: Mpi, y1: Mpi, y2: Mpi, ta: Mpi, tb: Mpi)
    requires Distinct(x, x1, x2, y, y1, y2, ta, tb) && AllLimbs(x, x1, x2, y, y1, y2)
    requires Bezout(x1.Value(), x2.Value(), ta.Value(), tb.Value(), x.Value())
    requires Bezout(y1.Value(), y2.Value(), ta.Value(), tb.Value(), y.Value())
    modifies x, x1, x2
    ensures AllLimbs(x, x1, x2, y, y1, y2)
    ensures x.Value() == old(x.Value()) - y.Value()
    ensures Bezout(x1.Value(), x2.Value(), ta.Value(), tb.Value(), x.Value())
  {
    BezoutSubtract(x1.Value(), x2.Value(), y1.Value(), y2.Value(), ta.Value(), tb.Value(), x.Value(), y.Value());
    SubMpi(x, x, y);
    SubMpi(x1, x1, y1);
    SubMpi(x2, x2, y2);
  }

  /** One turn of the do loop. */
  method InvTurn(tu: Mpi, u1: Mpi, u2: Mpi, tv: Mpi, v1: Mpi, v2: Mpi, ta: Mpi, tb: Mpi)
    requires Distinct(tu, u1, u2, tv, v1, v2, ta, tb) && AllLimbs(tu, u1, u2, tv, v1, v2)
    requires |ta.p| > 0 && |tb.p| > 0 && (ta.Value() % 2 == 1 || tb.Value() % 2 == 1)
    requires tu.Value() > 0
    requires Euclid(tu.Value(), u1.Value(), u2.Value(), tv.Value(), v1.Value(), v2.Value(), ta.Value(), tb.Value())
    modifies tu, u1, u2, tv, v1, v2
    ensures AllLimbs(tu, u1, u2, tv, v1, v2)
    ensures Euclid(tu.Value(), u1.Value(), u2.Value(), tv.Value(), v1.Value(), v2.Value(), ta.Value(), tb.Value())
    ensures tu.Value() + tv.Value() < old(tu.Value()) + old(tv.Value())
  {
    HalveWhileEven(tu, u1, u2, ta, tb, tv.Value());
    GcdSymmetric(tu.Value(), tv.Value());
    HalveWhileEven(tv, v1, v2, ta, tb, tu.Value());
    GcdSymmetric(tu.Value(), tv.Value());
    SubtractCoprime(tu.Value(), tv.Value());
    var c := CmpMpi(tu, tv);
    if c >= 0 {
      SubtractTriple(tu, u1, u2, tv, v1, v2, ta, tb);
    } else {
      SubtractTriple(tv, v1, v2, tu, u1, u2, ta, tb);
    }
  }

  /** x is an inverse of a modulo n. */
  ghost predicate IsInverse(x: int, a: int, n: int) {
    n > 0 && Cong(x * a, 1, n)
  }

  /** The final combination is an inverse. */
  lemma BezoutInverse(v1: int, v2: int, a: int, n: int)
    requires n > 0 && Bezout(v1, v2, a % n, n, 1)
    ensures IsInverse(v1, a, n)
  {
    CongMod(a, n);
    CongRefl(v1, n);
    CongMul(v1, v1, a, a % n, n);
    CongIntro(v1 * (a % n), 1, n, -v2);
    CongTrans(v1 * a, v1 * (a % n), 1, n);
  }

  lemma NegTimes(k: int, n: int)
    ensures -k * n == -(k * n)
  {}

  lemma DivAbs(g: int, a: int)
    requires Div(g, AbsInt(a))
    ensures Div(g, a)
  {
    if a < 0 {
      var k := DivElim(g, AbsInt(a));
      NegTimes(k, g);
      DivIntro(g, a, -k);
    }
  }

  /** An inverse exists exactly when the numbers have no common factor. */
  lemma InverseNeedsCoprime(x: int, a: int, n: nat)
    requires IsInverse(x, a, n)
    ensures Gcd(AbsInt(a), n) == 1
  {
    var k := CongElim(x * a, 1, n);
    GcdIs(AbsInt(a), n);
    var g := Gcd(AbsInt(a), n);
    DivAbs(g, a);
    assert Div(g, x * a + -k * n) by { DivCombine(g, a, n, x, -k); }
    assert x * a + -k * n == 1 by { NegTimes(k, n); }
    DivBound(g, 1);
  }

  /** Adding the modulus to an inverse gives an inverse. */
  lemma InverseShift(x: int, a: int, n: int)
    requires IsInverse(x, a, n)
    ensures IsInverse(x + n, a, n) && IsInverse(x - n, a, n)
  {
    var k := CongElim(x * a, 1, n);
    MulDist(x, n, a);
    MulDist(k, a, n);
    CongIntro((x + n) * a, 1, n, k + a);
    CongIntro((x - n) * a, 1, n, k - a);
  }

  /** Reducing A modulo N keeps coprimality. */
  lemma ReducedCoprime(a: int, n: nat)
    requires n > 1 && Gcd(AbsInt(a), n) == 1
    ensures 0 < a % n < n && Gcd(a % n, n) == 1 && Gcd(n, a % n) == 1
  {
    DivModFacts(a, n);
    GcdIs(AbsInt(a), n);
    var r := a % n;
    GcdIs(r, n);
    var g := Gcd(r, n);
    DivCombine(g, n, r, a / n, 1);
    assert Div(g, a);
    if a < 0 {
      var k := DivElim(g, a);
      NegTimes(k, g);
      DivIntro(g, -a, -k);
    }
    DivBound(g, 1);
    GcdSymmetric(r, n);
    GcdSymmetric(0, n);
  }

  /** U1 = V2 = 1, U2 = V1 = 0. */
  method Constants() returns (u1: Mpi, u2: Mpi, v1: Mpi, v2: Mpi)
    ensures fresh({u1, u2, v1, v2}) && u1 != u2 && u1 != v1 && u1 != v2 && u2 != v1 && u2 != v2 && v1 != v2
    ensures u1.Value() == 1 && u2.Value() == 0 && v1.Value() == 0 && v2.Value() == 1
    ensures |u1.p| > 0 && |u2.p| > 0 && |v1.p| > 0 && |v2.p| > 0
  {
    BaseFacts();
    u1 := new Mpi();
    u2 := new Mpi();
    v1 := new Mpi();
    v2 := new Mpi();
    Lset(u1, 1);
    Lset(u2, 0);
    Lset(v1, 0);
    Lset(v2, 1);
  }

  /** The do loop, from TU = TA and TV = TB = N until TU is zero; V1 is then an inverse. */
  method InvLoop(ghost a: int, ta: Mpi, tb: Mpi) returns (v1: Mpi)
    requires ta != tb && |ta.p| > 0 && |tb.p| > 0 && tb.Value() > 1
    requires ta.Value() == a % tb.Value() > 0 && Gcd(ta.Value(), tb.Value()) == 1
    ensures fresh(v1) && |v1.p| > 0 && IsInverse(v1.Value(), a, tb.Value())
  {
    var u1, u2, v2;
    u1, u2, v1, v2 := Constants();
    var tu := new Mpi();
    var tv := new Mpi();
    Copy(tu, ta);
    Copy(tv, tb);
    CoprimeNotBothEven(ta.Value(), tb.Value());
    ghost var va, vb := ta.Value(), tb.Value();
    var c := 1;
    while c != 0
      invariant Distinct(tu, u1, u2, tv, v1, v2, ta, tb) && AllLimbs(tu, u1, u2, tv, v1, v2)
      invariant fresh({tu, u1, u2, tv, v1, v2}) && ta.Value() == va && tb.Value() == vb
      invariant Euclid(tu.Value(), u1.Value(), u2.Value(), tv.Value(), v1.Value(), v2.Value(), va, vb)
      invariant c == 0 <==> tu.Value() == 0
      decreases tu.Value() + tv.Value()
    {
      InvTurn(tu, u1, u2, tv, v1, v2, ta, tb);
      BasePos();
      c := CmpInt(tu, 0);
    }
    GcdSymmetric(0, tv.Value());
    BezoutInverse(v1.Value(), v2.Value(), a, vb);
  }

  /** Brings an inverse into [0, N). */
  method ReduceInverse(v1: Mpi, n: Mpi, ghost a: int)
    requires v1 != n && |v1.p| > 0 && n.Value() > 1 && IsInverse(v1.Value(), a, n.Value())
    modifies v1
    ensures |v1.p| > 0 && 0 <= v1.Value() < n.Value() && IsInverse(v1.Value(), a, n.Value())
  {
    NonzeroHasLimbs(n.p);
    BasePos();
    var c := CmpInt(v1, 0);
    while c < 0
      invariant |v1.p| > 0 && c == Compare(v1.Value(), 0) && IsInverse(v1.Value(), a, n.Value())
      decreases -v1.Value()
    {
      InverseShift(v1.Value(), a, n.Value());
      AddMpi(v1, v1, n);
      c := CmpInt(v1, 0);
    }
    c := CmpMpi(v1, n);
    while c >= 0
      invariant |v1.p| > 0 && v1.Value() >= 0 && c == Compare(v1.Value(), n.Value())
      invariant IsInverse(v1.Value(), a, n.Value())
      decreases v1.Value()
    {
      InverseShift(v1.Value(), a, n.Value());
      SubMpi(v1, v1, n);
      c := CmpMpi(v1, n);
    }
  }

  /** With a common factor no number is an inverse, so the refusal is right. */
  lemma NoInverse(a: int, n: nat)
    requires n > 1 && Gcd(AbsInt(a), n) != 1
    ensures forall x :: !IsInverse(x, a, n)
  {
    forall x
      ensures !IsInverse(x, a, n)
    {
      if IsInverse(x, a, n) { InverseNeedsCoprime(x, a, n); }
    }
  }

  /** X = A^-1 mod N. */
  method InvModMpi(x: Mpi, a: Mpi, n: Mpi) returns (ret: Status)
    modifies x
    ensures old(n.Value()) <= 1 ==> ret == BadInputData
    ensures old(n.Value()) > 1 ==> (ret == Ok <==> Gcd(AbsInt(old(a.Value())), old(n.Value())) == 1)
    ensures old(n.Value()) > 1 && ret != Ok ==> ret == NotAcceptable
    ensures ret == NotAcceptable ==> forall y :: !IsInverse(y, old(a.Value()), old(n.Value()))
    ensures ret != Ok ==> x.s == old(x.s) && x.p == old(x.p)
    ensures ret == Ok ==>
      0 <= x.Value() < old(n.Value()) && IsInverse(x.Value(), old(a.Value()), old(n.Value()))
  {
    BaseFacts();
    var c := CmpInt(n, 1);
    if c <= 0 { return BadInputData; }
    var g := new Mpi();
    GcdMpi(g, a, n);
    c := CmpInt(g, 1);
    if c != 0 {
      NoInverse(a.Value(), n.Value());
      return NotAcceptable;
    }
    ReducedCoprime(a.Value(), n.Value());
    var ta := new Mpi();
    var tb := new Mpi();
    var e := ModMpi(ta, a, n);
    Copy(tb, n);
    NonzeroHasLimbs(ta.p);
    NonzeroHasLimbs(tb.p);
    var v1 := InvLoop(a.Value(), ta, tb);
    ReduceInverse(v1, n, a.Value());
    Copy(x, v1);
    return Ok;
  }
}

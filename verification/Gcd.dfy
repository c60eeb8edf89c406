/** Binary greatest common divisor. */
module BinaryGcd {
  import opened Arith
  import opened Limbs
  import opened MpiCore
  import opened AddSub
  import opened Shift
  import opened LongDivision

  function Gcd(a: nat, b: nat): nat
    decreases b
  {
    if b == 0 then a else DivModFacts(a, b); Gcd(b, a % b)
  }

  predicate Div(d: int, a: int) {
    d > 0 && a % d == 0
  }

  lemma DivIntro(d: int, a: int, k: int)
    requires d > 0 && a == k * d
    ensures Div(d, a)
  {
    DivModUnique(a, d, k, 0);
  }

  lemma DivElim(d: int, a: int) returns (k: int)
    requires Div(d, a)
    ensures a == k * d
  {
    k := a / d;
    DivModFacts(a, d);
  }

  /** Common divisors pass to integer combinations. */
  lemma DivCombine(d: int, a: int, b: int, s: int, t: int)
    requires Div(d, a) && Div(d, b)
    ensures Div(d, s * a + t * b)
  {
    var k := DivElim(d, a);
    var l := DivElim(d, b);
    MulAssoc(s, k, d);
    MulAssoc(t, l, d);
    MulDist(s * k, t * l, d);
    DivIntro(d, s * a + t * b, s * k + t * l);
  }

  /** g divides both and is divided by every common divisor. */
  ghost predicate IsGcd(g: int, a: int, b: int) {
    Div(g, a) && Div(g, b) && forall d :: Div(d, a) && Div(d, b) ==> Div(d, g)
  }

  lemma {:induction false} GcdIs(a: nat, b: nat)
    requires a > 0 || b > 0
    ensures IsGcd(Gcd(a, b), a, b)
    decreases b
  {
    if b == 0 {
      DivIntro(a, a, 1);
      DivIntro(a, 0, 0);
    } else {
      DivModFacts(a, b);
      GcdIs(b, a % b);
      var g, q := Gcd(b, a % b), a / b;
      DivCombine(g, b, a % b, q, 1);
      forall d | Div(d, a) && Div(d, b)
        ensures Div(d, g)
      {
        DivCombine(d, a, b, 1, -q);
        assert a % b == 1 * a + -q * b;
      }
    }
  }

  lemma DivBound(d: int, a: int)
    requires Div(d, a) && a > 0
    ensures d <= a
  {
    var k := DivElim(d, a);
    if k <= 0 { MulLe(k, 0, d); } else { MulLe(1, k, d); }
  }

  lemma GcdUnique(g: int, a: nat, b: nat)
    requires IsGcd(g, a, b) && (a > 0 || b > 0)
    ensures g == Gcd(a, b)
  {
    GcdIs(a, b);
    DivBound(g, Gcd(a, b));
    DivBound(Gcd(a, b), g);
  }

  lemma GcdSymmetric(a: nat, b: nat)
    ensures Gcd(a, b) == Gcd(b, a)
  {
    if a > 0 || b > 0 {
      GcdIs(a, b);
      GcdUnique(Gcd(a, b), b, a);
    }
  }

  lemma GcdSubtract(a: nat, b: nat)
    requires a >= b > 0
    ensures Gcd(a - b, b) == Gcd(a, b)
  {
    GcdIs(a, b);
    var g := Gcd(a, b);
    DivCombine(g, a, b, 1, -1);
    forall d | Div(d, a - b) && Div(d, b)
      ensures Div(d, g)
    {
      DivCombine(d, a - b, b, 1, 1);
      assert 1 * (a - b) + 1 * b == a;
    }
    GcdUnique(g, a - b, b);
  }

  lemma EvenMultiple(k: int, d: int)
    ensures d % 2 == 0 ==> k * d % 2 == 0
  {
    if d % 2 == 0 {
      assert d == 2 * (d / 2);
      MulAssoc(k, 2, d / 2);
      ModAddMultiple(0, k * (d / 2), 2);
    }
  }

  lemma OddDivisor(d: int, b: int)
    requires Div(d, b) && b % 2 == 1
    ensures d % 2 == 1
  {
    var k := DivElim(d, b);
    EvenMultiple(k, d);
  }

  lemma OddQuotient(k: int, d: int, a: int)
    requires k * d == 2 * a && d % 2 == 1
    ensures k / 2 * d == a
  {
    assert k % 2 == 0 by {
      assert k * d == 2 * (k * (d / 2)) + k by {
        MulDist(2 * (d / 2), 1, k);
        MulAssoc(2, d / 2, k);
      }
    }
    MulAssoc(2, k / 2, d);
  }

  lemma HalveDivisor(d: int, a: int, b: int)
    requires Div(d, 2 * a) && Div(d, b) && b % 2 == 1
    ensures Div(d, a)
  {
    OddDivisor(d, b);
    var k := DivElim(d, 2 * a);
    OddQuotient(k, d, a);
    DivIntro(d, a, k / 2);
  }

  /** A factor two of one operand is no common factor when the other is odd. */
  lemma GcdHalve(a: nat, b: nat)
    requires b % 2 == 1
    ensures Gcd(2 * a, b) == Gcd(a, b)
  {
    GcdIs(2 * a, b);
    var g := Gcd(2 * a, b);
    HalveDivisor(g, a, b);
    forall d | Div(d, a) && Div(d, b)
      ensures Div(d, g)
    {
      DivCombine(d, a, b, 2, 0);
    }
    GcdUnique(g, a, b);
  }

  lemma {:induction false} GcdShift(a: nat, b: nat, r: nat)
    requires b % 2 == 1
    ensures a * Pow(2, r) >= 0 && Gcd(a * Pow(2, r), b) == Gcd(a, b)
  {
    PowPos(2, r);
    MulNonneg(a, Pow(2, r));
    if r > 0 {
      GcdShift(a, b, r - 1);
      MulAssoc(a, 2, Pow(2, r - 1));
      GcdHalve(a * Pow(2, r - 1), b);
    } else {
      assert Pow(2, 0) == 1;
    }
  }

  lemma {:induction false} GcdScale(a: nat, b: nat, m: nat)
    requires m > 0
    ensures a * m >= 0 && b * m >= 0 && Gcd(a * m, b * m) == Gcd(a, b) * m
    decreases b
  {
    MulNonneg(a, m);
    MulNonneg(b, m);
    if b > 0 {
      ScaledDivMod(a, b, m);
      DivModFacts(a, b);
      GcdScale(b, a % b, m);
    }
  }

  // ---- the algorithm ----

  /** Removing the zero bits below the lowest set bit. */
  lemma OddPart(v: nat, r: nat)
    requires IsLsb(v, r)
    ensures v == v / Pow(2, r) * Pow(2, r) && v / Pow(2, r) <= v
    ensures v > 0 ==> v / Pow(2, r) % 2 == 1
  {
    DivModFacts(v, Pow(2, r));
    DivShrinks(v, Pow(2, r));
    if v == 0 { assert Pow(2, 0) == 1; }
  }

  lemma EvenPower(a: nat, r: nat)
    requires r > 0
    ensures a * Pow(2, r) % 2 == 0
  {
    MulAssoc(a, 2, Pow(2, r - 1));
    EvenMultiple(a * Pow(2, r - 1), 2);
  }

  lemma OddPartGcd(a: nat, a': nat, b: nat, r: nat)
    requires a == a' * Pow(2, r) && (b % 2 == 1 || a % 2 == 1)
    ensures Gcd(a', b) == Gcd(a, b)
  {
    if b % 2 == 1 {
      GcdShift(a', b, r);
    } else {
      if r > 0 { EvenPower(a', r); }
      assert Pow(2, 0) == 1;
    }
  }

  /** T >>= lsb(T): against a number that shares no factor two, the greatest common divisor stays. */
  method MakeOdd(t: Mpi, ghost other: nat)
    requires t.s == 1
    modifies t
    ensures t.s == 1
    ensures Val(t.p) <= old(Val(t.p)) && (old(Val(t.p)) > 0 ==> Val(t.p) % 2 == 1 && Val(t.p) > 0)
    ensures old(Val(t.p)) == 0 ==> Val(t.p) == 0
    ensures other % 2 == 1 || old(Val(t.p)) % 2 == 1 ==> Gcd(Val(t.p), other) == Gcd(old(Val(t.p)), other)
  {
    var r := Lsb(t);
    OddPart(Val(t.p), r);
    ghost var v := Val(t.p);
    ShiftR(t, r);
    if other % 2 == 1 || v % 2 == 1 { OddPartGcd(v, Val(t.p), other, r); }
  }

  /** Subtracting odd from odd and halving keeps the greatest common divisor. */
  lemma SubtractHalve(a: nat, b: nat)
    requires a >= b && a % 2 == 1 && b % 2 == 1
    ensures Gcd((a - b) / 2, b) == Gcd(a, b) && Gcd(b, (a - b) / 2) == Gcd(b, a)
    ensures (a - b) / 2 < a
  {
    var h := (a - b) / 2;
    assert a - b == 2 * h;
    assert Gcd(h, b) == Gcd(a, b) by {
      GcdSubtract(a, b);
      GcdHalve(h, b);
    }
    assert Gcd(b, h) == Gcd(b, a) by {
      GcdSymmetric(h, b);
      GcdSymmetric(a, b);
    }
  }

  /** X = (X - Y) / 2. */
  method HalveDifference(x: Mpi, y: Mpi)
    requires x != y && Val(x.p) >= Val(y.p)
    modifies x
    ensures x.s == 1 && Val(x.p) == (old(Val(x.p)) - Val(y.p)) / 2
  {
    var e := SubAbs(x, x, y);
    assert Pow(2, 1) == 2 * Pow(2, 0);
    ShiftR(x, 1);
  }

  /** What the loop is to return. */
  ghost predicate LoopInv(ta: nat, tb: nat, a: nat, b: nat) {
    (b == 0 ==> tb == 0) && (b > 0 ==> tb > 0 && Gcd(ta, tb) == Gcd(a, b) && (ta % 2 == 1 || tb % 2 == 1 || ta == 0))
  }

  /** The state between removing factors of two and subtracting. */
  ghost predicate OddPair(ta: nat, tb: nat, a: nat, b: nat) {
    ta % 2 == 1 && (b == 0 ==> tb == 0) && (b > 0 ==> tb % 2 == 1 && Gcd(ta, tb) == Gcd(a, b))
  }

  method MakeBothOdd(ta: Mpi, tb: Mpi, ghost a: nat, ghost b: nat)
    requires ta != tb && ta.s == 1 && tb.s == 1
    requires Val(ta.p) > 0 && LoopInv(Val(ta.p), Val(tb.p), a, b)
    modifies ta, tb
    ensures ta.s == 1 && tb.s == 1 && OddPair(Val(ta.p), Val(tb.p), a, b)
    ensures Val(ta.p) <= old(Val(ta.p)) && Val(tb.p) <= old(Val(tb.p))
  {
    ghost var b0 := Val(tb.p);
    MakeOdd(ta, b0);
    ghost var a1 := Val(ta.p);
    MakeOdd(tb, a1);
    GcdSymmetric(a1, b0);
    GcdSymmetric(a1, Val(tb.p));
  }

  lemma TurnKeeps(ta: nat, tb: nat, a: nat, b: nat)
    requires OddPair(ta, tb, a, b)
    ensures ta >= tb ==> LoopInv((ta - tb) / 2, tb, a, b) && (ta - tb) / 2 < ta
    ensures ta < tb ==> LoopInv(ta, (tb - ta) / 2, a, b) && (tb - ta) / 2 < tb
  {
    if ta >= tb {
      if b > 0 { SubtractHalve(ta, tb); }
    } else {
      SubtractHalve(tb, ta);
    }
  }

  /** One turn: both made odd, the larger replaced by half the difference. */
  method GcdTurn(ta: Mpi, tb: Mpi, ghost a: nat, ghost b: nat)
    requires ta != tb && ta.s == 1 && tb.s == 1
    requires Val(ta.p) > 0 && LoopInv(Val(ta.p), Val(tb.p), a, b)
    modifies ta, tb
    ensures ta.s == 1 && tb.s == 1
    ensures LoopInv(Val(ta.p), Val(tb.p), a, b)
    ensures Val(ta.p) + Val(tb.p) < old(Val(ta.p)) + old(Val(tb.p))
  {
    MakeBothOdd(ta, tb, a, b);
    TurnKeeps(Val(ta.p), Val(tb.p), a, b);
    var c := CmpMpi(ta, tb);
    if c >= 0 {
      HalveDifference(ta, tb);
    } else {
      HalveDifference(tb, ta);
    }
  }

  lemma Rescaled(a: nat, b: nat, x: nat, y: nat, p: nat)
    requires p > 0 && x * p == a && y * p == b
    ensures Gcd(x, y) * p == Gcd(a, b) && (y == 0 <==> b == 0)
  {
    GcdScale(x, y, p);
    if y > 0 { MulLe(1, y, p); }
  }

  /** Not both even, unless one of the numbers is zero. */
  ghost predicate LoopStart(a: nat, b: nat) {
    b > 0 ==> a % 2 == 1 || b % 2 == 1 || a == 0
  }

  /** A power of two not above the lowest set bit divides exactly. */
  lemma LowerShift(a: nat, r: nat, l: nat)
    requires IsLsb(a, r) && l <= r
    ensures Pow(2, l) > 0 && a / Pow(2, l) * Pow(2, l) == a
  {
    OddPart(a, r);
    PowPos(2, l);
    PowAdd(2, r - l, l);
    var q := a / Pow(2, r);
    MulAssoc(q, Pow(2, r - l), Pow(2, l));
    DivModUnique(a, Pow(2, l), q * Pow(2, r - l), 0);
  }

  /** The common power of two taken out first. */
  lemma CommonShift(a: nat, b: nat, ra: nat, rb: nat, lz: nat)
    requires IsLsb(a, ra) && IsLsb(b, rb) && lz == (if rb < ra then rb else ra)
    ensures Pow(2, lz) > 0 && LoopStart(a / Pow(2, lz), b / Pow(2, lz))
    ensures b > 0 ==> Gcd(a / Pow(2, lz), b / Pow(2, lz)) * Pow(2, lz) == Gcd(a, b)
    ensures b / Pow(2, lz) == 0 <==> b == 0
  {
    LowerShift(a, ra, lz);
    LowerShift(b, rb, lz);
    assert LoopStart(a / Pow(2, lz), b / Pow(2, lz)) by {
      OddPart(a, ra);
      OddPart(b, rb);
    }
    Rescaled(a, b, a / Pow(2, lz), b / Pow(2, lz), Pow(2, lz));
  }

  /** The loop: runs until TA is zero. */
  method GcdLoop(ta: Mpi, tb: Mpi)
    requires ta != tb && ta.s == 1 && tb.s == 1 && LoopStart(Val(ta.p), Val(tb.p))
    modifies ta, tb
    ensures tb.s == 1
    ensures Val(tb.p) == if old(Val(tb.p)) == 0 then 0 else Gcd(old(Val(ta.p)), old(Val(tb.p)))
  {
    ghost var a, b := Val(ta.p), Val(tb.p);
    BasePos();
    var c := CmpInt(ta, 0);
    while c != 0
      invariant c == Compare(Val(ta.p), 0) && ta.s == 1 && tb.s == 1
      invariant LoopInv(Val(ta.p), Val(tb.p), a, b)
      decreases Val(ta.p) + Val(tb.p)
    {
      GcdTurn(ta, tb, a, b);
      c := CmpInt(ta, 0);
    }
    GcdSymmetric(0, Val(tb.p));
  }

  /**
   * G = gcd(|A|, |B|), by repeated halving and subtraction. The code returns 0 for B = 0, so the result is the
   * greatest common divisor exactly when B is not zero or A is.
   */
  method GcdMpi(g: Mpi, a: Mpi, b: Mpi)
    modifies g
    ensures g.Value() == if old(Val(b.p)) == 0 then 0 else Gcd(old(Val(a.p)), old(Val(b.p)))
    ensures g.Value() == Gcd(old(Val(a.p)), old(Val(b.p))) <==> old(Val(b.p)) != 0 || old(Val(a.p)) == 0
    ensures old(Val(b.p)) != 0 ==> IsGcd(g.Value(), old(Val(a.p)), old(Val(b.p)))
  {
    var ta := new Mpi();
    var tb := new Mpi();
    Copy(ta, a);
    Copy(tb, b);
    ghost var va, vb := Val(a.p), Val(b.p);
    var lz := Lsb(ta);
    var lzt := Lsb(tb);
    CommonShift(va, vb, lz, lzt, if lzt < lz then lzt else lz);
    if lzt < lz {
      lz := lzt;
    }
    ShiftR(ta, lz);
    ShiftR(tb, lz);
    ta.s, tb.s := 1, 1;
    GcdLoop(ta, tb);
    ShiftL(tb, lz);
    Copy(g, tb);
    if vb != 0 { GcdIs(va, vb); }
  }
}

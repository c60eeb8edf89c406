/** Modulo by an MPI and by a word. */
module Modulo {
  import opened Arith
  import opened Limbs
  import opened MpiCore
  import opened AddSub
  import opened LongDivision
  import opened WordMul
  import opened Shift

  method DivInt(q: Mpi?, r: Mpi?, a: Mpi, b: Sint) returns (ret: Status)
    modifies q, r
    ensures b == 0 ==> ret == DivisionByZero
    ensures b == 0 && q != null ==> q.s == old(q.s) && q.p == old(q.p)
    ensures b == 0 && r != null ==> r.s == old(r.s) && r.p == old(r.p)
    ensures b != 0 ==> ret == Ok
    ensures b != 0 && q != null && q != r && (q == a ==> r == null && old(a.s) == 1) ==>
      q.Value() == TQuot(old(a.Value()), b)
    ensures b != 0 && r != null && q != a ==>
      r.Value() == TRem(old(a.Value()), b)
    ensures b != 0 && q != null && q != r ==> |q.p| > 0
  {
    var y := new Mpi.Word(if b < 0 then -1 else 1, if b < 0 then -b else b);
    ret := DivMpi(q, r, a, y);
  }

  lemma RemainderCongruent(a: int, b: int)
    requires b > 0
    ensures Cong(TRem(a, b), a, b)
  {
    TruncatedDivision(a, b);
    CongIntro(TRem(a, b), a, b, -TQuot(a, b));
  }

  lemma CongStep(r: int, v: int, b: int)
    requires b > 0 && Cong(r, v, b)
    ensures Cong(r + b, v, b) && Cong(r - b, v, b)
  {
    var k := CongElim(r, v, b);
    MulDist(k, 1, b);
    CongIntro(r + b, v, b, k + 1);
    CongIntro(r - b, v, b, k - 1);
  }

  lemma NonzeroHasLimbs(p: seq<Limb>)
    requires Val(p) != 0
    ensures |p| > 0
  {}

  /** R = A mod B, always in [0, B). R may be B only when there is nothing to reduce by. */
  method ModMpi(r: Mpi, a: Mpi, b: Mpi) returns (ret: Status)
    requires r == b ==> b.Value() <= 0
    modifies r
    ensures old(b.Value()) < 0 ==> ret == NegativeValue && r.s == old(r.s) && r.p == old(r.p)
    ensures old(b.Value()) == 0 ==> ret == DivisionByZero && r.s == old(r.s) && r.p == old(r.p)
    ensures b.Value() > 0 ==> ret == Ok && r.Value() == old(a.Value()) % b.Value()
    ensures b.Value() > 0 && old(|a.p|) > 0 ==> |r.p| >= Max(1, old(|r.p|))
  {
    BasePos();
    var c := CmpInt(b, 0);
    if c < 0 { return NegativeValue; }
    ret := DivMpi(null, r, a, b);
    if ret != Ok { return ret; }
    ghost var v, m := old(a.Value()), b.Value();
    RemainderCongruent(v, m);
    NonzeroHasLimbs(b.p);
    c := CmpInt(r, 0);
    while c < 0
      invariant c == Compare(r.Value(), 0) && Cong(r.Value(), v, m) && ret == Ok
      invariant old(|a.p|) > 0 ==> |r.p| >= Max(1, old(|r.p|))
      decreases -r.Value()
    {
      CongStep(r.Value(), v, m);
      NonzeroHasLimbs(r.p);
      AddMpi(r, r, b);
      c := CmpInt(r, 0);
    }
    c := CmpMpi(r, b);
    while c >= 0
      invariant c == Compare(r.Value(), m) && Cong(r.Value(), v, m) && r.Value() >= 0 && ret == Ok
      invariant old(|a.p|) > 0 ==> |r.p| >= Max(1, old(|r.p|))
      decreases r.Value()
    {
      CongStep(r.Value(), v, m);
      NonzeroHasLimbs(r.p);
      SubMpi(r, r, b);
      c := CmpMpi(r, b);
    }
    CongUnique(r.Value(), v, m);
  }

  /** Doubling a number that is not zero passes every number of limbs. */
  lemma DoubledTooLong(v: int, p: seq<Limb>, turns: nat)
    requires v < 0 && Val(p) == -v * Pow(2, turns)
    ensures turns < biL * |p|
  {
    BaseFacts();
    PAsPow2(|p|);
    VBound(p, |p|);
    PowPos(2, turns);
    MulLe(1, -v, Pow(2, turns));
    if biL * |p| <= turns { PowMono(2, biL * |p|, turns); }
  }

  lemma StillNegative(v: int, turns: nat)
    requires v < 0
    ensures v * Pow(2, turns) < 0
  {
    PowPos(2, turns);
    MulPos(-v, Pow(2, turns));
  }

  /** A turn of the first loop with R and B the same object. */
  method DoubleTurn(r: Mpi, ghost v: int, ghost turns: nat)
    requires r.Value() == v * Pow(2, turns) && v < 0
    modifies r
    ensures r.Value() == v * Pow(2, turns + 1) && turns + 1 < biL * |r.p|
  {
    MulAssoc(v, Pow(2, turns), 2);
    StillNegative(v, turns + 1);
    AddMpi(r, r, r);
    DoubledTooLong(v, r.p, turns + 1);
  }

  /**
   * B > 0 with R the same object, after some turns of the loop that is reached first. A remainder that is not
   * negative makes the second loop compare R with itself: after one turn it is zero, and its guard stays true.
   * A negative remainder is doubled by every turn of the first loop.
   */
  method SameObjectTurns(r: Mpi, a: Mpi, turns: nat) returns (guard: bool)
    requires r.Value() > 0
    modifies r
    ensures guard
    ensures var v := TRem(old(a.Value()), old(r.Value()));
            if v < 0 then r.Value() == v * Pow(2, turns) && turns < biL * |r.p|
            else r.Value() == if turns == 0 then v else 0
  {
    BasePos();
    var e := DivMpi(null, r, a, r);
    ghost var v := r.Value();
    var c := CmpInt(r, 0);
    if c < 0 {
      DoubledTooLong(v, r.p, 0);
      for i := 0 to turns
        invariant r.Value() == v * Pow(2, i) && i < biL * |r.p|
      {
        DoubleTurn(r, v, i);
      }
      StillNegative(v, turns);
      c := CmpInt(r, 0);
      return c < 0;
    }
    for i := 0 to turns
      invariant r.Value() == if i == 0 then v else 0
    {
      SubMpi(r, r, r);
    }
    c := CmpMpi(r, r);
    return c >= 0;
  }

  /** The most limbs an MPI may have. */
  const MAX_LIMBS: nat := 10000

  /** The doubling ends with an error, at the first sum that has more limbs than an MPI may have. */
  method SameObjectRefused(r: Mpi, a: Mpi) returns (ret: Status)
    requires r.Value() > 0 && TRem(a.Value(), r.Value()) < 0
    modifies r
    ensures ret == AllocFailed
  {
    BasePos();
    ret := DivMpi(null, r, a, r);
    ghost var v, turns := r.Value(), 0;
    var c := CmpInt(r, 0);
    while c < 0
      invariant c == -1 && r.Value() == v * Pow(2, turns) && v < 0
      decreases biL * MAX_LIMBS - turns
    {
      DoubleTurn(r, v, turns);
      if |r.p| > MAX_LIMBS { return AllocFailed; }
      MulLe(|r.p|, MAX_LIMBS, biL);
      turns := turns + 1;
      StillNegative(v, turns);
      c := CmpInt(r, 0);
    }
  }

  // ---- modulo by a word, one half limb at a time ----

  lemma ShiftedHalf(y: Limb)
    ensures H > 0 && Wrap(y as int * H) % H == 0
  {
    BaseFacts();
    LowHalfFacts(y);
    DivModUnique(y % H * H, H, y % H, 0);
  }

  /** (y << biH) | h for a half limb h. */
  function PushHalf(y: Limb, h: Limb): (r: Limb)
    requires h < H
  {
    ShiftedHalf(y);
    OrLow(Wrap(y as int * H), h, biH)
  }

  /** One turn of the loop: both halves of limb x, reduced after each. */
  function FoldLimb(y: Limb, x: Limb, b: Limb): (r: Limb)
    requires 0 < b
    ensures r < b
  {
    LowHalfFacts(x);
    var y1 := PushHalf(y, HighHalf(x));
    DivModFacts(y1, b);
    var y2 := PushHalf(y1 % b, LowHalf(x));
    DivModFacts(y2, b);
    y2 % b
  }

  /** The loop's accumulator after the limbs from the top down to i. */
  function FoldLimbs(p: seq<Limb>, i: nat, b: Limb): (r: Limb)
    requires i <= |p| && 0 < b
    ensures r < b
    decreases |p| - i
  {
    if i == |p| then 0 else FoldLimb(FoldLimbs(p, i + 1, b), p[i], b)
  }

  /** Divisors for which dropping the overflow of y << biH does no harm. */
  predicate FoldSafe(b: Limb) {
    0 < b && (b <= H || B % b == 0)
  }

  lemma WrapCongruent(z: int, b: Limb)
    requires 0 < b && (0 <= z < B || B % b == 0)
    ensures Cong(Wrap(z), z, b)
  {
    BasePos();
    if 0 <= z < B {
      WrapId(z);
      CongRefl(z, b);
    } else {
      DivModFacts(z, B);
      DivModFacts(B, b);
      MulAssoc(-(z / B), B / b, b);
      CongIntro(Wrap(z), z, b, -(z / B) * (B / b));
    }
  }

  lemma PushHalfCongruent(y: Limb, h: Limb, b: Limb)
    requires FoldSafe(b) && y < b && h < H
    ensures Cong(PushHalf(y, h), y * H + h, b)
  {
    BaseFacts();
    ShiftedHalf(y);
    MulNonneg(y, H);
    if b <= H {
      MulLe(y + 1, H, H);
      MulDist(y, 1, H);
    }
    WrapCongruent(y as int * H, b);
    CongRefl(h, b);
    CongAdd(Wrap(y as int * H), y * H, h, h, b);
  }

  lemma FoldLimbCongruent(y: Limb, x: Limb, b: Limb)
    requires FoldSafe(b) && y < b
    ensures Cong(FoldLimb(y, x, b), y * B + x, b)
  {
    BaseFacts();
    LowHalfFacts(x);
    var h, l := HighHalf(x), LowHalf(x);
    var y1 := PushHalf(y, h);
    DivModFacts(y1, b);
    PushHalfCongruent(y, h, b);
    CongMod(y1, b);
    CongTrans(y1 % b, y1, y * H + h, b);
    PushHalfCongruent(y1 % b, l, b);
    CongRefl(H, b);
    CongRefl(l, b);
    CongMul(y1 % b, y * H + h, H, H, b);
    CongAdd(y1 % b * H, (y * H + h) * H, l, l, b);
    CongTrans(PushHalf(y1 % b, l), y1 % b * H + l, (y * H + h) * H + l, b);
    MulDist(y * H, h, H);
    MulAssoc(y, H, H);
    var y2 := PushHalf(y1 % b, l);
    CongMod(y2, b);
    CongTrans(y2 % b, y2, y * B + x, b);
  }

  lemma {:induction false} FoldLimbsCongruent(p: seq<Limb>, i: nat, b: Limb)
    requires i <= |p| && FoldSafe(b)
    ensures Cong(FoldLimbs(p, i, b), Tail(p, i), b)
    decreases |p| - i
  {
    if i == |p| {
      CongRefl(0, b);
    } else {
      FoldLimbsCongruent(p, i + 1, b);
      var y, w := FoldLimbs(p, i + 1, b), Tail(p, i + 1);
      FoldLimbCongruent(y, p[i], b);
      CongRefl(B, b);
      CongRefl(p[i], b);
      CongMul(y, w, B, B, b);
      CongAdd(y * B, w * B, p[i], p[i], b);
      CongTrans(FoldLimbs(p, i, b), y * B + p[i], w * B + p[i], b);
      TailPeel(p, i);
    }
  }

  lemma OddFactor(q: int, b: int, n: int)
    requires q * b == 2 * n && b % 2 == 1
    ensures q / 2 * b == n
  {
    var c := b / 2;
    assert b == 2 * c + 1;
    assert q * b == 2 * (q * c) + q by { MulDist(2 * c, 1, q); MulAssoc(2, c, q); }
    assert q == 2 * (q / 2);
    MulAssoc(2, q / 2, b);
  }

  /** A divisor of a power of two is a power of two. */
  lemma {:induction false} PowerOfTwoDivisor(b: nat, m: nat) returns (j: nat)
    requires b > 0 && Pow(2, m) % b == 0
    ensures b == Pow(2, j)
  {
    if b == 1 {
      return 0;
    }
    DivModFacts(Pow(2, m), b);
    var q := Pow(2, m) / b;
    if m == 0 {
      DivModUnique(1, b, 0, 1);
      assert false;
    } else if b % 2 == 0 {
      var c := b / 2;
      MulAssoc(q, 2, c);
      DivModUnique(Pow(2, m - 1), c, q, 0);
      j := PowerOfTwoDivisor(c, m - 1);
      j := j + 1;
    } else {
      OddFactor(q, b, Pow(2, m - 1));
      DivModUnique(Pow(2, m - 1), b, q / 2, 0);
      j := PowerOfTwoDivisor(b, m - 1);
    }
  }

  /** The two-limb number H * B. */
  function OverflowWitness(): (p: seq<Limb>) {
    BaseFacts();
    [0, H]
  }

  lemma OverflowValue()
    ensures Val(OverflowWitness()) == H * B
  {
    V2(OverflowWitness());
  }

  lemma PushHalfAt(y: Limb, h: Limb, q: int, r: int)
    requires h < H && y * H == q * B + r && 0 <= r < B
    ensures PushHalf(y, h) == r + h
  {
    ShiftedHalf(y);
    DivModUnique(y as int * H, B, q, r);
  }

  /** Folding limb H into zero gives H, which no divisor above H reduces. */
  lemma FoldFirst(b: Limb, x: Limb)
    requires H < b && x == H
    ensures FoldLimb(0, x, b) == H
  {
    BaseFacts();
    LowHalfFacts(x);
    DivModUnique(x, H, 1, 0);
    PushHalfAt(0, HighHalf(x), 0, 0);
    DivModUnique(1, b, 0, 1);
    PushHalfAt(1, LowHalf(x), 0, H);
    DivModUnique(H, b, 0, H);
  }

  /** Pushing half a limb onto H drops everything. */
  lemma FoldSecond(b: Limb, y: Limb)
    requires H < b && y == H
    ensures FoldLimb(y, 0, b) == 0
  {
    BaseFacts();
    LowHalfFacts(0);
    DivModUnique(0, H, 0, 0);
    PushHalfAt(y, 0, 1, 0);
    DivModUnique(0, b, 0, 0);
    PushHalfAt(0, 0, 0, 0);
  }

  /** The residue of H * B by a divisor above H is lost to the overflow. */
  lemma FoldOverflow(b: Limb)
    requires 0 < H < b
    ensures FoldLimbs(OverflowWitness(), 0, b) == 0
  {
    var p := OverflowWitness();
    FoldFirst(b, p[1]);
    FoldSecond(b, p[1]);
    assert FoldLimbs(p, 1, b) == FoldLimb(FoldLimbs(p, 2, b), p[1], b);
  }

  lemma ExponentBelow(j: nat, k: nat)
    requires Pow(2, j) < Pow(2, k)
    ensures j < k
  {
    if j >= k { PowMono(2, k, j); }
  }

  lemma PowerDividesBase(b: Limb, j: nat)
    requires b == Pow(2, j)
    ensures b > 0 && B % b == 0
  {
    PowPos(2, j);
    ExponentBelow(j, biL);
    assert B == Pow(2, j) * Pow(2, biL - j) by { PowAdd(2, j, biL - j); }
    DivModUnique(B, b, Pow(2, biL - j), 0);
  }

  lemma UnsafeNotDividing(b: Limb)
    requires 0 < b && !FoldSafe(b)
    ensures H * B % b != 0
  {
    if H * B % b == 0 {
      PowAdd(2, biH, biL);
      var j := PowerOfTwoDivisor(b, biH + biL);
      PowerDividesBase(b, j);
      assert false;
    }
  }

  lemma FoldSafeExact(p: seq<Limb>, b: Limb)
    requires FoldSafe(b)
    ensures FoldLimbs(p, 0, b) == Val(p) % b
  {
    FoldLimbsCongruent(p, 0, b);
    assert p[0..] == p;
    CongUnique(FoldLimbs(p, 0, b), Val(p), b);
  }

  /** The word modulo is right for every number exactly when the divisor is fold-safe. */
  lemma ModIntExact(b: Limb)
    requires 0 < b
    ensures (forall p: seq<Limb> :: FoldLimbs(p, 0, b) == Val(p) % b) <==> FoldSafe(b)
  {
    if FoldSafe(b) {
      forall p: seq<Limb>
        ensures FoldLimbs(p, 0, b) == Val(p) % b
      {
        FoldSafeExact(p, b);
      }
    } else {
      BaseFacts();
      OverflowValue();
      FoldOverflow(b);
      UnsafeNotDividing(b);
      assert FoldLimbs(OverflowWitness(), 0, b) != Val(OverflowWitness()) % b;
    }
  }

  lemma NegativeResidue(v: int, b: int)
    requires b > 0
    ensures (-v) % b == (if v % b == 0 then 0 else b - v % b)
  {
    DivModFacts(v, b);
    if v % b == 0 {
      DivModUnique(-v, b, -(v / b), 0);
    } else {
      MulDist(-(v / b), 1, b);
      DivModUnique(-v, b, -(v / b) - 1, b - v % b);
    }
  }

  /** Turning the residue of |A| into that of A. */
  lemma ModIntResult(p: seq<Limb>, s: Sign, b: Limb)
    requires FoldSafe(b)
    ensures var y := FoldLimbs(p, 0, b);
            (if s < 0 && y != 0 then b - y else y) == Signed(s, Val(p)) % b
  {
    FoldSafeExact(p, b);
    NegativeResidue(Val(p), b);
  }

  lemma OddResult(p: seq<Limb>, s: Sign)
    requires |p| > 0
    ensures p[0] % 2 == Signed(s, Val(p)) % 2
  {
    VLow(p, |p|);
    NegativeResidue(Val(p), 2);
  }

  /** r = A mod b for a word b; right for every A exactly when b is fold-safe. */
  method ModInt(a: Mpi, b: Sint) returns (ret: Status, r: Limb)
    requires b == 2 ==> |a.p| > 0
    ensures b == 0 ==> ret == DivisionByZero
    ensures b < 0 ==> ret == NegativeValue
    ensures b > 0 ==> ret == Ok && r < b
    ensures b > 0 && FoldSafe(b) ==> r == a.Value() % b
    ensures b > 2 ==> var y := FoldLimbs(a.p, 0, b); r == if a.s < 0 && y != 0 then b - y else y
  {
    r := (BasePos(); 0);
    if b == 0 { return DivisionByZero, r; }
    if b < 0 { return NegativeValue, r; }
    ret := Ok;
    if b == 1 { return; }
    if b == 2 {
      OddResult(a.p, a.s);
      r := a.p[0] % 2;
      return;
    }
    var i := |a.p|;
    var y: Limb := r;
    while i > 0
      invariant 0 <= i <= |a.p| && y == FoldLimbs(a.p, i, b)
    {
      y := FoldLimb(y, a.p[i - 1], b);
      i := i - 1;
    }
    if FoldSafe(b) { ModIntResult(a.p, a.s, b); }
    if a.s < 0 && y != 0 {
      y := b - y;
    }
    r := y;
  }
}

/** Integer facts used by every bignum proof: powers, exact division, congruences. */
module Arith {
  function Min(a: nat, b: nat): nat {
    if a < b then a else b
  }

  function Pow(b: int, e: nat): int {
    if e == 0 then 1 else b * Pow(b, e - 1)
  }

  lemma MulPos(a: int, b: int)
    requires a > 0 && b > 0
    ensures a * b > 0
  {}

  lemma {:induction false} PowPos(b: int, e: nat)
    requires b > 0
    ensures Pow(b, e) > 0
  {
    if e > 0 {
      PowPos(b, e - 1);
      MulPos(b, Pow(b, e - 1));
    }
  }

  lemma {:induction false} PowAdd(b: int, m: nat, n: nat)
    ensures Pow(b, m + n) == Pow(b, m) * Pow(b, n)
  {
    if m > 0 {
      PowAdd(b, m - 1, n);
      assert Pow(b, m + n) == b * (Pow(b, m - 1) * Pow(b, n));
    }
  }

  lemma MulNonneg(a: int, b: int)
    requires a >= 0 && b >= 0
    ensures a * b >= 0
  {}

  lemma {:induction false} PowPow(b: int, m: nat, n: nat)
    ensures m * n >= 0 && Pow(Pow(b, m), n) == Pow(b, m * n)
  {
    MulNonneg(m, n);
    if n > 0 {
      MulNonneg(m, n - 1);
      PowPow(b, m, n - 1);
      assert m * n == m + m * (n - 1);
      PowAdd(b, m, m * (n - 1));
    }
  }

  lemma MulSwap(a: int, b: int, x: int, y: int)
    ensures (a * b) * (x * y) == (a * x) * (b * y)
  {}

  lemma {:induction false} PowMulBase(a: int, b: int, e: nat)
    ensures Pow(a * b, e) == Pow(a, e) * Pow(b, e)
  {
    if e > 0 {
      PowMulBase(a, b, e - 1);
      MulSwap(a, b, Pow(a, e - 1), Pow(b, e - 1));
    }
  }

  lemma MulLe(a: int, b: int, c: int)
    requires a <= b && c >= 0
    ensures a * c <= b * c && c * a <= c * b
  {
    MulNonneg(b - a, c);
    assert (b - a) * c == b * c - a * c;
  }

  lemma {:induction false} PowMono(b: int, m: nat, n: nat)
    requires b >= 1 && m <= n
    ensures 0 < Pow(b, m) <= Pow(b, n)
  {
    PowAdd(b, m, n - m);
    PowPos(b, m);
    PowPos(b, n - m);
    MulLe(1, Pow(b, n - m), Pow(b, m));
  }

  lemma {:induction false} PowBaseMono(a: int, b: int, e: nat)
    requires 0 < a <= b
    ensures 0 < Pow(a, e) <= Pow(b, e)
  {
    if e > 0 {
      PowBaseMono(a, b, e - 1);
      MulPos(a, Pow(a, e - 1));
      MulLe(a, b, Pow(a, e - 1));
      MulLe(Pow(a, e - 1), Pow(b, e - 1), b);
    }
  }

  lemma MulAssoc(a: int, b: int, c: int)
    ensures (a * b) * c == a * (b * c) == (a * c) * b
  {}

  lemma MulDist(a: int, b: int, c: int)
    ensures (a + b) * c == a * c + b * c && c * (a + b) == c * a + c * b
    ensures (a - b) * c == a * c - b * c && c * (a - b) == c * a - c * b
  {}

  lemma MulLt(a: int, b: int, c: int)
    requires a < b && c > 0
    ensures a * c < b * c && c * a < c * b
  {
    MulPos(b - a, c);
    assert (b - a) * c == b * c - a * c;
  }

  /** Comparing multiples compares the factors. */
  lemma MulCancelLt(a: int, b: int, c: int)
    requires c > 0 && a * c < b * c
    ensures a < b
  {
    if b <= a { MulLe(b, a, c); }
  }

  lemma MulCancelLe(a: int, b: int, c: int)
    requires c > 0 && a * c <= b * c
    ensures a <= b
  {
    if b < a { MulLt(b, a, c); }
  }

  lemma MulCancelEq(a: int, b: int, c: int)
    requires c != 0 && a * c == b * c
    ensures a == b
  {
    if a < b {
      if c > 0 { MulLt(a, b, c); } else { MulLt(a, b, -c); }
    } else if b < a {
      if c > 0 { MulLt(b, a, c); } else { MulLt(b, a, -c); }
    }
  }

  /** Quotient and remainder are determined by the division identity. */
  lemma DivModUnique(a: int, d: int, q: int, r: int)
    requires d > 0 && a == q * d + r && 0 <= r < d
    ensures a / d == q && a % d == r
  {
    var q', r' := a / d, a % d;
    assert a == d * q' + r';
    MulDist(q', q, d);
    if q' > q {
      MulLe(1, q' - q, d);
    } else if q' < q {
      MulLe(1, q - q', d);
      MulDist(q, q', d);
    }
  }

  lemma DivModFacts(a: int, d: int)
    requires d > 0
    ensures a == (a / d) * d + a % d && 0 <= a % d < d
    ensures a >= 0 ==> a / d >= 0
  {
    assert a == d * (a / d) + a % d;
    if a >= 0 && a / d < 0 {
      MulLe(a / d, -1, d);
    }
  }

  lemma DivShrinks(a: int, d: int)
    requires d > 0 && a >= 0
    ensures 0 <= a / d <= a
  {
    DivModFacts(a, d);
    MulLe(1, d, a / d);
  }

  /** a and b leave the same remainder modulo n. */
  predicate Cong(a: int, b: int, n: int)
    requires n > 0
  {
    (a - b) % n == 0
  }

  lemma CongIntro(a: int, b: int, n: int, k: int)
    requires n > 0 && a - b == k * n
    ensures Cong(a, b, n)
  {
    DivModUnique(a - b, n, k, 0);
  }

  lemma CongElim(a: int, b: int, n: int) returns (k: int)
    requires n > 0 && Cong(a, b, n)
    ensures a - b == k * n
  {
    k := (a - b) / n;
    DivModFacts(a - b, n);
  }

  lemma CongSym(a: int, b: int, n: int)
    requires n > 0 && Cong(a, b, n)
    ensures Cong(b, a, n)
  {
    var k := CongElim(a, b, n);
    CongIntro(b, a, n, -k);
  }

  lemma CongTrans(a: int, b: int, c: int, n: int)
    requires n > 0 && Cong(a, b, n) && Cong(b, c, n)
    ensures Cong(a, c, n)
  {
    var k := CongElim(a, b, n);
    var l := CongElim(b, c, n);
    assert (k + l) * n == k * n + l * n;
    CongIntro(a, c, n, k + l);
  }

  lemma CongAdd(a: int, b: int, c: int, d: int, n: int)
    requires n > 0 && Cong(a, b, n) && Cong(c, d, n)
    ensures Cong(a + c, b + d, n) && Cong(a - c, b - d, n)
  {
    var k := CongElim(a, b, n);
    var l := CongElim(c, d, n);
    assert (k + l) * n == k * n + l * n && (k - l) * n == k * n - l * n;
    CongIntro(a + c, b + d, n, k + l);
    CongIntro(a - c, b - d, n, k - l);
  }

  lemma CongMul(a: int, b: int, c: int, d: int, n: int)
    requires n > 0 && Cong(a, b, n) && Cong(c, d, n)
    ensures Cong(a * c, b * d, n)
  {
    var k := CongElim(a, b, n);
    var l := CongElim(c, d, n);
    assert a * c - b * d == (a - b) * c + b * (c - d);
    assert (k * n) * c + b * (l * n) == (k * c + b * l) * n;
    CongIntro(a * c, b * d, n, k * c + b * l);
  }

  lemma CongRefl(a: int, n: int)
    requires n > 0
    ensures Cong(a, a, n)
  {
    CongIntro(a, a, n, 0);
  }

  lemma {:induction false} CongPow(a: int, b: int, e: nat, n: int)
    requires n > 0 && Cong(a, b, n)
    ensures Cong(Pow(a, e), Pow(b, e), n)
  {
    if e == 0 {
      CongRefl(1, n);
    } else {
      CongPow(a, b, e - 1, n);
      CongMul(a, b, Pow(a, e - 1), Pow(b, e - 1), n);
    }
  }

  lemma CongMod(a: int, n: int)
    requires n > 0
    ensures Cong(a % n, a, n) && Cong(a, a % n, n)
  {
    DivModFacts(a, n);
    CongIntro(a, a % n, n, a / n);
    CongSym(a, a % n, n);
  }

  /** The least non-negative member of a class is the remainder. */
  lemma CongUnique(a: int, b: int, n: int)
    requires n > 0 && Cong(a, b, n) && 0 <= a < n
    ensures a == b % n
  {
    var k := CongElim(a, b, n);
    assert b == (-k) * n + a;
    DivModUnique(b, n, -k, a);
  }

  lemma ModAddMultiple(a: int, k: int, n: int)
    requires n > 0
    ensures (a + k * n) % n == a % n
  {
    DivModFacts(a, n);
    assert a + k * n == (a / n + k) * n + a % n;
    DivModUnique(a + k * n, n, a / n + k, a % n);
  }
}

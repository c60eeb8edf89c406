/** Bitwise or of natural numbers. */
module Bits {
  import opened Arith

  /** A bit is set when it is set in either number. */
  function Or(a: nat, b: nat): nat
    decreases a + b
  {
    if a == 0 && b == 0 then 0
    else (if a % 2 == 1 || b % 2 == 1 then 1 else 0) + 2 * Or(a / 2, b / 2)
  }

  /** x shifted left by n bits. */
  function Doubled(x: nat, n: nat): nat {
    if n == 0 then x else 2 * Doubled(x, n - 1)
  }

  lemma {:induction false} OrSame(a: nat, b: nat)
    ensures Or(a, b) == Or(b, a)
    decreases a + b
  {
    if a + b > 0 { OrSame(a / 2, b / 2); }
  }

  lemma {:induction false} OrZero(b: nat)
    ensures Or(0, b) == b
  {
    if b > 0 { OrZero(b / 2); }
  }

  /** Numbers without a common bit are or-ed by adding them. */
  lemma {:induction false} OrDisjoint(a: nat, b: nat, n: nat)
    requires a < Doubled(1, n)
    ensures Or(a, Doubled(b, n)) == a + Doubled(b, n)
    decreases n
  {
    if n == 0 {
      OrZero(b);
    } else {
      OrDisjoint(a / 2, b, n - 1);
    }
  }

  /** The or of numbers of n bits has n bits. */
  lemma {:induction false} OrBound(a: nat, b: nat, n: nat)
    requires a < Doubled(1, n) && b < Doubled(1, n)
    ensures Or(a, b) < Doubled(1, n)
    decreases n
  {
    if n > 0 { OrBound(a / 2, b / 2, n - 1); }
  }

  lemma {:induction false} DoubledPow(x: nat, n: nat)
    ensures Doubled(x, n) == x * Pow(2, n)
  {
    if n > 0 {
      DoubledPow(x, n - 1);
      MulAssoc(2, x, Pow(2, n - 1));
    }
  }

  /** A number whose n low bits are clear, or-ed with a number of n bits. */
  lemma OrAligned(a: nat, b: nat, n: nat)
    requires Pow(2, n) > 0 && a % Pow(2, n) == 0 && b < Pow(2, n)
    ensures Or(a, b) == a + b
  {
    var q := a / Pow(2, n);
    DivModFacts(a, Pow(2, n));
    DoubledPow(q, n);
    DoubledPow(1, n);
    OrDisjoint(b, q, n);
    OrSame(a, b);
  }
}

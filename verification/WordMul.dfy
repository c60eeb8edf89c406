/** The multiply-accumulate step of mbedtls/bn_mul.h in its two portable C forms. */
module WordMul {
  import opened Arith
  import opened Limbs

  /** s*b + c + d always fits two limbs. */
  lemma FitsTwoLimbs(s: Limb, b: Limb, c: Limb, d: Limb)
    ensures 0 <= s * b + c + d < B * B
  {
    MulNonneg(s, b);
    MulLe(s, B - 1, b);
    MulLe(b, B - 1, B - 1);
    MulDist(B, 1, B - 1);
    MulDist(B, 1, B);
  }

  lemma WrapSum(x: int, y: int)
    ensures Wrap(Wrap(x) as int + y) == Wrap(x + y)
  {
    BasePos();
    DivModFacts(x, B);
    ModAddMultiple(Wrap(x) as int + y, x / B, B);
  }

  /**
   * r0 += v; r1 += (r0 < v). The high limb is tracked modulo B through the number g it stands for.
   */
  method AddLow(r0: Limb, r1: Limb, v: Limb, ghost g: int) returns (s0: Limb, s1: Limb, ghost g': int)
    requires r1 == Wrap(g)
    ensures s1 == Wrap(g') && g' * B + s0 == g * B + r0 + v
  {
    BasePos();
    WrapAdd(r0, v);
    s0 := AddW(r0, v);
    var k: Limb := if s0 < v then 1 else 0;
    s1 := AddW(r1, k);
    g' := g + k;
    WrapSum(g, k as int);
    MulDist(g, k, B);
  }

  /** A number below B*B whose low limb is known has its high limb below B. */
  lemma HighLimb(g: int, lo: Limb, total: int)
    requires g * B + lo == total && 0 <= total < B * B
    ensures Wrap(g) == g
  {
    BasePos();
    DivModUnique(total, B, g, lo);
    DivModFacts(total, B);
    MulCancelLt(g, B, B);
    WrapId(g);
  }

  /** The form that has a double-width integer type. */
  method MulAddDouble(s: Limb, b: Limb, c: Limb, d: Limb) returns (lo: Limb, hi: Limb)
    ensures hi * B + lo == s * b + c + d
  {
    BasePos();
    FitsTwoLimbs(s, b, c, d);
    var r: int := s as int * b as int;
    DivModFacts(r, B);
    var r0, r1: Limb := Wrap(r), Wrap(r / B);
    ghost var g := r / B;
    r0, r1, g := AddLow(r0, r1, c, g);
    r0, r1, g := AddLow(r0, r1, d, g);
    HighLimb(g, r0, s * b + c + d);
    return r0, r1;
  }

  /** Low half of a limb, as the shift pair computes it. */
  function LowHalf(x: Limb): (r: Limb) {
    BaseFacts();
    DivShrinks(Wrap(x as int * H), H);
    Wrap(x as int * H) / H
  }

  function HighHalf(x: Limb): (r: Limb) {
    BaseFacts();
    DivShrinks(x, H);
    x / H
  }

  lemma LowHalfFacts(x: Limb)
    ensures H > 0 && LowHalf(x) == x % H && Wrap(x as int * H) == (x % H) * H && x == x / H * H + x % H
    ensures HighHalf(x) == x / H && 0 <= x / H < H && 0 <= x % H < H
  {
    BaseFacts();
    DivModFacts(x, H);
    var q, r := x / H, x % H;
    MulDist(q * H, r, H);
    MulAssoc(q, H, H);
    MulLe(r, H - 1, H);
    MulDist(H, 1, H);
    MulNonneg(r, H);
    DivModUnique(x as int * H, B, q, r * H);
    DivModUnique(r * H, H, r, 0);
    MulCancelLt(q, H, H);
  }

  /** Products of half limbs stay inside a limb. */
  lemma HalfProductFits(x: int, y: int)
    requires 0 <= x < H && 0 <= y < H
    ensures 0 <= x * y < B
  {
    BaseFacts();
    MulNonneg(x, y);
    MulLe(x, H, y);
    MulLt(y, H, H);
  }

  /** The schoolbook expansion over half limbs. */
  lemma HalfExpansion(s1: int, s0: int, b1: int, b0: int)
    ensures (s1 * H + s0) * (b1 * H + b0) == s1 * b1 * B + (s0 * b1) * H + (s1 * b0) * H + s0 * b0
  {
    BaseFacts();
    var t := b1 * H + b0;
    MulDist(s1 * H, s0, t);
    MulDist(b1 * H, b0, s1 * H);
    MulDist(b1 * H, b0, s0);
    assert (s1 * H) * (b1 * H) == s1 * b1 * (H * H) by { MulSwap(s1, H, b1, H); }
    MulAssoc(s1, H, b0);
    MulAssoc(s0, b1, H);
  }

  /** Adding the high half of a middle product and shifting its low half up keeps rx * H. */
  lemma MiddleProduct(rx: Limb)
    ensures H > 0 && rx / H * B + Wrap(rx as int * H) == rx * H
  {
    BaseFacts();
    LowHalfFacts(rx);
    MulDist(rx / H * H, rx % H, H);
    MulAssoc(rx / H, H, H);
  }

  /** The four products of half limbs; none of them wraps. */
  method HalfProducts(s: Limb, b: Limb) returns (r0: Limb, r1: Limb, rx: Limb, ry: Limb)
    ensures r1 * B + rx * H + ry * H + r0 == s * b
  {
    BaseFacts();
    LowHalfFacts(s);
    LowHalfFacts(b);
    var b0: Limb, b1: Limb := LowHalf(b), HighHalf(b);
    var s0: Limb, s1: Limb := LowHalf(s), HighHalf(s);
    HalfProductFits(s0, b1);
    HalfProductFits(s0, b0);
    HalfProductFits(s1, b0);
    HalfProductFits(s1, b1);
    WrapId(s0 as int * b1 as int);
    WrapId(s0 as int * b0 as int);
    WrapId(s1 as int * b0 as int);
    WrapId(s1 as int * b1 as int);
    rx, r0 := MulW(s0, b1), MulW(s0, b0);
    ry, r1 := MulW(s1, b0), MulW(s1, b1);
    HalfExpansion(s1, s0, b1, b0);
  }

  /** The form for compilers without a double-width type: four half-limb products. */
  method MulAddHalf(s: Limb, b: Limb, c: Limb, d: Limb) returns (lo: Limb, hi: Limb)
    ensures hi * B + lo == s * b + c + d
  {
    var r0, r1, rx, ry := HalfProducts(s, b);
    BaseFacts();
    LowHalfFacts(rx);
    LowHalfFacts(ry);
    MiddleProduct(rx);
    MiddleProduct(ry);
    FitsTwoLimbs(s, b, c, d);
    ghost var g: int := r1 as int + rx / H + ry / H;
    WrapId(r1);
    WrapSum(r1 as int, rx / H);
    WrapSum(r1 as int + rx / H, ry / H);
    MulDist(r1 as int + rx / H, ry / H, B);
    MulDist(r1, rx / H, B);
    r1 := AddW(AddW(r1, rx / H), ry / H);
    rx, ry := Wrap(rx as int * H), Wrap(ry as int * H);
    r0, r1, g := AddLow(r0, r1, rx, g);
    r0, r1, g := AddLow(r0, r1, ry, g);
    r0, r1, g := AddLow(r0, r1, c, g);
    r0, r1, g := AddLow(r0, r1, d, g);
    HighLimb(g, r0, s * b + c + d);
    return r0, r1;
  }
}

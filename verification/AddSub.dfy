/** Signed addition and subtraction under every aliasing of result and operands. */
module AddSub {
  import opened Arith
  import opened Limbs
  import opened MpiCore

  /** One column of the addition loop: two wrapped adds and their carry tests. */
  method AddColumn(x: Limb, t: Limb, c: Limb) returns (p: Limb, c': Limb)
    requires c <= 1
    ensures c' <= 1 && p + c' * B == x + t + c
  {
    BaseFacts();
    WrapAdd(x, c);
    p := AddW(x, c);
    c' := if p < c then 1 else 0;
    WrapAdd(p, t);
    p := AddW(p, t);
    c' := c' + if p < t then 1 else 0;
  }

  /** One step of the carry run. */
  method AddCarry(x: Limb, c: Limb) returns (p: Limb, c': Limb)
    ensures c' <= 1 && p + c' * B == x + c && (x == 0 ==> c' == 0)
  {
    BaseFacts();
    WrapAdd(x, c);
    p := AddW(x, c);
    c' := if p < c then 1 else 0;
  }

  /** Replacing limb i by v moves the value by (v - old limb) * P(i). */
  lemma LimbStep(p: seq<Limb>, i: nat, v: Limb)
    requires i < |p|
    ensures Val(p[i := v]) == Val(p) + v * P(i) - p[i] * P(i)
  {
    VUpdate(p, i, v, |p|);
    MulDist(v, p[i], P(i));
  }

  /** A carry or borrow of c waiting at place i. */
  ghost function At(c: Limb, i: nat): int {
    if c == 0 then 0 else P(i)
  }

  /** Column equation scaled to its place: the carry out is worth B at place i. */
  lemma CarryScale(v: int, w: int, c: Limb, c': Limb, t: int, i: nat)
    requires v + c' * B == w + t + c && c <= 1 && c' <= 1
    ensures v * P(i) - w * P(i) + At(c', i + 1) == t * P(i) + At(c, i)
  {
    PFacts(i);
    assert (v - w) * P(i) == (t + c - c' * B) * P(i);
    MulDist(v, w, P(i));
    MulDist(t + c, c' * B, P(i));
    MulDist(t, c, P(i));
  }

  /** Adding limb i of q to p with a carry, as an equation on values. */
  lemma AddStep(p: seq<Limb>, i: nat, v: Limb, c: Limb, c': Limb, q: seq<Limb>)
    requires i < |p| && i < |q| && c <= 1 && c' <= 1
    requires v + c' * B == p[i] + q[i] + c
    ensures Val(p[i := v]) + At(c', i + 1) == Val(p) + At(c, i) + V(q, i + 1) - V(q, i)
  {
    LimbStep(p, i, v);
    CarryScale(v, p[i], c, c', q[i], i);
  }

  lemma CarryStep(p: seq<Limb>, i: nat, v: Limb, c: Limb, c': Limb)
    requires i < |p| && c <= 1 && c' <= 1
    requires v + c' * B == p[i] + c
    ensures Val(p[i := v]) + At(c', i + 1) == Val(p) + At(c, i)
  {
    LimbStep(p, i, v);
    CarryScale(v, p[i], c, c', 0, i);
  }

  /** Carries c into place i, growing the array when the run leaves it. */
  method CarryRun(x: Mpi, start: nat, carry: Limb)
    requires start <= |x.p| && carry <= 1
    modifies x
    ensures x.s == old(x.s) && |x.p| >= old(|x.p|)
    ensures Val(x.p) == old(Val(x.p)) + At(carry, start)
  {
    var i: nat, c := start, carry;
    while c != 0
      invariant i <= |x.p| && old(|x.p|) <= |x.p| && c <= 1
      invariant x.s == old(x.s)
      invariant Val(x.p) + At(c, i) == old(Val(x.p)) + At(carry, start)
      decreases if c == 0 then 0 else |x.p| - i + 1
    {
      if i >= |x.p| {
        Grow(x, i + 1);
      }
      ghost var p, c0 := x.p, c;
      var v;
      v, c := AddCarry(x.p[i], c);
      x.p := x.p[i := v];
      CarryStep(p, i, v, c0, c);
      i := i + 1;
    }
  }

  /** Adds j limbs, column by column; B may be X. */
  method AddLimbs(x: Mpi, b: Mpi, j: nat) returns (c: Limb)
    requires j <= |x.p| && j <= |b.p|
    modifies x
    ensures c <= 1 && x.s == old(x.s) && |x.p| == old(|x.p|)
    ensures Val(x.p) + At(c, j) == old(Val(x.p)) + V(old(b.p), j)
  {
    BasePos();
    ghost var x0, b0 := x.p, b.p;
    var i := 0;
    c := 0;
    while i < j
      invariant 0 <= i <= j <= |x.p| == |x0| && c <= 1
      invariant x.s == old(x.s)
      invariant |b.p| == |b0| >= j && forall k :: i <= k < |b0| ==> b.p[k] == b0[k]
      invariant Val(x.p) + At(c, i) == Val(x0) + V(b0, i)
    {
      var tmp := b.p[i];
      ghost var p, c0 := x.p, c;
      var v;
      v, c := AddColumn(x.p[i], tmp, c);
      x.p := x.p[i := v];
      AddStep(p, i, v, c0, c, b0);
      i := i + 1;
    }
  }

  /** X = |A| + |B|. */
  method AddAbs(x: Mpi, a: Mpi, b: Mpi)
    modifies x
    ensures x.s == 1 && Val(x.p) == old(Val(a.p)) + old(Val(b.p))
    ensures old(|a.p|) > 0 && old(|b.p|) > 0 ==> |x.p| >= Max(1, old(|x.p|))
  {
    var a', b' := a, b;
    if x == b {
      a', b' := x, a;
    }
    ghost var b0 := b'.p;
    if x != a' {
      Copy(x, a');
    }
    x.s := 1;
    var j := ScanTop(b');
    SigVal(b0);
    Grow(x, j);
    assert b'.p == b0;
    var c := AddLimbs(x, b', j);
    CarryRun(x, j, c);
  }

  /** One column of the subtraction loop. */
  method SubColumn(d: Limb, s: Limb, c: Limb) returns (r: Limb, c': Limb)
    requires c <= 1
    ensures c' <= 1 && r - c' * B == d - s - c
  {
    BaseFacts();
    WrapSub(d, c);
    var z := if d < c then 1 else 0;
    r := SubW(d, c);
    WrapSub(r, s);
    c' := z + if r < s then 1 else 0;
    r := SubW(r, s);
  }

  /** One step of the borrow run. */
  method SubBorrow(d: Limb, c: Limb) returns (r: Limb, c': Limb)
    requires c <= 1
    ensures c' <= 1 && r - c' * B == d - c
  {
    BaseFacts();
    WrapSub(d, c);
    c' := if d < c then 1 else 0;
    r := SubW(d, c);
  }

  lemma BorrowScale(v: int, w: int, c: Limb, c': Limb, t: int, i: nat)
    requires v - c' * B == w - t - c && c <= 1 && c' <= 1
    ensures v * P(i) - w * P(i) - At(c', i + 1) == -(t * P(i)) - At(c, i)
  {
    PFacts(i);
    assert (v - w) * P(i) == (c' * B - (t + c)) * P(i);
    MulDist(v, w, P(i));
    MulDist(c' * B, t + c, P(i));
    MulDist(t, c, P(i));
  }

  lemma SubStep(p: seq<Limb>, i: nat, v: Limb, c: Limb, c': Limb, q: seq<Limb>)
    requires i < |p| && i < |q| && c <= 1 && c' <= 1
    requires v - c' * B == p[i] - q[i] - c
    ensures Val(p[i := v]) - At(c', i + 1) == Val(p) - At(c, i) - (V(q, i + 1) - V(q, i))
  {
    LimbStep(p, i, v);
    BorrowScale(v, p[i], c, c', q[i], i);
  }

  lemma BorrowStep(p: seq<Limb>, i: nat, v: Limb, c: Limb, c': Limb)
    requires i < |p| && c <= 1 && c' <= 1
    requires v - c' * B == p[i] - c
    ensures Val(p[i := v]) - At(c', i + 1) == Val(p) - At(c, i)
  {
    LimbStep(p, i, v);
    BorrowScale(v, p[i], c, c', 0, i);
  }

  /** A pending borrow at the end of the array would make the difference negative. */
  lemma BorrowStaysInside(p: seq<Limb>, i: nat, c: Limb, v: int)
    requires i <= |p| && c == 1 && Val(p) - At(c, i) == v && v >= 0
    ensures i < |p|
  {
    VBound(p, |p|);
  }

  /** D -= S[..n]: the borrow run always stops inside D when S[..n] <= D. */
  method SubHlp(n: nat, s: Mpi, d: Mpi)
    requires s != d && n <= |s.p| && n <= |d.p| && V(s.p, n) <= Val(d.p)
    modifies d
    ensures d.s == old(d.s) && |d.p| == old(|d.p|)
    ensures Val(d.p) == old(Val(d.p)) - V(s.p, n)
  {
    var i, c: Limb := 0, (BasePos(); 0);
    ghost var d0 := d.p;
    while i < n
      invariant 0 <= i <= n && |d.p| == |d0| && c <= 1
      invariant d.s == old(d.s)
      invariant Val(d.p) - At(c, i) == Val(d0) - V(s.p, i)
    {
      ghost var p, c0 := d.p, c;
      var v;
      v, c := SubColumn(d.p[i], s.p[i], c);
      d.p := d.p[i := v];
      SubStep(p, i, v, c0, c, s.p);
      i := i + 1;
    }
    while c != 0
      invariant n <= i <= |d.p| == |d0| && c <= 1
      invariant d.s == old(d.s)
      invariant Val(d.p) - At(c, i) == Val(d0) - V(s.p, n)
      decreases if c == 0 then 0 else |d.p| - i + 1
    {
      BorrowStaysInside(d.p, i, c, Val(d0) - V(s.p, n));
      ghost var p, c0 := d.p, c;
      var v;
      v, c := SubBorrow(d.p[i], c);
      d.p := d.p[i := v];
      BorrowStep(p, i, v, c0, c);
      i := i + 1;
    }
  }

  lemma SubFits(n: nat, b: seq<Limb>, x: seq<Limb>)
    requires n == Sig(b) && Val(b) <= Val(x)
    ensures n <= |x|
  {
    SigFacts(b);
    SigFacts(x);
    if n > |x| {
      BasePos();
      PowMono(B, |x|, n - 1);
      VBound(x, |x|);
    }
  }

  /** X = |A| - |B|, refused when it would be negative. */
  method SubAbs(x: Mpi, a: Mpi, b: Mpi) returns (ret: Status)
    modifies x
    ensures old(Val(a.p)) < old(Val(b.p)) ==>
      ret == NegativeValue && x.s == old(x.s) && x.p == old(x.p)
    ensures old(Val(a.p)) >= old(Val(b.p)) ==>
      ret == Ok && x.s == 1 && Val(x.p) == old(Val(a.p)) - old(Val(b.p))
    ensures old(|a.p|) > 0 && old(|b.p|) > 0 ==> |x.p| >= Max(old(|x.p|), if ret == Ok then 1 else 0)
  {
    var r := CmpAbs(a, b);
    if r < 0 { return NegativeValue; }
    var b' := b;
    if x == b {
      var tb := new Mpi();
      Copy(tb, b);
      b' := tb;
    }
    if x != a {
      Copy(x, a);
    }
    x.s := 1;
    var n := ScanTop(b');
    SigVal(b'.p);
    SubFits(n, b'.p, x.p);
    SubHlp(n, b', x);
    return Ok;
  }

  /** X = A + B. */
  method AddMpi(x: Mpi, a: Mpi, b: Mpi)
    modifies x
    ensures x.Value() == old(a.Value()) + old(b.Value())
    ensures old(a.s) == old(b.s) ==> x.s == old(a.s)
    ensures old(|a.p|) > 0 && old(|b.p|) > 0 ==> |x.p| >= Max(1, old(|x.p|))
  {
    var s := a.s;
    if a.s != b.s {
      var r := CmpAbs(a, b);
      if r >= 0 {
        var e := SubAbs(x, a, b);
        x.s := s;
      } else {
        var e := SubAbs(x, b, a);
        x.s := if s > 0 then -1 else 1;
      }
    } else {
      AddAbs(x, a, b);
      x.s := s;
    }
  }

  /** X = A - B. */
  method SubMpi(x: Mpi, a: Mpi, b: Mpi)
    modifies x
    ensures x.Value() == old(a.Value()) - old(b.Value())
    ensures old(a.s) != old(b.s) ==> x.s == old(a.s)
    ensures old(|a.p|) > 0 && old(|b.p|) > 0 ==> |x.p| >= Max(1, old(|x.p|))
  {
    var s := a.s;
    if a.s == b.s {
      var r := CmpAbs(a, b);
      if r >= 0 {
        var e := SubAbs(x, a, b);
        x.s := s;
      } else {
        var e := SubAbs(x, b, a);
        x.s := if s > 0 then -1 else 1;
      }
    } else {
      AddAbs(x, a, b);
      x.s := s;
    }
  }

  method AddInt(x: Mpi, a: Mpi, z: Sint)
    modifies x
    ensures x.Value() == old(a.Value()) + z
    ensures old(a.s) == (if z < 0 then -1 else 1) ==> x.s == old(a.s)
    ensures old(|a.p|) > 0 ==> |x.p| >= Max(1, old(|x.p|))
  {
    var y := new Mpi.Word(if z < 0 then -1 else 1, if z < 0 then -z else z);
    AddMpi(x, a, y);
  }

  method SubInt(x: Mpi, a: Mpi, z: Sint)
    modifies x
    ensures x.Value() == old(a.Value()) - z
    ensures old(a.s) != (if z < 0 then -1 else 1) ==> x.s == old(a.s)
    ensures old(|a.p|) > 0 ==> |x.p| >= Max(1, old(|x.p|))
  {
    var y := new Mpi.Word(if z < 0 then -1 else 1, if z < 0 then -z else z);
    SubMpi(x, a, y);
  }
}

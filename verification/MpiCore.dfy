/** The multi-precision integer object and its housekeeping, comparisons and bit counts. */
module MpiCore {
  import opened Arith
  import opened Limbs
  import opened Sequences

  datatype Status =
    | Ok
    | BadInputData
    | NegativeValue
    | DivisionByZero
    | NotAcceptable
    | BufferTooSmall
    | InvalidCharacter
    | AllocFailed

  type Sign = x: int | x == 1 || x == -1 witness 1

  /** A signed machine word. */
  type Sint = x: int | -B < 2 * x && 2 * x < B witness (BasePos(); 0)

  /** Sign times magnitude. */
  function Signed(s: Sign, m: int): int {
    if s > 0 then m else -m
  }

  /** Sign and limbs; the limb array is replaced when it grows. */
  class Mpi {
    var s: Sign
    var p: seq<Limb>

    ghost function Value(): int
      reads this
    {
      Signed(s, Val(p))
    }

    constructor ()
      ensures s == 1 && p == []
    {
      s, p := 1, [];
    }

    /** A one-limb number on the stack. */
    constructor Word(sign: Sign, w: Limb)
      ensures s == sign && p == [w] && Val(p) == w
    {
      s, p := sign, [w];
      new;
      PFacts(0);
      assert V(p, 1) == V(p, 0) + p[0] * P(0);
    }
  }

  function Zeros(n: nat): (z: seq<Limb>) {
    BasePos();
    Repeat(0, n)
  }

  lemma ZerosVal(n: nat, m: nat)
    requires m <= n
    ensures V(Zeros(n), m) == 0
  {
    VZeros(Zeros(n), 0, m);
  }

  /** Number of limbs up to the highest non-zero one, among the n low limbs. */
  ghost function SigN(p: seq<Limb>, n: nat): (r: nat)
    requires n <= |p|
    ensures r <= n
  {
    if n == 0 then 0 else if p[n - 1] != 0 then n else SigN(p, n - 1)
  }

  ghost function Sig(p: seq<Limb>): (r: nat)
    ensures r <= |p|
  {
    SigN(p, |p|)
  }

  lemma {:induction false} SigNFacts(p: seq<Limb>, n: nat)
    requires n <= |p|
    ensures forall i :: SigN(p, n) <= i < n ==> p[i] == 0
    ensures SigN(p, n) > 0 ==> p[SigN(p, n) - 1] != 0
  {
    if n > 0 && p[n - 1] == 0 { SigNFacts(p, n - 1); }
  }

  /** The significant limbs bound the value from both sides. */
  lemma SigFacts(p: seq<Limb>)
    ensures forall i :: Sig(p) <= i < |p| ==> p[i] == 0
    ensures Sig(p) > 0 ==> p[Sig(p) - 1] != 0 && P(Sig(p) - 1) <= Val(p)
    ensures Val(p) == V(p, Sig(p)) < P(Sig(p))
    ensures Sig(p) == 0 <==> Val(p) == 0
  {
    SigNFacts(p, |p|);
    VZeros(p, Sig(p), |p|);
    VBound(p, Sig(p));
    if Sig(p) > 0 {
      PFacts(Sig(p) - 1);
      MulLe(1, p[Sig(p) - 1], P(Sig(p) - 1));
    }
  }

  lemma SigVal(p: seq<Limb>)
    ensures Val(p) == V(p, Sig(p))
    ensures Sig(p) == 0 <==> Val(p) == 0
  {
    SigFacts(p);
  }

  /** The scan loop's exit point is the significant length. */
  lemma {:induction false} SigNUnique(p: seq<Limb>, i: nat, n: nat)
    requires i <= n <= |p|
    requires forall k :: i <= k < n ==> p[k] == 0
    requires i > 0 ==> p[i - 1] != 0
    ensures SigN(p, n) == i
  {
    if i < n { SigNUnique(p, i, n - 1); }
  }

  lemma SigUnique(p: seq<Limb>, i: nat)
    requires i <= |p|
    requires forall k :: i <= k < |p| ==> p[k] == 0
    requires i > 0 ==> p[i - 1] != 0
    ensures Sig(p) == i
  {
    SigNUnique(p, i, |p|);
  }

  /** Significant length is determined by the value's size. */
  lemma SigByBounds(p: seq<Limb>, n: nat)
    requires n > 0 && P(n - 1) <= Val(p) < P(n)
    ensures Sig(p) == n
  {
    SigFacts(p);
    BasePos();
    if Sig(p) < n {
      PowMono(B, Sig(p), n - 1);
    } else if Sig(p) > n {
      PowMono(B, n, Sig(p) - 1);
    }
  }

  function Max(a: int, b: int): int {
    if a >= b then a else b
  }

  method Grow(x: Mpi, n: nat)
    modifies x
    ensures x.s == old(x.s) && |x.p| == Max(|old(x.p)|, n)
    ensures x.p == old(x.p) + Zeros(|x.p| - |old(x.p)|)
    ensures Val(x.p) == old(Val(x.p))
  {
    if |x.p| < n {
      x.p := x.p + Zeros(n - |x.p|);
    }
    assert x.p == old(x.p) + Zeros(|x.p| - |old(x.p)|);
    VFrame(x.p, old(x.p), |old(x.p)|);
    VZeros(x.p, |old(x.p)|, |x.p|);
  }

  method Copy(x: Mpi, y: Mpi)
    modifies x
    ensures x.Value() == old(y.Value()) && Val(x.p) == old(Val(y.p))
    ensures x == y ==> x.s == old(x.s) && x.p == old(x.p)
    ensures x != y && |y.p| > 0 ==>
      x.s == y.s && |x.p| == Max(old(|x.p|), Max(1, Sig(y.p)))
    ensures x != y && |y.p| == 0 ==> x.s == 1 && x.p == []
  {
    if x == y { return; }
    if |y.p| == 0 {
      x.s, x.p := 1, [];
      return;
    }
    var i := |y.p| - 1;
    while i > 0 && y.p[i] == 0
      invariant 0 <= i < |y.p|
      invariant forall k :: i < k < |y.p| ==> y.p[k] == 0
    {
      i := i - 1;
    }
    i := i + 1;
    x.s := y.s;
    if |x.p| < i {
      Grow(x, i);
    } else {
      x.p := x.p[..i] + Zeros(|x.p| - i);
    }
    x.p := y.p[..i] + x.p[i..];
    if y.p[i - 1] == 0 { SigUnique(y.p, 0); } else { SigUnique(y.p, i); }
    VFrame(x.p, y.p, i);
    VZeros(x.p, i, |x.p|);
    VZeros(y.p, i, |y.p|);
  }

  method Lset(x: Mpi, z: Sint)
    modifies x
    ensures x.Value() == z && Val(x.p) == (if z < 0 then -z else z)
    ensures x.s == (if z < 0 then -1 else 1)
    ensures |x.p| == Max(1, old(|x.p|))
    ensures forall i :: 1 <= i < |x.p| ==> x.p[i] == 0
  {
    BasePos();
    Grow(x, 1);
    x.p := Zeros(|x.p|);
    var m: Limb := if z < 0 then -z else z;
    x.p := x.p[0 := m];
    x.s := if z < 0 then -1 else 1;
    VZeros(x.p, 1, |x.p|);
    PFacts(0);
    assert V(x.p, 1) == V(x.p, 0) + x.p[0] * P(0);
  }

  /** Least-significant-first scan for the highest non-zero limb. */
  method ScanTop(x: Mpi) returns (i: nat)
    ensures i == Sig(x.p)
  {
    i := |x.p|;
    while i > 0 && x.p[i - 1] == 0
      invariant 0 <= i <= |x.p|
      invariant forall k :: i <= k < |x.p| ==> x.p[k] == 0
    {
      i := i - 1;
    }
    SigUnique(x.p, i);
  }

  function Compare(a: int, b: int): int {
    if a > b then 1 else if a < b then -1 else 0
  }

  lemma {:induction false} VSameTop(p: seq<Limb>, q: seq<Limb>, i: nat, n: nat)
    requires i <= n && n <= |p| && n <= |q|
    requires forall k :: i <= k < n ==> p[k] == q[k]
    ensures V(p, n) - V(p, i) == V(q, n) - V(q, i)
  {
    if i < n { VSameTop(p, q, i, n - 1); }
  }

  /** The first differing limb from the top decides the order. */
  lemma VTopGreater(p: seq<Limb>, q: seq<Limb>, i: nat, n: nat)
    requires i < n && n <= |p| && n <= |q|
    requires forall k :: i < k < n ==> p[k] == q[k]
    requires p[i] > q[i]
    ensures V(p, n) > V(q, n)
  {
    VSameTop(p, q, i + 1, n);
    VBound(q, i);
    PFacts(i);
    MulLe(q[i] + 1, p[i], P(i));
    MulDist(q[i], 1, P(i));
  }

  lemma SigLess(p: seq<Limb>, q: seq<Limb>)
    requires Sig(p) < Sig(q)
    ensures Val(p) < Val(q)
  {
    SigFacts(p);
    SigFacts(q);
    BasePos();
    PowMono(B, Sig(p), Sig(q) - 1);
  }

  method CmpAbs(x: Mpi, y: Mpi) returns (r: int)
    ensures r == Compare(Val(x.p), Val(y.p))
  {
    var i := ScanTop(x);
    var j := ScanTop(y);
    SigVal(x.p);
    SigVal(y.p);
    if i == 0 && j == 0 { return 0; }
    if i > j {
      SigLess(y.p, x.p);
      return 1;
    }
    if j > i {
      SigLess(x.p, y.p);
      return -1;
    }
    while i > 0
      invariant 0 <= i <= j
      invariant forall k :: i <= k < j ==> x.p[k] == y.p[k]
    {
      if x.p[i - 1] > y.p[i - 1] {
        VTopGreater(x.p, y.p, i - 1, j);
        return 1;
      }
      if x.p[i - 1] < y.p[i - 1] {
        VTopGreater(y.p, x.p, i - 1, j);
        return -1;
      }
      i := i - 1;
    }
    VFrame(x.p, y.p, j);
    return 0;
  }

  method CmpMpi(x: Mpi, y: Mpi) returns (r: int)
    ensures r == Compare(x.Value(), y.Value())
  {
    var i := ScanTop(x);
    var j := ScanTop(y);
    SigVal(x.p);
    SigVal(y.p);
    if i == 0 && j == 0 { return 0; }
    if i > j {
      SigLess(y.p, x.p);
      return x.s;
    }
    if j > i {
      SigLess(x.p, y.p);
      return -(y.s as int);
    }
    if x.s > 0 && y.s < 0 { return 1; }
    if y.s > 0 && x.s < 0 { return -1; }
    while i > 0
      invariant 0 <= i <= j
      invariant forall k :: i <= k < j ==> x.p[k] == y.p[k]
    {
      if x.p[i - 1] > y.p[i - 1] {
        VTopGreater(x.p, y.p, i - 1, j);
        return x.s;
      }
      if x.p[i - 1] < y.p[i - 1] {
        VTopGreater(y.p, x.p, i - 1, j);
        return -(x.s as int);
      }
      i := i - 1;
    }
    VFrame(x.p, y.p, j);
    return 0;
  }

  method CmpInt(x: Mpi, z: Sint) returns (r: int)
    ensures r == Compare(x.Value(), z)
  {
    var y := new Mpi.Word(if z < 0 then -1 else 1, if z < 0 then -z else z);
    r := CmpMpi(x, y);
  }
}

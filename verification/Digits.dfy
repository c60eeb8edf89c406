/** Big-endian digit sequences and the numbers they stand for. */
module Digits {
  import opened Arith

  /** The number with digits s, most significant first. */
  ghost function Num(s: seq<int>, b: int): int {
    if |s| == 0 then 0 else Num(s[..|s| - 1], b) * b + s[|s| - 1]
  }

  ghost predicate AreDigits(s: seq<int>, b: int) {
    forall i :: 0 <= i < |s| ==> 0 <= s[i] < b
  }

  lemma NumSnoc(s: seq<int>, d: int, b: int)
    ensures Num(s + [d], b) == Num(s, b) * b + d
  {
    assert (s + [d])[..|s|] == s;
  }

  lemma HornerArith(x: int, p: int, y: int, b: int, d: int)
    ensures (x * p + y) * b + d == x * (b * p) + (y * b + d)
  {
    MulDist(x * p, y, b);
    MulAssoc(x, p, b);
  }

  lemma {:induction false} NumConcat(s: seq<int>, t: seq<int>, b: int)
    ensures Num(s + t, b) == Num(s, b) * Pow(b, |t|) + Num(t, b)
  {
    if |t| == 0 {
      assert s + t == s;
    } else {
      var t', d := t[..|t| - 1], t[|t| - 1];
      assert s + t == s + t' + [d];
      NumSnoc(s + t', d, b);
      NumConcat(s, t', b);
      HornerArith(Num(s, b), Pow(b, |t'|), Num(t', b), b, d);
    }
  }

  lemma NumCons(d: int, t: seq<int>, b: int)
    ensures Num([d] + t, b) == d * Pow(b, |t|) + Num(t, b)
  {
    NumConcat([d], t, b);
    assert Num([d], b) == d by { assert [d][..0] == []; }
  }

  lemma {:induction false} NumBound(s: seq<int>, b: int)
    requires b > 0 && AreDigits(s, b)
    ensures 0 <= Num(s, b) < Pow(b, |s|)
  {
    if |s| > 0 {
      var t := s[..|s| - 1];
      NumBound(t, b);
      MulNonneg(Num(t, b), b);
      MulLe(Num(t, b) + 1, Pow(b, |t|), b);
      MulDist(Num(t, b), 1, b);
    }
  }

  lemma {:induction false} NumZeros(s: seq<int>, b: int)
    requires forall i :: 0 <= i < |s| ==> s[i] == 0
    ensures Num(s, b) == 0
  {
    if |s| > 0 { NumZeros(s[..|s| - 1], b); }
  }

  /** Equal-length digit sequences with the same number are equal. */
  lemma {:induction false} NumUnique(s: seq<int>, t: seq<int>, b: int)
    requires b > 0 && AreDigits(s, b) && AreDigits(t, b) && |s| == |t| && Num(s, b) == Num(t, b)
    ensures s == t
  {
    if |s| > 0 {
      var n := |s| - 1;
      DivModUnique(Num(s, b), b, Num(s[..n], b), s[n]);
      DivModUnique(Num(t, b), b, Num(t[..n], b), t[n]);
      NumUnique(s[..n], t[..n], b);
      assert s == s[..n] + [s[n]] && t == t[..n] + [t[n]];
    }
  }

  /** Leading zeros do not matter. */
  lemma NumLeadingZeros(z: seq<int>, s: seq<int>, b: int)
    requires forall i :: 0 <= i < |z| ==> z[i] == 0
    ensures Num(z + s, b) == Num(s, b)
  {
    NumConcat(z, s, b);
    NumZeros(z, b);
  }

  /** A non-zero leading digit makes the length minimal. */
  lemma NumLeading(s: seq<int>, b: int)
    requires b > 0 && AreDigits(s, b) && |s| > 0 && s[0] > 0
    ensures Pow(b, |s| - 1) <= Num(s, b)
  {
    assert s == [s[0]] + s[1..];
    NumCons(s[0], s[1..], b);
    NumBound(s[1..], b);
    PowPos(b, |s| - 1);
    MulLe(1, s[0], Pow(b, |s| - 1));
  }

  lemma MinimalNotLonger(s: seq<int>, t: seq<int>, b: int)
    requires b > 1 && AreDigits(s, b) && AreDigits(t, b) && Num(s, b) == Num(t, b)
    requires |s| > 0 ==> s[0] > 0
    ensures |s| <= |t|
  {
    if |s| > |t| {
      NumLeading(s, b);
      NumBound(t, b);
      PowMono(b, |t|, |s| - 1);
    }
  }

  /** Two representations without leading zeros are the same. */
  lemma MinimalUnique(s: seq<int>, t: seq<int>, b: int)
    requires b > 1 && AreDigits(s, b) && AreDigits(t, b) && Num(s, b) == Num(t, b)
    requires (|s| > 0 ==> s[0] > 0) && (|t| > 0 ==> t[0] > 0)
    ensures s == t
  {
    MinimalNotLonger(s, t, b);
    MinimalNotLonger(t, s, b);
    NumUnique(s, t, b);
  }

  lemma DivSmaller(n: int, b: int)
    requires n > 0 && b > 1
    ensures 0 <= n / b < n && n == (n / b) * b + n % b && 0 <= n % b < b
    ensures n / b == 0 ==> n % b > 0
  {
    DivModFacts(n, b);
    if n / b >= n {
      MulLe(n, n / b, b);
      MulLe(2, b, n);
    }
  }

  /** The digits of n without leading zeros. */
  function ToDigits(n: int, b: int): (s: seq<int>)
    requires n >= 0 && b > 1
    ensures AreDigits(s, b) && Num(s, b) == n
    ensures |s| > 0 ==> s[0] > 0
    decreases n
  {
    if n == 0 then []
    else
      DivSmaller(n, b);
      NumSnoc(ToDigits(n / b, b), n % b, b);
      ToDigits(n / b, b) + [n % b]
  }

  /** Appending digits never makes the number smaller. */
  lemma NumPrefix(s: seq<int>, t: seq<int>, b: int)
    requires b > 0 && AreDigits(s, b) && AreDigits(t, b)
    ensures Num(s, b) <= Num(s + t, b)
  {
    NumConcat(s, t, b);
    NumBound(s, b);
    NumBound(t, b);
    PowPos(b, |t|);
    MulLe(1, Pow(b, |t|), Num(s, b));
  }

  /** Number of leading zeros. */
  function LeadingZeros(s: seq<int>): (n: nat)
    ensures n <= |s| && (forall i :: 0 <= i < n ==> s[i] == 0) && (n < |s| ==> s[n] != 0)
  {
    if |s| == 0 || s[0] != 0 then 0 else 1 + LeadingZeros(s[1..])
  }

  lemma {:induction false} LeadingZerosUnique(s: seq<int>, n: nat)
    requires n <= |s| && (forall i :: 0 <= i < n ==> s[i] == 0) && (n < |s| ==> s[n] != 0)
    ensures n == LeadingZeros(s)
  {
    if n > 0 { LeadingZerosUnique(s[1..], n - 1); }
  }

  /** s without its leading zeros. */
  function Stripped(s: seq<int>): (t: seq<int>)
    ensures |t| == |s| - LeadingZeros(s) && (|t| > 0 ==> t[0] != 0)
  {
    s[LeadingZeros(s)..]
  }

  lemma StrippedNum(s: seq<int>, b: int)
    ensures Num(Stripped(s), b) == Num(s, b)
  {
    var z := LeadingZeros(s);
    assert s == s[..z] + s[z..];
    NumLeadingZeros(s[..z], s[z..], b);
  }

  /** Four digits in base 256. */
  lemma FourBytes(a: int, b: int, c: int, d: int)
    ensures Num([a, b, c, d], 256) == ((a * 256 + b) * 256 + c) * 256 + d
  {
    assert [a, b, c, d] == [] + [a] + [b] + [c] + [d];
    NumSnoc([], a, 256);
    NumSnoc([] + [a], b, 256);
    NumSnoc([] + [a] + [b], c, 256);
    NumSnoc([] + [a] + [b] + [c], d, 256);
  }
}

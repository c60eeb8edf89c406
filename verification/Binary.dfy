/** Big-endian byte strings of multi-precision integers. */
module Binary {
  import opened Arith
  import opened Limbs
  import opened MpiCore
  import opened Shift
  import opened Digits
  import opened Bytes

  /** Bytes in a limb. */
  const ciL: nat := biL / 8

  /** The place value of byte k. */
  function Octets(k: nat): int {
    Pow(256, k)
  }

  lemma LimbOctets()
    ensures ciL >= 4 && biL == 8 * ciL && B == Octets(ciL)
  {
    Widths();
    Pow16();
    PowPow(2, 8, ciL);
  }

  lemma PAsOctets(i: nat)
    ensures ciL * i >= 0 && P(i) == Octets(ciL * i)
  {
    LimbOctets();
    PowPow(256, ciL, i);
  }

  /** Byte k of a limb. */
  function ByteOf(w: Limb, k: nat): (b: Byte) {
    PowPos(256, k);
    w as int / Octets(k) % 256
  }

  function GetByte(p: seq<Limb>, i: nat): (b: Byte)
    requires ciL > 0 && i / ciL < |p|
  {
    ByteOf(p[i / ciL], i % ciL)
  }

  lemma LowByte(t: int, x: int, m: int, n: int)
    requires m > 0
    ensures (t * (m * (256 * n)) + x) / m % 256 == x / m % 256
  {
    DivModFacts(x, m);
    MulAssoc(t, 256 * n, m);
    MulDist(t * (256 * n), x / m, m);
    assert t * (m * (256 * n)) == t * (256 * n) * m;
    DivModUnique(t * (m * (256 * n)) + x, m, t * (256 * n) + x / m, x % m);
    MulAssoc(256, n, t);
    ModAddMultiple(x / m, n * t, 256);
  }

  lemma InnerByte(t: nat, x: Limb, r: nat)
    requires r < ciL
    ensures Octets(r) > 0 && (t * B + x) / Octets(r) % 256 == x as int / Octets(r) % 256
  {
    LimbOctets();
    PowPos(256, r);
    PowAdd(256, r, ciL - r);
    LowByte(t, x, Octets(r), Octets(ciL - 1 - r));
  }

  /** Selecting byte i inside a limb selects byte i of the whole number. */
  lemma ByteAt(p: seq<Limb>, i: nat)
    requires ciL > 0 && i / ciL < |p|
    ensures Octets(i) > 0 && GetByte(p, i) == Val(p) / Octets(i) % 256
  {
    var q, r := i / ciL, i % ciL;
    DivModFacts(i, ciL);
    PowPos(256, i);
    PowPos(256, r);
    PFacts(q);
    assert Octets(i) == P(q) * Octets(r) by { PAsOctets(q); PowAdd(256, ciL * q, r); }
    assert Val(p) / P(q) == Tail(p, q) by {
      TailSplit(p, q);
      VBound(p, q);
      DivModUnique(Val(p), P(q), Tail(p, q), V(p, q));
    }
    DivDiv(Val(p), P(q), Octets(r));
    TailPeel(p, q);
    InnerByte(Tail(p, q + 1), p[q], r);
  }

  /** One more byte of a number. */
  lemma ModStep(v: nat, i: nat)
    ensures Octets(i) > 0 && Octets(i + 1) > 0
    ensures v % Octets(i + 1) == v / Octets(i) % 256 * Octets(i) + v % Octets(i)
  {
    var o := Octets(i);
    PowPos(256, i);
    var q := v / o;
    DivModFacts(v, o);
    DivModFacts(q, 256);
    MulDist(q / 256 * 256, q % 256, o);
    MulAssoc(q / 256, 256, o);
    MulLe(q % 256, 255, o);
    MulNonneg(q % 256, o);
    DivModUnique(v, 256 * o, q / 256, q % 256 * o + v % o);
  }

  lemma InsideLimbs(i: nat, n: nat)
    requires i < n * ciL
    ensures ciL > 0 && i / ciL < n
  {
    LimbOctets();
    DivModFacts(i, ciL);
    if i / ciL >= n { MulLe(n, i / ciL, ciL); }
  }

  lemma StoredBytes(p: seq<Limb>)
    ensures |p| * ciL >= 0 && Val(p) < Octets(|p| * ciL)
  {
    LimbOctets();
    MulNonneg(|p|, ciL);
    PAsOctets(|p|);
    VBound(p, |p|);
  }

  /** All stored bytes, least significant first. */
  ghost function BytesOf(p: seq<Limb>): (b: seq<Byte>)
    ensures |p| * ciL >= 0 && |b| == |p| * ciL
  {
    LimbOctets();
    MulNonneg(|p|, ciL);
    seq(|p| * ciL, i requires 0 <= i < |p| * ciL => InsideLimbs(i, |p|); GetByte(p, i))
  }

  lemma ChunkInside(k: nat, n: nat)
    requires k < n
    ensures 0 <= k * ciL <= (k + 1) * ciL == k * ciL + ciL <= n * ciL
  {
    MulNonneg(k, ciL);
    MulLe(k + 1, n, ciL);
    MulDist(k, 1, ciL);
  }

  /** Byte j of limb i. */
  lemma LimbByte(p: seq<Limb>, i: nat, j: nat)
    requires i < |p| && j < ciL
    ensures 0 <= i * ciL && i * ciL + j < |p| * ciL && BytesOf(p)[i * ciL + j] == ByteOf(p[i], j)
  {
    ChunkInside(i, |p|);
    DivModUnique(i * ciL + j, ciL, i, j);
  }

  /** v without its e low bytes. */
  function Above(v: nat, e: nat): nat {
    if e == 0 then v else Above(v, e - 1) / 256
  }

  lemma {:induction false} AboveIs(v: nat, e: nat)
    ensures Octets(e) > 0 && Above(v, e) == v / Octets(e)
  {
    PowPos(256, e);
    if e == 0 {
      DivModUnique(v, 1, v, 0);
    } else {
      AboveIs(v, e - 1);
      DivDiv(v, Octets(e - 1), 256);
    }
  }

  /** The bytes are those of the number. */
  lemma BytesOfValue(p: seq<Limb>, i: nat)
    requires i < |p| * ciL
    ensures BytesOf(p)[i] == Above(Val(p), i) % 256
  {
    InsideLimbs(i, |p|);
    ByteAt(p, i);
    AboveIs(Val(p), i);
  }

  lemma NothingAbove(p: seq<Limb>)
    ensures |p| * ciL >= 0 && Above(Val(p), |p| * ciL) == 0
  {
    StoredBytes(p);
    AboveIs(Val(p), |p| * ciL);
    DivModUnique(Val(p), Octets(|p| * ciL), 0, Val(p));
  }

  /** The low i bytes of v, most significant first. */
  ghost predicate LowBytes(s: seq<Byte>, v: nat, i: nat) {
    Octets(i) > 0 && |s| == i && Num(s, 256) == v % Octets(i)
  }

  lemma LowBytesStep(s: seq<Byte>, v: nat, i: nat, b: Byte)
    requires LowBytes(s, v, i) && b == v / Octets(i) % 256
    ensures LowBytes([b] + s, v, i + 1)
  {
    NumCons(b, s, 256);
    ModStep(v, i);
  }

  lemma NumBytesBound(s: seq<Byte>)
    ensures 0 <= Num(s, 256) < Octets(|s|)
  {
    NumBound(s, 256);
  }

  /** All bytes from n up are zero exactly when n bytes hold the number. */
  method HighBytesZero(x: Mpi, n: nat) returns (zero: bool)
    requires n <= |x.p| * ciL
    ensures zero <==> Val(x.p) < Octets(n)
  {
    var i := n;
    ghost var v := Val(x.p);
    PowPos(256, n);
    while i < |x.p| * ciL
      invariant n <= i <= |x.p| * ciL
      invariant Octets(i) > 0 && v % Octets(i) == v % Octets(n)
    {
      InsideLimbs(i, |x.p|);
      ByteAt(x.p, i);
      if GetByte(x.p, i) != 0 {
        if v < Octets(n) {
          PowMono(256, n, i);
          DivModUnique(v, Octets(i), 0, v);
        }
        return false;
      }
      ModStep(v, i);
      i := i + 1;
    }
    StoredBytes(x.p);
    DivModUnique(v, Octets(i), 0, v);
    DivModFacts(v, Octets(n));
    return true;
  }

  /** Writes the n low bytes of a number. */
  method PutBytes(x: Mpi, buf: array<Byte>, start: nat, n: nat)
    requires n <= |x.p| * ciL && start + n <= buf.Length
    modifies buf
    ensures LowBytes(buf[start..start + n], Val(x.p), n)
    ensures forall k :: 0 <= k < start || start + n <= k < buf.Length ==> buf[k] == old(buf[k])
  {
    var i := 0;
    ghost var v := Val(x.p);
    assert LowBytes([], v, 0) by { assert v % 1 == 0; }
    while i < n
      invariant 0 <= i <= n
      invariant LowBytes(buf[start + n - i..start + n], v, i)
      invariant forall k :: 0 <= k < start || start + n <= k < buf.Length ==> buf[k] == old(buf[k])
    {
      InsideLimbs(i, |x.p|);
      ByteAt(x.p, i);
      ghost var s := buf[start + n - i..start + n];
      LowBytesStep(s, v, i, GetByte(x.p, i));
      buf[start + n - i - 1] := GetByte(x.p, i);
      assert buf[start + n - i - 1..start + n] == [GetByte(x.p, i)] + s;
      i := i + 1;
    }
  }

  /** Writes the magnitude over the whole buffer, zeros first; fails exactly when it does not fit. */
  method WriteBinary(x: Mpi, buf: array<Byte>, buflen: nat) returns (ret: Status)
    requires buflen <= buf.Length
    modifies buf
    ensures ret == (if Val(x.p) < Octets(buflen) then Ok else BufferTooSmall)
    ensures ret == Ok ==> Num(buf[..buflen], 256) == Val(x.p)
    ensures forall k :: (buflen <= k || ret != Ok) && 0 <= k < buf.Length ==> buf[k] == old(buf[k])
  {
    var stored := |x.p| * ciL;
    StoredBytes(x.p);
    if stored < buflen {
      for i := 0 to buflen - stored
        invariant forall k :: 0 <= k < i ==> buf[k] == 0
        invariant forall k :: buflen <= k < buf.Length ==> buf[k] == old(buf[k])
      {
        buf[i] := 0;
      }
      PutBytes(x, buf, buflen - stored, stored);
      var z, s := buf[..buflen - stored], buf[buflen - stored..buflen];
      assert buf[..buflen] == z + s;
      NumLeadingZeros(z, s, 256);
      DivModUnique(Val(x.p), Octets(stored), 0, Val(x.p));
      PowMono(256, stored, buflen);
      return Ok;
    }
    var zero := HighBytesZero(x, buflen);
    if !zero { return BufferTooSmall; }
    PutBytes(x, buf, 0, buflen);
    PowPos(256, buflen);
    DivModUnique(Val(x.p), Octets(buflen), 0, Val(x.p));
    assert buf[0..0 + buflen] == buf[..buflen];
    return Ok;
  }

  lemma OctetBits(k: nat)
    ensures Octets(k) == Pow(2, 8 * k)
  {
    Pow16();
    PowPow(2, 8, k);
  }

  lemma SizeOfBits(v: nat, n: nat, r: nat)
    requires n == BitLen(v) && r == (n + 7) / 8
    ensures v < Octets(r) && (r > 0 ==> Octets(r - 1) <= v)
  {
    BitLenIs(v);
    OctetBits(r);
    PowMono(2, n, 8 * r);
    if r > 0 {
      OctetBits(r - 1);
      PowMono(2, 8 * (r - 1), n - 1);
    }
  }

  /** Size of the magnitude in bytes. */
  method Size(x: Mpi) returns (r: nat)
    ensures Val(x.p) < Octets(r) && (r > 0 ==> Octets(r - 1) <= Val(x.p))
  {
    var n := Bitlen(x);
    r := (n + 7) / 8;
    SizeOfBits(Val(x.p), n, r);
  }

  // ---- reading ----

  function CharsToLimbs(n: nat): (k: nat)
    ensures (k - 1) * ciL < n <= k * ciL || (n == 0 && k == 0)
  {
    LimbOctets();
    DivModFacts(n, ciL);
    MulDist(n / ciL, 1, ciL);
    n / ciL + if n % ciL != 0 then 1 else 0
  }

  lemma RoomForByte(t: seq<Byte>, tmp: Limb)
    requires |t| < ciL && tmp == Num(t, 256)
    ensures Wrap(tmp as int * 256) == tmp as int * 256
    ensures Pow(2, 8) == 256 && tmp as int * 256 % 256 == 0 && biL >= 8
  {
    LimbOctets();
    Pow16();
    NumBytesBound(t);
    PowMono(256, |t| + 1, ciL);
    WrapId(tmp as int * 256);
    DivModUnique(tmp as int * 256, 256, tmp, 0);
  }

  /** A limb stored most significant byte first, put into the machine's order. */
  method BigEndianToHost(bytes: seq<Byte>) returns (tmp: Limb)
    requires |bytes| == ciL
    ensures tmp == Num(bytes, 256)
  {
    BasePos();
    tmp := 0;
    for i := 0 to |bytes|
      invariant tmp == Num(bytes[..i], 256)
    {
      ghost var t := bytes[..i];
      assert bytes[..i + 1] == t + [bytes[i]];
      NumSnoc(t, bytes[i], 256);
      RoomForByte(t, tmp);
      tmp := OrLow(Wrap(tmp as int * 256), bytes[i], 8);
    }
    assert bytes[..|bytes|] == bytes;
  }

  /** Limb k of a block of memory. */
  function Chunk(mem: seq<Byte>, k: nat, n: nat): (c: seq<Byte>)
    requires k < n && |mem| == n * ciL
    ensures |c| == ciL
  {
    ChunkInside(k, n);
    mem[k * ciL..(k + 1) * ciL]
  }

  /** Reversing the limbs and the bytes in each reverses all bytes. */
  lemma {:induction false} ReversedLimbs(p: seq<Limb>, mem: seq<Byte>, n: nat, m: nat)
    requires m <= n == |p| && |mem| == n * ciL
    requires forall k :: 0 <= k < n ==> p[k] == Num(Chunk(mem, n - 1 - k, n), 256)
    ensures 0 <= (n - m) * ciL <= n * ciL && V(p, m) == Num(mem[(n - m) * ciL..], 256)
  {
    MulLe(n - m, n, ciL);
    MulNonneg(n - m, ciL);
    if m == 0 {
    } else {
      ReversedLimbs(p, mem, n, m - 1);
      var k := n - m;
      ChunkInside(k, n);
      var c, rest := Chunk(mem, k, n), mem[(k + 1) * ciL..];
      assert mem[k * ciL..] == c + rest;
      assert |rest| == ciL * (m - 1) by { MulDist(n, k + 1, ciL); }
      NumConcat(c, rest, 256);
      PAsOctets(m - 1);
    }
  }

  /** Turns a block of big-endian limbs around from both ends at once. */
  method BigEndianLimbs(x: Mpi, mem: seq<Byte>, limbs: nat)
    requires |mem| == limbs * ciL && |x.p| == limbs
    modifies x`p
    ensures |x.p| == limbs && Val(x.p) == Num(mem, 256)
  {
    var left, right := 0, limbs - 1;
    while left <= right
      invariant 0 <= left <= limbs && left + right == limbs - 1 && |x.p| == limbs
      invariant forall k :: 0 <= k < left ==> x.p[k] == Num(Chunk(mem, limbs - 1 - k, limbs), 256)
      invariant forall k :: right < k < limbs ==> x.p[k] == Num(Chunk(mem, limbs - 1 - k, limbs), 256)
    {
      var tmp := BigEndianToHost(Chunk(mem, left, limbs));
      var low := BigEndianToHost(Chunk(mem, right, limbs));
      x.p := x.p[left := low];
      x.p := x.p[right := tmp];
      left, right := left + 1, right - 1;
    }
    ReversedLimbs(x.p, mem, limbs, limbs);
    assert mem[0..] == mem;
  }

  /** X = the number with the given bytes. */
  method ReadBinary(x: Mpi, buf: seq<Byte>)
    modifies x
    ensures x.s == 1 && Val(x.p) == x.Value() == Num(buf, 256)
    ensures |x.p| == Max(1, CharsToLimbs(|buf|))
  {
    var limbs := CharsToLimbs(|buf|);
    MulNonneg(limbs, ciL);
    BasePos();
    if |x.p| != limbs {
      x.s, x.p := 1, [];
      Grow(x, limbs);
    }
    Lset(x, 0);
    if limbs == 0 { return; }
    var overhead := limbs * ciL - |buf|;
    var mem := seq(overhead, i => 0) + buf;
    NumLeadingZeros(mem[..overhead], buf, 256);
    assert mem == mem[..overhead] + buf;
    BigEndianLimbs(x, mem, limbs);
  }
}

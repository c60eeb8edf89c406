/**
 * The Protocol Buffers wire format: base-128 varints, tags, fixed-width values, and what
 * skipping a field consumes. Every parser takes the bytes left and returns the bytes it leaves.
 */
module Wire {
  import opened Arith
  import opened Bits
  import opened Bytes
  import opened Sequences

  datatype Parsed<T> = Bad | Good(value: T, rest: seq<Byte>)

  const TWO64: int := 0x1_0000_0000_0000_0000

  type Word64 = x: int | 0 <= x < TWO64

  // ---- varints ----

  /** Base-128 digits, least significant first, all but the last with the top bit set. */
  function EncVarint(v: nat): (s: seq<Byte>)
    ensures |s| >= 1
    decreases v
  {
    if v < 128 then [v] else [v % 128 + 128] + EncVarint(v / 128)
  }

  /** The bytes up to the first one without the top bit. */
  function Groups(s: seq<Byte>): (p: Parsed<seq<Byte>>)
    ensures p.Good? ==> |p.value| >= 1 && |s| == |p.value| + |p.rest|
  {
    if |s| == 0 then Bad
    else if s[0] < 128 then Good([s[0]], s[1..])
    else
      var p := Groups(s[1..]);
      if p.Bad? then Bad else Good([s[0]] + p.value, p.rest)
  }

  /** The number whose groups of seven bits these are, least significant first. */
  function GroupValue(g: seq<Byte>): nat {
    if |g| == 0 then 0 else g[0] % 128 + 128 * GroupValue(g[1..])
  }

  /** A 64-bit varint has at most ten groups; bits past the 64th are cut off. */
  function DecVarint(s: seq<Byte>): (p: Parsed<Word64>)
    ensures p.Good? ==> |p.rest| < |s|
  {
    var p := Groups(s);
    if p.Bad? || |p.value| > 10 then Bad else Good(GroupValue(p.value) % TWO64, p.rest)
  }

  // ---- varints of 32 bits, byte by byte ----

  /** Number of values of a `uint_fast8_t`: at least 256, and as many as the platform finds fast. */
  type FastRange = w: nat | w == 0x100 || w == 0x1_0000 || w == TWO32 || w == TWO64 witness 0x100

  const FAST8: FastRange

  type FastPos = p: nat | p < FAST8 witness 0

  /** Seven more, cast to the counter's type, where it wraps around. */
  function NextPos(bitpos: FastPos): FastPos {
    if bitpos + 7 < FAST8 then bitpos + 7 else bitpos + 7 - FAST8
  }

  /** The 32-bit decoder behind some bytes: it has refused one, or it has a word and a bit position. */
  datatype Word = Refused | Word(low: Word32, bitpos: FastPos)

  /** From bit 32 on a byte may only repeat zeros or the sign. */
  predicate Extends(low: Word32, byte: Byte, bitpos: nat) {
    byte % 128 == 0 || (low >= 0x8000_0000 && byte == if bitpos < 63 then 0xFF else 0x01)
  }

  /** x shifted left by n bits, cut off at m. */
  function Shl(x: nat, n: nat, m: int): nat
    requires m == TWO32 || m == TWO64
    decreases n
  {
    if n > 0 then Shl(2 * x, n - 1, m)
    else if m == TWO32 then x % 0x1_0000_0000
    else x % 0x1_0000_0000_0000_0000
  }

  lemma {:induction false} ShlBelow(x: nat, n: nat, m: int)
    requires m == TWO32 || m == TWO64
    ensures Shl(x, n, m) < m
    decreases n
  {
    if n > 0 { ShlBelow(2 * x, n - 1, m); }
  }

  /** x times 128^k. */
  function Scale(x: nat, k: nat): nat {
    if k == 0 then x else 128 * Scale(x, k - 1)
  }

  lemma Two64()
    ensures Scale(1, 5) == 8 * TWO32 && Scale(1, 10) == 64 * TWO64
  {
    assert Scale(1, 2) == 0x4000;
    assert Scale(1, 4) == 0x1000_0000;
    assert Scale(1, 6) == 0x400_0000_0000;
    assert Scale(1, 8) == 0x100_0000_0000_0000;
  }

  lemma {:induction false} ScaleDoubled(x: nat, k: nat)
    ensures Scale(x, k) == Doubled(x, 7 * k)
  {
    if k > 0 {
      ScaleDoubled(x, k - 1);
      var n := 7 * (k - 1);
      assert Doubled(x, n + 7) == 2 * Doubled(x, n + 6) == 4 * Doubled(x, n + 5) == 8 * Doubled(x, n + 4)
          == 16 * Doubled(x, n + 3) == 32 * Doubled(x, n + 2) == 64 * Doubled(x, n + 1) == 128 * Doubled(x, n);
    }
  }

  lemma OrBelow(a: nat, b: nat, m: int)
    requires (m == TWO32 || m == TWO64) && a < m && b < m
    ensures Or(a, b) < m
  {
    Two64();
    ScaleDoubled(1, 5);
    ScaleDoubled(1, 10);
    if m == TWO32 {
      assert Doubled(1, 35) == 8 * Doubled(1, 32);
      OrBound(a, b, 32);
    } else {
      assert Doubled(1, 70) == 64 * Doubled(1, 64);
      OrBound(a, b, 64);
    }
  }

  /** Or-ing a shifted group into a word. */
  function OrShifted(result: int, low: nat, bitpos: nat, m: int): (r: int)
    requires 0 <= result < m && (m == TWO32 || m == TWO64)
    ensures 0 <= r < m
  {
    ShlBelow(low, bitpos, m);
    OrBelow(result, Shl(low, bitpos, m), m);
    Or(result, Shl(low, bitpos, m))
  }

  /** One byte: below bit 32 its group is or-ed in. */
  function TakeByte(w: Word, byte: Byte): Word {
    if w.Refused? then Refused
    else if w.bitpos < 32 then Word(OrShifted(w.low, byte % 128, w.bitpos, TWO32), NextPos(w.bitpos))
    else if Extends(w.low, byte, w.bitpos) then Word(w.low, NextPos(w.bitpos))
    else Refused
  }

  function TakeBytes(g: seq<Byte>): Word {
    if |g| == 0 then Word(0, 0) else TakeByte(TakeBytes(g[..|g| - 1]), g[|g| - 1])
  }

  /** A last byte at bit 28 has four bits left. */
  predicate LastFits(byte: Byte, bitpos: nat) {
    bitpos == 35 ==> byte / 16 % 8 == 0
  }

  function DecVarint32(s: seq<Byte>): (p: Parsed<Word32>)
    ensures p.Good? ==> |p.rest| < |s|
  {
    var p := Groups(s);
    if p.Bad? then Bad
    else
      var w := TakeBytes(p.value);
      if w.Refused? || !LastFits(p.value[|p.value| - 1], w.bitpos) then Bad else Good(w.low, p.rest)
  }

  // ---- round trips ----

  lemma {:induction false} GroupsBack(v: nat, rest: seq<Byte>)
    ensures Groups(EncVarint(v) + rest) == Good(EncVarint(v), rest)
    ensures GroupValue(EncVarint(v)) == v
    decreases v
  {
    var s := EncVarint(v) + rest;
    if v < 128 {
      assert s[1..] == rest;
    } else {
      GroupsBack(v / 128, rest);
      assert s[1..] == EncVarint(v / 128) + rest;
      assert EncVarint(v)[1..] == EncVarint(v / 128);
    }
  }

  /** Shorter numbers have shorter varints. */
  lemma EncLength(v: nat, n: nat)
    requires n >= 1 && v < Scale(1, n)
    ensures |EncVarint(v)| <= n
    decreases n
  {
    if v >= 128 {
      assert Scale(1, 1) == 128;
      EncLength(v / 128, n - 1);
    }
  }

  /** A 64-bit number comes back from its varint, and exactly its bytes are consumed. */
  lemma VarintBack(v: Word64, rest: seq<Byte>)
    ensures DecVarint(EncVarint(v) + rest) == Good(v, rest)
  {
    GroupsBack(v, rest);
    assert |EncVarint(v)| <= 10 by {
      Two64();
      EncLength(v, 10);
    }
  }

  lemma LastOfFive(byte: Byte, k: nat, bitpos: nat)
    requires k <= 5 && bitpos == 7 * k && (k == 5 ==> byte < 16)
    ensures LastFits(byte, bitpos)
  {}

  lemma ReadsWord(s: seq<Byte>, g: seq<Byte>, rest: seq<Byte>, v: Word32, bitpos: FastPos)
    requires Groups(s) == Good(g, rest) && TakeBytes(g) == Word(v, bitpos) && LastFits(g[|g| - 1], bitpos)
    ensures DecVarint32(s) == Good(v, rest)
  {}

  lemma {:induction false} ScaleIs(x: nat, k: nat)
    ensures Scale(x, k) == x * Scale(1, k) && Scale(1, k) > 0
  {
    if k > 0 { ScaleIs(x, k - 1); }
  }

  /** 128^k divides 2^32 for k up to 4, and 2^64 for k up to 9. */
  lemma Divides(k: nat, m: int)
    requires (m == TWO32 && k <= 4) || (m == TWO64 && k <= 9)
    ensures Scale(1, k) > 0 && m == Scale(1, k) * (m / Scale(1, k)) && m / Scale(1, k) > 0
  {
    assert Scale(1, 2) == 0x4000;
    assert Scale(1, 4) == 0x1000_0000;
    assert Scale(1, 6) == 0x400_0000_0000;
    assert Scale(1, 8) == 0x100_0000_0000_0000;
  }

  lemma Gather(value: int, x: nat, p: int, q: int)
    requires 0 <= value < p && q > 0
    ensures p * q > 0 && value < p * q
    ensures 0 <= value + x * p % (p * q) == (value + x * p) % (p * q)
  {
    MulPos(p, q);
    MulLe(1, q, p);
    DivModFacts(x, q);
    var h, l := x / q, x % q;
    MulNonneg(l, p);
    MulLe(l + 1, q, p);
    MulDist(l, 1, p);
    assert x * p == h * (p * q) + l * p by {
      MulDist(h * q, l, p);
      MulAssoc(h, q, p);
      MulAssoc(h, p, q);
    }
    DivModUnique(x * p, p * q, h, l * p);
    DivModUnique(value + x * p, p * q, h, value + l * p);
  }

  lemma SumBelow(value: int, low: nat, k: nat, m: int, x: int)
    requires 0 <= value < Scale(1, k) && ((m == TWO32 && k <= 4) || (m == TWO64 && k <= 9)) && x == Scale(low, k)
    ensures value < m && 0 <= value + x % m < m && value + x % m == (value + x) % m
  {
    ScaleIs(low, k);
    Divides(k, m);
    Gather(value, low, Scale(1, k), m / Scale(1, k));
  }

  lemma SmallGroups(v: nat, k: nat)
    requires k <= 4 && v < Scale(1, k)
    ensures v < TWO32 && v % TWO32 == v
  {
    SumBelow(v, 0, k, TWO32, Scale(0, k));
    DivModUnique(v, TWO32, 0, v);
  }

  lemma {:induction false} GroupValueSnoc(g: seq<Byte>, b: Byte)
    ensures GroupValue(g + [b]) == GroupValue(g) + Scale(b % 128, |g|)
    ensures GroupValue(g) < Scale(1, |g|)
  {
    if |g| == 0 {
      assert g + [b] == [b] && [b][1..] == [];
    } else {
      GroupValueSnoc(g[1..], b);
      assert (g + [b])[1..] == g[1..] + [b];
    }
  }

  lemma {:induction false} ScaleIn(x: nat, k: nat)
    ensures Scale(128 * x, k) == 128 * Scale(x, k)
  {
    if k > 0 { ScaleIn(x, k - 1); }
  }

  /** Shifting by groups of seven bits. */
  lemma {:induction false} ShlIs(x: nat, k: nat, m: int)
    requires m == TWO32 || m == TWO64
    ensures Shl(x, 7 * k, m) == Scale(x, k) % m
    decreases k
  {
    if k > 0 {
      var n := 7 * k;
      assert Shl(x, n, m) == Shl(2 * x, n - 1, m) == Shl(4 * x, n - 2, m) == Shl(8 * x, n - 3, m)
          == Shl(16 * x, n - 4, m) == Shl(32 * x, n - 5, m) == Shl(64 * x, n - 6, m) == Shl(128 * x, n - 7, m);
      ShlIs(128 * x, k - 1, m);
      ScaleIn(x, k - 1);
    }
  }

  lemma Cut(x: nat, p: int, q: int)
    requires p > 0 && q > 0
    ensures p * q > 0 && x * p % (p * q) == x % q * p && x % q >= 0
  {
    MulPos(p, q);
    DivModFacts(x, q);
    var h, l := x / q, x % q;
    MulNonneg(l, p);
    MulLe(l + 1, q, p);
    MulDist(l, 1, p);
    assert x * p == h * (p * q) + l * p by {
      MulDist(h * q, l, p);
      MulAssoc(h, q, p);
      MulAssoc(h, p, q);
    }
    DivModUnique(x * p, p * q, h, l * p);
  }

  /** Cutting off at m leaves a multiple of 128^k. */
  lemma Remaining(low: nat, k: nat, m: int) returns (y: nat)
    requires (m == TWO32 && k <= 4) || (m == TWO64 && k <= 9)
    ensures Scale(low, k) % m == Scale(y, k)
  {
    Divides(k, m);
    var p, q := Scale(1, k), m / Scale(1, k);
    ScaleIs(low, k);
    y := low % q;
    ScaleIs(y, k);
    Cut(low, p, q);
  }

  /** The group has no bit in common with the bits below it, so the result is the sum cut off at m. */
  lemma OrShiftedIs(value: int, low: nat, k: nat, m: int)
    requires 0 <= value < Scale(1, k) && ((m == TWO32 && k <= 4) || (m == TWO64 && k <= 9))
    ensures value < m
    ensures OrShifted(value, low, 7 * k, m) == (value + Scale(low, k)) % m
  {
    ShlIs(low, k, m);
    SumBelow(value, low, k, m, Scale(low, k));
    var y := Remaining(low, k, m);
    ScaleDoubled(y, k);
    ScaleDoubled(1, k);
    OrDisjoint(value, y, 7 * k);
  }

  lemma LowSum(v: nat, b: Byte, k: nat, h: seq<Byte>)
    requires k <= 4 && v == GroupValue(h) && k == |h|
    ensures v < TWO32 && v % TWO32 == v
    ensures OrShifted(v, b % 128, 7 * k, TWO32) == GroupValue(h + [b]) % TWO32
  {
    GroupValueSnoc(h, b);
    SmallGroups(v, k);
    OrShiftedIs(v, b % 128, k, TWO32);
  }

  /** Up to five groups are or-ed to their number, cut off at 32 bits. */
  lemma {:induction false} FiveGroups(g: seq<Byte>, k: nat, v: nat)
    requires k == |g| <= 5 && v == GroupValue(g)
    ensures TakeBytes(g) == Word(v % TWO32, 7 * k)
  {
    if k > 0 {
      var h, b := g[..k - 1], g[k - 1];
      FiveGroups(h, k - 1, GroupValue(h));
      assert g == h + [b];
      LowSum(GroupValue(h), b, k - 1, h);
    }
  }

  /** At most five groups with a number of 32 bits read as that number. */
  lemma ShortReads(s: seq<Byte>, g: seq<Byte>, rest: seq<Byte>, v: Word32)
    requires Groups(s) == Good(g, rest) && |g| <= 5 && (|g| == 5 ==> g[4] < 16) && GroupValue(g) == v
    ensures DecVarint32(s) == Good(v, rest)
  {
    hide Groups, GroupValue, TakeBytes, DecVarint32;
    var k := |g|;
    assert TakeBytes(g) == Word(v, 7 * k) by { FiveGroups(g, k, v); }
    LastOfFive(g[k - 1], k, 7 * k);
    ReadsWord(s, g, rest, v, 7 * k);
  }

  lemma FifthByte(v: Word32)
    ensures |EncVarint(v)| == 5 ==> EncVarint(v)[4] < 16
  {
    if |EncVarint(v)| == 5 {
      var a := EncVarint(v);
      var b := EncVarint(v / 128);
      var c := EncVarint(v / 128 / 128);
      var d := EncVarint(v / 128 / 128 / 128);
      var e := EncVarint(v / 128 / 128 / 128 / 128);
      assert a[4] == b[3] == c[2] == d[1] == e[0];
      assert |e| == 1;
    }
  }

  /** A 32-bit number comes back from its varint, and exactly its bytes are consumed. */
  lemma Varint32Back(v: Word32, rest: seq<Byte>)
    ensures DecVarint32(EncVarint(v) + rest) == Good(v, rest)
  {
    GroupsBack(v, rest);
    assert |EncVarint(v)| <= 5 by {
      Two64();
      EncLength(v, 5);
    }
    FifthByte(v);
    ShortReads(EncVarint(v) + rest, EncVarint(v), rest, v);
  }

  lemma TakeOne(h: seq<Byte>, b: Byte)
    ensures TakeBytes(h + [b]) == TakeByte(TakeBytes(h), b)
  {
    assert (h + [b])[..|h|] == h;
  }

  lemma OneValue(g: seq<Byte>) returns (v: nat)
    requires |g| == 1
    ensures v == GroupValue(g) == g[0] % 128
  {
    v := g[0] % 128;
    assert GroupValue(g) == v + 128 * GroupValue(g[1..]);
  }

  lemma OneGroup(b: Byte)
    ensures TakeBytes([b]) == Word(b % 128, 7)
  {
    hide TakeBytes, GroupValue;
    var g := [b];
    var v := OneValue(g);
    FiveGroups(g, 1, v);
  }

  lemma AfterWrap()
    ensures OrShifted(0, 1, 3, TWO32) == 8
  {
    assert Shl(1, 3, TWO32) == 8;
    OrZero(8);
  }

  lemma {:induction false} ShlZero(n: nat, m: int)
    requires m == TWO32 || m == TWO64
    ensures Shl(0, n, m) == 0
  {
    if n > 0 { ShlZero(n - 1, m); }
  }

  lemma NothingOred(bitpos: nat)
    ensures OrShifted(0, 0, bitpos, TWO32) == 0
  {
    ShlZero(bitpos, TWO32);
    OrZero(0);
  }

  lemma {:induction false} ZeroGroups(z: seq<Byte>, k: nat)
    requires k == |z| <= 36 && forall i :: 0 <= i < k ==> z[i] == 0x80
    ensures TakeBytes(z) == Word(0, 7 * k)
  {
    if k > 0 {
      ZeroGroups(z[..k - 1], k - 1);
      NothingOred(7 * (k - 1));
    }
  }

  predicate Continues(g: seq<Byte>) {
    forall i :: 0 <= i < |g| ==> g[i] >= 128
  }

  /** Bytes with the top bit only prolong the groups that follow them. */
  lemma {:induction false} GroupsAhead(g: seq<Byte>, s: seq<Byte>)
    requires Continues(g)
    ensures Groups(s).Bad? ==> Groups(g + s).Bad?
    ensures Groups(s).Good? ==> Groups(g + s) == Good(g + Groups(s).value, Groups(s).rest)
  {
    if |g| == 0 {
      assert g + s == s;
      if Groups(s).Good? { assert g + Groups(s).value == Groups(s).value; }
    } else {
      GroupsAhead(g[1..], s);
      assert (g + s)[1..] == g[1..] + s;
      if Groups(s).Good? { assert [g[0]] + (g[1..] + Groups(s).value) == g + Groups(s).value; }
    }
  }

  /** 37 bytes 0x80 and then 0x01: with a counter of eight bits this reads as 8, with a wider one it is refused. */
  lemma WrapWitness(z: seq<Byte>)
    requires |z| == 37 && forall i :: 0 <= i < 37 ==> z[i] == 0x80
    ensures DecVarint32(z + [1]) == if FAST8 == 0x100 then Good(8, []) else Bad
  {
    assert z == z[..36] + [0x80];
    ZeroGroups(z[..36], 36);
    NothingOred(252);
    GroupsAhead(z, [1]);
    assert Groups([1]) == Good([1], []);
    AfterWrap();
    TakeOne(z, 1);
  }

  // ---- what the width of the counter changes ----

  /** The word behind some bytes with a counter that never wraps around. */
  datatype Low = NoWord | Low(word: Word32)

  function WideBytes(g: seq<Byte>): Low {
    if |g| == 0 then Low(0)
    else
      var k := |g| - 1;
      var w := WideBytes(g[..k]);
      if w.NoWord? then NoWord
      else if 7 * k < 32 then Low(OrShifted(w.word, g[k] % 128, 7 * k, TWO32))
      else if Extends(w.word, g[k], 7 * k) then w
      else NoWord
  }

  function WideVarint32(s: seq<Byte>): Parsed<Word32> {
    var p := Groups(s);
    if p.Bad? then Bad
    else
      var w := WideBytes(p.value);
      if w.NoWord? || !LastFits(p.value[|p.value| - 1], 7 * |p.value|) then Bad else Good(w.word, p.rest)
  }

  /** As long as no byte follows a wrap, the counters agree. */
  lemma {:induction false} CountersAgree(g: seq<Byte>)
    requires |g| > 0 ==> 7 * (|g| - 1) < FAST8
    ensures TakeBytes(g) ==
            if WideBytes(g).NoWord? then Refused
            else Word(WideBytes(g).word, if 7 * |g| < FAST8 then 7 * |g| else 7 * |g| - FAST8)
  {
    if |g| > 0 { CountersAgree(g[..|g| - 1]); }
  }

  lemma SameReading(s: seq<Byte>)
    requires Groups(s).Good? && 7 * (|Groups(s).value| - 1) < FAST8
    ensures DecVarint32(s) == WideVarint32(s)
  {
    CountersAgree(Groups(s).value);
  }

  /** Zero groups change no word. */
  lemma {:induction false} ZerosBehind(g: seq<Byte>, z: seq<Byte>)
    requires forall i :: 0 <= i < |z| ==> z[i] % 128 == 0
    ensures WideBytes(g).NoWord? ==> WideBytes(g + z).NoWord?
    ensures TakeBytes(g).Word? ==> TakeBytes(g + z).Word? && TakeBytes(g + z).low == TakeBytes(g).low
    decreases |z|
  {
    if |z| == 0 {
      assert g + z == g;
    } else {
      var k := |z| - 1;
      ZerosBehind(g, z[..k]);
      assert (g + z)[..|g| + k] == g + z[..k];
      var w := TakeBytes(g + z[..k]);
      if w.Word? {
        ShlZero(w.bitpos, TWO32);
        OrZero(w.low);
        OrSame(w.low, 0);
      }
    }
  }

  lemma {:induction false} WideZeros(z: seq<Byte>)
    requires forall i :: 0 <= i < |z| ==> z[i] == 0x80
    ensures WideBytes(z) == Low(0)
  {
    hide OrShifted, Or, Shl;
    if |z| > 0 {
      WideZeros(z[..|z| - 1]);
      NothingOred(7 * (|z| - 1));
    }
  }

  /** Zero groups up to the wrap, and then a one. */
  lemma WrapsHere(z: seq<Byte>, b: Byte)
    requires 0 <= 7 * |z| - FAST8 < 7 && b % 128 == 1 && forall i :: 0 <= i < |z| ==> z[i] == 0x80
    ensures TakeBytes(z + [b]).Word? && WideBytes(z + [b]).NoWord?
  {
    hide OrShifted, Or, Shl, TakeBytes;
    WideZeros(z);
    CountersAgree(z);
    TakeOne(z, b);
    assert (z + [b])[..|z|] == z;
  }

  /** The counter's width makes no difference for numbers of n bytes. */
  ghost predicate WidthIndifferent(n: nat) {
    forall s: seq<Byte> :: Groups(s).Good? && |Groups(s).value| == n ==> DecVarint32(s) == WideVarint32(s)
  }

  lemma ReadsToEnd(g: seq<Byte>, last: Byte)
    requires Continues(g) && last < 16
    ensures var s := g + [last];
            && Groups(s) == Good(s, [])
            && (TakeBytes(s).Word? ==> DecVarint32(s).Good?) && (WideBytes(s).NoWord? ==> WideVarint32(s).Bad?)
  {
    assert Groups([last]) == Good([last], []);
    GroupsAhead(g, [last]);
  }

  lemma WrappedLast(z: seq<Byte>, s: seq<Byte>)
    requires 0 <= 7 * |z| - FAST8 < 7 && (forall i :: 0 <= i < |z| ==> z[i] == 0x80) && s == z + [1]
    ensures Groups(s) == Good(s, []) && DecVarint32(s).Good? && WideVarint32(s).Bad?
  {
    WrapsHere(z, 1);
    ReadsToEnd(z, 1);
  }

  lemma WrappedBefore(z: seq<Byte>, y: seq<Byte>, s: seq<Byte>)
    requires 0 <= 7 * |z| - FAST8 < 7 && s == z + [0x81] + y + [0]
    requires (forall i :: 0 <= i < |z| ==> z[i] == 0x80) && (forall i :: 0 <= i < |y| ==> y[i] == 0x80)
    ensures Groups(s) == Good(s, []) && DecVarint32(s).Good? && WideVarint32(s).Bad?
  {
    WrapsHere(z, 0x81);
    ZerosBehind(z + [0x81], y + [0]);
    assert (z + [0x81]) + (y + [0]) == s;
    ReadsToEnd(z + [0x81] + y, 0);
  }

  /** A number of n bytes that is read only because the counter wrapped around. */
  lemma WrappedNumber(n: nat) returns (s: seq<Byte>)
    requires 7 * (n - 1) >= FAST8
    ensures Groups(s).Good? && |Groups(s).value| == n && DecVarint32(s).Good? && WideVarint32(s).Bad?
  {
    var m := (FAST8 + 6) / 7;
    var z: seq<Byte> := Repeat(0x80, m);
    if n == m + 1 {
      s := z + [1];
      WrappedLast(z, s);
    } else {
      var y: seq<Byte> := Repeat(0x80, n - m - 2);
      s := z + [0x81] + y + [0];
      WrappedBefore(z, y, s);
    }
  }

  /** It makes none exactly when no byte is read after a wrap: for a counter of eight bits, up to 37 bytes. */
  lemma WidthExact(n: nat)
    requires n >= 1
    ensures WidthIndifferent(n) <==> 7 * (n - 1) < FAST8
  {
    if 7 * (n - 1) < FAST8 {
      forall s: seq<Byte> | Groups(s).Good? && |Groups(s).value| == n ensures DecVarint32(s) == WideVarint32(s) {
        SameReading(s);
      }
    } else {
      var s := WrappedNumber(n);
    }
  }

  // ---- more input does not change what was read ----

  lemma {:induction false} GroupsExtend(s: seq<Byte>, m: seq<Byte>)
    requires Groups(s).Good?
    ensures Groups(s + m) == Good(Groups(s).value, Groups(s).rest + m)
  {
    assert (s + m)[1..] == s[1..] + m;
    if s[0] >= 128 { GroupsExtend(s[1..], m); }
  }

  // ---- tags, fixed-width values and skipping ----

  const VARINT: nat := 0

  const FIXED64: nat := 1

  const STRING: nat := 2

  const FIXED32: nat := 5

  datatype TagRead = NoTag | EndMark(rest: seq<Byte>) | Tag(tag: nat, wire: nat, rest: seq<Byte>)

  function EncTag(tag: nat, wire: nat): seq<Byte>
    requires wire < 8
  {
    EncVarint(tag * 8 + wire)
  }

  /** A zero key ends the message. */
  function DecTag(s: seq<Byte>): (t: TagRead)
    ensures !t.NoTag? ==> |t.rest| < |s|
    ensures t.Tag? ==> t.wire < 8
  {
    var p := DecVarint32(s);
    if p.Bad? then NoTag
    else if p.value == 0 then EndMark(p.rest)
    else Tag(p.value / 8, p.value % 8, p.rest)
  }

  lemma TagBack(tag: nat, wire: nat, rest: seq<Byte>)
    requires wire < 8 && 0 < tag * 8 + wire < TWO32
    ensures DecTag(EncTag(tag, wire) + rest) == Tag(tag, wire, rest)
  {
    Varint32Back(tag * 8 + wire, rest);
  }

  lemma TagExtend(s: seq<Byte>, m: seq<Byte>)
    requires DecTag(s).Tag?
    ensures DecTag(s + m) == Tag(DecTag(s).tag, DecTag(s).wire, DecTag(s).rest + m)
  {
    GroupsExtend(s, m);
  }

  /** The first n bytes. */
  function Take(s: seq<Byte>, n: nat): (p: Parsed<seq<Byte>>)
    ensures p.Good? ==> |s| == n + |p.rest|
  {
    if |s| < n then Bad else Good(s[..n], s[n..])
  }

  /** A length and that many bytes. */
  function TakeString(s: seq<Byte>): (p: Parsed<seq<Byte>>)
    ensures p.Good? ==> |p.value| + |p.rest| < |s|
  {
    var n := DecVarint32(s);
    if n.Bad? then Bad else Take(n.rest, n.value)
  }

  function EncString(data: seq<Byte>): seq<Byte> { EncVarint(|data|) + data }

  lemma StringBack(data: seq<Byte>, rest: seq<Byte>)
    requires |data| < TWO32
    ensures TakeString(EncString(data) + rest) == Good(data, rest)
  {
    assert EncString(data) + rest == EncVarint(|data|) + (data + rest);
    Varint32Back(|data|, data + rest);
  }

  /** The bytes of a value of some wire type; a length-delimited value is its payload. */
  function RawValue(wire: nat, s: seq<Byte>): (p: Parsed<seq<Byte>>)
    ensures p.Good? ==> |p.rest| <= |s|
  {
    if wire == VARINT then Groups(s)
    else if wire == FIXED64 then Take(s, 8)
    else if wire == STRING then TakeString(s)
    else if wire == FIXED32 then Take(s, 4)
    else Bad
  }

  lemma TakeExtend(s: seq<Byte>, n: nat, m: seq<Byte>)
    requires n <= |s|
    ensures Take(s + m, n) == Good(s[..n], s[n..] + m)
  {
    assert (s + m)[..n] == s[..n] && (s + m)[n..] == s[n..] + m;
  }

  lemma RawValueExtend(wire: nat, s: seq<Byte>, m: seq<Byte>)
    requires RawValue(wire, s).Good?
    ensures RawValue(wire, s + m) == Good(RawValue(wire, s).value, RawValue(wire, s).rest + m)
  {
    if wire == VARINT {
      GroupsExtend(s, m);
    } else if wire == STRING {
      GroupsExtend(s, m);
      var n := DecVarint32(s);
      TakeExtend(n.rest, n.value, m);
    } else {
      TakeExtend(s, if wire == FIXED64 then 8 else 4, m);
    }
  }

  /** n bytes, least significant first. */
  function LittleEndian(v: nat, n: nat): (s: seq<Byte>)
    ensures |s| == n
  {
    if n == 0 then [] else [v % 256] + LittleEndian(v / 256, n - 1)
  }

  function FromLittleEndian(s: seq<Byte>): nat {
    if |s| == 0 then 0 else s[0] + 256 * FromLittleEndian(s[1..])
  }

  lemma {:induction false} LittleEndianBack(v: nat, n: nat)
    requires v < Pow(256, n)
    ensures FromLittleEndian(LittleEndian(v, n)) == v
  {
    if n > 0 {
      LittleEndianBack(v / 256, n - 1);
      assert LittleEndian(v, n)[1..] == LittleEndian(v / 256, n - 1);
    }
  }

  lemma {:induction false} LittleEndianBound(s: seq<Byte>)
    ensures FromLittleEndian(s) < Pow(256, |s|)
  {
    if |s| > 0 { LittleEndianBound(s[1..]); }
  }

  // ---- two's complement and zigzag ----

  /** The 64-bit pattern of an integer. */
  function Unsigned64(v: int): Word64 { v % TWO64 }

  /** Number of patterns of a number with some size in bytes. */
  function Patterns(bytes: nat): int {
    if bytes == 1 then 0x100 else if bytes == 2 then 0x1_0000 else if bytes == 4 then TWO32 else TWO64
  }

  /** The integer that the low bytes of u show in two's complement. */
  function Signed(u: nat, bytes: nat): int {
    var m := Patterns(bytes);
    if u % m < m / 2 then u % m else u % m - m
  }

  predicate InSigned(v: int, bytes: nat) { -Patterns(bytes) / 2 <= v < Patterns(bytes) / 2 }

  lemma SignedBack(v: int, bytes: nat)
    requires InSigned(v, bytes)
    ensures Signed(Unsigned64(v), bytes) == v
  {}

  /** Shifted left, and complemented when negative. */
  function ZigZag(v: int): Word64
  {
    var u := v * 2 % TWO64;
    if v < 0 then TWO64 - 1 - u else u
  }

  function UnZigZag(u: Word64): int {
    if u % 2 == 1 then Signed(TWO64 - 1 - u / 2, 8) else Signed(u / 2, 8)
  }

  lemma ZigZagBack(v: int)
    requires InSigned(v, 8)
    ensures UnZigZag(ZigZag(v)) == v
  {
    if v < 0 {
      assert ZigZag(v) == -2 * v - 1;
    } else {
      assert ZigZag(v) == 2 * v;
    }
  }
}

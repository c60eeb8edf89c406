/** Numbers as text in radix 2 to 16. */
module RadixText {
  import opened Arith
  import opened Limbs
  import opened MpiCore
  import opened Shift
  import opened Digits
  import opened Bytes
  import opened AddSub
  import opened Mul
  import opened LongDivision
  import opened Modulo
  import opened Binary

  predicate IsRadix(radix: int) {
    2 <= radix <= 16
  }

  /** The value of a digit in either case, and 255 for any other character. */
  function DigitValue(c: char): (d: nat)
    ensures d < 16 || d == 255
  {
    var u := c as int;
    if 0x30 <= u <= 0x39 then u - 0x30
    else if 0x41 <= u <= 0x46 then u - 0x37
    else if 0x61 <= u <= 0x66 then u - 0x57
    else 255
  }

  function DigitChar(d: nat): (c: char)
    requires d < 16
    ensures DigitValue(c) == d && c != '-' && c != '\0'
  {
    if d < 10 then ('0' as int + d) as char else ('A' as int + (d - 10)) as char
  }

  // ---- what a text stands for ----

  predicate Negative(t: string) {
    |t| > 0 && t[0] == '-'
  }

  function Unsigned(t: string): (u: string)
    ensures |u| <= |t|
  {
    if Negative(t) then t[1..] else t
  }

  function Values(t: string): (s: seq<int>)
    ensures |s| == |t| && forall i :: 0 <= i < |t| ==> s[i] == DigitValue(t[i])
  {
    seq(|t|, i requires 0 <= i < |t| => DigitValue(t[i]))
  }

  predicate AllDigits(t: string, radix: int) {
    forall i :: 0 <= i < |t| ==> DigitValue(t[i]) < radix
  }

  /** Digits of the radix, behind an optional minus sign. */
  predicate Readable(t: string, radix: int) {
    AllDigits(Unsigned(t), radix)
  }

  ghost function Magnitude(t: string, radix: int): int {
    Num(Values(Unsigned(t)), radix)
  }

  ghost function TextValue(t: string, radix: int): int {
    Signed(if Negative(t) then -1 else 1, Magnitude(t, radix))
  }

  // ---- reading ----

  method GetDigit(radix: int, c: char) returns (ret: Status, d: nat)
    ensures ret == (if DigitValue(c) < radix then Ok else InvalidCharacter)
    ensures d == DigitValue(c)
  {
    d := DigitValue(c);
    ret := if d >= radix then InvalidCharacter else Ok;
  }

  lemma ValuesSnoc(t: string, c: char, radix: int)
    ensures Num(Values(t + [c]), radix) == Num(Values(t), radix) * radix + DigitValue(c)
  {
    assert Values(t + [c]) == Values(t) + [DigitValue(c)];
    NumSnoc(Values(t), DigitValue(c), radix);
  }

  lemma SignedTimes(s: Sign, v: int, b: int, r: int)
    requires Signed(s, r) == Signed(s, v) * b
    ensures r == v * b
  {}

  /** X = radix * X + digit, moving away from zero. */
  method AppendDigit(x: Mpi, t: Mpi, radix: int, c: char) returns (ret: Status)
    requires 2 <= radix < 16 && x != t
    modifies x, t
    ensures ret == (if DigitValue(c) < radix then Ok else InvalidCharacter)
    ensures ret == Ok ==> x.s == old(x.s) && Val(x.p) == old(Val(x.p)) * radix + DigitValue(c)
  {
    BaseFacts();
    var d: nat;
    ret, d := GetDigit(radix, c);
    if ret != Ok { return; }
    MulInt(t, x, radix);
    assert t.s == x.s && Val(t.p) == Val(x.p) * radix by { SignedTimes(x.s, Val(x.p), radix, Val(t.p)); }
    MulNonneg(Val(x.p), radix);
    if x.s == 1 { AddInt(x, t, d); } else { SubInt(x, t, d); }
  }

  /** Reads the digits most significant first. */
  method ReadDigits(x: Mpi, radix: int, s: string) returns (ret: Status)
    requires 2 <= radix < 16
    modifies x
    ensures ret == (if Readable(s, radix) then Ok else InvalidCharacter)
    ensures ret == Ok ==> x.s == (if Negative(s) then -1 else 1) && Val(x.p) == Magnitude(s, radix)
  {
    BasePos();
    Lset(x, 0);
    var t := new Mpi();
    ghost var u, k := Unsigned(s), 0;
    assert u[..0] == "";
    for i := 0 to |s|
      invariant fresh(t) && x.s == if i > 0 && Negative(s) then -1 else 1
      invariant k == if i > 0 && Negative(s) then i - 1 else i
      invariant AllDigits(u[..k], radix) && Val(x.p) == Num(Values(u[..k]), radix)
    {
      if i == 0 && s[i] == '-' {
        x.s := -1;
        continue;
      }
      assert u[k] == s[i] && u[..k + 1] == u[..k] + [s[i]];
      ret := AppendDigit(x, t, radix, s[i]);
      if ret != Ok { return; }
      ValuesSnoc(u[..k], s[i], radix);
      k := k + 1;
    }
    assert u[..k] == u;
    ret := Ok;
  }

  /** Sixteen to the j, the place value of hexadecimal digit j. */
  function Nibbles(j: nat): int {
    Pow(2, 4 * j)
  }

  lemma NibblesNext(j: nat)
    ensures Nibbles(j) == Pow(16, j) && Nibbles(j + 1) == 16 * Nibbles(j) && Nibbles(j) > 0
  {
    Pow16();
    PowPow(2, 4, j);
    PowPos(2, 4 * j);
    PowAdd(2, 4, 4 * j);
  }

  /** The place value of hexadecimal digit j, from its limb and its place there. */
  lemma NibbleScale(j: nat, q: nat, r: nat)
    requires j == q * (2 * ciL) + r
    ensures Nibbles(j) == Nibbles(r) * P(q)
  {
    LimbOctets();
    PAsPow2(q);
    MulAssoc(q, 4, 2 * ciL);
    assert 4 * j == 4 * r + biL * q;
    PowAdd(2, 4 * r, biL * q);
  }

  /** There is room for a digit above the digits below it. */
  lemma NibblePlace(p: seq<Limb>, j: nat, q: nat, r: nat)
    requires r < 2 * ciL && q < |p| && Nibbles(j) == Nibbles(r) * P(q) && Val(p) < Nibbles(j)
    ensures 4 * r + 4 <= biL && Nibbles(r + 1) <= B && p[q] < Nibbles(r)
  {
    LimbOctets();
    PowMono(2, 4 * (r + 1), biL);
    PFacts(q);
    assert V(p, q + 1) == V(p, q) + p[q] * P(q);
    VMono(p, q + 1, |p|);
    MulCancelLt(p[q], Nibbles(r), P(q));
  }

  lemma ShiftedNibble(d: nat, r: nat)
    requires d < 16 && Nibbles(r + 1) <= B
    ensures Wrap(d * Pow(2, 4 * r)) == d * Pow(2, 4 * r)
    ensures Pow(2, 4 * r) > 0 && d * Pow(2, 4 * r) % Pow(2, 4 * r) == 0
  {
    NibblesNext(r);
    var m := Pow(2, 4 * r);
    MulLe(d + 1, 16, m);
    MulDist(d, 1, m);
    MulNonneg(d, m);
    WrapId(d * m);
    DivModUnique(d * m, m, d, 0);
  }

  /** Or-s digit j into its limb. */
  method PutNibble(x: Mpi, j: nat, d: nat)
    requires ciL > 0 && d < 16 && j / (2 * ciL) < |x.p| && Val(x.p) < Nibbles(j)
    modifies x`p
    ensures |x.p| == |old(x.p)| && Val(x.p) == old(Val(x.p)) + d * Nibbles(j)
  {
    var q, r := j / (2 * ciL), j % (2 * ciL);
    DivModFacts(j, 2 * ciL);
    NibbleScale(j, q, r);
    NibblePlace(x.p, j, q, r);
    var m := Pow(2, 4 * r);
    ShiftedNibble(d, r);
    var v := OrLow(Wrap(d * m), x.p[q], 4 * r);
    VUpdate(x.p, q, v, |x.p|);
    MulAssoc(d, m, P(q));
    x.p := x.p[q := v];
  }

  lemma NibbleFits(j: nat, n: nat, limbs: nat)
    requires j < n && BitsToLimbs(4 * n) <= limbs
    ensures ciL > 0 && j / (2 * ciL) < limbs
  {
    LimbOctets();
    DivModFacts(j, 2 * ciL);
    if j / (2 * ciL) >= limbs {
      MulLe(BitsToLimbs(4 * n), j / (2 * ciL), biL);
      MulAssoc(j / (2 * ciL), 4, 2 * ciL);
    }
  }

  lemma HexCons(s: string, i: nat, j: nat)
    requires 0 < i <= |s| && j == |s| - i
    ensures Num(Values(s[i - 1..]), 16) == DigitValue(s[i - 1]) * Nibbles(j) + Num(Values(s[i..]), 16)
    ensures AllDigits(s[i..], 16) ==> 0 <= Num(Values(s[i..]), 16) < Nibbles(j)
  {
    assert Values(s[i - 1..]) == [DigitValue(s[i - 1])] + Values(s[i..]);
    NumCons(DigitValue(s[i - 1]), Values(s[i..]), 16);
    NibblesNext(j);
    if AllDigits(s[i..], 16) { NumBound(Values(s[i..]), 16); }
  }

  lemma BadDigit(s: string, i: nat)
    requires i < |s| && DigitValue(s[i]) >= 16 && (i == 0 ==> s[i] != '-')
    ensures !Readable(s, 16)
  {
    var u := Unsigned(s);
    assert u[if Negative(s) then i - 1 else i] == s[i];
  }

  /** Puts the digit before position i in front of the j digits read so far. */
  method PrependDigit(x: Mpi, s: string, i: nat, j: nat) returns (ret: Status)
    requires 0 < i <= |s| && i + j == |s| && BitsToLimbs(4 * |s|) <= |x.p| && (i == 1 ==> s[0] != '-')
    requires AllDigits(s[i..], 16) && Val(x.p) == Num(Values(s[i..]), 16)
    modifies x`p
    ensures ret == Ok || (ret == InvalidCharacter && !Readable(s, 16))
    ensures ret == Ok ==> AllDigits(s[i - 1..], 16) && Val(x.p) == Num(Values(s[i - 1..]), 16)
    ensures |x.p| == |old(x.p)|
  {
    var d: nat;
    ret, d := GetDigit(16, s[i - 1]);
    if ret != Ok {
      BadDigit(s, i - 1);
      return;
    }
    HexCons(s, i, j);
    NibbleFits(j, |s|, |x.p|);
    PutNibble(x, j, d);
  }

  /** Reads hexadecimal digits from the last one back. */
  method ReadHex(x: Mpi, s: string) returns (ret: Status)
    modifies x
    ensures ret == (if Readable(s, 16) then Ok else InvalidCharacter)
    ensures ret == Ok ==> x.s == (if Negative(s) then -1 else 1) && Val(x.p) == Magnitude(s, 16)
  {
    BasePos();
    Grow(x, BitsToLimbs(4 * |s|));
    Lset(x, 0);
    var i, j := |s|, 0;
    assert Values(s[|s|..]) == [];
    while i > 0
      invariant 0 <= i <= |s| && i + j == |s| && x.s == 1
      invariant BitsToLimbs(4 * |s|) <= |x.p|
      invariant AllDigits(s[i..], 16) && Val(x.p) == Num(Values(s[i..]), 16)
      decreases i
    {
      if i == 1 && s[i - 1] == '-' {
        x.s := -1;
        return Ok;
      }
      ret := PrependDigit(x, s, i, j);
      if ret != Ok { return; }
      i, j := i - 1, j + 1;
    }
    assert s[0..] == s && !Negative(s);
    ret := Ok;
  }

  /** X = the number a text stands for. */
  method ReadString(x: Mpi, radix: int, s: string) returns (ret: Status)
    modifies x
    ensures !IsRadix(radix) ==> ret == BadInputData && x.s == old(x.s) && x.p == old(x.p)
    ensures IsRadix(radix) ==> ret == (if Readable(s, radix) then Ok else InvalidCharacter)
    ensures ret == Ok ==> x.Value() == TextValue(s, radix) && Val(x.p) == Magnitude(s, radix)
    ensures ret == Ok ==> x.s == if Negative(s) then -1 else 1
  {
    if radix < 2 || radix > 16 { return BadInputData; }
    if radix == 16 {
      ret := ReadHex(x, s);
    } else {
      ret := ReadDigits(x, radix, s);
    }
  }

  // ---- the text of a number ----

  /** Two hexadecimal digits for every byte from the highest non-zero one. */
  function HexPairs(v: nat): (s: seq<int>)
    ensures AreDigits(s, 16) && (v == 0 <==> s == [])
  {
    if v == 0 then [] else HexPairs(v / 256) + [v % 256 / 16, v % 256 % 16]
  }

  lemma {:induction false} HexPairsNum(v: nat)
    ensures Num(HexPairs(v), 16) == v
  {
    if v > 0 {
      HexPairsNum(v / 256);
      var s, a, b := HexPairs(v / 256), v % 256 / 16, v % 256 % 16;
      assert s + [a, b] == s + [a] + [b];
      NumSnoc(s, a, 16);
      NumSnoc(s + [a], b, 16);
    }
  }

  /** At least one digit, most significant first. */
  function WrittenOf(v: nat, radix: int): (s: seq<int>)
    requires radix > 1
    ensures |s| > 0 && AreDigits(s, radix)
  {
    if v < radix then [v]
    else
      DivSmaller(v, radix);
      WrittenOf(v / radix, radix) + [v % radix]
  }

  /** The digits that are written; zero has one digit, or a whole byte in hexadecimal. */
  function WrittenDigits(v: nat, radix: int, limbs: nat): (s: seq<int>)
    requires IsRadix(radix)
    ensures AreDigits(s, radix)
  {
    if radix == 16 then if v == 0 && limbs > 0 then [0, 0] else HexPairs(v)
    else WrittenOf(v, radix)
  }

  lemma QuotientPositive(v: nat, radix: int)
    requires v >= radix > 1
    ensures v / radix > 0
  {
    DivModFacts(v, radix);
  }

  lemma {:induction false} WrittenOfNum(v: nat, radix: int)
    requires radix > 1
    ensures Num(WrittenOf(v, radix), radix) == v
    ensures v > 0 ==> WrittenOf(v, radix)[0] > 0
  {
    if v < radix {
      assert [v][..0] == [];
    } else {
      DivSmaller(v, radix);
      WrittenOfNum(v / radix, radix);
      NumSnoc(WrittenOf(v / radix, radix), v % radix, radix);
      QuotientPositive(v, radix);
    }
  }

  lemma WrittenNum(v: nat, radix: int, limbs: nat)
    requires IsRadix(radix)
    ensures Num(WrittenDigits(v, radix, limbs), radix) == v
  {
    HexPairsNum(v);
    WrittenOfNum(v, radix);
    if v == 0 && radix == 16 { NumZeros(WrittenDigits(v, radix, limbs), radix); }
  }

  function Chars(s: seq<int>): (t: string)
    requires AreDigits(s, 16)
    ensures |t| == |s| && forall i :: 0 <= i < |s| ==> t[i] == DigitChar(s[i])
  {
    seq(|s|, i requires 0 <= i < |s| => DigitChar(s[i]))
  }

  function SignText(s: Sign): string {
    if s == -1 then "-" else ""
  }

  function Written(s: Sign, v: nat, radix: int, limbs: nat): string
    requires IsRadix(radix)
  {
    SignText(s) + Chars(WrittenDigits(v, radix, limbs))
  }

  /** Reading what was written gives the number back, in every radix. */
  lemma ReadBack(s: Sign, v: nat, radix: int, limbs: nat)
    requires IsRadix(radix)
    ensures Readable(Written(s, v, radix, limbs), radix)
    ensures TextValue(Written(s, v, radix, limbs), radix) == Signed(s, v)
  {
    var d := WrittenDigits(v, radix, limbs);
    var t := Written(s, v, radix, limbs);
    assert Unsigned(t) == Chars(d);
    assert Values(Chars(d)) == d;
    WrittenNum(v, radix, limbs);
  }

  // ---- characters and digits, written out ----

  /** The character of a digit: '0' to '9', then 'A' to 'F'. */
  predicate UpperCase(c: char, d: int) {
    (0 <= d < 10 && c as int == 48 + d) || (10 <= d < 16 && c as int == 55 + d)
  }

  /** The same, or 'a' to 'f'. */
  predicate EitherCase(c: char, d: int) {
    UpperCase(c, d) || (10 <= d < 16 && c as int == 87 + d)
  }

  /** The digits of a text, in either case. */
  predicate HasDigits(t: string, p: seq<int>) {
    |p| == |t| && forall i :: 0 <= i < |t| ==> EitherCase(t[i], p[i])
  }

  lemma DigitsRead(t: string, p: seq<int>)
    requires HasDigits(t, p)
    ensures Values(t) == p && !Negative(t) && AreDigits(p, 16)
  {
    assert |t| > 0 ==> EitherCase(t[0], p[0]);
  }

  /** A text without a minus sign is read exactly when its characters are digits of the radix, as their number. */
  lemma ReadsDigits(t: string, radix: int)
    requires IsRadix(radix) && !Negative(t)
    ensures Readable(t, radix) <==> exists p: seq<int> :: HasDigits(t, p) && AreDigits(p, radix)
    ensures Readable(t, radix) ==> exists p: seq<int> :: HasDigits(t, p) && TextValue(t, radix) == Num(p, radix)
    ensures Readable("-" + t, radix) == Readable(t, radix) && TextValue("-" + t, radix) == -TextValue(t, radix)
  {
    assert ("-" + t)[1..] == t;
    forall p: seq<int> | HasDigits(t, p) ensures Values(t) == p { DigitsRead(t, p); }
    if Readable(t, radix) {
      assert HasDigits(t, Values(t)) by {
        forall i | 0 <= i < |t| ensures EitherCase(t[i], Values(t)[i]) { assert DigitValue(t[i]) < radix; }
      }
    }
  }

  /** The digits come first to last without a zero in front; in radix 16 they come in pairs. */
  predicate Shortest(p: seq<int>, v: nat, radix: int, limbs: nat) {
    if radix < 16 then |p| > 0 && (p[0] == 0 ==> |p| == 1)
    else |p| % 2 == 0 && if v == 0 then |p| == (if limbs > 0 then 2 else 0) else |p| > 1 && (p[0] > 0 || p[1] > 0)
  }

  lemma {:induction false} HexPairsShortest(v: nat)
    requires v > 0
    ensures var p := HexPairs(v); |p| % 2 == 0 && |p| > 1 && (p[0] > 0 || p[1] > 0)
  {
    if v >= 256 { HexPairsShortest(v / 256); } else { assert HexPairs(v / 256) == []; }
  }

  lemma WrittenShortest(v: nat, radix: int, limbs: nat)
    requires IsRadix(radix)
    ensures Shortest(WrittenDigits(v, radix, limbs), v, radix, limbs)
  {
    WrittenOfNum(v, radix);
    if radix == 16 && v > 0 { HexPairsShortest(v); }
  }

  lemma SignedChars(s: Sign, p: seq<int>, t: string, sign: nat)
    requires AreDigits(p, 16) && t == SignText(s) + Chars(p) && sign == if s < 0 then 1 else 0
    ensures |t| == sign + |p| && (s < 0 ==> t[0] as int == 45)
    ensures forall i :: 0 <= i < |p| ==> UpperCase(t[sign + i], p[i])
  {
    forall i | 0 <= i < |p| ensures UpperCase(t[sign + i], p[i]) {
      assert t[sign + i] == Chars(p)[i];
    }
  }

  /** A minus sign for a negative number, and then exactly these digits' characters. */
  lemma WritesDigits(s: Sign, v: nat, radix: int, limbs: nat) returns (p: seq<int>)
    requires IsRadix(radix)
    ensures Num(p, radix) == v && AreDigits(p, radix) && Shortest(p, v, radix, limbs)
    ensures var t := Written(s, v, radix, limbs); var sign := if s < 0 then 1 else 0;
      && |t| == sign + |p| && (s < 0 ==> t[0] as int == 45)
      && forall i :: 0 <= i < |p| ==> UpperCase(t[sign + i], p[i])
  {
    p := WrittenDigits(v, radix, limbs);
    WrittenNum(v, radix, limbs);
    WrittenShortest(v, radix, limbs);
    SignedChars(s, p, Written(s, v, radix, limbs), if s < 0 then 1 else 0);
  }

  /** The estimate is the even one of the two sizes with room for three characters more. */
  lemma EstimateIs(bits: nat, radix: int)
    requires IsRadix(radix)
    ensures var n := if radix == 16 then bits / 4 else if radix >= 4 then bits / 2 else bits;
      Room(bits, radix) % 2 == 0 && n + 3 <= Room(bits, radix) <= n + 4
  {}

  // ---- the size estimate ----

  /** The buffer size asked for, from the number of bits. */
  function Room(bits: nat, radix: int): nat {
    var n := if radix >= 16 then bits / 2 / 2 else if radix >= 4 then bits / 2 else bits;
    n + 3 + (n + 3) % 2
  }

  /** Length of a digit sequence without leading zeros, from the bits of its number. */
  lemma LengthByBits(s: seq<int>, radix: int, v: nat, w: nat)
    requires radix > 1 && AreDigits(s, radix) && Num(s, radix) == v && |s| > 0 && s[0] > 0
    requires Pow(2, w) <= radix
    ensures w * (|s| - 1) < BitLen(v)
  {
    NumLeading(s, radix);
    BitLenIs(v);
    PowPos(2, w);
    PowPow(2, w, |s| - 1);
    PowBaseMono(Pow(2, w), radix, |s| - 1);
    if w * (|s| - 1) >= BitLen(v) { PowMono(2, BitLen(v), w * (|s| - 1)); }
  }

  lemma PairsStep(v: nat, q: nat)
    requires v > 0 && q == v / 256
    ensures |HexPairs(v)| == |HexPairs(q)| + 2
  {}

  lemma {:induction false} BitLenHalves(v: nat, k: nat)
    requires Pow(2, k) > 0 && v / Pow(2, k) > 0
    ensures BitLen(v) == BitLen(v / Pow(2, k)) + k
  {
    if k > 0 {
      PowPos(2, k - 1);
      DivDiv(v, 2, Pow(2, k - 1));
      if v == 0 { DivModUnique(v, Pow(2, k), 0, 0); }
      BitLenHalves(v / 2, k - 1);
    }
  }

  lemma BitLenByte(v: nat, q: nat)
    requires v > 0 && q == v / 256
    ensures q > 0 ==> BitLen(v) == BitLen(q) + 8
    ensures q == 0 ==> 0 < BitLen(v) <= 8 && BitLen(q) == 0
  {
    Pow16();
    if q > 0 {
      BitLenHalves(v, 8);
    } else {
      BitLenIs(v);
      if BitLen(v) > 8 { PowMono(2, 8, BitLen(v) - 1); }
    }
  }

  lemma {:induction false} HexLength(v: nat, n: nat)
    requires n == BitLen(v)
    ensures |HexPairs(v)| == 2 * ((n + 7) / 8)
  {
    if v > 0 {
      var q := v / 256;
      var m := BitLen(q);
      assert n == m + 8 || (m == 0 && 0 < n <= 8) by { BitLenByte(v, q); }
      HexLength(q, m);
      PairsStep(v, q);
    }
  }

  lemma PairsFit(v: nat, limbs: nat)
    ensures |WrittenDigits(v, 16, limbs)| + 2 <= Room(BitLen(v), 16)
  {
    HexLength(v, BitLen(v));
  }

  lemma DigitsFit(s: seq<int>, radix: int, v: nat)
    requires 2 <= radix < 16 && AreDigits(s, radix) && Num(s, radix) == v && |s| > 0 && s[0] > 0
    ensures |s| + 2 <= Room(BitLen(v), radix)
  {
    assert Pow(2, 1) == 2 * Pow(2, 0) && Pow(2, 2) == 2 * Pow(2, 1);
    if radix >= 4 {
      LengthByBits(s, radix, v, 2);
    } else {
      LengthByBits(s, radix, v, 1);
    }
  }

  lemma PlainFit(v: nat, radix: int)
    requires 2 <= radix < 16
    ensures |WrittenOf(v, radix)| + 2 <= Room(BitLen(v), radix)
  {
    WrittenOfNum(v, radix);
    if v > 0 { DigitsFit(WrittenOf(v, radix), radix, v); }
  }

  /** The estimate covers the sign, the digits and the final NUL. */
  lemma RoomEnough(s: Sign, v: nat, radix: int, limbs: nat)
    requires IsRadix(radix)
    ensures |Written(s, v, radix, limbs)| + 1 <= Room(BitLen(v), radix)
  {
    if radix == 16 { PairsFit(v, limbs); } else { PlainFit(v, radix); }
  }

  // ---- writing ----

  /** One division by the radix; more digits follow while the quotient is not zero. */
  method NextDigit(x: Mpi, radix: int) returns (r: nat, more: bool)
    requires 2 <= radix < 16 && x.s == 1 && (radix == 2 ==> |x.p| > 0)
    modifies x
    ensures r == old(Val(x.p)) % radix && r < radix && Val(x.p) == old(Val(x.p)) / radix
    ensures more <==> Val(x.p) != 0
    ensures |x.p| > 0 && (more ==> x.s == 1)
  {
    BaseFacts();
    var e, w := ModInt(x, radix);
    e := DivInt(x, null, x, radix);
    r := w;
    DivModFacts(old(Val(x.p)), radix);
    var c := CmpInt(x, 0);
    more := c != 0;
  }

  /** The digits d of the number are those of w, while there are more, and then ds. */
  ghost predicate Split(d: seq<int>, w: nat, radix: int, ds: seq<int>, more: bool)
    requires radix > 1
  {
    d == (if more then WrittenOf(w, radix) else []) + ds
  }

  lemma NextSplit(d: seq<int>, w: nat, radix: int, ds: seq<int>)
    requires radix > 1 && Split(d, w, radix, ds, true)
    ensures |d| > |ds| && Split(d, w / radix, radix, [w % radix] + ds, w / radix != 0)
    ensures w / radix != 0 ==> w / radix < w
  {
    DivModFacts(w, radix);
    if w < radix {
      DivModUnique(w, radix, 0, w);
      assert d == [w] + ds;
    } else {
      DivSmaller(w, radix);
      QuotientPositive(w, radix);
      assert d == WrittenOf(w / radix, radix) + ([w % radix] + ds);
    }
  }

  /** *(--p_end) = digit. */
  method PutChar(buf: array<char>, end: nat, length: nat, r: nat, ghost ds: seq<int>) returns (length': nat)
    requires length < end <= buf.Length && r < 16 && AreDigits(ds, 16) && buf[end - length..end] == Chars(ds)
    modifies buf
    ensures length' == length + 1 && buf[end - length'..end] == Chars([r] + ds)
    ensures forall i :: 0 <= i < buf.Length && i != end - length' ==> buf[i] == old(buf[i])
  {
    length' := length + 1;
    buf[end - length'] := DigitChar(r);
    assert buf[end - length'..end] == [DigitChar(r)] + buf[end - length..end];
  }

  /** Writes the digits from the last one back. */
  method WriteDown(x: Mpi, radix: int, buf: array<char>, p: nat, buflen: nat) returns (ret: Status, length: nat)
    requires 2 <= radix < 16 && x.s == 1 && (radix == 2 ==> |x.p| > 0) && p + buflen <= buf.Length
    modifies x, buf
    ensures var d := WrittenOf(old(Val(x.p)), radix);
      && ret == (if |d| <= buflen then Ok else BufferTooSmall)
      && (ret == Ok ==> length == |d| && AreDigits(d, 16) && buf[p + buflen - length..p + buflen] == Chars(d))
    ensures forall i :: 0 <= i < p || p + buflen <= i < buf.Length ==> buf[i] == old(buf[i])
  {
    var more, end := true, p + buflen;
    length := 0;
    ghost var w := Val(x.p);
    ghost var d, ds: seq<int> := WrittenOf(w, radix), [];
    assert Chars([]) == [] && d == d + [];
    while more
      invariant 0 <= length <= buflen && |ds| == length && AreDigits(ds, 16)
      invariant more ==> x.s == 1 && (radix == 2 ==> |x.p| > 0)
      invariant w == Val(x.p) && Split(d, w, radix, ds, more)
      invariant buf[end - length..end] == Chars(ds)
      invariant forall i :: 0 <= i < p || end <= i < buf.Length ==> buf[i] == old(buf[i])
      decreases w, more
    {
      NextSplit(d, w, radix, ds);
      if length >= buflen { return BufferTooSmall, length; }
      var r, again := NextDigit(x, radix);
      length := PutChar(buf, end, length, r, ds);
      w, ds, more := Val(x.p), [r] + ds, again;
    }
    ret := Ok;
  }

  /** Writes the digits high-order first. */
  method WriteHlp(x: Mpi, radix: int, buf: array<char>, p: nat, buflen: nat) returns (ret: Status, end: nat)
    requires 2 <= radix < 16 && x.s == 1 && (radix == 2 ==> |x.p| > 0) && p + buflen <= buf.Length
    modifies x, buf
    ensures var d := WrittenOf(old(Val(x.p)), radix);
      && ret == (if |d| <= buflen then Ok else BufferTooSmall)
      && (ret == Ok ==> end == p + |d| && AreDigits(d, 16) && buf[p..end] == Chars(d))
    ensures forall i :: 0 <= i < p || p + buflen <= i < buf.Length ==> buf[i] == old(buf[i])
  {
    var length;
    ret, length := WriteDown(x, radix, buf, p, buflen);
    end := p;
    if ret != Ok { return; }
    var from := p + buflen - length;
    ghost var t := buf[from..p + buflen];
    forall i | 0 <= i < length { buf[p + i] := buf[from + i]; }
    end := p + length;
    assert buf[p..end] == t;
  }

  // ---- hexadecimal output ----

  /** The digits written from the highest of some bytes down to byte e; byte 0 is always written. */
  function HexDown(b: seq<Byte>, e: nat): (s: seq<int>)
    requires e <= |b|
    ensures AreDigits(s, 16)
    decreases |b| - e
  {
    if e == |b| then []
    else
      var d := HexDown(b, e + 1);
      if b[e] == 0 && d == [] && e > 0 then [] else d + [b[e] / 16, b[e] % 16]
  }

  lemma {:induction false} HexDownGrows(b: seq<Byte>, e: nat)
    requires e <= |b|
    ensures |HexDown(b, e)| <= |HexDown(b, 0)|
  {
    if e > 0 { HexDownGrows(b, e - 1); }
  }

  lemma NextPairs(w: nat, q: nat, c: Byte)
    requires q == w / 256 && c == w % 256
    ensures HexPairs(w) == if c == 0 && HexPairs(q) == [] then [] else HexPairs(q) + [c / 16, c % 16]
  {}

  /** The bytes of a number give its pairs of hexadecimal digits. */
  lemma {:induction false} HexDownPairs(p: seq<Limb>, b: seq<Byte>, e: nat)
    requires b == BytesOf(p) && 0 < e <= |b|
    ensures HexDown(b, e) == HexPairs(Above(Val(p), e))
    decreases |b| - e
  {
    if e == |b| {
      NothingAbove(p);
    } else {
      HexDownPairs(p, b, e + 1);
      BytesOfValue(p, e);
      NextPairs(Above(Val(p), e), Above(Val(p), e + 1), b[e]);
    }
  }

  /** All bytes together give the digits that are written. */
  lemma HexDownAll(p: seq<Limb>)
    ensures HexDown(BytesOf(p), 0) == WrittenDigits(Val(p), 16, |p|)
  {
    var b := BytesOf(p);
    LimbOctets();
    if |p| > 0 {
      MulLe(1, |p|, ciL);
      HexDownPairs(p, b, 1);
      BytesOfValue(p, 0);
      assert Above(Val(p), 1) == Above(Val(p), 0) / 256;
      NextPairs(Val(p), Above(Val(p), 1), b[0]);
    }
  }

  /** Appends the two digits of a byte. */
  method PutPair(buf: array<char>, p: nat, c: Byte, ghost sign: string, ghost d: seq<int>)
    requires p + 2 <= buf.Length && AreDigits(d, 16) && buf[..p] == sign + Chars(d)
    modifies buf
    ensures buf[..p + 2] == sign + Chars(d + [c / 16, c % 16])
  {
    buf[p] := DigitChar(c / 16);
    buf[p + 1] := DigitChar(c % 16);
    assert Chars(d + [c / 16, c % 16]) == Chars(d) + [DigitChar(c / 16), DigitChar(c % 16)];
    assert buf[..p + 2] == buf[..p] + [DigitChar(c / 16), DigitChar(c % 16)];
  }

  lemma LastByte(i: nat, j: nat)
    requires i > 0 && j > 0
    ensures i + j == 2 <==> (i - 1) * ciL + j == 1
  {
    LimbOctets();
    if i > 1 { MulLe(1, i - 1, ciL); }
  }

  /** What byte j of limb i, counted from one, adds to the digits d written so far. */
  lemma HexNext(p: seq<Limb>, i: nat, j: nat, base: nat, b: seq<Byte>, d: seq<int>, c: Byte) returns (next: seq<int>)
    requires 0 < i <= |p| && 0 < j <= ciL && base == (i - 1) * ciL && b == BytesOf(p) && base + j <= |b|
    requires d == HexDown(b, base + j) && c == ByteOf(p[i - 1], j - 1)
    ensures next == HexDown(b, base + j - 1) && AreDigits(next, 16) && |next| <= |HexDown(b, 0)|
    ensures next == if c == 0 && d == [] && i + j != 2 then d else d + [c / 16, c % 16]
  {
    LimbByte(p, i - 1, j - 1);
    HexDownGrows(b, base + j - 1);
    LastByte(i, j);
    next := HexDown(b, base + j - 1);
  }

  method WriteHexByte(x: Mpi, i: nat, j: nat, buf: array<char>, p: nat, k: bool, ghost sign: string, ghost b: seq<Byte>,
                      ghost base: nat, ghost d: seq<int>)
    returns (p': nat, k': bool, ghost d': seq<int>)
    requires 0 < i <= |x.p| && 0 < j <= ciL && b == BytesOf(x.p) && base == (i - 1) * ciL && base + j <= |b|
    requires |sign| + |HexDown(b, 0)| <= buf.Length && d == HexDown(b, base + j) && (k <==> d != [])
    requires p == |sign| + |d| <= buf.Length && buf[..p] == sign + Chars(d)
    modifies buf
    ensures d' == HexDown(b, base + j - 1) && (k' <==> d' != [])
    ensures p' == |sign| + |d'| <= buf.Length && buf[..p'] == sign + Chars(d')
  {
    p', k' := p, k;
    var c := ByteOf(x.p[i - 1], j - 1);
    d' := HexNext(x.p, i, j, base, b, d, c);
    if !(c == 0 && !k && i + j != 2) {
      PutPair(buf, p, c, sign, d);
      p', k' := p + 2, true;
    }
  }

  /** Writes the digits of one limb. */
  method WriteHexLimb(x: Mpi, i: nat, buf: array<char>, p: nat, k: bool, ghost sign: string, ghost b: seq<Byte>,
                      ghost base: nat)
    returns (p': nat, k': bool)
    requires 0 < i <= |x.p| && b == BytesOf(x.p) && base == (i - 1) * ciL && base + ciL <= |b|
    requires |sign| + |HexDown(b, 0)| <= buf.Length && (k <==> HexDown(b, base + ciL) != [])
    requires p == |sign| + |HexDown(b, base + ciL)| <= buf.Length && buf[..p] == sign + Chars(HexDown(b, base + ciL))
    modifies buf
    ensures k' <==> HexDown(b, base) != []
    ensures p' == |sign| + |HexDown(b, base)| <= buf.Length && buf[..p'] == sign + Chars(HexDown(b, base))
  {
    p', k' := p, k;
    var j := ciL;
    ghost var e, d := base + ciL, HexDown(b, base + ciL);
    while j > 0
      invariant 0 <= j <= ciL && e == base + j && d == HexDown(b, e) && (k' <==> d != [])
      invariant p' == |sign| + |d| <= buf.Length && buf[..p'] == sign + Chars(d)
    {
      p', k', d := WriteHexByte(x, i, j, buf, p', k', sign, b, base, d);
      j, e := j - 1, e - 1;
    }
  }

  /** Writes all limbs from the highest. */
  method WriteHex(x: Mpi, buf: array<char>, start: nat) returns (p: nat)
    requires start + |WrittenDigits(Val(x.p), 16, |x.p|)| <= buf.Length
    modifies buf
    ensures p == start + |WrittenDigits(Val(x.p), 16, |x.p|)|
    ensures buf[..p] == old(buf[..start]) + Chars(WrittenDigits(Val(x.p), 16, |x.p|))
  {
    p := start;
    var k, i := false, |x.p|;
    ghost var b, sign := BytesOf(x.p), buf[..start];
    ghost var base := |b|;
    HexDownAll(x.p);
    assert Chars([]) == [] && sign == sign + [];
    while i > 0
      invariant 0 <= i <= |x.p| && base == i * ciL <= |b|
      invariant k <==> HexDown(b, base) != []
      invariant p == start + |HexDown(b, base)| <= buf.Length && buf[..p] == sign + Chars(HexDown(b, base))
    {
      ChunkInside(i - 1, |x.p|);
      base := base - ciL;
      p, k := WriteHexLimb(x, i, buf, p, k, sign, b, base);
      i := i - 1;
    }
  }

  /** Writes the digits of a positive copy. */
  method WritePlain(x: Mpi, radix: int, buf: array<char>, start: nat, left: nat) returns (ret: Status, p: nat)
    requires 2 <= radix < 16 && (radix == 2 ==> |x.p| > 0) && start + left <= buf.Length
    requires |WrittenOf(Val(x.p), radix)| <= left
    modifies buf
    ensures ret == Ok && p == start + |WrittenOf(Val(x.p), radix)|
    ensures AreDigits(WrittenOf(Val(x.p), radix), 16)
    ensures buf[..p] == old(buf[..start]) + Chars(WrittenOf(Val(x.p), radix))
  {
    var t := new Mpi();
    Copy(t, x);
    if t.s == -1 { t.s := 1; }
    ret, p := WriteHlp(t, radix, buf, start, left);
    assert buf[..p] == buf[..start] + buf[start..p];
    assert buf[..start] == old(buf[..start]);
  }

  /** Writes the text of X with a final NUL; olen is the room taken, or the room that is missing. */
  method WriteString(x: Mpi, radix: int, buf: array<char>, buflen: nat) returns (ret: Status, olen: nat)
    requires buflen <= buf.Length && (radix == 2 ==> |x.p| > 0)
    modifies buf
    ensures !IsRadix(radix) ==> ret == BadInputData
    ensures IsRadix(radix) ==> ret == (if Room(BitLen(Val(x.p)), radix) <= buflen then Ok else BufferTooSmall)
    ensures ret == BufferTooSmall ==> olen == Room(BitLen(Val(x.p)), radix)
    ensures ret != Ok ==> buf[..] == old(buf[..])
    ensures ret == Ok ==> var t := Written(x.s, Val(x.p), radix, |x.p|);
      olen == |t| + 1 <= buflen && buf[..olen] == t + ['\0']
  {
    olen := 0;
    if radix < 2 || radix > 16 { return BadInputData, olen; }
    var bits := Bitlen(x);
    var n := Room(bits, radix);
    if buflen < n { return BufferTooSmall, n; }
    RoomEnough(x.s, Val(x.p), radix, |x.p|);
    var p, left := 0, buflen;
    if x.s == -1 {
      buf[0] := '-';
      p, left := 1, buflen - 1;
    }
    assert buf[..p] == SignText(x.s);
    if radix == 16 {
      p := WriteHex(x, buf, p);
      ret := Ok;
    } else {
      ret, p := WritePlain(x, radix, buf, p, left);
    }
    buf[p] := '\0';
    olen := p + 1;
  }
}

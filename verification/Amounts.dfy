/** Token amounts: decimal text with 18 places after the point, and big-endian bytes. */
module Amounts {
  import opened Arith
  import opened Limbs
  import opened MpiCore
  import opened Shift
  import opened Digits
  import opened Bytes
  import opened Sequences
  import opened Binary
  import opened RadixText

  const PLACES: nat := 18

  const WIDTH: nat := 32

  // ---- from text ----

  /** Where the first point stands, or the length of a text without one. */
  function PointAt(t: string): (k: nat)
    ensures k <= |t| && (forall i :: 0 <= i < k ==> t[i] != '.') && (k < |t| ==> t[k] == '.')
  {
    if |t| == 0 || t[0] == '.' then 0 else 1 + PointAt(t[1..])
  }

  lemma {:induction false} PointUnique(t: string, k: nat)
    requires k <= |t| && (forall i :: 0 <= i < k ==> t[i] != '.') && (k < |t| ==> t[k] == '.')
    ensures k == PointAt(t)
  {
    if k > 0 { PointUnique(t[1..], k - 1); }
  }

  function IntegerPart(t: string): string {
    t[..PointAt(t)]
  }

  /** The characters behind the point, at most 18 of them. */
  function DecimalPart(t: string): string {
    var k := PointAt(t);
    if k == |t| then "" else t[k + 1..][..Min(PLACES, |t| - k - 1)]
  }

  /** The amount in the smallest unit: the point is moved 18 places to the right. */
  function Scaled(t: string): string {
    IntegerPart(t) + DecimalPart(t) + Repeat('0', PLACES - |DecimalPart(t)|)
  }

  /** The place of the first such character, or the length of a text without one. */
  method StrChr(t: string, c: char) returns (k: nat)
    ensures k <= |t| && (forall i :: 0 <= i < k ==> t[i] != c) && (k < |t| ==> t[k] == c)
  {
    k := 0;
    while k < |t| && t[k] != c
      invariant k <= |t| && forall i :: 0 <= i < k ==> t[i] != c
    {
      k := k + 1;
    }
  }

  /** Copies up to 18 decimals and fills the rest with zeros. */
  method FillDecimals(t: string, decimal: array<char>)
    requires decimal.Length == 36
    modifies decimal
    ensures decimal[..PLACES] == DecimalPart(t) + Repeat('0', PLACES - |DecimalPart(t)|)
  {
    var k := StrChr(t, '.');
    PointUnique(t, k);
    var i := 0;
    ghost var d := DecimalPart(t);
    if k < |t| {
      var p := k + 1;
      while i < PLACES && p < |t|
        invariant 0 <= i <= |d| && p == k + 1 + i && decimal[..i] == d[..i]
      {
        decimal[i] := t[p];
        i, p := i + 1, p + 1;
      }
    }
    assert i == |d| && d[..i] == d;
    for j := i to PLACES
      invariant forall n :: 0 <= n < i ==> decimal[n] == d[n]
      invariant forall n :: i <= n < j ==> decimal[n] == '0'
    {
      decimal[j] := '0';
    }
  }

  lemma SizeInside(v: nat, len: nat, n: nat)
    requires v < Octets(len) && (len > 0 ==> Octets(len - 1) <= v)
    ensures len <= n <==> v < Octets(n)
  {
    if len <= n { PowMono(256, len, n); } else { PowMono(256, n, len - 1); }
  }

  /** As many bytes as the number needs are its base-256 digits. */
  lemma MinimalBytes(s: seq<Byte>, v: nat)
    requires Num(s, 256) == v && (|s| > 0 ==> Octets(|s| - 1) <= v)
    ensures s == ToDigits(v, 256)
  {
    if |s| > 0 && s[0] == 0 {
      assert s == [s[0]] + s[1..];
      NumCons(s[0], s[1..], 256);
      NumBound(s[1..], 256);
      assert false;
    }
    MinimalUnique(s, ToDigits(v, 256), 256);
  }

  /** Writes exactly the bytes the number needs. */
  method WriteMinimal(value: Mpi, out: array<Byte>) returns (overrun: bool, r: int)
    modifies out
    ensures overrun <==> Val(value.p) >= Octets(out.Length)
    ensures !overrun ==> 0 <= r <= out.Length && out[..r] == ToDigits(Val(value.p), 256)
  {
    var len := Size(value);
    SizeInside(Val(value.p), len, out.Length);
    if len > out.Length { return true, 0; }
    var ret := WriteBinary(value, out, len);
    MinimalBytes(out[..len], Val(value.p));
    return false, len;
  }

  /** The bytes of the amount; overrun when the integer part or the bytes do not fit their buffers. */
  method StringToBignum(t: string, out: array<Byte>) returns (overrun: bool, r: int)
    modifies out
    ensures overrun <==>
      |IntegerPart(t)| > 17 || (Readable(Scaled(t), 10) && Magnitude(Scaled(t), 10) >= Octets(out.Length))
    ensures !overrun ==> (r == -1 <==> !Readable(Scaled(t), 10))
    ensures !overrun && r != -1 ==> AreDigits(Values(Unsigned(Scaled(t))), 10) && Magnitude(Scaled(t), 10) >= 0
    ensures !overrun && r != -1 ==> 0 <= r <= out.Length && out[..r] == ToDigits(Magnitude(Scaled(t), 10), 256)
  {
    var k := StrChr(t, '.');
    PointUnique(t, k);
    if k + PLACES > 35 { return true, 0; }
    var decimal := new char[36];
    FillDecimals(t, decimal);
    assert t[..k] + decimal[..PLACES] == Scaled(t);
    var value := new Mpi();
    var ret := ReadString(value, 10, t[..k] + decimal[..PLACES]);
    if ret != Ok { return false, -1; }
    NumBound(Values(Unsigned(Scaled(t))), 10);
    overrun, r := WriteMinimal(value, out);
  }

  // ---- to text ----

  /** The decimal digits, right-aligned in 32 places with zeros. */
  function Aligned(v: nat): (t: string)
    ensures |t| >= WIDTH
  {
    var d := Chars(WrittenOf(v, 10));
    Repeat('0', WIDTH - Min(WIDTH, |d|)) + d
  }

  /** At most 35 digits with a point behind the first 14. */
  function AmountText(v: nat): string {
    var a := Aligned(v)[..Min(35, |Aligned(v)|)];
    a[..WIDTH - PLACES] + "." + a[WIDTH - PLACES..]
  }

  /** A text cut to a buffer, with the final NUL. */
  function CString(t: string, room: nat): (c: string)
    requires room > 0
    ensures |c| <= room
  {
    t[..Min(|t|, room - 1)] + ['\0']
  }

  lemma NoSpaces(v: nat)
    ensures forall i :: 0 <= i < |WrittenOf(v, 10)| ==> Chars(WrittenOf(v, 10))[i] != ' '
  {
    var d := WrittenOf(v, 10);
    forall i | 0 <= i < |d| ensures DigitChar(d[i]) != ' ' { assert DigitValue(' ') == 255; }
  }

  /** Replaces the leading spaces by zeros and counts them. */
  method ZeroSpaces(tmp: array<char>, n: nat, ghost v: nat) returns (count: nat)
    requires n == Min(35, |Aligned(v)|) && tmp.Length == 36
    requires var d := Chars(WrittenOf(v, 10)); tmp[..n] == (Repeat(' ', WIDTH - Min(WIDTH, |d|)) + d)[..n]
    modifies tmp
    ensures tmp[..n] == Aligned(v)[..n] && count == WIDTH - Min(WIDTH, |WrittenOf(v, 10)|)
  {
    hide Repeat, WrittenOf, Chars;
    ghost var d := Chars(WrittenOf(v, 10));
    ghost var spaces := WIDTH - Min(WIDTH, |d|);
    NoSpaces(v);
    assert tmp[..n][spaces] == d[0];
    count := 0;
    while tmp[count] == ' '
      invariant 0 <= count <= spaces
      invariant forall i :: 0 <= i < count ==> tmp[i] == '0'
      invariant forall i :: count <= i < n ==> tmp[i] == (Repeat(' ', spaces) + d)[i]
      decreases spaces - count
    {
      tmp[count] := '0';
      count := count + 1;
    }
  }

  method Store(out: array<char>, t: string)
    requires |t| <= out.Length
    modifies out
    ensures out[..|t|] == t
  {
    for i := 0 to |t|
      invariant out[..i] == t[..i]
    {
      out[i] := t[i];
    }
  }

  /** Aligns the digits to the right, and puts the point in. */
  method PlacePoint(digits: string, ghost v: nat) returns (t: string, count: nat)
    requires digits == Chars(WrittenOf(v, 10))
    ensures t == AmountText(v) && |digits| + count == |Aligned(v)|
  {
    var tmp := new char[36];
    var padded := Repeat(' ', WIDTH - Min(WIDTH, |digits|)) + digits;
    var n := Min(35, |padded|);
    Store(tmp, padded[..n]);
    count := ZeroSpaces(tmp, n, v);
    t := tmp[..WIDTH - PLACES] + "." + tmp[WIDTH - PLACES..n];
    assert tmp[..n][..WIDTH - PLACES] == tmp[..WIDTH - PLACES];
    assert tmp[..n][WIDTH - PLACES..] == tmp[WIDTH - PLACES..n];
  }

  /** Replaces the digits in a buffer by the text with the point. */
  method Format(out: array<char>, n: nat, ghost v: nat) returns (count: nat)
    requires n < out.Length && out[..n] == Chars(WrittenOf(v, 10))
    modifies out
    ensures n + count == |Aligned(v)|
    ensures var c := CString(AmountText(v), out.Length); out[..|c|] == c
  {
    var t;
    t, count := PlacePoint(out[..n], v);
    Store(out, CString(t, out.Length));
  }

  /** The decimal digits, with their final NUL. */
  method PutDigits(value: Mpi, out: array<char>) returns (ret: Status, slen: nat)
    requires value.s == 1
    modifies out
    ensures ret != Ok <==> out.Length < Room(BitLen(Val(value.p)), 10)
    ensures ret == Ok ==> 0 < slen <= out.Length && out[..slen - 1] == Chars(WrittenOf(Val(value.p), 10))
  {
    ret, slen := WriteString(value, 10, out, out.Length);
    assert ret == Ok ==> out[..slen - 1] == out[..slen][..slen - 1];
  }

  method ValueToString(value: Mpi, out: array<char>) returns (r: int)
    requires value.s == 1
    modifies out
    ensures r == -1 <==> out.Length < Room(BitLen(Val(value.p)), 10)
    ensures r != -1 ==> out.Length > 0 && r == |Aligned(Val(value.p))| + 2
    ensures r != -1 ==> var c := CString(AmountText(Val(value.p)), out.Length); out[..|c|] == c
  {
    var ret, slen := PutDigits(value, out);
    if ret != Ok { return -1; }
    var count := Format(out, slen - 1, Val(value.p));
    return slen + count + 1;
  }

  /** The text of an amount; fails exactly when the digits do not fit the size estimate of the conversion. */
  method BignumToString(buf: seq<Byte>, out: array<char>) returns (r: int)
    modifies out
    ensures Num(buf, 256) >= 0
    ensures r == -1 <==> out.Length < Room(BitLen(Num(buf, 256)), 10)
    ensures r != -1 ==> out.Length > 0 && r == |Aligned(Num(buf, 256))| + 2
    ensures r != -1 ==> var c := CString(AmountText(Num(buf, 256)), out.Length); out[..|c|] == c
  {
    NumBound(buf, 256);
    var value := new Mpi();
    ReadBinary(value, buf);
    r := ValueToString(value, out);
  }

  // ---- the two conversions together ----

  lemma NotNegative(t: string)
    requires AllDigits(t, 10)
    ensures !Negative(t) && Unsigned(t) == t && Readable(t, 10)
  {
    assert DigitValue('-') == 255;
  }

  lemma ValuesConcat(i: string, d: string)
    ensures Values(i + d) == Values(i) + Values(d)
    ensures Num(Values(i + d), 10) == Num(Values(i), 10) * Pow(10, |d|) + Num(Values(d), 10)
  {
    assert Values(i + d) == Values(i) + Values(d);
    NumConcat(Values(i), Values(d), 10);
  }

  lemma ReadableParts(i: string, d: string)
    requires AllDigits(i, 10) && AllDigits(d, 10)
    ensures Readable(i + d, 10) && !Negative(i + d)
    ensures Magnitude(i + d, 10) == Num(Values(i), 10) * Pow(10, |d|) + Num(Values(d), 10)
  {
    NotNegative(i + d);
    ValuesConcat(i, d);
  }

  lemma ZeroDigits(n: nat)
    ensures AllDigits(Repeat('0', n), 10) && Num(Values(Repeat('0', n)), 10) == 0
  {
    assert DigitValue('0') == 0;
    NumZeros(Values(Repeat('0', n)), 10);
  }

  /** The parts of a text with a point. */
  lemma PointParts(i: string, f: string)
    requires AllDigits(i, 10)
    ensures IntegerPart(i + "." + f) == i && DecimalPart(i + "." + f) == f[..Min(PLACES, |f|)]
  {
    var t := i + "." + f;
    assert DigitValue('.') == 255;
    PointUnique(t, |i|);
    assert t[..|i|] == i && t[|i| + 1..] == f;
  }

  lemma FilledDecimals(d: string, n: nat)
    requires AllDigits(d, 10)
    ensures AllDigits(d + Repeat('0', n), 10)
    ensures Num(Values(d + Repeat('0', n)), 10) == Num(Values(d), 10) * Pow(10, n)
  {
    ZeroDigits(n);
    ValuesConcat(d, Repeat('0', n));
  }

  lemma FilledAmount(i: string, d: string, n: nat, t: string)
    requires AllDigits(i, 10) && AllDigits(d, 10) && t == i + d + Repeat('0', n)
    ensures Readable(t, 10) && !Negative(t)
    ensures Magnitude(t, 10) == Num(Values(i), 10) * Pow(10, |d| + n) + Num(Values(d), 10) * Pow(10, n)
  {
    FilledDecimals(d, n);
    assert t == i + (d + Repeat('0', n));
    ReadableParts(i, d + Repeat('0', n));
  }

  /** I.F stands for I * 10^18 plus the first 18 digits of F filled up with zeros. */
  lemma DecimalAmount(i: string, f: string)
    requires AllDigits(i, 10) && AllDigits(f[..Min(PLACES, |f|)], 10)
    ensures var d := f[..Min(PLACES, |f|)];
      && IntegerPart(i + "." + f) == i && Readable(Scaled(i + "." + f), 10) && !Negative(Scaled(i + "." + f))
      && Magnitude(Scaled(i + "." + f), 10)
         == Num(Values(i), 10) * Pow(10, PLACES) + Num(Values(d), 10) * Pow(10, PLACES - |d|)
  {
    var d := f[..Min(PLACES, |f|)];
    PointParts(i, f);
    FilledAmount(i, d, PLACES - |d|, Scaled(i + "." + f));
  }

  /** A text without a point stands for whole tokens. */
  lemma WholeAmount(i: string)
    requires AllDigits(i, 10)
    ensures IntegerPart(i) == i && Readable(Scaled(i), 10) && !Negative(Scaled(i))
    ensures Magnitude(Scaled(i), 10) == Num(Values(i), 10) * Pow(10, PLACES)
  {
    assert DigitValue('.') == 255;
    PointUnique(i, |i|);
    ZeroDigits(PLACES);
    assert Scaled(i) == i + Repeat('0', PLACES);
    ReadableParts(i, Repeat('0', PLACES));
  }

  lemma PaddedNum(d: seq<int>, n: nat)
    requires AreDigits(d, 10)
    ensures AreDigits(d, 16) && AllDigits(Repeat('0', n) + Chars(d), 10)
    ensures Num(Values(Repeat('0', n) + Chars(d)), 10) == Num(d, 10)
  {
    var z := Repeat('0', n);
    ZeroDigits(n);
    assert Values(Chars(d)) == d;
    assert Values(z + Chars(d)) == Values(z) + d;
    NumLeadingZeros(Values(z), d, 10);
  }

  /** A number below 10^w has at most w digits. */
  lemma DigitsWithin(d: seq<int>, v: nat, w: nat)
    requires AreDigits(d, 10) && Num(d, 10) == v && (v > 0 ==> |d| > 0 && d[0] > 0) && v < Pow(10, w)
    ensures v > 0 ==> |d| <= w
  {
    if v > 0 && |d| > w {
      NumLeading(d, 10);
      PowMono(10, w, |d| - 1);
    }
  }

  lemma AlignedNum(v: nat, w: nat)
    requires w == WIDTH
    ensures AllDigits(Aligned(v), 10) && Num(Values(Aligned(v)), 10) == v
    ensures v < Pow(10, w) ==> |Aligned(v)| == w
  {
    var d := WrittenOf(v, 10);
    WrittenOfNum(v, 10);
    PaddedNum(d, WIDTH - Min(WIDTH, |d|));
    if v < Pow(10, w) { DigitsWithin(d, v, w); }
  }

  /** How many of the digits remain in a text of c characters. */
  function Kept(c: nat): (m: nat)
    ensures m <= WIDTH
  {
    if c < 15 then Min(c, 14) else Min(WIDTH, c - 1)
  }

  /** How many zeros the reader puts behind m digits: it fills the decimals, but no digits before the point. */
  function Filled(m: nat): nat
    requires m <= WIDTH
  {
    if m < 14 then PLACES else WIDTH - m
  }

  /** Digits with a point behind the first 14, cut to c characters, are read as the remaining digits and zeros. */
  lemma ScaledCut(a: string, t: string, c: nat)
    requires |a| >= WIDTH && AllDigits(a, 10) && c <= |a| + 1 && t == (a[..14] + "." + a[14..])[..c]
    ensures |IntegerPart(t)| <= 14 && Scaled(t) == a[..Kept(c)] + Repeat('0', Filled(Kept(c)))
  {
    if c <= 14 {
      assert t == a[..c];
      WholeAmount(t);
    } else {
      var f := a[14..c - 1];
      var k := Min(PLACES, |f|);
      assert t == a[..14] + "." + f;
      PointParts(a[..14], f);
      assert f[..k] == a[14..14 + k] && a[..14] + a[14..14 + k] == a[..14 + k];
    }
  }

  /** A number is its first m digits at their place, and the rest. */
  lemma SplitDigits(a: string, v: nat, m: nat)
    requires m <= |a| && AllDigits(a, 10) && Num(Values(a), 10) == v
    ensures v == Num(Values(a[..m]), 10) * Pow(10, |a| - m) + Num(Values(a[m..]), 10)
    ensures 0 <= Num(Values(a[..m]), 10) < Pow(10, m) && 0 <= Num(Values(a[m..]), 10) < Pow(10, |a| - m)
  {
    hide Num, Pow;
    assert a == a[..m] + a[m..];
    ValuesConcat(a[..m], a[m..]);
    NumBound(Values(a[..m]), 10);
    NumBound(Values(a[m..]), 10);
  }

  lemma NoFill(x: nat, p: nat, q: nat, rest: nat, v: nat)
    requires q >= 10 * p && p > 0 && v == x * q + rest
    ensures x * p == v <==> v == 0
  {
    if x > 0 {
      MulLe(10 * p, q, x);
      MulPos(x, p);
      MulAssoc(x, 10, p);
    }
  }

  /** The remaining digits and the zeros are the number exactly when the digits cut off are zeros that are filled in. */
  lemma CutExact(x: nat, rest: nat, v: nat, m: nat, w: nat)
    requires w == WIDTH && m <= w && v == x * Pow(10, w - m) + rest && rest < Pow(10, w - m)
    ensures Pow(10, w - m) > 0
    ensures x * Pow(10, Filled(m)) == v <==> if m < 14 then v == 0 else v % Pow(10, w - m) == 0
  {
    PowPos(10, w - m);
    DivModUnique(v, Pow(10, w - m), x, rest);
    if m < 14 {
      PowMono(10, PLACES + 1, w - m);
      PowPos(10, PLACES);
      NoFill(x, Pow(10, PLACES), Pow(10, w - m), rest, v);
    }
  }

  /** What the buffer cuts off an amount below 10^32 does not matter. */
  predicate CutHarmless(v: nat, room: nat)
    requires room > 0
  {
    var m := Kept(room - 1);
    PowPos(10, WIDTH - m);
    v < Pow(10, WIDTH) && if m < 14 then v == 0 else v % Pow(10, WIDTH - m) == 0
  }

  /** What bignum_to_string leaves in a buffer, up to the NUL. */
  function TextLeft(v: nat, room: nat): string
    requires room > 0
  {
    var t := AmountText(v);
    t[..Min(|t|, room - 1)]
  }

  lemma StaysBelow(x: nat, m: nat, n: nat, w: nat)
    requires x < Pow(10, m) && m + n <= w
    ensures x * Pow(10, n) < Pow(10, w)
  {
    PowPos(10, n);
    MulLt(x, Pow(10, m), Pow(10, n));
    PowAdd(10, m, n);
    PowMono(10, m + n, w);
  }

  lemma CutBack(x: nat, rest: nat, v: nat, m: nat, len: nat, w: nat)
    requires w == WIDTH && m <= w <= len && v == x * Pow(10, len - m) + rest && rest < Pow(10, len - m)
    requires x < Pow(10, m) && (v < Pow(10, w) ==> len == w)
    ensures Pow(10, w - m) > 0
    ensures x * Pow(10, Filled(m)) == v <==> v < Pow(10, w) && if m < 14 then v == 0 else v % Pow(10, w - m) == 0
  {
    PowPos(10, w - m);
    if v < Pow(10, w) {
      CutExact(x, rest, v, m, w);
    } else {
      StaysBelow(x, m, Filled(m), w);
    }
  }

  lemma FollowedByZeros(i: string, n: nat, s: string)
    requires AllDigits(i, 10) && s == i + Repeat('0', n)
    ensures Readable(s, 10) && !Negative(s) && Magnitude(s, 10) == Num(Values(i), 10) * Pow(10, n)
  {
    ZeroDigits(n);
    ReadableParts(i, Repeat('0', n));
  }

  lemma DigitsBack(a: string, whole: string, v: nat, m: nat, s: string, w: nat)
    requires w == WIDTH && m <= w <= |a| <= |whole| && a == whole[..|a|] && AllDigits(whole, 10)
    requires Num(Values(whole), 10) == v && (v < Pow(10, w) ==> |whole| == w)
    requires s == a[..m] + Repeat('0', Filled(m))
    ensures Readable(s, 10) && !Negative(s) && Pow(10, w - m) > 0
    ensures Magnitude(s, 10) == v <==> v < Pow(10, w) && if m < 14 then v == 0 else v % Pow(10, w - m) == 0
  {
    hide Filled, Num, Repeat;
    assert a[..m] == whole[..m];
    FollowedByZeros(whole[..m], Filled(m), s);
    SplitDigits(whole, v, m);
    CutBack(Num(Values(whole[..m]), 10), Num(Values(whole[m..]), 10), v, m, |whole|, w);
  }

  /**
   * The text that is left in a buffer is read back as the amount exactly when the amount has at most 32 digits,
   * and the buffer holds all 33 characters and the NUL, or cuts off zeros that the reader fills in.
   */
  lemma AmountBack(v: nat, room: nat)
    requires room > 0
    ensures |IntegerPart(TextLeft(v, room))| <= 14
    ensures Readable(Scaled(TextLeft(v, room)), 10) && !Negative(Scaled(TextLeft(v, room)))
    ensures Magnitude(Scaled(TextLeft(v, room)), 10) == v <==> CutHarmless(v, room)
  {
    hide Scaled, IntegerPart, Filled;
    var whole := Aligned(v);
    AlignedNum(v, WIDTH);
    var a := whole[..Min(35, |whole|)];
    var t := TextLeft(v, room);
    assert |AmountText(v)| == |a| + 1;
    ScaledCut(a, t, |t|);
    assert Kept(|t|) == Kept(room - 1);
    DigitsBack(a, whole, v, Kept(room - 1), Scaled(t), WIDTH);
  }

  /** A buffer for all 33 characters and the NUL is enough for every amount below 10^32. */
  lemma RoomyBack(v: nat, room: nat)
    requires room >= 34
    ensures CutHarmless(v, room) <==> v < Pow(10, WIDTH)
  {
    assert Pow(10, 0) == 1;
  }

  lemma FiveBits()
    ensures BitLen(5) == 3
  {
    assert BitLen(2) == 1 + BitLen(1) && BitLen(1) == 1 + BitLen(0);
  }

  lemma FiveText()
    ensures TextLeft(5, 4) == "000"
  {
    assert WrittenOf(5, 10) == [5];
    assert Aligned(5)[..3] == "000";
  }

  /** Five units pass the size check of a four-byte buffer, which then holds "000", and that is read as nothing. */
  lemma CutWitness()
    ensures Room(BitLen(5), 10) == 4 && TextLeft(5, 4) == "000" && Magnitude(Scaled("000"), 10) == 0
  {
    FiveBits();
    FiveText();
    WholeAmount("000");
    assert "000" == Repeat('0', 3);
    ZeroDigits(3);
  }

  /** The length of a C string. */
  method StrLen(m: array<char>, ghost n: nat) returns (k: nat)
    requires n < m.Length && m[n] == '\0' && forall i :: 0 <= i < n ==> m[i] != '\0'
    ensures k == n
  {
    k := 0;
    while m[k] != '\0'
      invariant 0 <= k <= n
      decreases n - k
    {
      k := k + 1;
    }
  }

  lemma NoNul(v: nat)
    ensures forall i :: 0 <= i < |AmountText(v)| ==> AmountText(v)[i] != '\0'
  {
    AlignedNum(v, WIDTH);
    assert DigitValue('\0') == 255;
  }

  lemma BytesTell(v: nat, x: nat)
    ensures ToDigits(x, 256) == ToDigits(v, 256) <==> x == v
  {
    assert Num(ToDigits(x, 256), 256) == x && Num(ToDigits(v, 256), 256) == v;
  }

  /** An amount written as text and read again: it comes back exactly when what the buffer cut off does not matter. */
  method ThereAndBack(buf: seq<Byte>, out: array<char>, back: array<Byte>) returns (r: int, overrun: bool, n: int)
    modifies out, back
    ensures Num(buf, 256) >= 0
    ensures r == -1 <==> out.Length < Room(BitLen(Num(buf, 256)), 10)
    ensures r != -1 ==> out.Length > 0
    ensures r != -1 && !overrun ==> 0 <= n <= back.Length
    ensures r != -1 && !overrun ==>
      (back[..n] == ToDigits(Num(buf, 256), 256) <==> CutHarmless(Num(buf, 256), out.Length))
    ensures r != -1 && CutHarmless(Num(buf, 256), out.Length) ==>
      (overrun <==> Num(buf, 256) >= Octets(back.Length))
  {
    r := BignumToString(buf, out);
    overrun, n := false, 0;
    if r == -1 { return; }
    ghost var v := Num(buf, 256);
    ghost var t := TextLeft(v, out.Length);
    assert out[..|t|] == t && out[|t|] == '\0' by {
      assert CString(AmountText(v), out.Length) == t + ['\0'];
    }
    NoNul(v);
    assert forall i :: 0 <= i < |t| ==> out[i] == t[i] == AmountText(v)[i];
    var k := StrLen(out, |t|);
    overrun, n := StringToBignum(out[..k], back);
    AmountBack(v, out.Length);
    if !overrun { BytesTell(v, Magnitude(Scaled(t), 10)); }
  }

  // ---- amounts in numbers ----

  /** Decimal digits, and the characters '0' to '9' for them. */
  predicate Decimal(t: string, p: seq<int>) {
    |p| == |t| && forall i :: 0 <= i < |t| ==> 0 <= p[i] < 10 && t[i] as int == 48 + p[i]
  }

  lemma DecimalValues(t: string, p: seq<int>)
    requires Decimal(t, p)
    ensures AllDigits(t, 10) && Values(t) == p
  {}

  /** I.F is I * 10^18, and the first 18 digits of F with zeros behind them. */
  lemma ReadsAmount(i: string, p: seq<int>, f: string, q: seq<int>)
    requires Decimal(i, p) && Decimal(f[..Min(18, |f|)], q)
    ensures var t := Scaled(i + "." + f);
      && IntegerPart(i + "." + f) == i && Readable(t, 10)
      && Magnitude(t, 10) == Num(p, 10) * Pow(10, 18) + Num(q, 10) * Pow(10, 18 - |q|)
  {
    DecimalValues(i, p);
    DecimalValues(f[..Min(18, |f|)], q);
    DecimalAmount(i, f);
  }

  /** An amount below 10^32 is written in 32 digits, with a point behind the first 14. */
  lemma WritesAmount(v: nat) returns (p: seq<int>)
    requires v < Pow(10, 32)
    ensures |p| == 32 && Num(p, 10) == v
    ensures var t := AmountText(v); |t| == 33 && t[14] == '.' && Decimal(t[..14] + t[15..], p)
  {
    AlignedNum(v, 32);
    var a := Aligned(v);
    p := Values(a);
    var t := AmountText(v);
    assert t == a[..14] + "." + a[14..];
    assert t[..14] + t[15..] == a;
    forall i | 0 <= i < 32 ensures 0 <= p[i] < 10 && a[i] as int == 48 + p[i] {
      assert p[i] == DigitValue(a[i]) < 10;
    }
  }
}

/** Bytes to base58 text, with the buffer sized by the factor 138/100. */
module Base58Encode {
  import opened Arith
  import opened Digits
  import opened Bytes
  import opened Sequences
  import opened Base58

  type Digit = x: int | 0 <= x < 58

  /** How a call ends; OutOfBounds is the digit index passing below the start of the buffer. */
  datatype Outcome = Encoded | TooSmall | OutOfBounds

  /** The digits the buffer holds besides the one the scan stops on. */
  function Room(data: seq<Byte>): nat {
    (|data| - LeadingZeros(data)) * 138 / 100
  }

  /** The number fits the room its length was given. */
  ghost predicate FitsRoom(data: seq<Byte>) {
    Num(data, 256) < Pow(58, Room(data))
  }

  /** The digits from some column on, and the carry out of it, are done. */
  ghost predicate ColumnsDone(was: seq<int>, tail: seq<int>, carry: int, d: int) {
    |was| == |tail| && Num(tail, 58) + carry * Pow(58, |tail|) == Num(was, 58) * 256 + d
  }

  /** Multiplies one digit by 256, adds the carry and passes on what is above a digit. */
  method DivideDigit(buf: array<Digit>, j: nat, carry: int) returns (c: int)
    requires j < buf.Length && 0 <= carry < 256
    modifies buf
    ensures buf[..j] == old(buf[..j]) && buf[j + 1..] == old(buf[j + 1..])
    ensures 0 <= c < 256 && old(buf[j]) as int * 256 + carry == c * 58 + buf[j]
  {
    var t := carry + 256 * (buf[j] as int);
    buf[j] := t % 58;
    c := t / 58;
  }

  lemma Column(all: seq<int>, j: nat, tail: seq<int>, y: int, c: int, c': int, d: int)
    requires j < |all| && all[j] * 256 + c == c' * 58 + y
    requires ColumnsDone(all[j + 1..], tail, c, d)
    ensures ColumnsDone(all[j..], [y] + tail, c', d)
  {
    var was := all[j..];
    assert was == [all[j]] + all[j + 1..];
    NumCons(all[j], all[j + 1..], 58);
    NumCons(y, tail, 58);
    CarryColumn(was[0], y, c, c', Pow(58, |tail|), 58, 256, Num(tail, 58), Num(all[j + 1..], 58), d);
  }

  lemma ZeroPrefix(s: seq<int>, n: nat)
    requires n <= |s| && forall i :: 0 <= i < n ==> s[i] == 0
    ensures Num(s, 58) == Num(s[n..], 58)
  {
    assert s == s[..n] + s[n..];
    NumLeadingZeros(s[..n], s[n..], 58);
  }

  /** A carry into the first digit means the number has that digit. */
  lemma SpillBound(was: seq<Digit>, tail: seq<Digit>, c: int, d: int)
    requires |was| > 0 && was[0] == 0 && c > 0
    requires ColumnsDone(was[1..], tail, c, d)
    ensures Num(was, 58) * 256 + d >= Pow(58, |was| - 1)
  {
    ZeroPrefix(was, 1);
    NumBound(tail, 58);
    PowPos(58, |was| - 1);
    MulLe(1, c, Pow(58, |was| - 1));
  }

  /** When the carry is gone the digits left of the scan are still zero. */
  lemma Settled(was: seq<Digit>, now: seq<Digit>, k: nat, d: int)
    requires 0 < k <= |was| == |now| && now[..k] == was[..k] && forall i :: 0 <= i < k ==> was[i] == 0
    requires ColumnsDone(was[k..], now[k..], 0, d)
    ensures Num(now, 58) == Num(was, 58) * 256 + d
  {
    assert forall i :: 0 <= i < k ==> now[i] == now[..k][i];
    ZeroPrefix(was, k);
    ZeroPrefix(now, k);
  }

  lemma FirstZeroBound(s: seq<Digit>)
    requires |s| > 0 && s[0] == 0
    ensures Num(s, 58) < Pow(58, |s| - 1)
  {
    ZeroPrefix(s, 1);
    NumBound(s[1..], 58);
  }

  /** Multiplies the digits in buf by 256 and adds a byte; the digits up to high are zero. */
  method MulAdd256(buf: array<Digit>, high: nat, byte: Byte) returns (inside: bool, top: nat)
    requires high < buf.Length && forall i :: 0 <= i <= high ==> buf[i] == 0
    modifies buf
    ensures inside <==> old(Num(buf[..], 58)) * 256 + byte < Pow(58, buf.Length - 1)
    ensures inside ==> top <= high && forall i :: 0 <= i <= top ==> buf[i] == 0
    ensures inside ==> Num(buf[..], 58) == old(Num(buf[..], 58)) * 256 + byte
  {
    var n := buf.Length;
    ghost var was := buf[..];
    var carry: int := byte;
    var j := n - 1;
    ghost var tail := buf[n..];
    while j > high || carry != 0
      invariant 0 <= j < n && 0 <= carry < 256
      invariant buf[..j + 1] == was[..j + 1] && buf[j + 1..] == tail
      invariant ColumnsDone(was[j + 1..], tail, carry, byte)
      decreases j
    {
      ghost var c := carry;
      carry := DivideDigit(buf, j, carry);
      if j == 0 {
        // the index wraps around, stays above high, and the next access leaves the buffer
        SpillBound(was, tail, c, byte);
        return false, 0;
      }
      Column(was, j, tail, buf[j], c, carry, byte);
      tail := [buf[j]] + tail;
      j := j - 1;
    }
    Settled(was, buf[..], j + 1, byte);
    FirstZeroBound(buf[..]);
    return true, j;
  }

  lemma PrefixStep(data: seq<Byte>, i: nat)
    requires i < |data|
    ensures Num(data[..i + 1], 256) == Num(data[..i], 256) * 256 + data[i]
    ensures Num(data[..i + 1], 256) <= Num(data, 256)
  {
    assert data[..i + 1] == data[..i] + [data[i]];
    NumSnoc(data[..i], data[i], 256);
    assert data == data[..i + 1] + data[i + 1..];
    NumPrefix(data[..i + 1], data[i + 1..], 256);
  }

  /** Fills the zeroed buffer with the base58 digits of data; false when a digit has no place. */
  method ToDigits58(buf: array<Digit>, data: seq<Byte>, zcount: nat) returns (inside: bool)
    requires zcount == LeadingZeros(data) && buf.Length == Room(data) + 1
    requires forall k :: 0 <= k < buf.Length ==> buf[k] == 0
    modifies buf
    ensures inside <==> FitsRoom(data)
    ensures inside ==> Num(buf[..], 58) == Num(data, 256)
  {
    var i: nat, high: nat := zcount, buf.Length - 1;
    NumZeros(buf[..], 58);
    NumZeros(data[..zcount], 256);
    PowPos(58, Room(data));
    while i < |data|
      invariant zcount <= i <= |data| && high < buf.Length
      invariant forall k :: 0 <= k <= high ==> buf[k] == 0
      invariant Num(buf[..], 58) == Num(data[..i], 256) < Pow(58, Room(data))
    {
      PrefixStep(data, i);
      inside, high := MulAdd256(buf, high, data[i]);
      i := i + 1;
      if !inside { return; }
    }
    assert data[..i] == data;
    return true;
  }

  /** The text is the leading zeros' '1's and the digits of the buffer from its first non-zero one. */
  lemma EncodeIs(data: seq<Byte>, buf: seq<Digit>, j: nat)
    requires Num(buf, 58) == Num(data, 256)
    requires j <= |buf| && (forall i :: 0 <= i < j ==> buf[i] == 0) && (j < |buf| ==> buf[j] != 0)
    ensures Encode(data) == TextOf(Repeat(0, LeadingZeros(data)) + buf[j..])
  {
    LeadingZerosUnique(buf, j);
    StrippedNum(buf, 58);
    NumBound(data, 256);
    MinimalUnique(Stripped(buf), ToDigits(Num(data, 256), 58), 58);
  }

  method CountZeros(s: seq<Byte>) returns (n: nat)
    ensures n == LeadingZeros(s)
  {
    n := 0;
    while n < |s| && s[n] == 0
      invariant n <= |s| && forall i :: 0 <= i < n ==> s[i] == 0
    {
      n := n + 1;
    }
    LeadingZerosUnique(s, n);
  }

  /** The leading zero bytes counted, and the digits from the first non-zero one. */
  method SignificantDigits(data: seq<Byte>) returns (inside: bool, zcount: nat, digits: seq<Digit>)
    ensures inside <==> FitsRoom(data)
    ensures zcount == LeadingZeros(data)
    ensures inside ==> Encode(data) == TextOf(Repeat(0, zcount) + digits)
  {
    hide Encode, TextOf;
    zcount := CountZeros(data);
    var size := (|data| - zcount) * 138 / 100 + 1;
    var buf := new Digit[size];
    for k := 0 to size
      invariant forall i :: 0 <= i < k ==> buf[i] == 0
    {
      buf[k] := 0;
    }
    inside := ToDigits58(buf, data, zcount);
    if !inside { return false, zcount, []; }
    var j := 0;
    while j < size && buf[j] == 0
      invariant 0 <= j <= size && forall i :: 0 <= i < j ==> buf[i] == 0
    {
      j := j + 1;
    }
    EncodeIs(data, buf[..], j);
    digits := buf[j..];
    assert buf[..][j..] == digits;
  }

  /** Writes the leading '1's, the digits and the terminator. */
  method WriteText(b58: array<char>, zcount: nat, digits: seq<Digit>)
    requires zcount + |digits| < b58.Length
    modifies b58
    ensures b58[..zcount + |digits| + 1] == TextOf(Repeat(0, zcount) + digits) + ['\0']
    ensures b58[zcount + |digits| + 1..] == old(b58[zcount + |digits| + 1..])
  {
    ghost var t := TextOf(Repeat(0, zcount) + digits);
    for k := 0 to zcount
      invariant b58[..k] == t[..k] && b58[zcount..] == old(b58[zcount..])
    {
      b58[k] := '1';
    }
    for k := 0 to |digits|
      invariant b58[..zcount + k] == t[..zcount + k] && b58[zcount + k..] == old(b58[zcount + k..])
    {
      b58[zcount + k] := CharOf(digits[k]);
      assert t[zcount + k] == CharOf(digits[k]);
    }
    b58[zcount + |digits|] := '\0';
  }

  /** Writes the text and its terminator, or reports the size it needs. */
  method B58Enc(b58: array<char>, b58sz: nat, data: seq<Byte>) returns (r: Outcome, newsz: nat)
    requires b58sz <= b58.Length
    modifies b58
    ensures r == OutOfBounds <==> !FitsRoom(data)
    ensures r == TooSmall <==> FitsRoom(data) && b58sz <= |Encode(data)|
    ensures r != OutOfBounds ==> newsz == |Encode(data)| + 1
    ensures r != Encoded ==> b58[..] == old(b58[..])
    ensures r == Encoded ==> b58[..newsz] == Encode(data) + ['\0'] && b58[newsz..] == old(b58[newsz..])
  {
    var inside, zcount, digits := SignificantDigits(data);
    if !inside { return OutOfBounds, b58sz; }
    newsz := zcount + |digits| + 1;
    if b58sz <= zcount + |digits| { return TooSmall, newsz; }
    WriteText(b58, zcount, digits);
    r := Encoded;
  }

  // ---- when the factor 138/100 leaves enough room ----

  lemma PowExchange(b: int, i: nat, j: nat)
    ensures Pow(Pow(b, i), j) == Pow(Pow(b, j), i)
  {
    PowPow(b, i, j);
    PowPow(b, j, i);
    assert i * j == j * i;
  }

  lemma Constants()
    ensures Pow(2, 41) == 2199023255552 && Pow(58, 7) == 2207984167552
  {
    assert Pow(2, 5) == 32 by { assert Pow(2, 2) == 4; }
    PowAdd(2, 5, 5);
    PowAdd(2, 10, 10);
    PowAdd(2, 20, 20);
    PowAdd(2, 40, 1);
    assert Pow(58, 3) == 195112 by { assert Pow(58, 1) == 58; }
    PowAdd(58, 3, 3);
    PowAdd(58, 6, 1);
  }

  lemma {:induction false} PowBaseStrict(a: int, b: int, e: nat)
    requires 0 < a < b && e > 0
    ensures Pow(a, e) < Pow(b, e)
  {
    PowBaseMono(a, b, e - 1);
    MulLt(a, b, Pow(a, e - 1));
    MulLe(Pow(a, e - 1), Pow(b, e - 1), b);
  }

  /** 2^41 <= 58^7, so 41 digits per 56 bytes are enough. */
  lemma EnoughDigits(m: nat, k: nat)
    requires 41 * k >= 56 * m
    ensures Pow(256, m) <= Pow(58, k)
  {
    var x, y, n := Pow(256, m), Pow(58, k), 8 * m;
    assert x == Pow(2, n) by {
      assert Pow(2, 8) == 256 by { assert Pow(2, 4) == 16; PowAdd(2, 4, 4); }
      PowPow(2, 8, m);
    }
    PowExchange(2, n, 41);
    assert Pow(Pow(2, 41), n) <= Pow(Pow(58, 7), n) by {
      Constants();
      PowBaseMono(Pow(2, 41), Pow(58, 7), n);
    }
    assert Pow(Pow(58, 7), n) <= Pow(y, 41) by {
      PowPow(58, 7, n);
      PowPow(58, k, 41);
      PowMono(58, 7 * n, k * 41);
    }
    PowPos(58, k);
    if x > y { PowBaseStrict(y, x, 41); }
  }

  /** Every sequence of m bytes after the leading zeros has room. */
  ghost predicate AlwaysFits(m: nat) {
    forall data: seq<Byte> :: |data| - LeadingZeros(data) == m ==> FitsRoom(data)
  }

  lemma BelowLimit(s: seq<int>, b: int, p: int)
    requires b > 0 && AreDigits(s, b) && Pow(b, |s| - LeadingZeros(s)) <= p
    ensures Num(s, b) < p
  {
    StrippedNum(s, b);
    NumBound(Stripped(s), b);
  }

  lemma {:induction false} NumAllOnes(s: seq<Byte>)
    requires forall i :: 0 <= i < |s| ==> s[i] == 255
    ensures Num(s, 256) == Pow(256, |s|) - 1
  {
    if |s| > 0 { NumAllOnes(s[..|s| - 1]); }
  }

  /** The largest number of m bytes. */
  ghost function AllOnes(m: nat): (s: seq<Byte>)
    ensures |s| == m && LeadingZeros(s) == 0 && Num(s, 256) == Pow(256, m) - 1
  {
    var s: seq<Byte> := seq(m, i => 255);
    LeadingZerosUnique(s, 0);
    NumAllOnes(s);
    s
  }

  /** The index stays inside the buffer for all sequences of m bytes exactly when 256^m <= 58^(m*138/100). */
  lemma RoomExact(m: nat)
    ensures AlwaysFits(m) <==> Pow(256, m) <= Pow(58, m * 138 / 100)
  {
    var p := Pow(58, m * 138 / 100);
    if Pow(256, m) <= p {
      forall data: seq<Byte> | |data| - LeadingZeros(data) == m ensures FitsRoom(data) {
        BelowLimit(data, 256, p);
      }
    } else {
      var data := AllOnes(m);
      assert Num(data, 256) >= p && !FitsRoom(data);
    }
  }

  /** It does for 38 bytes, an address with its version and checksum, and for every length from 70. */
  lemma RoomEnough(m: nat)
    requires m == 38 || m >= 70
    ensures AlwaysFits(m)
  {
    EnoughDigits(m, m * 138 / 100);
    RoomExact(m);
  }

  /** A single byte of 58 or more has no room for its second digit. */
  lemma RoomShort(b: Byte)
    requires b >= 58
    ensures !FitsRoom([b])
  {
    LeadingZerosUnique([b], 0);
    NumSnoc([], b, 256);
    assert [b] == [] + [b];
    assert Pow(58, 1) == 58;
  }

  /** Encoding data and decoding the text into a buffer of its size gives the data back. */
  method RoundTrip(data: seq<Byte>, b58: array<char>, bin: array<Byte>) returns (r: Outcome, ok: bool)
    requires |data| > 0 && |data| <= bin.Length
    modifies b58, bin
    ensures r == Encoded <==> FitsRoom(data) && |Encode(data)| < b58.Length
    ensures r == Encoded ==> ok && bin[..|data|] == data
  {
    var sz;
    ok := false;
    r, sz := B58Enc(b58, b58.Length, data);
    if r == Encoded {
      var t := b58[..sz - 1];
      assert t == Encode(data);
      DecodeEncode(data);
      NumBound(data, 256);
      ok, sz := B58ToBin(bin, |data|, t, |t|, t);
    }
  }
}

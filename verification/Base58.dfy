/** Base58 conversion in both directions, over the caller's buffers. */
module Base58 {
  import opened Arith
  import opened Digits
  import opened Bytes
  import opened Sequences

  /** The ordered alphabet: digits and letters without 0, I, O and l. */
  function CharOf(d: int): (c: char)
    requires 0 <= d < 58
  {
    if d < 9 then ('1' as int + d) as char
    else if d < 17 then ('A' as int + d - 9) as char
    else if d < 22 then ('J' as int + d - 17) as char
    else if d < 33 then ('P' as int + d - 22) as char
    else if d < 44 then ('a' as int + d - 33) as char
    else ('m' as int + d - 44) as char
  }

  /** The value of a character, or -1 for one that is not a digit. */
  function DigitOf(c: char): (d: int)
    ensures -1 <= d < 58
    ensures d == 0 <==> c == '1'
    ensures d >= 0 ==> CharOf(d) == c
  {
    var u := c as int;
    if '1' <= c <= '9' then u - '1' as int
    else if 'A' <= c <= 'H' then 9 + u - 'A' as int
    else if 'J' <= c <= 'N' then 17 + u - 'J' as int
    else if 'P' <= c <= 'Z' then 22 + u - 'P' as int
    else if 'a' <= c <= 'k' then 33 + u - 'a' as int
    else if 'm' <= c <= 'z' then 44 + u - 'm' as int
    else -1
  }

  lemma CharDigit(d: int)
    requires 0 <= d < 58
    ensures DigitOf(CharOf(d)) == d
  {}

  // ---- the two conversions as mathematics, and the alphabet written out ----

  const ALPHABET: string :=
    "123456789" + "ABCDEFGH" + "JKLMN" + "PQRSTUVWXYZ" + "abcdefghijk" + "mnopqrstuvwxyz"

  lemma AlphabetAt(d: int)
    requires 0 <= d < 58
    ensures |ALPHABET| == 58 && ALPHABET[d] == CharOf(d)
  {
    if d < 9 {
      assert ALPHABET[d] == "123456789"[d];
    } else if d < 17 {
      assert ALPHABET[d] == "ABCDEFGH"[d - 9];
    } else if d < 22 {
      assert ALPHABET[d] == "JKLMN"[d - 17];
    } else if d < 33 {
      assert ALPHABET[d] == "PQRSTUVWXYZ"[d - 22];
    } else if d < 44 {
      assert ALPHABET[d] == "abcdefghijk"[d - 33];
    } else {
      assert ALPHABET[d] == "mnopqrstuvwxyz"[d - 44];
    }
  }

  /** The places of a text's characters in the alphabet. */
  ghost predicate Places(t: string, p: seq<int>) {
    |p| == |t| && forall i :: 0 <= i < |t| ==> 0 <= p[i] < |ALPHABET| && t[i] == ALPHABET[p[i]]
  }

  ghost predicate ValidText(t: string) {
    forall i :: 0 <= i < |t| ==> DigitOf(t[i]) >= 0
  }

  ghost function TextDigits(t: string): (s: seq<int>)
    ensures |s| == |t|
    ensures ValidText(t) ==> AreDigits(s, 58)
  {
    seq(|t|, i requires 0 <= i < |t| => DigitOf(t[i]))
  }

  /** The places are the digits. */
  lemma PlacesAreDigits(t: string, p: seq<int>)
    requires Places(t, p)
    ensures ValidText(t) && TextDigits(t) == p
  {
    forall i | 0 <= i < |t| ensures DigitOf(t[i]) == p[i] {
      AlphabetAt(p[i]);
      CharDigit(p[i]);
    }
  }

  lemma DigitsArePlaces(t: string)
    requires ValidText(t)
    ensures Places(t, TextDigits(t))
  {
    forall i | 0 <= i < |t| ensures 0 <= TextDigits(t)[i] < |ALPHABET| && t[i] == ALPHABET[TextDigits(t)[i]] {
      AlphabetAt(DigitOf(t[i]));
    }
  }

  ghost function TextNum(t: string): int { Num(TextDigits(t), 58) }

  /** Number of leading '1's. */
  ghost function Ones(t: string): nat { LeadingZeros(TextDigits(t)) }

  /** A number in base b, behind as many zero digits as the source had. */
  ghost function Converted(s: seq<int>, a: int, b: int): (t: seq<int>)
    requires a > 1 && b > 1 && AreDigits(s, a)
    ensures AreDigits(t, b) && Num(t, b) == Num(s, a) && LeadingZeros(t) == LeadingZeros(s)
  {
    NumBound(s, a);
    var z, d := Repeat(0, LeadingZeros(s)), ToDigits(Num(s, a), b);
    NumLeadingZeros(z, d, b);
    LeadingZerosUnique(z + d, |z|);
    z + d
  }

  /** The bytes a valid base58 text stands for. */
  ghost function Decode(t: string): (d: seq<int>)
    requires ValidText(t)
    ensures AreDigits(d, 256) && Num(d, 256) == TextNum(t) && LeadingZeros(d) == Ones(t)
  {
    Converted(TextDigits(t), 58, 256)
  }

  /** A text converts into n bytes iff it is valid and its number is below 256^n. */
  ghost predicate Convertible(t: string, n: nat) {
    ValidText(t) && TextNum(t) < Pow(256, n)
  }

  /** A text is read exactly when all its characters stand in the alphabet and their places form a number that fits. */
  lemma ReadsPlaces(t: string, n: nat)
    ensures Convertible(t, n) <==> exists p: seq<int> :: Places(t, p) && Num(p, 58) < Pow(256, n)
    ensures Convertible(t, n) ==>
      exists p: seq<int> ::
        Places(t, p) && Num(p, 58) == Num(Decode(t), 256) && LeadingZeros(p) == LeadingZeros(Decode(t))
  {
    if ValidText(t) { DigitsArePlaces(t); }
    forall p: seq<int> | Places(t, p) ensures ValidText(t) && TextDigits(t) == p { PlacesAreDigits(t, p); }
  }

  lemma SameParts(s: seq<int>, t: seq<int>, n: nat)
    requires n <= |s| && n <= |t| && s[n..] == t[n..] && forall i :: 0 <= i < n ==> s[i] == t[i]
    ensures s == t
  {
    assert s[..n] == t[..n];
    assert s == s[..n] + s[n..] && t == t[..n] + t[n..];
  }

  /** Value and leading zeros determine a digit sequence. */
  lemma ConvertedUnique(s: seq<int>, t: seq<int>, b: int)
    requires b > 1 && AreDigits(s, b) && AreDigits(t, b)
    requires Num(s, b) == Num(t, b) && LeadingZeros(s) == LeadingZeros(t)
    ensures s == t
  {
    var n := LeadingZeros(s);
    assert s[n..] == t[n..] by {
      StrippedNum(s, b);
      StrippedNum(t, b);
      MinimalUnique(Stripped(s), Stripped(t), b);
    }
    SameParts(s, t, n);
  }

  ghost function TextOf(s: seq<int>): (t: string)
    requires AreDigits(s, 58)
    ensures |t| == |s| && ValidText(t) && TextDigits(t) == s
  {
    forall i | 0 <= i < |s| ensures DigitOf(CharOf(s[i])) == s[i] { CharDigit(s[i]); }
    seq(|s|, i requires 0 <= i < |s| => CharOf(s[i]))
  }

  /** The base58 text of a byte sequence. */
  ghost function Encode(data: seq<Byte>): (t: string)
    ensures ValidText(t)
  {
    TextOf(Converted(data, 256, 58))
  }

  lemma TextDigitsInjective(t: string, u: string)
    requires ValidText(t) && ValidText(u) && TextDigits(t) == TextDigits(u)
    ensures t == u
  {
    forall i | 0 <= i < |t| ensures t[i] == u[i] {
      assert TextDigits(t)[i] == TextDigits(u)[i];
    }
  }

  /**
   * The text of some bytes: the places of its characters in the alphabet form the same number, and as many of
   * them are zeros in front as bytes are. No other text has this.
   */
  lemma WritesPlaces(data: seq<Byte>, t: string)
    ensures t == Encode(data) <==> exists p: seq<int> ::
      Places(t, p) && Num(p, 58) == Num(data, 256) && LeadingZeros(p) == LeadingZeros(data)
  {
    var e := Encode(data);
    DigitsArePlaces(e);
    forall p: seq<int> | Places(t, p) && Num(p, 58) == Num(data, 256) && LeadingZeros(p) == LeadingZeros(data)
      ensures t == e
    {
      PlacesAreDigits(t, p);
      ConvertedUnique(p, TextDigits(e), 58);
      TextDigitsInjective(t, e);
    }
  }

  /** A byte below 58 but zero is written as the one character at that place, which stands for it. */
  lemma OneCharacter(d: Byte)
    requires 0 < d < 58
    ensures Encode([d]) == [ALPHABET[d]] && TextNum([ALPHABET[d]]) == d
  {
    assert Places([ALPHABET[d]], [d]) by { AlphabetAt(d); }
    assert [d][..0] == [];
    assert Num([d], 58) == d && Num([d], 256) == d;
    PlacesAreDigits([ALPHABET[d]], [d]);
    WritesPlaces([d], [ALPHABET[d]]);
  }

  /** Converting there and back is the identity. */
  lemma ConvertedBack(s: seq<int>, a: int, b: int)
    requires a > 1 && b > 1 && AreDigits(s, a)
    ensures Converted(Converted(s, a, b), b, a) == s
  {
    ConvertedUnique(Converted(Converted(s, a, b), b, a), s, a);
  }

  lemma DecodeEncode(data: seq<Byte>)
    ensures Decode(Encode(data)) == data
  {
    ConvertedBack(data, 256, 58);
  }

  lemma EncodeDecode(t: string)
    requires ValidText(t)
    ensures Encode(Decode(t)) == t
  {
    ConvertedBack(TextDigits(t), 58, 256);
    TextDigitsInjective(Encode(Decode(t)), t);
  }

  // ---- text to bytes ----

  /** The product of a word and 58 plus a carry splits into a word and a carry of six bits. */
  lemma WordSplit(x: Word32, c: int)
    requires 0 <= c < 58
    ensures 0 <= (x * 58 + c) / TWO32 % 0x40 < 58
    ensures x * 58 + c == (x * 58 + c) / TWO32 % 0x40 * TWO32 + (x * 58 + c) % TWO32
  {}

  /** One column of a multiply-and-add from the right. */
  lemma CarryColumn(x: int, y: int, c: int, c': int, p: int, w: int, m: int, lo: int, was: int, d: int)
    requires x * m + c == c' * w + y
    requires lo + c * p == was * m + d
    ensures (y * p + lo) + c' * (w * p) == (x * p + was) * m + d
  {
    assert (x * m + c) * p == (c' * w + y) * p;
    assert (x * m + c) * p == x * m * p + c * p;
    assert (c' * w + y) * p == c' * w * p + y * p;
    assert (x * p + was) * m == x * p * m + was * m;
  }

  lemma MulAddColumn(was: seq<int>, tail: seq<int>, y: int, c: int, c': int, d: int)
    requires |was| == |tail| + 1 && was[0] * 58 + c == c' * TWO32 + y
    requires Num(tail, TWO32) + c * Pow(TWO32, |tail|) == Num(was[1..], TWO32) * 58 + d
    ensures Num([y] + tail, TWO32) + c' * Pow(TWO32, |was|) == Num(was, TWO32) * 58 + d
  {
    assert was == [was[0]] + was[1..];
    NumCons(was[0], was[1..], TWO32);
    NumCons(y, tail, TWO32);
    CarryColumn(was[0], y, c, c', Pow(TWO32, |tail|), TWO32, 58, Num(tail, TWO32), Num(was[1..], TWO32), d);
  }

  /** Multiplies the big number in outi by 58 and adds a digit; the carry is what did not fit. */
  method MulAdd58(outi: array<Word32>, digit: int) returns (c: int)
    requires 0 <= digit < 58
    modifies outi
    ensures 0 <= c < 58
    ensures Num(outi[..], TWO32) + c * Pow(TWO32, outi.Length) == old(Num(outi[..], TWO32)) * 58 + digit
  {
    c := digit;
    var j := outi.Length;
    ghost var n, was := outi.Length, outi[..];
    while j > 0
      invariant 0 <= j <= n && 0 <= c < 58
      invariant outi[..j] == was[..j]
      invariant Num(outi[j..], TWO32) + c * Pow(TWO32, n - j) == Num(was[j..], TWO32) * 58 + digit
    {
      ghost var tail, c0 := outi[j..], c;
      j := j - 1;
      var t := outi[j] * 58 + c;
      WordSplit(outi[j], c);
      c := t / TWO32 % 0x40;
      outi[j] := t % TWO32;
      assert outi[j..] == [outi[j]] + tail;
      MulAddColumn(was[j..], tail, outi[j], c0, c, digit);
    }
    assert outi[0..] == outi[..] && was[0..] == was;
  }

  lemma PowWord(n: nat)
    ensures Pow(TWO32, n) == Pow(256, 4 * n)
  {
    assert Pow(256, 4) == TWO32 by { assert Pow(256, 2) == 65536; }
    PowPow(256, 4, n);
  }

  /** Number of words that hold n bytes. */
  function WordsFor(n: nat): nat { (n + 3) / 4 }

  /** The bound a first word with r bytes left must stay below: the test against zeromask. */
  function TopLimit(r: nat): (m: int)
    requires r < 4
    ensures m > 0
  {
    if r == 0 then TWO32 else if r == 1 then 0x100 else if r == 2 then 0x1_0000 else 0x100_0000
  }

  lemma TopLimitPow(n: nat, k: nat)
    requires WordsFor(n) == k + 1
    ensures Pow(256, n) == TopLimit(n % 4) * Pow(TWO32, k)
  {
    var r := if n % 4 == 0 then 4 else n % 4;
    assert Pow(256, r) == TopLimit(n % 4) by { assert Pow(256, 2) == 65536; }
    PowWord(k);
    assert n == r + 4 * k;
    PowAdd(256, r, 4 * k);
  }

  lemma SplitFirst(s: seq<int>, b: int)
    requires b > 0 && AreDigits(s, b) && |s| > 0
    ensures Num(s, b) == s[0] * Pow(b, |s| - 1) + Num(s[1..], b)
    ensures 0 <= Num(s[1..], b) < Pow(b, |s| - 1)
  {
    assert s == [s[0]] + s[1..];
    NumCons(s[0], s[1..], b);
    NumBound(s[1..], b);
  }

  lemma LeadingFits(x: int, m: int, p: int, lo: int)
    requires 0 <= lo < p
    ensures x * p + lo < m * p <==> x < m
  {
    if x < m {
      MulLe(x + 1, m, p);
      MulDist(x, 1, p);
    } else {
      MulLe(m, x, p);
    }
  }

  /** The first word tells whether a number fits n bytes. */
  lemma FitsBytes(outi: seq<Word32>, n: nat)
    requires |outi| == WordsFor(n) > 0
    ensures Num(outi, TWO32) < Pow(256, n) <==> outi[0] < TopLimit(n % 4)
  {
    var k := |outi| - 1;
    TopLimitPow(n, k);
    SplitFirst(outi, TWO32);
    LeadingFits(outi[0], TopLimit(n % 4), Pow(TWO32, k), Num(outi[1..], TWO32));
  }

  lemma TextSnoc(t: string, i: nat)
    requires i < |t| && DigitOf(t[i]) >= 0 && ValidText(t[..i])
    ensures ValidText(t[..i + 1])
    ensures TextNum(t[..i + 1]) == TextNum(t[..i]) * 58 + DigitOf(t[i])
  {
    assert t[..i + 1] == t[..i] + [t[i]];
    assert TextDigits(t[..i + 1]) == TextDigits(t[..i]) + [DigitOf(t[i])];
    NumSnoc(TextDigits(t[..i]), DigitOf(t[i]), 58);
  }

  lemma TextNumPrefix(t: string, i: nat)
    requires i <= |t| && ValidText(t)
    ensures TextNum(t[..i]) <= TextNum(t)
  {
    assert TextDigits(t) == TextDigits(t[..i]) + TextDigits(t[i..]);
    NumPrefix(TextDigits(t[..i]), TextDigits(t[i..]), 58);
  }

  /** The two size tests after each digit are exact. */
  lemma DigitFits(outi: seq<Word32>, n: nat, c: int, v: int)
    requires |outi| == WordsFor(n) && c >= 0
    requires v == Num(outi, TWO32) + c * Pow(TWO32, |outi|)
    ensures |outi| == 0 ==> v == c
    ensures v < Pow(256, n) <==> c == 0 && (|outi| == 0 || outi[0] < TopLimit(n % 4))
  {
    if c > 0 {
      PowWord(|outi|);
      NumBound(outi, TWO32);
      MulLe(1, c, Pow(TWO32, |outi|));
      PowMono(256, n, 4 * |outi|);
    } else if |outi| > 0 {
      FitsBytes(outi, n);
    }
  }

  /** Takes one digit into outi; false when the number no longer fits binsz bytes. */
  method TakeDigit(outi: array<Word32>, binsz: nat, digit: int) returns (ok: bool)
    requires outi.Length == WordsFor(binsz) && 0 <= digit < 58
    requires outi.Length == 0 ==> digit > 0
    modifies outi
    ensures ok <==> old(Num(outi[..], TWO32)) * 58 + digit < Pow(256, binsz)
    ensures ok ==> outi.Length > 0 && Num(outi[..], TWO32) == old(Num(outi[..], TWO32)) * 58 + digit
  {
    var c := MulAdd58(outi, digit);
    DigitFits(outi[..], binsz, c, old(Num(outi[..], TWO32)) * 58 + digit);
    if c != 0 {
      return false;
    }
    return outi[0] < TopLimit(binsz % 4);
  }

  /** Takes the character at i into outi; false when it is no digit or the number no longer fits. */
  method TakeChar(outi: array<Word32>, binsz: nat, t: string, i: nat) returns (ok: bool)
    requires outi.Length == WordsFor(binsz) && i < |t|
    requires Convertible(t[..i], binsz) && TextNum(t[..i]) == Num(outi[..], TWO32)
    requires outi.Length == 0 ==> t[i] != '1'
    modifies outi
    ensures ok <==> Convertible(t[..i + 1], binsz)
    ensures ok ==> outi.Length > 0 && TextNum(t[..i + 1]) == Num(outi[..], TWO32)
  {
    if t[i] as int >= 0x80 || DigitOf(t[i]) == -1 {
      assert DigitOf(t[..i + 1][i]) == -1;
      return false;
    }
    TextSnoc(t, i);
    ok := TakeDigit(outi, binsz, DigitOf(t[i]));
  }

  lemma NotConvertible(t: string, i: nat, n: nat)
    requires i <= |t| && !Convertible(t[..i], n)
    ensures !Convertible(t, n)
  {
    if ValidText(t) { TextNumPrefix(t, i); }
  }

  /** Reads the digits after the leading '1's into the zeroed words of outi. */
  method ReadDigits(outi: array<Word32>, binsz: nat, t: string, start: nat) returns (ok: bool)
    requires outi.Length == WordsFor(binsz)
    requires Num(outi[..], TWO32) == 0
    requires start <= |t| && (forall i :: 0 <= i < start ==> t[i] == '1')
    requires start < |t| ==> t[start] != '1'
    modifies outi
    ensures ok <==> Convertible(t, binsz)
    ensures ok ==> Num(outi[..], TWO32) == TextNum(t)
  {
    var i := start;
    assert Convertible(t[..start], binsz) && TextNum(t[..start]) == 0 by {
      NumZeros(TextDigits(t[..start]), 58);
      PowPos(256, binsz);
    }
    while i < |t|
      invariant start <= i <= |t|
      invariant outi.Length == 0 ==> i == start
      invariant Convertible(t[..i], binsz) && TextNum(t[..i]) == Num(outi[..], TWO32)
    {
      ok := TakeChar(outi, binsz, t, i);
      i := i + 1;
      if !ok {
        NotConvertible(t, i, binsz);
        return;
      }
    }
    assert t[..i] == t;
    return true;
  }

  /** The four bytes of a word, most significant first. */
  lemma WordBytesNum(w: Word32)
    ensures Num(Bytes32(w), 256) == w
  {
    var s := Bytes32(w);
    Bytes32Back(w);
    FourBytes(s[0], s[1], s[2], s[3]);
  }

  /** A word below 256^r is its last r bytes. */
  lemma LastBytes(w: Word32, r: nat)
    requires 0 < r < 4 && w < TopLimit(r)
    ensures Num(Bytes32(w)[4 - r..], 256) == w
  {
    var s := Bytes32(w);
    WordBytesNum(w);
    assert s == s[..4 - r] + s[4 - r..];
    NumLeadingZeros(s[..4 - r], s[4 - r..], 256);
  }

  /** Writes the last r bytes of a word that has no more. */
  method WriteTop(bin: array<Byte>, r: nat, w: Word32)
    requires 0 < r < 4 && w < TopLimit(r) && r <= bin.Length
    modifies bin
    ensures Num(bin[..r], 256) == w && bin[r..] == old(bin[r..])
  {
    var k := 0;
    if r == 3 { bin[k] := w / 0x1_0000 % 0x100; k := k + 1; }
    if r >= 2 { bin[k] := w / 0x100 % 0x100; k := k + 1; }
    bin[k] := w % 0x100;
    LastBytes(w, r);
    assert bin[..r] == Bytes32(w)[4 - r..];
  }

  /** Writes the four bytes of a word at position k. */
  method WriteWord(bin: array<Byte>, k: nat, w: Word32)
    requires k + 4 <= bin.Length
    modifies bin
    ensures Num(bin[..k + 4], 256) == old(Num(bin[..k], 256)) * TWO32 + w
    ensures bin[k + 4..] == old(bin[k + 4..])
  {
    bin[k] := w / 0x100_0000 % 0x100;
    bin[k + 1] := w / 0x1_0000 % 0x100;
    bin[k + 2] := w / 0x100 % 0x100;
    bin[k + 3] := w % 0x100;
    assert bin[..k + 4] == old(bin[..k]) + Bytes32(w);
    WordBytesNum(w);
    NumConcat(old(bin[..k]), Bytes32(w), 256);
    PowWord(1);
  }

  lemma PrefixNum(s: seq<Word32>, j: nat)
    requires j < |s|
    ensures Num(s[..j + 1], TWO32) == Num(s[..j], TWO32) * TWO32 + s[j]
  {
    assert s[..j + 1] == s[..j] + [s[j]];
    NumSnoc(s[..j], s[j], TWO32);
  }

  /** Writes the incomplete first word, if there is one. */
  method WriteFirst(bin: array<Byte>, binsz: nat, outi: seq<Word32>) returns (k: nat, j: nat)
    requires |outi| == WordsFor(binsz) && Num(outi, TWO32) < Pow(256, binsz)
    requires binsz <= bin.Length
    modifies bin
    ensures j <= |outi| && k + 4 * (|outi| - j) == binsz
    ensures Num(bin[..k], 256) == Num(outi[..j], TWO32)
    ensures bin[binsz..] == old(bin[binsz..])
  {
    k, j := binsz % 4, 0;
    if k != 0 {
      FitsBytes(outi, binsz);
      WriteTop(bin, k, outi[0]);
      j := 1;
      PrefixNum(outi, 0);
    }
  }

  /** Writes the bytes of the words to the first binsz bytes of bin. */
  method WriteBytes(bin: array<Byte>, binsz: nat, outi: seq<Word32>)
    requires |outi| == WordsFor(binsz) && Num(outi, TWO32) < Pow(256, binsz)
    requires binsz <= bin.Length
    modifies bin
    ensures Num(bin[..binsz], 256) == Num(outi, TWO32)
    ensures bin[binsz..] == old(bin[binsz..])
  {
    var k, j := WriteFirst(bin, binsz, outi);
    while j < |outi|
      invariant j <= |outi| && k + 4 * (|outi| - j) == binsz
      invariant Num(bin[..k], 256) == Num(outi[..j], TWO32)
      invariant bin[binsz..] == old(bin[binsz..])
    {
      WriteWord(bin, k, outi[j]);
      PrefixNum(outi, j);
      k, j := k + 4, j + 1;
    }
    assert outi[..j] == outi;
  }

  /** The characters up to the terminator. */
  ghost predicate Terminated(m: string) {
    exists i :: 0 <= i < |m| && m[i] == '\0'
  }

  method StrLen(m: string) returns (n: nat)
    requires Terminated(m)
    ensures n < |m| && m[n] == '\0' && forall i :: 0 <= i < n ==> m[i] != '\0'
  {
    n := 0;
    while m[n] != '\0'
      invariant n < |m| && forall i :: 0 <= i < n ==> m[i] != '\0'
      decreases |m| - n
    {
      n := n + 1;
    }
  }

  /** The text a call reads: b58sz characters, or up to the terminator when b58sz is 0. */
  ghost predicate IsText(m: string, b58sz: nat, t: string) {
    t <= m && if b58sz != 0 then |t| == b58sz else '\0' !in t && |t| < |m| && m[|t|] == '\0'
  }

  /** The words of a text's number, and the count of its leading '1's. */
  method ToWords(t: string, binsz: nat) returns (ok: bool, words: seq<Word32>, zerocount: nat)
    ensures ok <==> Convertible(t, binsz)
    ensures ok ==> |words| == WordsFor(binsz) && Num(words, TWO32) == TextNum(t) && zerocount == Ones(t)
  {
    var outi := new Word32[WordsFor(binsz)];
    for k := 0 to outi.Length
      invariant forall i :: 0 <= i < k ==> outi[i] == 0
    {
      outi[k] := 0;
    }
    NumZeros(outi[..], TWO32);
    zerocount := 0;
    while zerocount < |t| && t[zerocount] == '1'
      invariant zerocount <= |t| && forall i :: 0 <= i < zerocount ==> t[i] == '1'
    {
      zerocount := zerocount + 1;
    }
    LeadingZerosUnique(TextDigits(t), zerocount);
    ok := ReadDigits(outi, binsz, t, zerocount);
    words := outi[..];
  }

  /** The number of bytes after the leading zero bytes. */
  method CountBytes(bin: array<Byte>, binsz: nat) returns (newsz: nat)
    requires binsz <= bin.Length
    ensures newsz == binsz - LeadingZeros(bin[..binsz])
  {
    newsz := binsz;
    var i := 0;
    while i < binsz && bin[i] == 0
      invariant 0 <= i <= binsz && newsz == binsz - i
      invariant forall k :: 0 <= k < i ==> bin[k] == 0
    {
      newsz := newsz - 1;
      i := i + 1;
    }
    LeadingZerosUnique(bin[..binsz], i);
  }

  /** The right end of a zero-padded number is its exact conversion. */
  lemma RightAligned(b: seq<int>, d: seq<int>)
    requires AreDigits(b, 256) && AreDigits(d, 256) && Num(b, 256) == Num(d, 256)
    ensures |d| == |b| - LeadingZeros(b) + LeadingZeros(d)
    ensures |d| <= |b| ==> b[|b| - |d|..] == d
  {
    var y, z := LeadingZeros(d), LeadingZeros(b);
    assert b[z..] == d[y..] by {
      StrippedNum(b, 256);
      StrippedNum(d, 256);
      MinimalUnique(Stripped(b), Stripped(d), 256);
    }
    if |d| <= |b| {
      forall i | 0 <= i < |d| ensures b[|b| - |d| + i] == d[i] {
        if i >= y { assert b[z..][i - y] == d[y..][i - y]; }
      }
    }
  }

  /** Converts text to bytes at the right end of bin; newsz is the size of the exact conversion. */
  method B58ToBin(bin: array<Byte>, binsz: nat, b58: string, b58sz: nat, ghost t: string)
    returns (ok: bool, newsz: nat)
    requires binsz <= bin.Length
    requires IsText(b58, b58sz, t)
    modifies bin
    ensures ok <==> Convertible(t, binsz)
    ensures !ok ==> bin[..] == old(bin[..]) && newsz == binsz
    ensures ok ==> bin[binsz..] == old(bin[binsz..]) && Num(bin[..binsz], 256) == TextNum(t)
    ensures ok ==> newsz == |Decode(t)|
    ensures ok && newsz <= binsz ==> bin[binsz - newsz..binsz] == Decode(t)
  {
    newsz := binsz;
    var n := b58sz;
    if n == 0 { n := StrLen(b58); }
    assert b58[..n] == t;
    var outi, zerocount;
    ok, outi, zerocount := ToWords(b58[..n], binsz);
    if !ok { return; }
    WriteBytes(bin, binsz, outi);
    newsz := CountBytes(bin, binsz);
    newsz := newsz + zerocount;
    RightAligned(bin[..binsz], Decode(t));
  }
}

/** Base58Check and the account addresses built on it, for any checksum hash. */
module Account {
  import opened Arith
  import opened Digits
  import opened Bytes
  import opened Base58
  import B = Base58Encode

  type Digest = s: seq<Byte> | |s| == 32 witness seq(32, i => 0)

  const ADDRESS_VERSION: Byte := 0x42

  const KEY_LENGTH: nat := 33

  const ENCODED_LENGTH: nat := 52

  const DECODED_LENGTH: nat := 38

  datatype Option<T> = None | Some(value: T)

  /** The double hash, when the hash function does not fail. */
  function DoubleHash(sha: seq<Byte> -> Option<Digest>, data: seq<Byte>): Option<Digest> {
    var once := sha(data);
    if once.None? then None else sha(once.value)
  }

  /** The version, the data and the first four bytes of their double hash. */
  function Payload(sha: seq<Byte> -> Digest, ver: Byte, data: seq<Byte>): (p: seq<Byte>)
    ensures |p| == |data| + 5 && p[0] == ver && p[1..1 + |data|] == data
  {
    [ver] + data + sha(sha([ver] + data))[..4]
  }

  ghost function Address(sha: seq<Byte> -> Digest, key: seq<Byte>): string {
    Encode(Payload(sha, ADDRESS_VERSION, key))
  }

  // ---- every address of a key has 52 characters ----

  lemma LowerBound()
    ensures Pow(58, 51) <= 66 * Pow(256, 37)
  {
    var p := Pow(2, 272);
    assert Pow(58, 51) <= Pow(3, 17) * p by {
      assert Pow(58, 3) == 195112 by { assert Pow(58, 1) == 58; }
      assert Pow(2, 16) == 65536 by { assert Pow(2, 4) == 16; PowAdd(2, 4, 4); PowAdd(2, 8, 8); }
      PowPow(58, 3, 17);
      PowBaseMono(Pow(58, 3), 3 * Pow(2, 16), 17);
      PowMulBase(3, Pow(2, 16), 17);
      PowPow(2, 16, 17);
    }
    assert Pow(3, 17) == 129140163 by {
      assert Pow(3, 4) == 81 by { assert Pow(3, 2) == 9; }
      PowAdd(3, 4, 4);
      PowAdd(3, 8, 8);
      PowAdd(3, 16, 1);
    }
    assert Pow(256, 37) == 0x100_0000 * p by {
      assert Pow(2, 8) == 256 by { assert Pow(2, 4) == 16; PowAdd(2, 4, 4); }
      assert Pow(2, 24) == 0x100_0000 by { PowAdd(2, 8, 8); PowAdd(2, 16, 8); }
      PowPow(2, 8, 37);
      PowAdd(2, 24, 272);
    }
    PowPos(2, 272);
  }

  lemma DigitCount(s: seq<int>, b: int, k: nat)
    requires b > 1 && k > 0 && AreDigits(s, b) && (|s| > 0 ==> s[0] > 0)
    requires Pow(b, k - 1) <= Num(s, b) < Pow(b, k)
    ensures |s| == k
  {
    NumBound(s, b);
    if |s| < k {
      PowMono(b, |s|, k - 1);
    } else if |s| > k {
      NumLeading(s, b);
      PowMono(b, k, |s| - 1);
    }
  }

  /** A number of 38 bytes that starts with the address version has 52 base58 digits. */
  lemma AddressDigits(payload: seq<Byte>)
    requires |payload| == DECODED_LENGTH && payload[0] == ADDRESS_VERSION
    ensures |Encode(payload)| == ENCODED_LENGTH && Ones(Encode(payload)) == 0
  {
    LeadingZerosUnique(payload, 0);
    var n := Num(payload, 256);
    assert Pow(58, 51) <= n < Pow(58, 52) by {
      LowerBound();
      B.EnoughDigits(38, 52);
      SplitFirst(payload, 256);
      NumBound(payload, 256);
    }
    DigitCount(ToDigits(n, 58), 58, 52);
  }

  /** Every 33-byte key has an address of exactly 52 characters, none of them a leading '1'. */
  lemma AddressLength(sha: seq<Byte> -> Digest, key: seq<Byte>)
    requires |key| == 33
    ensures |Address(sha, key)| == 52 && Ones(Address(sha, key)) == 0
  {
    AddressDigits(Payload(sha, ADDRESS_VERSION, key));
  }

  /** An address stands for the byte 0x42, the key, and the first four bytes of the hash of their hash. */
  lemma AddressIs(sha: seq<Byte> -> Digest, key: seq<Byte>, t: string)
    ensures t == Address(sha, key) <==>
            ValidText(t) && Decode(t) == [0x42] + key + sha(sha([0x42] + key))[..4]
  {
    DecodeEncode(Payload(sha, ADDRESS_VERSION, key));
    if ValidText(t) { EncodeDecode(t); }
  }

  /** Different keys have different addresses. */
  lemma AddressInjective(sha: seq<Byte> -> Digest, k: seq<Byte>, l: seq<Byte>)
    requires Address(sha, k) == Address(sha, l)
    ensures k == l
  {
    var p, q := Payload(sha, ADDRESS_VERSION, k), Payload(sha, ADDRESS_VERSION, l);
    DecodeEncode(p);
    DecodeEncode(q);
  }

  // ---- checking a decoded text ----

  /** The version byte, a negative error code, or a read outside the buffer or the text. */
  datatype Checked = Version(v: Byte) | Failed(code: int) | Outside

  ghost predicate ChecksumMatches(sha: seq<Byte> -> Option<Digest>, bin: seq<Byte>, binsz: nat)
    requires 4 <= binsz <= |bin|
  {
    var hash := DoubleHash(sha, bin[..binsz - 4]);
    hash.Some? && bin[binsz - 4..binsz] == hash.value[..4]
  }

  /** What the check answers, the zero bytes and '1's counted as a whole. */
  ghost function CheckOf(sha: seq<Byte> -> Option<Digest>, bin: seq<Byte>, binsz: nat, b58: string): Checked {
    var zeros, ones := LeadingZeros(bin), Ones(b58);
    if binsz < 4 then Failed(-4)
    else if binsz > |bin| then Outside
    else if DoubleHash(sha, bin[..binsz - 4]).None? then Failed(-2)
    else if !ChecksumMatches(sha, bin, binsz) then Failed(-1)
    else if zeros == |bin| <= ones || ones == |b58| <= zeros then Outside
    else if zeros != ones then Failed(-3)
    else Version(bin[0])
  }

  lemma {:induction false} PrefixZeros(s: seq<int>, n: nat)
    requires n <= |s| && forall i :: 0 <= i < n ==> s[i] == 0
    ensures n <= LeadingZeros(s)
  {
    if n > 0 { PrefixZeros(s[1..], n - 1); }
  }

  /** Compares the checksum, then runs over the zero bytes and the '1's together. */
  method B58Check(sha: seq<Byte> -> Option<Digest>, bin: seq<Byte>, binsz: nat, b58: string) returns (r: Checked)
    ensures r == CheckOf(sha, bin, binsz, b58)
  {
    if binsz < 4 { return Failed(-4); }
    if binsz > |bin| { return Outside; }
    var hash := DoubleHash(sha, bin[..binsz - 4]);
    if hash.None? { return Failed(-2); }
    if bin[binsz - 4..binsz] != hash.value[..4] { return Failed(-1); }
    var i := 0;
    while i < |bin| && bin[i] == 0 && i < |b58| && b58[i] == '1'
      invariant i <= |bin| && i <= |b58|
      invariant forall k :: 0 <= k < i ==> bin[k] == 0 && b58[k] == '1'
    {
      i := i + 1;
    }
    assert i <= LeadingZeros(bin) && i <= Ones(b58) by { PrefixZeros(bin, i); PrefixZeros(TextDigits(b58), i); }
    if i == |bin| || i == |b58| { return Outside; }
    if bin[i] != 0 { LeadingZerosUnique(bin, i); }
    if b58[i] != '1' { LeadingZerosUnique(TextDigits(b58), i); }
    if bin[i] == 0 || b58[i] == '1' { return Failed(-3); }
    return Version(bin[0]);
  }

  /** Zero bytes and ones run side by side up to place k. */
  predicate RunsTo(bin: seq<Byte>, t: string, k: nat) {
    k < |bin| && k < |t| && forall i :: 0 <= i < k ==> bin[i] == 0 && t[i] == '1'
  }

  lemma RunEnds(bin: seq<Byte>, t: string, k: nat)
    requires RunsTo(bin, t, k)
    ensures bin[k] != 0 ==> k == LeadingZeros(bin) <= Ones(t)
    ensures t[k] != '1' ==> k == Ones(t) <= LeadingZeros(bin)
    ensures bin[k] == 0 ==> LeadingZeros(bin) > k
    ensures t[k] == '1' ==> Ones(t) > k
  {
    var d := TextDigits(t);
    assert forall i :: 0 <= i < k ==> d[i] == 0;
    PrefixZeros(bin, k);
    PrefixZeros(d, k);
    if bin[k] != 0 { LeadingZerosUnique(bin, k); } else { PrefixZeros(bin, k + 1); }
    if t[k] != '1' { LeadingZerosUnique(d, k); } else { PrefixZeros(d, k + 1); }
  }

  /** The answers, for bytes whose hashes do not fail: the codes, and the version when both runs end together. */
  lemma CheckAnswers(sha: seq<Byte> -> Option<Digest>, bin: seq<Byte>, n: nat, t: string, a: Digest, b: Digest, k: nat)
    requires n <= |bin| && RunsTo(bin, t, k) && (bin[k] != 0 || t[k] != '1')
    requires n >= 4 ==> sha(bin[..n - 4]) == Some(a) && sha(a) == Some(b)
    ensures CheckOf(sha, bin, n, t) ==
      if n < 4 then Failed(-4)
      else if bin[n - 4..n] != b[..4] then Failed(-1)
      else if bin[k] == 0 || t[k] == '1' then Failed(-3)
      else Version(bin[0])
  {
    RunEnds(bin, t, k);
  }

  /** A hash that fails is answered by -2. */
  lemma CheckFails(sha: seq<Byte> -> Option<Digest>, bin: seq<Byte>, n: nat, t: string)
    requires 4 <= n <= |bin|
    ensures CheckOf(sha, bin, n, t) == Failed(-2) <==>
            sha(bin[..n - 4]).None? || sha(sha(bin[..n - 4]).value).None?
  {}

  // ---- encoding and decoding ----

  /** Encodes a version, data and the start of their double hash; false with size 0 when the hash fails. */
  method B58CheckEnc(b58: array<char>, b58sz: nat, ver: Byte, sha: seq<Byte> -> Option<Digest>, data: seq<Byte>)
    returns (hashed: bool, r: B.Outcome, newsz: nat)
    requires b58sz <= b58.Length
    modifies b58
    ensures hashed <==> DoubleHash(sha, [ver] + data).Some?
    ensures !hashed ==> newsz == 0 && b58[..] == old(b58[..])
    ensures hashed ==>
      var p := [ver] + data + DoubleHash(sha, [ver] + data).value[..4];
      && (r == B.OutOfBounds <==> !B.FitsRoom(p))
      && (r == B.TooSmall <==> B.FitsRoom(p) && b58sz <= |Encode(p)|)
      && (r != B.Encoded ==> b58[..] == old(b58[..]))
      && (r == B.Encoded ==> newsz == |Encode(p)| + 1 && b58[..newsz] == Encode(p) + ['\0'])
  {
    var buf := [ver] + data;
    var hash := DoubleHash(sha, buf);
    if hash.None? { return false, B.TooSmall, 0; }
    r, newsz := B.B58Enc(b58, b58sz, buf + hash.value[..4]);
    hashed := true;
  }

  /** Writes the address of the data; for a key it needs room for 52 characters and a terminator. */
  method EncodeAddress(sha: seq<Byte> -> Digest, data: seq<Byte>, out: array<char>, outsize: nat)
    returns (r: B.Outcome)
    requires outsize <= out.Length
    modifies out
    ensures r == B.OutOfBounds <==> !B.FitsRoom(Payload(sha, ADDRESS_VERSION, data))
    ensures r == B.Encoded ==>
      |Address(sha, data)| < outsize && out[..|Address(sha, data)| + 1] == Address(sha, data) + ['\0']
    ensures r == B.TooSmall ==> outsize <= |Address(sha, data)|
    ensures r != B.Encoded ==> out[..] == old(out[..])
    ensures |data| == KEY_LENGTH ==>
      |Address(sha, data)| == ENCODED_LENGTH && r == if outsize > ENCODED_LENGTH then B.Encoded else B.TooSmall
  {
    ghost var p := Payload(sha, ADDRESS_VERSION, data);
    if |data| == KEY_LENGTH {
      AddressLength(sha, data);
      LeadingZerosUnique(p, 0);
      B.RoomEnough(38);
      assert B.FitsRoom(p);
    }
    var hashed, outcome, sz := B58CheckEnc(out, outsize, ADDRESS_VERSION, x => Some(sha(x)), data);
    r := outcome;
  }

  datatype Decoded = Accepted | Rejected | Overrun

  ghost predicate IsAddressOf(sha: seq<Byte> -> Digest, t: string, key: seq<Byte>) {
    |key| == KEY_LENGTH && t == Address(sha, key)
  }

  /** What converting t into the 38-byte buffer leaves there. */
  ghost predicate Holds(bin: seq<Byte>, size: nat, t: string) {
    && |bin| == DECODED_LENGTH && ValidText(t) && Num(bin, 256) == TextNum(t) && size == |Decode(t)|
    && (size <= |bin| ==> bin[|bin| - size..] == Decode(t))
  }

  /** A buffer that starts with the address version and matches its checksum is a payload. */
  lemma MatchingIsPayload(sha: seq<Byte> -> Digest, hash: seq<Byte> -> Option<Digest>, bin: seq<Byte>)
    requires forall x :: hash(x) == Some(sha(x))
    requires |bin| == DECODED_LENGTH && bin[0] == ADDRESS_VERSION
    ensures ChecksumMatches(hash, bin, DECODED_LENGTH) <==> bin == Payload(sha, ADDRESS_VERSION, bin[1..34])
  {
    assert bin[..34] == [ADDRESS_VERSION] + bin[1..34];
    assert bin == bin[..34] + bin[34..38];
    assert DoubleHash(hash, bin[..34]) == Some(sha(sha(bin[..34])));
  }

  lemma OnesOfPrefix(m: string, t: string)
    requires t <= m && Ones(t) < |t|
    ensures Ones(m) == Ones(t)
  {
    var ones := Ones(t);
    assert forall i :: 0 <= i <= ones ==> TextDigits(m)[i] == TextDigits(t)[i];
    LeadingZerosUnique(TextDigits(m), ones);
  }

  lemma NothingLeft(s: seq<int>, b: int)
    requires b > 1 && AreDigits(s, b)
    ensures Num(s, b) == 0 <==> LeadingZeros(s) == |s|
  {
    StrippedNum(s, b);
    if LeadingZeros(s) < |s| {
      NumLeading(Stripped(s), b);
      PowPos(b, |Stripped(s)| - 1);
    }
  }

  /** The sizes of a text, its bytes and the buffer, by their leading zeros. */
  lemma Extents(bin: seq<Byte>, size: nat, t: string)
    requires Holds(bin, size, t) && |t| >= ENCODED_LENGTH
    ensures size == |bin| - LeadingZeros(bin) + Ones(t)
    ensures size <= DECODED_LENGTH ==> Ones(t) < |t| && Ones(t) <= LeadingZeros(bin) < |bin|
    ensures LeadingZeros(bin) == 0 ==> Ones(t) == 0 || size > DECODED_LENGTH
  {
    RightAligned(bin, Decode(t));
    NothingLeft(bin, 256);
    NothingLeft(TextDigits(t), 58);
  }

  lemma FirstZero(s: seq<int>)
    requires |s| > 0
    ensures s[0] == 0 <==> LeadingZeros(s) > 0
  {}

  /** Zero bytes and '1's agree whenever the first byte is not zero and nothing was cut off. */
  lemma VersionFirst(hash: seq<Byte> -> Option<Digest>, bin: seq<Byte>, size: nat, m: string)
    requires |bin| == DECODED_LENGTH && size == |bin| - LeadingZeros(bin) + Ones(m) <= |bin|
    requires Ones(m) < |m|
    ensures LeadingZeros(bin) < |bin| ==> CheckOf(hash, bin, size, m) != Outside
    ensures CheckOf(hash, bin, size, m) == Version(ADDRESS_VERSION) <==>
            size == |bin| && bin[0] == ADDRESS_VERSION && ChecksumMatches(hash, bin, |bin|)
  {
    FirstZero(bin);
  }

  /** The check passes with the address version exactly for buffers that hold a key's payload. */
  lemma CheckExact(sha: seq<Byte> -> Digest, hash: seq<Byte> -> Option<Digest>,
                   bin: seq<Byte>, size: nat, m: string, t: string)
    requires forall x :: hash(x) == Some(sha(x))
    requires Holds(bin, size, t) && t <= m && |t| >= ENCODED_LENGTH
    ensures CheckOf(hash, bin, size, m) == Outside <==> size > DECODED_LENGTH
    ensures CheckOf(hash, bin, size, m) == Version(ADDRESS_VERSION) <==>
            size == DECODED_LENGTH && bin == Payload(sha, ADDRESS_VERSION, bin[1..1 + KEY_LENGTH])
  {
    Extents(bin, size, t);
    if size <= DECODED_LENGTH {
      OnesOfPrefix(m, t);
      VersionFirst(hash, bin, size, m);
      if bin[0] == ADDRESS_VERSION { MatchingIsPayload(sha, hash, bin); }
    }
  }

  /** The address of a key decodes to its payload, and a text that decodes to a payload is an address. */
  lemma AddressPayload(sha: seq<Byte> -> Digest, t: string, key: seq<Byte>)
    requires |key| == KEY_LENGTH
    ensures t == Address(sha, key) <==> ValidText(t) && Decode(t) == Payload(sha, ADDRESS_VERSION, key)
    ensures t == Address(sha, key) ==> |t| == ENCODED_LENGTH && Convertible(t, DECODED_LENGTH)
  {
    var p := Payload(sha, ADDRESS_VERSION, key);
    DecodeEncode(p);
    if ValidText(t) && Decode(t) == p { EncodeDecode(t); }
    if t == Encode(p) {
      AddressLength(sha, key);
      NumBound(p, 256);
    }
  }

  ghost predicate IsAddress(sha: seq<Byte> -> Digest, t: string) {
    exists key: seq<Byte> :: IsAddressOf(sha, t, key)
  }

  lemma AddressConverts(sha: seq<Byte> -> Digest, t: string)
    requires IsAddress(sha, t)
    ensures |t| == ENCODED_LENGTH && Convertible(t, DECODED_LENGTH) && |Decode(t)| == DECODED_LENGTH
  {
    var key: seq<Byte> :| IsAddressOf(sha, t, key);
    AddressPayload(sha, t, key);
  }

  lemma AddressIffPayload(sha: seq<Byte> -> Digest, bin: seq<Byte>, t: string)
    requires ValidText(t) && bin == Decode(t) && |bin| == DECODED_LENGTH
    ensures IsAddress(sha, t) <==> bin == Payload(sha, ADDRESS_VERSION, bin[1..1 + KEY_LENGTH])
    ensures IsAddress(sha, t) ==> IsAddressOf(sha, t, bin[1..1 + KEY_LENGTH])
  {
    if bin == Payload(sha, ADDRESS_VERSION, bin[1..1 + KEY_LENGTH]) {
      AddressPayload(sha, t, bin[1..1 + KEY_LENGTH]);
      assert IsAddressOf(sha, t, bin[1..1 + KEY_LENGTH]);
    }
    if IsAddress(sha, t) {
      var key: seq<Byte> :| IsAddressOf(sha, t, key);
      AddressPayload(sha, t, key);
    }
  }

  lemma WholeBuffer(bin: seq<Byte>, size: nat, t: string)
    requires Holds(bin, size, t) && size == DECODED_LENGTH
    ensures bin == Decode(t)
  {
    assert bin == bin[0..];
  }

  lemma AcceptExact(sha: seq<Byte> -> Digest, hash: seq<Byte> -> Option<Digest>,
                    bin: seq<Byte>, size: nat, m: string, t: string)
    requires forall x :: hash(x) == Some(sha(x))
    requires Holds(bin, size, t) && t <= m && |t| >= ENCODED_LENGTH
    ensures CheckOf(hash, bin, size, m) == Outside <==> size > DECODED_LENGTH
    ensures CheckOf(hash, bin, size, m) == Version(ADDRESS_VERSION) <==> IsAddress(sha, t)
    ensures IsAddress(sha, t) ==> IsAddressOf(sha, t, bin[1..1 + KEY_LENGTH])
  {
    CheckExact(sha, hash, bin, size, m, t);
    if size == DECODED_LENGTH {
      WholeBuffer(bin, size, t);
      AddressIffPayload(sha, bin, t);
    } else if IsAddress(sha, t) {
      AddressConverts(sha, t);
    }
  }

  /** Converts and checks the text, leaving the key behind the version byte of a fresh buffer. */
  method CheckAddress(sha: seq<Byte> -> Digest, encoded: string, encsize: nat)
    returns (r: Decoded, decoded: array<Byte>)
    requires ENCODED_LENGTH <= encsize <= |encoded|
    ensures fresh(decoded) && decoded.Length == DECODED_LENGTH
    ensures r == Accepted <==> IsAddress(sha, encoded[..encsize])
    ensures r == Accepted ==> IsAddressOf(sha, encoded[..encsize], decoded[1..1 + KEY_LENGTH])
    ensures r == Overrun <==>
            Convertible(encoded[..encsize], DECODED_LENGTH) && |Decode(encoded[..encsize])| > DECODED_LENGTH
  {
    ghost var t := encoded[..encsize];
    decoded := new Byte[DECODED_LENGTH];
    var ok, decsize := B58ToBin(decoded, DECODED_LENGTH, encoded, encsize, t);
    if !ok {
      if IsAddress(sha, t) { AddressConverts(sha, t); }
      return Rejected, decoded;
    }
    assert decoded[..] == decoded[..DECODED_LENGTH];
    var hash := x => Some(sha(x));
    AcceptExact(sha, hash, decoded[..], decsize, encoded, t);
    var res := B58Check(hash, decoded[..], decsize, encoded);
    r := if res == Outside then Overrun else if res != Version(ADDRESS_VERSION) then Rejected else Accepted;
  }

  method CopyKey(out: array<Byte>, decoded: array<Byte>)
    requires out != decoded && out.Length >= KEY_LENGTH && decoded.Length == DECODED_LENGTH
    modifies out
    ensures out[..KEY_LENGTH] == decoded[1..1 + KEY_LENGTH] && out[KEY_LENGTH..] == old(out[KEY_LENGTH..])
  {
    for k := 0 to KEY_LENGTH
      invariant out[..k] == decoded[1..1 + k] && out[KEY_LENGTH..] == old(out[KEY_LENGTH..])
    {
      out[k] := decoded[1 + k];
    }
  }

  /** Reads an address into out: it accepts exactly the addresses of keys. */
  method DecodeAddress(sha: seq<Byte> -> Digest, encoded: string, encsize: nat, out: array<Byte>, outsize: nat)
    returns (r: Decoded)
    requires encsize <= |encoded| && outsize <= out.Length
    modifies out
    ensures r == Accepted <==> outsize >= KEY_LENGTH && IsAddress(sha, encoded[..encsize])
    ensures r == Accepted ==> IsAddressOf(sha, encoded[..encsize], out[..KEY_LENGTH])
    ensures r == Accepted ==> out[KEY_LENGTH..] == old(out[KEY_LENGTH..])
    ensures r == Overrun <==>
      && outsize >= KEY_LENGTH && encsize >= ENCODED_LENGTH
      && Convertible(encoded[..encsize], DECODED_LENGTH) && |Decode(encoded[..encsize])| > DECODED_LENGTH
    ensures r != Accepted ==> out[..] == old(out[..])
  {
    if encsize < ENCODED_LENGTH || outsize < KEY_LENGTH {
      if IsAddress(sha, encoded[..encsize]) { AddressConverts(sha, encoded[..encsize]); }
      return Rejected;
    }
    var decoded;
    r, decoded := CheckAddress(sha, encoded, encsize);
    if r != Accepted { return; }
    CopyKey(out, decoded);
  }

  /** No address starts with '1', so a text that does is never accepted. */
  lemma NoLeadingOne(sha: seq<Byte> -> Digest, t: string)
    requires IsAddress(sha, t)
    ensures |t| > 0 && t[0] != '1'
  {
    var key: seq<Byte> :| IsAddressOf(sha, t, key);
    AddressLength(sha, key);
    assert TextDigits(t)[0] != 0;
  }

  /** The buffer is only read past its end for texts that start with '1'. */
  lemma OverrunNeedsOne(t: string)
    requires Convertible(t, DECODED_LENGTH) && |Decode(t)| > DECODED_LENGTH
    ensures t[0] == '1'
  {
    if Ones(t) == 0 {
      NumLeading(Decode(t), 256);
      PowMono(256, DECODED_LENGTH, |Decode(t)| - 1);
    }
    assert TextDigits(t)[0] == 0;
  }

  /** 52 times the character 1 is such a text: its number is zero, so it converts, and it stands for 52 zero bytes. */
  lemma OverrunWitness(t: string)
    requires |t| == ENCODED_LENGTH && forall i :: 0 <= i < |t| ==> t[i] == '1'
    ensures Convertible(t, DECODED_LENGTH) && |Decode(t)| > DECODED_LENGTH
  {
    NumZeros(TextDigits(t), 58);
    PowPos(256, DECODED_LENGTH);
    LeadingZerosUnique(TextDigits(t), |t|);
  }
}

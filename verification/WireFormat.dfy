/**
 * The bytes themselves, in numbers: what the encoder writes for every kind of field, and as what the
 * decoder reads given bytes. No wire type, digit order or default is named here; they are written out.
 */
module WireFormat {
  import opened Arith
  import opened Bytes
  import opened Wire
  import opened Schema
  import opened Tolerance
  import R = RoundTrip

  // ---- varints ----

  lemma DivTwice(v: nat, a: nat, b: nat)
    requires a > 0 && b > 0
    ensures a * b > 0 && v / (a * b) == v / a / b
  {
    MulPos(a, b);
    DivModFacts(v, a);
    DivModFacts(v / a, b);
    var q, r, s := v / a / b, v / a % b, v % a;
    MulDist(q * b, r, a);
    MulAssoc(q, b, a);
    MulLe(r + 1, b, a);
    MulDist(r, 1, a);
    MulNonneg(r, a);
    DivModUnique(v, a * b, q, r * a + s);
  }

  /** Byte i of a varint is digit i of the number in base 128, and 128 more in all bytes but the last. */
  lemma {:induction false} VarintDigits(v: nat, i: nat)
    requires i < |EncVarint(v)|
    ensures Pow(128, i) > 0
    ensures EncVarint(v)[i] == v / Pow(128, i) % 128 + (if i + 1 < |EncVarint(v)| then 128 else 0)
    decreases i
  {
    PowPos(128, i);
    if i == 0 {
      assert v / 1 == v;
    } else {
      VarintDigits(v / 128, i - 1);
      PowPos(128, i - 1);
      DivTwice(v, 128, Pow(128, i - 1));
    }
  }

  /** There are as many bytes as digits. */
  lemma {:induction false} VarintLength(v: nat)
    ensures var n := |EncVarint(v)|; v < Pow(128, n) && (n > 1 ==> Pow(128, n - 1) <= v)
    decreases v
  {
    var n := |EncVarint(v)|;
    if v < 128 {
      assert Pow(128, 1) == 128 * Pow(128, 0);
    } else {
      VarintLength(v / 128);
    }
  }

  /** The bytes of one varint: the top bit is set in all but the last. */
  predicate OneVarint(g: seq<Byte>) {
    |g| > 0 && (forall i :: 0 <= i < |g| - 1 ==> g[i] >= 128) && g[|g| - 1] < 128
  }

  /** What is split off the front of some bytes is one varint, and any varint is. */
  lemma {:induction false} GroupsExact(s: seq<Byte>, g: seq<Byte>, rest: seq<Byte>)
    ensures Groups(s) == Good(g, rest) <==> OneVarint(g) && s == g + rest
    decreases |s|
  {
    if |s| == 0 {
    } else if s[0] < 128 {
      if OneVarint(g) && s == g + rest {
        assert g[0] == s[0];
        assert g == [s[0]] && rest == s[1..];
      }
    } else {
      if |g| > 0 { GroupsExact(s[1..], g[1..], rest); }
      var p := Groups(s[1..]);
      if OneVarint(g) && s == g + rest {
        assert g[0] == s[0] && |g| > 1;
        assert s[1..] == g[1..] + rest && g == [g[0]] + g[1..];
        assert OneVarint(g[1..]);
      }
      if Groups(s) == Good(g, rest) {
        assert g == [s[0]] + p.value && g[1..] == p.value;
        assert s == [s[0]] + s[1..] && s == g + rest;
      }
    }
  }

  /** Digit i in base 128 of the number read is byte i without its top bit. */
  lemma {:induction false} GroupDigits(g: seq<Byte>, i: nat)
    requires i < |g|
    ensures Pow(128, i) > 0 && GroupValue(g) / Pow(128, i) % 128 == g[i] % 128
    decreases i
  {
    PowPos(128, i);
    if i == 0 {
      assert GroupValue(g) / 1 == GroupValue(g);
    } else {
      GroupDigits(g[1..], i - 1);
      PowPos(128, i - 1);
      DivTwice(GroupValue(g), 128, Pow(128, i - 1));
    }
  }

  lemma {:induction false} GroupBound(g: seq<Byte>)
    ensures GroupValue(g) < Pow(128, |g|)
  {
    if |g| > 0 { GroupBound(g[1..]); }
  }

  lemma {:induction false} ScalePow(k: nat)
    ensures Scale(1, k) == Pow(128, k)
  {
    if k > 0 { ScalePow(k - 1); }
  }

  lemma Spread(d: nat, q: nat)
    ensures d * (8 * 0x1_0000_0000 * q) == 8 * d * q * 0x1_0000_0000
  {}

  /** From the fifth byte on the groups are multiples of 2^32. */
  lemma HighGroup(v: nat, d: nat, k: nat)
    requires k >= 5
    ensures (v + d * Pow(128, k)) % 0x1_0000_0000 == v % 0x1_0000_0000
  {
    PowAdd(128, 5, k - 5);
    PowPos(128, k - 5);
    assert Pow(128, 5) == 8 * 0x1_0000_0000 by { ScalePow(5); Two64(); }
    var m := 8 * d * Pow(128, k - 5);
    assert d * Pow(128, k) == m * 0x1_0000_0000 by { Spread(d, Pow(128, k - 5)); }
    DivModFacts(v, 0x1_0000_0000);
    DivModUnique(v + m * 0x1_0000_0000, 0x1_0000_0000, v / 0x1_0000_0000 + m, v % 0x1_0000_0000);
  }

  /** A 32-bit varint that is accepted gives the low 32 bits of its number. */
  lemma {:induction false} WideIsLow(g: seq<Byte>)
    requires WideBytes(g).Low?
    ensures WideBytes(g).word == GroupValue(g) % 0x1_0000_0000
  {
    if |g| > 0 {
      var k := |g| - 1;
      var h, b := g[..k], g[k];
      WideIsLow(h);
      assert g == h + [b];
      GroupValueSnoc(h, b);
      if k < 5 {
        LowSum(GroupValue(h), b, k, h);
      } else {
        ScaleIs(b % 128, k);
        ScalePow(k);
        HighGroup(GroupValue(h), b % 128, k);
      }
    }
  }

  /** A byte behind the fifth that repeats zeros, or the sign of a 32-bit number. */
  predicate ExtendsAt(g: seq<Byte>, i: nat)
    requires 5 <= i < |g|
  {
    || g[i] % 128 == 0
    || (GroupValue(g[..5]) % 0x1_0000_0000 >= 0x8000_0000 && g[i] == if i < 9 then 0xFF else 0x01)
  }

  predicate OnlyExtends(g: seq<Byte>) {
    forall i :: 5 <= i < |g| ==> ExtendsAt(g, i)
  }

  lemma {:induction false} WideExtends(g: seq<Byte>)
    ensures WideBytes(g).Low? <==> OnlyExtends(g)
    ensures WideBytes(g).Low? && |g| >= 5 ==> WideBytes(g).word == GroupValue(g[..5]) % 0x1_0000_0000
  {
    if |g| <= 5 {
      if |g| > 0 { WideExtends(g[..|g| - 1]); }
      if WideBytes(g).Low? { WideIsLow(g); }
      assert |g| == 5 ==> g[..5] == g;
    } else {
      var k := |g| - 1;
      var h := g[..k];
      WideExtends(h);
      assert h[..5] == g[..5];
      assert forall i :: 5 <= i < k ==> ExtendsAt(g, i) == ExtendsAt(h, i);
      assert OnlyExtends(g) <==> (OnlyExtends(h) && ExtendsAt(g, k));
    }
  }

  lemma FifthFits(g: seq<Byte>)
    requires OneVarint(g)
    ensures LastFits(g[|g| - 1], 7 * |g|) <==> (|g| == 5 ==> g[4] < 16)
  {}

  /**
   * Which varints of up to 37 bytes the 32-bit decoder reads, and as what: the low 32 bits of the number, if the
   * fifth byte, when it is the last, has no bit above them, and the later ones only extend it.
   */
  lemma ReadsUpTo32(s: seq<Byte>, g: seq<Byte>, rest: seq<Byte>)
    requires OneVarint(g) && |g| <= 37 && s == g + rest
    ensures DecVarint32(s) ==
            if OnlyExtends(g) && (|g| == 5 ==> g[4] < 16) then Good(GroupValue(g) % 0x1_0000_0000, rest) else Bad
  {
    hide Groups, GroupValue, WideBytes, OnlyExtends, DecVarint32;
    GroupsExact(s, g, rest);
    SameReading(s);
    WideExtends(g);
    FifthFits(g);
    if WideBytes(g).Low? { WideIsLow(g); }
  }

  // ---- fixed-width numbers ----

  /** The least significant byte comes first. */
  lemma {:induction false} LittleEndianDigits(v: nat, n: nat, i: nat)
    requires i < n
    ensures Pow(256, i) > 0 && LittleEndian(v, n)[i] == v / Pow(256, i) % 256
    decreases i
  {
    PowPos(256, i);
    if i == 0 {
      assert v / 1 == v;
    } else {
      LittleEndianDigits(v / 256, n - 1, i - 1);
      PowPos(256, i - 1);
      DivTwice(v, 256, Pow(256, i - 1));
    }
  }

  // ---- what is written ----

  /** A field of n bytes, least significant first, behind a key. */
  predicate FixedField(e: seq<Byte>, key: seq<Byte>, v: nat, n: nat) {
    && |e| == |key| + n && e[..|key|] == key
    && forall i :: 0 <= i < n ==> Pow(256, i) > 0 && e[|key| + i] == v / Pow(256, i) % 256
  }

  lemma FixedWritten(key: seq<Byte>, v: nat, n: nat)
    ensures FixedField(key + LittleEndian(v, n), key, v, n)
  {
    var e := key + LittleEndian(v, n);
    forall i | 0 <= i < n ensures Pow(256, i) > 0 && e[|key| + i] == v / Pow(256, i) % 256 {
      LittleEndianDigits(v, n, i);
    }
  }

  /** The bytes of every field that is written: 8 * tag plus the number of its wire type, and the value. */
  predicate FieldBytes(f: Field, v: Value, e: seq<Byte>)
    requires Typed(f, v)
  {
    match f.kind
    case BoolKind => e == EncVarint(8 * f.tag) + [1]
    case IntKind(_) =>
      e == EncVarint(8 * f.tag) + EncVarint(if v.n < 0 then v.n + 0x1_0000_0000_0000_0000 else v.n)
    case UIntKind(_) => v.n >= 0 && e == EncVarint(8 * f.tag) + EncVarint(v.n)
    case SIntKind(_) => e == EncVarint(8 * f.tag) + EncVarint(if v.n < 0 then -2 * v.n - 1 else 2 * v.n)
    case Fixed32Kind => v.n >= 0 && FixedField(e, EncVarint(8 * f.tag + 5), v.n, 4)
    case Fixed64Kind => v.n >= 0 && FixedField(e, EncVarint(8 * f.tag + 1), v.n, 8)
    case MessageKind(fields) =>
      var m := EncMessage(fields, v.vals); e == EncVarint(8 * f.tag + 2) + (EncVarint(|m|) + m)
    case BlobKind => e == EncVarint(8 * f.tag + 2) + (EncVarint(|v.data|) + v.data)
  }

  /** Two's complement in 64 bits, and the doubled numbers that alternate in sign. */
  lemma Patterns64(n: int)
    requires InSigned(n, 8)
    ensures Unsigned64(n) == if n < 0 then n + 0x1_0000_0000_0000_0000 else n
    ensures ZigZag(n) == if n < 0 then -2 * n - 1 else 2 * n
  {}

  lemma NumberWritten(f: Field, v: Value)
    requires WellFormedField(f) && Typed(f, v) && v.Number?
    ensures FieldBytes(f, v, EncTag(f.tag, WireOf(f.kind)) + EncNumber(f.kind, v.n))
  {
    hide LittleEndian, FixedField, EncVarint, Unsigned64, ZigZag;
    if f.kind.Fixed32Kind? || f.kind.Fixed64Kind? {
      FixedWritten(EncTag(f.tag, WireOf(f.kind)), v.n, if f.kind.Fixed32Kind? then 4 else 8);
    } else if !f.kind.UIntKind? {
      Patterns64(v.n);
    }
  }

  /** A field is written in these bytes, or not at all. */
  lemma FieldWritten(f: Field, v: Value)
    requires WellFormedField(f) && Typed(f, v)
    ensures EncField(f, v) == [] || FieldBytes(f, v, EncField(f, v))
  {
    if v.Number? {
      NumberWritten(f, v);
    } else if v.Flag? {
      assert v.b ==> EncVarint(1) == [1];
    }
  }

  lemma DefaultIsSilent(f: Field, v: Value)
    requires Typed(f, v)
    ensures IsDefault(f, v) <==> EncField(f, v) == [] && (v.Blob? ==> !v.hooked)
  {}

  /**
   * Exactly these leave no bytes: false, zero, a callback that is not set or has none, and a submessage of such
   * fields in which no callback is set.
   */
  lemma NothingWritten(f: Field, v: Value)
    requires Typed(f, v)
    ensures EncField(f, v) == [] <==>
      match v
      case Flag(b) => !b
      case Number(n) => n == 0
      case Blob(hooked, data, _) => !hooked || data == []
      case Struct(vals) =>
        && f.kind.MessageKind? && TypedAll(f.kind.fields, vals)
        && forall i :: 0 <= i < |vals| ==>
             EncField(f.kind.fields[i], vals[i]) == [] && (vals[i].Blob? ==> !vals[i].hooked)
  {
    if v.Struct? {
      var fields := f.kind.fields;
      forall i | 0 <= i < |v.vals|
        ensures IsDefault(fields[i], v.vals[i])
           <==> EncField(fields[i], v.vals[i]) == [] && (v.vals[i].Blob? ==> !v.vals[i].hooked)
      {
        DefaultIsSilent(fields[i], v.vals[i]);
      }
      assert IsDefault(f, v) <==> forall i :: 0 <= i < |v.vals| ==> IsDefault(fields[i], v.vals[i]);
    }
  }

  lemma {:induction false} WrittenSplit(fields: seq<Field>, vals: seq<Value>, k: nat)
    requires TypedAll(fields, vals) && k <= |fields|
    ensures TypedAll(fields[..k], vals[..k]) && TypedAll(fields[k..], vals[k..])
    ensures EncMessage(fields, vals) == EncMessage(fields[..k], vals[..k]) + EncMessage(fields[k..], vals[k..])
    decreases k
  {
    hide EncField;
    if k == 0 {
      assert fields[0..] == fields && vals[0..] == vals;
    } else {
      var ft, vt := fields[1..], vals[1..];
      WrittenSplit(ft, vt, k - 1);
      assert ft[k - 1..] == fields[k..] && vt[k - 1..] == vals[k..];
      assert fields[..k][1..] == ft[..k - 1] && vals[..k][1..] == vt[..k - 1];
      Associate(EncField(fields[0], vals[0]), EncMessage(ft[..k - 1], vt[..k - 1]),
                EncMessage(ft[k - 1..], vt[k - 1..]));
    }
  }

  /** The fields are written one behind the other, in the order of the schema. */
  lemma WrittenInOrder(fields: seq<Field>, vals: seq<Value>, k: nat)
    requires TypedAll(fields, vals) && k < |fields|
    ensures TypedAll(fields[..k], vals[..k]) && TypedAll(fields[k + 1..], vals[k + 1..])
    ensures EncMessage(fields, vals)
         == EncMessage(fields[..k], vals[..k])
            + (EncField(fields[k], vals[k]) + EncMessage(fields[k + 1..], vals[k + 1..]))
  {
    hide EncField, EncMessage;
    WrittenSplit(fields, vals, k);
    R.SplitEncoding(fields, vals, k);
  }

  /** The values a message has before anything is read. */
  lemma InitialValues(fields: seq<Field>, vals: seq<Value>, i: nat)
    requires TypedAll(fields, vals) && i < |fields|
    ensures Defaults(fields, vals)[i] == match vals[i]
      case Flag(_) => Flag(false)
      case Number(_) => Number(0)
      case Blob(_, _, _) => vals[i]
      case Struct(inner) => assert Typed(fields[i], vals[i]); Struct(Defaults(fields[i].kind.fields, inner))
  {
    R.DefaultsAt(fields, vals, i);
  }

  // ---- what is read ----

  /** A field of the schema that is read behind its key, whatever the wire type there. */
  lemma ReadsField(fields: seq<Field>, k: nat, w: nat, x: seq<Byte>, rest: seq<Byte>, vals: seq<Value>)
    requires WellFormed(fields) && TypedAll(fields, vals) && k < |fields| && w < 8
    requires RawValue(Reads(fields[k].kind, w), x).Good? && RawValue(Reads(fields[k].kind, w), x).rest == []
    ensures WellFormedField(fields[k]) && Typed(fields[k], vals[k])
    ensures var p := DecField(fields[k], w, x, vals[k]);
            DecMessage(fields, EncVarint(8 * fields[k].tag + w) + (x + rest), vals) ==
            if p.Bad? then Bad else DecMessage(fields, rest, vals[k := p.value])
  {
    assert WellFormedField(fields[k]);
    var r := Record(fields[k].tag, w, x);
    assert Find(fields, r.tag) == k;
    KnownStep(fields, r, rest, vals);
    Associate(EncTag(r.tag, w), x, rest);
  }

  /** A byte field with wire type 2: a length and the bytes, if there is room. */
  lemma ReadsBytes(fields: seq<Field>, k: nat, data: seq<Byte>, rest: seq<Byte>, vals: seq<Value>)
    requires WellFormed(fields) && TypedAll(fields, vals) && k < |fields| && |data| < 0x1_0000_0000
    requires vals[k].Blob? && vals[k].hooked
    ensures |data| <= vals[k].room ==> TypedAll(fields, vals[k := Blob(true, data, vals[k].room)])
    ensures var s := EncVarint(8 * fields[k].tag + 2) + (EncVarint(|data|) + data + rest);
            DecMessage(fields, s, vals) ==
            if |data| > vals[k].room then Bad
            else DecMessage(fields, rest, vals[k := Blob(true, data, vals[k].room)])
  {
    assert Typed(fields[k], vals[k]);
    StringBack(data, []);
    assert EncString(data) + [] == EncString(data);
    ReadsField(fields, k, 2, EncString(data), rest, vals);
  }

  /** A submessage: a length, and the bytes of its fields. */
  lemma ReadsSubmessage(fields: seq<Field>, k: nat, m: seq<Byte>, rest: seq<Byte>, vals: seq<Value>)
    requires WellFormed(fields) && TypedAll(fields, vals) && k < |fields| && |m| < 0x1_0000_0000
    requires vals[k].Struct?
    ensures WellFormedField(fields[k]) && Typed(fields[k], vals[k])
    ensures var s := EncVarint(8 * fields[k].tag + 2) + (EncVarint(|m|) + m + rest);
            var p := DecMessage(fields[k].kind.fields, m, vals[k].vals);
            DecMessage(fields, s, vals) == if p.Bad? then Bad else DecMessage(fields, rest, vals[k := Struct(p.value)])
  {
    assert WellFormedField(fields[k]) && Typed(fields[k], vals[k]);
    StringBack(m, []);
    assert EncString(m) + [] == EncString(m);
    ReadsField(fields, k, 2, EncString(m), rest, vals);
  }

  function Abs(n: int): nat { if n < 0 then -n else n }

  predicate HalfRange(n: int, bytes: nat) {
    -Pow(256, bytes) <= 2 * n < Pow(256, bytes)
  }

  /** A number of the field's size whose 64 bits are u. */
  predicate ShownBy(kind: Kind, n: int, u: nat) {
    match kind
    case UIntKind(b) => n == u && u < Pow(256, b)
    case SIntKind(b) => 2 * Abs(n) == u + (if n < 0 then 1 else 0) && HalfRange(n, b)
    case IntKind(b) =>
      HalfRange(n, b)
      && if b == 8 then n == u - (if u < 0x8000_0000_0000_0000 then 0 else 0x1_0000_0000_0000_0000)
         else n == u % 0x1_0000_0000 - (if u % 0x1_0000_0000 < 0x8000_0000 then 0 else 0x1_0000_0000)
    case _ => false
  }

  lemma Sizes()
    ensures Pow(256, 1) == 0x100 && Pow(256, 2) == 0x1_0000
    ensures Pow(256, 4) == 0x1_0000_0000 && Pow(256, 8) == 0x1_0000_0000_0000_0000
  {
    assert Pow(256, 1) == 256 * Pow(256, 0);
    FixedSizes();
  }

  /** The number a field of the kind makes of 64 bits. */
  function Shown(kind: Kind, u: Word64): int
    requires kind.IntKind? || kind.UIntKind? || kind.SIntKind?
  {
    if kind.UIntKind? then u else if kind.SIntKind? then UnZigZag(u) else Signed(u, if kind.bytes == 8 then 8 else 4)
  }

  lemma SizeLimits(b: nat)
    requires b in {1, 2, 4, 8}
    ensures Patterns(b) == Pow(256, b)
  {
    Sizes();
  }

  lemma IntShown(b: nat, u: Word64, n: int)
    requires b in {1, 2, 4, 8}
    ensures ShownBy(IntKind(b), n, u) <==> n == Shown(IntKind(b), u) && InRange(IntKind(b), n)
  {
    SizeLimits(b);
    hide Pow;
    if b == 8 {} else {}
  }

  lemma ZigZagShown(u: Word64)
    ensures var n := UnZigZag(u); 2 * Abs(n) == u + (if n < 0 then 1 else 0)
  {}

  lemma AbsUnique(m: int, n: int, u: int)
    requires 2 * Abs(m) == u + (if m < 0 then 1 else 0) && 2 * Abs(n) == u + (if n < 0 then 1 else 0)
    ensures m == n
  {}

  lemma SIntShown(b: nat, u: Word64, n: int)
    requires b in {1, 2, 4, 8}
    ensures ShownBy(SIntKind(b), n, u) <==> n == Shown(SIntKind(b), u) && InRange(SIntKind(b), n)
  {
    SizeLimits(b);
    ZigZagShown(u);
    hide Pow, UnZigZag;
    if 2 * Abs(n) == u + (if n < 0 then 1 else 0) { AbsUnique(n, UnZigZag(u), u); }
  }

  lemma UIntShown(b: nat, u: Word64, n: int)
    requires b in {1, 2, 4, 8}
    ensures ShownBy(UIntKind(b), n, u) <==> n == Shown(UIntKind(b), u) && InRange(UIntKind(b), n)
  {
    SizeLimits(b);
    hide Pow;
  }

  lemma NumberShown(kind: Kind, u: Word64, n: int)
    requires (kind.IntKind? || kind.UIntKind? || kind.SIntKind?) && kind.bytes in {1, 2, 4, 8}
    ensures ShownBy(kind, n, u) <==> n == Shown(kind, u) && InRange(kind, n)
  {
    hide ShownBy, Shown, InRange;
    if kind.SIntKind? {
      SIntShown(kind.bytes, u, n);
    } else if kind.IntKind? {
      IntShown(kind.bytes, u, n);
    } else {
      UIntShown(kind.bytes, u, n);
    }
  }

  /** A varint in a number field: the number its 64 bits show in the field's way, or an error if it does not fit. */
  lemma ReadsVarint(fields: seq<Field>, k: nat, w: nat, g: seq<Byte>, rest: seq<Byte>, vals: seq<Value>, n: int)
    requires WellFormed(fields) && TypedAll(fields, vals) && k < |fields| && w < 8 && OneVarint(g) && |g| <= 10
    requires fields[k].kind.IntKind? || fields[k].kind.UIntKind? || fields[k].kind.SIntKind?
    ensures var s := EncVarint(8 * fields[k].tag + w) + (g + rest);
            var u := GroupValue(g) % 0x1_0000_0000_0000_0000;
            && (ShownBy(fields[k].kind, n, u) ==>
                  TypedAll(fields, vals[k := Number(n)])
                  && DecMessage(fields, s, vals) == DecMessage(fields, rest, vals[k := Number(n)]))
            && ((forall m :: !ShownBy(fields[k].kind, m, u)) ==> DecMessage(fields, s, vals).Bad?)
  {
    assert WellFormedField(fields[k]) && Typed(fields[k], vals[k]);
    var u := GroupValue(g) % 0x1_0000_0000_0000_0000;
    assert g + [] == g;
    GroupsExact(g, g, []);
    ReadsField(fields, k, w, g, rest, vals);
    NumberShown(fields[k].kind, u, n);
    NumberShown(fields[k].kind, u, Shown(fields[k].kind, u));
  }

  /** A varint in a bool field: true unless it is zero. */
  lemma ReadsFlag(fields: seq<Field>, k: nat, w: nat, b: nat, rest: seq<Byte>, vals: seq<Value>)
    requires WellFormed(fields) && TypedAll(fields, vals) && k < |fields| && w < 8 && b < 0x1_0000_0000
    requires fields[k].kind.BoolKind?
    ensures TypedAll(fields, vals[k := Flag(b != 0)])
    ensures DecMessage(fields, EncVarint(8 * fields[k].tag + w) + (EncVarint(b) + rest), vals)
         == DecMessage(fields, rest, vals[k := Flag(b != 0)])
  {
    assert Typed(fields[k], vals[k]);
    Varint32Back(b, []);
    GroupsBack(b, []);
    assert EncVarint(b) + [] == EncVarint(b);
    ReadsField(fields, k, w, EncVarint(b), rest, vals);
  }

  /** The number whose digits in base 256 these bytes are, least significant first. */
  predicate DigitsOf(n: nat, x: seq<Byte>) {
    n < Pow(256, |x|) && forall i :: 0 <= i < |x| ==> Pow(256, i) > 0 && n / Pow(256, i) % 256 == x[i]
  }

  lemma {:induction false} DigitsGive(n: nat, x: seq<Byte>)
    requires DigitsOf(n, x)
    ensures LittleEndian(n, |x|) == x
  {
    forall i | 0 <= i < |x| ensures LittleEndian(n, |x|)[i] == x[i] { LittleEndianDigits(n, |x|, i); }
  }

  /** Four or eight bytes in a field of fixed size. */
  lemma ReadsFixed(fields: seq<Field>, k: nat, w: nat, n: nat, x: seq<Byte>, rest: seq<Byte>, vals: seq<Value>)
    requires WellFormed(fields) && TypedAll(fields, vals) && k < |fields| && w < 8 && DigitsOf(n, x)
    requires (fields[k].kind.Fixed32Kind? && |x| == 4) || (fields[k].kind.Fixed64Kind? && |x| == 8)
    ensures TypedAll(fields, vals[k := Number(n)])
    ensures DecMessage(fields, EncVarint(8 * fields[k].tag + w) + (x + rest), vals)
         == DecMessage(fields, rest, vals[k := Number(n)])
  {
    assert Typed(fields[k], vals[k]);
    Sizes();
    DigitsGive(n, x);
    LittleEndianBack(n, |x|);
    assert x[..|x|] == x && x[|x|..] == [];
    ReadsField(fields, k, w, x, rest, vals);
  }

  /** The bytes a value with some wire type takes, other than a length and its bytes. */
  predicate Scalar(w: nat, x: seq<Byte>) {
    (w == 0 && OneVarint(x)) || (w == 1 && |x| == 8) || (w == 5 && |x| == 4)
  }

  lemma ScalarTaken(w: nat, x: seq<Byte>)
    requires Scalar(w, x)
    ensures RawValue(w, x) == Good(x, [])
  {
    assert x + [] == x;
    GroupsExact(x, x, []);
    assert x[..|x|] == x && x[|x|..] == [];
  }

  /** A byte field with another wire type is given the bytes of the value, of a varint at most ten. */
  lemma ReadsRaw(fields: seq<Field>, k: nat, w: nat, x: seq<Byte>, rest: seq<Byte>, vals: seq<Value>)
    requires WellFormed(fields) && TypedAll(fields, vals) && k < |fields| && Scalar(w, x)
    requires vals[k].Blob? && vals[k].hooked
    ensures var s := EncVarint(8 * fields[k].tag + w) + (x + rest);
            if |x| > vals[k].room || (w == 0 && |x| > 10) then DecMessage(fields, s, vals).Bad?
            else var next := vals[k := Blob(true, x, vals[k].room)];
                 TypedAll(fields, next) && DecMessage(fields, s, vals) == DecMessage(fields, rest, next)
  {
    assert Typed(fields[k], vals[k]);
    ScalarTaken(w, x);
    ReadsField(fields, k, w, x, rest, vals);
  }

  /** A field that the schema does not have is passed over: a scalar, or a length and its bytes. */
  lemma PassesOver(fields: seq<Field>, tag: nat, w: nat, x: seq<Byte>, rest: seq<Byte>, vals: seq<Value>)
    requires WellFormed(fields) && TypedAll(fields, vals) && 1 <= tag < 0x2000_0000
    requires forall i :: 0 <= i < |fields| ==> fields[i].tag != tag
    requires Scalar(w, x)
             || (w == 2 && exists data: seq<Byte> :: |data| < 0x1_0000_0000 && x == EncVarint(|data|) + data)
    ensures DecMessage(fields, EncVarint(8 * tag + w) + (x + rest), vals) == DecMessage(fields, rest, vals)
  {
    if w == 2 {
      var data: seq<Byte> :| |data| < 0x1_0000_0000 && x == EncVarint(|data|) + data;
      StringBack(data, []);
      assert EncString(data) + [] == x;
    } else {
      ScalarTaken(w, x);
    }
    var u := Record(tag, w, x);
    assert Find(fields, tag) == |fields|;
    Skipped(fields, u, rest);
    Associate(EncTag(tag, w), x, rest);
  }

  /** Wire types 3, 4, 6 and 7 of an unknown field are errors. */
  lemma RefusesWire(fields: seq<Field>, tag: nat, w: nat, rest: seq<Byte>, vals: seq<Value>)
    requires WellFormed(fields) && TypedAll(fields, vals) && 1 <= tag < 0x2000_0000 && w in {3, 4, 6, 7}
    requires forall i :: 0 <= i < |fields| ==> fields[i].tag != tag
    ensures DecMessage(fields, EncVarint(8 * tag + w) + rest, vals).Bad?
  {
    TagBack(tag, w, rest);
    assert Find(fields, tag) == |fields|;
  }

  /** A zero byte in place of a key ends the message. */
  lemma EndsAtZero(fields: seq<Field>, rest: seq<Byte>, vals: seq<Value>)
    requires WellFormed(fields) && TypedAll(fields, vals)
    ensures DecMessage(fields, [0] + rest, vals) == Good(vals, rest)
  {
    assert EncVarint(0) == [0];
    Varint32Back(0, rest);
  }

  /** In field 1: 0x0A, a length below 128 and the bytes. */
  lemma ShortBytes(fields: seq<Field>, data: seq<Byte>, rest: seq<Byte>, vals: seq<Value>)
    requires WellFormed(fields) && TypedAll(fields, vals) && |fields| > 0 && fields[0].tag == 1
    requires vals[0].Blob? && vals[0].hooked && |data| <= vals[0].room && |data| < 128
    ensures var next := vals[0 := Blob(true, data, vals[0].room)];
      TypedAll(fields, next) && DecMessage(fields, [0x0A, |data|] + data + rest, vals) == DecMessage(fields, rest, next)
  {
    hide DecMessage;
    ReadsBytes(fields, 0, data, rest, vals);
    assert EncVarint(10) + (EncVarint(|data|) + data + rest) == [0x0A, |data|] + data + rest;
  }

  /** In field 1: 0x08 and a number below 128. */
  lemma ShortNumber(fields: seq<Field>, n: Byte, rest: seq<Byte>, vals: seq<Value>)
    requires WellFormed(fields) && TypedAll(fields, vals) && |fields| > 0 && fields[0].tag == 1
    requires fields[0].kind.UIntKind? && n < 128
    ensures var next := vals[0 := Number(n)];
      TypedAll(fields, next) && DecMessage(fields, [0x08, n] + rest, vals) == DecMessage(fields, rest, next)
  {
    hide DecMessage;
    assert WellFormedField(fields[0]);
    SizeLimits(fields[0].kind.bytes);
    assert GroupValue([n]) == n + 128 * GroupValue([n][1..]) && [n][1..] == [];
    ReadsVarint(fields, 0, 0, [n], rest, vals, n);
    assert EncVarint(8) + ([n] + rest) == [0x08, n] + rest;
  }

  /** A varint of more than ten bytes is an error in a number field. */
  lemma RefusesLong(fields: seq<Field>, k: nat, w: nat, g: seq<Byte>, rest: seq<Byte>, vals: seq<Value>)
    requires WellFormed(fields) && TypedAll(fields, vals) && k < |fields| && w < 8 && OneVarint(g) && |g| > 10
    requires fields[k].kind.IntKind? || fields[k].kind.UIntKind? || fields[k].kind.SIntKind?
    ensures DecMessage(fields, EncVarint(8 * fields[k].tag + w) + (g + rest), vals).Bad?
  {
    assert WellFormedField(fields[k]) && Typed(fields[k], vals[k]);
    assert g + [] == g;
    GroupsExact(g, g, []);
    ReadsField(fields, k, w, g, rest, vals);
  }

  /** A byte field whose callback is not set is passed over. */
  lemma PassesUnset(fields: seq<Field>, k: nat, w: nat, x: seq<Byte>, rest: seq<Byte>, vals: seq<Value>)
    requires WellFormed(fields) && TypedAll(fields, vals) && k < |fields| && vals[k].Blob? && !vals[k].hooked
    requires Scalar(w, x)
             || (w == 2 && exists data: seq<Byte> :: |data| < 0x1_0000_0000 && x == EncVarint(|data|) + data)
    ensures DecMessage(fields, EncVarint(8 * fields[k].tag + w) + (x + rest), vals) == DecMessage(fields, rest, vals)
  {
    assert Typed(fields[k], vals[k]);
    if w == 2 {
      var data: seq<Byte> :| |data| < 0x1_0000_0000 && x == EncVarint(|data|) + data;
      StringBack(data, []);
      assert EncString(data) + [] == x;
    } else {
      ScalarTaken(w, x);
    }
    ReadsField(fields, k, w, x, rest, vals);
    assert vals[k := vals[k]] == vals;
  }
}

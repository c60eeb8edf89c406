/** The schema-driven encoder: an output stream that writes or only counts, and the two passes over submessages. */
module PbEncode {
  import opened Arith
  import opened Bytes
  import opened Wire
  import opened Schema
  import opened RoundTrip
  import D = PbDecode
  import I = InputStream

  /** b with some bytes written over it at a position. */
  ghost function Overwritten(b: seq<Byte>, at: nat, bytes: seq<Byte>): (r: seq<Byte>)
    requires at + |bytes| <= |b|
    ensures |r| == |b|
  {
    b[..at] + bytes + b[at + |bytes|..]
  }

  /** Writing twice is writing once. */
  lemma OverwrittenTwice(b: seq<Byte>, at: nat, x: seq<Byte>, y: seq<Byte>)
    requires at + |x| + |y| <= |b|
    ensures Overwritten(Overwritten(b, at, x), at + |x|, y) == Overwritten(b, at, x + y)
  {
    var c := Overwritten(b, at, x);
    assert c[..at + |x|] == b[..at] + x;
    assert c[at + |x| + |y|..] == b[at + |x| + |y|..];
  }

  /** The first group of a varint behind some bytes. */
  lemma GroupSplit(before: seq<Byte>, v: nat)
    ensures |before + EncVarint(v)| > |before|
    ensures v >= 0x80 ==> before + EncVarint(v) == before + [v % 0x80 + 0x80] + EncVarint(v / 0x80)
    ensures v < 0x80 ==> before + EncVarint(v) == before + [v]
  {}

  /** Fills a ten-byte buffer with the groups of a number of at least two, and clears the last top bit. */
  method VarintBytes(value: Word64) returns (bytes: seq<Byte>)
    requires value > 0x7F
    ensures bytes == EncVarint(value)
  {
    var buffer := new Byte[10];
    var i, v: Word64 := 0, value;
    Two64();
    EncLength(value, 10);
    assert buffer[..0] + EncVarint(value) == EncVarint(value);
    while v != 0
      invariant 0 <= i <= 10 && (v == 0 ==> i > 0)
      invariant v != 0 ==> buffer[..i] + EncVarint(v) == EncVarint(value)
      invariant v == 0 ==> buffer[i - 1] >= 0x80 && buffer[..i - 1] + [buffer[i - 1] - 0x80] == EncVarint(value)
    {
      GroupSplit(buffer[..i], v);
      assert i < 10;
      buffer[i] := v % 0x80 + 0x80;
      v := v / 0x80;
      i := i + 1;
      assert buffer[..i] == buffer[..i - 1] + [buffer[i - 1]];
    }
    buffer[i - 1] := buffer[i - 1] - 0x80;
    bytes := buffer[..i];
  }

  /** Without a buffer the stream only counts. */
  class OStream {
    const buf: array?<Byte>
    var state: nat
    var maxSize: nat
    var bytesWritten: nat

    ghost predicate Valid()
      reads this
    {
      buf != null ==> bytesWritten <= maxSize && state + (maxSize - bytesWritten) <= buf.Length
    }

    /** n more bytes can be written. */
    ghost predicate Room(n: nat)
      reads this
    {
      buf == null || bytesWritten + n <= maxSize
    }

    /** The stream has moved over exactly these bytes, and they are in the buffer. */
    twostate predicate Wrote(bytes: seq<Byte>)
      requires old(Valid()) && Valid()
      reads this, buf
    {
      && bytesWritten == old(bytesWritten) + |bytes| && maxSize == old(maxSize)
      && (buf != null ==>
           && state == old(state) + |bytes| <= buf.Length
           && buf[..] == Overwritten(old(buf[..]), old(state), bytes))
    }

    /** Since the buffer was b and the cursor and count were at and n, these bytes were written. */
    ghost predicate Holds(b: seq<Byte>, at: nat, n: nat, limit: nat, bytes: seq<Byte>)
      reads this, buf
    {
      && Valid() && bytesWritten == n + |bytes| && maxSize == limit
      && (buf != null ==> |b| == buf.Length && state == at + |bytes| <= |b| && buf[..] == Overwritten(b, at, bytes))
    }

    constructor FromBuffer(buf: array<Byte>)
      ensures Valid() && this.buf == buf && state == 0 && maxSize == buf.Length && bytesWritten == 0
    {
      this.buf, state, maxSize, bytesWritten := buf, 0, buf.Length, 0;
    }

    constructor Sizing()
      ensures Valid() && buf == null && bytesWritten == 0
    {
      buf, state, maxSize, bytesWritten := null, 0, 0, 0;
    }

    /** A stream that continues in the same buffer and may write size bytes. */
    constructor Continue(buf: array<Byte>, state: nat, size: nat)
      requires state + size <= buf.Length
      ensures Valid() && this.buf == buf && this.state == state && maxSize == size && bytesWritten == 0
    {
      this.buf, this.state, maxSize, bytesWritten := buf, state, size, 0;
    }

    method Write(bytes: seq<Byte>) returns (ok: bool)
      requires Valid()
      modifies this, buf
      ensures Valid() && maxSize == old(maxSize)
      ensures ok <==> old(Room(|bytes|))
      ensures ok ==> Wrote(bytes)
    {
      if |bytes| > 0 && buf != null {
        if bytesWritten + |bytes| > maxSize { return false; }
        var dest := state;
        state := dest + |bytes|;
        for i := 0 to |bytes|
          modifies buf
          invariant forall k :: 0 <= k < buf.Length ==>
            buf[k] == if dest <= k < dest + i then bytes[k - dest] else old(buf[k])
        {
          buf[dest + i] := bytes[i];
        }
        assert buf[..] == Overwritten(old(buf[..]), dest, bytes);
      }
      bytesWritten := bytesWritten + |bytes|;
      ok := true;
    }

    /** Counts n bytes on a stream that does not write. */
    method Count(n: nat)
      requires Valid() && buf == null
      modifies this
      ensures Valid() && bytesWritten == old(bytesWritten) + n && maxSize == old(maxSize)
    {
      bytesWritten := bytesWritten + n;
    }

    method EncodeVarint(value: Word64) returns (ok: bool)
      requires Valid()
      modifies this, buf
      ensures Valid() && maxSize == old(maxSize)
      ensures ok <==> old(Room(|EncVarint(value)|))
      ensures ok ==> Wrote(EncVarint(value))
    {
      if value <= 0x7F {
        ok := Write([value]);
        return;
      }
      var bytes := VarintBytes(value);
      ok := Write(bytes);
    }
  }

  method EncodeTag(s: OStream, wire: nat, tag: nat) returns (ok: bool)
    requires s.Valid() && wire < 8 && tag * 8 + wire < TWO64
    modifies s, s.buf
    ensures s.Valid() && s.maxSize == old(s.maxSize)
    ensures ok <==> old(s.Room(|EncTag(tag, wire)|))
    ensures ok ==> s.Wrote(EncTag(tag, wire))
  {
    ok := s.EncodeVarint(tag * 8 + wire);
  }

  method EncodeString(s: OStream, data: seq<Byte>) returns (ok: bool)
    requires s.Valid() && |data| < TWO64
    modifies s, s.buf
    ensures s.Valid() && s.maxSize == old(s.maxSize)
    ensures ok <==> old(s.Room(|EncString(data)|))
    ensures ok ==> s.Wrote(EncString(data))
  {
    ok := s.EncodeVarint(|data|);
    if !ok { return; }
    ok := s.Write(data);
    if ok && s.buf != null { OverwrittenTwice(old(s.buf[..]), old(s.state), EncVarint(|data|), data); }
  }

  /** The bytes of a number, one shift at a time. */
  method FixedBytes(n: nat, k: nat) returns (bytes: seq<Byte>)
    ensures bytes == LittleEndian(n, k)
  {
    bytes := [];
    var v := n;
    for i := 0 to k
      invariant LittleEndian(n, k) == bytes + LittleEndian(v, k - i)
    {
      bytes := bytes + [v % 0x100];
      v := v / 0x100;
    }
  }

  method EncodeNumber(s: OStream, kind: Kind, n: int) returns (ok: bool)
    requires s.Valid() && InRange(kind, n)
    modifies s, s.buf
    ensures s.Valid() && s.maxSize == old(s.maxSize)
    ensures ok <==> old(s.Room(|EncNumber(kind, n)|))
    ensures ok ==> s.Wrote(EncNumber(kind, n))
  {
    match kind
    case IntKind(_) => ok := s.EncodeVarint(Unsigned64(n));
    case UIntKind(_) => ok := s.EncodeVarint(n);
    case SIntKind(_) => ok := s.EncodeVarint(ZigZag(n));
    case Fixed32Kind =>
      var bytes := FixedBytes(n, 4);
      ok := s.Write(bytes);
    case Fixed64Kind =>
      var bytes := FixedBytes(n, 8);
      ok := s.Write(bytes);
  }

  /** Looks through a value, and through the fields of a submessage, for anything that is not zero. */
  method CheckDefault(f: Field, v: Value) returns (zero: bool)
    requires Typed(f, v)
    ensures zero <==> IsDefault(f, v)
    decreases f
  {
    match v
    case Flag(b) => zero := !b;
    case Number(n) => zero := n == 0;
    case Blob(hooked, _, _) => zero := !hooked;
    case Struct(vals) =>
      var iter := new D.FieldIter(f.kind.fields);
      var more := iter.Begin();
      while more
        invariant iter.Valid() && iter.fields == f.kind.fields && (more ==> iter.pos < |iter.fields|)
        invariant forall i :: 0 <= i < |iter.fields| ==> !more || i < iter.pos ==> IsDefault(iter.fields[i], vals[i])
        decreases if more then |iter.fields| - iter.pos + 1 else 0
      {
        zero := CheckDefault(iter.fields[iter.pos], vals[iter.pos]);
        if !zero { return; }
        more := iter.Next();
      }
      zero := true;
  }

  /** Encodes the value of a field behind its tag. */
  method EncodeData(s: OStream, f: Field, v: Value) returns (ok: bool)
    requires s.Valid() && WellFormedField(f) && Typed(f, v) && |EncValue(f, v)| < TWO64
    modifies s, s.buf
    ensures s.Valid() && s.maxSize == old(s.maxSize)
    ensures ok <==> old(s.Room(|EncValue(f, v)|))
    ensures ok ==> s.Wrote(EncValue(f, v))
    decreases f, 0
  {
    match v
    case Flag(b) => ok := s.EncodeVarint(if b then 1 else 0);
    case Number(n) => ok := EncodeNumber(s, f.kind, n);
    case Struct(vals) => ok := EncodeSubmessage(s, f.kind.fields, vals);
    case Blob(_, data, _) => ok := EncodeString(s, data);
  }

  /** Encodes a field, or nothing for a proto3 default and for a callback without bytes. */
  method EncodeField(s: OStream, f: Field, v: Value) returns (ok: bool)
    requires s.Valid() && WellFormedField(f) && Typed(f, v) && |EncField(f, v)| < TWO64
    modifies s, s.buf
    ensures s.Valid() && s.maxSize == old(s.maxSize)
    ensures ok <==> old(s.Room(|EncField(f, v)|))
    ensures ok ==> s.Wrote(EncField(f, v))
    decreases f, 2
  {
    if v.Blob? {
      if !v.hooked || |v.data| == 0 { return true; }
    } else {
      var zero := CheckDefault(f, v);
      if zero { return true; }
    }
    ok := EncodeTagged(s, f, v);
  }

  /** Encodes the tag of a field, and then its value. */
  method EncodeTagged(s: OStream, f: Field, v: Value) returns (ok: bool)
    requires s.Valid() && WellFormedField(f) && Typed(f, v)
    requires |EncTag(f.tag, WireOf(f.kind)) + EncValue(f, v)| < TWO64
    modifies s, s.buf
    ensures s.Valid() && s.maxSize == old(s.maxSize)
    ensures ok <==> old(s.Room(|EncTag(f.tag, WireOf(f.kind)) + EncValue(f, v)|))
    ensures ok ==> s.Wrote(EncTag(f.tag, WireOf(f.kind)) + EncValue(f, v))
    decreases f, 1
  {
    ok := EncodeTag(s, WireOf(f.kind), f.tag);
    if !ok { return; }
    ok := EncodeData(s, f, v);
    if ok && s.buf != null {
      OverwrittenTwice(old(s.buf[..]), old(s.state), EncTag(f.tag, WireOf(f.kind)), EncValue(f, v));
    }
  }

  /** Counts a submessage on a sizing stream, then writes its length and encodes it again. */
  method EncodeSubmessage(s: OStream, fields: seq<Field>, vals: seq<Value>) returns (ok: bool)
    requires s.Valid() && WellFormed(fields) && TypedAll(fields, vals) && |EncMessage(fields, vals)| < TWO64
    modifies s, s.buf
    ensures s.Valid() && s.maxSize == old(s.maxSize)
    ensures ok <==> old(s.Room(|EncString(EncMessage(fields, vals))|))
    ensures ok ==> s.Wrote(EncString(EncMessage(fields, vals)))
    decreases fields, 3
  {
    var sizing := new OStream.Sizing();
    ok := Encode(sizing, fields, vals);
    if !ok { return; }
    var size := sizing.bytesWritten;
    ok := s.EncodeVarint(size);
    if !ok { return; }
    if s.buf == null {
      s.Count(size);
      return true;
    }
    ok := SecondPass(s, fields, vals, size, old(s.buf[..]), old(s.state), old(s.bytesWritten), EncVarint(size));
  }

  /** Encodes a message that was counted to take size bytes, on a stream limited to them. */
  method SecondPass(s: OStream, fields: seq<Field>, vals: seq<Value>, size: nat,
                    ghost b: seq<Byte>, ghost at: nat, ghost n: nat, ghost done: seq<Byte>)
    returns (ok: bool)
    requires s.buf != null && WellFormed(fields) && TypedAll(fields, vals)
    requires size == |EncMessage(fields, vals)| < TWO64 && s.Holds(b, at, n, s.maxSize, done)
    modifies s, s.buf
    ensures s.Valid() && s.maxSize == old(s.maxSize)
    ensures ok <==> old(s.Room(size))
    ensures ok ==> s.Holds(b, at, n, s.maxSize, done + EncMessage(fields, vals))
    decreases fields, 2
  {
    if s.bytesWritten + size > s.maxSize { return false; }
    var sub := new OStream.Continue(s.buf, s.state, size);
    var status := Encode(sub, fields, vals);
    s.bytesWritten := s.bytesWritten + sub.bytesWritten;
    s.state := sub.state;
    if sub.bytesWritten != size {
      // the second pass writes exactly what the first one counted
      assert false;
    }
    ok := status;
    OverwrittenTwice(b, at, done, EncMessage(fields, vals));
  }

  /** What is written so far, and the fields still to come. */
  ghost predicate Split(all: seq<Byte>, done: seq<Byte>, fields: seq<Field>, vals: seq<Value>, k: nat)
    requires TypedAll(fields, vals) && k <= |fields|
  {
    all == done + EncMessage(fields[k..], vals[k..])
  }

  lemma NextSplit(all: seq<Byte>, done: seq<Byte>, fields: seq<Field>, vals: seq<Value>, k: nat)
    requires TypedAll(fields, vals) && k < |fields| && Split(all, done, fields, vals, k)
    ensures Split(all, done + EncField(fields[k], vals[k]), fields, vals, k + 1)
    ensures |done| + |EncField(fields[k], vals[k])| <= |all|
  {
    SplitEncoding(fields, vals, k);
  }

  lemma AllSplit(all: seq<Byte>, done: seq<Byte>, fields: seq<Field>, vals: seq<Value>)
    requires TypedAll(fields, vals) && Split(all, done, fields, vals, |fields|)
    ensures all == done
  {}

  /** Encodes all fields in the order of the schema. */
  method Encode(s: OStream, fields: seq<Field>, vals: seq<Value>) returns (ok: bool)
    requires s.Valid() && WellFormed(fields) && TypedAll(fields, vals) && |EncMessage(fields, vals)| < TWO64
    modifies s, s.buf
    ensures s.Valid() && s.maxSize == old(s.maxSize)
    ensures ok <==> old(s.Room(|EncMessage(fields, vals)|))
    ensures ok ==> s.Wrote(EncMessage(fields, vals))
    decreases fields, 1
  {
    var iter := new D.FieldIter(fields);
    var more := iter.Begin();
    if !more { return true; }
    ghost var b, at, n, done: seq<Byte>, k := if s.buf == null then [] else s.buf[..], s.state, s.bytesWritten, [], 0;
    assert fields[0..] == fields && vals[0..] == vals;
    while more
      invariant iter.Valid() && iter.fields == fields
      invariant k <= |fields| && (if more then k == iter.pos else k == |fields|)
      invariant s.Holds(b, at, n, old(s.maxSize), done)
      invariant Split(EncMessage(fields, vals), done, fields, vals, k)
      decreases if more then |fields| - iter.pos else 0
    {
      NextSplit(EncMessage(fields, vals), done, fields, vals, k);
      ok := EncodeAt(s, fields, vals, iter.pos, b, at, n, done);
      if !ok { return; }
      done, k := done + EncField(fields[k], vals[k]), k + 1;
      more := iter.Next();
    }
    AllSplit(EncMessage(fields, vals), done, fields, vals);
    ok := true;
  }

  /** Encodes the field at some position behind what is already written. */
  method EncodeAt(s: OStream, fields: seq<Field>, vals: seq<Value>, k: nat,
                  ghost b: seq<Byte>, ghost at: nat, ghost n: nat, ghost done: seq<Byte>)
    returns (ok: bool)
    requires WellFormed(fields) && TypedAll(fields, vals) && k < |fields|
    requires |EncField(fields[k], vals[k])| < TWO64 && s.Holds(b, at, n, s.maxSize, done)
    modifies s, s.buf
    ensures s.Valid() && s.maxSize == old(s.maxSize)
    ensures ok <==> old(s.Room(|EncField(fields[k], vals[k])|))
    ensures ok ==> s.Holds(b, at, n, s.maxSize, done + EncField(fields[k], vals[k]))
    decreases fields, 0
  {
    ok := EncodeField(s, fields[k], vals[k]);
    if ok && s.buf != null { OverwrittenTwice(b, at, done, EncField(fields[k], vals[k])); }
  }

  /** A message that fits the buffer comes back from it, with the destination's callbacks. */
  method EncodeThenDecode(buf: array<Byte>, fields: seq<Field>, src: seq<Value>, dst: seq<Value>)
    returns (ok: bool, r: seq<Value>)
    requires WellFormed(fields) && TypedAll(fields, src) && TypedAll(fields, dst) && CanReceiveAll(fields, src, dst)
    requires |EncMessage(fields, src)| < TWO32
    modifies buf
    ensures ok <==> |EncMessage(fields, src)| <= buf.Length
    ensures ok ==> r == ReceivedAll(fields, src, dst)
  {
    var out := new OStream.FromBuffer(buf);
    ok := Encode(out, fields, src);
    if !ok { return false, dst; }
    assert buf[..out.bytesWritten] == EncMessage(fields, src);
    var input := new I.IStream(buf[..], 0, out.bytesWritten);
    assert input.Rest() == EncMessage(fields, src);
    MessageBack(fields, src, dst);
    ok, r := D.Decode(input, fields, dst);
  }
}

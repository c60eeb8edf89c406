/** The decoder's input stream over a buffer, its varints, and substreams that share its cursor. */
module InputStream {
  import opened Bytes
  import opened Wire

  lemma TooLong(g: seq<Byte>, rest: seq<Byte>)
    requires Continues(g) && |g| >= 10
    ensures DecVarint(g + rest).Bad?
  {
    GroupsAhead(g, rest);
  }

  /** Reading one more byte of a varint: it goes on, or its groups are complete. */
  lemma VarintStep(g: seq<Byte>, b: Byte, rest: seq<Byte>, all: seq<Byte>)
    requires Continues(g) && all == g + ([b] + rest)
    ensures b >= 128 ==> Continues(g + [b]) && all == g + [b] + rest
    ensures b < 128 ==> Groups(all) == Good(g + [b], rest)
  {
    assert ([b] + rest)[1..] == rest;
    GroupsAhead(g, [b] + rest);
  }

  /** What one byte of a 32-bit varint does to the word and the bit position. */
  method TakeGroup(byte: Byte, result: Word32, bitpos: FastPos) returns (ok: bool, low: Word32, next: FastPos)
    ensures TakeByte(Word(result, bitpos), byte) == if ok then Word(low, next) else Refused
  {
    low, next := result, bitpos;
    if bitpos >= 32 {
      var extension: Byte := if bitpos < 63 then 0xFF else 0x01;
      if byte % 0x80 != 0 && (result / 0x8000_0000 == 0 || byte != extension) {
        return false, low, next;
      }
    } else {
      low := OrShifted(result, byte % 0x80, bitpos, TWO32);
    }
    next := NextPos(bitpos);
    ok := true;
  }

  /** What is refused once stays refused. */
  lemma {:induction false} StaysRefused(g: seq<Byte>, x: seq<Byte>)
    requires TakeBytes(g).Refused?
    ensures TakeBytes(g + x).Refused?
  {
    if |x| == 0 {
      assert g + x == g;
    } else {
      var y := x[..|x| - 1];
      StaysRefused(g, y);
      assert g + x == g + y + [x[|x| - 1]];
      TakeOne(g + y, x[|x| - 1]);
    }
  }

  /** A byte that is refused spoils the number, whatever follows. */
  lemma RefusedByte(g: seq<Byte>, b: Byte, rest: seq<Byte>, all: seq<Byte>)
    requires Continues(g) && TakeBytes(g + [b]).Refused? && all == g + ([b] + rest)
    ensures DecVarint32(all).Bad?
  {
    GroupsAhead(g, [b] + rest);
    var p := Groups([b] + rest);
    if p.Good? {
      StaysRefused(g + [b], p.value[1..]);
      assert g + p.value == g + [b] + p.value[1..];
    }
  }

  lemma NineGroups(g: seq<Byte>)
    requires |g| <= 9
    ensures GroupValue(g) < TWO64
  {
    GroupValueSnoc(g, 0);
    OrShiftedIs(GroupValue(g), 0, |g|, TWO64);
  }

  lemma OrGroup64(g: seq<Byte>, b: Byte, result: Word64)
    requires |g| < 10 && result == GroupValue(g)
    ensures OrShifted(result, b % 128, 7 * |g|, TWO64) == GroupValue(g + [b]) % TWO64
    ensures |g| < 9 ==> OrShifted(result, b % 128, 7 * |g|, TWO64) == GroupValue(g + [b])
  {
    GroupValueSnoc(g, b);
    OrShiftedIs(result, b % 128, |g|, TWO64);
    if |g| < 9 { NineGroups(g + [b]); }
  }

  class IStream {
    const data: seq<Byte>
    var pos: nat
    var bytesLeft: nat

    ghost predicate Valid()
      reads this
    {
      pos + bytesLeft <= |data|
    }

    /** The bytes still to be read. */
    ghost function Rest(): (r: seq<Byte>)
      requires Valid()
      reads this
      ensures |r| == bytesLeft
    {
      data[pos..pos + bytesLeft]
    }

    /** The first position the stream does not reach. */
    ghost function End(): nat
      reads this
    {
      pos + bytesLeft
    }

    constructor (data: seq<Byte>, pos: nat, size: nat)
      requires pos + size <= |data|
      ensures Valid() && this.data == data && this.pos == pos && bytesLeft == size
    {
      this.data, this.pos, this.bytesLeft := data, pos, size;
    }

    /** Reads count bytes; fails without reading when there are fewer. */
    method Read(count: nat) returns (ok: bool, buf: seq<Byte>)
      requires Valid()
      modifies this
      ensures Valid() && End() == old(End())
      ensures ok <==> Take(old(Rest()), count).Good?
      ensures ok ==> Take(old(Rest()), count) == Good(buf, Rest())
      ensures !ok ==> pos == old(pos)
    {
      if count == 0 {
        assert Rest()[0..] == Rest();
        return true, [];
      }
      if bytesLeft < count { return false, []; }
      buf := data[pos..pos + count];
      pos := pos + count;
      bytesLeft := bytesLeft - count;
      assert old(Rest())[..count] == buf && old(Rest())[count..] == Rest();
      ok := true;
    }

    method ReadByte() returns (ok: bool, byte: Byte)
      requires Valid()
      modifies this
      ensures Valid() && End() == old(End())
      ensures ok <==> old(bytesLeft) > 0
      ensures ok ==> old(Rest()) == [byte] + Rest() && bytesLeft < old(bytesLeft)
    {
      if bytesLeft == 0 { return false, 0; }
      ok, byte := true, data[pos];
      pos := pos + 1;
      bytesLeft := bytesLeft - 1;
    }

    /** Reads a 64-bit varint. */
    method DecodeVarint() returns (ok: bool, dest: Word64)
      requires Valid()
      modifies this
      ensures Valid() && End() == old(End())
      ensures ok <==> DecVarint(old(Rest())).Good?
      ensures ok ==> DecVarint(old(Rest())) == Good(dest, Rest())
    {
      var bitpos := 0;
      var result: Word64 := 0;
      ghost var g: seq<Byte> := [];
      var byte: Byte := 0x80;
      dest := 0;
      while byte >= 0x80
        invariant Valid() && End() == old(End())
        invariant bitpos == 7 * |g| && |g| <= 10
        invariant byte >= 0x80 ==> Continues(g) && old(Rest()) == g + Rest() && (|g| < 10 ==> result == GroupValue(g))
        invariant byte < 0x80 ==> Groups(old(Rest())) == Good(g, Rest()) && result == GroupValue(g) % TWO64
        decreases bytesLeft, byte
      {
        if bitpos >= 64 {
          TooLong(g, Rest());
          return false, 0;
        }
        ok, byte := ReadByte();
        if !ok {
          GroupsAhead(g, []);
          assert g + [] == old(Rest());
          return false, 0;
        }
        VarintStep(g, byte, Rest(), old(Rest()));
        OrGroup64(g, byte, result);
        result := OrShifted(result, byte % 0x80, bitpos, TWO64);
        g := g + [byte];
        bitpos := NextPos(bitpos);
      }
      return true, result;
    }

    /** The bytes of a 32-bit varint after a first one that has the top bit set. */
    method Varint32Tail(first: Byte, ghost all: seq<Byte>) returns (ok: bool, dest: Word32)
      requires Valid() && first >= 0x80 && all == [first] + Rest()
      modifies this
      ensures Valid() && End() == old(End())
      ensures ok <==> DecVarint32(all).Good?
      ensures ok ==> DecVarint32(all) == Good(dest, Rest())
    {
      var bitpos: FastPos := 7;
      var result: Word32 := first % 0x80;
      ghost var g: seq<Byte> := [first];
      var byte := first;
      OneGroup(first);
      while byte >= 0x80
        invariant Valid() && End() == old(End())
        invariant |g| >= 1 && byte == g[|g| - 1] && TakeBytes(g) == Word(result, bitpos)
        invariant byte >= 0x80 ==> Continues(g) && all == g + Rest()
        invariant byte < 0x80 ==> Groups(all) == Good(g, Rest())
        decreases bytesLeft, byte
      {
        ok, byte := ReadByte();
        if !ok {
          GroupsAhead(g, []);
          assert g + [] == all;
          return false, 0;
        }
        VarintStep(g, byte, Rest(), all);
        TakeOne(g, byte);
        ok, result, bitpos := TakeGroup(byte, result, bitpos);
        if !ok {
          RefusedByte(g, byte, Rest(), all);
          return false, 0;
        }
        g := g + [byte];
      }
      if bitpos == 35 && byte / 0x10 % 8 != 0 {
        return false, 0;
      }
      return true, result;
    }

    /** Reads a 32-bit varint; eof tells a stream that has ended from a bad number. */
    method DecodeVarint32() returns (ok: bool, dest: Word32, eof: bool)
      requires Valid()
      modifies this
      ensures Valid() && End() == old(End())
      ensures ok <==> DecVarint32(old(Rest())).Good?
      ensures ok ==> DecVarint32(old(Rest())) == Good(dest, Rest())
      ensures eof <==> old(bytesLeft) == 0
    {
      var byte;
      ok, byte := ReadByte();
      if !ok { return false, 0, true; }
      eof := false;
      if byte < 0x80 {
        VarintStep([], byte, Rest(), old(Rest()));
        ghost var v := OneValue([byte]);
        ShortReads(old(Rest()), [byte], Rest(), byte);
        return true, byte, false;
      }
      ok, dest := Varint32Tail(byte, old(Rest()));
    }

    /** Reads a key; a zero key or the end of the stream sets eof. */
    method DecodeTag() returns (ok: bool, wire: nat, tag: nat, eof: bool)
      requires Valid()
      modifies this
      ensures Valid() && End() == old(End())
      ensures ok <==> DecTag(old(Rest())).Tag?
      ensures ok ==> DecTag(old(Rest())) == Tag(tag, wire, Rest())
      ensures !ok && old(bytesLeft) > 0 ==> (eof <==> DecTag(old(Rest())).EndMark?)
      ensures !ok && old(bytesLeft) > 0 && eof ==> DecTag(old(Rest())) == EndMark(Rest())
    {
      var temp;
      wire, tag := 0, 0;
      ok, temp, eof := DecodeVarint32();
      if !ok { return; }
      if temp == 0 { return false, 0, 0, true; }
      tag, wire := temp / 8, temp % 8;
    }

    method SkipVarint() returns (ok: bool)
      requires Valid()
      modifies this
      ensures Valid() && End() == old(End())
      ensures ok <==> Groups(old(Rest())).Good?
      ensures ok ==> Rest() == Groups(old(Rest())).rest
    {
      ghost var g: seq<Byte> := [];
      var byte: Byte := 0x80;
      while byte >= 0x80
        invariant Valid() && End() == old(End())
        invariant byte >= 0x80 ==> Continues(g) && old(Rest()) == g + Rest()
        invariant byte < 0x80 ==> Groups(old(Rest())) == Good(g, Rest())
        decreases bytesLeft, byte
      {
        ok, byte := ReadByte();
        if !ok {
          GroupsAhead(g, []);
          assert g + [] == old(Rest());
          return;
        }
        VarintStep(g, byte, Rest(), old(Rest()));
        g := g + [byte];
      }
      ok := true;
    }

    method SkipString() returns (ok: bool)
      requires Valid()
      modifies this
      ensures Valid() && End() == old(End())
      ensures ok <==> TakeString(old(Rest())).Good?
      ensures ok ==> Rest() == TakeString(old(Rest())).rest
    {
      var length, eof, buf;
      ok, length, eof := DecodeVarint32();
      if !ok { return; }
      ok, buf := Read(length);
    }

    /** Skips a value of a wire type. */
    method SkipField(wire: nat) returns (ok: bool)
      requires Valid()
      modifies this
      ensures Valid() && End() == old(End())
      ensures ok <==> RawValue(wire, old(Rest())).Good?
      ensures ok ==> Rest() == RawValue(wire, old(Rest())).rest
    {
      var buf;
      if wire == VARINT { ok := SkipVarint(); }
      else if wire == FIXED64 { ok, buf := Read(8); }
      else if wire == STRING { ok := SkipString(); }
      else if wire == FIXED32 { ok, buf := Read(4); }
      else { ok := false; }
    }

    /** Copies a scalar value of at most ten bytes. */
    method ReadRawValue(wire: nat) returns (ok: bool, buf: seq<Byte>)
      requires Valid()
      modifies this
      ensures Valid() && End() == old(End())
      ensures ok <==> wire != STRING && RawValue(wire, old(Rest())).Good? && |RawValue(wire, old(Rest())).value| <= 10
      ensures ok ==> RawValue(wire, old(Rest())) == Good(buf, Rest())
    {
      buf := [];
      if wire == VARINT {
        var byte: Byte := 0x80;
        while byte >= 0x80
          invariant Valid() && End() == old(End()) && |buf| <= 10
          invariant byte >= 0x80 ==> Continues(buf) && old(Rest()) == buf + Rest()
          invariant byte < 0x80 ==> Groups(old(Rest())) == Good(buf, Rest())
          decreases bytesLeft, byte
        {
          if |buf| + 1 > 10 {
            GroupsAhead(buf, Rest());
            return false, [];
          }
          ok, byte := ReadByte();
          if !ok {
            GroupsAhead(buf, []);
            assert buf + [] == old(Rest());
            return;
          }
          VarintStep(buf, byte, Rest(), old(Rest()));
          buf := buf + [byte];
        }
        ok := true;
      }
      else if wire == FIXED64 { ok, buf := Read(8); }
      else if wire == FIXED32 { ok, buf := Read(4); }
      else { ok := false; }
    }

    /** The parent of an open substream goes on where the substream will end. */
    ghost predicate Suspended(sub: IStream, rest: seq<Byte>)
      reads this, sub
    {
      && sub != this && data == sub.data && sub.Valid() && sub.End() + bytesLeft <= |data|
      && data[sub.End()..sub.End() + bytesLeft] == rest
    }

    /** Opens a stream over a length-delimited value, at the same cursor; the parent is left with what follows. */
    method MakeStringSubstream() returns (ok: bool, sub: IStream)
      requires Valid()
      modifies this
      ensures fresh(sub) && sub.Valid()
      ensures ok <==> TakeString(old(Rest())).Good?
      ensures ok ==> sub.Rest() == TakeString(old(Rest())).value && Suspended(sub, TakeString(old(Rest())).rest)
      ensures ok ==> pos == sub.pos && sub.End() + bytesLeft == old(End())
      ensures Valid() && (!ok ==> End() == old(End()))
    {
      var size, eof;
      ok, size, eof := DecodeVarint32();
      if !ok || bytesLeft < size {
        sub := new IStream(data, pos, bytesLeft);
        return false, sub;
      }
      sub := new IStream(data, pos, size);
      bytesLeft := bytesLeft - size;
    }

    /** Skips what the substream left over and moves the parent behind it. */
    method CloseStringSubstream(sub: IStream) returns (ok: bool)
      requires sub != this && data == sub.data && sub.Valid() && sub.End() + bytesLeft <= |data|
      modifies this, sub
      ensures ok && Valid() && pos == old(sub.End()) && bytesLeft == old(bytesLeft)
      ensures Rest() == old(data[sub.End()..sub.End() + bytesLeft])
    {
      if sub.bytesLeft > 0 {
        var buf;
        ok, buf := sub.Read(sub.bytesLeft);
        if !ok { assert false; }
      }
      pos := sub.pos;
      ok := true;
    }
  }
}

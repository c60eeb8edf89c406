/** Splitting commands into numbered packets and putting responses together from them. */
module Ledger {
  import opened Arith
  import opened Bytes
  import opened Sequences

  const TAG_APDU: Byte := 0x05

  /** The five bytes every packet starts with. */
  function Header(channel: nat, sequenceIdx: nat): (h: seq<Byte>)
    ensures |h| == 5
  {
    [channel / 0x100 % 0x100, channel % 0x100, TAG_APDU, sequenceIdx / 0x100 % 0x100, sequenceIdx % 0x100]
  }

  function Bytes16(n: nat): (b: seq<Byte>)
    ensures |b| == 2 && (n < 0x1_0000 ==> b[0] as int * 0x100 + b[1] == n)
  {
    [n / 0x100 % 0x100, n % 0x100]
  }

  /** What the first packet holds of n bytes; in sizes below seven the subtraction wraps around. */
  function FirstBlock(n: nat, packetSize: nat): (k: nat)
    ensures k <= n
  {
    if packetSize < 7 then n else Min(n, packetSize - 7)
  }

  /** The packets after the first. */
  function MorePackets(channel: nat, idx: nat, rest: seq<Byte>, packetSize: nat): seq<Byte>
    requires packetSize >= 7 || |rest| == 0
    decreases |rest|
  {
    if |rest| == 0 then []
    else
      var k := Min(|rest|, packetSize - 5);
      Header(channel, idx) + rest[..k] + MorePackets(channel, idx + 1, rest[k..], packetSize)
  }

  lemma PaddingFills(n: nat, p: nat)
    requires p > 0
    ensures n % p != 0 ==> (n + (p - n % p)) % p == 0
  {
    DivModFacts(n, p);
    MulDist(n / p, 1, p);
    DivModUnique(n + (p - n % p), p, n / p + 1, 0);
  }

  /** The zeros that fill the last packet. */
  function Padding(n: nat, packetSize: nat): (k: nat)
    requires packetSize > 0
    ensures (n + k) % packetSize == 0 && k < packetSize
  {
    PaddingFills(n, packetSize);
    if n % packetSize == 0 then 0 else packetSize - n % packetSize
  }

  function Unpadded(channel: nat, command: seq<Byte>, packetSize: nat): seq<Byte> {
    var k := FirstBlock(|command|, packetSize);
    Header(channel, 0) + Bytes16(|command|) + command[..k] + MorePackets(channel, 1, command[k..], packetSize)
  }

  /** The packets of a command. */
  function Wrapped(channel: nat, command: seq<Byte>, packetSize: nat): seq<Byte>
    requires packetSize > 0
  {
    var u := Unpadded(channel, command, packetSize);
    u + Repeat(0, Padding(|u|, packetSize))
  }

  /** Writes some bytes if there is room for all of them. */
  method Put(out: array<Byte>, offsetOut: nat, outLength: nat, bytes: seq<Byte>) returns (ok: bool, at: nat, left: nat)
    requires offsetOut + outLength <= out.Length
    modifies out
    ensures ok <==> outLength >= |bytes|
    ensures ok ==> at == offsetOut + |bytes| && left == outLength - |bytes|
    ensures ok ==> out[..at] == old(out[..offsetOut]) + bytes
    ensures forall i :: offsetOut + outLength <= i < out.Length ==> out[i] == old(out[i])
  {
    if outLength < |bytes| { return false, offsetOut, outLength; }
    for i := 0 to |bytes|
      invariant out[..offsetOut] == old(out[..offsetOut]) && out[offsetOut..offsetOut + i] == bytes[..i]
      invariant forall i :: offsetOut + outLength <= i < out.Length ==> out[i] == old(out[i])
    {
      out[offsetOut + i] := bytes[i];
    }
    at, left := offsetOut + |bytes|, outLength - |bytes|;
    assert out[..at] == out[..offsetOut] + out[offsetOut..at];
    ok := true;
  }

  /** Writes a header and the block behind it. */
  method PutPacket(out: array<Byte>, offsetOut: nat, outLength: nat, header: seq<Byte>, block: seq<Byte>)
    returns (ok: bool, at: nat, left: nat)
    requires offsetOut + outLength <= out.Length
    modifies out
    ensures ok <==> outLength >= |header| + |block|
    ensures ok ==> at == offsetOut + |header + block| && left == outLength - |header + block|
    ensures ok ==> out[..at] == old(out[..offsetOut]) + (header + block)
    ensures forall i :: offsetOut + outLength <= i < out.Length ==> out[i] == old(out[i])
  {
    ok, at, left := Put(out, offsetOut, outLength, header);
    if !ok { return; }
    ok, at, left := Put(out, at, left, block);
  }

  lemma NextPacket(channel: nat, idx: nat, command: seq<Byte>, offset: nat, packetSize: nat, k: nat)
    requires offset < |command| && packetSize >= 7 && k == Min(|command| - offset, packetSize - 5)
    ensures MorePackets(channel, idx, command[offset..], packetSize)
         == (Header(channel, idx) + command[offset..offset + k])
            + MorePackets(channel, idx + 1, command[offset + k..], packetSize)
  {
    assert command[offset..][..k] == command[offset..offset + k];
    assert command[offset..][k..] == command[offset + k..];
  }

  /** Writes the packets after the first, from some offset of the command. */
  method WrapRest(channel: nat, command: seq<Byte>, start: nat, packetSize: nat,
                  out: array<Byte>, at: nat, outLength: nat)
    returns (ok: bool, offsetOut: nat, left: nat)
    requires start <= |command| && (packetSize >= 7 || start == |command|) && at + outLength <= out.Length
    modifies out
    ensures var more := MorePackets(channel, 1, command[start..], packetSize);
      && (ok <==> |more| <= outLength)
      && (ok ==> offsetOut == at + |more| && left == outLength - |more| && out[..offsetOut] == old(out[..at]) + more)
    ensures forall i :: at + outLength <= i < out.Length ==> out[i] == old(out[i])
  {
    var offset, sequenceIdx := start, 1;
    offsetOut, left := at, outLength;
    ghost var more := MorePackets(channel, 1, command[start..], packetSize);
    ghost var rest, end := more, at + outLength;
    while offset != |command|
      invariant start <= offset <= |command| && offsetOut + left == end
      invariant rest == MorePackets(channel, sequenceIdx, command[offset..], packetSize)
      invariant offsetOut + |rest| == at + |more| && out[..offsetOut] + rest == old(out[..at]) + more
      invariant forall i :: end <= i < out.Length ==> out[i] == old(out[i])
      decreases |command| - offset
    {
      var blockSize := Min(|command| - offset, packetSize - 5);
      NextPacket(channel, sequenceIdx, command, offset, packetSize, blockSize);
      ghost var packet := Header(channel, sequenceIdx) + command[offset..offset + blockSize];
      rest := MorePackets(channel, sequenceIdx + 1, command[offset + blockSize..], packetSize);
      Associate(out[..offsetOut], packet, rest);
      var block := command[offset..offset + blockSize];
      ok, offsetOut, left := PutPacket(out, offsetOut, left, Header(channel, sequenceIdx), block);
      if !ok { return; }
      sequenceIdx := sequenceIdx + 1;
      offset := offset + blockSize;
    }
    ok := true;
  }

  lemma NotYetFull(start: nat, n: nat, p: nat)
    requires p > 0 && start <= n <= start + Padding(start, p) && n % p != 0
    ensures n < start + Padding(start, p)
  {}

  /** Between a position and the end of its packet no other packet ends. */
  lemma FullOnlyAtEnd(start: nat, n: nat, p: nat)
    requires p > 0 && start <= n <= start + Padding(start, p) && n % p == 0
    ensures n == start + Padding(start, p)
  {
    DivModFacts(start, p);
    DivModFacts(n, p);
    var k := Padding(start, p);
    if start % p != 0 {
      var q := start / p;
      if n < start + k {
        DivModUnique(n, p, q, n - q * p);
      }
    }
  }

  /** Fills the last packet with zeros. */
  method Pad(out: array<Byte>, start: nat, outLength: nat, packetSize: nat) returns (r: int)
    requires start + outLength <= out.Length && packetSize > 0
    modifies out
    ensures r == -1 <==> Padding(start, packetSize) > outLength
    ensures r != -1 ==> r == start + Padding(start, packetSize)
    ensures r != -1 ==> out[..r] == old(out[..start]) + Repeat(0, Padding(start, packetSize))
    ensures forall i :: start + outLength <= i < out.Length ==> out[i] == old(out[i])
  {
    var offsetOut := start;
    ghost var k := Padding(start, packetSize);
    while offsetOut % packetSize != 0
      invariant start <= offsetOut <= start + k && offsetOut <= start + outLength
      invariant out[..offsetOut] == old(out[..start]) + Repeat(0, offsetOut - start)
      invariant forall i :: start + outLength <= i < out.Length ==> out[i] == old(out[i])
      decreases start + k - offsetOut
    {
      NotYetFull(start, offsetOut, packetSize);
      if start + outLength - offsetOut < 1 { return -1; }
      out[offsetOut] := 0;
      offsetOut := offsetOut + 1;
    }
    FullOnlyAtEnd(start, offsetOut, packetSize);
    r := offsetOut;
  }

  /** Splits a command into packets; fails when they do not fit the output. */
  method WrapCommandAPDU(channel: nat, command: seq<Byte>, packetSize: nat, out: array<Byte>, outLength: nat)
    returns (r: int)
    requires outLength <= out.Length
    modifies out
    ensures r == -1 <==> packetSize < 3 || |Wrapped(channel, command, packetSize)| > outLength
    ensures r != -1 ==> r == |Wrapped(channel, command, packetSize)|
    ensures r != -1 ==> out[..r] == Wrapped(channel, command, packetSize)
    ensures forall i :: outLength <= i < out.Length ==> out[i] == old(out[i])
  {
    if packetSize < 3 || outLength < 7 { return -1; }
    var ok, offsetOut, left := Put(out, 0, outLength, Header(channel, 0) + Bytes16(|command|));
    var blockSize := FirstBlock(|command|, packetSize);
    ok, offsetOut, left := Put(out, offsetOut, left, command[..blockSize]);
    if !ok { return -1; }
    ok, offsetOut, left := WrapRest(channel, command, blockSize, packetSize, out, offsetOut, left);
    if !ok { return -1; }
    assert out[..offsetOut] == Unpadded(channel, command, packetSize);
    r := Pad(out, offsetOut, left, packetSize);
  }

  // ---- putting a response together ----

  /** An error, packets still missing, a header read past the end of the data, or the whole response. */
  datatype Unwrapped = Bad | More | Overrun | Whole(content: seq<Byte>)

  /** Byte i of a packet header. */
  function HeaderByte(channel: nat, idx: nat, i: nat): Byte
    requires i < 5
  {
    Header(channel, idx)[i]
  }

  /** A packet header stands at a position, as far as the data goes. */
  predicate HeaderAt(channel: nat, idx: nat, data: seq<Byte>, at: nat)
    requires at <= |data|
  {
    forall i :: 0 <= i < 5 && i < |data| - at ==> data[at + i] == HeaderByte(channel, idx, i)
  }

  /** Reads need more bytes from packets numbered from idx on, behind the bytes that are done. */
  function Collect(done: seq<Byte>, channel: nat, data: seq<Byte>, at: nat, idx: nat, need: nat, packetSize: nat)
    : Unwrapped
    requires at <= |data| && (packetSize >= 7 || need == 0)
    decreases need
  {
    if need == 0 then Whole(done)
    else if at == |data| then More
    else if !HeaderAt(channel, idx, data, at) then Bad
    else if |data| - at < 5 then Overrun
    else
      var k := Min(need, packetSize - 5);
      if k > |data| - at - 5 then More
      else Collect(done + data[at + 5..at + 5 + k], channel, data, at + 5 + k, idx + 1, need - k, packetSize)
  }

  function Unwrap(channel: nat, data: seq<Byte>, packetSize: nat, outLength: nat): Unwrapped {
    if |data| < 12 then More
    else if !HeaderAt(channel, 0, data, 0) then Bad
    else
      var n := data[5] as int * 0x100 + data[6];
      var k := FirstBlock(n, packetSize);
      if outLength < n then Bad
      else if |data| < 7 + n then More
      else Collect(data[7..7 + k], channel, data, 7 + k, 1, n - k, packetSize)
  }

  /** The result code, and the output of a whole response. */
  ghost predicate Answers(overrun: bool, r: int, out: seq<Byte>, u: Unwrapped) {
    && (overrun <==> u.Overrun?)
    && (u.Bad? ==> r == -1)
    && (u.More? ==> r == 0)
    && (u.Whole? ==> r == |u.content| <= |out| && out[..r] == u.content)
  }

  /** Compares five bytes with a packet header, one after the other; overrun when the data ends first. */
  method CheckHeader(channel: nat, sequenceIdx: nat, data: seq<Byte>, offset: nat) returns (same: bool, overrun: bool)
    requires offset <= |data|
    ensures same || overrun <==> HeaderAt(channel, sequenceIdx, data, offset)
    ensures overrun ==> |data| - offset < 5
    ensures same ==> !overrun && |data| - offset >= 5
  {
    for i := 0 to 5
      invariant i <= |data| - offset
      invariant forall k :: 0 <= k < i ==> data[offset + k] == HeaderByte(channel, sequenceIdx, k)
    {
      if offset + i == |data| { return false, true; }
      if data[offset + i] != HeaderByte(channel, sequenceIdx, i) { return false, false; }
    }
    return true, false;
  }

  method CopyBlock(data: seq<Byte>, offset: nat, n: nat, out: array<Byte>, offsetOut: nat)
    requires offset + n <= |data| && offsetOut + n <= out.Length
    modifies out
    ensures out[..offsetOut + n] == old(out[..offsetOut]) + data[offset..offset + n]
  {
    for i := 0 to n
      invariant forall k :: 0 <= k < offsetOut ==> out[k] == old(out[k])
      invariant forall k :: offsetOut <= k < offsetOut + i ==> out[k] == data[offset + k - offsetOut]
    {
      out[offsetOut + i] := data[offset + i];
    }
    assert out[..offsetOut] == old(out[..offsetOut]);
    assert out[offsetOut..offsetOut + n] == data[offset..offset + n];
    assert out[..offsetOut + n] == out[..offsetOut] + out[offsetOut..offsetOut + n];
  }

  /** Reads the packets after the first, whose block is already in the output. */
  method UnwrapRest(channel: nat, data: seq<Byte>, packetSize: nat, start: nat, out: array<Byte>, at: nat,
                    responseLength: nat)
    returns (overrun: bool, r: int)
    requires start <= |data| && at <= responseLength <= out.Length && (packetSize >= 7 || at == responseLength)
    modifies out
    ensures Answers(overrun, r, out[..],
                    Collect(old(out[..at]), channel, data, start, 1, responseLength - at, packetSize))
  {
    var offset, offsetOut, sequenceIdx := start, at, 0;
    ghost var u := Collect(out[..at], channel, data, start, 1, responseLength - at, packetSize);
    while offsetOut != responseLength
      invariant start <= offset <= |data| && at <= offsetOut <= responseLength
      invariant u == Collect(out[..offsetOut], channel, data, offset, sequenceIdx + 1, responseLength - offsetOut,
                             packetSize)
      decreases responseLength - offsetOut
    {
      sequenceIdx := sequenceIdx + 1;
      if offset == |data| { return false, 0; }
      var same, past := CheckHeader(channel, sequenceIdx, data, offset);
      if !same { return past, -1; }
      offset := offset + 5;
      var blockSize := Min(responseLength - offsetOut, packetSize - 5);
      if blockSize > |data| - offset { return false, 0; }
      CopyBlock(data, offset, blockSize, out, offsetOut);
      offset, offsetOut := offset + blockSize, offsetOut + blockSize;
    }
    return false, offsetOut;
  }

  /** Puts a response together from packets: -1 is an error, and 0 asks for more packets. */
  method UnwrapReponseAPDU(channel: nat, data: seq<Byte>, packetSize: nat, out: array<Byte>, outLength: nat)
    returns (overrun: bool, r: int)
    requires outLength <= out.Length
    modifies out
    ensures Answers(overrun, r, out[..], Unwrap(channel, data, packetSize, outLength))
  {
    if |data| < 7 + 5 { return false, 0; }
    var same, past := CheckHeader(channel, 0, data, 0);
    if !same { return false, -1; }
    var responseLength := data[5] as int * 0x100 + data[6];
    if outLength < responseLength { return false, -1; }
    if |data| < 7 + responseLength { return false, 0; }
    var blockSize := FirstBlock(responseLength, packetSize);
    CopyBlock(data, 7, blockSize, out, 0);
    assert out[..blockSize] == data[7..7 + blockSize];
    overrun, r := UnwrapRest(channel, data, packetSize, 7 + blockSize, out, blockSize, responseLength);
  }

  // ---- whole packets ----

  /** n bytes are whole packets. */
  predicate Packets(n: nat, p: nat)
    requires p > 0
  {
    n == 0 || (n >= p && Packets(n - p, p))
  }

  lemma {:induction false} WholePackets(n: nat, p: nat)
    requires p > 0 && n % p == 0
    ensures Packets(n, p)
  {
    if n > 0 {
      DivModFacts(n, p);
      if n < p { DivModUnique(n, p, 0, n); }
      MulDist(n / p, 1, p);
      DivModUnique(n - p, p, n / p - 1, 0);
      WholePackets(n - p, p);
    }
  }

  lemma {:induction false} CollectStays(done: seq<Byte>, channel: nat, data: seq<Byte>, at: nat, idx: nat, need: nat,
                                        packetSize: nat)
    requires at <= |data| && packetSize >= 12 && (need == 0 || Packets(|data| - at, packetSize))
    ensures !Collect(done, channel, data, at, idx, need, packetSize).Overrun?
    decreases need
  {
    if need > 0 && |data| - at >= 5 {
      var k := Min(need, packetSize - 5);
      CollectStays(done + data[at + 5..at + 5 + k], channel, data, at + 5 + k, idx + 1, need - k, packetSize);
    }
  }

  /** On whole packets no header is read past the end of the data. */
  lemma UnwrapStays(channel: nat, data: seq<Byte>, packetSize: nat, outLength: nat)
    requires packetSize >= 12 && |data| % packetSize == 0
    ensures !Unwrap(channel, data, packetSize, outLength).Overrun?
  {
    WholePackets(|data|, packetSize);
    if |data| >= 12 {
      var n := data[5] as int * 0x100 + data[6];
      var k := FirstBlock(n, packetSize);
      if |data| >= 7 + n {
        CollectStays(data[7..7 + k], channel, data, 7 + k, 1, n - k, packetSize);
      }
    }
  }

  // ---- unwrapping what was wrapped ----

  lemma Parts(data: seq<Byte>, at: nat, h: seq<Byte>, b: seq<Byte>, more: seq<Byte>)
    requires at <= |data| && data[at..] == h + b + more
    ensures |data| - at == |h| + |b| + |more|
    ensures forall i :: 0 <= i < |h| ==> data[at + i] == h[i]
    ensures data[at + |h|..at + |h| + |b|] == b && data[at + |h| + |b|..] == more
  {
    assert |data[at..]| == |h| + |b| + |more|;
    assert forall i :: 0 <= i < |h| ==> data[at..][i] == h[i];
    assert data[at + |h|..at + |h| + |b|] == data[at..][|h|..|h| + |b|];
    assert data[at + |h| + |b|..] == data[at..][|h| + |b|..];
  }

  /** The first packet of a sequence of packets, and the data behind it. */
  lemma PacketFirst(channel: nat, idx: nat, rest: seq<Byte>, tail: seq<Byte>, packetSize: nat, data: seq<Byte>, at: nat)
    requires packetSize >= 12 && |rest| > 0 && at <= |data|
    requires data[at..] == MorePackets(channel, idx, rest, packetSize) + tail
    ensures var k := Min(|rest|, packetSize - 5);
      && |data| - at >= 5 + k && HeaderAt(channel, idx, data, at) && data[at + 5..at + 5 + k] == rest[..k]
      && data[at + 5 + k..] == MorePackets(channel, idx + 1, rest[k..], packetSize) + tail
  {
    var k := Min(|rest|, packetSize - 5);
    var h, more := Header(channel, idx), MorePackets(channel, idx + 1, rest[k..], packetSize);
    var b := rest[..k];
    Associate(h + b, more, tail);
    assert data[at..] == h + b + (more + tail);
    Parts(data, at, h, b, more + tail);
  }

  lemma {:induction false} CollectAll(done: seq<Byte>, channel: nat, data: seq<Byte>, at: nat, idx: nat,
                                      rest: seq<Byte>, tail: seq<Byte>, packetSize: nat)
    requires packetSize >= 12 && at <= |data| && data[at..] == MorePackets(channel, idx, rest, packetSize) + tail
    ensures Collect(done, channel, data, at, idx, |rest|, packetSize) == Whole(done + rest)
    decreases |rest|
  {
    if |rest| > 0 {
      var k := Min(|rest|, packetSize - 5);
      PacketFirst(channel, idx, rest, tail, packetSize, data, at);
      CollectAll(done + rest[..k], channel, data, at + 5 + k, idx + 1, rest[k..], tail, packetSize);
      Associate(done, rest[..k], rest[k..]);
      assert rest == rest[..k] + rest[k..];
    } else {
      assert done + rest == done;
    }
  }

  /** The parts of a wrapped command. */
  lemma WrappedParts(channel: nat, c: seq<Byte>, packetSize: nat, tail: seq<Byte>, data: seq<Byte>)
    requires packetSize >= 12 && |c| < 0x1_0000 && data == Unpadded(channel, c, packetSize) + tail
    ensures var k := FirstBlock(|c|, packetSize);
      && |data| >= 7 + k && HeaderAt(channel, 0, data, 0) && data[5] as int * 0x100 + data[6] == |c|
      && data[7..7 + k] == c[..k] && data[7 + k..] == MorePackets(channel, 1, c[k..], packetSize) + tail
  {
    var k := FirstBlock(|c|, packetSize);
    var h, l, more := Header(channel, 0), Bytes16(|c|), MorePackets(channel, 1, c[k..], packetSize);
    Associate(h + l + c[..k], more, tail);
    Parts(data, 0, h + l, c[..k], more + tail);
    assert forall i :: 0 <= i < 5 ==> (h + l)[i] == h[i];
    assert (h + l)[5] == l[0] && (h + l)[6] == l[1];
  }

  lemma {:induction false} MoreIsLonger(channel: nat, idx: nat, rest: seq<Byte>, packetSize: nat)
    requires packetSize >= 12
    ensures |MorePackets(channel, idx, rest, packetSize)| >= |rest|
    decreases |rest|
  {
    if |rest| > 0 { MoreIsLonger(channel, idx + 1, rest[Min(|rest|, packetSize - 5)..], packetSize); }
  }

  lemma AllPackets(channel: nat, c: seq<Byte>, packetSize: nat, outLength: nat, pad: seq<Byte>, data: seq<Byte>)
    requires packetSize >= 12 && |c| < 0x1_0000 && |c| <= outLength && data == Unpadded(channel, c, packetSize) + pad
    requires Packets(|data|, packetSize)
    ensures Unwrap(channel, data, packetSize, outLength) == Whole(c)
  {
    hide Collect, HeaderAt, Unpadded, MorePackets;
    var k := FirstBlock(|c|, packetSize);
    WrappedParts(channel, c, packetSize, pad, data);
    MoreIsLonger(channel, 1, c[k..], packetSize);
    CollectAll(c[..k], channel, data, 7 + k, 1, c[k..], pad, packetSize);
    assert c == c[..k] + c[k..];
  }

  /** Unwrapping the packets of a command gives the command back. */
  lemma UnwrapWrapped(channel: nat, c: seq<Byte>, packetSize: nat, outLength: nat)
    requires packetSize >= 12 && |c| < 0x1_0000 && |c| <= outLength
    ensures |Wrapped(channel, c, packetSize)| % packetSize == 0
    ensures Unwrap(channel, Wrapped(channel, c, packetSize), packetSize, outLength) == Whole(c)
  {
    var u := Unpadded(channel, c, packetSize);
    var pad := Repeat(0, Padding(|u|, packetSize));
    WholePackets(|u + pad|, packetSize);
    AllPackets(channel, c, packetSize, outLength, pad, u + pad);
  }

  /** Cutting data behind a header keeps the header. */
  lemma FirstOf(channel: nat, data: seq<Byte>, at: nat, idx: nat, m: nat)
    requires at <= m <= |data|
    ensures HeaderAt(channel, idx, data, at) ==> HeaderAt(channel, idx, data[..m], at)
  {}

  /** Data that ends with a packet before the last one asks for more. */
  lemma {:induction false} CollectSome(done: seq<Byte>, channel: nat, data: seq<Byte>, at: nat, idx: nat,
                                       rest: seq<Byte>, tail: seq<Byte>, packetSize: nat, m: nat)
    requires packetSize >= 12 && at <= m < |data| && |rest| > 0 && |tail| < packetSize
    requires data[at..] == MorePackets(channel, idx, rest, packetSize) + tail
    requires Packets(|data| - at, packetSize) && Packets(m - at, packetSize)
    ensures Collect(done, channel, data[..m], at, idx, |rest|, packetSize) == More
    decreases |rest|
  {
    PacketFirst(channel, idx, rest, tail, packetSize, data, at);
    if m > at {
      var k := Min(|rest|, packetSize - 5);
      FirstOf(channel, data, at, idx, m);
      if |rest| > k {
        var next := done + data[..m][at + 5..at + 5 + k];
        CollectSome(next, channel, data, at + 5 + k, idx + 1, rest[k..], tail, packetSize, m);
      }
    }
  }

  lemma FewerPackets(channel: nat, c: seq<Byte>, packetSize: nat, outLength: nat, m: nat, pad: seq<Byte>,
                     data: seq<Byte>)
    requires packetSize >= 12 && |c| < 0x1_0000 && |c| <= outLength && |pad| < packetSize
    requires data == Unpadded(channel, c, packetSize) + pad
    requires Packets(m, packetSize) && Packets(|data|, packetSize) && m < |data|
    ensures Unwrap(channel, data[..m], packetSize, outLength) == More
  {
    var k := FirstBlock(|c|, packetSize);
    WrappedParts(channel, c, packetSize, pad, data);
    if m > 0 {
      FirstOf(channel, data, 0, 0, m);
      assert data[..m][5] == data[5] && data[..m][6] == data[6];
      if |c| > k {
        CollectSome(data[..m][7..7 + k], channel, data, 7 + k, 1, c[k..], pad, packetSize, m);
      }
    }
  }

  /** On every proper prefix of whole packets unwrapping asks for more, so reading ends with the last packet. */
  lemma PrefixAsksForMore(channel: nat, c: seq<Byte>, packetSize: nat, outLength: nat, m: nat)
    requires packetSize >= 12 && |c| < 0x1_0000 && |c| <= outLength
    requires m % packetSize == 0 && m < |Wrapped(channel, c, packetSize)|
    ensures Unwrap(channel, Wrapped(channel, c, packetSize)[..m], packetSize, outLength) == More
  {
    var u := Unpadded(channel, c, packetSize);
    var pad := Repeat(0, Padding(|u|, packetSize));
    WholePackets(m, packetSize);
    WholePackets(|u + pad|, packetSize);
    FewerPackets(channel, c, packetSize, outLength, m, pad, u + pad);
  }

  // ---- the packets in numbers ----

  /** Two bytes of channel, the byte 5, and two bytes that count the packets. */
  predicate Numbered(b: seq<Byte>, channel: nat, idx: nat) {
    && |b| >= 5 && b[0] as int * 256 + b[1] == channel % 0x1_0000 && b[2] == 5
    && b[3] as int * 256 + b[4] == idx % 0x1_0000
  }

  lemma TwoBytes(n: nat)
    ensures n / 0x100 % 0x100 * 256 + n % 0x100 == n % 0x1_0000
  {}

  lemma HeaderNumbered(channel: nat, idx: nat, x: seq<Byte>)
    ensures Numbered(Header(channel, idx) + x, channel, idx)
  {
    TwoBytes(channel);
    TwoBytes(idx);
  }

  /** The first packet: a header that counts 0, the length of the command in two bytes, and its first bytes. */
  lemma FirstPacket(channel: nat, c: seq<Byte>, packetSize: nat)
    requires packetSize >= 7
    ensures var w, k := Wrapped(channel, c, packetSize), Min(|c|, packetSize - 7);
      && |w| >= 7 + k && |w| % packetSize == 0 && Numbered(w, channel, 0)
      && w[5] as int * 256 + w[6] == |c| % 0x1_0000 && w[7..7 + k] == c[..k]
  {
    var k := Min(|c|, packetSize - 7);
    var more := MorePackets(channel, 1, c[k..], packetSize);
    var w := Wrapped(channel, c, packetSize);
    var z := w[7 + k + |more|..];
    assert w == Header(channel, 0) + (Bytes16(|c|) + c[..k] + more + z);
    HeaderNumbered(channel, 0, Bytes16(|c|) + c[..k] + more + z);
    TwoBytes(|c|);
  }

  /** A packet at some place: its header, and the bytes of its block. */
  predicate PacketAt(w: seq<Byte>, at: nat, channel: nat, idx: nat, block: seq<Byte>) {
    |w| >= at + 5 + |block| && Numbered(w[at..], channel, idx) && w[at + 5..at + 5 + |block|] == block
  }

  lemma PacketHere(channel: nat, idx: nat, block: seq<Byte>, tail: seq<Byte>)
    ensures PacketAt(Header(channel, idx) + (block + tail), 0, channel, idx, block)
  {
    var w := Header(channel, idx) + (block + tail);
    HeaderNumbered(channel, idx, block + tail);
    assert w[0..] == w && w[5..5 + |block|] == block;
  }

  lemma PacketBehind(h: seq<Byte>, m: seq<Byte>, z: seq<Byte>, at: nat, channel: nat, idx: nat, block: seq<Byte>)
    requires PacketAt(m, at, channel, idx, block)
    ensures PacketAt(h + (m + z), |h| + at, channel, idx, block)
  {
    var w, b := h + (m + z), |h| + at;
    assert w[b..] == m[at..] + z;
    assert w[b + 5..b + 5 + |block|] == m[at + 5..at + 5 + |block|];
  }

  /** The size of i things. */
  function Times(i: nat, size: nat): nat {
    MulNonneg(i, size);
    i * size
  }

  lemma NoneYet(size: nat)
    ensures Times(0, size) == 0
  {}

  lemma OneMore(i: nat, size: nat)
    requires i > 0
    ensures Times(i, size) == Times(i - 1, size) + size
  {
    MulDist(i, 1, size);
  }

  /** Packet i of those after the first begins i packet sizes later, and holds the next bytes of the command. */
  lemma {:induction false} PacketsAt(channel: nat, idx: nat, rest: seq<Byte>, packetSize: nat, i: nat, from: nat)
    requires packetSize >= 7 && from == Times(i, packetSize - 5) < |rest|
    ensures PacketAt(MorePackets(channel, idx, rest, packetSize), Times(i, packetSize), channel, idx + i,
                     rest[from..from + Min(|rest| - from, packetSize - 5)])
    decreases i
  {
    hide PacketAt, Header, Times;
    var k := Min(|rest|, packetSize - 5);
    var tail := MorePackets(channel, idx + 1, rest[k..], packetSize);
    Associate(Header(channel, idx), rest[..k], tail);
    if i == 0 {
      NoneYet(packetSize);
      NoneYet(packetSize - 5);
      PacketHere(channel, idx, rest[..k], tail);
    } else {
      OneMore(i, packetSize);
      OneMore(i, packetSize - 5);
      PacketsAt(channel, idx + 1, rest[k..], packetSize, i - 1, from - k);
      var b := Min(|rest| - from, packetSize - 5);
      assert rest[k..][from - k..from - k + b] == rest[from..from + b];
      var h := Header(channel, idx) + rest[..k];
      PacketBehind(h, tail, [], Times(i - 1, packetSize), channel, idx + i, rest[from..from + b]);
      assert tail + [] == tail;
    }
  }

  lemma BehindFirst(channel: nat, c: seq<Byte>, packetSize: nat, a: nat, i: nat, block: seq<Byte>)
    requires packetSize >= 7 && |c| > packetSize - 7
    requires PacketAt(MorePackets(channel, 1, c[packetSize - 7..], packetSize), a, channel, i, block)
    ensures PacketAt(Wrapped(channel, c, packetSize), packetSize + a, channel, i, block)
  {
    hide PacketAt, Header, MorePackets, Bytes16;
    var n := packetSize - 7;
    var head := Header(channel, 0) + Bytes16(|c|) + c[..n];
    var m := MorePackets(channel, 1, c[n..], packetSize);
    var z := Repeat(0, Padding(|head + m|, packetSize));
    Associate(head, m, z);
    PacketBehind(head, m, z, a, channel, i, block);
  }

  /** Packet i of a command, for i > 0. */
  lemma LaterPacket(channel: nat, c: seq<Byte>, packetSize: nat, i: nat, from: nat)
    requires packetSize >= 7 && i > 0 && from == packetSize - 7 + (i - 1) * (packetSize - 5) && from < |c|
    ensures i * packetSize >= 0
    ensures PacketAt(Wrapped(channel, c, packetSize), i * packetSize, channel, i,
                     c[from..from + Min(|c| - from, packetSize - 5)])
  {
    hide PacketAt, MorePackets, Wrapped;
    var n := packetSize - 7;
    assert Times(i - 1, packetSize - 5) == from - n && Times(i, packetSize) == i * packetSize;
    OneMore(i, packetSize);
    var b := Min(|c| - from, packetSize - 5);
    PacketsAt(channel, 1, c[n..], packetSize, i - 1, from - n);
    assert c[n..][from - n..from - n + b] == c[from..from + b];
    BehindFirst(channel, c, packetSize, Times(i - 1, packetSize), i, c[from..from + b]);
  }

  // ---- nothing else is unwrapped ----

  lemma HeaderIs(channel: nat, idx: nat, data: seq<Byte>, at: nat)
    requires at + 5 <= |data| && HeaderAt(channel, idx, data, at)
    ensures data[at..at + 5] == Header(channel, idx)
  {
    forall i | 0 <= i < 5 ensures data[at..at + 5][i] == Header(channel, idx)[i] {
      assert data[at + i] == HeaderByte(channel, idx, i);
    }
  }

  lemma PrefixBehind(a: seq<Byte>, x: seq<Byte>, y: seq<Byte>)
    requires x <= y
    ensures a + x <= a + y
  {}

  lemma BlockOf(done: seq<Byte>, block: seq<Byte>, c: seq<Byte>)
    requires |done| + |block| <= |c| && c[..|done| + |block|] == done + block
    ensures c[..|done|] == done && c[|done|..][..|block|] == block
    ensures c[|done|..][|block|..] == c[|done| + |block|..]
  {
    assert c[..|done|] == c[..|done| + |block|][..|done|];
    assert c[|done|..][..|block|] == c[..|done| + |block|][|done|..];
  }

  lemma PacketAhead(data: seq<Byte>, at: nat, k: nat, more: seq<Byte>)
    requires at + 5 + k <= |data| && more <= data[at + 5 + k..]
    ensures data[at..at + 5] + data[at + 5..at + 5 + k] + more <= data[at..]
  {
    PrefixBehind(data[at..at + 5] + data[at + 5..at + 5 + k], more, data[at + 5 + k..]);
    assert data[at..] == data[at..at + 5] + data[at + 5..at + 5 + k] + data[at + 5 + k..];
  }

  /** What is collected comes from packets with the right headers. */
  lemma {:induction false} CollectOnly(done: seq<Byte>, channel: nat, data: seq<Byte>, at: nat, idx: nat, need: nat,
                                       packetSize: nat, c: seq<Byte>)
    requires at <= |data| && (packetSize >= 7 || need == 0)
    requires Collect(done, channel, data, at, idx, need, packetSize) == Whole(c)
    ensures |c| == |done| + need && c[..|done|] == done
    ensures MorePackets(channel, idx, c[|done|..], packetSize) <= data[at..]
    decreases need
  {
    hide HeaderAt, Header;
    if need > 0 {
      var k := Min(need, packetSize - 5);
      var block := data[at + 5..at + 5 + k];
      CollectOnly(done + block, channel, data, at + 5 + k, idx + 1, need - k, packetSize, c);
      BlockOf(done, block, c);
      HeaderIs(channel, idx, data, at);
      PacketAhead(data, at, k, MorePackets(channel, idx + 1, c[|done| + k..], packetSize));
    }
  }

  lemma LengthBytes(a: Byte, b: Byte)
    ensures Bytes16(a as int * 0x100 + b) == [a, b]
  {}

  lemma DataParts(data: seq<Byte>, k: nat)
    requires 7 + k <= |data|
    ensures data == data[0..5] + [data[5], data[6]] + data[7..7 + k] + data[7 + k..]
  {}

  /** A response is only taken from data that begins with the packets of that response. */
  lemma OnlyWrapped(channel: nat, data: seq<Byte>, packetSize: nat, outLength: nat, c: seq<Byte>)
    requires Unwrap(channel, data, packetSize, outLength) == Whole(c)
    ensures |c| <= outLength && |c| < 0x1_0000 && Unpadded(channel, c, packetSize) <= data
  {
    hide HeaderAt, Header, Collect, MorePackets, Bytes16;
    var n := data[5] as int * 0x100 + data[6];
    var k := FirstBlock(n, packetSize);
    CollectOnly(data[7..7 + k], channel, data, 7 + k, 1, n - k, packetSize, c);
    HeaderIs(channel, 0, data, 0);
    LengthBytes(data[5], data[6]);
    var first := data[0..5] + [data[5], data[6]] + data[7..7 + k];
    PrefixBehind(first, MorePackets(channel, 1, c[k..], packetSize), data[7 + k..]);
    DataParts(data, k);
  }
}

/** Putting responses together from the pieces the transport delivers: length-prefixed frames. */
module Reassembly {
  import opened Bytes
  import opened Digits

  /** The frame of an uncompressed message. */
  function Frame(content: seq<Byte>): seq<Byte>
    requires |content| < 0x1_0000_0000
  {
    [0] + Bytes32(|content|) + content
  }

  /** Writes the header in front of a message that is already in the buffer, and returns the frame's size. */
  method EncodeFrame(buffer: array<Byte>, contentSize: nat) returns (size: nat)
    requires contentSize < 0xFFFF_FFFB && contentSize + 5 <= buffer.Length
    modifies buffer
    ensures size == contentSize + 5 && buffer[..size] == Frame(old(buffer[5..size]))
    ensures buffer[0] == 0 && Num(buffer[1..5], 256) == contentSize
    ensures buffer[5..] == old(buffer[5..])
  {
    buffer[0] := 0;
    buffer[1] := contentSize / 0x100_0000;
    buffer[2] := contentSize / 0x1_0000 % 0x100;
    buffer[3] := contentSize / 0x100 % 0x100;
    buffer[4] := contentSize % 0x100;
    size := contentSize + 5;
    var h: Word32 := contentSize;
    Bytes32Back(h);
    assert buffer[1..5] == Bytes32(h);
    FourBytes(buffer[1], buffer[2], buffer[3], buffer[4]);
    assert buffer[1..5] == [buffer[1], buffer[2], buffer[3], buffer[4]];
  }

  /** The size of a frame, from its header; sizes are kept in 31 bits. */
  function FrameSize(b: seq<Byte>): nat
    requires |b| >= 5
  {
    BigEndian32(b[1..5]) + 5
  }

  predicate IsFrame(f: seq<Byte>) {
    |f| >= 5 && |f| == FrameSize(f) < 0x8000_0000
  }

  /** The size is the big-endian number in bytes 1 to 4, and five more for the header. */
  lemma HeaderNumber(b: seq<Byte>)
    requires |b| >= 5
    ensures FrameSize(b) == Num(b[1..5], 256) + 5
  {
    FourBytes(b[1], b[2], b[3], b[4]);
    assert b[1..5] == [b[1], b[2], b[3], b[4]];
  }

  /** What a frame is, in numbers. */
  lemma FrameExact(f: seq<Byte>)
    ensures IsFrame(f) <==> |f| >= 5 && Num(f[1..5], 256) + 5 == |f| < 0x8000_0000
  {
    if |f| >= 5 { HeaderNumber(f); }
  }

  lemma FrameIsFrame(content: seq<Byte>)
    requires |content| + 5 < 0x8000_0000
    ensures IsFrame(Frame(content))
  {
    Bytes32Back(|content|);
    assert Frame(content)[1..5] == Bytes32(|content|);
  }

  function Concat(fs: seq<seq<Byte>>): seq<Byte> {
    if |fs| == 0 then [] else fs[0] + Concat(fs[1..])
  }

  lemma {:induction false} ConcatSnoc(fs: seq<seq<Byte>>, f: seq<Byte>)
    ensures Concat(fs + [f]) == Concat(fs) + f
  {
    if |fs| == 0 {
      assert [f][1..] == [];
    } else {
      ConcatSnoc(fs[1..], f);
      assert (fs + [f])[1..] == fs[1..] + [f];
    }
  }

  /** A frame has begun, with its whole header, and is not complete. */
  predicate Begun(p: seq<Byte>) {
    5 <= |p| < FrameSize(p) < 0x8000_0000
  }

  predicate AllFrames(fs: seq<seq<Byte>>) {
    forall i :: 0 <= i < |fs| ==> IsFrame(fs[i])
  }

  /** Frames that begin the same stream are the same. */
  lemma SameFirst(f: seq<Byte>, x: seq<Byte>, g: seq<Byte>, y: seq<Byte>)
    requires IsFrame(f) && IsFrame(g) && f + x == g + y
    ensures f == g && x == y
  {
    assert f[1..5] == (f + x)[1..5] == (g + y)[1..5] == g[1..5];
    assert f == (f + x)[..|f|] && x == (f + x)[|f|..];
    assert g == (g + y)[..|g|] && y == (g + y)[|g|..];
  }

  lemma FrameLong(f: seq<Byte>)
    requires IsFrame(f)
    ensures |f| >= 5
  {}

  /** Only one way leads from a stream back to frames: those found in an initial part are its first frames. */
  lemma {:induction false} UniqueFrames(ds: seq<seq<Byte>>, tail: seq<Byte>, fs: seq<seq<Byte>>)
    returns (gs: seq<seq<Byte>>)
    requires AllFrames(ds) && AllFrames(fs) && Concat(ds) + tail == Concat(fs)
    ensures fs == ds + gs && tail == Concat(gs) && AllFrames(gs)
  {
    hide IsFrame;
    if |ds| == 0 {
      gs := fs;
      assert Concat(ds) + tail == tail && fs == ds + fs;
    } else {
      assert Concat(ds) + tail == ds[0] + (Concat(ds[1..]) + tail);
      FrameLong(ds[0]);
      assert |fs| > 0;
      SameFirst(ds[0], Concat(ds[1..]) + tail, fs[0], Concat(fs[1..]));
      gs := UniqueFrames(ds[1..], tail, fs[1..]);
      assert fs == [fs[0]] + fs[1..] && ds == [ds[0]] + ds[1..];
    }
  }

  lemma FrameNotBegun(f: seq<Byte>, x: seq<Byte>)
    requires IsFrame(f)
    ensures !Begun(f + x)
  {
    assert (f + x)[1..5] == f[1..5];
  }

  /** A stream that ends with its last frame leaves nothing begun. */
  lemma NothingBegun(p: seq<Byte>, fs: seq<seq<Byte>>)
    requires AllFrames(fs) && p == Concat(fs) && (p != [] ==> Begun(p))
    ensures p == [] && fs == []
  {
    if |fs| > 0 { FrameNotBegun(fs[0], Concat(fs[1..])); }
  }

  /** How a chunk is taken: all of it, or up to a header that leaves the chunk, or that announces too much. */
  datatype Outcome = Taken | Outside | TooLarge

  /** What becomes of the bytes of a chunk, with some bytes missing to the frame that has begun. */
  function Fate(missing: nat, s: seq<Byte>): Outcome
    decreases |s|
  {
    if missing > 0 then if |s| <= missing then Taken else Fate(0, s[missing..])
    else if |s| < 5 then Outside
    else if FrameSize(s) >= 0x8000_0000 then TooLarge
    else if |s| <= FrameSize(s) then Taken
    else Fate(0, s[FrameSize(s)..])
  }

  /** A position between a frame's first byte and the end of its header. */
  predicate InHeader(fs: seq<seq<Byte>>, b: nat) {
    if |fs| == 0 then false
    else if b < |fs[0]| then 0 < b < 5
    else InHeader(fs[1..], b - |fs[0]|)
  }

  /** What is missing at a position of the frame that has begun there. */
  function MissingAt(fs: seq<seq<Byte>>, b: nat): nat {
    if |fs| == 0 then 0
    else if b < |fs[0]| then (if b == 0 then 0 else |fs[0]| - b)
    else MissingAt(fs[1..], b - |fs[0]|)
  }

  lemma HeaderOf(fs: seq<seq<Byte>>, b: nat)
    requires |fs| > 0
    ensures InHeader(fs, b) == if b < |fs[0]| then 0 < b < 5 else InHeader(fs[1..], b - |fs[0]|)
    ensures MissingAt(fs, b)
         == if b >= |fs[0]| then MissingAt(fs[1..], b - |fs[0]|) else if b == 0 then 0 else |fs[0]| - b
  {}

  lemma NoFrames(b: nat)
    ensures !InHeader([], b) && MissingAt([], b) == 0 && Fate(0, []) == Outside
  {}

  lemma AtStart(fs: seq<seq<Byte>>)
    requires AllFrames(fs)
    ensures !InHeader(fs, 0) && MissingAt(fs, 0) == 0
  {}

  /** The size stands in the first bytes. */
  lemma HeaderKept(b: seq<Byte>, p: seq<Byte>, x: seq<Byte>)
    requires |p| >= 5 && b == p + x
    ensures FrameSize(b) == FrameSize(p)
  {
    assert b[1..5] == p[1..5];
  }

  lemma FrameThenMore(f: seq<Byte>, b: nat, more: seq<Byte>, s: seq<Byte>)
    requires IsFrame(f) && b < |f| && (b == 0 || b >= 5) && s == f[b..] + more && |more| > 0
    ensures Fate(if b == 0 then 0 else |f| - b, s) == Fate(0, more)
  {
    assert s[|f| - b..] == more;
    if b == 0 {
      HeaderKept(s, f, more);
    }
  }

  lemma PieceOfFrame(f: seq<Byte>, b: nat, e: nat)
    requires IsFrame(f) && b <= e <= |f| && b < |f| && (b == 0 || b >= 5)
    ensures Fate(if b == 0 then 0 else |f| - b, f[b..e]) == if b == 0 && e < 5 then Outside else Taken
  {
    if b == 0 && e >= 5 {
      assert f == f[..e] + f[e..];
      HeaderKept(f, f[..e], f[e..]);
    }
  }

  /** From a position outside headers, the bytes leave the chunk exactly when it ends in a header or before one. */
  predicate Splits(fs: seq<seq<Byte>>, b: nat, e: nat) {
    InHeader(fs, e) || (b == e && MissingAt(fs, b) == 0)
  }

  lemma {:induction false} HeadersExact(fs: seq<seq<Byte>>, b: nat, e: nat)
    requires AllFrames(fs) && b <= e <= |Concat(fs)| && !InHeader(fs, b)
    ensures Fate(MissingAt(fs, b), Concat(fs)[b..e]) == if Splits(fs, b, e) then Outside else Taken
    decreases |fs|
  {
    hide Fate, InHeader, MissingAt;
    if |fs| == 0 {
      NoFrames(b);
    } else {
      var f, gs := fs[0], fs[1..];
      HeaderOf(fs, b);
      HeaderOf(fs, e);
      AtStart(gs);
      if b >= |f| {
        assert Concat(fs)[b..e] == Concat(gs)[b - |f|..e - |f|];
        HeadersExact(gs, b - |f|, e - |f|);
      } else if e > |f| {
        HeadersExact(gs, 0, e - |f|);
        FrameThenMore(f, b, Concat(gs)[0..e - |f|], Concat(fs)[b..e]);
      } else {
        PieceOfFrame(f, b, e);
        assert Concat(fs)[b..e] == f[b..e];
      }
    }
  }

  lemma {:induction false} MissingSkip(ds: seq<seq<Byte>>, gs: seq<seq<Byte>>, x: nat)
    requires AllFrames(ds)
    ensures MissingAt(ds + gs, |Concat(ds)| + x) == MissingAt(gs, x)
    decreases |ds|
  {
    if |ds| == 0 {
      assert ds + gs == gs;
    } else {
      MissingSkip(ds[1..], gs, x);
      assert (ds + gs)[1..] == ds[1..] + gs;
    }
  }

  /** A frame that has begun misses the rest of its size. */
  lemma MissingIs(p: seq<Byte>, rest: seq<Byte>, fs: seq<seq<Byte>>)
    requires AllFrames(fs) && p + rest == Concat(fs) && (p != [] ==> Begun(p))
    ensures MissingAt(fs, |p|) == if p == [] then 0 else FrameSize(p) - |p|
  {
    if p != [] {
      var f, x := fs[0], Concat(fs[1..]);
      assert FrameSize(p) == |f| by {
        HeaderKept(p + rest, p, rest);
        HeaderKept(f + x, f, x);
      }
    }
  }

  /** A piece goes to the end of the frame, or of the bytes there are. */
  predicate PieceSize(missing: nat, s: seq<Byte>, n: nat) {
    if missing > 0 then n == if |s| > missing then missing else |s|
    else |s| >= 5 && FrameSize(s) < 0x8000_0000 && n == if |s| > FrameSize(s) then FrameSize(s) else |s|
  }

  lemma FateBehind(missing: nat, s: seq<Byte>, n: nat)
    requires PieceSize(missing, s, n)
    ensures Fate(missing, s) == if n < |s| then Fate(0, s[n..]) else Taken
  {}

  /** A request's response buffer. */
  class Response {
    var response: array?<Byte>
    var responseSize: nat
    var remainingSize: nat
    ghost var delivered: seq<seq<Byte>>

    /** The bytes of the frame that has begun. */
    ghost function Partial(): seq<Byte>
      requires response != null ==> responseSize <= response.Length
      reads this, response
    {
      if response == null then [] else response[..responseSize]
    }

    /** The size received and the size to come are the size of the frame. */
    ghost predicate Valid()
      reads this, response
    {
      && AllFrames(delivered)
      && (response == null ==> responseSize == 0)
      && (response != null ==>
           && 5 <= responseSize && 0 < remainingSize && responseSize + remainingSize == response.Length
           && FrameSize(response[..responseSize]) == response.Length < 0x8000_0000)
    }

    /** All bytes received so far. */
    ghost function Stream(): seq<Byte>
      requires Valid()
      reads this, response
    {
      Concat(delivered) + Partial()
    }

    constructor ()
      ensures Valid() && delivered == [] && Stream() == []
    {
      response, responseSize, remainingSize, delivered := null, 0, 0, [];
    }

    /** Reads the size of a new frame and makes room for all of it; returns how much of it the chunk holds. */
    method Open(ptr: seq<Byte>) returns (toProcess: nat)
      requires Valid() && response == null && |ptr| >= 5 && FrameSize(ptr) < 0x8000_0000
      modifies this
      ensures fresh(response) && response.Length == FrameSize(ptr) && delivered == old(delivered)
      ensures responseSize == 0 && 5 <= toProcess <= |ptr| && toProcess + remainingSize == response.Length
      ensures toProcess < |ptr| ==> remainingSize == 0
    {
      var msgSize := BigEndian32(ptr[1..5]) + 5;
      if |ptr| > msgSize {
        toProcess := msgSize;
        remainingSize := 0;
      } else {
        toProcess := |ptr|;
        remainingSize := msgSize - |ptr|;
      }
      response := new Byte[msgSize];
    }

    /** Counts off what the chunk holds of the frame that has begun. */
    method Continue(ptr: seq<Byte>) returns (toProcess: nat)
      requires response != null && remainingSize > 0
      modifies this`remainingSize
      ensures toProcess <= |ptr| && toProcess + remainingSize == old(remainingSize) && (|ptr| > 0 ==> toProcess > 0)
      ensures toProcess < |ptr| ==> remainingSize == 0
    {
      if |ptr| > remainingSize {
        toProcess := remainingSize;
        remainingSize := 0;
      } else {
        toProcess := |ptr|;
        remainingSize := remainingSize - |ptr|;
      }
    }

    /** Copies n bytes behind those already there. */
    method Copy(ptr: seq<Byte>, n: nat)
      requires response != null && n <= |ptr| && responseSize + n <= response.Length
      modifies this`responseSize, response
      ensures responseSize == old(responseSize) + n
      ensures response[..responseSize] == old(response[..responseSize]) + ptr[..n]
    {
      var at := responseSize;
      for i := 0 to n
        invariant response[..at] == old(response[..at]) && response[at..at + i] == ptr[..i]
      {
        response[at + i] := ptr[i];
      }
      responseSize := at + n;
      assert response[..at + n] == response[..at] + response[at..at + n];
    }

    /** Takes the next piece of the frame, or its first, and returns how much of the chunk it took. */
    method TakePiece(ptr: seq<Byte>) returns (toProcess: nat)
      requires Valid() && (response == null ==> |ptr| >= 5 && FrameSize(ptr) < 0x8000_0000)
      modifies this, response
      ensures toProcess <= |ptr| && (|ptr| > 0 ==> toProcess > 0)
      ensures (toProcess < |ptr| ==> remainingSize == 0) && delivered == old(delivered)
      ensures PieceSize(if old(response) == null then 0 else old(remainingSize), ptr, toProcess)
      ensures response != null && (response == old(response) || fresh(response))
      ensures 5 <= responseSize && responseSize + remainingSize == response.Length < 0x8000_0000
      ensures Partial() == old(Partial()) + ptr[..toProcess] && FrameSize(Partial()) == response.Length
    {
      if response == null {
        toProcess := Open(ptr);
        Copy(ptr, toProcess);
        HeaderKept(ptr, ptr[..toProcess], ptr[toProcess..]);
      } else {
        ghost var before := Partial();
        toProcess := Continue(ptr);
        Copy(ptr, toProcess);
        HeaderKept(Partial(), before, ptr[..toProcess]);
      }
    }

    /** The bytes the current frame still needs. */
    ghost function Missing(): nat
      reads this
    {
      if response == null then 0 else remainingSize
    }

    /** A frame in progress has its whole header, and what it misses is counted. */
    lemma PartialBegun()
      requires Valid()
      ensures Partial() != [] ==> Begun(Partial())
      ensures Missing() == if Partial() == [] then 0 else FrameSize(Partial()) - |Partial()|
    {}

    /** The whole message is there: it is processed, and its memory released. */
    method ProcessResponse()
      requires response != null && responseSize == response.Length && IsFrame(Partial()) && AllFrames(delivered)
      modifies this
      ensures response == null && Valid() && delivered == old(delivered) + [old(Partial())]
      ensures Stream() == old(Concat(delivered) + Partial())
    {
      ConcatSnoc(delivered, Partial());
      delivered := delivered + [Partial()];
      response := null;
      responseSize := 0;
    }

    /** Takes one piece; a frame it completes is processed, and its memory released. */
    method ReceivePiece(ptr: seq<Byte>) returns (n: nat)
      requires Valid() && (response == null ==> |ptr| >= 5 && FrameSize(ptr) < 0x8000_0000)
      modifies this, response
      ensures Valid() && n <= |ptr| && (|ptr| > 0 ==> n > 0) && Stream() == old(Stream()) + ptr[..n]
      ensures old(delivered) <= delivered
      ensures Fate(old(Missing()), ptr) == if n < |ptr| then Fate(Missing(), ptr[n..]) else Taken
      ensures response == null || response == old(response) || fresh(response)
    {
      hide Fate, Concat;
      n := TakePiece(ptr);
      FateBehind(old(Missing()), ptr, n);
      Associate(Concat(delivered), old(Partial()), ptr[..n]);
      if remainingSize == 0 { ProcessResponse(); }
    }

    /** Takes the piece of a chunk at some position. */
    method ReceiveFrom(contents: seq<Byte>, at: nat, ghost before: seq<Byte>) returns (next: nat)
      requires Valid() && at <= |contents| && Stream() == before + contents[..at]
      requires response == null ==> at + 5 <= |contents| && FrameSize(contents[at..]) < 0x8000_0000
      modifies this, response
      ensures Valid() && at <= next <= |contents| && (at < |contents| ==> at < next)
      ensures Stream() == before + contents[..next] && old(delivered) <= delivered
      ensures Fate(old(Missing()), contents[at..])
           == if next < |contents| then Fate(Missing(), contents[next..]) else Taken
      ensures response == null || response == old(response) || fresh(response)
    {
      var n := ReceivePiece(contents[at..]);
      next := at + n;
      assert contents[..at] + contents[at..][..n] == contents[..next];
      Associate(before, contents[..at], contents[at..][..n]);
      assert contents[at..][n..] == contents[next..];
    }

    /** A new frame's header must be in the chunk, and its size in range. */
    method CheckHeader(ptr: seq<Byte>) returns (outcome: Outcome)
      requires Valid()
      ensures outcome == Taken ==> response == null ==> |ptr| >= 5 && FrameSize(ptr) < 0x8000_0000
      ensures outcome != Taken ==> response == null && Fate(Missing(), ptr) == outcome
    {
      if response != null { return Taken; }
      if |ptr| < 5 { return Outside; }
      return if BigEndian32(ptr[1..5]) + 5 >= 0x8000_0000 then TooLarge else Taken;
    }

    /**
     * Takes a chunk of the stream, frame by frame, up to a header that is not all there: an empty chunk leaves a
     * frame in progress as it is, but between frames a header is read whatever the size.
     */
    method Receive(contents: seq<Byte>) returns (outcome: Outcome, at: nat)
      requires Valid()
      modifies this, response
      ensures Valid() && outcome == Fate(old(Missing()), contents)
      ensures at <= |contents| && Stream() == old(Stream()) + contents[..at] && old(delivered) <= delivered
      ensures outcome == Taken ==> at == |contents|
      ensures outcome != Taken ==> response == null
      ensures response == null || response == old(response) || fresh(response)
    {
      ghost var before, fate := Stream(), Fate(Missing(), contents);
      assert contents[0..] == contents && before + contents[..0] == before;
      at := 0;
      var more := true;
      while more
        invariant at <= |contents| && Valid() && Stream() == before + contents[..at] && old(delivered) <= delivered
        invariant response == null || response == old(response) || fresh(response)
        invariant fate == if more then Fate(Missing(), contents[at..]) else Taken
        invariant more || at == |contents|
        decreases |contents| - at, more
      {
        outcome := CheckHeader(contents[at..]);
        if outcome != Taken { return; }
        at := ReceiveFrom(contents, at, before);
        more := at < |contents|;
      }
      outcome := Taken;
    }
  }

  /** The sizes of the first chunks. */
  function Length(chunks: seq<seq<Byte>>): nat { |Concat(chunks)| }

  lemma PrefixSnoc(cs: seq<seq<Byte>>, k: nat)
    requires k < |cs|
    ensures Concat(cs[..k + 1]) == Concat(cs[..k]) + cs[k]
  {
    assert cs[..k + 1] == cs[..k] + [cs[k]];
    ConcatSnoc(cs[..k], cs[k]);
  }

  lemma {:induction false} ConcatSplit(cs: seq<seq<Byte>>, k: nat)
    requires k <= |cs|
    ensures Concat(cs) == Concat(cs[..k]) + Concat(cs[k..])
  {
    if k == 0 {
      assert cs[0..] == cs && Concat(cs[..0]) == [];
    } else {
      ConcatSplit(cs[1..], k - 1);
      assert cs[..k][1..] == cs[1..][..k - 1] && cs[1..][k - 1..] == cs[k..];
    }
  }

  /** The next chunk is the part of the stream between two positions. */
  lemma Cut(chunks: seq<seq<Byte>>, k: nat, all: seq<Byte>, b: nat, e: nat)
    requires Concat(chunks) == all && k < |chunks| && b == Length(chunks[..k]) && e == Length(chunks[..k + 1])
    ensures b <= e <= |all| && all[b..e] == chunks[k]
    ensures all[..b] == Concat(chunks[..k]) && all[..e] == Concat(chunks[..k + 1])
  {
    PrefixSnoc(chunks, k);
    ConcatSplit(chunks, k + 1);
  }

  lemma Rejoin(x: seq<Byte>, p: seq<Byte>, all: seq<Byte>, b: nat)
    requires b <= |all| && x + p == all[..b]
    ensures x + (p + all[b..]) == all && |x| + |p| == b
  {
    assert x + (p + all[b..]) == (x + p) + all[b..];
  }

  lemma MissingBehind(ds: seq<seq<Byte>>, gs: seq<seq<Byte>>, p: seq<Byte>, rest: seq<Byte>, fs: seq<seq<Byte>>,
                      b: nat, missing: nat)
    requires AllFrames(gs) && AllFrames(ds) && (p != [] ==> Begun(p)) && p + rest == Concat(gs) && fs == ds + gs
    requires b == |Concat(ds)| + |p| && missing == if p == [] then 0 else FrameSize(p) - |p|
    ensures MissingAt(fs, b) == missing
  {
    MissingIs(p, rest, gs);
    MissingSkip(ds, gs, |p|);
  }

  lemma MissingNow(ds: seq<seq<Byte>>, p: seq<Byte>, rest: seq<Byte>, fs: seq<seq<Byte>>, b: nat, missing: nat)
    requires AllFrames(fs) && AllFrames(ds) && (p != [] ==> Begun(p)) && Concat(ds) + (p + rest) == Concat(fs)
    requires b == |Concat(ds)| + |p| && missing == if p == [] then 0 else FrameSize(p) - |p|
    ensures MissingAt(fs, b) == missing
  {
    var gs := UniqueFrames(ds, p + rest, fs);
    MissingBehind(ds, gs, p, rest, fs, b, missing);
  }

  /** What becomes of a part of the stream, behind the frames and the beginning that have been received. */
  lemma CutBytes(all: seq<Byte>, b: nat, e: nat, fs: seq<seq<Byte>>, ds: seq<seq<Byte>>, p: seq<Byte>, missing: nat)
    requires AllFrames(fs) && all == Concat(fs) && b <= e <= |all| && !InHeader(fs, b)
    requires AllFrames(ds) && (p != [] ==> Begun(p)) && Concat(ds) + p == all[..b]
    requires missing == if p == [] then 0 else FrameSize(p) - |p|
    ensures Fate(missing, all[b..e]) == if Splits(fs, b, e) then Outside else Taken
  {
    Rejoin(Concat(ds), p, all, b);
    MissingNow(ds, p, all[b..], fs, b, missing);
    HeadersExact(fs, b, e);
  }

  /** The k-th chunk does not end in a header, and is not empty between frames. */
  predicate ChunkOk(chunks: seq<seq<Byte>>, fs: seq<seq<Byte>>, k: nat)
    requires k < |chunks|
  {
    && !InHeader(fs, Length(chunks[..k + 1]))
    && (chunks[k] == [] ==> MissingAt(fs, Length(chunks[..k])) > 0)
  }

  /** No chunk boundary is inside a header, and no chunk between frames is empty. */
  predicate WellCut(chunks: seq<seq<Byte>>, fs: seq<seq<Byte>>) {
    forall k :: 0 <= k < |chunks| ==> ChunkOk(chunks, fs, k)
  }

  /** One chunk of a stream, behind chunks that ended outside headers. */
  method ReceiveChunk(r: Response, chunks: seq<seq<Byte>>, k: nat, ghost fs: seq<seq<Byte>>) returns (outcome: Outcome)
    requires AllFrames(fs) && Concat(chunks) == Concat(fs) && k < |chunks| && !InHeader(fs, Length(chunks[..k]))
    requires r.Valid() && r.Stream() == Concat(chunks[..k])
    modifies r, r.response
    ensures r.Valid() && r.Stream() <= Concat(fs)
    ensures outcome == if ChunkOk(chunks, fs, k) then Taken else Outside
    ensures outcome == Taken ==> r.Stream() == Concat(chunks[..k + 1])
    ensures r.response == null || r.response == old(r.response) || fresh(r.response)
  {
    hide InHeader, MissingAt, Concat;
    ghost var all, b, e := Concat(fs), Length(chunks[..k]), Length(chunks[..k + 1]);
    Cut(chunks, k, all, b, e);
    r.PartialBegun();
    CutBytes(all, b, e, fs, r.delivered, r.Partial(), r.Missing());
    var at;
    outcome, at := r.Receive(chunks[k]);
    assert all[..b] + all[b..e][..at] == all[..b + at];
  }

  /** What has been received of the stream of some frames are its first frames and part of the next. */
  lemma FirstFrames(r: Response, fs: seq<seq<Byte>>)
    requires r.Valid() && AllFrames(fs) && r.Stream() <= Concat(fs)
    ensures r.delivered <= fs
    ensures r.Stream() == Concat(fs) ==> r.delivered == fs && r.response == null
  {
    r.PartialBegun();
    var rest := Concat(fs)[|r.Stream()|..];
    Associate(Concat(r.delivered), r.Partial(), rest);
    var gs := UniqueFrames(r.delivered, r.Partial() + rest, fs);
    if r.Stream() == Concat(fs) {
      assert r.Partial() + rest == r.Partial();
      NothingBegun(r.Partial(), gs);
    }
  }

  /** The first k chunks have been received. */
  ghost predicate Reached(r: Response, chunks: seq<seq<Byte>>, k: nat, fs: seq<seq<Byte>>)
    requires k <= |chunks|
    reads r, r.response
  {
    && r.Valid() && r.Stream() == Concat(chunks[..k]) && !InHeader(fs, Length(chunks[..k]))
    && forall j :: 0 <= j < k ==> ChunkOk(chunks, fs, j)
  }

  lemma NoneReached(r: Response, chunks: seq<seq<Byte>>, fs: seq<seq<Byte>>)
    requires r.Valid() && r.Stream() == [] && AllFrames(fs)
    ensures Reached(r, chunks, 0, fs)
  {
    AtStart(fs);
    assert chunks[..0] == [];
  }

  lemma AllReached(r: Response, chunks: seq<seq<Byte>>, fs: seq<seq<Byte>>)
    requires AllFrames(fs) && Concat(chunks) == Concat(fs) && Reached(r, chunks, |chunks|, fs)
    ensures WellCut(chunks, fs) && r.Valid() && r.delivered == fs && r.response == null
  {
    assert chunks[..|chunks|] == chunks;
    FirstFrames(r, fs);
  }

  method NextChunk(r: Response, chunks: seq<seq<Byte>>, k: nat, ghost fs: seq<seq<Byte>>) returns (outcome: Outcome)
    requires AllFrames(fs) && Concat(chunks) == Concat(fs) && k < |chunks| && Reached(r, chunks, k, fs)
    modifies r, r.response
    ensures outcome == Taken || outcome == Outside
    ensures outcome == Taken ==> Reached(r, chunks, k + 1, fs)
    ensures outcome == Outside ==> !WellCut(chunks, fs) && r.Valid() && r.delivered <= fs
    ensures r.response == null || r.response == old(r.response) || fresh(r.response)
  {
    hide InHeader, MissingAt, Concat;
    outcome := ReceiveChunk(r, chunks, k, fs);
    FirstFrames(r, fs);
  }

  /**
   * A stream of frames, cut into chunks: no header is read past the end of its chunk if and only if no chunk ends
   * inside a header and no chunk between frames is empty, and then exactly these frames are processed, in order.
   */
  method ReceiveAll(chunks: seq<seq<Byte>>, ghost fs: seq<seq<Byte>>) returns (r: Response, outcome: Outcome)
    requires AllFrames(fs) && Concat(chunks) == Concat(fs)
    ensures fresh(r) && r.Valid() && r.delivered <= fs
    ensures outcome == if WellCut(chunks, fs) then Taken else Outside
    ensures outcome == Taken ==> r.delivered == fs && r.response == null
  {
    hide Reached, Concat;
    r := new Response();
    outcome := Taken;
    NoneReached(r, chunks, fs);
    var k := 0;
    while k < |chunks|
      invariant k <= |chunks| && Reached(r, chunks, k, fs) && outcome == Taken
      invariant fresh(r) && (r.response != null ==> fresh(r.response))
    {
      outcome := NextChunk(r, chunks, k, fs);
      if outcome != Taken { return; }
      k := k + 1;
    }
    AllReached(r, chunks, fs);
  }

  lemma ConcatOne(f: seq<Byte>)
    ensures Concat([f]) == f
  {
    assert [f][1..] == [];
  }

  /** Cut inside a frame's header, or with an empty chunk in front of it, every frame makes a header leave its chunk. */
  lemma BadCuts(f: seq<Byte>)
    requires IsFrame(f)
    ensures Fate(0, f[..2]) == Outside && !WellCut([f[..2], f[2..]], [f])
    ensures Fate(0, []) == Outside && !WellCut([[], f], [f])
  {
    var cut := [f[..2], f[2..]];
    assert cut[..1] == [f[..2]];
    ConcatOne(f[..2]);
    assert !ChunkOk(cut, [f], 0);
    assert [[], f][..0] == [];
    assert !ChunkOk([[], f], [f], 0);
  }
}

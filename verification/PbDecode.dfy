/** The schema-driven decoder: a cyclic field iterator, field decoders and the message loop. */
module PbDecode {
  import opened Bytes
  import opened Wire
  import opened Schema
  import opened InputStream
  import opened RoundTrip

  lemma OnlyIndex(fields: seq<Field>, i: nat)
    requires WellFormed(fields) && i < |fields|
    ensures Schema.Find(fields, fields[i].tag) == i
  {}

  /** Walks the field table of a message type and wraps around at its end. */
  class FieldIter {
    const fields: seq<Field>
    var pos: nat

    ghost predicate Valid()
      reads this
    {
      && (|fields| == 0 ==> pos == 0) && (|fields| > 0 ==> pos < |fields|)
    }

    constructor (fields: seq<Field>)
      ensures Valid() && this.fields == fields && pos == 0
    {
      this.fields, this.pos := fields, 0;
    }

    /** Goes to the first field; an empty table only has its terminator. */
    method Begin() returns (more: bool)
      modifies this
      ensures Valid() && pos == 0 && (more <==> |fields| > 0)
    {
      pos := 0;
      more := |fields| > 0;
    }

    /** Goes to the next field; false when that is the first one again. */
    method Next() returns (more: bool)
      requires Valid()
      modifies this
      ensures Valid()
      ensures more <==> old(pos) + 1 < |fields|
      ensures pos == if more then old(pos) + 1 else 0
    {
      if |fields| == 0 { return false; }
      pos := pos + 1;
      if pos == |fields| {
        var first := Begin();
        return false;
      }
      more := true;
    }

    /** The tag at the cursor; the terminator's is zero. */
    function TagAt(): nat
      reads this
    {
      if pos < |fields| then fields[pos].tag else 0
    }

    /** Searches once around: it finds a tag iff some field has it, and otherwise stays where it was. */
    method Find(tag: nat) returns (found: bool)
      requires Valid() && WellFormed(fields)
      modifies this
      ensures Valid()
      ensures found <==> (exists i :: 0 <= i < |fields| && fields[i].tag == tag) || (|fields| == 0 && tag == 0)
      ensures found && |fields| > 0 ==> pos == Schema.Find(fields, tag) < |fields|
      ensures !found ==> pos == old(pos) && Schema.Find(fields, tag) == |fields|
    {
      var start, n := pos, |fields|;
      var again := true;
      while again
        invariant Valid() && start == old(pos) && n == |fields|
        invariant again ==> pos >= start ==> forall i :: start <= i < pos ==> fields[i].tag != tag
        invariant again ==> pos < start ==> forall i :: start <= i < n || 0 <= i < pos ==> fields[i].tag != tag
        invariant !again ==> pos == start && TagAt() != tag && forall i :: 0 <= i < n ==> fields[i].tag != tag
        decreases again, if pos >= start then n - pos + start else start - pos
      {
        if TagAt() == tag {
          if n > 0 { OnlyIndex(fields, pos); }
          return true;
        }
        var more := Next();
        again := pos != start;
      }
      found := false;
    }
  }

  /** Sets the static fields to zero, at every level. */
  method SetToDefaults(fields: seq<Field>, vals: seq<Value>) returns (r: seq<Value>)
    requires TypedAll(fields, vals)
    ensures r == Defaults(fields, vals)
    decreases fields
  {
    var iter := new FieldIter(fields);
    r := vals;
    var more := iter.Begin();
    if !more { return; }
    while more
      invariant iter.Valid() && iter.fields == fields && |r| == |vals|
      invariant forall i :: 0 <= i < |fields| ==>
        r[i] == if !more || i < iter.pos then DefaultOf(fields[i], vals[i]) else vals[i]
      invariant more || iter.pos == 0
      decreases if more then |fields| - iter.pos else 0
    {
      var k := iter.pos;
      var d := DefaultValue(fields[k], vals[k]);
      r := r[k := d];
      more := iter.Next();
    }
    forall i | 0 <= i < |fields| ensures r[i] == Defaults(fields, vals)[i] { DefaultsAt(fields, vals, i); }
  }

  method DefaultValue(f: Field, v: Value) returns (r: Value)
    requires Typed(f, v)
    ensures r == DefaultOf(f, v)
    decreases f
  {
    match v
    case Flag(_) => r := Flag(false);
    case Number(_) => r := Number(0);
    case Struct(vals) =>
      var d := SetToDefaults(f.kind.fields, vals);
      r := Struct(d);
    case Blob(_, _, _) => r := v;
  }

  /** The cast to the field's size keeps exactly the numbers that fit it. */
  lemma CastKeeps(kind: Kind, n: int)
    requires kind.IntKind? || kind.UIntKind? || kind.SIntKind?
    ensures InRange(kind, n) <==>
            n == if kind.UIntKind? then n % Patterns(kind.bytes) else Signed(Unsigned64(n), kind.bytes)
  {
    if !kind.UIntKind? && InRange(kind, n) { SignedBack(n, kind.bytes); }
  }

  /** Reads a scalar; one that does not survive the cast to the field's size is an error. */
  method DecodeNumber(s: IStream, kind: Kind) returns (ok: bool, n: int)
    requires s.Valid() && Least(kind) < Limit(kind)
    modifies s
    ensures s.Valid() && s.End() == old(s.End())
    ensures ok <==> DecNumber(kind, old(s.Rest())).Good?
    ensures ok ==> DecNumber(kind, old(s.Rest())) == Good(n, s.Rest())
  {
    if kind.Fixed32Kind? || kind.Fixed64Kind? {
      var buf;
      ok, buf := s.Read(if kind.Fixed32Kind? then 4 else 8);
      n := FromLittleEndian(buf);
      return;
    }
    var value;
    ok, value := s.DecodeVarint();
    if !ok { return false, 0; }
    if kind.UIntKind? {
      n := value;
    } else if kind.SIntKind? {
      n := UnZigZag(value);
    } else {
      n := Signed(value, if kind.bytes == 8 then 8 else 4);
    }
    var clamped := if kind.UIntKind? then n % Patterns(kind.bytes) else Signed(Unsigned64(n), kind.bytes);
    CastKeeps(kind, n);
    ok := clamped == n;
  }

  /** The callback behind a byte field: takes all bytes of its stream, if there is room. */
  method ReadBlob(s: IStream, v: Value) returns (ok: bool, r: Value)
    requires s.Valid() && v.Blob? && v.hooked
    modifies s
    ensures s.Valid() && s.End() == old(s.End())
    ensures ok <==> old(s.bytesLeft) <= v.room
    ensures ok ==> s.bytesLeft == 0 && r == Blob(true, old(s.Rest()), v.room)
  {
    r := v;
    if s.bytesLeft > v.room { return false, v; }
    var buf;
    ok, buf := s.Read(s.bytesLeft);
    r := Blob(true, buf, v.room);
  }

  /** A byte field: its callback reads a substream, or a copy of a scalar; without one the value is skipped. */
  method DecodeCallback(s: IStream, wire: nat, v: Value) returns (ok: bool, r: Value)
    requires s.Valid() && v.Blob?
    modifies s
    ensures s.Valid() && s.End() <= old(s.End()) && (ok ==> s.End() == old(s.End()))
    ensures ok <==> (var p := RawValue(wire, old(s.Rest()));
                     p.Good? && (v.hooked ==> |p.value| <= v.room && (wire == VARINT ==> |p.value| <= 10)))
    ensures ok ==> RawValue(wire, old(s.Rest())).rest == s.Rest()
    ensures ok ==> r == if v.hooked then Blob(true, RawValue(wire, old(s.Rest())).value, v.room) else v
  {
    r := v;
    if !v.hooked {
      ok := s.SkipField(wire);
    } else if wire == STRING {
      var sub;
      ok, sub := s.MakeStringSubstream();
      if !ok { return; }
      // the callback is asked again while bytes are left, and leaves none
      ok, r := ReadBlob(sub, v);
      if !ok { return; }
      ok := s.CloseStringSubstream(sub);
    } else {
      var buf;
      ok, buf := s.ReadRawValue(wire);
      if !ok { return; }
      var sub := new IStream(buf, 0, |buf|);
      assert sub.Rest() == buf;
      ok, r := ReadBlob(sub, v);
    }
  }

  /** The callback with a null argument: it agrees to everything and reads nothing. */
  method ReadNothing(s: IStream) returns (ok: bool)
    ensures ok
  {
    ok := true;
  }

  /**
   * A byte field whose callback has a null argument. A value that is not length-delimited, or is empty, is
   * skipped. For any other the loop's guard, whether bytes are left, is true after any number of turns.
   */
  method NullArgumentTurns(s: IStream, wire: nat, turns: nat) returns (ok: bool, guard: bool)
    requires s.Valid()
    modifies s
    ensures s.Valid() && (ok && !guard ==> s.End() == old(s.End()))
    ensures ok <==> (var p := RawValue(wire, old(s.Rest())); p.Good? && (wire == VARINT ==> |p.value| <= 10))
    ensures ok ==> (guard <==> wire == STRING && RawValue(wire, old(s.Rest())).value != [])
    ensures ok && !guard ==> s.Rest() == RawValue(wire, old(s.Rest())).rest
  {
    guard := false;
    if wire == STRING {
      var sub;
      ok, sub := s.MakeStringSubstream();
      if !ok { return; }
      ok := ReadNothing(sub);
      guard := sub.bytesLeft != 0;
      for i := 0 to turns
        invariant ok && guard == (sub.bytesLeft != 0)
        modifies {}
      {
        if guard {
          ok := ReadNothing(sub);
          guard := sub.bytesLeft != 0;
        }
      }
      if !guard { ok := s.CloseStringSubstream(sub); }
    } else {
      var buf;
      ok, buf := s.ReadRawValue(wire);
      if !ok { return; }
      var sub := new IStream(buf, 0, |buf|);
      ok := ReadNothing(sub);
    }
  }

  /** Decodes one field of the schema into its value. */
  method DecodeValue(s: IStream, wire: nat, f: Field, v: Value) returns (ok: bool, r: Value)
    requires s.Valid() && WellFormedField(f) && Typed(f, v)
    modifies s
    ensures s.Valid() && s.End() <= old(s.End()) && (ok ==> s.End() == old(s.End()))
    ensures ok <==> DecField(f, wire, old(s.Rest()), v).Good?
    ensures ok ==> DecField(f, wire, old(s.Rest()), v) == Good(r, s.Rest())
    decreases f
  {
    r := v;
    match v
    case Flag(_) =>
      var value, eof;
      ok, value, eof := s.DecodeVarint32();
      r := Flag(value != 0);
    case Number(_) =>
      var n;
      ok, n := DecodeNumber(s, f.kind);
      r := Number(n);
    case Struct(vals) =>
      var vals';
      ok, vals' := DecodeSubmessage(s, f.kind.fields, vals);
      r := Struct(vals');
    case Blob(_, _, _) =>
      ok, r := DecodeCallback(s, wire, v);
  }

  /** Decodes a submessage from a substream into the values it already has. */
  method DecodeSubmessage(s: IStream, fields: seq<Field>, vals: seq<Value>) returns (ok: bool, r: seq<Value>)
    requires s.Valid() && WellFormed(fields) && TypedAll(fields, vals)
    modifies s
    ensures s.Valid() && s.End() <= old(s.End()) && (ok ==> s.End() == old(s.End()))
    ensures ok <==> (var p := TakeString(old(s.Rest())); p.Good? && DecMessage(fields, p.value, vals).Good?)
    ensures ok ==> var p := TakeString(old(s.Rest()));
      r == DecMessage(fields, p.value, vals).value && s.Rest() == p.rest
    decreases fields, |fields| + 1
  {
    var sub;
    ok, sub := s.MakeStringSubstream();
    if !ok { return false, vals; }
    ok, r := DecodeNoInit(sub, fields, vals);
    var closed := s.CloseStringSubstream(sub);
  }

  /** Reads fields until the stream or the message ends; fields the schema lacks are skipped. */
  method DecodeNoInit(s: IStream, fields: seq<Field>, vals: seq<Value>) returns (ok: bool, r: seq<Value>)
    requires s.Valid() && WellFormed(fields) && TypedAll(fields, vals)
    modifies s
    ensures s.Valid() && s.End() <= old(s.End()) && (ok ==> s.End() == old(s.End()))
    ensures ok <==> DecMessage(fields, old(s.Rest()), vals).Good?
    ensures ok ==> DecMessage(fields, old(s.Rest()), vals) == Good(r, s.Rest())
    decreases fields, |fields|
  {
    r := vals;
    var iter := new FieldIter(fields);
    while s.bytesLeft > 0
      invariant s.Valid() && s.End() == old(s.End())
      invariant iter.Valid() && iter.fields == fields && TypedAll(fields, r)
      invariant DecMessage(fields, s.Rest(), r) == DecMessage(fields, old(s.Rest()), vals)
      decreases s.bytesLeft
    {
      var wire, tag, eof;
      ok, wire, tag, eof := s.DecodeTag();
      if !ok { return eof, r; }
      var found := iter.Find(tag);
      if !found {
        ok := s.SkipField(wire);
        if !ok { return; }
      } else if |fields| == 0 {
        // the terminator matched: its type reads as a bool, which has no place in the message
        var value;
        ok, value, eof := s.DecodeVarint32();
        if !ok { return; }
      } else {
        var v;
        ok, v := DecodeValue(s, wire, fields[iter.pos], r[iter.pos]);
        if !ok { return; }
        r := r[iter.pos := v];
      }
    }
    ok := true;
  }

  /** Starts from the defaults and reads a message. */
  method Decode(s: IStream, fields: seq<Field>, vals: seq<Value>) returns (ok: bool, r: seq<Value>)
    requires s.Valid() && WellFormed(fields) && TypedAll(fields, vals)
    modifies s
    ensures s.Valid() && (ok ==> s.End() == old(s.End()))
    ensures ok <==> DecMessage(fields, old(s.Rest()), Defaults(fields, vals)).Good?
    ensures ok ==> DecMessage(fields, old(s.Rest()), Defaults(fields, vals)) == Good(r, s.Rest())
  {
    var d := SetToDefaults(fields, vals);
    ok, r := DecodeNoInit(s, fields, d);
  }
}

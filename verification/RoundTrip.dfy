/** Decoding what the encoder wrote restores the message. */
module RoundTrip {
  import opened Bytes
  import opened Wire
  import opened Schema

  /** The destination's callbacks have room for the source's bytes and have received nothing yet. */
  predicate CanReceive(f: Field, src: Value, dst: Value)
    requires Typed(f, src) && Typed(f, dst)
    decreases f
  {
    match src
    case Struct(vals) => CanReceiveAll(f.kind.fields, vals, dst.vals)
    case Blob(_, data, _) => dst.data == [] && (data != [] ==> dst.hooked && |data| <= dst.room)
    case _ => true
  }

  predicate CanReceiveAll(fields: seq<Field>, src: seq<Value>, dst: seq<Value>)
    requires TypedAll(fields, src) && TypedAll(fields, dst)
    decreases fields
  {
    forall i :: 0 <= i < |fields| ==> CanReceive(fields[i], src[i], dst[i])
  }

  /** The source's values, with the destination's callbacks. */
  function Received(f: Field, src: Value, dst: Value): Value
    requires Typed(f, src) && Typed(f, dst)
    decreases f
  {
    match src
    case Struct(vals) => Struct(ReceivedAll(f.kind.fields, vals, dst.vals))
    case Blob(_, data, _) => Blob(dst.hooked, data, dst.room)
    case _ => src
  }

  function ReceivedAll(fields: seq<Field>, src: seq<Value>, dst: seq<Value>): (r: seq<Value>)
    requires TypedAll(fields, src) && TypedAll(fields, dst)
    ensures |r| == |fields| && forall i :: 0 <= i < |fields| ==> r[i] == Received(fields[i], src[i], dst[i])
    decreases fields
  {
    if |fields| == 0 then []
    else
      var tail := ReceivedAll(fields[1..], src[1..], dst[1..]);
      var r := [Received(fields[0], src[0], dst[0])] + tail;
      assert forall i :: 1 <= i < |fields| ==> r[i] == tail[i - 1] && fields[i] == fields[1..][i - 1];
      r
  }

  lemma {:induction false} DefaultsAt(fields: seq<Field>, vals: seq<Value>, i: nat)
    requires TypedAll(fields, vals) && i < |fields|
    ensures Defaults(fields, vals)[i] == DefaultOf(fields[i], vals[i])
    decreases i
  {
    if i > 0 { DefaultsAt(fields[1..], vals[1..], i - 1); }
  }

  /** A field that is left out comes back as the default it was left out for. */
  lemma OmittedIsDefault(f: Field, src: Value, dst: Value)
    requires Typed(f, src) && Typed(f, dst) && CanReceive(f, src, dst) && Omitted(f, src)
    ensures DefaultOf(f, dst) == Received(f, src, dst)
    decreases f
  {
    if src.Struct? {
      var fields, d := f.kind.fields, Defaults(f.kind.fields, dst.vals);
      assert AllDefault(fields, src.vals) && CanReceiveAll(fields, src.vals, dst.vals);
      forall i | 0 <= i < |fields| ensures d[i] == Received(fields[i], src.vals[i], dst.vals[i]) {
        DefaultsAt(fields, dst.vals, i);
        assert IsDefault(fields[i], src.vals[i]) && CanReceive(fields[i], src.vals[i], dst.vals[i]);
        OmittedIsDefault(fields[i], src.vals[i], dst.vals[i]);
      }
      assert d == ReceivedAll(fields, src.vals, dst.vals);
    }
  }

  lemma FixedBack(n: nat, k: nat, rest: seq<Byte>)
    requires (k == 4 && n < TWO32) || (k == 8 && n < TWO64)
    ensures DecFixed(LittleEndian(n, k) + rest, k) == Good(n, rest)
  {
    FixedSizes();
    LittleEndianBack(n, k);
    var s := LittleEndian(n, k) + rest;
    assert s[..k] == LittleEndian(n, k) && s[k..] == rest;
  }

  lemma NumberBack(kind: Kind, n: int, rest: seq<Byte>)
    requires InRange(kind, n) && (kind.IntKind? ==> kind.bytes in {1, 2, 4, 8})
    ensures DecNumber(kind, EncNumber(kind, n) + rest) == Good(n, rest)
  {
    match kind
    case IntKind(b) =>
      VarintBack(Unsigned64(n), rest);
      SignedBack(n, if b == 8 then 8 else 4);
    case UIntKind(_) => VarintBack(n, rest);
    case SIntKind(_) =>
      VarintBack(ZigZag(n), rest);
      ZigZagBack(n);
    case Fixed32Kind => FixedBack(n, 4, rest);
    case Fixed64Kind => FixedBack(n, 8, rest);
  }

  /** The value of one field comes back, and exactly its bytes are consumed. */
  lemma FieldBack(f: Field, src: Value, dst: Value, rest: seq<Byte>)
    requires WellFormedField(f) && Typed(f, src) && Typed(f, dst) && CanReceive(f, src, dst)
    requires !Omitted(f, src) && |EncValue(f, src)| < TWO32
    ensures DecField(f, WireOf(f.kind), EncValue(f, src) + rest, DefaultOf(f, dst))
         == Good(Received(f, src, dst), rest)
    decreases f, 0
  {
    match src
    case Flag(b) => Varint32Back(if b then 1 else 0, rest);
    case Number(n) => NumberBack(f.kind, n, rest);
    case Struct(vals) =>
      StringBack(EncMessage(f.kind.fields, vals), rest);
      MessageBack(f.kind.fields, vals, dst.vals);
    case Blob(_, data, _) => StringBack(data, rest);
  }

  /** Decoding the encoding into a fresh message restores every field and consumes all bytes. */
  lemma MessageBack(fields: seq<Field>, src: seq<Value>, dst: seq<Value>)
    requires WellFormed(fields) && TypedAll(fields, src) && TypedAll(fields, dst) && CanReceiveAll(fields, src, dst)
    requires |EncMessage(fields, src)| < TWO32
    ensures DecMessage(fields, EncMessage(fields, src), Defaults(fields, dst))
         == Good(ReceivedAll(fields, src, dst), [])
    decreases fields, |fields| + 1
  {
    forall i | 0 <= i < |fields| ensures Defaults(fields, dst)[i] == DefaultOf(fields[i], dst[i]) {
      DefaultsAt(fields, dst, i);
    }
    assert fields[0..] == fields && src[0..] == src;
    RestBack(fields, src, dst, Defaults(fields, dst), 0);
  }

  /** The fields before k are restored, the others still have their defaults. */
  predicate Partly(fields: seq<Field>, src: seq<Value>, dst: seq<Value>, cur: seq<Value>, k: nat)
    requires TypedAll(fields, src) && TypedAll(fields, dst)
  {
    && TypedAll(fields, cur)
    && forall i :: 0 <= i < |fields| ==>
         cur[i] == if i < k then Received(fields[i], src[i], dst[i]) else DefaultOf(fields[i], dst[i])
  }

  lemma SplitEncoding(fields: seq<Field>, vals: seq<Value>, k: nat)
    requires TypedAll(fields, vals) && k < |fields|
    ensures EncMessage(fields[k..], vals[k..])
         == EncField(fields[k], vals[k]) + EncMessage(fields[k + 1..], vals[k + 1..])
  {
    assert fields[k..][1..] == fields[k + 1..] && vals[k..][1..] == vals[k + 1..];
  }

  /** One round of the decoder over a field the schema has. */
  lemma StepBack(fields: seq<Field>, cur: seq<Value>, k: nat, enc: seq<Byte>, rest: seq<Byte>, v: Value)
    requires WellFormed(fields) && TypedAll(fields, cur) && k < |fields|
    requires DecField(fields[k], WireOf(fields[k].kind), enc + rest, cur[k]) == Good(v, rest)
    ensures TypedAll(fields, cur[k := v])
    ensures DecMessage(fields, EncTag(fields[k].tag, WireOf(fields[k].kind)) + enc + rest, cur)
         == DecMessage(fields, rest, cur[k := v])
  {
    var f := fields[k];
    TagBack(f.tag, WireOf(f.kind), enc + rest);
    assert EncTag(f.tag, WireOf(f.kind)) + enc + rest == EncTag(f.tag, WireOf(f.kind)) + (enc + rest);
    assert Find(fields, f.tag) == k;
    assert Step(fields, EncTag(f.tag, WireOf(f.kind)) + enc + rest, cur) == Next(cur[k := v], rest);
  }

  lemma RestBack(fields: seq<Field>, src: seq<Value>, dst: seq<Value>, cur: seq<Value>, k: nat)
    requires WellFormed(fields) && TypedAll(fields, src) && TypedAll(fields, dst) && CanReceiveAll(fields, src, dst)
    requires k <= |fields| && Partly(fields, src, dst, cur, k)
    requires |EncMessage(fields[k..], src[k..])| < TWO32
    ensures DecMessage(fields, EncMessage(fields[k..], src[k..]), cur) == Good(ReceivedAll(fields, src, dst), [])
    decreases fields, |fields| - k
  {
    if k == |fields| {
      assert cur == ReceivedAll(fields, src, dst);
    } else {
      var f, v, rest := fields[k], src[k], EncMessage(fields[k + 1..], src[k + 1..]);
      SplitEncoding(fields, src, k);
      assert CanReceive(f, v, dst[k]) && cur[k] == DefaultOf(f, dst[k]);
      if Omitted(f, v) {
        OmittedIsDefault(f, v, dst[k]);
        RestBack(fields, src, dst, cur, k + 1);
        assert EncMessage(fields[k..], src[k..]) == rest;
      } else {
        FieldBack(f, v, dst[k], rest);
        StepBack(fields, cur, k, EncValue(f, v), rest, Received(f, v, dst[k]));
        RestBack(fields, src, dst, cur[k := Received(f, v, dst[k])], k + 1);
      }
    }
  }
}

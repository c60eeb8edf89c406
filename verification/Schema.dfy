/**
 * Message schemas and values, and what the encoder writes and the decoder reads for them.
 * A message type is the sequence of its fields; a message holds one value per field.
 */
module Schema {
  import opened Arith
  import opened Bytes
  import opened Wire

  /** Singular static scalars with their size in bytes, static submessages, and byte fields behind a callback. */
  datatype Kind =
    | BoolKind
    | IntKind(bytes: nat)
    | UIntKind(bytes: nat)
    | SIntKind(bytes: nat)
    | Fixed32Kind
    | Fixed64Kind
    | MessageKind(fields: seq<Field>)
    | BlobKind

  datatype Field = Field(tag: nat, kind: Kind)

  /** A callback field knows whether its callback is set, its bytes, and how many it has room for. */
  datatype Value =
    | Flag(b: bool)
    | Number(n: int)
    | Struct(vals: seq<Value>)
    | Blob(hooked: bool, data: seq<Byte>, room: nat)

  const TAG_LIMIT: nat := 0x2000_0000

  predicate WellFormed(fields: seq<Field>) {
    && (forall i :: 0 <= i < |fields| ==> WellFormedField(fields[i]))
    && (forall i, j :: 0 <= i < j < |fields| ==> fields[i].tag != fields[j].tag)
  }

  predicate WellFormedField(f: Field) {
    && 1 <= f.tag < TAG_LIMIT
    && match f.kind
       case IntKind(b) => b in {1, 2, 4, 8}
       case UIntKind(b) => b in {1, 2, 4, 8}
       case SIntKind(b) => b in {1, 2, 4, 8}
       case MessageKind(fields) => WellFormed(fields)
       case _ => true
  }

  /** The numbers a scalar field can hold: from Least up to but not including Limit. */
  function Least(kind: Kind): int {
    if kind.IntKind? || kind.SIntKind? then -Patterns(kind.bytes) / 2 else 0
  }

  function Limit(kind: Kind): int {
    if kind.IntKind? || kind.SIntKind? then Patterns(kind.bytes) / 2
    else if kind.UIntKind? then Patterns(kind.bytes)
    else if kind.Fixed32Kind? then TWO32
    else if kind.Fixed64Kind? then TWO64
    else 0
  }

  predicate InRange(kind: Kind, n: int) { Least(kind) <= n < Limit(kind) }

  predicate Typed(f: Field, v: Value)
    decreases f
  {
    if f.kind.BoolKind? then v.Flag?
    else if f.kind.MessageKind? then v.Struct? && TypedAll(f.kind.fields, v.vals)
    else if f.kind.BlobKind? then v.Blob? && (!v.hooked ==> v.data == [])
    else v.Number? && InRange(f.kind, v.n)
  }

  predicate TypedAll(fields: seq<Field>, vals: seq<Value>)
    decreases fields
  {
    |fields| == |vals| && forall i :: 0 <= i < |fields| ==> Typed(fields[i], vals[i])
  }

  // ---- encoding ----

  function WireOf(kind: Kind): (w: nat)
    ensures w < 8
  {
    match kind
    case Fixed32Kind => FIXED32
    case Fixed64Kind => FIXED64
    case MessageKind(_) => STRING
    case BlobKind => STRING
    case _ => VARINT
  }

  /** The value a proto3 field is left out for; a callback only counts as empty when it is not set. */
  predicate IsDefault(f: Field, v: Value)
    requires Typed(f, v)
    decreases f
  {
    match v
    case Flag(b) => !b
    case Number(n) => n == 0
    case Struct(vals) => AllDefault(f.kind.fields, vals)
    case Blob(hooked, _, _) => !hooked
  }

  predicate AllDefault(fields: seq<Field>, vals: seq<Value>)
    requires TypedAll(fields, vals)
    decreases fields
  {
    forall i :: 0 <= i < |fields| ==> IsDefault(fields[i], vals[i])
  }

  /** Fields that leave no trace in the encoding. */
  predicate Omitted(f: Field, v: Value)
    requires Typed(f, v)
  {
    if v.Blob? then !v.hooked || v.data == [] else IsDefault(f, v)
  }

  function EncNumber(kind: Kind, n: int): seq<Byte>
    requires InRange(kind, n)
  {
    match kind
    case IntKind(_) => EncVarint(Unsigned64(n))
    case UIntKind(_) => EncVarint(n)
    case SIntKind(_) => EncVarint(ZigZag(n))
    case Fixed32Kind => LittleEndian(n, 4)
    case Fixed64Kind => LittleEndian(n, 8)
  }

  function EncValue(f: Field, v: Value): seq<Byte>
    requires Typed(f, v)
    decreases f, 0
  {
    match v
    case Flag(b) => EncVarint(if b then 1 else 0)
    case Number(n) => EncNumber(f.kind, n)
    case Struct(vals) => EncString(EncMessage(f.kind.fields, vals))
    case Blob(_, data, _) => EncString(data)
  }

  function EncField(f: Field, v: Value): seq<Byte>
    requires Typed(f, v)
    decreases f, 1
  {
    if Omitted(f, v) then [] else EncTag(f.tag, WireOf(f.kind)) + EncValue(f, v)
  }

  function EncMessage(fields: seq<Field>, vals: seq<Value>): seq<Byte>
    requires TypedAll(fields, vals)
    decreases fields
  {
    if |fields| == 0 then []
    else EncField(fields[0], vals[0]) + EncMessage(fields[1..], vals[1..])
  }

  // ---- decoding ----

  /** The field with a tag, or the number of fields. */
  function Find(fields: seq<Field>, tag: nat): (k: nat)
    ensures k <= |fields| && (k < |fields| ==> fields[k].tag == tag)
    ensures forall i :: 0 <= i < k ==> fields[i].tag != tag
  {
    if |fields| == 0 || fields[0].tag == tag then 0 else 1 + Find(fields[1..], tag)
  }

  lemma FixedSizes()
    ensures Pow(256, 4) == TWO32 && Pow(256, 8) == TWO64
  {
    assert Pow(256, 2) == 0x1_0000;
    PowAdd(256, 2, 2);
    PowAdd(256, 4, 4);
  }

  function DecFixed(s: seq<Byte>, n: nat): (p: Parsed<int>)
    requires n == 4 || n == 8
    ensures p.Good? ==> |p.rest| <= |s| && 0 <= p.value < (if n == 4 then TWO32 else TWO64)
  {
    if |s| < n then Bad
    else
      LittleEndianBound(s[..n]);
      FixedSizes();
      Good(FromLittleEndian(s[..n]), s[n..])
  }

  /** A number, cast to the field's size; one that does not survive the cast is an error. */
  function DecNumber(kind: Kind, s: seq<Byte>): (p: Parsed<int>)
    requires Least(kind) < Limit(kind)
    ensures p.Good? ==> |p.rest| <= |s| && InRange(kind, p.value)
  {
    if kind.Fixed32Kind? || kind.Fixed64Kind? then
      DecFixed(s, if kind.Fixed32Kind? then 4 else 8)
    else
      var p := DecVarint(s);
      if p.Bad? then Bad
      else
        var n := if kind.UIntKind? then p.value
                 else if kind.SIntKind? then UnZigZag(p.value)
                 else Signed(p.value, if kind.bytes == 8 then 8 else 4);
        if InRange(kind, n) then Good(n, p.rest) else Bad
  }

  /** One round of the decoder: an error, the end mark, or the message so far, and the bytes left. */
  datatype Stepped = Fail | Stop(rest: seq<Byte>) | Next(vals: seq<Value>, rest: seq<Byte>)

  function Step(fields: seq<Field>, s: seq<Byte>, vals: seq<Value>): (r: Stepped)
    requires WellFormed(fields) && TypedAll(fields, vals)
    ensures r.Next? ==> |r.rest| < |s| && TypedAll(fields, r.vals)
    decreases |s|, 0
  {
    match DecTag(s)
    case NoTag => Fail
    case EndMark(rest) => Stop(rest)
    case Tag(tag, wire, rest) =>
      if |fields| == 0 && tag == 0 then
        // the terminator of an empty message type matches, and is read as a bool
        var p := DecVarint32(rest);
        if p.Bad? then Fail else Next(vals, p.rest)
      else
        var k := Find(fields, tag);
        if k < |fields| then
          var p := DecField(fields[k], wire, rest, vals[k]);
          if p.Bad? then Fail else Next(vals[k := p.value], p.rest)
        else
          var p := RawValue(wire, rest);
          if p.Bad? then Fail else Next(vals, p.rest)
  }

  /** Reads fields into a message until the bytes or the message end. */
  function DecMessage(fields: seq<Field>, s: seq<Byte>, vals: seq<Value>): (p: Parsed<seq<Value>>)
    requires WellFormed(fields) && TypedAll(fields, vals)
    ensures p.Good? ==> TypedAll(fields, p.value)
    decreases |s|, 1
  {
    if |s| == 0 then Good(vals, [])
    else
      match Step(fields, s, vals)
      case Fail => Bad
      case Stop(rest) => Good(vals, rest)
      case Next(vals', rest) => DecMessage(fields, rest, vals')
  }

  /** The value a decoder puts into a field; the wire type only matters to callbacks. */
  function DecField(f: Field, wire: nat, s: seq<Byte>, v: Value): (p: Parsed<Value>)
    requires WellFormedField(f) && Typed(f, v)
    ensures p.Good? ==> |p.rest| <= |s| && Typed(f, p.value)
    decreases |s|, 2
  {
    match v
    case Flag(_) =>
      var p := DecVarint32(s);
      if p.Bad? then Bad else Good(Flag(p.value != 0), p.rest)
    case Number(_) =>
      var p := DecNumber(f.kind, s);
      if p.Bad? then Bad else Good(Number(p.value), p.rest)
    case Struct(vals) =>
      var p := TakeString(s);
      if p.Bad? then Bad
      else
        var m := DecMessage(f.kind.fields, p.value, vals);
        if m.Bad? then Bad else Good(Struct(m.value), p.rest)
    case Blob(hooked, _, room) =>
      var p := RawValue(wire, s);
      if p.Bad? then Bad
      else if !hooked then Good(v, p.rest)
      else if (wire == VARINT && |p.value| > 10) || |p.value| > room then Bad
      else Good(Blob(true, p.value, room), p.rest)
  }

  // ---- initial values ----

  /** Static fields become zero; callbacks are left alone. */
  function Defaults(fields: seq<Field>, vals: seq<Value>): (r: seq<Value>)
    requires TypedAll(fields, vals)
    ensures TypedAll(fields, r)
    decreases fields
  {
    if |fields| == 0 then []
    else
      var tail := Defaults(fields[1..], vals[1..]);
      var r := [DefaultOf(fields[0], vals[0])] + tail;
      assert forall i :: 1 <= i < |fields| ==> r[i] == tail[i - 1] && fields[i] == fields[1..][i - 1];
      r
  }

  function DefaultOf(f: Field, v: Value): (r: Value)
    requires Typed(f, v)
    ensures Typed(f, r)
    decreases f
  {
    match v
    case Flag(_) => Flag(false)
    case Number(_) => Number(0)
    case Struct(vals) => Struct(Defaults(f.kind.fields, vals))
    case Blob(_, _, _) => v
  }
}

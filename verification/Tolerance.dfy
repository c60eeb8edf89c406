/** What the decoder does not depend on: fields the schema lacks, and the order of different fields. */
module Tolerance {
  import opened Bytes
  import opened Wire
  import opened Schema

  /** The wire type by which a field is consumed; only callbacks look at the one that was sent. */
  function Reads(kind: Kind, wire: nat): nat {
    if kind.BlobKind? then wire else WireOf(kind)
  }

  /** A complete field decodes the same, or fails the same, whatever follows it. */
  lemma FieldExtend(f: Field, wire: nat, s: seq<Byte>, v: Value, m: seq<Byte>)
    requires WellFormedField(f) && Typed(f, v) && RawValue(Reads(f.kind, wire), s).Good?
    ensures DecField(f, wire, s, v).Bad? ==> DecField(f, wire, s + m, v).Bad?
    ensures DecField(f, wire, s, v).Good? ==>
            (DecField(f, wire, s + m, v)
             == Good(DecField(f, wire, s, v).value, RawValue(Reads(f.kind, wire), s).rest + m))
  {
    RawValueExtend(Reads(f.kind, wire), s, m);
    if f.kind.Fixed32Kind? || f.kind.Fixed64Kind? {
      var n := if f.kind.Fixed32Kind? then 4 else 8;
      assert (s + m)[..n] == s[..n];
    }
  }

  /** What one round of the decoder consumes, by the layout of the bytes alone. */
  function Layout(fields: seq<Field>, s: seq<Byte>): (p: Parsed<seq<Byte>>)
    ensures p.Good? ==> |p.rest| < |s|
  {
    var t := DecTag(s);
    if !t.Tag? then Bad
    else
      var k := Find(fields, t.tag);
      if |fields| == 0 && t.tag == 0 then RawValue(VARINT, t.rest)
      else RawValue(if k < |fields| then Reads(fields[k].kind, t.wire) else t.wire, t.rest)
  }

  /** The bytes are a sequence of complete fields. */
  predicate Complete(fields: seq<Field>, a: seq<Byte>)
    decreases |a|
  {
    |a| == 0 || (Layout(fields, a).Good? && Complete(fields, Layout(fields, a).rest))
  }

  lemma StepExtend(fields: seq<Field>, s: seq<Byte>, vals: seq<Value>, m: seq<Byte>)
    requires WellFormed(fields) && TypedAll(fields, vals) && Layout(fields, s).Good?
    ensures Step(fields, s, vals).Fail? || Step(fields, s, vals).Next?
    ensures Step(fields, s, vals).Fail? ==> Step(fields, s + m, vals).Fail?
    ensures Step(fields, s, vals).Next? ==>
            Step(fields, s + m, vals) == Next(Step(fields, s, vals).vals, Layout(fields, s).rest + m)
  {
    var t := DecTag(s);
    TagExtend(s, m);
    var k := Find(fields, t.tag);
    if |fields| == 0 && t.tag == 0 {
      GroupsExtend(t.rest, m);
    } else if k < |fields| {
      FieldExtend(fields[k], t.wire, t.rest, vals[k], m);
    } else {
      RawValueExtend(t.wire, t.rest, m);
    }
  }

  /** Two byte strings that decode alike into every message. */
  ghost predicate Same(fields: seq<Field>, b: seq<Byte>, c: seq<Byte>)
    requires WellFormed(fields)
  {
    forall vals :: TypedAll(fields, vals) ==> DecMessage(fields, b, vals) == DecMessage(fields, c, vals)
  }

  /** Bytes that decode alike still do behind any complete fields. */
  lemma {:induction false} Behind(fields: seq<Field>, a: seq<Byte>, b: seq<Byte>, c: seq<Byte>)
    requires WellFormed(fields) && Complete(fields, a) && Same(fields, b, c)
    ensures Same(fields, a + b, a + c)
    decreases |a|
  {
    if |a| == 0 {
      assert a + b == b && a + c == c;
    } else {
      Behind(fields, Layout(fields, a).rest, b, c);
      forall vals: seq<Value> | TypedAll(fields, vals)
        ensures DecMessage(fields, a + b, vals) == DecMessage(fields, a + c, vals)
      {
        StepExtend(fields, a, vals, b);
        StepExtend(fields, a, vals, c);
      }
    }
  }

  // ---- unknown fields ----

  /** A field on the wire: a tag, a wire type and the bytes of its value. */
  datatype Record = Record(tag: nat, wire: nat, payload: seq<Byte>)

  predicate ValidRecord(r: Record) {
    1 <= r.tag < TAG_LIMIT && r.wire < 8
  }

  function Written(r: Record): seq<Byte>
    requires ValidRecord(r)
  {
    EncTag(r.tag, r.wire) + r.payload
  }

  /** A well-formed field that the schema does not have. */
  predicate Unknown(fields: seq<Field>, u: Record) {
    && ValidRecord(u) && Find(fields, u.tag) == |fields|
    && RawValue(u.wire, u.payload).Good? && RawValue(u.wire, u.payload).rest == []
  }

  lemma Skipped(fields: seq<Field>, u: Record, b: seq<Byte>)
    requires WellFormed(fields) && Unknown(fields, u)
    ensures Same(fields, Written(u) + b, b)
  {
    var s := Written(u) + b;
    assert s == EncTag(u.tag, u.wire) + (u.payload + b);
    TagBack(u.tag, u.wire, u.payload + b);
    RawValueExtend(u.wire, u.payload, b);
    assert [] + b == b;
  }

  /** A boundary between two fields, at the top or inside a submessage field k. */
  datatype Place =
    | Here(before: seq<Byte>, after: seq<Byte>)
    | Within(before: seq<Byte>, k: nat, inner: Place, after: seq<Byte>)

  predicate IsPlace(fields: seq<Field>, p: Place)
    decreases p
  {
    && Complete(fields, p.before)
    && (p.Within? ==> p.k < |fields| && fields[p.k].kind.MessageKind? && IsPlace(fields[p.k].kind.fields, p.inner))
  }

  /** The field is unknown at the level of the place. */
  predicate UnknownAt(fields: seq<Field>, p: Place, u: Record)
    requires IsPlace(fields, p)
    decreases p
  {
    if p.Here? then Unknown(fields, u) else UnknownAt(fields[p.k].kind.fields, p.inner, u)
  }

  /** The message around a place, with some bytes inserted there. */
  function Filled(fields: seq<Field>, p: Place, x: seq<Byte>): seq<Byte>
    requires IsPlace(fields, p)
    decreases p
  {
    if p.Here? then p.before + (x + p.after)
    else
      var f := fields[p.k];
      p.before + (EncTag(f.tag, STRING) + EncString(Filled(f.kind.fields, p.inner, x)) + p.after)
  }

  /** Lengths are 32-bit, at every level. */
  predicate LengthsFit(fields: seq<Field>, p: Place, x: seq<Byte>)
    requires IsPlace(fields, p)
    decreases p
  {
    p.Within? ==>
      && |Filled(fields[p.k].kind.fields, p.inner, x)| < TWO32
      && LengthsFit(fields[p.k].kind.fields, p.inner, x)
  }

  /** The fields of a submessage. */
  function Sub(fields: seq<Field>, k: nat): (sub: seq<Field>)
    requires WellFormed(fields) && k < |fields| && fields[k].kind.MessageKind?
    ensures WellFormed(sub) && sub == fields[k].kind.fields
  {
    assert WellFormedField(fields[k]);
    fields[k].kind.fields
  }

  /** The message goes on behind the submessage, with what the payload decodes to. */
  function NestedResult(fields: seq<Field>, k: nat, x: seq<Byte>, b: seq<Byte>, vals: seq<Value>): Parsed<seq<Value>>
    requires WellFormed(fields) && TypedAll(fields, vals) && k < |fields| && fields[k].kind.MessageKind?
  {
    assert Typed(fields[k], vals[k]);
    var m := DecMessage(Sub(fields, k), x, vals[k].vals);
    if m.Bad? then Bad else DecMessage(fields, b, vals[k := Struct(m.value)])
  }

  lemma NestedStep(fields: seq<Field>, k: nat, x: seq<Byte>, b: seq<Byte>, vals: seq<Value>)
    requires WellFormed(fields) && TypedAll(fields, vals) && k < |fields| && fields[k].kind.MessageKind? && |x| < TWO32
    ensures DecMessage(fields, EncTag(fields[k].tag, STRING) + EncString(x) + b, vals)
         == NestedResult(fields, k, x, b, vals)
  {
    var t := EncTag(fields[k].tag, STRING);
    assert t + EncString(x) + b == t + (EncString(x) + b);
    TagBack(fields[k].tag, STRING, EncString(x) + b);
    StringBack(x, b);
    assert Find(fields, fields[k].tag) == k;
    assert Typed(fields[k], vals[k]);
    var m := DecMessage(Sub(fields, k), x, vals[k].vals);
    assert Step(fields, t + EncString(x) + b, vals) == if m.Bad? then Fail else Next(vals[k := Struct(m.value)], b);
  }

  /** Submessages that decode alike make fields that decode alike. */
  lemma Nested(fields: seq<Field>, k: nat, x: seq<Byte>, y: seq<Byte>, b: seq<Byte>)
    requires WellFormed(fields) && k < |fields| && fields[k].kind.MessageKind?
    requires Same(Sub(fields, k), x, y) && |x| < TWO32 && |y| < TWO32
    ensures Same(fields, EncTag(fields[k].tag, STRING) + EncString(x) + b,
                 EncTag(fields[k].tag, STRING) + EncString(y) + b)
  {
    var t := EncTag(fields[k].tag, STRING);
    forall vals: seq<Value> | TypedAll(fields, vals)
      ensures DecMessage(fields, t + EncString(x) + b, vals) == DecMessage(fields, t + EncString(y) + b, vals)
    {
      NestedStep(fields, k, x, b, vals);
      NestedStep(fields, k, y, b, vals);
      assert TypedAll(Sub(fields, k), vals[k].vals) by { assert Typed(fields[k], vals[k]); }
    }
  }

  /** Inserting an unknown field at any boundary, at any depth, leaves the decoded message unchanged. */
  lemma InsertUnknown(fields: seq<Field>, p: Place, u: Record)
    requires WellFormed(fields) && IsPlace(fields, p) && UnknownAt(fields, p, u) && ValidRecord(u)
    requires LengthsFit(fields, p, Written(u)) && LengthsFit(fields, p, [])
    ensures Same(fields, Filled(fields, p, Written(u)), Filled(fields, p, []))
    decreases p
  {
    if p.Here? {
      Skipped(fields, u, p.after);
      assert [] + p.after == p.after;
      Behind(fields, p.before, Written(u) + p.after, p.after);
    } else {
      var sub := Sub(fields, p.k);
      InsertUnknown(sub, p.inner, u);
      var x, y := Filled(sub, p.inner, Written(u)), Filled(sub, p.inner, []);
      Nested(fields, p.k, x, y, p.after);
      var t := EncTag(fields[p.k].tag, STRING);
      Behind(fields, p.before, t + EncString(x) + p.after, t + EncString(y) + p.after);
    }
  }

  // ---- order ----

  /** A complete field of the schema: its tag is there, and its value is whole. */
  predicate Known(fields: seq<Field>, r: Record) {
    && ValidRecord(r) && Find(fields, r.tag) < |fields|
    && var raw := RawValue(Reads(fields[Find(fields, r.tag)].kind, r.wire), r.payload); raw.Good? && raw.rest == []
  }

  /** A whole field, of the schema or not. */
  predicate Whole(fields: seq<Field>, r: Record) {
    Known(fields, r) || Unknown(fields, r)
  }

  predicate AllWhole(fields: seq<Field>, rs: seq<Record>) {
    forall i :: 0 <= i < |rs| ==> Whole(fields, rs[i])
  }

  /** No two of the fields have the same tag of the schema. */
  predicate Once(fields: seq<Field>, rs: seq<Record>) {
    forall i, j :: 0 <= i < j < |rs| && Known(fields, rs[i]) ==> rs[i].tag != rs[j].tag
  }

  function WrittenAll(fields: seq<Field>, rs: seq<Record>): seq<Byte>
    requires AllWhole(fields, rs)
  {
    if |rs| == 0 then [] else Written(rs[0]) + WrittenAll(fields, rs[1..])
  }

  /** The message goes on behind a field of the schema, with its value. */
  function KnownResult(fields: seq<Field>, r: Record, b: seq<Byte>, vals: seq<Value>): Parsed<seq<Value>>
    requires WellFormed(fields) && TypedAll(fields, vals) && Known(fields, r)
  {
    var k := Find(fields, r.tag);
    var p := DecField(fields[k], r.wire, r.payload, vals[k]);
    if p.Bad? then Bad else DecMessage(fields, b, vals[k := p.value])
  }

  lemma KnownStep(fields: seq<Field>, r: Record, b: seq<Byte>, vals: seq<Value>)
    requires WellFormed(fields) && TypedAll(fields, vals) && Known(fields, r)
    ensures DecMessage(fields, Written(r) + b, vals) == KnownResult(fields, r, b, vals)
  {
    var k := Find(fields, r.tag);
    assert Written(r) + b == EncTag(r.tag, r.wire) + (r.payload + b);
    TagBack(r.tag, r.wire, r.payload + b);
    FieldExtend(fields[k], r.wire, r.payload, vals[k], b);
    assert [] + b == b;
  }

  /** Two rounds over fields with different tags: each sees the value its field had before both. */
  lemma TwoSteps(fields: seq<Field>, q: Record, r: Record, b: seq<Byte>, vals: seq<Value>,
                 x: Parsed<Value>, y: Parsed<Value>)
    requires WellFormed(fields) && Known(fields, q) && Known(fields, r) && q.tag != r.tag && TypedAll(fields, vals)
    requires x == DecField(fields[Find(fields, q.tag)], q.wire, q.payload, vals[Find(fields, q.tag)])
    requires y == DecField(fields[Find(fields, r.tag)], r.wire, r.payload, vals[Find(fields, r.tag)])
    ensures x.Bad? || y.Bad? ==> DecMessage(fields, Written(q) + (Written(r) + b), vals).Bad?
    ensures x.Good? && y.Good? ==>
      var next := vals[Find(fields, q.tag) := x.value][Find(fields, r.tag) := y.value];
      TypedAll(fields, next) && DecMessage(fields, Written(q) + (Written(r) + b), vals) == DecMessage(fields, b, next)
  {
    KnownStep(fields, q, Written(r) + b, vals);
    if x.Good? { KnownStep(fields, r, b, vals[Find(fields, q.tag) := x.value]); }
  }

  lemma SwapOn(fields: seq<Field>, q: Record, r: Record, b: seq<Byte>, vals: seq<Value>)
    requires WellFormed(fields) && Known(fields, q) && Known(fields, r) && q.tag != r.tag && TypedAll(fields, vals)
    ensures DecMessage(fields, Written(q) + (Written(r) + b), vals)
         == DecMessage(fields, Written(r) + (Written(q) + b), vals)
  {
    var i, j := Find(fields, q.tag), Find(fields, r.tag);
    var x, y := DecField(fields[i], q.wire, q.payload, vals[i]), DecField(fields[j], r.wire, r.payload, vals[j]);
    TwoSteps(fields, q, r, b, vals, x, y);
    TwoSteps(fields, r, q, b, vals, y, x);
    if x.Good? && y.Good? {
      assert vals[i := x.value][j := y.value] == vals[j := y.value][i := x.value];
    }
  }

  /** Two neighbouring fields with different tags can change places. */
  lemma Swap(fields: seq<Field>, q: Record, r: Record, b: seq<Byte>)
    requires WellFormed(fields) && Known(fields, q) && Known(fields, r) && q.tag != r.tag
    ensures Same(fields, Written(q) + (Written(r) + b), Written(r) + (Written(q) + b))
  {
    forall vals: seq<Value> | TypedAll(fields, vals)
      ensures DecMessage(fields, Written(q) + (Written(r) + b), vals)
           == DecMessage(fields, Written(r) + (Written(q) + b), vals)
    {
      SwapOn(fields, q, r, b, vals);
    }
  }

  lemma FieldComplete(fields: seq<Field>, r: Record)
    requires WellFormed(fields) && Whole(fields, r)
    ensures Complete(fields, Written(r))
  {
    TagBack(r.tag, r.wire, r.payload);
  }

  /** Two neighbouring fields can change places unless both are the same field of the schema. */
  lemma SwapWhole(fields: seq<Field>, q: Record, r: Record, b: seq<Byte>)
    requires WellFormed(fields) && Whole(fields, q) && Whole(fields, r) && (q.tag != r.tag || !Known(fields, q))
    ensures Same(fields, Written(q) + (Written(r) + b), Written(r) + (Written(q) + b))
  {
    if Known(fields, q) && Known(fields, r) {
      Swap(fields, q, r, b);
    } else if Unknown(fields, q) {
      FieldComplete(fields, r);
      Skipped(fields, q, Written(r) + b);
      Skipped(fields, q, b);
      Behind(fields, Written(r), Written(q) + b, b);
    } else {
      FieldComplete(fields, q);
      Skipped(fields, r, Written(q) + b);
      Skipped(fields, r, b);
      Behind(fields, Written(q), Written(r) + b, b);
    }
  }

  lemma WholeTail(fields: seq<Field>, rs: seq<Record>, i: nat)
    requires AllWhole(fields, rs) && Once(fields, rs) && i < |rs|
    ensures AllWhole(fields, rs[..i] + rs[i + 1..]) && Once(fields, rs[..i] + rs[i + 1..])
  {}

  lemma SameTrans(fields: seq<Field>, a: seq<Byte>, b: seq<Byte>, c: seq<Byte>)
    requires WellFormed(fields) && Same(fields, a, b) && Same(fields, b, c)
    ensures Same(fields, a, c)
  {}

  /** A field that can be moved to the front of some bytes can be moved past one more field. */
  lemma MovePast(fields: seq<Field>, q: Record, r: Record, x: seq<Byte>, rest: seq<Byte>)
    requires WellFormed(fields) && Whole(fields, q) && Whole(fields, r) && (q.tag != r.tag || !Known(fields, q))
    requires Same(fields, x, Written(r) + rest)
    ensures Same(fields, Written(q) + x, Written(r) + (Written(q) + rest))
  {
    FieldComplete(fields, q);
    Behind(fields, Written(q), x, Written(r) + rest);
    SwapWhole(fields, q, r, rest);
    SameTrans(fields, Written(q) + x, Written(q) + (Written(r) + rest), Written(r) + (Written(q) + rest));
  }

  lemma FrontStep(fields: seq<Field>, q: Record, r: Record, t: seq<Byte>, left: seq<Byte>, b: seq<Byte>)
    requires WellFormed(fields) && Whole(fields, q) && Whole(fields, r) && (q.tag != r.tag || !Known(fields, q))
    requires Same(fields, t + b, Written(r) + (left + b))
    ensures Same(fields, (Written(q) + t) + b, Written(r) + ((Written(q) + left) + b))
  {
    MovePast(fields, q, r, t + b, left + b);
    Associate(Written(q), t, b);
    Associate(Written(q), left, b);
  }

  lemma WrittenFirst(fields: seq<Field>, q: Record, rs: seq<Record>)
    requires AllWhole(fields, [q] + rs)
    ensures Whole(fields, q) && AllWhole(fields, rs)
    ensures WrittenAll(fields, [q] + rs) == Written(q) + WrittenAll(fields, rs)
  {
    assert ([q] + rs)[0] == q && ([q] + rs)[1..] == rs;
  }

  lemma WithoutOne<T>(rs: seq<T>, i: nat)
    requires 0 < i < |rs|
    ensures rs[..i] + rs[i + 1..] == [rs[0]] + (rs[1..][..i - 1] + rs[1..][i..])
  {}

  /** Any field can be moved to the front. */
  lemma {:induction false} MoveToFront(fields: seq<Field>, rs: seq<Record>, i: nat, b: seq<Byte>)
    requires WellFormed(fields) && AllWhole(fields, rs) && Once(fields, rs) && i < |rs|
    ensures AllWhole(fields, rs[..i] + rs[i + 1..])
    ensures Same(fields, WrittenAll(fields, rs) + b, Written(rs[i]) + (WrittenAll(fields, rs[..i] + rs[i + 1..]) + b))
  {
    WholeTail(fields, rs, i);
    var q, tail := rs[0], rs[1..];
    if i == 0 {
      assert rs[..0] + rs[1..] == tail;
      Associate(Written(q), WrittenAll(fields, tail), b);
    } else {
      hide Same, Known, Written, WellFormed;
      MoveToFront(fields, tail, i - 1, b);
      var left := tail[..i - 1] + tail[i..];
      WithoutOne(rs, i);
      WrittenFirst(fields, q, left);
      FrontStep(fields, q, rs[i], WrittenAll(fields, tail), WrittenAll(fields, left), b);
    }
  }

  lemma SameElements(rs: seq<Record>, qs: seq<Record>)
    requires multiset(rs) == multiset(qs)
    ensures forall i :: 0 <= i < |qs| ==> qs[i] in rs
  {
    forall i | 0 <= i < |qs| ensures qs[i] in rs {
      assert qs[i] in multiset(qs);
    }
  }

  lemma RemoveCount(s: seq<Record>, i: nat)
    requires i < |s|
    ensures multiset(s[..i] + s[i + 1..]) == multiset(s) - multiset{s[i]}
  {
    assert s == s[..i] + [s[i]] + s[i + 1..];
    assert multiset(s) == multiset(s[..i]) + multiset{s[i]} + multiset(s[i + 1..]);
  }

  lemma RemoveFirst(s: seq<Record>)
    requires |s| > 0
    ensures s[0] in multiset(s) && multiset(s[1..]) == multiset(s) - multiset{s[0]}
  {
    RemoveCount(s, 0);
    assert s[..0] + s[1..] == s[1..];
  }

  lemma IndexOf(qs: seq<Record>, r: Record) returns (i: nat)
    requires r in multiset(qs)
    ensures i < |qs| && qs[i] == r
  {
    i :| i < |qs| && qs[i] == r;
  }

  /** Where the first field went, and what is left. */
  lemma Locate(rs: seq<Record>, qs: seq<Record>) returns (i: nat)
    requires multiset(rs) == multiset(qs) && |rs| > 0
    ensures i < |qs| && qs[i] == rs[0] && multiset(rs[1..]) == multiset(qs[..i] + qs[i + 1..])
  {
    RemoveFirst(rs);
    i := IndexOf(qs, rs[0]);
    RemoveCount(qs, i);
  }

  lemma {:induction false} OnceCount(fields: seq<Field>, rs: seq<Record>, r: Record)
    requires Once(fields, rs) && Known(fields, r)
    ensures multiset(rs)[r] <= 1
  {
    if |rs| > 0 {
      OnceCount(fields, rs[1..], r);
      assert rs == [rs[0]] + rs[1..];
      if rs[0] == r { assert r !in rs[1..]; }
    }
  }

  lemma Different(fields: seq<Field>, rs: seq<Record>, q: Record, r: Record)
    requires Once(fields, rs) && AllWhole(fields, rs) && Known(fields, q) && q in rs && r in rs && q != r
    ensures q.tag != r.tag
  {
    var i :| 0 <= i < |rs| && rs[i] == q;
    var j :| 0 <= j < |rs| && rs[j] == r;
    if j < i && Known(fields, r) { assert rs[j].tag != rs[i].tag; }
  }

  lemma Repeated(s: seq<Record>, i: nat, j: nat)
    requires i < j < |s| && s[i] == s[j]
    ensures multiset(s)[s[i]] >= 2
  {
    assert s == s[..j] + [s[j]] + s[j + 1..];
    assert s[i] in multiset(s[..j]) by { assert s[..j][i] == s[i]; }
  }

  lemma OnceTransfers(fields: seq<Field>, rs: seq<Record>, qs: seq<Record>)
    requires Once(fields, rs) && AllWhole(fields, rs) && multiset(rs) == multiset(qs)
    ensures Once(fields, qs)
  {
    SameElements(rs, qs);
    forall i, j | 0 <= i < j < |qs| && Known(fields, qs[i]) ensures qs[i].tag != qs[j].tag {
      assert qs[i] in rs && qs[j] in rs;
      OnceCount(fields, rs, qs[i]);
      if qs[i] == qs[j] { Repeated(qs, i, j); } else { Different(fields, rs, qs[i], qs[j]); }
    }
  }

  /** Fields can be written in any order, as long as those of the schema occur once each. */
  lemma {:induction false} Permuted(fields: seq<Field>, rs: seq<Record>, qs: seq<Record>, b: seq<Byte>)
    requires WellFormed(fields) && AllWhole(fields, rs) && Once(fields, rs) && multiset(rs) == multiset(qs)
    ensures AllWhole(fields, qs)
    ensures Same(fields, WrittenAll(fields, rs) + b, WrittenAll(fields, qs) + b)
    decreases |rs|
  {
    SameElements(rs, qs);
    if |rs| == 0 {
      assert |multiset(qs)| == |qs|;
    } else {
      var r := rs[0];
      var i := Locate(rs, qs);
      var others := qs[..i] + qs[i + 1..];
      OnceTransfers(fields, rs, qs);
      Permuted(fields, rs[1..], others, b);
      MoveToFront(fields, qs, i, b);
      FieldComplete(fields, r);
      Behind(fields, Written(r), WrittenAll(fields, rs[1..]) + b, WrittenAll(fields, others) + b);
      Associate(Written(r), WrittenAll(fields, rs[1..]), b);
    }
  }

  /** The fields of the schema at a place. */
  function Level(fields: seq<Field>, p: Place): (level: seq<Field>)
    requires WellFormed(fields) && IsPlace(fields, p)
    ensures WellFormed(level)
    decreases p
  {
    if p.Here? then fields else Level(Sub(fields, p.k), p.inner)
  }

  /** The bytes behind a place, in the message or submessage that holds it. */
  function AfterPlace(p: Place): seq<Byte> {
    if p.Here? then p.after else AfterPlace(p.inner)
  }

  /** Bytes that decode alike at a place make messages that decode alike. */
  lemma {:induction false} SameAt(fields: seq<Field>, p: Place, x: seq<Byte>, y: seq<Byte>)
    requires WellFormed(fields) && IsPlace(fields, p) && LengthsFit(fields, p, x) && LengthsFit(fields, p, y)
    requires Same(Level(fields, p), x + AfterPlace(p), y + AfterPlace(p))
    ensures Same(fields, Filled(fields, p, x), Filled(fields, p, y))
    decreases p
  {
    if p.Here? {
      Behind(fields, p.before, x + p.after, y + p.after);
    } else {
      var sub, t := Sub(fields, p.k), EncTag(fields[p.k].tag, STRING);
      SameAt(sub, p.inner, x, y);
      var u, v := Filled(sub, p.inner, x), Filled(sub, p.inner, y);
      Nested(fields, p.k, u, v, p.after);
      Behind(fields, p.before, t + EncString(u) + p.after, t + EncString(v) + p.after);
    }
  }

  /** Permuting whole fields at any boundary, at any depth, leaves the decoded message unchanged. */
  lemma PermutedAt(fields: seq<Field>, p: Place, rs: seq<Record>, qs: seq<Record>)
    requires WellFormed(fields) && IsPlace(fields, p)
    requires var level := Level(fields, p); AllWhole(level, rs) && AllWhole(level, qs) && Once(level, rs)
    requires multiset(rs) == multiset(qs)
    requires LengthsFit(fields, p, WrittenAll(Level(fields, p), rs))
    requires LengthsFit(fields, p, WrittenAll(Level(fields, p), qs))
    ensures Same(fields, Filled(fields, p, WrittenAll(Level(fields, p), rs)),
                 Filled(fields, p, WrittenAll(Level(fields, p), qs)))
  {
    var level := Level(fields, p);
    Permuted(level, rs, qs, AfterPlace(p));
    SameAt(fields, p, WrittenAll(level, rs), WrittenAll(level, qs));
  }
}

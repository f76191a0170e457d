/** The seven messages of ShooterProtocol.proto as values: encoding, parsing, merging. */
module Messages {
  import opened Powers
  import opened Wire
  import opened Wrappers
  import opened UnknownFields

  datatype MessageType = PVector | PRotator | PWeapon | PFireEvent | PClientId | PMovement | PAnimState

  datatype Kind = KFloat | KBool | KUInt32 | KMessage(of: MessageType)

  /** `tracked` fields have a presence bit of their own (proto3 `optional`). */
  datatype Field = Field(number: nat, kind: Kind, tracked: bool)

  function Schema(t: MessageType): seq<Field> {
    match t
    case PVector => [Field(1, KFloat, false), Field(2, KFloat, false), Field(3, KFloat, false)]
    case PRotator => [Field(1, KFloat, false), Field(2, KFloat, false), Field(3, KFloat, false)]
    case PWeapon =>
      [Field(1, KMessage(PClientId), false), Field(2, KBool, true), Field(3, KBool, true), Field(4, KBool, true),
       Field(5, KBool, true), Field(6, KBool, true), Field(7, KUInt32, true), Field(8, KUInt32, true)]
    case PFireEvent =>
      [Field(1, KMessage(PClientId), false), Field(2, KFloat, false), Field(3, KMessage(PVector), false),
       Field(4, KMessage(PVector), false)]
    case PClientId => [Field(1, KUInt32, false)]
    case PMovement =>
      [Field(1, KMessage(PClientId), false), Field(2, KMessage(PVector), true), Field(3, KMessage(PRotator), true),
       Field(4, KMessage(PVector), true)]
    case PAnimState => [Field(1, KMessage(PClientId), false), Field(2, KFloat, true), Field(3, KFloat, true)]
  }

  predicate Leaf(t: MessageType) {
    forall i :: 0 <= i < |Schema(t)| ==> !Schema(t)[i].kind.KMessage?
  }

  lemma SubsAreLeaves(t: MessageType, i: nat)
    requires i < |Schema(t)| && Schema(t)[i].kind.KMessage?
    ensures Leaf(Schema(t)[i].kind.of) && !Leaf(t)
  {
  }

  function ScalarBound(k: Kind): nat {
    if k.KBool? then 2 else TWO32
  }

  /** What a caller can observe of a field: unset, the raw bits of a scalar, or a message. An
      untracked scalar is set when its bits are not all zero. */
  datatype Val = Unset | Bits(v: nat) | Sub(m: Msg)

  datatype Msg = Msg(fields: seq<Val>, unknown: seq<Unknown>)

  function WireTypeFor(k: Kind): (w: nat)
    ensures w < 8
  {
    match k
    case KFloat => FIXED32
    case KBool => VARINT
    case KUInt32 => VARINT
    case KMessage(_) => LENGTH_DELIMITED
  }

  function Unsets(n: nat): seq<Val> {
    seq(n, _ => Unset)
  }

  function Default(t: MessageType): Msg {
    Msg(Unsets(|Schema(t)|), [])
  }

  /** The place of field `number` in the schema, or its length if there is none. */
  function FieldIndex(fs: seq<Field>, number: nat): (i: nat)
    ensures i <= |fs|
    ensures i < |fs| ==> fs[i].number == number
    ensures forall j :: 0 <= j < i ==> fs[j].number != number
  {
    if fs == [] || fs[0].number == number then 0 else 1 + FieldIndex(fs[1..], number)
  }

  lemma FieldNumbers(t: MessageType, i: nat)
    requires i < |Schema(t)|
    ensures Schema(t)[i].number == i + 1 && i + 1 < 16 && FieldIndex(Schema(t), i + 1) == i
  {
    hide FieldIndex;
    var j := FieldIndex(Schema(t), i + 1);
    assert Schema(t)[i].number == i + 1;
    assert j < |Schema(t)| ==> Schema(t)[j].number == j + 1;
  }

  predicate Known(t: MessageType, number: nat, wireType: nat) {
    var i := FieldIndex(Schema(t), number);
    i < |Schema(t)| && WireTypeFor(Schema(t)[i].kind) == wireType
  }

  predicate ValOk(f: Field, v: Val)
    decreases v
  {
    match v
    case Unset => true
    case Bits(b) => !f.kind.KMessage? && b < ScalarBound(f.kind) && (f.tracked || b != 0)
    case Sub(m) => f.kind.KMessage? && MsgOk(f.kind.of, m)
  }

  predicate MsgOk(t: MessageType, m: Msg)
    decreases m
  {
    && |m.fields| == |Schema(t)|
    && (forall i :: 0 <= i < |m.fields| ==> ValOk(Schema(t)[i], m.fields[i]))
    && (forall i :: 0 <= i < |m.unknown| ==>
          InRange(m.unknown[i]) && !Known(t, m.unknown[i].number, WireTypeOf(m.unknown[i])))
  }

  // _InternalSerialize

  function EncodeVal(f: Field, v: Val): seq<byte>
    requires ValOk(f, v)
    decreases v
  {
    var tag := EncodeVarint(MakeTag(f.number, WireTypeFor(f.kind)));
    match v
    case Unset => []
    case Bits(b) => tag + (if f.kind.KFloat? then EncodeFixed(b, 4) else EncodeVarint(b))
    case Sub(m) => tag + EncodeVarint(|Encode(f.kind.of, m)|) + Encode(f.kind.of, m)
  }

  function EncodeFrom(t: MessageType, m: Msg, i: nat): seq<byte>
    requires MsgOk(t, m) && i <= |m.fields|
    decreases m, 0, |m.fields| - i
  {
    if i == |m.fields| then [] else EncodeVal(Schema(t)[i], m.fields[i]) + EncodeFrom(t, m, i + 1)
  }

  function Encode(t: MessageType, m: Msg): seq<byte>
    requires MsgOk(t, m)
    decreases m, 1
  {
    EncodeFrom(t, m, 0) + EncodeAll(m.unknown)
  }

  // MergeImpl

  function MergeVal(f: Field, a: Val, b: Val): (r: Val)
    requires ValOk(f, a) && ValOk(f, b)
    ensures ValOk(f, r)
    decreases b
  {
    match b
    case Unset => a
    case Bits(_) => b
    case Sub(m) => Sub(Merge(f.kind.of, SubOrDefault(f, a), m))
  }

  function Merge(t: MessageType, a: Msg, b: Msg): (r: Msg)
    requires MsgOk(t, a) && MsgOk(t, b)
    ensures MsgOk(t, r)
    decreases b
  {
    Msg(seq(|b.fields|, i requires 0 <= i < |b.fields| => MergeVal(Schema(t)[i], a.fields[i], b.fields[i])),
        a.unknown + b.unknown)
  }

  // _InternalParse

  function WithField(t: MessageType, m: Msg, i: nat, v: Val): (r: Msg)
    requires MsgOk(t, m) && i < |m.fields| && ValOk(Schema(t)[i], v)
    ensures MsgOk(t, r)
  {
    m.(fields := m.fields[i := v])
  }

  function ScalarVal(f: Field, b: nat): Val {
    if f.tracked || b != 0 then Bits(b) else Unset
  }

  /** The value of a scalar field, after its tag. */
  function ParseScalar(k: Kind, bs: seq<byte>): (r: Option<(nat, nat)>)
    requires !k.KMessage?
    ensures r.Some? ==> r.value.1 <= |bs| && r.value.0 < if k.KBool? then 2 else TWO32
  {
    match k
    case KFloat =>
      if |bs| < 4 then None
      else
        DecodedFixedFits(bs[..4]);
        Widths();
        Some((DecodeFixed(bs[..4]), 4))
    case KBool =>
      (match ReadVarint64(bs)
       case None => None
       case Some(p) => Some((if p.0 != 0 then 1 else 0, p.1)))
    case KUInt32 => ReadVarint32(bs)
  }

  /** ParseMessage: a length, then that many bytes into the sub-message, one level down. */
  function ParseSub(t: MessageType, bs: seq<byte>, m: Msg, depth: nat): (r: Option<(Msg, nat)>)
    requires MsgOk(t, m)
    ensures r.Some? ==> MsgOk(t, r.value.0) && r.value.1 <= |bs|
    decreases |bs|, 0
  {
    match ReadSize(bs)
    case None => None
    case Some(p) =>
      if depth == 0 || |bs| < p.1 + p.0 then None
      else
        match ParseInto(t, bs[p.1..p.1 + p.0], m, depth - 1)
        case None => None
        case Some(r) => Some((r, p.1 + p.0))
  }

  /** The value of known field i, after its tag. */
  function ParseKnown(t: MessageType, i: nat, bs: seq<byte>, m: Msg, depth: nat): (r: Option<(Msg, nat)>)
    requires MsgOk(t, m) && i < |Schema(t)|
    ensures r.Some? ==> MsgOk(t, r.value.0) && r.value.1 <= |bs|
    decreases |bs|, 1
  {
    var f := Schema(t)[i];
    if f.kind.KMessage? then
      match ParseSub(f.kind.of, bs, SubOrDefault(f, m.fields[i]), depth)
      case None => None
      case Some(r) => Some((WithField(t, m, i, Sub(r.0)), r.1))
    else
      match ParseScalar(f.kind, bs)
      case None => None
      case Some(r) => Some((WithField(t, m, i, ScalarVal(f, r.0)), r.1))
  }

  /** _internal_mutable_*: the sub-message that is there, or a new one. */
  function SubOrDefault(f: Field, v: Val): (m: Msg)
    requires f.kind.KMessage? && ValOk(f, v)
    ensures MsgOk(f.kind.of, m)
  {
    if v.Sub? then v.m else Default(f.kind.of)
  }

  function WithUnknown(t: MessageType, m: Msg, u: Unknown): (r: Msg)
    requires MsgOk(t, m) && InRange(u) && !Known(t, u.number, WireTypeOf(u))
    ensures MsgOk(t, r)
  {
    m.(unknown := m.unknown + [u])
  }

  /** handle_unusual: an end tag stops the parse short of its limit; anything else is kept. */
  function ParseUnusual(t: MessageType, tag: nat, bs: seq<byte>, m: Msg, depth: nat): (r: Option<(Msg, nat)>)
    requires MsgOk(t, m) && tag < TWO32 && !Known(t, tag / 8, tag % 8)
    ensures r.Some? ==> MsgOk(t, r.value.0) && r.value.1 <= |bs|
  {
    if tag == 0 || tag % 8 == END_GROUP then None
    else
      match ParseBody(tag, bs, depth)
      case None => None
      case Some(u) =>
        ParsedBodyInRange(tag, bs, depth);
        Some((WithUnknown(t, m, u.0), u.1))
  }

  /** What follows a tag. */
  function ParseTagged(t: MessageType, tag: nat, bs: seq<byte>, m: Msg, depth: nat): (r: Option<(Msg, nat)>)
    requires MsgOk(t, m) && tag < TWO32
    ensures r.Some? ==> MsgOk(t, r.value.0) && r.value.1 <= |bs|
    decreases |bs|, 2
  {
    if Known(t, tag / 8, tag % 8) then ParseKnown(t, FieldIndex(Schema(t), tag / 8), bs, m, depth)
    else ParseUnusual(t, tag, bs, m, depth)
  }

  /** One turn of the parse loop. */
  function ParseField(t: MessageType, bs: seq<byte>, m: Msg, depth: nat): (r: Option<(Msg, nat)>)
    requires MsgOk(t, m)
    ensures r.Some? ==> MsgOk(t, r.value.0) && 0 < r.value.1 <= |bs|
    decreases |bs|, 3
  {
    match ReadTag(bs)
    case None => None
    case Some(p) =>
      match ParseTagged(t, p.0, bs[p.1..], m, depth)
      case None => None
      case Some(r) => Some((r.0, p.1 + r.1))
  }

  /** The whole loop: what the message becomes, if the bytes parse. */
  function ParseInto(t: MessageType, bs: seq<byte>, m: Msg, depth: nat): (r: Option<Msg>)
    requires MsgOk(t, m)
    ensures r.Some? ==> MsgOk(t, r.value)
    decreases |bs|, 4
  {
    if bs == [] then Some(m)
    else
      match ParseField(t, bs, m, depth)
      case None => None
      case Some(r) => ParseInto(t, bs[r.1..], r.0, depth)
  }
}

/** How long the seven messages can get on the wire. */
module Sizes {
  import opened Powers
  import opened Wire
  import opened Messages
  import opened Codec

  /** The tag constants of the parse loops, in schema order. */
  function TagBytes(t: MessageType): seq<byte> {
    match t
    case PVector => [13, 21, 29]
    case PRotator => [13, 21, 29]
    case PWeapon => [10, 16, 24, 32, 40, 48, 56, 64]
    case PFireEvent => [10, 21, 26, 34]
    case PClientId => [8]
    case PMovement => [10, 18, 26, 34]
    case PAnimState => [10, 21, 29]
  }

  /** Every tag is one byte, and is the constant the generated code compares with. */
  lemma TagsAreTheConstants(t: MessageType, i: nat)
    requires i < |Schema(t)|
    ensures |TagBytes(t)| == |Schema(t)|
    ensures EncodeVarint(MakeTag(Schema(t)[i].number, WireTypeFor(Schema(t)[i].kind))) == [TagBytes(t)[i]]
  {
  }

  /** How long each kind of field is, tag included. */
  lemma SizeOfField(t: MessageType, i: nat, v: Val)
    requires i < |Schema(t)| && ValOk(Schema(t)[i], v)
    ensures var f := Schema(t)[i];
            |EncodeVal(f, v)| == match v
              case Unset => 0
              case Bits(b) => if f.kind.KFloat? then 5 else if f.kind.KBool? then 2 else 1 + |EncodeVarint(b)|
              case Sub(m) => 1 + |EncodeVarint(|Encode(f.kind.of, m)|)| + |Encode(f.kind.of, m)|
  {
    hide Schema, MakeTag, Encode, MsgOk, TagBytes;
    TagsAreTheConstants(t, i);
  }

  predicate NoUnknown(m: Msg)
    decreases m
  {
    m.unknown == [] && forall i :: 0 <= i < |m.fields| ==> m.fields[i].Sub? ==> NoUnknown(m.fields[i].m)
  }

  /** The longest encoding of a message of type t without unknown fields. */
  function MaxSize(t: MessageType): nat {
    match t
    case PVector => 15
    case PRotator => 15
    case PWeapon => 30
    case PFireEvent => 47
    case PClientId => 6
    case PMovement => 59
    case PAnimState => 18
  }

  function MaxFieldSize(k: Kind): nat {
    match k
    case KFloat => 5
    case KBool => 2
    case KUInt32 => 6
    case KMessage(of) => 2 + MaxSize(of)
  }

  function MaxFrom(t: MessageType, i: nat): nat
    requires i <= |Schema(t)|
    decreases |Schema(t)| - i
  {
    if i == |Schema(t)| then 0 else MaxFieldSize(Schema(t)[i].kind) + MaxFrom(t, i + 1)
  }

  lemma MaxSizeIsTheSum(t: MessageType)
    ensures MaxSize(t) == MaxFrom(t, 0)
  {
    var n := |Schema(t)|;
    assert MaxFrom(t, n) == 0;
    assert n >= 2 ==> MaxFrom(t, n - 2) == MaxFieldSize(Schema(t)[n - 2].kind) + MaxFrom(t, n - 1);
    assert n >= 4 ==> MaxFrom(t, n - 4) == MaxFieldSize(Schema(t)[n - 4].kind) + MaxFrom(t, n - 3);
    assert n >= 6 ==> MaxFrom(t, n - 6) == MaxFieldSize(Schema(t)[n - 6].kind) + MaxFrom(t, n - 5);
  }

  lemma VarintAtMostFive(v: nat)
    requires v < TWO32
    ensures |EncodeVarint(v)| <= 5 && (v < 128 ==> |EncodeVarint(v)| == 1)
  {
    Limits();
    VarintRoundTrip(v, 5, []);
  }

  lemma {:induction false} FieldSizeBound(t: MessageType, i: nat, v: Val)
    requires i < |Schema(t)| && ValOk(Schema(t)[i], v) && (v.Sub? ==> NoUnknown(v.m))
    ensures |EncodeVal(Schema(t)[i], v)| <= MaxFieldSize(Schema(t)[i].kind)
    decreases v, 0, 0
  {
    hide EncodeVarint, Schema, Encode, EncodeVal, MsgOk, NoUnknown;
    var f := Schema(t)[i];
    SizeOfField(t, i, v);
    match v
    case Unset =>
    case Bits(b) => VarintAtMostFive(b);
    case Sub(m) =>
      EncodedSizeBound(f.kind.of, m);
      VarintAtMostFive(|Encode(f.kind.of, m)|);
  }

  lemma {:induction false} FieldsSizeBound(t: MessageType, m: Msg, i: nat)
    requires MsgOk(t, m) && NoUnknown(m) && i <= |Schema(t)|
    ensures |EncodeFrom(t, m, i)| <= MaxFrom(t, i)
    decreases m, 1, |Schema(t)| - i
  {
    hide EncodeVal, Schema, MaxFieldSize, ValOk;
    FieldCount(t, m);
    if i < |Schema(t)| {
      FieldSizeBound(t, i, m.fields[i]);
      FieldsSizeBound(t, m, i + 1);
    }
  }

  lemma {:induction false} EncodedSizeBound(t: MessageType, m: Msg)
    requires MsgOk(t, m) && NoUnknown(m)
    ensures |Encode(t, m)| <= MaxSize(t) <= 59
    decreases m, 2, 0
  {
    hide EncodeFrom, MsgOk, Schema, MaxFrom;
    MaxSizeIsTheSum(t);
    FieldsSizeBound(t, m, 0);
  }

  const LONG_ID := Msg([Bits(TWO32 - 1)], [])
  const LONG_VECTOR := Msg([Bits(1), Bits(1), Bits(1)], [])
  const LONG_MOVEMENT := Msg([Sub(LONG_ID), Sub(LONG_VECTOR), Sub(LONG_VECTOR), Sub(LONG_VECTOR)], [])

  lemma LongVarint()
    ensures |EncodeVarint(TWO32 - 1)| == 5
  {
    var v := TWO32 - 1;
    assert |EncodeVarint(v / 128 / 128 / 128)| == 2;
    assert |EncodeVarint(v / 128)| == 4;
  }

  lemma LongId()
    ensures MsgOk(PClientId, LONG_ID) && |Encode(PClientId, LONG_ID)| == 6
  {
    hide EncodeVarint, MakeTag;
    LongVarint();
    TagsAreTheConstants(PClientId, 0);
    assert EncodeFrom(PClientId, LONG_ID, 1) == [];
    assert EncodeVal(Schema(PClientId)[0], LONG_ID.fields[0]) == [8] + EncodeVarint(TWO32 - 1);
  }

  lemma LongVector(t: MessageType)
    requires t == PVector || t == PRotator
    ensures MsgOk(t, LONG_VECTOR) && |Encode(t, LONG_VECTOR)| == 15
  {
    hide EncodeVarint, MakeTag;
    TagsAreTheConstants(t, 0);
    TagsAreTheConstants(t, 1);
    TagsAreTheConstants(t, 2);
    assert EncodeFrom(t, LONG_VECTOR, 3) == [];
    assert |EncodeFrom(t, LONG_VECTOR, 1)| == 10;
  }

  lemma {:induction false} LongFrom(i: nat)
    requires i <= 4
    ensures MsgOk(PMovement, LONG_MOVEMENT)
    ensures |EncodeFrom(PMovement, LONG_MOVEMENT, i)| == if i == 0 then 59 else (4 - i) * 17
    decreases 4 - i
  {
    hide Encode, MakeTag, EncodeVarint, TagBytes;
    LongId();
    LongVector(PVector);
    LongVector(PRotator);
    if i < 4 {
      LongFrom(i + 1);
      VarintAtMostFive(6);
      VarintAtMostFive(15);
      var f, v := Schema(PMovement)[i], LONG_MOVEMENT.fields[i];
      var x := Encode(f.kind.of, v.m);
      SizeOfField(PMovement, i, v);
      assert |x| == if i == 0 then 6 else 15;
    }
  }

  /** The bound is reached. */
  lemma LongestMovement()
    ensures MsgOk(PMovement, LONG_MOVEMENT) && NoUnknown(LONG_MOVEMENT) && |Encode(PMovement, LONG_MOVEMENT)| == 59
  {
    hide EncodeFrom, MakeTag, EncodeVarint;
    LongFrom(0);
  }
}

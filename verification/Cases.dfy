/** The seven generated parse loops and serializers, case by case (ShooterProtocol.pb.cc), in tables of their own. */
module Cases {
  import opened Powers
  import opened Wire
  import opened Wrappers
  import opened UnknownFields
  import opened Messages
  import opened Codec
  import opened Sizes

  /** What a case of the switch does with its payload. */
  datatype Store = FourBytes | TruthOf64Bits | Low32Bits | IntoSub(of: MessageType)

  /** The member a tag byte goes to, and whether that member has a presence bit. */
  datatype Case = Case(place: nat, store: Store, optional: bool)

  function CaseOf(t: MessageType, tag: nat): Option<Case> {
    match t
    case PVector =>
      (match tag
       case 13 => Some(Case(0, FourBytes, false))
       case 21 => Some(Case(1, FourBytes, false))
       case 29 => Some(Case(2, FourBytes, false))
       case _ => None)
    case PRotator =>
      (match tag
       case 13 => Some(Case(0, FourBytes, false))
       case 21 => Some(Case(1, FourBytes, false))
       case 29 => Some(Case(2, FourBytes, false))
       case _ => None)
    case PWeapon =>
      (match tag
       case 10 => Some(Case(0, IntoSub(PClientId), false))
       case 16 => Some(Case(1, TruthOf64Bits, true))
       case 24 => Some(Case(2, TruthOf64Bits, true))
       case 32 => Some(Case(3, TruthOf64Bits, true))
       case 40 => Some(Case(4, TruthOf64Bits, true))
       case 48 => Some(Case(5, TruthOf64Bits, true))
       case 56 => Some(Case(6, Low32Bits, true))
       case 64 => Some(Case(7, Low32Bits, true))
       case _ => None)
    case PFireEvent =>
      (match tag
       case 10 => Some(Case(0, IntoSub(PClientId), false))
       case 21 => Some(Case(1, FourBytes, false))
       case 26 => Some(Case(2, IntoSub(PVector), false))
       case 34 => Some(Case(3, IntoSub(PVector), false))
       case _ => None)
    case PClientId =>
      (match tag
       case 8 => Some(Case(0, Low32Bits, false))
       case _ => None)
    case PMovement =>
      (match tag
       case 10 => Some(Case(0, IntoSub(PClientId), false))
       case 18 => Some(Case(1, IntoSub(PVector), true))
       case 26 => Some(Case(2, IntoSub(PRotator), true))
       case 34 => Some(Case(3, IntoSub(PVector), true))
       case _ => None)
    case PAnimState =>
      (match tag
       case 10 => Some(Case(0, IntoSub(PClientId), false))
       case 21 => Some(Case(1, FourBytes, true))
       case 29 => Some(Case(2, FourBytes, true))
       case _ => None)
  }

  function KindOf(s: Store): Kind {
    match s
    case FourBytes => KFloat
    case TruthOf64Bits => KBool
    case Low32Bits => KUInt32
    case IntoSub(of) => KMessage(of)
  }

  lemma CaseRow(t: MessageType, tag: nat)
    requires CaseOf(t, tag).Some?
    ensures var c := CaseOf(t, tag).value;
            && c.place < |Schema(t)| && Schema(t)[c.place] == Field(c.place + 1, KindOf(c.store), c.optional)
            && tag == 8 * (c.place + 1) + WireTypeFor(KindOf(c.store)) < 128
  {
  }

  /** The schema has the fields of the table. */
  lemma CaseIsInSchema(t: MessageType, tag: nat)
    requires CaseOf(t, tag).Some?
    ensures tag < 128 && Known(t, tag / 8, tag % 8) && tag != 0 && tag % 8 != END_GROUP
    ensures var c := CaseOf(t, tag).value;
            && FieldIndex(Schema(t), tag / 8) == c.place < |Schema(t)|
            && Schema(t)[c.place] == Field(tag / 8, KindOf(c.store), c.optional)
  {
    hide Schema, CaseOf, FieldIndex, KindOf;
    CaseRow(t, tag);
    FieldNumbers(t, CaseOf(t, tag).value.place);
  }

  /** ... and no others. */
  lemma OtherIsNotKnown(t: MessageType, tag: nat)
    requires CaseOf(t, tag) == None
    ensures !Known(t, tag / 8, tag % 8)
  {
    hide FieldIndex;
    var i := FieldIndex(Schema(t), tag / 8);
    if i < |Schema(t)| {
      assert Schema(t)[i].number == i + 1 == tag / 8;
    }
  }

  /** What a member holds after zero or something else was stored: a zero in a member without a presence bit cannot
      be told from nothing. */
  function Stored(c: Case, bits: nat): Val {
    if bits == 0 && !c.optional then Unset else Bits(bits)
  }

  /** Setters store what a parse does. */
  lemma SetIsStored(t: MessageType, tag: nat, bits: nat)
    requires CaseOf(t, tag).Some?
    ensures CaseOf(t, tag).value.place < |Schema(t)|
    ensures ScalarVal(Schema(t)[CaseOf(t, tag).value.place], bits) == Stored(CaseOf(t, tag).value, bits)
  {
    hide CaseOf, Schema;
    CaseIsInSchema(t, tag);
  }

  predicate Stores(t: MessageType, bs: seq<byte>, m: Msg, depth: nat, place: nat, v: Val, used: nat)
    requires MsgOk(t, m)
  {
    place < |m.fields| && ParseField(t, bs, m, depth) == Some((m.(fields := m.fields[place := v]), used))
  }

  lemma AfterTag(tag: byte, bs: seq<byte>)
    requires tag < 128
    ensures ReadTag([tag] + bs) == Some((tag, 1)) && ([tag] + bs)[1..] == bs
  {
  }

  /** A byte of the table leads to its member. */
  lemma CaseIsTaken(t: MessageType, tag: byte, bs: seq<byte>, m: Msg, depth: nat)
    requires MsgOk(t, m) && CaseOf(t, tag).Some?
    ensures var i := CaseOf(t, tag).value.place;
            && i < |m.fields| == |Schema(t)|
            && ParseField(t, [tag] + bs, m, depth)
               == match ParseKnown(t, i, bs, m, depth)
                  case None => None
                  case Some(r) => Some((r.0, 1 + r.1))
  {
    hide CaseOf, Schema, ReadTag, Known, FieldIndex, ParseKnown, MsgOk;
    CaseIsInSchema(t, tag);
    AfterTag(tag, bs);
    FieldCount(t, m);
  }

  lemma FourBytesStored(t: MessageType, tag: byte, a: byte, b: byte, c: byte, d: byte, rest: seq<byte>, m: Msg,
                        depth: nat)
    requires MsgOk(t, m) && CaseOf(t, tag).Some? && CaseOf(t, tag).value.store == FourBytes
    ensures var k := CaseOf(t, tag).value;
            Stores(t, [tag, a, b, c, d] + rest, m, depth,
                   k.place, Stored(k, a + 0x100 * b + 0x1_0000 * c + 0x100_0000 * d), 5)
  {
    hide CaseOf, Schema, ParseField, MsgOk, DecodeFixed;
    CaseIsInSchema(t, tag);
    var bs := [a, b, c, d] + rest;
    CaseIsTaken(t, tag, bs, m, depth);
    assert [tag, a, b, c, d] + rest == [tag] + bs && bs[..4] == [a, b, c, d];
    FourBytesRead(a, b, c, d);
  }

  lemma FourBytesRead(a: byte, b: byte, c: byte, d: byte)
    ensures DecodeFixed([a, b, c, d]) == a + 0x100 * b + 0x1_0000 * c + 0x100_0000 * d
  {
    assert [a, b, c, d][1..] == [b, c, d] && [b, c, d][1..] == [c, d] && [c, d][1..] == [d];
    assert DecodeFixed([d]) == d;
    assert DecodeFixed([c, d]) == c + 256 * DecodeFixed([d]);
    assert DecodeFixed([b, c, d]) == b + 256 * DecodeFixed([c, d]);
    assert DecodeFixed([a, b, c, d]) == a + 256 * DecodeFixed([b, c, d]);
  }

  /** Any varint of up to ten bytes, with any bytes behind. */
  lemma VarintStored(t: MessageType, tag: byte, bs: seq<byte>, k: nat, m: Msg, depth: nat)
    requires MsgOk(t, m) && CaseOf(t, tag).Some? && IsVarint(bs, k)
    requires CaseOf(t, tag).value.store in {TruthOf64Bits, Low32Bits}
    ensures var c, v := CaseOf(t, tag).value, Septets(bs[..k]);
            var bits := if c.store == Low32Bits then v % 0x1_0000_0000
                        else if v % 0x1_0000_0000_0000_0000 == 0 then 0
                        else 1;
            if k <= 10 then Stores(t, [tag] + bs, m, depth, c.place, Stored(c, bits), 1 + k)
            else ParseField(t, [tag] + bs, m, depth) == None
  {
    hide CaseOf, Schema, ParseField, MsgOk, Septets, ReadVarint64, ReadVarint32;
    CaseIsInSchema(t, tag);
    CaseIsTaken(t, tag, bs, m, depth);
    ReadersExactly(bs, k);
  }

  /** A length and a body, read on top of the sub-message that is there. */
  lemma BodyStored(t: MessageType, tag: byte, bs: seq<byte>, k: nat, m: Msg, depth: nat)
    requires MsgOk(t, m) && CaseOf(t, tag).Some? && CaseOf(t, tag).value.store.IntoSub?
    requires IsVarint(bs, k) && k <= 5 && k + Septets(bs[..k]) <= |bs| && Septets(bs[..k]) <= 2147483631 && 0 < depth
    ensures var c, n := CaseOf(t, tag).value, Septets(bs[..k]);
            && c.place < |m.fields|
            && var was := if m.fields[c.place].Sub? then m.fields[c.place].m else Default(c.store.of);
               && MsgOk(c.store.of, was)
               && match ParseInto(c.store.of, bs[k..k + n], was, depth - 1)
                  case None => ParseField(t, [tag] + bs, m, depth) == None
                  case Some(s) => Stores(t, [tag] + bs, m, depth, c.place, Sub(s), 1 + k + n)
  {
    hide CaseOf, Schema, ParseField, MsgOk, Septets, ReadSize, ParseInto, Default;
    CaseIsInSchema(t, tag);
    CaseIsTaken(t, tag, bs, m, depth);
    ReadersExactly(bs, k);
    FieldCount(t, m);
    var c := CaseOf(t, tag).value;
    var f := Schema(t)[c.place];
    assert MsgOk(f.kind.of, SubOrDefault(f, m.fields[c.place]));
  }

  /** Every other tag, of however many bytes, is kept as an unknown field, or ends the parse. */
  lemma OtherIsKept(t: MessageType, bs: seq<byte>, m: Msg, depth: nat)
    requires MsgOk(t, m) && ReadTag(bs).Some? && CaseOf(t, ReadTag(bs).value.0) == None
    ensures var tag, k := ReadTag(bs).value.0, ReadTag(bs).value.1;
            ParseField(t, bs, m, depth)
            == if tag == 0 || tag % 8 == 4 then None
               else match ParseBody(tag, bs[k..], depth)
                    case None => None
                    case Some(u) => Some((m.(unknown := m.unknown + [u.0]), k + u.1))
  {
    hide CaseOf, Schema, Known, ReadTag, ParseKnown, ParseBody, MsgOk;
    OtherIsNotKnown(t, ReadTag(bs).value.0);
  }

  // What is written

  /** The bytes of one member. */
  function Piece(c: Case, tag: byte, v: Val): seq<byte>
    requires v.Sub? ==> c.store.IntoSub? && MsgOk(c.store.of, v.m)
  {
    match v
    case Unset => []
    case Bits(b) =>
      [tag] + if c.store == FourBytes then [b % 256, b / 0x100 % 256, b / 0x1_0000 % 256, b / 0x100_0000 % 256]
              else EncodeVarint(b)
    case Sub(s) => [tag] + EncodeVarint(|Encode(c.store.of, s)|) + Encode(c.store.of, s)
  }

  /** The tag bytes of a type are those of its cases, in the order of its members. */
  lemma TagsOfCases(t: MessageType, i: nat)
    requires i < |TagBytes(t)|
    ensures |TagBytes(t)| == |Schema(t)| && CaseOf(t, TagBytes(t)[i]).Some?
    ensures CaseOf(t, TagBytes(t)[i]).value.place == i
  {
  }

  lemma FourBytesWritten(b: nat)
    ensures EncodeFixed(b, 4) == [b % 256, b / 0x100 % 256, b / 0x1_0000 % 256, b / 0x100_0000 % 256]
  {
    var c := b / 256;
    var d := c / 256;
    var e := d / 256;
    assert EncodeFixed(e, 1) == [e % 256];
    assert EncodeFixed(d, 2) == [d % 256] + EncodeFixed(e, 1);
    assert EncodeFixed(c, 3) == [c % 256] + EncodeFixed(d, 2);
    assert EncodeFixed(b, 4) == [b % 256] + EncodeFixed(c, 3);
  }

  lemma PieceIsWritten(t: MessageType, i: nat, v: Val)
    requires i < |Schema(t)| && ValOk(Schema(t)[i], v)
    ensures i < |TagBytes(t)| && CaseOf(t, TagBytes(t)[i]).Some?
    ensures var tag := TagBytes(t)[i];
            var c := CaseOf(t, tag).value;
            && (v.Sub? ==> c.store.IntoSub? && MsgOk(c.store.of, v.m))
            && EncodeVal(Schema(t)[i], v) == Piece(c, tag, v)
  {
    hide Schema, CaseOf, TagBytes, MsgOk, Encode, EncodeVarint, EncodeFixed, MakeTag;
    TagsAreTheConstants(t, i);
    TagsOfCases(t, i);
    CaseIsInSchema(t, TagBytes(t)[i]);
    if v.Bits? {
      FourBytesWritten(v.v);
    }
  }

  /** Every member has a tag byte of its own, and sub-messages are where they belong. */
  ghost predicate Cased(t: MessageType, m: Msg) {
    && |TagBytes(t)| == |m.fields|
    && forall i :: 0 <= i < |m.fields| ==> CasedAt(t, TagBytes(t)[i], m.fields[i])
  }

  predicate CasedAt(t: MessageType, tag: byte, v: Val) {
    CaseOf(t, tag).Some?
    && (v.Sub? ==> CaseOf(t, tag).value.store.IntoSub? && MsgOk(CaseOf(t, tag).value.store.of, v.m))
  }

  /** The members that follow the first i, in the order of their tag bytes, then the unknown fields. */
  ghost function WrittenFrom(t: MessageType, m: Msg, i: nat): seq<byte>
    requires Cased(t, m) && i <= |m.fields|
    decreases |m.fields| - i
  {
    if i == |m.fields| then EncodeAll(m.unknown)
    else
      assert CasedAt(t, TagBytes(t)[i], m.fields[i]);
      Piece(CaseOf(t, TagBytes(t)[i]).value, TagBytes(t)[i], m.fields[i]) + WrittenFrom(t, m, i + 1)
  }

  lemma IsCased(t: MessageType, m: Msg)
    requires MsgOk(t, m)
    ensures Cased(t, m)
  {
    hide Schema, CaseOf, TagBytes, MsgOk, Piece;
    FieldCount(t, m);
    AsManyTags(t);
    forall i | 0 <= i < |m.fields|
      ensures CasedAt(t, TagBytes(t)[i], m.fields[i])
    {
      PieceIsWritten(t, i, m.fields[i]);
    }
  }

  lemma AsManyTags(t: MessageType)
    ensures |TagBytes(t)| == |Schema(t)|
  {
  }

  lemma {:induction false} WrittenFromIs(t: MessageType, m: Msg, i: nat)
    requires MsgOk(t, m) && i <= |m.fields| && Cased(t, m)
    ensures EncodeFrom(t, m, i) + EncodeAll(m.unknown) == WrittenFrom(t, m, i)
    decreases |m.fields| - i
  {
    hide Schema, CaseOf, TagBytes, MsgOk, Piece, EncodeVal, EncodeAll;
    FieldCount(t, m);
    if i < |m.fields| {
      PieceIsWritten(t, i, m.fields[i]);
      WrittenFromIs(t, m, i + 1);
    }
  }

  /** A message is written member by member, in the order of the tag bytes and with the unknown fields last. */
  lemma WrittenInOrder(t: MessageType, m: Msg)
    requires MsgOk(t, m)
    ensures Cased(t, m) && Encode(t, m) == WrittenFrom(t, m, 0)
  {
    hide Cased, MsgOk, EncodeFrom, EncodeAll, WrittenFrom;
    IsCased(t, m);
    WrittenFromIs(t, m, 0);
  }
}

/** Which parses get by with the bytes at hand. A parser does not compare what it reads with a limit until it has
    read a whole record, and lengths say how many bytes there should be, not how many there are. */
module Lookahead {
  import opened Powers
  import opened Wire
  import opened Wrappers
  import opened UnknownFields
  import opened Messages
  import opened Codec
  import opened CodecLaws

  /** What reading comes to: so many bytes, a refusal, or a byte that is not at hand. */
  datatype Scan = Read(used: nat) | Refused | RanOut

  function Behind(k: nat, s: Scan): Scan {
    if s.Read? then Read(k + s.used) else s
  }

  function ScanVarint(bs: seq<byte>, limit: nat): (s: Scan)
    ensures s.Read? ==> 0 < s.used <= |bs|
  {
    if limit == 0 then Refused
    else if bs == [] then RanOut
    else if bs[0] < 128 then Read(1)
    else Behind(1, ScanVarint(bs[1..], limit - 1))
  }

  lemma {:induction false} VarintScanned(bs: seq<byte>, limit: nat)
    ensures ScanVarint(bs, limit).Read? <==> DecodeVarint(bs, limit).Some?
    ensures ScanVarint(bs, limit).Read? ==> ScanVarint(bs, limit).used == DecodeVarint(bs, limit).value.1
  {
    if bs != [] && limit != 0 && 128 <= bs[0] {
      VarintScanned(bs[1..], limit - 1);
    }
  }

  function ScanTag(bs: seq<byte>): (s: Scan)
    ensures s.Read? ==> ReadTag(bs).Some? && ReadTag(bs).value.1 == s.used
  {
    VarintScanned(bs, 5);
    ScanVarint(bs, 5)
  }

  function ScanSize(bs: seq<byte>): (s: Scan)
    ensures s.Read? ==> ReadSize(bs).Some? && ReadSize(bs).value.1 == s.used
  {
    VarintScanned(bs, 5);
    var s := ScanVarint(bs, 5);
    if s.Read? && ReadSize(bs) == None then Refused else s
  }

  function ScanBytes(bs: seq<byte>, n: nat): (s: Scan)
    ensures s.Read? ==> s.used == n <= |bs|
  {
    if |bs| < n then RanOut else Read(n)
  }

  function Rest(limit: nat, used: nat): nat {
    if limit < used then 0 else limit - used
  }

  /** FieldParser, after the tag. Only a group looks at the limit, between its fields. */
  function ScanBody(tag: nat, bs: seq<byte>, limit: nat, depth: nat): (s: Scan)
    ensures s.Read? ==> s.used <= |bs|
    decreases |bs|, 1
  {
    var number, wireType := tag / 8, tag % 8;
    if number == 0 then Refused
    else if wireType == VARINT then ScanVarint(bs, 10)
    else if wireType == FIXED64 then ScanBytes(bs, 8)
    else if wireType == LENGTH_DELIMITED then
      var s := ScanSize(bs);
      if s.Read? then Behind(s.used, ScanBytes(bs[s.used..], ReadSize(bs).value.0)) else s
    else if wireType == START_GROUP then
      if depth == 0 then Refused else ScanGroup(number, bs, limit, depth - 1)
    else if wireType == FIXED32 then ScanBytes(bs, 4)
    else Refused
  }

  function ScanGroup(number: nat, bs: seq<byte>, limit: nat, depth: nat): (s: Scan)
    ensures s.Read? ==> s.used <= |bs|
    decreases |bs|, 0
  {
    if limit == 0 then Refused
    else
      match ScanTag(bs)
      case Refused => Refused
      case RanOut => RanOut
      case Read(k) =>
        var tag := ReadTag(bs).value.0;
        if tag == 0 || tag % 8 == END_GROUP then
          if tag == MakeTag(number, END_GROUP) then Read(k) else Refused
        else
          match ScanBody(tag, bs[k..], Rest(limit, k), depth)
          case Refused => Refused
          case RanOut => RanOut
          case Read(u) =>
            if limit <= k + u then Refused
            else Behind(k + u, ScanGroup(number, bs[k + u..], limit - k - u, depth))
  }

  /** The value of a known field, after its tag. */
  function ScanKnown(k: Kind, bs: seq<byte>, depth: nat): (s: Scan)
    ensures s.Read? ==> s.used <= |bs|
    decreases |bs|, 0
  {
    match k
    case KFloat => ScanBytes(bs, 4)
    case KBool => ScanVarint(bs, 10)
    case KUInt32 => ScanVarint(bs, 10)
    case KMessage(of) =>
      var s := ScanSize(bs);
      if !s.Read? then s
      else if depth == 0 then Refused
      else Behind(s.used, ScanMessage(of, bs[s.used..], ReadSize(bs).value.0, depth - 1))
  }

  /** handle_unusual: a zero tag or an end tag stops the parse. */
  function ScanUnusual(tag: nat, bs: seq<byte>, limit: nat, depth: nat): (s: Scan)
    ensures s.Read? ==> s.used <= |bs|
  {
    if tag == 0 || tag % 8 == END_GROUP then Refused else ScanBody(tag, bs, limit, depth)
  }

  /** What follows a tag. */
  function ScanTagged(t: MessageType, tag: nat, bs: seq<byte>, limit: nat, depth: nat): (s: Scan)
    ensures s.Read? ==> s.used <= |bs|
    decreases |bs|, 1
  {
    if Known(t, tag / 8, tag % 8) then ScanKnown(Schema(t)[FieldIndex(Schema(t), tag / 8)].kind, bs, depth)
    else ScanUnusual(tag, bs, limit, depth)
  }

  /** One turn of the parse loop. */
  function ScanField(t: MessageType, bs: seq<byte>, limit: nat, depth: nat): (s: Scan)
    ensures s.Read? ==> 0 < s.used <= |bs|
    decreases |bs|, 2
  {
    match ScanTag(bs)
    case Refused => Refused
    case RanOut => RanOut
    case Read(k) => Behind(k, ScanTagged(t, ReadTag(bs).value.0, bs[k..], Rest(limit, k), depth))
  }

  /** The whole loop, up to a limit that may be short of the bytes at hand or beyond them. */
  function ScanMessage(t: MessageType, bs: seq<byte>, limit: nat, depth: nat): (s: Scan)
    ensures s.Read? ==> s.used == limit <= |bs|
    decreases |bs|, 3
  {
    if limit == 0 then Read(0)
    else
      match ScanField(t, bs, limit, depth)
      case Refused => Refused
      case RanOut => RanOut
      case Read(k) => if limit < k then Refused else Behind(k, ScanMessage(t, bs[k..], limit - k, depth))
  }

  // A scan of some bytes tells how any bytes are parsed that begin like them or that they begin with

  predicate Agree(bs: seq<byte>, y: seq<byte>) {
    forall i :: 0 <= i < |bs| && i < |y| ==> bs[i] == y[i]
  }

  lemma AgreeBehind(bs: seq<byte>, y: seq<byte>, k: nat)
    requires Agree(bs, y) && k <= |bs| && k <= |y|
    ensures Agree(bs[k..], y[k..]) && Same(bs, y, k)
  {
  }

  /** y is parsed as the scan of bs says, unless it goes on where bs ends. */
  predicate Tells<T>(s: Scan, bs: seq<byte>, y: seq<byte>, parsed: Option<(T, nat)>) {
    match s
    case Read(u) => if u <= |y| then parsed.Some? && parsed.value.1 == u else parsed == None
    case Refused => parsed == None
    case RanOut => |y| <= |bs| ==> parsed == None
  }

  lemma {:induction false} VarintTells(bs: seq<byte>, y: seq<byte>, limit: nat)
    requires Agree(bs, y)
    ensures Tells(ScanVarint(bs, limit), bs, y, DecodeVarint(y, limit))
    ensures ScanVarint(bs, limit).Read? && ScanVarint(bs, limit).used <= |y| ==>
              DecodeVarint(y, limit) == DecodeVarint(bs, limit)
  {
    if limit != 0 && bs != [] && y != [] && 128 <= bs[0] {
      AgreeBehind(bs, y, 1);
      VarintTells(bs[1..], y[1..], limit - 1);
    }
  }

  lemma TagTells(bs: seq<byte>, y: seq<byte>)
    requires Agree(bs, y)
    ensures Tells(ScanTag(bs), bs, y, ReadTag(y))
    ensures ScanTag(bs).Read? && ScanTag(bs).used <= |y| ==> ReadTag(y) == ReadTag(bs)
  {
    hide ScanVarint, DecodeVarint;
    VarintTells(bs, y, 5);
  }

  lemma SizeTells(bs: seq<byte>, y: seq<byte>)
    requires Agree(bs, y)
    ensures Tells(ScanSize(bs), bs, y, ReadSize(y))
    ensures ScanSize(bs).Read? && ScanSize(bs).used <= |y| ==> ReadSize(y) == ReadSize(bs)
  {
    hide ScanVarint, DecodeVarint;
    VarintScanned(bs, 5);
    VarintTells(bs, y, 5);
  }

  lemma {:induction false} BodyTells(tag: nat, bs: seq<byte>, y: seq<byte>, depth: nat)
    requires Agree(bs, y)
    ensures Tells(ScanBody(tag, bs, |y|, depth), bs, y, ParseBody(tag, y, depth))
    decreases |bs|, 1
  {
    hide ScanVarint, DecodeVarint, ScanSize, ReadSize, ScanGroup, ParseGroup, DecodeFixed;
    VarintTells(bs, y, 10);
    SizeTells(bs, y);
    if tag / 8 != 0 && tag % 8 == START_GROUP && depth != 0 {
      GroupTells(tag / 8, bs, y, depth - 1);
    }
  }

  /** What follows the first k bytes. */
  lemma TellsBehind<T, U>(k: nat, s: Scan, bs: seq<byte>, y: seq<byte>, p: Option<(T, nat)>, q: Option<(U, nat)>)
    requires k <= |bs| && k <= |y| && Tells(s, bs[k..], y[k..], p)
    requires p.Some? <==> q.Some?
    requires p.Some? ==> q.value.1 == k + p.value.1
    ensures Tells(Behind(k, s), bs, y, q)
  {
  }

  lemma {:induction false} GroupTells(number: nat, bs: seq<byte>, y: seq<byte>, depth: nat)
    requires Agree(bs, y)
    ensures Tells(ScanGroup(number, bs, |y|, depth), bs, y, ParseGroup(number, y, depth))
    decreases |bs|, 0
  {
    hide ScanTag, ReadTag, ScanBody, ParseBody, MakeTag, ScanGroup, ParseGroup, Behind;
    TagTells(bs, y);
    if y != [] && ScanTag(bs).Read? && ScanTag(bs).used <= |y| {
      var k, tag := ScanTag(bs).used, ReadTag(bs).value.0;
      AgreeBehind(bs, y, k);
      if tag != 0 && tag % 8 != END_GROUP {
        BodyTells(tag, bs[k..], y[k..], depth);
        var s := ScanBody(tag, bs[k..], |y| - k, depth);
        if s.Read? && k + s.used < |y| {
          AgreeBehind(bs, y, k + s.used);
          GroupTells(number, bs[k + s.used..], y[k + s.used..], depth);
        }
        GroupGoesOnTells(number, bs, y, tag, k, depth);
      } else {
        GroupEndTells(number, bs, y, depth);
      }
    } else {
      GroupTooShort(number, bs, y, depth);
    }
  }

  lemma NothingToRead()
    ensures ReadTag([]) == None
  {
  }

  lemma GroupTooShort(number: nat, bs: seq<byte>, y: seq<byte>, depth: nat)
    requires Agree(bs, y) && (y == [] || !(ScanTag(bs).Read? && ScanTag(bs).used <= |y|))
    ensures Tells(ScanGroup(number, bs, |y|, depth), bs, y, ParseGroup(number, y, depth))
  {
    hide ScanTag, ReadTag, ScanBody, ParseBody, MakeTag;
    TagTells(bs, y);
    NothingToRead();
  }

  lemma GroupEndTells(number: nat, bs: seq<byte>, y: seq<byte>, depth: nat)
    requires y != [] && ScanTag(bs).Read? && ScanTag(bs).used <= |y| && ReadTag(y) == ReadTag(bs)
    requires ReadTag(bs).value.0 == 0 || ReadTag(bs).value.0 % 8 == END_GROUP
    ensures Tells(ScanGroup(number, bs, |y|, depth), bs, y, ParseGroup(number, y, depth))
  {
    hide ScanTag, ReadTag, ScanBody, ParseBody, MakeTag;
  }

  lemma NoGroup(number: nat, depth: nat)
    ensures ParseGroup(number, [], depth) == None
  {
    NothingToRead();
  }

  lemma ScanGroupStep(number: nat, bs: seq<byte>, limit: nat, tag: nat, k: nat, depth: nat)
    requires 0 < limit && ScanTag(bs) == Read(k) && ReadTag(bs) == Some((tag, k))
    requires tag != 0 && tag % 8 != END_GROUP
    ensures var s := ScanBody(tag, bs[k..], Rest(limit, k), depth);
            ScanGroup(number, bs, limit, depth)
            == if !s.Read? then s
               else if limit <= k + s.used then Refused
               else Behind(k + s.used, ScanGroup(number, bs[k + s.used..], limit - k - s.used, depth))
  {
    hide ScanTag, ReadTag, ScanBody, MakeTag, Behind;
  }

  lemma GroupGoesOnTells(number: nat, bs: seq<byte>, y: seq<byte>, tag: nat, k: nat, depth: nat)
    requires y != [] && ScanTag(bs) == Read(k) && k <= |y| && ReadTag(y) == ReadTag(bs) == Some((tag, k))
    requires tag != 0 && tag % 8 != END_GROUP
    requires Tells(ScanBody(tag, bs[k..], |y| - k, depth), bs[k..], y[k..], ParseBody(tag, y[k..], depth))
    requires var s := ScanBody(tag, bs[k..], |y| - k, depth);
             s.Read? && k + s.used < |y| ==>
               var g := k + s.used;
               Tells(ScanGroup(number, bs[g..], |y| - g, depth), bs[g..], y[g..], ParseGroup(number, y[g..], depth))
    ensures Tells(ScanGroup(number, bs, |y|, depth), bs, y, ParseGroup(number, y, depth))
  {
    hide ScanTag, ReadTag, ScanBody, ParseBody, MakeTag, Behind, ScanGroup, ParseGroup;
    ScanGroupStep(number, bs, |y|, tag, k, depth);
    ParseGroupStep(number, y, tag, k, depth);
    var s := ScanBody(tag, bs[k..], |y| - k, depth);
    if s.Read? && k + s.used < |y| {
      var g := k + s.used;
      assert y[k..][s.used..] == y[g..];
      TellsBehind(g, ScanGroup(number, bs[g..], |y| - g, depth), bs, y, ParseGroup(number, y[g..], depth),
                  ParseGroup(number, y, depth));
    } else {
      NoGroup(number, depth);
      assert s.Read? && k + s.used == |y| ==> y[k + s.used..] == [];
    }
  }

  lemma {:induction false} SubTells(t: MessageType, bs: seq<byte>, y: seq<byte>, m: Msg, depth: nat)
    requires MsgOk(t, m) && Agree(bs, y)
    ensures Tells(ScanKnown(KMessage(t), bs, depth), bs, y, ParseSub(t, y, m, depth))
    decreases |bs|, 0
  {
    hide MsgOk, ScanSize, ReadSize, ScanMessage, ParseInto;
    SizeTells(bs, y);
    if depth != 0 && ScanSize(bs).Read? && ScanSize(bs).used <= |y| {
      var k, n := ScanSize(bs).used, ReadSize(bs).value.0;
      AgreeBehind(bs, y, k);
      if k + n <= |y| {
        MessageTells(t, bs[k..], y[k..k + n], m, depth - 1);
      }
    }
  }

  lemma ScalarTells(k: Kind, bs: seq<byte>, y: seq<byte>, depth: nat)
    requires !k.KMessage? && Agree(bs, y)
    ensures Tells(ScanKnown(k, bs, depth), bs, y, ParseScalar(k, y))
  {
    hide ScanVarint, DecodeVarint, DecodeFixed;
    VarintTells(bs, y, 10);
  }

  lemma {:induction false} KnownTells(t: MessageType, i: nat, bs: seq<byte>, y: seq<byte>, m: Msg, depth: nat)
    requires MsgOk(t, m) && i < |Schema(t)| && Agree(bs, y)
    ensures Tells(ScanKnown(Schema(t)[i].kind, bs, depth), bs, y, ParseKnown(t, i, y, m, depth))
    decreases |bs|, 1
  {
    hide Schema, MsgOk, ScanKnown, ParseSub, ParseScalar, WithField;
    FieldCount(t, m);
    var f := Schema(t)[i];
    if f.kind.KMessage? {
      SubTells(f.kind.of, bs, y, SubOrDefault(f, m.fields[i]), depth);
    } else {
      ScalarTells(f.kind, bs, y, depth);
    }
  }

  lemma UnusualTells(t: MessageType, tag: nat, bs: seq<byte>, y: seq<byte>, m: Msg, depth: nat)
    requires MsgOk(t, m) && Agree(bs, y) && tag < TWO32 && !Known(t, tag / 8, tag % 8)
    ensures Tells(ScanUnusual(tag, bs, |y|, depth), bs, y, ParseUnusual(t, tag, y, m, depth))
  {
    hide Known, MsgOk, ScanBody, ParseBody;
    BodyTells(tag, bs, y, depth);
  }

  lemma {:induction false} TaggedTells(t: MessageType, tag: nat, bs: seq<byte>, y: seq<byte>, m: Msg, depth: nat)
    requires MsgOk(t, m) && Agree(bs, y) && tag < TWO32
    ensures Tells(ScanTagged(t, tag, bs, |y|, depth), bs, y, ParseTagged(t, tag, y, m, depth))
    decreases |bs|, 2
  {
    hide Schema, MsgOk, ScanKnown, ParseKnown, ScanUnusual, ParseUnusual, FieldIndex;
    if Known(t, tag / 8, tag % 8) {
      KnownTells(t, FieldIndex(Schema(t), tag / 8), bs, y, m, depth);
    } else {
      UnusualTells(t, tag, bs, y, m, depth);
    }
  }

  lemma {:induction false} FieldTells(t: MessageType, bs: seq<byte>, y: seq<byte>, m: Msg, depth: nat)
    requires MsgOk(t, m) && Agree(bs, y)
    ensures Tells(ScanField(t, bs, |y|, depth), bs, y, ParseField(t, y, m, depth))
    decreases |bs|, 3
  {
    hide MsgOk, ScanTag, ReadTag, ScanTagged, ParseTagged, Behind, Tells;
    TagTells(bs, y);
    if ScanTag(bs).Read? && ScanTag(bs).used <= |y| {
      var k, tag := ScanTag(bs).used, ReadTag(bs).value.0;
      AgreeBehind(bs, y, k);
      TaggedTells(t, tag, bs[k..], y[k..], m, depth);
      TellsBehind(k, ScanTagged(t, tag, bs[k..], |y| - k, depth), bs, y, ParseTagged(t, tag, y[k..], m, depth),
                  ParseField(t, y, m, depth));
    } else {
      FieldTooShort(t, bs, y, m, depth);
    }
  }

  lemma FieldTooShort(t: MessageType, bs: seq<byte>, y: seq<byte>, m: Msg, depth: nat)
    requires MsgOk(t, m) && Agree(bs, y) && !(ScanTag(bs).Read? && ScanTag(bs).used <= |y|)
    ensures Tells(ScanField(t, bs, |y|, depth), bs, y, ParseField(t, y, m, depth))
  {
    hide MsgOk, ScanTag, ReadTag, ScanTagged, ParseTagged;
    TagTells(bs, y);
  }

  /** If no byte is missing, the bytes at hand decide whether the message parses, whatever lies behind them. */
  lemma {:induction false} MessageTells(t: MessageType, bs: seq<byte>, y: seq<byte>, m: Msg, depth: nat)
    requires MsgOk(t, m) && Agree(bs, y)
    ensures match ScanMessage(t, bs, |y|, depth)
            case Read(_) => ParseInto(t, y, m, depth).Some?
            case Refused => ParseInto(t, y, m, depth) == None
            case RanOut => |y| <= |bs| ==> ParseInto(t, y, m, depth) == None
    decreases |bs|, 4
  {
    hide Schema, MsgOk, ScanField, ParseField;
    if y != [] {
      FieldTells(t, bs, y, m, depth);
      var s := ScanField(t, bs, |y|, depth);
      if s.Read? && s.used <= |y| {
        AgreeBehind(bs, y, s.used);
        MessageTells(t, bs[s.used..], y[s.used..], ParseField(t, y, m, depth).value.0, depth);
      }
    }
  }

  // Enough bytes always do

  /** The longest record that is not a group or a message, tag included. */
  const LONGEST_RECORD := 10 + MAX_READ

  lemma {:induction false} VarintEnough(bs: seq<byte>, limit: nat)
    requires limit <= |bs|
    ensures !ScanVarint(bs, limit).RanOut? && (ScanVarint(bs, limit).Read? ==> ScanVarint(bs, limit).used <= limit)
  {
    if limit != 0 && 128 <= bs[0] {
      VarintEnough(bs[1..], limit - 1);
    }
  }

  lemma {:induction false} BodyEnough(tag: nat, bs: seq<byte>, limit: nat, depth: nat)
    requires 5 + MAX_READ <= |bs| && (0 < limit ==> limit + LONGEST_RECORD <= |bs|)
    ensures !ScanBody(tag, bs, limit, depth).RanOut?
    decreases |bs|, 1
  {
    hide ScanVarint, ScanGroup, ReadSize;
    VarintEnough(bs, 10);
    VarintEnough(bs, 5);
    if tag % 8 == START_GROUP && depth != 0 && 0 < limit {
      GroupEnough(tag / 8, bs, limit, depth - 1);
    } else if tag % 8 == START_GROUP && depth != 0 {
      NoRoomForGroup(tag / 8, bs, depth - 1);
    }
  }

  lemma NoRoomForGroup(number: nat, bs: seq<byte>, depth: nat)
    ensures ScanGroup(number, bs, 0, depth) == Refused
  {
  }

  lemma {:induction false} GroupEnough(number: nat, bs: seq<byte>, limit: nat, depth: nat)
    requires limit + LONGEST_RECORD <= |bs|
    ensures !ScanGroup(number, bs, limit, depth).RanOut?
    decreases |bs|, 0
  {
    hide ScanVarint, ScanBody, ReadTag, MakeTag;
    VarintEnough(bs, 5);
    var s := ScanTag(bs);
    if 0 < limit && s.Read? {
      var k, tag := s.used, ReadTag(bs).value.0;
      if tag != 0 && tag % 8 != END_GROUP {
        BodyEnough(tag, bs[k..], Rest(limit, k), depth);
        var b := ScanBody(tag, bs[k..], Rest(limit, k), depth);
        if b.Read? && k + b.used < limit {
          GroupEnough(number, bs[k + b.used..], limit - k - b.used, depth);
        }
      }
    }
  }

  /** How far a message may look beyond its limit: by a record, and a sub-message by another. */
  function Beyond(t: MessageType): nat {
    if Leaf(t) then LONGEST_RECORD else 2 * LONGEST_RECORD
  }

  lemma {:induction false} KnownEnough(t: MessageType, i: nat, bs: seq<byte>, depth: nat)
    requires i < |Schema(t)| && 5 + Beyond(t) - 10 <= |bs|
    ensures !ScanKnown(Schema(t)[i].kind, bs, depth).RanOut?
    decreases |bs|, 1
  {
    hide Schema, ScanVarint, ScanMessage, ReadSize, Leaf;
    VarintEnough(bs, 10);
    VarintEnough(bs, 5);
    var k := Schema(t)[i].kind;
    if k.KMessage? {
      SubsAreLeaves(t, i);
      var s := ScanSize(bs);
      if s.Read? && depth != 0 {
        MessageEnough(k.of, bs[s.used..], ReadSize(bs).value.0, depth - 1);
      }
    }
  }

  lemma {:induction false} FieldEnough(t: MessageType, bs: seq<byte>, limit: nat, depth: nat)
    requires 0 < limit && limit + Beyond(t) <= |bs|
    ensures !ScanField(t, bs, limit, depth).RanOut?
    decreases |bs|, 2
  {
    hide Schema, ScanVarint, ScanBody, ScanKnown, ReadTag, Leaf, Known, FieldIndex;
    VarintEnough(bs, 5);
    var s := ScanTag(bs);
    if s.Read? {
      var k, tag := s.used, ReadTag(bs).value.0;
      if Known(t, tag / 8, tag % 8) {
        KnownInRange(t, tag / 8, tag % 8);
        KnownEnough(t, FieldIndex(Schema(t), tag / 8), bs[k..], depth);
      } else {
        BodyEnough(tag, bs[k..], Rest(limit, k), depth);
      }
    }
  }

  lemma KnownInRange(t: MessageType, number: nat, wireType: nat)
    requires Known(t, number, wireType)
    ensures FieldIndex(Schema(t), number) < |Schema(t)|
  {
    hide Schema;
  }

  /** A parse runs out of bytes only for want of bytes: with so many behind its limit it never does. */
  lemma {:induction false} MessageEnough(t: MessageType, bs: seq<byte>, limit: nat, depth: nat)
    requires limit + Beyond(t) <= |bs|
    ensures ScanMessage(t, bs, limit, depth) != RanOut
    decreases |bs|, 3
  {
    hide Schema, ScanField, Beyond;
    if limit != 0 {
      FieldEnough(t, bs, limit, depth);
      var s := ScanField(t, bs, limit, depth);
      if s.Read? && s.used <= limit {
        MessageEnough(t, bs[s.used..], limit - s.used, depth);
      }
    }
  }

  // A higher limit changes nothing for what was read below it

  lemma {:induction false} BodyRaised(tag: nat, bs: seq<byte>, low: nat, high: nat, depth: nat)
    requires low <= high && ScanBody(tag, bs, low, depth).Read?
    ensures ScanBody(tag, bs, high, depth) == ScanBody(tag, bs, low, depth)
    decreases |bs|, 1
  {
    hide ScanGroup, ScanVarint, ScanSize, ReadSize;
    if tag % 8 == START_GROUP {
      GroupRaised(tag / 8, bs, low, high, depth - 1);
    }
  }

  lemma GroupStarts(number: nat, bs: seq<byte>, low: nat, high: nat, depth: nat)
    requires low <= high && ScanGroup(number, bs, low, depth).Read?
    ensures 0 < low && ScanTag(bs).Read?
    ensures var tag := ReadTag(bs).value.0;
            tag == 0 || tag % 8 == END_GROUP ==>
              ScanGroup(number, bs, high, depth) == ScanGroup(number, bs, low, depth)
  {
    hide ScanTag, ScanBody, ReadTag, MakeTag, Behind;
  }

  lemma BehindReads(k: nat, s: Scan)
    ensures Behind(k, s).Read? <==> s.Read?
  {
  }

  lemma {:induction false} GroupRaised(number: nat, bs: seq<byte>, low: nat, high: nat, depth: nat)
    requires low <= high && ScanGroup(number, bs, low, depth).Read?
    ensures ScanGroup(number, bs, high, depth) == ScanGroup(number, bs, low, depth)
    decreases |bs|, 0
  {
    hide ScanTag, ScanBody, ReadTag, MakeTag, ScanGroup, Behind;
    GroupStarts(number, bs, low, high, depth);
    var k, tag := ScanTag(bs).used, ReadTag(bs).value.0;
    if tag != 0 && tag % 8 != END_GROUP {
      ScanGroupStep(number, bs, low, tag, k, depth);
      ScanGroupStep(number, bs, high, tag, k, depth);
      BodyRaised(tag, bs[k..], Rest(low, k), Rest(high, k), depth);
      var u := ScanBody(tag, bs[k..], Rest(low, k), depth).used;
      BehindReads(k + u, ScanGroup(number, bs[k + u..], Rest(low, k + u), depth));
      GroupRaised(number, bs[k + u..], low - k - u, high - k - u, depth);
    }
  }

  lemma FieldRaised(t: MessageType, bs: seq<byte>, low: nat, high: nat, depth: nat)
    requires low <= high && ScanField(t, bs, low, depth).Read?
    ensures ScanField(t, bs, high, depth) == ScanField(t, bs, low, depth)
  {
    hide Schema, Known, ScanTag, ScanBody, ScanKnown, ReadTag, FieldIndex;
    var k, tag := ScanTag(bs).used, ReadTag(bs).value.0;
    if !Known(t, tag / 8, tag % 8) {
      BodyRaised(tag, bs[k..], Rest(low, k), Rest(high, k), depth);
    }
  }

  /** Bytes that make up a whole message ask for more as soon as they are said to be more. */
  lemma {:induction false} WellFormedRunsOut(t: MessageType, bs: seq<byte>, limit: nat, m: Msg, depth: nat)
    requires MsgOk(t, m) && ParseInto(t, bs, m, depth).Some? && |bs| < limit
    ensures ScanMessage(t, bs, limit, depth) == RanOut
    decreases |bs|
  {
    hide Schema, MsgOk, ScanField, ParseField;
    if bs == [] {
      NothingToScan(t, limit, depth);
    } else {
      FieldTells(t, bs, bs, m, depth);
      var r := ParseField(t, bs, m, depth).value;
      FieldRaised(t, bs, |bs|, limit, depth);
      WellFormedRunsOut(t, bs[r.1..], limit - r.1, r.0, depth);
    }
  }

  lemma NothingToScan(t: MessageType, limit: nat, depth: nat)
    requires 0 < limit
    ensures ScanMessage(t, [], limit, depth) == RanOut
  {
    assert ScanTag([]) == RanOut;
  }

  /** A zero stops every parse. */
  lemma ZeroIsRefused(t: MessageType, bs: seq<byte>, limit: nat, depth: nat)
    requires bs != [] && bs[0] == 0 && 0 < limit
    ensures ScanMessage(t, bs, limit, depth) == Refused
  {
    hide Schema, FieldIndex, ScanKnown, ScanBody;
    assert ScanTag(bs) == Read(1) && ReadTag(bs) == Some((0, 1));
    var i := FieldIndex(Schema(t), 0);
    if i < |Schema(t)| {
      FieldNumbers(t, i);
    }
    assert ScanTagged(t, 0, bs[1..], Rest(limit, 1), depth) == Refused;
  }
}

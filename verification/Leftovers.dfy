/** What a parse that fails may leave in its message: every record before the failing one, and something of
    the failing one. A record may be read past the limit of its message, into the bytes of the message around it,
    and is kept then. Behind the last byte at hand lie unknown ones, so what is cut off there may be anything. */
module Leftovers {
  import opened Powers
  import opened Wire
  import opened Wrappers
  import opened UnknownFields
  import opened Messages
  import opened Codec
  import opened Growth
  import opened CodecLaws
  import opened Lookahead
  import opened Relaying
  import opened Sizes

  const UNREAD := 16

  /** An unknown field is kept as far as it was read. Unfinished groups are closed when they are written, and a
      group that is refused for its depth has been added already. */
  predicate FieldKept(tag: nat, bs: seq<byte>, depth: nat, u: Unknown) {
    InRange(u) && u.number == tag / 8 && WireTypeOf(u) == tag % 8
    && Depth(u) <= depth + 1 && |Body(u)| <= 2 * |bs| + UNREAD
  }

  lemma KeptInRange(tag: nat, bs: seq<byte>, depth: nat, u: Unknown)
    requires FieldKept(tag, bs, depth, u)
    ensures InRange(u) && u.number == tag / 8 && WireTypeOf(u) == tag % 8
  {
  }

  predicate UnusualLeft(t: MessageType, tag: nat, bs: seq<byte>, m: Msg, depth: nat, n: Msg) {
    n == m
    || (tag != 0 && tag % 8 != END_GROUP && n.unknown != [] && FieldKept(tag, bs, depth, n.unknown[|n.unknown| - 1])
        && n == m.(unknown := m.unknown + [n.unknown[|n.unknown| - 1]]))
  }

  /** A sub-message exists as soon as its tag was read. Its length may be too large for the bytes at hand. */
  ghost predicate SubLeft(t: MessageType, bs: seq<byte>, m: Msg, depth: nat, n: Msg)
    requires MsgOk(t, m) && MsgOk(t, n)
    decreases |bs|, 0
  {
    match ReadSize(bs)
    case None => n == m
    case Some(p) => if depth == 0 then n == m else LeftBy(t, bs[p.1..], p.0, m, depth - 1, n)
  }

  ghost predicate KnownLeft(t: MessageType, i: nat, bs: seq<byte>, m: Msg, depth: nat, n: Msg)
    requires MsgOk(t, m) && MsgOk(t, n) && i < |Schema(t)|
    decreases |bs|, 1
  {
    var f, v := Schema(t)[i], n.fields[i];
    && n == WithField(t, m, i, v)
    && if f.kind.KMessage? then v.Sub? && SubLeft(f.kind.of, bs, SubOrDefault(f, m.fields[i]), depth, v.m)
       else f.tracked ==> v.Bits?
  }

  /** After a tag. */
  ghost predicate RecordLeft(t: MessageType, tag: nat, bs: seq<byte>, m: Msg, depth: nat, n: Msg)
    requires MsgOk(t, m) && MsgOk(t, n)
    decreases |bs|, 2
  {
    if Known(t, tag / 8, tag % 8) then KnownLeft(t, FieldIndex(Schema(t), tag / 8), bs, m, depth, n)
    else UnusualLeft(t, tag, bs, m, depth, n)
  }

  /** A tag that is cut off goes on in the bytes behind, and is acted on all the same. */
  ghost predicate FieldLeft(t: MessageType, bs: seq<byte>, m: Msg, depth: nat, n: Msg)
    requires MsgOk(t, m) && MsgOk(t, n)
    decreases |bs|, 3
  {
    match ReadTag(bs)
    case None =>
      || n == m
      || (bs != [] && ScanTag(bs) == RanOut && exists tag: nat :: tag < TWO32 && RecordLeft(t, tag, [], m, depth, n))
    case Some(p) => RecordLeft(t, p.0, bs[p.1..], m, depth, n)
  }

  lemma CutTagLeft(t: MessageType, tag: nat, bs: seq<byte>, m: Msg, depth: nat, n: Msg)
    requires MsgOk(t, m) && MsgOk(t, n) && ReadTag(bs) == None && bs != [] && ScanTag(bs) == RanOut
    requires tag < TWO32 && RecordLeft(t, tag, [], m, depth, n)
    ensures FieldLeft(t, bs, m, depth, n)
  {
    hide Schema, MsgOk, ReadTag, ScanTag, KnownLeft, UnusualLeft, Known;
  }

  /** n may be left by a parse into m that fails, of a message of `limit` bytes, where bs are the bytes at hand. Only
      when a record was read is it compared with the limit; a group looks at the limit between its fields. */
  ghost predicate LeftBy(t: MessageType, bs: seq<byte>, limit: nat, m: Msg, depth: nat, n: Msg)
    requires MsgOk(t, m) && MsgOk(t, n)
    decreases |bs|, 4
  {
    0 < limit
    && match ParseField(t, bs, m, depth)
       case Some(r) =>
         if r.1 <= limit then LeftBy(t, bs[r.1..], limit - r.1, r.0, depth, n)
         else n == r.0 || (ReadTag(bs).value.0 % 8 == START_GROUP && FieldLeft(t, bs, m, depth, n))
       case None => FieldLeft(t, bs, m, depth, n)
  }

  /** A record that is read within the limit is read the same by a parser that sees no further. */
  lemma TurnTaken(t: MessageType, bs: seq<byte>, limit: nat, m: Msg, depth: nat)
    requires MsgOk(t, m) && 0 < limit <= |bs|
    requires ParseField(t, bs, m, depth).Some? && ParseField(t, bs, m, depth).value.1 <= limit
    ensures var r := ParseField(t, bs, m, depth).value;
            ParseInto(t, bs[..limit], m, depth) == ParseInto(t, bs[r.1..limit], r.0, depth)
  {
    hide ParseField;
    var r := ParseField(t, bs, m, depth).value;
    assert bs[..limit][..r.1] == bs[..r.1] && bs[..limit][r.1..] == bs[r.1..limit];
    FieldLocal(t, bs, bs[..limit], m, depth);
  }

  lemma NothingToParse(t: MessageType, bs: seq<byte>, m: Msg, depth: nat)
    requires MsgOk(t, m) && bs == []
    ensures ParseInto(t, bs, m, depth) == Some(m)
  {
  }

  lemma NothingTagged(t: MessageType, tag: nat, m: Msg, depth: nat)
    requires MsgOk(t, m) && tag < TWO32
    ensures ParseTagged(t, tag, [], m, depth) == None
  {
    hide Schema, MsgOk, WithField, WithUnknown, ParseInto;
    assert DecodeVarint([], 5) == None && DecodeVarint([], 10) == None;
  }

  /** Only bytes that do not parse, or are not all there, leave anything. */
  lemma {:induction false} LeftMeansFailed(t: MessageType, bs: seq<byte>, limit: nat, m: Msg, depth: nat, n: Msg)
    requires MsgOk(t, m) && MsgOk(t, n) && LeftBy(t, bs, limit, m, depth, n) && limit <= |bs|
    ensures ParseInto(t, bs[..limit], m, depth) == None
    decreases |bs|
  {
    hide ParseField, FieldLeft;
    if ParseField(t, bs[..limit], m, depth).Some? {
      var r := ParseField(t, bs[..limit], m, depth).value;
      assert bs[..limit][..r.1] == bs[..r.1] && bs[..limit][r.1..] == bs[r.1..][..limit - r.1];
      FieldLocal(t, bs[..limit], bs, m, depth);
      LeftMeansFailed(t, bs[r.1..], limit - r.1, r.0, depth, n);
    }
  }

  /** What was read before the failing part stays read. */
  lemma {:induction false} LeftKeepsWhatWasRead(t: MessageType, x: seq<byte>, y: seq<byte>, limit: nat, m: Msg,
                                                depth: nat, n: Msg)
    requires MsgOk(t, m) && MsgOk(t, n) && ParseInto(t, x, m, depth).Some?
    ensures LeftBy(t, x + y, |x| + limit, m, depth, n)
       <==> LeftBy(t, y, limit, ParseInto(t, x, m, depth).value, depth, n)
    decreases |x|
  {
    hide ParseField, FieldLeft, MsgOk;
    if x == [] {
      assert x + y == y;
    } else {
      assert ParseField(t, x, m, depth).Some?;
      var r := ParseField(t, x, m, depth).value;
      assert (x + y)[..r.1] == x[..r.1] && (x + y)[r.1..] == x[r.1..] + y;
      FieldLocal(t, x, x + y, m, depth);
      LeftKeepsWhatWasRead(t, x[r.1..], y, limit, r.0, depth, n);
    }
  }

  /** The fields of a group that does not end may stay. */
  lemma UnfinishedGroupMayStay(t: MessageType, tag: nat, fs: seq<Unknown>, m: Msg, depth: nat)
    requires MsgOk(t, m) && 8 <= tag < TWO32 && tag % 8 == 3 && DepthOfAll(fs) < depth
    requires forall i :: 0 <= i < |fs| ==> InRange(fs[i])
    ensures !Known(t, tag / 8, tag % 8) && ParseTagged(t, tag, EncodeAll(fs), m, depth) == None
    ensures var n := m.(unknown := m.unknown + [Group(tag / 8, fs)]);
            MsgOk(t, n) && RecordLeft(t, tag, EncodeAll(fs), m, depth, n)
  {
    hide Schema, EncodeAll, DepthOfAll, ParseGroup, FieldIndex, EncodeVarint;
    NoGroupIsKnown(t, tag / 8);
    GroupReads(tag / 8, fs, [], depth - 1);
    assert EncodeAll(fs) + [] == EncodeAll(fs);
    NoGroupInNothing(tag / 8, depth - 1);
    var u := Group(tag / 8, fs);
    VarintAtMostFive(MakeTag(tag / 8, END_GROUP));
    assert FieldKept(tag, EncodeAll(fs), depth, u);
  }

  lemma NoGroupIsKnown(t: MessageType, number: nat)
    ensures !Known(t, number, 3)
  {
    hide Schema, FieldIndex;
  }

  lemma NoGroupInNothing(number: nat, depth: nat)
    ensures ParseGroup(number, [], depth) == None
  {
    assert ReadTag([]) == None;
  }

  /** A scalar whose value is cut off may be left with any. */
  lemma CutScalarMayBeAnything(t: MessageType, i: nat, bs: seq<byte>, m: Msg, depth: nat, b: nat)
    requires MsgOk(t, m) && i < |Schema(t)| && !Schema(t)[i].kind.KMessage? && b < ScalarBound(Schema(t)[i].kind)
    ensures KnownLeft(t, i, bs, m, depth, WithField(t, m, i, ScalarVal(Schema(t)[i], b)))
  {
    hide Schema;
  }

  // Nothing left is deeper than one level more than allowed

  lemma {:induction false} SubLeftDepth(t: MessageType, bs: seq<byte>, m: Msg, depth: nat, n: Msg)
    requires MsgOk(t, m) && MsgOk(t, n) && SubLeft(t, bs, m, depth, n)
    requires MsgDepth(m) <= if depth == 0 then 0 else depth - 1
    ensures MsgDepth(n) <= depth
    decreases |bs|, 0
  {
    hide MsgOk, ReadSize, LeftBy, MsgDepth;
    match ReadSize(bs)
    case None =>
    case Some(p) =>
      if depth != 0 {
        LeftDepth(t, bs[p.1..], p.0, m, depth - 1, n);
      }
  }

  lemma {:induction false} KnownLeftDepth(t: MessageType, i: nat, bs: seq<byte>, m: Msg, depth: nat, n: Msg)
    requires MsgOk(t, m) && MsgOk(t, n) && i < |Schema(t)| && MsgDepth(m) <= depth && KnownLeft(t, i, bs, m, depth, n)
    ensures MsgDepth(n) <= depth + 1
    decreases |bs|, 1
  {
    hide Schema, MsgOk, SubLeft, Default, DepthOfAll, FieldsDepth;
    FieldCount(t, m);
    FieldCount(t, n);
    var f, v := Schema(t)[i], n.fields[i];
    DepthWithField(m.fields, i, v);
    if f.kind.KMessage? {
      DefaultIsFlat(f.kind.of);
      FieldDepth(m.fields, i);
      SubLeftDepth(f.kind.of, bs, SubOrDefault(f, m.fields[i]), depth, v.m);
    }
  }

  lemma {:induction false} RecordLeftDepth(t: MessageType, tag: nat, bs: seq<byte>, m: Msg, depth: nat, n: Msg)
    requires MsgOk(t, m) && MsgOk(t, n) && MsgDepth(m) <= depth && RecordLeft(t, tag, bs, m, depth, n)
    ensures MsgDepth(n) <= depth + 1
    decreases |bs|, 2
  {
    hide Schema, MsgOk, KnownLeft, FieldsDepth, Depth, DepthOfAll, FieldIndex, InRange, Body;
    if Known(t, tag / 8, tag % 8) {
      KnownLeftDepth(t, FieldIndex(Schema(t), tag / 8), bs, m, depth, n);
    } else if n != m {
      DepthWithUnknown(m.unknown, n.unknown[|n.unknown| - 1]);
    }
  }

  lemma {:induction false} FieldLeftDepth(t: MessageType, bs: seq<byte>, m: Msg, depth: nat, n: Msg)
    requires MsgOk(t, m) && MsgOk(t, n) && MsgDepth(m) <= depth && FieldLeft(t, bs, m, depth, n)
    ensures MsgDepth(n) <= depth + 1
    decreases |bs|, 3
  {
    hide MsgOk, ReadTag, ScanTag, RecordLeft, MsgDepth;
    match ReadTag(bs)
    case None =>
      if n != m {
        var tag: nat :| tag < TWO32 && RecordLeft(t, tag, [], m, depth, n);
        RecordLeftDepth(t, tag, [], m, depth, n);
      }
    case Some(p) => RecordLeftDepth(t, p.0, bs[p.1..], m, depth, n);
  }

  lemma {:induction false} LeftDepth(t: MessageType, bs: seq<byte>, limit: nat, m: Msg, depth: nat, n: Msg)
    requires MsgOk(t, m) && MsgOk(t, n) && MsgDepth(m) <= depth && LeftBy(t, bs, limit, m, depth, n)
    ensures MsgDepth(n) <= depth + 1
    decreases |bs|, 4
  {
    hide ParseField, FieldLeft, MsgDepth, MsgOk, ReadTag;
    match ParseField(t, bs, m, depth)
    case Some(r) =>
      ParsedFieldDepth(t, bs, m, depth);
      if r.1 <= limit {
        LeftDepth(t, bs[r.1..], limit - r.1, r.0, depth, n);
      } else if n != r.0 {
        FieldLeftDepth(t, bs, m, depth, n);
      }
    case None => FieldLeftDepth(t, bs, m, depth, n);
  }

  // Nothing left is much longer than twice the bytes it came from

  lemma ShortVarint(v: nat)
    requires v < TWO64
    ensures |EncodeVarint(v)| <= 10
  {
    hide EncodeVarint;
    Limits();
    VarintRoundTrip(v, 10, []);
  }

  lemma UnusualLeftSize(t: MessageType, tag: nat, bs: seq<byte>, m: Msg, depth: nat, n: Msg)
    requires MsgOk(t, m) && MsgOk(t, n) && UnusualLeft(t, tag, bs, m, depth, n)
    ensures |Encode(t, n)| <= |Encode(t, m)| + |EncodeVarint(tag)| + 2 * |bs| + UNREAD
  {
    hide EncodeFrom, EncodeAll, EncodeVarint, InRange, Body, Depth, MsgOk;
    if n != m {
      var u := n.unknown[|n.unknown| - 1];
      LengthWithUnknown(m.unknown, u);
      SameFieldsFrom(t, m, n, 0);
    }
  }

  const CUT_TAG := 4

  /** How much a failing record may add, beyond twice its bytes. */
  function Slack(t: MessageType): nat {
    if Leaf(t) then UNREAD + CUT_TAG else 2 * (UNREAD + CUT_TAG)
  }

  lemma {:induction false} SubLeftSize(t: MessageType, bs: seq<byte>, m: Msg, depth: nat, n: Msg)
    requires MsgOk(t, m) && MsgOk(t, n) && Leaf(t) && |bs| <= MAX_READ && SubLeft(t, bs, m, depth, n)
    ensures |Encode(t, n)| <= |Encode(t, m)| + 2 * |bs| + Slack(t)
    decreases |bs|, 0
  {
    hide MsgOk, ReadSize, LeftBy, Encode;
    match ReadSize(bs)
    case None =>
    case Some(p) =>
      if depth != 0 {
        LeftSize(t, bs[p.1..], p.0, m, depth - 1, n);
      }
  }

  lemma {:induction false} KnownLeftSize(t: MessageType, i: nat, bs: seq<byte>, m: Msg, depth: nat, n: Msg)
    requires MsgOk(t, m) && MsgOk(t, n) && i < |Schema(t)| && |bs| <= MAX_READ && KnownLeft(t, i, bs, m, depth, n)
    ensures |Encode(t, n)| <= |Encode(t, m)| + 2 * |bs| + Slack(t)
    decreases |bs|, 1
  {
    hide Schema, MsgOk, EncodeVal, EncodeFrom, EncodeVarint, SubLeft, Leaf;
    FieldCount(t, m);
    FieldCount(t, n);
    var f, v := Schema(t)[i], n.fields[i];
    LengthWithField(t, m, i, v, 0);
    if f.kind.KMessage? {
      SubsAreLeaves(t, i);
      var sub := SubOrDefault(f, m.fields[i]);
      SubLeftSize(f.kind.of, bs, sub, depth, v.m);
      SubGrowth(t, i, m.fields[i], v.m, 2 * |bs| + UNREAD + CUT_TAG);
      ShortVarint(2 * |bs| + UNREAD + CUT_TAG);
    } else {
      SizeOfField(t, i, v);
      if v.Bits? {
        VarintAtMostFive(v.v);
      }
    }
  }

  lemma {:induction false} RecordLeftSize(t: MessageType, tag: nat, bs: seq<byte>, m: Msg, depth: nat, n: Msg)
    requires MsgOk(t, m) && MsgOk(t, n) && |bs| <= MAX_READ && RecordLeft(t, tag, bs, m, depth, n)
    ensures |Encode(t, n)| <= |Encode(t, m)| + 2 * |bs| + Larger(Slack(t), UNREAD + |EncodeVarint(tag)|)
    decreases |bs|, 2
  {
    hide Schema, MsgOk, Encode, EncodeVarint, KnownLeft, UnusualLeft, Leaf, FieldIndex;
    if Known(t, tag / 8, tag % 8) {
      KnownLeftSize(t, FieldIndex(Schema(t), tag / 8), bs, m, depth, n);
    } else {
      UnusualLeftSize(t, tag, bs, m, depth, n);
    }
  }

  lemma {:induction false} FieldLeftSize(t: MessageType, bs: seq<byte>, m: Msg, depth: nat, n: Msg)
    requires MsgOk(t, m) && MsgOk(t, n) && |bs| <= MAX_READ && FieldLeft(t, bs, m, depth, n)
    ensures |Encode(t, n)| <= |Encode(t, m)| + 2 * |bs| + Slack(t)
    decreases |bs|, 3
  {
    hide MsgOk, Encode, EncodeVarint, ReadTag, ScanTag, RecordLeft, Leaf;
    ReadsShortest(bs);
    match ReadTag(bs)
    case None =>
      if n != m {
        var tag: nat :| tag < TWO32 && RecordLeft(t, tag, [], m, depth, n);
        RecordLeftSize(t, tag, [], m, depth, n);
        VarintAtMostFive(tag);
      }
    case Some(p) => RecordLeftSize(t, p.0, bs[p.1..], m, depth, n);
  }

  lemma {:induction false} LeftSize(t: MessageType, bs: seq<byte>, limit: nat, m: Msg, depth: nat, n: Msg)
    requires MsgOk(t, m) && MsgOk(t, n) && |bs| <= MAX_READ && LeftBy(t, bs, limit, m, depth, n)
    ensures |Encode(t, n)| <= |Encode(t, m)| + 2 * |bs| + Slack(t)
    decreases |bs|, 4
  {
    hide ParseField, FieldLeft, Encode, MsgOk, Slack, ReadTag;
    match ParseField(t, bs, m, depth)
    case Some(r) =>
      FieldGrowth(t, bs, m, depth);
      if r.1 <= limit {
        LeftSize(t, bs[r.1..], limit - r.1, r.0, depth, n);
      } else if n != r.0 {
        FieldLeftSize(t, bs, m, depth, n);
      }
    case None => FieldLeftSize(t, bs, m, depth, n);
  }
}

/** A parser with too few levels left refuses a message, so the depth of a message is exactly what it takes. */
module DepthLimit {
  import opened Wire
  import opened Wrappers
  import opened UnknownFields
  import opened Messages
  import opened Codec
  import opened CodecLaws
  import opened Growth
  import opened Relaying

  lemma {:induction false} BodyTooDeep(u: Unknown, rest: seq<byte>, depth: nat)
    requires InRange(u) && depth < Depth(u)
    ensures ParseBody(MakeTag(u.number, WireTypeOf(u)), Body(u) + rest, depth) == None
    decreases u, 0
  {
    hide MakeTag, EncodeVarint, ReadVarint64, ReadSize, EncodeFixed, DecodeFixed, ParseGroup, EncodeAll;
    TagParts(u.number, WireTypeOf(u));
    if depth != 0 {
      GroupTooDeep(u.number, u.fields, rest, depth - 1);
      assert Body(u) + rest == EncodeAll(u.fields) + (EncodeVarint(MakeTag(u.number, END_GROUP)) + rest);
    }
  }

  lemma {:induction false} GroupTooDeep(n: nat, fs: seq<Unknown>, rest: seq<byte>, depth: nat)
    requires 0 < n <= MAX_FIELD && depth < DepthOfAll(fs) && forall i :: 0 <= i < |fs| ==> InRange(fs[i])
    ensures ParseGroup(n, EncodeAll(fs) + (EncodeVarint(MakeTag(n, END_GROUP)) + rest), depth) == None
    decreases fs, 0
  {
    hide MakeTag, EncodeVarint, ReadTag, ParseBody, Body, WireTypeOf, InRange;
    var u, tail := fs[0], EncodeAll(fs[1..]) + (EncodeVarint(MakeTag(n, END_GROUP)) + rest);
    var t := EncodeVarint(MakeTag(u.number, WireTypeOf(u)));
    Positive(u);
    TagBack(u.number, WireTypeOf(u), Body(u) + tail);
    Peel(EncodeAll(fs) + (EncodeVarint(MakeTag(n, END_GROUP)) + rest), t, Body(u), tail);
    if depth < Depth(u) {
      BodyTooDeep(u, tail, depth);
    } else {
      BodyBack(u, tail, depth);
      GroupTooDeep(n, fs[1..], rest, depth);
    }
  }

  /** A record that does not parse ends the loop. */
  lemma IntoStop(t: MessageType, bs: seq<byte>, m: Msg, depth: nat)
    requires MsgOk(t, m) && bs != [] && ParseField(t, bs, m, depth) == None
    ensures ParseInto(t, bs, m, depth) == None
  {
    hide ParseField;
  }

  lemma {:induction false} FieldTooDeep(t: MessageType, m: Msg, i: nat, v: Val, rest: seq<byte>, depth: nat)
    requires MsgOk(t, m) && i < |Schema(t)| && ValOk(Schema(t)[i], v)
    requires |EncodeVal(Schema(t)[i], v)| <= MAX_READ && depth < ValDepth(v)
    ensures ParseField(t, EncodeVal(Schema(t)[i], v) + rest, m, depth) == None
    decreases v, 0, 0
  {
    hide EncodeVarint, ReadTag, MakeTag, Schema, ParseField, MsgOk, ParseScalar, ParseInto, ReadSize, Encode;
    FieldCount(t, m);
    var f, s := Schema(t)[i], v.m;
    var x := Encode(f.kind.of, s);
    var size := EncodeVarint(|x|);
    var tag := EncodeVarint(MakeTag(f.number, WireTypeFor(f.kind)));
    assert EncodeVal(f, v) == tag + (size + x);
    ReadBack(|x|, x + rest);
    assert (size + x) + rest == size + (x + rest);
    assert (size + (x + rest))[|size|..|size| + |x|] == x;
    if depth != 0 {
      EncodeTooDeep(f.kind.of, s, SubOrDefault(f, m.fields[i]), [], depth - 1);
      assert x + [] == x;
    }
    KnownBack(t, m, i, size + x, rest, depth);
  }

  lemma {:induction false} FieldsTooDeep(t: MessageType, a: Msg, m: Msg, i: nat, j: nat, rest: seq<byte>, depth: nat)
    requires MsgOk(t, m) && MsgOk(t, a) && i <= j < |Schema(t)| && depth < ValDepth(a.fields[j])
    requires |EncodeFrom(t, a, i)| <= MAX_READ
    ensures ParseInto(t, EncodeFrom(t, a, i) + rest, m, depth) == None
    decreases a, 1, |Schema(t)| - i
  {
    hide MsgOk, Schema, ParseInto, ParseField, EncodeVal, MergeVal, WithField, ValOk, EncodeVarint;
    FieldCount(t, a);
    FieldCount(t, m);
    var v := a.fields[i];
    var x, tail := EncodeVal(Schema(t)[i], v), EncodeFrom(t, a, i + 1) + rest;
    assert EncodeFrom(t, a, i) + rest == x + tail;
    if depth < ValDepth(v) {
      FieldTooDeep(t, m, i, v, tail, depth);
      SomeBytes(Schema(t)[i], v);
      IntoStop(t, x + tail, m, depth);
    } else if v == Unset {
      UnsetField(t, m, a, i);
      assert x + tail == tail;
      FieldsTooDeep(t, a, m, i + 1, j, rest, depth);
    } else {
      FieldBack(t, m, i, v, tail, depth);
      SomeBytes(Schema(t)[i], v);
      IntoStep(t, x, tail, m, depth);
      FieldsTooDeep(t, a, WithField(t, m, i, MergeVal(Schema(t)[i], m.fields[i], v)), i + 1, j, rest, depth);
    }
  }

  lemma {:induction false} UnknownsTooDeep(t: MessageType, us: seq<Unknown>, m: Msg, rest: seq<byte>, depth: nat)
    requires MsgOk(t, m) && MsgOk(t, m.(unknown := m.unknown + us)) && depth < DepthOfAll(us)
    ensures ParseInto(t, EncodeAll(us) + rest, m, depth) == None
    decreases us
  {
    hide ParseInto, ParseField, EncodeVarint, Body, MakeTag, Schema, ParseBody;
    var u, tail := us[0], EncodeAll(us[1..]) + rest;
    assert u == (m.unknown + us)[|m.unknown|];
    var x := EncodeVarint(MakeTag(u.number, WireTypeOf(u))) + Body(u);
    assert EncodeAll(us) + rest == x + tail;
    if depth < Depth(u) {
      UnusualTooDeep(t, m, u, tail, depth);
      IntoStop(t, x + tail, m, depth);
    } else {
      UnusualBack(t, m, u, tail, depth);
      IntoStep(t, x, tail, m, depth);
      assert m.unknown + us == m.unknown + [u] + us[1..];
      UnknownsTooDeep(t, us[1..], WithUnknown(t, m, u), rest, depth);
    }
  }

  lemma UnusualTooDeep(t: MessageType, m: Msg, u: Unknown, rest: seq<byte>, depth: nat)
    requires MsgOk(t, m) && InRange(u) && !Known(t, u.number, WireTypeOf(u)) && depth < Depth(u)
    ensures ParseField(t, EncodeVarint(MakeTag(u.number, WireTypeOf(u))) + Body(u) + rest, m, depth) == None
  {
    hide EncodeVarint, ReadTag, ParseKnown, MsgOk, Schema, ParseBody, Body, Depth, Known;
    var tag := EncodeVarint(MakeTag(u.number, WireTypeOf(u)));
    Positive(u);
    TagBack(u.number, WireTypeOf(u), Body(u) + rest);
    BodyTooDeep(u, rest, depth);
    Peel(tag + Body(u) + rest, tag, Body(u), rest);
  }

  lemma {:induction false} DeepestField(vs: seq<Val>) returns (j: nat)
    requires 0 < FieldsDepth(vs)
    ensures j < |vs| && ValDepth(vs[j]) == FieldsDepth(vs)
  {
    if ValDepth(vs[0]) == FieldsDepth(vs) {
      j := 0;
    } else {
      var k := DeepestField(vs[1..]);
      j := k + 1;
    }
  }

  lemma {:induction false} EncodeTooDeep(t: MessageType, a: Msg, m: Msg, rest: seq<byte>, depth: nat)
    requires MsgOk(t, m) && MsgOk(t, a) && |Encode(t, a)| <= MAX_READ && depth < MsgDepth(a)
    ensures ParseInto(t, Encode(t, a) + rest, m, depth) == None
    decreases a, 2, 0
  {
    hide MsgOk, ParseInto, EncodeFrom, EncodeAll, FieldsDepth, DepthOfAll, ValDepth, Schema, MergedUpTo, Merge;
    FieldCount(t, a);
    var tail := EncodeAll(a.unknown) + rest;
    assert Encode(t, a) + rest == EncodeFrom(t, a, 0) + tail;
    MergeEnds(t, m, a);
    if depth < FieldsDepth(a.fields) {
      var j := DeepestField(a.fields);
      FieldsTooDeep(t, a, m, 0, j, tail, depth);
    } else {
      FieldsBack(t, a, m, 0, tail, depth);
      UnknownsTooDeep(t, a.unknown, MergedUpTo(t, m, a, |Schema(t)|), rest, depth);
    }
  }

  /** The round trip works exactly when the parser may go down as many levels as the message has. */
  lemma RoundTripExactly(t: MessageType, a: Msg, depth: nat)
    requires MsgOk(t, a) && |Encode(t, a)| <= MAX_READ
    ensures MsgOk(t, Default(t))
    ensures ParseInto(t, Encode(t, a), Default(t), depth) == if MsgDepth(a) <= depth then Some(a) else None
  {
    hide MsgOk, ParseInto, Encode, MsgDepth;
    DefaultOk(t);
    if MsgDepth(a) <= depth {
      RoundTrip(t, a, depth);
    } else {
      EncodeTooDeep(t, a, Default(t), [], depth);
      assert Encode(t, a) + [] == Encode(t, a);
    }
  }

  /** k groups, one in the other. */
  function Nest(k: nat): Unknown
    requires 0 < k
  {
    Group(1, if k == 1 then [] else [Nest(k - 1)])
  }

  lemma ShortTags()
    ensures |EncodeVarint(MakeTag(1, START_GROUP))| == 1 && |EncodeVarint(MakeTag(1, END_GROUP))| == 1
  {
  }

  lemma OneOf(u: Unknown)
    ensures DepthOfAll([u]) == Depth(u) && EncodeAll([u]) == EncodeVarint(MakeTag(u.number, WireTypeOf(u))) + Body(u)
  {
    hide EncodeVarint, MakeTag, Body, Depth;
    assert [u][1..] == [];
  }

  lemma {:induction false} NestIsDeep(k: nat)
    requires 0 < k
    ensures InRange(Nest(k)) && Depth(Nest(k)) == k && |Body(Nest(k))| == 2 * k - 1
  {
    hide MakeTag, EncodeVarint;
    ShortTags();
    if 1 < k {
      NestIsDeep(k - 1);
      OneOf(Nest(k - 1));
    }
  }

  lemma OneUnknown(t: MessageType, u: Unknown)
    requires InRange(u) && !Known(t, u.number, WireTypeOf(u))
    ensures var m := Default(t).(unknown := [u]);
            && MsgOk(t, Default(t)) && MsgOk(t, m) && MsgDepth(m) == Depth(u)
            && |Encode(t, m)| == |EncodeVarint(MakeTag(u.number, WireTypeOf(u)))| + |Body(u)|
  {
    hide Schema, EncodeVarint, InRange, EncodeFrom, FieldsDepth, EncodeAll;
    var m := Default(t).(unknown := [u]);
    DefaultOk(t);
    DefaultIsFlat(t);
    EmptyDefault(t);
    SameFieldsFrom(t, Default(t), m, 0);
    OneOf(u);
  }

  /** An unknown field of 101 groups, 202 bytes in all: written without complaint, and refused by any reader. */
  lemma TooDeepToRead()
    ensures var m := Default(PClientId).(unknown := [Nest(101)]);
            && MsgOk(PClientId, Default(PClientId)) && MsgOk(PClientId, m) && |Encode(PClientId, m)| == 202
            && ParseInto(PClientId, Encode(PClientId, m), Default(PClientId), 100) == None
  {
    hide ParseInto, Body, Encode, MsgOk, Depth, InRange, MsgDepth;
    ShortTags();
    NestIsDeep(101);
    OneUnknown(PClientId, Nest(101));
    RoundTripExactly(PClientId, Default(PClientId).(unknown := [Nest(101)]), 100);
  }
}

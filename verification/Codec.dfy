/** What encoding, parsing and merging have to do with each other. */
module Codec {
  import opened Powers
  import opened Wire
  import opened Wrappers
  import opened UnknownFields
  import opened Messages

  function ValDepth(v: Val): nat
    decreases v, 0
  {
    match v
    case Sub(m) => 1 + MsgDepth(m)
    case _ => 0
  }

  function FieldsDepth(vs: seq<Val>): nat
    decreases vs, 0
  {
    if vs == [] then 0 else Larger(ValDepth(vs[0]), FieldsDepth(vs[1..]))
  }

  /** How many levels a parser must be able to go down. */
  function MsgDepth(m: Msg): nat
    decreases m, 0
  {
    Larger(FieldsDepth(m.fields), DepthOfAll(m.unknown))
  }

  lemma FieldDepth(vs: seq<Val>, i: nat)
    requires i < |vs|
    ensures ValDepth(vs[i]) <= FieldsDepth(vs)
  {
    if 0 < i {
      FieldDepth(vs[1..], i - 1);
    }
  }

  /** The parse loop after one record x that parses. */
  lemma IntoStep(t: MessageType, x: seq<byte>, rest: seq<byte>, m: Msg, depth: nat)
    requires MsgOk(t, m) && x != []
    requires var r := ParseField(t, x + rest, m, depth); r.Some? && r.value.1 == |x|
    ensures ParseInto(t, x + rest, m, depth) == ParseInto(t, rest, ParseField(t, x + rest, m, depth).value.0, depth)
  {
    hide ParseField;
    assert (x + rest)[|x|..] == rest;
  }

  lemma ScalarBack(k: Kind, b: nat, rest: seq<byte>)
    requires !k.KMessage? && b < if k.KBool? then 2 else TWO32
    ensures var x := if k.KFloat? then EncodeFixed(b, 4) else EncodeVarint(b);
            ParseScalar(k, x + rest) == Some((b, |x|))
  {
    hide EncodeVarint, EncodeFixed, DecodeFixed, ReadVarint32, ReadVarint64;
    ReadBack(b, rest);
    Widths();
    FixedRoundTrip(b, 4);
    assert (EncodeFixed(b, 4) + rest)[..4] == EncodeFixed(b, 4);
  }

  /** A record of known field i reaches ParseKnown. */
  lemma KnownBack(t: MessageType, m: Msg, i: nat, body: seq<byte>, rest: seq<byte>, depth: nat)
    requires MsgOk(t, m) && i < |Schema(t)|
    ensures var f := Schema(t)[i];
            var tag := EncodeVarint(MakeTag(f.number, WireTypeFor(f.kind)));
            var r := ParseKnown(t, i, body + rest, m, depth);
            ParseField(t, tag + body + rest, m, depth)
            == if r.Some? then Some((r.value.0, |tag| + r.value.1)) else None
  {
    hide EncodeVarint, ReadTag, ParseKnown, ParseUnusual, MsgOk, MakeTag, Schema;
    var f := Schema(t)[i];
    FieldNumbers(t, i);
    var tag := EncodeVarint(MakeTag(f.number, WireTypeFor(f.kind)));
    TagBack(f.number, WireTypeFor(f.kind), body + rest);
    assert tag + body + rest == tag + (body + rest);
    assert (tag + (body + rest))[|tag|..] == body + rest;
  }

  /** A merge in progress: the first i fields of a have gone into m. */
  function MergedUpTo(t: MessageType, m: Msg, a: Msg, i: nat): (r: Msg)
    requires MsgOk(t, m) && MsgOk(t, a) && i <= |Schema(t)|
    ensures MsgOk(t, r)
  {
    Msg(seq(|a.fields|, j requires 0 <= j < |a.fields| =>
          if j < i then MergeVal(Schema(t)[j], m.fields[j], a.fields[j]) else m.fields[j]),
        m.unknown)
  }

  lemma MergedNext(t: MessageType, m: Msg, a: Msg, i: nat)
    requires MsgOk(t, m) && MsgOk(t, a) && i < |Schema(t)|
    ensures var v := MergeVal(Schema(t)[i], m.fields[i], a.fields[i]);
            MergedUpTo(t, m, a, i + 1) == WithField(t, MergedUpTo(t, m, a, i), i, v)
  {
    var v := MergeVal(Schema(t)[i], m.fields[i], a.fields[i]);
    assert MergedUpTo(t, m, a, i + 1).fields == MergedUpTo(t, m, a, i).fields[i := v];
  }

  /** Reading back the encoding of one field merges that field. */
  lemma {:induction false} FieldBack(t: MessageType, m: Msg, i: nat, v: Val, rest: seq<byte>, depth: nat)
    requires MsgOk(t, m) && i < |Schema(t)| && ValOk(Schema(t)[i], v) && v != Unset
    requires |EncodeVal(Schema(t)[i], v)| <= MAX_READ && ValDepth(v) <= depth
    ensures var x := EncodeVal(Schema(t)[i], v);
            ParseField(t, x + rest, m, depth)
            == Some((WithField(t, m, i, MergeVal(Schema(t)[i], m.fields[i], v)), |x|))
    decreases v, 0, 0
  {
    hide EncodeVarint, ReadTag, MakeTag, Schema, ParseField, MsgOk, ParseScalar, ParseSub, EncodeFixed;
    FieldCount(t, m);
    var f := Schema(t)[i];
    match v
    case Bits(b) =>
      ScalarBack(f.kind, b, rest);
      KnownBack(t, m, i, if f.kind.KFloat? then EncodeFixed(b, 4) else EncodeVarint(b), rest, depth);
    case Sub(s) =>
      var body := EncodeVarint(|Encode(f.kind.of, s)|) + Encode(f.kind.of, s);
      SubBack(f.kind.of, SubOrDefault(f, m.fields[i]), s, rest, depth);
      KnownBack(t, m, i, body, rest, depth);
      var tag := EncodeVarint(MakeTag(f.number, WireTypeFor(f.kind)));
      assert EncodeVal(f, v) == tag + body;
  }

  lemma {:induction false} SubBack(t: MessageType, m: Msg, s: Msg, rest: seq<byte>, depth: nat)
    requires MsgOk(t, m) && MsgOk(t, s) && |Encode(t, s)| <= MAX_READ && MsgDepth(s) + 1 <= depth
    ensures var body := EncodeVarint(|Encode(t, s)|) + Encode(t, s);
            ParseSub(t, body + rest, m, depth) == Some((Merge(t, m, s), |body|))
    decreases s, 3, 0
  {
    hide EncodeVarint, ReadSize, Encode, MsgOk, ParseInto, Merge;
    var x := Encode(t, s);
    var size := EncodeVarint(|x|);
    ReadBack(|x|, x + rest);
    assert size + x + rest == size + (x + rest);
    assert (size + x + rest)[|size|..|size| + |x|] == x;
    EncodeBack(t, s, m, [], depth - 1);
    assert x + [] == x;
    NothingLeft(t, Merge(t, m, s), depth - 1);
  }

  lemma NothingLeft(t: MessageType, m: Msg, depth: nat)
    requires MsgOk(t, m)
    ensures ParseInto(t, [], m, depth) == Some(m)
  {
  }

  lemma {:induction false} FieldsBack(t: MessageType, a: Msg, m: Msg, i: nat, rest: seq<byte>, depth: nat)
    requires MsgOk(t, m) && MsgOk(t, a) && i <= |Schema(t)|
    requires |EncodeFrom(t, a, i)| <= MAX_READ && FieldsDepth(a.fields) <= depth
    ensures ParseInto(t, EncodeFrom(t, a, i) + rest, MergedUpTo(t, m, a, i), depth)
         == ParseInto(t, rest, MergedUpTo(t, m, a, |Schema(t)|), depth)
    decreases a, 1, |Schema(t)| - i
  {
    hide MsgOk, Schema, ParseInto, ParseField, EncodeVal, MergedUpTo, MergeVal, WithField, ValOk;
    FieldCount(t, a);
    if i == |Schema(t)| {
      assert EncodeFrom(t, a, i) + rest == rest;
    } else {
      var x, tail := EncodeVal(Schema(t)[i], a.fields[i]), EncodeFrom(t, a, i + 1) + rest;
      assert EncodeFrom(t, a, i) + rest == x + tail;
      MergedNext(t, m, a, i);
      MergedAt(t, m, a, i);
      FieldsBack(t, a, m, i + 1, rest, depth);
      if a.fields[i] == Unset {
        UnsetField(t, m, a, i);
        assert x + tail == tail;
      } else {
        FieldDepth(a.fields, i);
        FieldBack(t, MergedUpTo(t, m, a, i), i, a.fields[i], tail, depth);
        SomeBytes(Schema(t)[i], a.fields[i]);
        IntoStep(t, x, tail, MergedUpTo(t, m, a, i), depth);
      }
    }
  }

  lemma FieldCount(t: MessageType, a: Msg)
    requires MsgOk(t, a)
    ensures |a.fields| == |Schema(t)| && forall i :: 0 <= i < |a.fields| ==> ValOk(Schema(t)[i], a.fields[i])
  {
  }

  lemma MergedAt(t: MessageType, m: Msg, a: Msg, i: nat)
    requires MsgOk(t, m) && MsgOk(t, a) && i < |Schema(t)|
    ensures MergedUpTo(t, m, a, i).fields[i] == m.fields[i]
  {
  }

  lemma UnsetField(t: MessageType, m: Msg, a: Msg, i: nat)
    requires MsgOk(t, m) && MsgOk(t, a) && i < |Schema(t)| && a.fields[i] == Unset
    ensures MergedUpTo(t, m, a, i + 1) == MergedUpTo(t, m, a, i)
    ensures EncodeVal(Schema(t)[i], a.fields[i]) == []
  {
    assert MergedUpTo(t, m, a, i + 1).fields == MergedUpTo(t, m, a, i).fields;
  }

  lemma SomeBytes(f: Field, v: Val)
    requires ValOk(f, v) && v != Unset
    ensures EncodeVal(f, v) != []
  {
  }

  lemma {:induction false} UnknownsBack(t: MessageType, us: seq<Unknown>, m: Msg, rest: seq<byte>, depth: nat)
    requires MsgOk(t, m) && MsgOk(t, m.(unknown := m.unknown + us)) && DepthOfAll(us) <= depth
    ensures ParseInto(t, EncodeAll(us) + rest, m, depth)
         == ParseInto(t, rest, m.(unknown := m.unknown + us), depth)
    decreases us
  {
    hide ParseInto, ParseField, EncodeVarint, Body, MakeTag, Schema, ParseBody;
    if us == [] {
      assert EncodeAll(us) + rest == rest;
      assert m.unknown + us == m.unknown;
    } else {
      var u, tail := us[0], EncodeAll(us[1..]) + rest;
      assert u == (m.unknown + us)[|m.unknown|];
      var tag := EncodeVarint(MakeTag(u.number, WireTypeOf(u)));
      var x := tag + Body(u);
      assert EncodeAll(us) + rest == x + tail;
      UnusualBack(t, m, u, tail, depth);
      IntoStep(t, x, tail, m, depth);
      assert m.unknown + us == m.unknown + [u] + us[1..];
      UnknownsBack(t, us[1..], WithUnknown(t, m, u), rest, depth);
    }
  }

  lemma UnusualBack(t: MessageType, m: Msg, u: Unknown, rest: seq<byte>, depth: nat)
    requires MsgOk(t, m) && InRange(u) && !Known(t, u.number, WireTypeOf(u)) && Depth(u) <= depth
    ensures var x := EncodeVarint(MakeTag(u.number, WireTypeOf(u))) + Body(u);
            ParseField(t, x + rest, m, depth) == Some((WithUnknown(t, m, u), |x|))
  {
    hide EncodeVarint, ReadTag, ParseKnown, MsgOk, Schema, ParseBody, Body, Depth, Known;
    var tag := EncodeVarint(MakeTag(u.number, WireTypeOf(u)));
    Positive(u);
    TagBack(u.number, WireTypeOf(u), Body(u) + rest);
    BodyBack(u, rest, depth);
    Peel(tag + Body(u) + rest, tag, Body(u), rest);
  }

  /** Parsing the encoding of a into m merges a into m, and goes on with what follows. */
  lemma {:induction false} EncodeBack(t: MessageType, a: Msg, m: Msg, rest: seq<byte>, depth: nat)
    requires MsgOk(t, m) && MsgOk(t, a) && |Encode(t, a)| <= MAX_READ && MsgDepth(a) <= depth
    ensures ParseInto(t, Encode(t, a) + rest, m, depth) == ParseInto(t, rest, Merge(t, m, a), depth)
    decreases a, 2, 0
  {
    hide MsgOk, ParseInto, EncodeFrom, EncodeAll, FieldsDepth, DepthOfAll;
    MergeEnds(t, m, a);
    var tail := EncodeAll(a.unknown) + rest;
    assert Encode(t, a) + rest == EncodeFrom(t, a, 0) + tail;
    FieldsBack(t, a, m, 0, tail, depth);
    UnknownsBack(t, a.unknown, MergedUpTo(t, m, a, |Schema(t)|), rest, depth);
  }

  lemma MergeEnds(t: MessageType, m: Msg, a: Msg)
    requires MsgOk(t, m) && MsgOk(t, a)
    ensures MergedUpTo(t, m, a, 0) == m
    ensures var r := MergedUpTo(t, m, a, |Schema(t)|);
            r.(unknown := r.unknown + a.unknown) == Merge(t, m, a)
  {
    assert MergedUpTo(t, m, a, 0).fields == m.fields;
    assert MergedUpTo(t, m, a, |Schema(t)|).fields == Merge(t, m, a).fields;
  }
}

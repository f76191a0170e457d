/** Reading a message and writing it again, as the server does with what it relays. */
module Relaying {
  import opened Wire
  import opened Wrappers
  import opened UnknownFields
  import opened Messages
  import opened Codec
  import opened CodecLaws
  import opened Growth

  lemma {:induction false} UnsetsAreFlat(n: nat)
    ensures FieldsDepth(Unsets(n)) == 0
  {
    if n != 0 {
      assert Unsets(n)[1..] == Unsets(n - 1);
      UnsetsAreFlat(n - 1);
    }
  }

  lemma DefaultIsFlat(t: MessageType)
    ensures MsgDepth(Default(t)) == 0
  {
    UnsetsAreFlat(|Schema(t)|);
  }

  lemma {:induction false} DepthWithField(vs: seq<Val>, i: nat, v: Val)
    requires i < |vs|
    ensures FieldsDepth(vs[i := v]) <= Larger(FieldsDepth(vs), ValDepth(v))
  {
    if 0 < i {
      assert vs[i := v][1..] == vs[1..][i - 1 := v];
      DepthWithField(vs[1..], i - 1, v);
    } else {
      assert vs[i := v][1..] == vs[1..];
    }
  }

  lemma {:induction false} DepthWithUnknown(us: seq<Unknown>, u: Unknown)
    ensures DepthOfAll(us + [u]) == Larger(DepthOfAll(us), Depth(u))
  {
    if us == [] {
      assert us + [u] == [u];
    } else {
      assert (us + [u])[1..] == us[1..] + [u];
      DepthWithUnknown(us[1..], u);
    }
  }

  lemma {:induction false} ParsedKnownDepth(t: MessageType, i: nat, bs: seq<byte>, m: Msg, depth: nat)
    requires MsgOk(t, m) && i < |Schema(t)| && MsgDepth(m) <= depth && ParseKnown(t, i, bs, m, depth).Some?
    ensures MsgDepth(ParseKnown(t, i, bs, m, depth).value.0) <= depth
    decreases |bs|, 1
  {
    hide Schema, MsgOk, ReadSize, ParseInto, ParseScalar, Default, DepthOfAll, FieldsDepth;
    FieldCount(t, m);
    var f := Schema(t)[i];
    if f.kind.KMessage? {
      var sub, p := SubOrDefault(f, m.fields[i]), ReadSize(bs).value;
      DefaultIsFlat(f.kind.of);
      FieldDepth(m.fields, i);
      ParsedDepth(f.kind.of, bs[p.1..p.1 + p.0], sub, depth - 1);
      var r := ParseSub(f.kind.of, bs, sub, depth).value;
      DepthWithField(m.fields, i, Sub(r.0));
    } else {
      var r := ParseScalar(f.kind, bs).value;
      DepthWithField(m.fields, i, ScalarVal(f, r.0));
    }
  }

  lemma {:induction false} ParsedFieldDepth(t: MessageType, bs: seq<byte>, m: Msg, depth: nat)
    requires MsgOk(t, m) && MsgDepth(m) <= depth && ParseField(t, bs, m, depth).Some?
    ensures MsgDepth(ParseField(t, bs, m, depth).value.0) <= depth
    decreases |bs|, 1
  {
    hide Schema, MsgOk, ReadTag, ParseKnown, ParseBody, FieldsDepth, Depth, DepthOfAll, FieldIndex;
    var p := ReadTag(bs).value;
    var rest := bs[p.1..];
    if Known(t, p.0 / 8, p.0 % 8) {
      ParsedKnownDepth(t, FieldIndex(Schema(t), p.0 / 8), rest, m, depth);
    } else {
      ParsedBodyInRange(p.0, rest, depth);
      DepthWithUnknown(m.unknown, ParseBody(p.0, rest, depth).value.0);
    }
  }

  /** A parser that may go down `depth` levels builds nothing deeper. */
  lemma {:induction false} ParsedDepth(t: MessageType, bs: seq<byte>, m: Msg, depth: nat)
    requires MsgOk(t, m) && MsgDepth(m) <= depth && ParseInto(t, bs, m, depth).Some?
    ensures MsgDepth(ParseInto(t, bs, m, depth).value) <= depth
    decreases |bs|, 2
  {
    hide ParseField, MsgDepth;
    if bs != [] {
      assert ParseField(t, bs, m, depth).Some? by {
        assert ParseInto(t, bs, m, depth) != None;
      }
      var r := ParseField(t, bs, m, depth).value;
      ParsedFieldDepth(t, bs, m, depth);
      ParsedDepth(t, bs[r.1..], r.0, depth);
    }
  }

  /** Whatever bytes a message came from, it is written back in no more bytes, and known and unknown
      fields alike survive being written and read again. */
  lemma RelayKeepsTheMessage(t: MessageType, bs: seq<byte>, depth: nat)
    requires MsgOk(t, Default(t)) && |bs| <= MAX_READ && ParseInto(t, bs, Default(t), depth).Some?
    ensures var m := ParseInto(t, bs, Default(t), depth).value;
            |Encode(t, m)| <= |bs| && ParseInto(t, Encode(t, m), Default(t), depth) == Some(m)
  {
    hide MsgOk, ParseInto, Encode, MsgDepth;
    DefaultIsFlat(t);
    ParsedDepth(t, bs, Default(t), depth);
    EmptyDefault(t);
    IntoGrowth(t, bs, Default(t), depth);
    RoundTrip(t, ParseInto(t, bs, Default(t), depth).value, depth);
  }
}

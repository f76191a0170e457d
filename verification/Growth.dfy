/** What is read is never written back longer: every encoding is the shortest form of the bytes it came from. */
module Growth {
  import opened Wire
  import opened Wrappers
  import opened UnknownFields
  import opened Messages
  import opened Codec
  import opened Sizes

  lemma {:induction false} VarintFits(v: nat)
    ensures v < Pow128(|EncodeVarint(v)|)
  {
    if 128 <= v {
      VarintFits(v / 128);
    }
  }

  lemma {:induction false} VarintShortest(bs: seq<byte>, limit: nat)
    requires DecodeVarint(bs, limit).Some?
    ensures var p := DecodeVarint(bs, limit).value; |EncodeVarint(p.0)| <= p.1
  {
    if 128 <= bs[0] {
      VarintShortest(bs[1..], limit - 1);
      var v := DecodeVarint(bs, limit).value.0;
      assert 128 <= v ==> v / 128 == DecodeVarint(bs[1..], limit - 1).value.0;
    }
  }

  lemma {:induction false} VarintMonotone(a: nat, b: nat)
    requires a <= b
    ensures |EncodeVarint(a)| <= |EncodeVarint(b)|
  {
    if 128 <= a {
      VarintMonotone(a / 128, b / 128);
    }
  }

  lemma {:induction false} Pow128Sum(m: nat, n: nat)
    requires 0 < m && 0 < n
    ensures Pow128(m) + Pow128(n) <= Pow128(m + n)
  {
    if 1 < m {
      Pow128Sum(m - 1, n);
      assert Pow128(m + n) == 128 * Pow128(m - 1 + n);
    } else if 1 < n {
      Pow128Sum(m, n - 1);
      assert Pow128(m + n) == 128 * Pow128(m + n - 1);
    } else {
      assert Pow128(1) == 128 && Pow128(2) == 16384;
    }
  }

  lemma VarintOfSum(a: nat, b: nat)
    ensures |EncodeVarint(a + b)| <= |EncodeVarint(a)| + |EncodeVarint(b)|
  {
    var m, n := |EncodeVarint(a)|, |EncodeVarint(b)|;
    VarintFits(a);
    VarintFits(b);
    Pow128Sum(m, n);
    VarintRoundTrip(a + b, m + n, []);
  }

  lemma ReadsShortest(bs: seq<byte>)
    ensures ReadTag(bs).Some? ==> |EncodeVarint(ReadTag(bs).value.0)| <= ReadTag(bs).value.1
    ensures ReadVarint64(bs).Some? ==> |EncodeVarint(ReadVarint64(bs).value.0)| <= ReadVarint64(bs).value.1
    ensures ReadVarint32(bs).Some? ==> |EncodeVarint(ReadVarint32(bs).value.0)| <= ReadVarint32(bs).value.1
    ensures ReadSize(bs).Some? ==> |EncodeVarint(ReadSize(bs).value.0)| <= ReadSize(bs).value.1
  {
    hide EncodeVarint, DecodeVarint;
    if DecodeVarint(bs, 5).Some? {
      VarintShortest(bs, 5);
      VarintMonotone(DecodeVarint(bs, 5).value.0 % 0x1_0000_0000, DecodeVarint(bs, 5).value.0);
    }
    if DecodeVarint(bs, 10).Some? {
      var v := DecodeVarint(bs, 10).value.0;
      VarintShortest(bs, 10);
      VarintMonotone(v % 0x1_0000_0000, v);
      VarintMonotone(v % 0x1_0000_0000_0000_0000, v);
    }
  }

  // Unknown fields

  lemma {:induction false} BodyShortest(tag: nat, bs: seq<byte>, depth: nat)
    requires ParseBody(tag, bs, depth).Some?
    ensures var u := ParseBody(tag, bs, depth).value;
            |Body(u.0)| <= u.1 && MakeTag(u.0.number, WireTypeOf(u.0)) == tag
    decreases |bs|, 1
  {
    hide EncodeVarint, ReadVarint64, ReadSize, DecodeFixed, ParseGroup, EncodeAll;
    ReadsShortest(bs);
    if tag % 8 == START_GROUP {
      GroupShortest(tag / 8, bs, depth - 1);
    }
  }

  lemma {:induction false} GroupShortest(number: nat, bs: seq<byte>, depth: nat)
    requires ParseGroup(number, bs, depth).Some?
    ensures var g := ParseGroup(number, bs, depth).value;
            |EncodeAll(g.0)| + |EncodeVarint(MakeTag(number, END_GROUP))| <= g.1
    decreases |bs|, 0
  {
    hide EncodeVarint, ReadTag, ParseBody, MakeTag, Body, WireTypeOf;
    ReadsShortest(bs);
    var t := ReadTag(bs).value;
    if !(t.0 == 0 || t.0 % 8 == END_GROUP) {
      BodyShortest(t.0, bs[t.1..], depth);
      var u := ParseBody(t.0, bs[t.1..], depth).value;
      GroupShortest(number, bs[t.1 + u.1..], depth);
      var g := ParseGroup(number, bs[t.1 + u.1..], depth).value.0;
      assert ([u.0] + g)[1..] == g;
    }
  }

  lemma {:induction false} LengthWithUnknown(us: seq<Unknown>, u: Unknown)
    ensures |EncodeAll(us + [u])|
         == |EncodeAll(us)| + |EncodeVarint(MakeTag(u.number, WireTypeOf(u)))| + |Body(u)|
  {
    hide EncodeVarint, Body, MakeTag;
    if us == [] {
      assert us + [u] == [u];
      assert EncodeAll([u][1..]) == [];
    } else {
      assert (us + [u])[1..] == us[1..] + [u];
      LengthWithUnknown(us[1..], u);
    }
  }

  // Known fields

  lemma {:induction false} LengthWithField(t: MessageType, m: Msg, i: nat, v: Val, k: nat)
    requires MsgOk(t, m) && i < |Schema(t)| && ValOk(Schema(t)[i], v) && k <= |Schema(t)|
    ensures |EncodeFrom(t, WithField(t, m, i, v), k)|
         == |EncodeFrom(t, m, k)|
            + if k <= i then |EncodeVal(Schema(t)[i], v)| - |EncodeVal(Schema(t)[i], m.fields[i])| else 0
    decreases |Schema(t)| - k
  {
    hide Schema, EncodeVal, ValOk, MsgOk;
    FieldCount(t, m);
    FieldCount(t, WithField(t, m, i, v));
    if k < |Schema(t)| {
      LengthWithField(t, m, i, v, k + 1);
    }
  }

  lemma {:induction false} UnsetFrom(t: MessageType, m: Msg, k: nat)
    requires MsgOk(t, m) && k <= |Schema(t)| && forall j :: k <= j < |Schema(t)| ==> m.fields[j] == Unset
    ensures EncodeFrom(t, m, k) == []
    decreases |Schema(t)| - k
  {
    hide Schema, MsgOk;
    FieldCount(t, m);
    if k < |Schema(t)| {
      UnsetFrom(t, m, k + 1);
    }
  }

  /** A sub-message that grew by at most n bytes makes its field grow by at most a tag, n's own prefix and n. */
  lemma SubGrowth(t: MessageType, i: nat, was: Val, m: Msg, n: nat)
    requires i < |Schema(t)| && ValOk(Schema(t)[i], was) && ValOk(Schema(t)[i], Sub(m))
    requires var f := Schema(t)[i];
             f.kind.KMessage? && |Encode(f.kind.of, m)| <= |Encode(f.kind.of, SubOrDefault(f, was))| + n
    ensures |EncodeVal(Schema(t)[i], Sub(m))| <= |EncodeVal(Schema(t)[i], was)| + 1 + |EncodeVarint(n)| + n
  {
    hide Schema, Encode, EncodeVal, EncodeVarint, MsgOk;
    var of := Schema(t)[i].kind.of;
    SizeOfField(t, i, was);
    SizeOfField(t, i, Sub(m));
    if was == Unset {
      EmptyDefault(of);
      VarintMonotone(|Encode(of, m)|, n);
    } else {
      var l := |Encode(of, was.m)|;
      VarintMonotone(|Encode(of, m)|, l + n);
      VarintOfSum(l, n);
    }
  }

  lemma EmptyDefault(t: MessageType)
    ensures MsgOk(t, Default(t)) && Encode(t, Default(t)) == []
  {
    UnsetFrom(t, Default(t), 0);
  }

  lemma {:induction false} KnownGrowth(t: MessageType, i: nat, bs: seq<byte>, m: Msg, depth: nat)
    requires MsgOk(t, m) && i < |Schema(t)| && ParseKnown(t, i, bs, m, depth).Some?
    ensures var r := ParseKnown(t, i, bs, m, depth).value; |Encode(t, r.0)| <= |Encode(t, m)| + 1 + r.1
    decreases |bs|, 1
  {
    hide Schema, MsgOk, EncodeVal, EncodeFrom, EncodeVarint, ReadSize, ReadVarint32, ReadVarint64, DecodeFixed;
    hide ParseInto;
    FieldCount(t, m);
    ReadsShortest(bs);
    var f := Schema(t)[i];
    if f.kind.KMessage? {
      var sub, p := SubOrDefault(f, m.fields[i]), ReadSize(bs).value;
      IntoGrowth(f.kind.of, bs[p.1..p.1 + p.0], sub, depth - 1);
      var s := ParseSub(f.kind.of, bs, sub, depth).value;
      SubGrowth(t, i, m.fields[i], s.0, p.0);
      LengthWithField(t, m, i, Sub(s.0), 0);
    } else {
      var s := ParseScalar(f.kind, bs).value;
      SizeOfField(t, i, ScalarVal(f, s.0));
      VarintAtMostFive(s.0);
      LengthWithField(t, m, i, ScalarVal(f, s.0), 0);
    }
  }

  lemma {:induction false} FieldGrowth(t: MessageType, bs: seq<byte>, m: Msg, depth: nat)
    requires MsgOk(t, m) && ParseField(t, bs, m, depth).Some?
    ensures var r := ParseField(t, bs, m, depth).value; |Encode(t, r.0)| <= |Encode(t, m)| + r.1
    decreases |bs|, 1
  {
    hide Schema, MsgOk, EncodeFrom, EncodeVarint, EncodeAll, ReadTag, ParseKnown, ParseBody, MakeTag, Body;
    ReadsShortest(bs);
    var p := ReadTag(bs).value;
    var rest := bs[p.1..];
    if Known(t, p.0 / 8, p.0 % 8) {
      KnownGrowth(t, FieldIndex(Schema(t), p.0 / 8), rest, m, depth);
    } else {
      var u := ParseBody(p.0, rest, depth).value.0;
      BodyShortest(p.0, rest, depth);
      ParsedBodyInRange(p.0, rest, depth);
      LengthWithUnknown(m.unknown, u);
      SameFields(t, m, u);
    }
  }

  lemma {:induction false} SameFieldsFrom(t: MessageType, m: Msg, n: Msg, k: nat)
    requires MsgOk(t, m) && MsgOk(t, n) && m.fields == n.fields && k <= |Schema(t)|
    ensures EncodeFrom(t, m, k) == EncodeFrom(t, n, k)
    decreases |Schema(t)| - k
  {
    hide Schema, EncodeVal, ValOk;
    if k < |Schema(t)| {
      SameFieldsFrom(t, m, n, k + 1);
    }
  }

  lemma SameFields(t: MessageType, m: Msg, u: Unknown)
    requires MsgOk(t, m) && InRange(u) && !Known(t, u.number, WireTypeOf(u))
    ensures EncodeFrom(t, WithUnknown(t, m, u), 0) == EncodeFrom(t, m, 0)
  {
    SameFieldsFrom(t, m, WithUnknown(t, m, u), 0);
  }

  /** Parsing n bytes makes a message at most n bytes longer. */
  lemma {:induction false} IntoGrowth(t: MessageType, bs: seq<byte>, m: Msg, depth: nat)
    requires MsgOk(t, m) && ParseInto(t, bs, m, depth).Some?
    ensures |Encode(t, ParseInto(t, bs, m, depth).value)| <= |Encode(t, m)| + |bs|
    decreases |bs|, 2
  {
    hide ParseField, Encode;
    if bs != [] {
      assert ParseField(t, bs, m, depth).Some? by {
        assert ParseInto(t, bs, m, depth) != None;
      }
      var r := ParseField(t, bs, m, depth).value;
      FieldGrowth(t, bs, m, depth);
      IntoGrowth(t, bs[r.1..], r.0, depth);
    }
  }
}
